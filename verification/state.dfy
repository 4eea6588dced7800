/**
 * The notification state store: a map from hackathon URL to when it was last alerted,
 * at which level and under which name, with the suppression check, the upsert, and the
 * retention prune that the program performs on it.
 */
module NotificationState {
  import opened Wrappers
  import opened Seqs
  import opened Records
  import opened Urgency

  /**
   * The stored `last_notified` value. `Missing` covers an absent or empty value, `Unparsable`
   * a non-empty value that is not an ISO-8601 timestamp, `At` a parsed timestamp in seconds.
   */
  datatype Stamp = Missing | Unparsable | At(seconds: int)

  datatype Entry = Entry(lastNotified: Stamp, level: string, name: string)

  /** URL -> state entry. */
  type Store = map<string, Entry>

  const SecondsPerDay: int := 86400

  /** What reading the state file produced. */
  datatype StateFile = NoFile | Corrupt | Parsed(store: Store)

  /** No later entry of `recs` has the same URL as entry `i`: entry `i` is the one whose record stays. */
  predicate LastForUrl(recs: seq<Scored>, i: int) {
    0 <= i < |recs| && forall j :: i < j < |recs| ==> recs[j].item.url != recs[i].item.url
  }

  /** A missing file, one that cannot be read, or one that is not valid JSON loads as the empty store. */
  function LoadState(file: StateFile): (store: Store)
    ensures file.Parsed? ==> store == file.store
    ensures !file.Parsed? ==> store == map[]
  {
    match file
    case Parsed(s) => s
    case _ => map[]
  }

  /**
   * An alert is due when the URL was never recorded, its timestamp is missing or unparsable,
   * or at least the record's current interval has elapsed. The stored level plays no part.
   */
  function ShouldNotify(store: Store, rec: Scored, now: int): (due: bool)
    ensures due <==>
      rec.item.url !in store || !store[rec.item.url].lastNotified.At?
      || now - store[rec.item.url].lastNotified.seconds >= rec.interval * SecondsPerHour
  {
    var url := rec.item.url;
    if url !in store then true
    else match store[url].lastNotified
      case Missing => true
      case Unparsable => true
      case At(t) => (now - t) as real / SecondsPerHour as real >= rec.interval as real
  }

  /** An empty store (fresh or failed load) makes every record due. */
  lemma EmptyStoreNotifiesAll(file: StateFile, rec: Scored, now: int)
    requires !file.Parsed?
    ensures ShouldNotify(LoadState(file), rec, now)
  {
  }

  /** Escalating to a shorter interval never suppresses an alert a longer interval would allow. */
  lemma ShorterIntervalNotifiesSooner(store: Store, rec: Scored, interval: nat, now: int)
    requires interval <= rec.interval
    requires ShouldNotify(store, rec, now)
    ensures ShouldNotify(store, rec.(interval := interval), now)
  {
  }

  /** Upserts the URL's entry with time `now`, the record's level and name; other URLs are untouched. */
  function RecordNotification(store: Store, rec: Scored, now: int): (r: Store)
    ensures r.Keys == store.Keys + {rec.item.url}
    ensures r[rec.item.url] == Entry(At(now), LevelName(rec.level), rec.item.name)
    ensures forall u :: u in store && u != rec.item.url ==> r[u] == store[u]
  {
    store[rec.item.url := Entry(At(now), LevelName(rec.level), rec.item.name)]
  }

  /** Right after recording at time `now`, the same URL is not due at `now` for any positive interval. */
  lemma RecordSuppresses(store: Store, rec: Scored, other: Scored, now: int)
    requires other.item.url == rec.item.url
    requires other.interval > 0
    ensures !ShouldNotify(RecordNotification(store, rec, now), other, now)
  {
  }

  /** No record of `recs` has the URL `u`. */
  predicate Untouched(recs: seq<Scored>, u: string) {
    forall i :: 0 <= i < |recs| ==> recs[i].item.url != u
  }

  /** Records every entry of `recs` in order, all at time `now`. */
  function RecordAll(store: Store, recs: seq<Scored>, now: int): (r: Store)
    ensures forall u :: u in r <==> u in store || exists i :: 0 <= i < |recs| && recs[i].item.url == u
    ensures forall i :: 0 <= i < |recs| ==> r[recs[i].item.url].lastNotified == At(now)
    ensures forall u :: u in store && Untouched(recs, u) ==> r[u] == store[u]
    ensures forall i :: LastForUrl(recs, i) ==>
      r[recs[i].item.url] == Entry(At(now), LevelName(recs[i].level), recs[i].item.name)
    decreases |recs|
  {
    if |recs| == 0 then store
    else
      var next := RecordNotification(store, recs[0], now);
      var r := RecordAll(next, recs[1..], now);
      RecordStep(store, recs, now, next, r);
      r
  }

  /** One step of `RecordAll`: recording the first record and then the rest, given what recording the rest alone does. */
  lemma RecordStep(store: Store, recs: seq<Scored>, now: int, next: Store, r: Store)
    requires |recs| > 0
    requires next == RecordNotification(store, recs[0], now)
    requires forall u :: u in r <==> u in next || exists i :: 0 <= i < |recs| - 1 && recs[1..][i].item.url == u
    requires forall i :: 0 <= i < |recs| - 1 ==> r[recs[1..][i].item.url].lastNotified == At(now)
    requires forall u :: u in next && Untouched(recs[1..], u) ==> r[u] == next[u]
    requires forall i :: LastForUrl(recs[1..], i) ==>
      r[recs[1..][i].item.url] == Entry(At(now), LevelName(recs[1..][i].level), recs[1..][i].item.name)
    ensures forall u :: u in r <==> u in store || exists i :: 0 <= i < |recs| && recs[i].item.url == u
    ensures forall i :: 0 <= i < |recs| ==> r[recs[i].item.url].lastNotified == At(now)
    ensures forall u :: u in store && Untouched(recs, u) ==> r[u] == store[u]
    ensures forall i :: LastForUrl(recs, i) ==>
      r[recs[i].item.url] == Entry(At(now), LevelName(recs[i].level), recs[i].item.name)
  {
    var first, rest := recs[0], recs[1..];
    assert forall j :: 0 <= j < |rest| ==> recs[j + 1] == rest[j];
    forall u
      ensures u in r <==> u in store || exists i :: 0 <= i < |recs| && recs[i].item.url == u
    {
      if exists i :: 0 <= i < |rest| && rest[i].item.url == u {
        var i :| 0 <= i < |rest| && rest[i].item.url == u;
        assert recs[i + 1].item.url == u;
      }
      if exists i :: 0 <= i < |recs| && recs[i].item.url == u {
        var i :| 0 <= i < |recs| && recs[i].item.url == u;
        if i > 0 {
          assert rest[i - 1].item.url == u;
        }
      }
    }
    forall i | 0 <= i < |recs|
      ensures r[recs[i].item.url].lastNotified == At(now)
    {
      if i > 0 {
        assert recs[i] == rest[i - 1];
      } else if !Untouched(rest, first.item.url) {
        var j :| 0 <= j < |rest| && rest[j].item.url == first.item.url;
      }
    }
    forall u | u in store && Untouched(recs, u)
      ensures r[u] == store[u]
    {
      assert recs[0].item.url != u;
      assert Untouched(rest, u) by {
        forall j | 0 <= j < |rest|
          ensures rest[j].item.url != u
        {
          assert recs[j + 1] == rest[j];
        }
      }
    }
    forall i | LastForUrl(recs, i)
      ensures r[recs[i].item.url] == Entry(At(now), LevelName(recs[i].level), recs[i].item.name)
    {
      if i > 0 {
        assert LastForUrl(rest, i - 1) by {
          forall j | i - 1 < j < |rest|
            ensures rest[j].item.url != rest[i - 1].item.url
          {
            assert recs[j + 1] == rest[j];
          }
        }
      } else {
        assert Untouched(rest, first.item.url) by {
          forall j | 0 <= j < |rest|
            ensures rest[j].item.url != first.item.url
          {
            assert recs[j + 1] == rest[j];
          }
        }
      }
    }
  }

  /** The order-preserving subsequence of `recs` that is due at `now`. */
  function FilterForNotification(store: Store, recs: seq<Scored>, now: int): (r: seq<Scored>)
    ensures forall x :: x in r <==> x in recs && ShouldNotify(store, x, now)
    ensures SubsequenceOf(r, recs)
  {
    FilterIsSubsequence(recs, x => ShouldNotify(store, x, now));
    Filter(recs, x => ShouldNotify(store, x, now))
  }

  /** Filtering a concatenation filters each part. */
  lemma FilterForNotificationConcat(store: Store, a: seq<Scored>, b: seq<Scored>, now: int)
    ensures FilterForNotification(store, a + b, now)
      == FilterForNotification(store, a, now) + FilterForNotification(store, b, now)
  {
    FilterConcat(a, b, x => ShouldNotify(store, x, now));
  }

  /**
   * Recording everything the filter selected silences the whole batch at the same instant:
   * a second filter pass at `now` selects nothing when every interval is positive.
   */
  lemma SecondPassSelectsNothing(store: Store, recs: seq<Scored>, now: int)
    requires forall i :: 0 <= i < |recs| ==> recs[i].interval > 0
    ensures var due := FilterForNotification(store, recs, now);
      FilterForNotification(RecordAll(store, due, now), recs, now) == []
  {
    var due := FilterForNotification(store, recs, now);
    var after := RecordAll(store, due, now);
    var again := FilterForNotification(after, recs, now);
    forall x | x in recs
      ensures !ShouldNotify(after, x, now)
    {
      if exists i :: 0 <= i < |due| && due[i].item.url == x.item.url {
        var i :| 0 <= i < |due| && due[i].item.url == x.item.url;
        assert after[x.item.url].lastNotified == At(now);
      } else {
        assert x !in due;
        assert !ShouldNotify(store, x, now);
      }
    }
    FilterNone(recs, x => ShouldNotify(after, x, now));
  }

  /** The cutoff before which a parsed timestamp is pruned. */
  function Cutoff(days: int, now: int): int {
    now - days * SecondsPerDay
  }

  /** Whether the prune drops an entry: an unparsable timestamp, or a parsed one strictly before the cutoff. */
  predicate Expired(e: Entry, cutoff: int) {
    match e.lastNotified
    case Missing => false
    case Unparsable => true
    case At(t) => t < cutoff
  }

  /** The pruned store, and whether the state file is rewritten. */
  datatype Cleaned = Cleaned(store: Store, saved: bool)

  /** Drops expired entries; the file is rewritten only if something was dropped. */
  function CleanupOldEntries(store: Store, days: int, now: int): (r: Cleaned)
    ensures r.store.Keys <= store.Keys
    ensures forall u :: u in r.store ==> r.store[u] == store[u]
    ensures forall u :: u in store ==>
      (u !in r.store <==>
        (store[u].lastNotified == Unparsable
         || (store[u].lastNotified.At? && store[u].lastNotified.seconds < now - days * SecondsPerDay)))
    ensures r.saved <==> |r.store| < |store|
  {
    var cutoff := Cutoff(days, now);
    var removed := set u | u in store && Expired(store[u], cutoff);
    var kept := map u | u in store && !Expired(store[u], cutoff) :: store[u];
    assert kept.Keys == store.Keys - removed;
    assert |kept| == |store| - |removed|;
    Cleaned(kept, removed != {})
  }

  /** Pruning twice at the same instant changes nothing the second time and writes nothing. */
  lemma CleanupIdempotent(store: Store, days: int, now: int)
    ensures var once := CleanupOldEntries(store, days, now);
      var twice := CleanupOldEntries(once.store, days, now);
      twice.store == once.store && !twice.saved
  {
    var once := CleanupOldEntries(store, days, now);
    var twice := CleanupOldEntries(once.store, days, now);
    assert twice.store.Keys == once.store.Keys;
  }

  /** An entry notified 40 days ago is pruned by a 30-day cleanup and stays absent after a second one. */
  lemma FortyDayOldEntryScenario(store: Store, url: string, now: int)
    requires url in store && store[url].lastNotified == At(now - 40 * SecondsPerDay)
    ensures var once := CleanupOldEntries(store, 30, now);
      url !in once.store && once.saved && url !in CleanupOldEntries(once.store, 30, now).store
  {
    var once := CleanupOldEntries(store, 30, now);
    assert once.store.Keys <= store.Keys - {url};
    assert |store.Keys - {url}| == |store| - 1;
  }

  /** The number of tracked hackathons and their URLs. */
  datatype Summary = Summary(totalTracked: nat, hackathons: set<string>)

  function GetSummary(store: Store): (s: Summary)
    ensures s.totalTracked == |s.hackathons|
    ensures forall u :: u in s.hackathons <==> u in store
  {
    Summary(|store|, store.Keys)
  }
}
