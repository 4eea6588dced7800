/**
 * The urgency engine: time remaining, the five alert levels, re-notification intervals,
 * the priority score, and the filter / stable-sort / top-N pipeline over scraped hackathons.
 */
module Urgency {
  import opened Wrappers
  import opened Seqs
  import opened StableSort
  import opened Records

  /** Ordinal urgency bands, most urgent first. */
  datatype AlertLevel = Critical | High | Medium | Low | Ignore

  /** The level's name as stored in the state file and shown in messages. */
  function LevelName(level: AlertLevel): string {
    match level
    case Critical => "CRITICAL"
    case High => "HIGH"
    case Medium => "MEDIUM"
    case Low => "LOW"
    case Ignore => "IGNORE"
  }

  /** Position in the urgency order: 0 is the most urgent. */
  function Rank(level: AlertLevel): nat {
    match level
    case Critical => 0
    case High => 1
    case Medium => 2
    case Low => 3
    case Ignore => 4
  }

  /** Upper bounds (inclusive, in hours) of the first four bands. */
  const CriticalThreshold: real := 3.0
  const HighThreshold: real := 12.0
  const MediumThreshold: real := 48.0
  const LowThreshold: real := 168.0

  const SecondsPerHour: int := 3600

  /** Hours from `now` until `deadline`, clamped at zero once the deadline has passed. */
  function HoursRemaining(deadline: int, now: int): (h: real)
    ensures h >= 0.0
    ensures deadline >= now ==> h * (SecondsPerHour as real) == (deadline - now) as real
    ensures deadline <= now ==> h == 0.0
  {
    var delta := (deadline - now) as real / SecondsPerHour as real;
    if delta > 0.0 then delta else 0.0
  }

  /** The band of `hours`: thresholds checked in ascending order, first match wins. */
  function AlertLevelOf(hours: real): (level: AlertLevel)
    ensures level == Critical <==> hours <= CriticalThreshold
    ensures level == High <==> CriticalThreshold < hours <= HighThreshold
    ensures level == Medium <==> HighThreshold < hours <= MediumThreshold
    ensures level == Low <==> MediumThreshold < hours <= LowThreshold
    ensures level == Ignore <==> LowThreshold < hours
  {
    if hours <= CriticalThreshold then Critical
    else if hours <= HighThreshold then High
    else if hours <= MediumThreshold then Medium
    else if hours <= LowThreshold then Low
    else Ignore
  }

  /** More time left never yields a more urgent level. */
  lemma LevelMonotone(h1: real, h2: real)
    requires h1 <= h2
    ensures Rank(AlertLevelOf(h1)) <= Rank(AlertLevelOf(h2))
  {
  }

  /** Minimum hours between two alerts for the same hackathon at a given level. */
  function Interval(level: AlertLevel): (hours: nat)
    ensures hours >= 1
    ensures level == Ignore <==> hours == 168
  {
    match level
    case Critical => 1
    case High => 3
    case Medium => 12
    case Low => 24
    case Ignore => 168
  }

  /** Less urgent levels never re-notify more often. */
  lemma IntervalMonotone(a: AlertLevel, b: AlertLevel)
    requires Rank(a) <= Rank(b)
    ensures Interval(a) <= Interval(b)
    ensures Rank(a) < Rank(b) ==> Interval(a) < Interval(b)
  {
  }

  /** The time component of the priority: `50 / max(hours, 1)`. */
  function TimeScore(hours: real): (s: real)
    ensures hours <= 1.0 ==> s == 50.0
    ensures hours >= 1.0 ==> s * hours == 50.0
  {
    50.0 / (if hours > 1.0 then hours else 1.0)
  }

  /** The prize component: `20 * min(prize / 10000, 1)`, or 0 when the prize is absent or zero. */
  function PrizeScore(prize: Option<real>): (s: real)
    ensures prize.None? || prize.value == 0.0 ==> s == 0.0
    ensures prize.Some? && prize.value != 0.0 && prize.value <= 10000.0 ==> s * 500.0 == prize.value
    ensures prize.Some? && prize.value >= 10000.0 ==> s == 20.0
  {
    if prize.None? || prize.value == 0.0 then 0.0
    else 20.0 * (if prize.value / 10000.0 < 1.0 then prize.value / 10000.0 else 1.0)
  }

  /** Ranking value: time urgency, normalised prize and tag affinity weighted 50/20/30. */
  function PriorityScore(hours: real, prize: Option<real>, tagMatch: real): (s: real)
    ensures (prize.None? || prize.value >= 0.0) && tagMatch >= 0.0 ==> s > 0.0
    ensures (prize.None? || prize.value >= 0.0) && 0.0 <= tagMatch <= 1.0 ==> s <= 100.0
  {
    TimeScoreBounds(hours);
    PrizeScoreBounds(prize);
    TimeScore(hours) + PrizeScore(prize) + 30.0 * tagMatch
  }

  /** The time component is positive, at most 50, and exactly 50 within the last hour. */
  lemma TimeScoreBounds(hours: real)
    ensures 0.0 < TimeScore(hours) <= 50.0
    ensures hours <= 1.0 ==> TimeScore(hours) == 50.0
  {
    var d := if hours > 1.0 then hours else 1.0;
    assert TimeScore(hours) * d == 50.0;
  }

  /** Beyond the first hour the time component strictly falls as the deadline recedes. */
  lemma TimeScoreDecreasing(h1: real, h2: real)
    requires 1.0 <= h1 < h2
    ensures TimeScore(h2) < TimeScore(h1)
  {
    var a, b := TimeScore(h1), TimeScore(h2);
    assert a * h1 == 50.0;
    assert b * h2 == 50.0;
    TimeScoreBounds(h1);
    assert a * h2 > a * h1 by {
      assert a * (h2 - h1) > 0.0;
    }
    assert (a - b) * h2 == a * h2 - b * h2;
    assert (a - b) * h2 > 0.0 by {
      assert a * h2 - b * h2 > a * h1 - 50.0;
    }
    PositiveFactor(a - b, h2);
  }

  lemma PositiveFactor(x: real, y: real)
    requires y > 0.0 && x * y > 0.0
    ensures x > 0.0
  {
  }

  /** The time component never rises as the deadline recedes. */
  lemma TimeScoreNonIncreasing(h1: real, h2: real)
    requires h1 <= h2
    ensures TimeScore(h2) <= TimeScore(h1)
  {
    if h2 > 1.0 && h1 < h2 {
      if h1 >= 1.0 {
        TimeScoreDecreasing(h1, h2);
      } else {
        TimeScoreDecreasing(1.0, h2);
      }
    }
  }

  /** The prize component: 0 when absent or zero, within [0, 20] for a non-negative prize, 20 from 10000 up. */
  lemma PrizeScoreBounds(prize: Option<real>)
    ensures prize.None? || prize == Some(0.0) ==> PrizeScore(prize) == 0.0
    ensures prize.Some? && prize.value >= 0.0 ==> 0.0 <= PrizeScore(prize) <= 20.0
    ensures prize.Some? && prize.value >= 10000.0 ==> PrizeScore(prize) == 20.0
  {
  }

  /** With equal prize and tag score, fewer hours never gives a lower priority. */
  lemma PriorityFavoursSooner(h1: real, h2: real, prize: Option<real>, tagMatch: real)
    requires h1 <= h2
    ensures PriorityScore(h1, prize, tagMatch) >= PriorityScore(h2, prize, tagMatch)
  {
    TimeScoreNonIncreasing(h1, h2);
  }

  /** A hackathon enriched with its urgency metadata. */
  datatype Scored = Scored(
    item: Hackathon,
    hoursRemaining: real,
    level: AlertLevel,
    score: real,
    interval: nat)

  /** Urgency metadata for one hackathon at time `now`; the tag match score is always 0. */
  function Score(h: Hackathon, now: int): Scored {
    var hours := HoursRemaining(h.deadline, now);
    var level := AlertLevelOf(hours);
    Scored(h, hours, level, PriorityScore(hours, h.prize, 0.0), Interval(level))
  }

  predicate IsUrgent(s: Scored) {
    s.level != Ignore
  }

  /** The inputs that are not IGNORE, scored, in input order. */
  function UrgentEntries(hs: seq<Hackathon>, now: int): seq<Scored> {
    Filter(seq(|hs|, i requires 0 <= i < |hs| => Score(hs[i], now)), IsUrgent)
  }

  /** Sort key for "highest score first". */
  function NegScore(s: Scored): real {
    -s.score
  }

  /** Drops IGNORE entries, sorts stably by descending score, and keeps Python's `[:top_n]` slice. */
  function ProcessHackathons(hs: seq<Hackathon>, now: int, topN: int): (r: seq<Scored>)
    ensures forall i :: 0 <= i < |r| ==> r[i].level != Ignore
    ensures forall i :: 0 <= i < |r| ==>
      r[i].interval == Interval(r[i].level) && exists h :: h in hs && r[i] == Score(h, now)
    ensures topN >= 0 ==> |r| <= topN
    ensures |r| <= |UrgentEntries(hs, now)|
    ensures topN >= 0 ==> |r| == if topN <= |UrgentEntries(hs, now)| then topN else |UrgentEntries(hs, now)|
    ensures topN < 0 ==> |r| == if |UrgentEntries(hs, now)| + topN >= 0 then |UrgentEntries(hs, now)| + topN else 0
  {
    var urgent := UrgentEntries(hs, now);
    UrgentFacts(hs, now);
    SelectedFromInput(urgent, topN);
    Take(SortBy(urgent, NegScore), topN)
  }

  /** Every entry the sort-and-slice keeps was one of its inputs. */
  lemma SelectedFromInput(urgent: seq<Scored>, topN: int)
    ensures forall x :: x in Take(SortBy(urgent, NegScore), topN) ==> x in urgent
  {
    var sorted := SortBy(urgent, NegScore);
    forall x | x in Take(sorted, topN)
      ensures x in urgent
    {
      assert x in sorted;
      assert x in multiset(sorted);
    }
  }

  /** Every urgent entry is a scored input with its level's interval. */
  lemma UrgentFacts(hs: seq<Hackathon>, now: int)
    ensures forall x :: x in UrgentEntries(hs, now) ==>
      x.level != Ignore && x.interval == Interval(x.level) && exists h :: h in hs && x == Score(h, now)
  {
    var scored := seq(|hs|, i requires 0 <= i < |hs| => Score(hs[i], now));
    forall x | x in UrgentEntries(hs, now)
      ensures x.level != Ignore && x.interval == Interval(x.level) && exists h :: h in hs && x == Score(h, now)
    {
      assert x in scored;
      var i :| 0 <= i < |scored| && scored[i] == x;
      assert hs[i] in hs;
    }
  }

  /** The selected entries are ordered by descending score, ties in input order, and none outranked. */
  lemma ProcessRanking(hs: seq<Hackathon>, now: int, topN: int)
    ensures var r := ProcessHackathons(hs, now, topN);
      forall i, j :: 0 <= i < j < |r| ==> r[i].score >= r[j].score
    ensures var r := ProcessHackathons(hs, now, topN);
      forall k :: KeyClass(r, NegScore, k) <= KeyClass(UrgentEntries(hs, now), NegScore, k)
    ensures var r := ProcessHackathons(hs, now, topN);
      multiset(r) <= multiset(UrgentEntries(hs, now))
    ensures var r := ProcessHackathons(hs, now, topN);
      forall x, i :: x in multiset(UrgentEntries(hs, now)) - multiset(r) && 0 <= i < |r| ==> x.score <= r[i].score
    ensures var r := ProcessHackathons(hs, now, topN);
      topN >= |UrgentEntries(hs, now)| ==> r == SortBy(UrgentEntries(hs, now), NegScore)
  {
    var urgent := UrgentEntries(hs, now);
    var sorted := SortBy(urgent, NegScore);
    var r := ProcessHackathons(hs, now, topN);
    assert r <= sorted;
    PrefixOrdered(sorted, r);
    forall k
      ensures KeyClass(r, NegScore, k) <= KeyClass(urgent, NegScore, k)
    {
      KeyClassOfPrefix(r, sorted, NegScore, k);
    }
    PrefixSelection(sorted, r);
  }

  /** A prefix of a sequence sorted by `NegScore` has non-increasing scores. */
  lemma PrefixOrdered(sorted: seq<Scored>, r: seq<Scored>)
    requires SortedBy(sorted, NegScore)
    requires r <= sorted
    ensures forall i, j :: 0 <= i < j < |r| ==> r[i].score >= r[j].score
  {
    forall i, j | 0 <= i < j < |r|
      ensures r[i].score >= r[j].score
    {
      assert NegScore(sorted[i]) <= NegScore(sorted[j]);
    }
  }

  /** Whatever a prefix of a sorted sequence leaves behind scores no higher than what it keeps. */
  lemma PrefixSelection(sorted: seq<Scored>, r: seq<Scored>)
    requires SortedBy(sorted, NegScore)
    requires r <= sorted
    ensures multiset(r) <= multiset(sorted)
    ensures forall x, i :: x in multiset(sorted) - multiset(r) && 0 <= i < |r| ==> x.score <= r[i].score
  {
    var rest := sorted[|r|..];
    assert sorted == r + rest;
    assert multiset(sorted) == multiset(r) + multiset(rest);
    forall x, i | x in multiset(sorted) - multiset(r) && 0 <= i < |r|
      ensures x.score <= r[i].score
    {
      assert x in multiset(rest);
      var j :| 0 <= j < |rest| && rest[j] == x;
      assert sorted[|r| + j] == x;
      assert NegScore(sorted[i]) <= NegScore(sorted[|r| + j]);
    }
  }

  /** A fixed input: deadlines at 2h, 10h, 36h, 5 days and 10 days from `now`. */
  function MockHackathons(now: int): seq<Hackathon> {
    [ Hackathon("Critical Hackathon", "https://devpost.com/critical", now + 2 * 3600, Some(5000.0), "", ["AI", "ML"]),
      Hackathon("High Priority Hackathon", "https://devpost.com/high", now + 10 * 3600, Some(10000.0), "", ["Web3"]),
      Hackathon("Medium Priority Hackathon", "https://devpost.com/medium", now + 36 * 3600, Some(2000.0), "", ["Climate"]),
      Hackathon("Low Priority Hackathon", "https://devpost.com/low", now + 5 * 86400, Some(1000.0), "", ["Education"]),
      Hackathon("Ignored Hackathon", "https://devpost.com/ignored", now + 10 * 86400, Some(500.0), "", ["Other"]) ]
  }

  /** The scores of the fixed input: 35, 25, 50/36 + 4, 50/120 + 2, and IGNORE for the last. */
  lemma MockScores(now: int)
    ensures Score(MockHackathons(now)[0], now).score == 35.0
    ensures Score(MockHackathons(now)[1], now).score == 25.0
    ensures Score(MockHackathons(now)[2], now).score == 50.0 / 36.0 + 4.0
    ensures Score(MockHackathons(now)[3], now).score == 50.0 / 120.0 + 2.0
    ensures Score(MockHackathons(now)[0], now).level == Critical
    ensures Score(MockHackathons(now)[1], now).level == High
    ensures Score(MockHackathons(now)[2], now).level == Medium
    ensures Score(MockHackathons(now)[3], now).level == Low
    ensures Score(MockHackathons(now)[4], now).level == Ignore
    ensures Score(MockHackathons(now)[0], now).interval == 1
    ensures Score(MockHackathons(now)[1], now).interval == 3
    ensures Score(MockHackathons(now)[2], now).interval == 12
    ensures Score(MockHackathons(now)[3], now).interval == 24
  {
    var hs := MockHackathons(now);
    assert HoursRemaining(hs[0].deadline, now) == 2.0;
    assert HoursRemaining(hs[1].deadline, now) == 10.0;
    assert HoursRemaining(hs[2].deadline, now) == 36.0;
    assert HoursRemaining(hs[3].deadline, now) == 120.0;
    assert HoursRemaining(hs[4].deadline, now) == 240.0;
  }

  /** The four urgent entries of the fixed input are already in descending score order. */
  lemma SortAlreadyOrdered(s0: Scored, s1: Scored, s2: Scored, s3: Scored)
    requires s0.score >= s1.score >= s2.score >= s3.score
    ensures SortBy([s0, s1, s2, s3], NegScore) == [s0, s1, s2, s3]
  {
    assert [s3][1..] == [];
    assert SortBy([s3], NegScore) == [s3];
    assert [s2, s3][1..] == [s3];
    assert SortBy([s2, s3], NegScore) == [s2, s3];
    assert [s1, s2, s3][1..] == [s2, s3];
    assert SortBy([s1, s2, s3], NegScore) == [s1, s2, s3];
    assert [s0, s1, s2, s3][1..] == [s1, s2, s3];
  }

  /** Dropping the trailing IGNORE entry of the fixed input. */
  lemma FilterDropsLast(s0: Scored, s1: Scored, s2: Scored, s3: Scored, s4: Scored)
    requires IsUrgent(s0) && IsUrgent(s1) && IsUrgent(s2) && IsUrgent(s3) && !IsUrgent(s4)
    ensures Filter([s0, s1, s2, s3, s4], IsUrgent) == [s0, s1, s2, s3]
  {
    var kept := [s0, s1, s2, s3];
    assert [s0, s1, s2, s3, s4] == kept + [s4];
    FilterConcat(kept, [s4], IsUrgent);
    FilterAll(kept, IsUrgent);
    FilterNone([s4], IsUrgent);
  }

  /** With `top_n = 3` the 2h, 10h and 36h entries come out in that order; the 10-day one is IGNORE. */
  lemma MockScenario(now: int)
    ensures var out := ProcessHackathons(MockHackathons(now), now, 3);
      |out| == 3 && out[0].item == MockHackathons(now)[0] && out[1].item == MockHackathons(now)[1]
      && out[2].item == MockHackathons(now)[2]
      && out[0].level == Critical && out[1].level == High && out[2].level == Medium
  {
    var hs := MockHackathons(now);
    var s0, s1, s2, s3, s4 := Score(hs[0], now), Score(hs[1], now), Score(hs[2], now), Score(hs[3], now), Score(hs[4], now);
    MockScores(now);
    var scored := seq(|hs|, i requires 0 <= i < |hs| => Score(hs[i], now));
    assert scored == [s0, s1, s2, s3, s4];
    FilterDropsLast(s0, s1, s2, s3, s4);
    var urgent := [s0, s1, s2, s3];
    assert UrgentEntries(hs, now) == urgent;
    SortAlreadyOrdered(s0, s1, s2, s3);
    assert ProcessHackathons(hs, now, 3) == Take(urgent, 3);
  }
}
