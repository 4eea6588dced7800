/**
 * The orchestrator: configuration from the environment, the command-line flags, and the decisions
 * of one run about what is sent, what is recorded and when old state is pruned. Console output,
 * `sys.exit` and `load_dotenv` are not modelled; the scrape result, the state file, the clock and
 * the outcome of each live send are parameters.
 */
module Orchestrator {
  import opened Wrappers
  import opened Text
  import opened Records
  import opened Urgency
  import opened Seqs
  import opened NotificationState
  import opened Notifier

  // ---------------------------------------------------------------- configuration

  datatype Config = Config(username: string, botToken: string, chatId: string, topN: int, dryRun: bool)

  /** Why `load_config` raises `ValueError`: `int()` rejects TOP_N_HACKATHONS, or required keys are unset or empty. */
  datatype ConfigError = BadTopN(text: string) | MissingVariables(keys: seq<string>)

  /** `os.getenv(name)`. */
  function Getenv(env: map<string, string>, name: string): Option<string> {
    if name in env then Some(env[name]) else None
  }

  /** `os.getenv(name, default)`. */
  function GetenvOr(env: map<string, string>, name: string, default: string): string {
    if name in env then env[name] else default
  }

  /** Python truthiness of an environment lookup: set and non-empty. */
  predicate Present(v: Option<string>) {
    v.Some? && v.value != ""
  }

  /** The configuration keys whose values are not truthy, in the order they are checked. */
  function MissingKeys(username: Option<string>, botToken: Option<string>, chatId: Option<string>): (keys: seq<string>)
    ensures |keys| == 0 <==> Present(username) && Present(botToken) && Present(chatId)
    ensures "devpost_username" in keys <==> !Present(username)
    ensures "telegram_bot_token" in keys <==> !Present(botToken)
    ensures "telegram_chat_id" in keys <==> !Present(chatId)
  {
    (if Present(username) then [] else ["devpost_username"])
    + (if Present(botToken) then [] else ["telegram_bot_token"])
    + (if Present(chatId) then [] else ["telegram_chat_id"])
  }

  /**
   * `load_config`. The dictionary is built before validation, so an unreadable TOP_N_HACKATHONS
   * raises before missing variables are reported.
   */
  function LoadConfig(env: map<string, string>): (r: Result<Config, ConfigError>)
    ensures r.Err? && r.error.BadTopN? <==> ParseInt(GetenvOr(env, "TOP_N_HACKATHONS", "3")).None?
    ensures r.Ok? <==> (ParseInt(GetenvOr(env, "TOP_N_HACKATHONS", "3")).Some?
      && Present(Getenv(env, "DEVPOST_USERNAME")) && Present(Getenv(env, "TELEGRAM_BOT_TOKEN"))
      && Present(Getenv(env, "TELEGRAM_CHAT_ID")))
    ensures r.Ok? ==> (r.value.username == env["DEVPOST_USERNAME"] && r.value.botToken == env["TELEGRAM_BOT_TOKEN"]
      && r.value.chatId == env["TELEGRAM_CHAT_ID"])
    ensures r.Ok? ==> Some(r.value.topN) == ParseInt(GetenvOr(env, "TOP_N_HACKATHONS", "3"))
    ensures r.Ok? ==> (r.value.dryRun <==> Lower(GetenvOr(env, "DRY_RUN", "false")) == "true")
    ensures r.Err? && r.error.MissingVariables? ==> |r.error.keys| > 0
  {
    var username := Getenv(env, "DEVPOST_USERNAME");
    var botToken := Getenv(env, "TELEGRAM_BOT_TOKEN");
    var chatId := Getenv(env, "TELEGRAM_CHAT_ID");
    var topNText := GetenvOr(env, "TOP_N_HACKATHONS", "3");
    match ParseInt(topNText)
    case None => Err(BadTopN(topNText))
    case Some(topN) =>
      var missing := MissingKeys(username, botToken, chatId);
      if |missing| > 0 then Err(MissingVariables(missing))
      else Ok(Config(username.value, botToken.value, chatId.value, topN,
                     Lower(GetenvOr(env, "DRY_RUN", "false")) == "true"))
  }

  /** Without TOP_N_HACKATHONS the run keeps the top three; without DRY_RUN it is live. */
  lemma LoadConfigDefaults(env: map<string, string>)
    requires "TOP_N_HACKATHONS" !in env && "DRY_RUN" !in env
    requires Present(Getenv(env, "DEVPOST_USERNAME")) && Present(Getenv(env, "TELEGRAM_BOT_TOKEN"))
    requires Present(Getenv(env, "TELEGRAM_CHAT_ID"))
    ensures LoadConfig(env).Ok?
    ensures LoadConfig(env).value.topN == 3 && !LoadConfig(env).value.dryRun
  {
    ParseDigits("3");
    assert Lower("false") == "false";
  }

  /** DRY_RUN is compared case-insensitively with "true". */
  lemma DryRunIgnoresCase(env: map<string, string>)
    requires "DRY_RUN" in env && env["DRY_RUN"] == "TRUE" && "TOP_N_HACKATHONS" !in env
    requires Present(Getenv(env, "DEVPOST_USERNAME")) && Present(Getenv(env, "TELEGRAM_BOT_TOKEN"))
    requires Present(Getenv(env, "TELEGRAM_CHAT_ID"))
    ensures LoadConfig(env).Ok? && LoadConfig(env).value.dryRun
  {
    ParseDigits("3");
    assert Lower("TRUE") == "true";
  }

  // ---------------------------------------------------------------- flags

  /** An explicit argument overrides DRY_RUN. */
  function EffectiveDryRun(config: Config, dryRunArg: Option<bool>): (dry: bool)
    ensures dryRunArg.Some? ==> dry == dryRunArg.value
    ensures dryRunArg.None? ==> dry == config.dryRun
  {
    match dryRunArg
    case Some(d) => d
    case None => config.dryRun
  }

  datatype Flags = Flags(dryRun: bool, force: bool)

  /** The script entry: each flag is set iff it appears among the arguments. */
  function EntryFlags(argv: seq<string>): (f: Flags)
    ensures f.dryRun <==> "--dry-run" in argv
    ensures f.force <==> "--force" in argv
  {
    Flags("--dry-run" in argv, "--force" in argv)
  }

  /** From the script entry the argument list alone decides dry-run mode; DRY_RUN is never consulted. */
  lemma EntryIgnoresDryRunVariable(c1: Config, c2: Config, argv: seq<string>)
    ensures EffectiveDryRun(c1, Some(EntryFlags(argv).dryRun)) == EffectiveDryRun(c2, Some(EntryFlags(argv).dryRun))
  {
  }

  // ---------------------------------------------------------------- one run

  /** Where a run ended: one of the three early returns, or the full pipeline. */
  datatype Stage = NothingScraped | NothingUrgent | NothingDue | Completed

  /**
   * What a run did: the ranked records, the ones chosen for sending, the send counts and events,
   * the state afterwards, and whether the state file was written.
   */
  datatype Run = Run(
    stage: Stage,
    urgent: seq<Scored>,
    toNotify: seq<Scored>,
    sent: nat,
    failed: nat,
    trace: seq<Event>,
    store: Store,
    persisted: bool)

  /** How a run terminates: one of the `sys.exit(1)` paths or a normal return. */
  datatype Outcome = ConfigFailed(error: ConfigError) | ScrapeFailed | Finished(run: Run)

  /** Retention period passed to `cleanup_old_entries` at the end of a run. */
  const RetentionDays: int := 30

  /** Step 3: everything in force mode, otherwise the records that are due, in order. */
  function Selected(store: Store, urgent: seq<Scored>, now: int, force: bool): (r: seq<Scored>)
    ensures force ==> r == urgent
    ensures !force ==> forall x :: x in r <==> x in urgent && ShouldNotify(store, x, now)
    ensures SubsequenceOf(r, urgent)
  {
    SubsequenceOfSelf(urgent);
    if force then urgent else FilterForNotification(store, urgent, now)
  }

  /** Step 5: only a live, unforced run records what it sent (attempts that failed included). */
  function AfterSending(store: Store, toNotify: seq<Scored>, now: int, dryRun: bool, force: bool): (r: Store)
    ensures dryRun || force ==> r == store
    ensures !dryRun && !force ==>
      (forall u :: u in r <==> u in store || exists i :: 0 <= i < |toNotify| && toNotify[i].item.url == u)
      && (forall i :: 0 <= i < |toNotify| ==> r[toNotify[i].item.url].lastNotified == At(now))
      && (forall i :: LastForUrl(toNotify, i) ==>
            r[toNotify[i].item.url] == Entry(At(now), LevelName(toNotify[i].level), toNotify[i].item.name))
  {
    if !dryRun && !force then RecordAll(store, toNotify, now) else store
  }

  /**
   * `main`. `scraped` is `None` when scraping raised; `file` is the state file as found;
   * `delivered(i)` is the outcome of the i-th live send.
   */
  method RunOnce(env: map<string, string>, dryRunArg: Option<bool>, force: bool,
                 scraped: Option<seq<Hackathon>>, file: StateFile, now: int, delivered: nat -> bool)
    returns (out: Outcome)
    ensures LoadConfig(env).Err? <==> out.ConfigFailed?
    ensures LoadConfig(env).Ok? && scraped.None? <==> out.ScrapeFailed?
    ensures out.Finished? ==> var run := out.run; var config := LoadConfig(env).value;
      var dry := EffectiveDryRun(config, dryRunArg);
      (run.stage == NothingScraped <==> |scraped.value| == 0)
      && (run.stage != NothingScraped ==> run.urgent == ProcessHackathons(scraped.value, now, config.topN))
      && (run.stage == NothingUrgent <==> |scraped.value| > 0 && |run.urgent| == 0)
      && (run.stage == NothingDue || run.stage == Completed ==>
            run.toNotify == Selected(LoadState(file), run.urgent, now, force))
      && (run.stage == NothingDue <==> |run.urgent| > 0 && |run.toNotify| == 0)
      && (run.stage != Completed ==> run.store == LoadState(file) && !run.persisted && run.sent == 0 && run.failed == 0)
      && (run.stage == Completed ==>
            run.store == CleanupOldEntries(AfterSending(LoadState(file), run.toNotify, now, dry, force), RetentionDays, now).store
            && run.sent + run.failed == |run.toNotify|
            && (dry ==> run.failed == 0)
            && (run.persisted <==> ((!dry && !force)
                  || CleanupOldEntries(AfterSending(LoadState(file), run.toNotify, now, dry, force), RetentionDays, now).saved)))
  {
    var loaded := LoadConfig(env);
    if loaded.Err? {
      return ConfigFailed(loaded.error);
    }
    var config := loaded.value;
    var dry := EffectiveDryRun(config, dryRunArg);
    if scraped.None? {
      return ScrapeFailed;
    }
    var hackathons := scraped.value;
    var store := LoadState(file);
    if |hackathons| == 0 {
      return Finished(Run(NothingScraped, [], [], 0, 0, [], store, false));
    }
    var urgent := ProcessHackathons(hackathons, now, config.topN);
    if |urgent| == 0 {
      return Finished(Run(NothingUrgent, urgent, [], 0, 0, [], store, false));
    }
    var toNotify := Selected(store, urgent, now, force);
    if |toNotify| == 0 {
      return Finished(Run(NothingDue, urgent, toNotify, 0, 0, [], store, false));
    }
    var sent, failed, trace := SendBatch(|toNotify|, dry, delivered);
    var recorded := AfterSending(store, toNotify, now, dry, force);
    var cleaned := CleanupOldEntries(recorded, RetentionDays, now);
    out := Finished(Run(Completed, urgent, toNotify, sent, failed, trace, cleaned.store,
                        (!dry && !force) || cleaned.saved));
  }

  /**
   * A live, unforced run silences its whole batch: run again at the same instant on the state it
   * left, the selection is empty. This needs every interval positive and within the retention
   * period, so that pruning cannot drop an entry that is still suppressing a record.
   */
  lemma RerunSelectsNothing(store: Store, urgent: seq<Scored>, now: int)
    requires forall i :: 0 <= i < |urgent| ==> 0 < urgent[i].interval <= 24 * RetentionDays
    ensures var due := Selected(store, urgent, now, false);
      var after := CleanupOldEntries(AfterSending(store, due, now, false, false), RetentionDays, now).store;
      Selected(after, urgent, now, false) == []
  {
    var due := Selected(store, urgent, now, false);
    var recorded := AfterSending(store, due, now, false, false);
    var after := CleanupOldEntries(recorded, RetentionDays, now).store;
    forall x | x in urgent
      ensures !ShouldNotify(after, x, now)
    {
      var url := x.item.url;
      var k :| 0 <= k < |urgent| && urgent[k] == x;
      if exists i :: 0 <= i < |due| && due[i].item.url == url {
        var i :| 0 <= i < |due| && due[i].item.url == url;
        assert recorded[url].lastNotified == At(now);
        assert url in after;
      } else {
        assert x !in due;
        assert !ShouldNotify(store, x, now);
        assert recorded[url] == store[url];
        assert url in after;
      }
    }
    FilterNone(urgent, x => ShouldNotify(after, x, now));
  }

  /** Every record a run sends to has that bound: urgent intervals are 1, 3, 12 or 24 hours. */
  lemma UrgentIntervalsWithinRetention(hs: seq<Hackathon>, now: int, topN: int)
    ensures var urgent := ProcessHackathons(hs, now, topN);
      forall i :: 0 <= i < |urgent| ==> 0 < urgent[i].interval <= 24 * RetentionDays
  {
  }
}
