# Hackathon deadline watch, modelled in Dafny

HLUEAS watches the hackathons a Devpost user has joined and sends Telegram alerts as their
submission deadlines get closer. A run does five things:

1. It scrapes the user's challenge pages into records: name, URL, deadline, prize in USD,
   location and tags.
2. It buckets each record by hours remaining into CRITICAL, HIGH, MEDIUM, LOW or IGNORE.
3. It ranks the non-IGNORE records by a priority score and keeps the top N.
4. It asks the notification state file whether each record is due, given the re-notify
   interval of its level.
5. It formats and sends the alerts, records them in the state file, and prunes state entries
   older than 30 days.

The model is written as pure functions over immutable data, with a few methods for the loops:

- `urgency.dfy` covers levels, intervals, the priority score and ranking.
- `state.dfy` covers the state store.
- `scraper.dfy` covers link parsing, deadline, prize and location extraction, paging and the
  final filter/dedup/sort.
- `notifier.dfy` covers the countdown, Markdown escaping, message layout and the send loop.
- `orchestrator.dfy` covers configuration, flags and one whole run.
- Shared helpers live in `wrappers.dfy`, `seqs.dfy`, `text.dfy`, `dedup.dfy`,
  `stable_sort.dfy` and `records.dfy`.

Units and conventions:

- Timestamps are whole seconds. The clock (`now`) is a parameter everywhere.
- Hours, prizes and scores are mathematical reals.
- The HTML parser, the regular expressions and `dateutil` are abstracted:
  - a `Candidate` carries the anchor's text, its href, the optional heading text and the
    capture groups the patterns produce;
  - date parsing is a parameter `parse: string -> Option<int>`.
- Network fetches and Telegram deliveries are parameters: `fetch: int -> Page` and
  `delivered: nat -> bool`.

Where a natural property turned out to be false, the contracts follow the code:

- The time component of the priority score is `50 / max(hours, 1)`. It is constant within
  the last hour. So "fewer hours gives a higher score" holds only in the non-strict form
  (`Urgency.TimeScoreNonIncreasing`), and strictly only above one hour
  (`Urgency.TimeScoreDecreasing`).
- The prize pattern lists `m` before `mil` and `million`. So "$5 million" is captured as
  modifier `m` with the unknown three-letter suffix `ill`, and the match is discarded
  (`Scraper.PrefixedAmountDroppedByWordSuffix`). The model keeps this behaviour because it is
  how the pattern is written.
- `main` records every selected record after a live, unforced run, including those whose send
  failed. `Orchestrator.RunOnce` states it that way.

## Model

| member | source | states |
|---|---|---|
| Urgency.HoursRemaining | src/urgency.py:40-44 | Hours left are never negative; before the deadline they equal the remaining seconds divided by 3600, and they are 0 once the deadline has passed |
| Urgency.AlertLevelOf | src/urgency.py:46-65 | Each level holds exactly on its band of hours: CRITICAL up to 3, HIGH in (3, 12], MEDIUM in (12, 48], LOW in (48, 168], IGNORE above 168 |
| Urgency.LevelMonotone | src/urgency.py:56-65 | More hours remaining never yields a more urgent level |
| Urgency.Interval | src/urgency.py:23-29 | Every re-notify interval is at least one hour, and only IGNORE has the weekly 168 |
| Urgency.IntervalMonotone | src/urgency.py:23-29 | A less urgent level never re-notifies more often than a more urgent one, and a strictly less urgent level waits strictly longer |
| Urgency.TimeScoreBounds | src/urgency.py:94 | The time component lies in (0, 50] and is exactly 50 within the last hour |
| Urgency.TimeScore | src/urgency.py:94 | The time component is 50 within the last hour, and 50 divided by the hours beyond it |
| Urgency.PrizeScore | src/urgency.py:96-99 | The prize component is 0 for a missing or zero prize, the prize divided by 500 up to $10,000, and 20 from there on |
| Urgency.PriorityScore | src/urgency.py:71-104 | The priority is positive for a non-negative prize and tag score, and at most 100 when the tag score is within [0, 1] |
| Urgency.TimeScoreDecreasing | src/urgency.py:94 | Beyond one hour, a later deadline gives a strictly lower time component |
| Urgency.TimeScoreNonIncreasing | src/urgency.py:94 | For any hours, a later deadline never gives a higher time component |
| Urgency.PrizeScoreBounds | src/urgency.py:96-99 | The prize component is 0 for a missing or zero prize, within [0, 20] for a non-negative one, and capped at 20 from $10,000 up |
| Urgency.PriorityFavoursSooner | src/urgency.py:71-104 | With the same prize and tag score, the sooner deadline never has the lower priority |
| Urgency.ProcessHackathons | src/urgency.py:106-144 | No IGNORE record is returned; each returned record is an input record scored at `now` with its level's interval; exactly min(`top_n`, number of urgent inputs) records are kept, and for a negative `top_n` all but the last `-top_n` |
| Urgency.UrgentFacts | src/urgency.py:118-138 | Every urgent entry is some input's score, is not IGNORE and carries the interval of its level |
| Urgency.ProcessRanking | src/urgency.py:140-144 | The kept records are ordered by non-increasing score, ties stay in input order, they come from the urgent entries, none dropped outranks one kept, and nothing is cut when `top_n` covers them all |
| Urgency.PrefixSelection | src/urgency.py:144 | A prefix of a score-sorted list keeps only sorted elements, and everything left behind scores no higher than anything kept |
| Urgency.MockScenario | src/test_components.py:17-60 | Deadlines 2h, 10h, 36h, 5 days and 10 days out, with top 3, give the 2h, 10h and 36h records in that order at CRITICAL, HIGH and MEDIUM |
| Urgency.MockScores | src/test_components.py:17-60 | The exact scores, levels and re-notify intervals (1, 3, 12 and 24 hours) of the five records of that scenario, with the 10-day one at IGNORE |
| NotificationState.LoadState | src/state.py:26-35 | A decoded file loads as its contents; a file that is missing, cannot be read or is not valid JSON loads as the empty store |
| NotificationState.EmptyStoreNotifiesAll | src/state.py:26-64 | After a failed or missing load, every record is due |
| NotificationState.ShouldNotify | src/state.py:48-83 | Due iff the URL is unknown, its timestamp is missing, empty or unparsable, or at least the record's interval in hours has elapsed since it |
| NotificationState.ShorterIntervalNotifiesSooner | src/state.py:78-83 | A record due under some interval stays due under any shorter one |
| NotificationState.RecordNotification | src/state.py:85-100 | The URL's entry becomes (now, level name, name); every other URL keeps its entry, and no other URL appears |
| NotificationState.RecordSuppresses | src/state.py:79-98 | Right after recording a URL, it is not due at the same instant for any positive interval |
| NotificationState.RecordAll | src/main.py:147-150 | Recording a batch adds exactly the batch's URLs and stamps each with `now`; the entry of each URL carries the level and name of its last record in the batch; other URLs keep their entries |
| NotificationState.FilterForNotification | src/state.py:102-112 | The result is an order-preserving subsequence of the input, holding exactly the inputs that are due |
| NotificationState.FilterForNotificationConcat | src/state.py:112 | Filtering a concatenation is the concatenation of the filtered parts |
| NotificationState.SecondPassSelectsNothing | src/test_components.py:105-115 | Filtering, recording everything selected, then filtering again at the same instant selects nothing |
| NotificationState.CleanupOldEntries | src/state.py:114-139 | An entry is dropped iff its timestamp is unparsable or strictly older than `days` days; missing timestamps are kept; kept entries are unchanged; the file is saved iff something was dropped |
| NotificationState.CleanupIdempotent | src/state.py:121-138 | A second cleanup at the same instant drops nothing and does not save |
| NotificationState.FortyDayOldEntryScenario | src/state.py:121-138 | An entry notified 40 days ago is removed by a 30-day cleanup, which saves, and stays removed |
| NotificationState.GetSummary | src/state.py:141-146 | The tracked count equals the number of URLs listed, and exactly the stored URLs are listed |
| Scraper.BeforeQuery | src/scraper.py:92 | The result is the longest prefix of the href without `?`; if shorter than the href, the next character is `?` |
| Scraper.CleanUrl | src/scraper.py:91-94 | The cleaned URL has no query and starts with "http"; it is exactly the part of the href before `?` when that part starts with "http", and the site prefix followed by that part otherwise |
| Scraper.CleanUrlIdempotent | src/scraper.py:91-94 | Cleaning a cleaned URL changes nothing |
| Scraper.NoQueryUnchanged | src/scraper.py:92 | A string without `?` survives the query split unchanged |
| Scraper.FirstLine | src/scraper.py:102 | The first line is a prefix of the text with no newline, and it stops only at a newline or at the end of the text |
| Scraper.DropFeatured | src/scraper.py:104 | The result is a suffix of the name; a name starting with "Featured" loses those eight characters and all the whitespace after them, so what remains starts with a non-blank; any other name is unchanged |
| Scraper.NameOf | src/scraper.py:97-104 | The heading text when there is a heading; otherwise a newline-free piece of the first line with no whitespace at either end |
| Scraper.NameOfFirstLine | src/scraper.py:101-104 | Without a heading, the name is the stripped first line; when that line starts with "Featured", it is the rest of the line after those eight characters, stripped |
| Scraper.FirstWord | src/scraper.py:146 | `None` exactly when the text is all whitespace (where `split()[0]` raises IndexError); otherwise a non-empty, blank-free word that follows only whitespace and ends at whitespace or the end of the text |
| Scraper.RangeDeadlineText | src/scraper.py:139-150 | No text exactly when the month group is blank; otherwise the first word of the month group (non-empty, blank-free, preceded only by whitespace), a space, the end day, a comma and space, the year, then " 11:59 PM" |
| Scraper.WordAtUnique | src/scraper.py:146 | A text has only one first word: the word and its start are unique |
| Scraper.WordAtBounds | src/scraper.py:146 | The first word of `split()` starts at the first non-blank character and ends before the next blank |
| Scraper.RangeTextOfFirstWord | src/scraper.py:143-148 | Given the first word of the month group, the date text is exactly that word, the end day and the year at 11:59 PM |
| Scraper.FirstParsed | src/scraper.py:127-162 | The deadline cascade yields a time iff some attempt both matched and parsed, and then the time is the parse of the earliest such attempt |
| Scraper.RemoveCommas | src/scraper.py:201 | No comma is left in the amount text |
| Scraper.DotIndex | src/scraper.py:201 | Finds the first `.` of the amount text, or reports that there is none |
| Scraper.ParseAmount | src/scraper.py:201 | A parsed amount is never negative |
| Scraper.ParseAmountOfNat | src/scraper.py:201 | Any whole number written in decimal parses back to itself |
| Scraper.Magnitude | src/scraper.py:203-208 | The multiplier is 1000 for "k", a million for "m", "mil" and "million", and 1 when the modifier is absent, empty or anything else |
| Scraper.Rate | src/scraper.py:170-215 | A known prefix symbol sets the rate, even when a known suffix is also present; otherwise a known suffix sets it; with neither, the rate is 1.0 (USD); every rate is positive |
| Scraper.AboveFloor | src/scraper.py:219-221 | A value counts iff it exceeds $100, and then it is kept unchanged |
| Scraper.MatchValue | src/scraper.py:189-224 | A skipped match, or one whose amount does not parse, contributes nothing; otherwise the value is the parsed amount times the magnitude and the rate, kept iff it exceeds $100 |
| Scraper.PrefixedAmountDroppedByWordSuffix | src/scraper.py:182-198 | "$5 million", captured as modifier "m" with suffix "ill", is discarded despite its dollar sign |
| Scraper.EuroSuffixExample | src/scraper.py:170-217 | "20k eur" is worth 21,600 USD |
| Scraper.MaxPresent | src/scraper.py:187-221 | The running maximum bounds every present value, is one of them when positive, and is 0 iff none is present |
| Scraper.MatchValues | src/scraper.py:189 | One value per match, in order |
| Scraper.ExtractPrize | src/scraper.py:164-226 | A prize is found iff some match counts; it then exceeds $100, is at least every counted match's value, and is the value of one of the matches |
| Scraper.ExtractLocation | src/scraper.py:228-240 | The location is never empty; "Online" wins whenever the text says so; otherwise the "City, Region" capture, else "Unknown" |
| Scraper.ParseChallengeLink | src/scraper.py:75-125 | A link is rejected iff one of the guards fires (short or navigation text, href without ref_content, name under 3 characters); an accepted link carries the link's name, its cleaned URL, the cascade's deadline, and the extracted prize and location |
| Scraper.RecordOf | src/scraper.py:57-125 | A link yields a record iff it parses and its deadline was found; the record carries the link's name, cleaned URL, the first deadline that parsed, the extracted prize and location, and no tags |
| Scraper.ParsedWithDeadline | src/scraper.py:53-63 | Every record comes from a selected anchor (href mentions devpost.com and ref_content) that parsed with a deadline, and every such anchor's record is present |
| Scraper.ParsedWithDeadlineConcat | src/scraper.py:53-63 | Parsing the anchors of two parts is parsing each part and concatenating, so records keep document order |
| Scraper.ParsedWithDeadlineSingle | src/scraper.py:53-63 | One anchor yields its record iff it is selected and parses with a deadline, and nothing otherwise |
| Scraper.ExtractHackathons | src/scraper.py:44-73 | URLs are distinct; the same URLs as the parsed records survive; the result is a subsequence of the parsed records, so document order is kept; every record comes from a selected anchor |
| Scraper.ExtractKeepsFirst | src/scraper.py:65-73 | Each extracted record is the first parsed record with its URL, so a later duplicate is the one dropped |
| Scraper.Paginate | src/scraper.py:252-265 | Collects pages 1.. up to `max_pages`, stopping at the first page that fails or yields nothing; every earlier page yielded records |
| Scraper.Finalize | src/scraper.py:267-282 | The result is sorted by deadline and is a stable permutation of the de-duplicated future records |
| Scraper.FinalizeFromActive | src/scraper.py:269-277 | Every finalized record is a future input record |
| Scraper.FinalizeSelects | src/scraper.py:242-282 | Only future deadlines, one record per URL, and every URL with a future record is present |
| Scraper.MembersSameKeys | src/scraper.py:280 | Sorting does not change the set of URLs |
| Scraper.GetActiveHackathons | src/scraper.py:242-282 | The result is the finalized harvest of pages 1 to `max_pages`, and at most `max_pages` pages are fetched |
| Notifier.Trunc | src/notifier.py:40-48 | `int()` truncates toward zero |
| Notifier.CountdownOf | src/notifier.py:29-49 | Under 1 hour shows minutes 0-59; under 24 hours shows hours 1-23 and minutes 0-59; otherwise at least one day and hours 0-23 |
| Notifier.CountdownUnderstates | src/notifier.py:39-49 | The countdown never overstates the time left; it falls short by under an hour in day form and under a minute otherwise |
| Notifier.CountdownText | src/notifier.py:41-49 | Under an hour, the text is a canonical numeral followed by "m" that parses back to the minutes; with hours, two such unit-suffixed numerals "<hours>h" and "<minutes>m" joined by one space, and with days "<days>d" and "<hours>h"; canonical means an optional "-" and digits without a leading zero, as `str` writes them |
| Notifier.FormatCountdown | src/notifier.py:29-49 | The text ends with 'm' iff fewer than 24 hours remain; under an hour it reads back as the whole minutes, under a day as whole hours and minutes, and otherwise as whole days and hours |
| Notifier.SpecialsFacts | src/notifier.py:53 | The 18 special characters are distinct and exclude the backslash |
| Notifier.ReplaceChar | src/notifier.py:55 | One replacement never shortens the text |
| Notifier.EscapeBy | src/notifier.py:51-56 | Per-character escaping maps empty text, and only empty text, to empty text |
| Notifier.EscapeByConcat | src/notifier.py:51-56 | Per-character escaping distributes over concatenation |
| Notifier.ReplaceThenEscape | src/notifier.py:54-55 | One replacement pass followed by escaping the remaining characters equals escaping them all at once |
| Notifier.ReplaceEachIsEscapeBy | src/notifier.py:53-56 | The sequence of replace passes equals escaping each character independently |
| Notifier.EscapeByNothing | src/notifier.py:54-56 | With no special characters, escaping is the identity |
| Notifier.EscapeMarkdown | src/notifier.py:51-56 | The sequence of `replace` passes escapes each special character with one backslash, character by character |
| Notifier.CountSpecials | src/notifier.py:53 | The count is 0 iff the text has no special character |
| Notifier.EscapeLength | src/notifier.py:51-56 | Escaping adds exactly one character per special character |
| Notifier.EscapeWithoutSpecials | src/notifier.py:51-56 | Text without special characters is unchanged |
| Notifier.UnescapeEscape | src/notifier.py:51-56 | Dropping each backslash that precedes a special character recovers the original text |
| Notifier.EscapeMarkdownRoundTrip | src/notifier.py:51-56 | Escaping loses nothing: unescaping gives back the name |
| Notifier.Emoji | src/notifier.py:94-103 | One glyph per level; an unknown level gets the white circle |
| Notifier.EmojiDistinguishesLevels | src/notifier.py:94-103 | Different levels get different glyphs |
| Notifier.Layout | src/notifier.py:76-90 | Title, name, countdown and deadline in that order; a prize line at position 4 iff the prize is truthy, carrying that prize; then the link, and the closing line only for CRITICAL and HIGH; the length is exactly 5 plus one per optional line |
| Notifier.RenderLine | src/notifier.py:76-90 | The title starts with the level's emoji; between the asterisks the name line holds exactly the per-character escaping of the name, which reads back as the original name; the link line ends with the URL in parentheses and a blank line; the countdown ends with " remaining*" and a newline; title, name, deadline and prize end with a blank line |
| Notifier.NameText | src/notifier.py:78 | The name line is an asterisk, the per-character escaping of the name, then an asterisk and a blank line; the escaped middle reads back as the name |
| Notifier.RenderEnds | src/notifier.py:76-90 | The rendered message ends with its last line |
| Notifier.FormatMessage | src/notifier.py:58-92 | The message starts with the level's emoji and ends with the CRITICAL or HIGH closing line, or else with the link's ")\n\n" |
| Notifier.MessageEnds | src/notifier.py:77-90 | The rendered layout starts with the emoji and ends as the level dictates |
| Notifier.MessageCloses | src/notifier.py:85-90 | A message whose last piece is a closing line or the link ends with that closing text or with ")" and a blank line |
| Notifier.CountDelivered | src/notifier.py:160-167 | Delivered count never exceeds the batch size |
| Notifier.SendBatch | src/notifier.py:149-173 | sent + failed equals the batch size; a dry run sends all without delay; a live run counts the deliveries and waits once between consecutive sends but not after the last |
| Orchestrator.MissingKeys | src/main.py:29-34 | Empty iff all three required values are set and non-empty; each key is listed iff its value is missing |
| Orchestrator.LoadConfig | src/main.py:17-36 | An unreadable TOP_N_HACKATHONS is reported first; otherwise success iff the three required values are present; top N defaults to 3; dry run iff DRY_RUN lower-cases to "true" |
| Orchestrator.LoadConfigDefaults | src/main.py:25-26 | Without the optional variables, top N is 3 and the run is live |
| Orchestrator.DryRunIgnoresCase | src/main.py:26 | An instance of LoadConfig: with the three required values set, TOP_N_HACKATHONS absent and DRY_RUN "TRUE", the configuration loads and enables dry run |
| Orchestrator.EffectiveDryRun | src/main.py:60-62 | An explicit argument overrides the configured dry-run flag |
| Orchestrator.EntryFlags | src/main.py:163-168 | Each flag is set iff it is among the arguments |
| Orchestrator.EntryIgnoresDryRunVariable | src/main.py:163-168 | From the script entry, dry run depends only on the arguments, never on DRY_RUN |
| Orchestrator.Selected | src/main.py:104-116 | Force mode selects every urgent record; otherwise exactly the urgent records that are due, in order |
| Orchestrator.AfterSending | src/main.py:146-153 | A dry or forced run leaves the state as it was; a live run adds the sent URLs stamped with `now`, each carrying its last record's level and name |
| Orchestrator.RunOnce | src/main.py:39-160 | Config and scrape failures exit; the three early returns happen exactly when nothing is scraped, urgent or due, and they leave the state untouched; a completed run has sent + failed equal to the selection, records only when live and unforced, then prunes at 30 days |
| Orchestrator.RerunSelectsNothing | src/main.py:103-156 | After a live, unforced run, an immediate re-run on the resulting state selects nothing |
| Orchestrator.UrgentIntervalsWithinRetention | src/urgency.py:23-29 | Every urgent record's interval is positive and shorter than the 30-day retention |
| Seqs.Filter | src/state.py:112 | Keeps exactly the elements that satisfy the guard, never adds any |
| Seqs.FilterConcat | src/state.py:112 | Filtering distributes over concatenation |
| Seqs.Take | src/urgency.py:144 | Python's slice `[:n]` is a prefix of length min(n, len) for n >= 0, and drops -n from the end for n < 0 |
| Seqs.Collect | src/scraper.py:55-63 | Every collected value is the present result of some input, and every present result is collected |
| Seqs.CollectConcat | src/scraper.py:55-63 | Collecting a concatenation is the concatenation of the collected parts |
| Seqs.CollectSingle | src/scraper.py:55-63 | One input yields its present result, or nothing |
| Seqs.FilterIsSubsequence | src/scraper.py:269 | A filtered list is a subsequence of its input |
| Dedup.DedupBy | src/scraper.py:65-73 | Keys are distinct, every input key survives, the result is a subsequence, and each element is the first of its key |
| Dedup.DedupDistinct | src/scraper.py:272-277 | Input with distinct keys is left unchanged |
| Dedup.DedupSnoc | src/scraper.py:65-73 | Appending an element keeps it iff its key has not been seen |
| Dedup.DedupIdempotent | src/scraper.py:272-277 | De-duplicating twice is the same as once |
| Dedup.Deduplicate | src/scraper.py:272-277 | The seen-set loop computes the keep-first de-duplication |
| Dedup.DistinctIffKeyCount | src/scraper.py:65-73 | Keys are distinct iff there are as many keys as elements |
| Dedup.PermutationKeepsDistinct | src/scraper.py:280 | Reordering keeps the keys distinct |
| StableSort.SortBy | src/scraper.py:280 | Sorted by key, a permutation of the input, and equal keys keep their relative order |
| Text.Lower | src/main.py:26 | The result has the same length, with each ASCII capital lowered and every other character kept |
| Text.Strip | src/scraper.py:102 | The stripped text occurs in the original with only whitespace before and after it, and neither begins nor ends with whitespace |
| Text.ContainsIffOccurrence | src/scraper.py:83 | Python's `in` on strings holds iff the substring occurs at some index |
| Text.ParseInt | src/main.py:25 | A parsed value comes from stripped text ending in a digit, and a negative one from text that starts with '-' |
| Text.IntToStringRoundTrip | src/main.py:25 | Reading back the decimal rendering of any integer gives that integer |
| Text.IntToStringCanonical | src/notifier.py:41-49 | Every integer is rendered as a canonical numeral: an optional "-", digits without a leading zero, never "-0" |

## Left out

- HTTP and Telegram I/O: fetching pages, `requests.post`, `test_connection` and the Telegram response codes. A page fetch is the parameter `fetch`, and a live delivery outcome is `delivered(i)`. A page whose fetch or extraction raises counts as `FetchFailed`.
- `time.sleep(2)` is modelled only as a `Delay` event in the send trace.
- Console output: `print`, the dry-run banner and the urgency summary in `main`. `sys.exit` is the `ConfigFailed` and `ScrapeFailed` outcomes.
- `load_dotenv` is not modelled: the environment is a map given to `LoadConfig`.
- `datetime.now()` is the parameter `now`. The timezone-aware versus naive comparison that Python can reject is not modelled; every timestamp is an integer number of seconds.
- HTML parsing (BeautifulSoup) and the regular expressions. The anchor text, href, heading text and capture groups arrive as data in a `Candidate` and `PrizeMatch`, and the location capture arrives as a `LocationText`. The model covers what the code does with those captures, not how the patterns find them.
- `dateutil` parsing is the parameter `parse`. ISO-8601 timestamps in the state file are the `Stamp` datatype (missing, unparsable, or seconds).
- JSON reading and writing of the state file. `StateFile` says what the read produced. `Cleaned.saved` and `Run.persisted` say whether the file is written. Each `record_notification` saves; the model keeps one flag per run.
- `strftime('%Y-%m-%d %H:%M UTC')` and `:,.0f` are parameters of `FormatMessage` (`formatDeadline`, `formatPrize`). The fixed glyphs and heading text are kept as constants.
- Floating point: hours, scores, prizes and rates are exact reals. A rounding difference of IEEE doubles, such as `int(x * 60)` just below a whole minute, is not reproduced.
- The `c$` and `a$` entries of the currency table are kept in `Scraper.Currencies` but can never be looked up, because the prefix group captures one character.
- `get_emoji_for_level` in `src/urgency.py` is used only for console display; its glyph table is mis-encoded. `Notifier.Emoji` models the notifier's table.
- Tag matching is not modelled: `process_hackathons` always passes a tag score of 0 and the scraper always produces `tags: []`.
- `src/generic_scraper.py`, `src/add_hackathon.py` and `src/report.py` are not part of this model. The other checks in `src/test_components.py` are restated as the scenario lemmas.
- `Scraper.GetActiveHackathons` takes `max_pages` as a parameter; the default of 3 is not fixed in the model.
- Text.ParseInt: accepts an optional sign and ASCII digits between whitespace. Python's `int()` also accepts underscores between digits and non-ASCII decimal digits; the model rejects those.
- Text.Strip: treats the ASCII and Latin-1 whitespace characters as whitespace, not the wider Unicode set that `str.strip` and `str.split` use.
- Text.Lower: lowers only ASCII capitals, whereas `str.lower` also lowers other scripts. Only comparisons with "true" and "prize" depend on it.
- NotificationState.GetSummary: returns the URLs as a set; the source's list is in dictionary insertion order.
- Notifier.SendBatch: the trace records the index and outcome of each send, not the message text; `Notifier.FormatMessage` states the text separately.
- Scraper.ParseAmount: states non-negativity and the whole-number round trip (`Scraper.ParseAmountOfNat`), not the value of every decimal amount.
