/**
 * Message rendering and send accounting of the Telegram notifier. The HTTP request, the console
 * output and `time.sleep` are not modelled: the outcome of each live send is given by `delivered`,
 * and a pause is recorded as an event in a trace.
 */
module Notifier {
  import opened Wrappers
  import opened Text
  import opened Records
  import opened Urgency

  // ---------------------------------------------------------------- countdown

  /** Python's `int(x)` on a float: truncation toward zero. */
  function Trunc(x: real): (n: int)
    ensures x >= 0.0 ==> n as real <= x < n as real + 1.0
    ensures x < 0.0 ==> x <= n as real <= 0.0 && (n as real) - 1.0 < x
  {
    if x >= 0.0 then x.Floor else -((-x).Floor)
  }

  /** The components a countdown string shows. */
  datatype Countdown = Minutes(minutes: int) | HoursMinutes(hours: int, minutes: int) | DaysHours(days: int, hours: int)

  /** `format_countdown`'s arithmetic: minutes under an hour, hours and minutes under a day, else days and hours. */
  function CountdownOf(h: real): (c: Countdown)
    ensures h < 1.0 <==> c.Minutes?
    ensures 1.0 <= h < 24.0 <==> c.HoursMinutes?
    ensures 0.0 <= h < 1.0 ==> 0 <= c.minutes <= 59
    ensures 1.0 <= h < 24.0 ==> 1 <= c.hours <= 23 && 0 <= c.minutes <= 59
    ensures h >= 24.0 ==> c.days >= 1 && 0 <= c.hours <= 23
  {
    if h < 1.0 then Minutes(Trunc(h * 60.0))
    else if h < 24.0 then
      var hours := Trunc(h);
      HoursMinutes(hours, Trunc((h - hours as real) * 60.0))
    else
      var days := Trunc(h / 24.0);
      DaysHours(days, Trunc(h - 24.0 * days as real))
  }

  /** The whole minutes a countdown stands for. */
  function TotalMinutes(c: Countdown): int {
    match c
    case Minutes(m) => m
    case HoursMinutes(hours, m) => 60 * hours + m
    case DaysHours(days, hours) => 1440 * days + 60 * hours
  }

  /**
   * A countdown never overstates the time left: it drops the fractional minute, and above a day the
   * minutes as well.
   */
  lemma CountdownUnderstates(h: real)
    requires h >= 0.0
    ensures TotalMinutes(CountdownOf(h)) as real <= h * 60.0
    ensures CountdownOf(h).DaysHours? ==> h * 60.0 < TotalMinutes(CountdownOf(h)) as real + 60.0
    ensures !CountdownOf(h).DaysHours? ==> h * 60.0 < TotalMinutes(CountdownOf(h)) as real + 1.0
  {
  }

  /** `s` is a canonical numeral followed by the unit letter `unit`, and the numeral reads back as `n`. */
  predicate ReadsBack(s: string, unit: char, n: int) {
    |s| > 0 && s[|s| - 1] == unit && Canonical(s[..|s| - 1]) && ParseInt(s[..|s| - 1]) == Some(n)
  }

  /** `s` is two such numbers with units, separated by one space: "2h 15m". */
  predicate TwoUnits(s: string, unit1: char, n1: int, unit2: char, n2: int) {
    exists k :: 0 < k < |s| && s[k] == ' ' && ReadsBack(s[..k], unit1, n1) && ReadsBack(s[k + 1..], unit2, n2)
  }

  /** The text of a countdown: "45m", "2h 15m" or "3d 4h". */
  function CountdownText(c: Countdown): (s: string)
    ensures |s| > 0
    ensures s[|s| - 1] == if c.DaysHours? then 'h' else 'm'
    ensures c.Minutes? ==> ReadsBack(s, 'm', c.minutes)
    ensures c.HoursMinutes? ==> TwoUnits(s, 'h', c.hours, 'm', c.minutes)
    ensures c.DaysHours? ==> TwoUnits(s, 'd', c.days, 'h', c.hours)
  {
    match c
    case Minutes(m) =>
      UnitReadsBack(m, 'm');
      IntToString(m) + "m"
    case HoursMinutes(hours, m) =>
      TwoUnitsReadBack(hours, 'h', m, 'm');
      IntToString(hours) + "h " + IntToString(m) + "m"
    case DaysHours(days, hours) =>
      TwoUnitsReadBack(days, 'd', hours, 'h');
      IntToString(days) + "d " + IntToString(hours) + "h"
  }

  lemma UnitReadsBack(n: int, unit: char)
    ensures ReadsBack(IntToString(n) + [unit], unit, n)
  {
    var s := IntToString(n) + [unit];
    assert s[..|s| - 1] == IntToString(n);
    IntToStringRoundTrip(n);
    IntToStringCanonical(n);
  }

  lemma TwoUnitsReadBack(n1: int, unit1: char, n2: int, unit2: char)
    ensures TwoUnits(IntToString(n1) + [unit1, ' '] + IntToString(n2) + [unit2], unit1, n1, unit2, n2)
  {
    var first, second := IntToString(n1) + [unit1], IntToString(n2) + [unit2];
    UnitReadsBack(n1, unit1);
    UnitReadsBack(n2, unit2);
    JoinedTwoUnits(first, second, unit1, n1, unit2, n2);
    Regrouped(IntToString(n1), unit1, IntToString(n2), unit2);
  }

  lemma Regrouped(a: string, unit1: char, b: string, unit2: char)
    ensures a + [unit1, ' '] + b + [unit2] == (a + [unit1]) + [' '] + (b + [unit2])
  {
  }

  /** Two numbers with units, joined by a space, are read back at the space. */
  lemma JoinedTwoUnits(a: string, b: string, unit1: char, n1: int, unit2: char, n2: int)
    requires ReadsBack(a, unit1, n1) && ReadsBack(b, unit2, n2)
    ensures TwoUnits(a + [' '] + b, unit1, n1, unit2, n2)
  {
    var s := a + [' '] + b;
    assert s[..|a|] == a;
    assert s[|a| + 1..] == b;
    assert s[|a|] == ' ';
  }

  /** `format_countdown`. */
  function FormatCountdown(h: real): (s: string)
    ensures |s| > 0 && (h < 24.0 <==> s[|s| - 1] == 'm')
    ensures h < 1.0 ==> ReadsBack(s, 'm', CountdownOf(h).minutes)
    ensures 1.0 <= h < 24.0 ==> TwoUnits(s, 'h', CountdownOf(h).hours, 'm', CountdownOf(h).minutes)
    ensures h >= 24.0 ==> TwoUnits(s, 'd', CountdownOf(h).days, 'h', CountdownOf(h).hours)
  {
    CountdownText(CountdownOf(h))
  }

  // ---------------------------------------------------------------- escaping

  /** The characters `escape_markdown` prefixes with a backslash, in the order it replaces them. */
  const Specials: seq<char> := ['_', '*', '[', ']', '(', ')', '~', '`', '>', '#', '+', '-', '=', '|', '{', '}', '.', '!']

  /** The backslash is not itself escaped, and no character is listed twice. */
  lemma SpecialsFacts()
    ensures '\\' !in Specials
    ensures forall i, j :: 0 <= i < j < |Specials| ==> Specials[i] != Specials[j]
  {
  }

  lemma BackslashNotSpecial()
    ensures '\\' !in Specials
  {
    SpecialsFacts();
  }

  /** Python's `s.replace(c, '\\' + c)` for a single character `c`. */
  function ReplaceChar(s: string, c: char): (r: string)
    ensures |r| >= |s|
  {
    if |s| == 0 then []
    else (if s[0] == c then ['\\', c] else [s[0]]) + ReplaceChar(s[1..], c)
  }

  /** The `for char in special_chars` loop: one `replace` per listed character, in list order. */
  function ReplaceEach(s: string, cs: seq<char>): string
    decreases |cs|
  {
    if |cs| == 0 then s else ReplaceEach(ReplaceChar(s, cs[0]), cs[1..])
  }

  /** `escape_markdown`, as written. */
  function EscapeMarkdown(s: string): (r: string)
    ensures r == EscapeBy(s, Specials)
  {
    SpecialsFacts();
    ReplaceEachIsEscapeBy(s, Specials);
    ReplaceEach(s, Specials)
  }

  /** One character under the per-character escaping by the list `cs`. */
  function EscapeCharBy(c: char, cs: seq<char>): string {
    if c in cs then ['\\', c] else [c]
  }

  /** Escapes each character of `s` independently. */
  function EscapeBy(s: string, cs: seq<char>): (r: string)
    ensures |s| == 0 <==> |r| == 0
  {
    if |s| == 0 then [] else EscapeCharBy(s[0], cs) + EscapeBy(s[1..], cs)
  }

  /** Per-character escaping distributes over concatenation. */
  lemma {:induction false} EscapeByConcat(a: string, b: string, cs: seq<char>)
    ensures EscapeBy(a + b, cs) == EscapeBy(a, cs) + EscapeBy(b, cs)
  {
    if |a| == 0 {
      assert a + b == b;
    } else {
      assert (a + b)[0] == a[0];
      assert (a + b)[1..] == a[1..] + b;
      EscapeByConcat(a[1..], b, cs);
    }
  }

  /** Escaping the output of one `replace` by the remaining list equals escaping the input by the whole list. */
  lemma {:induction false} ReplaceThenEscape(s: string, c: char, rest: seq<char>)
    requires c !in rest && '\\' !in rest
    ensures EscapeBy(ReplaceChar(s, c), rest) == EscapeBy(s, [c] + rest)
  {
    if |s| > 0 {
      ReplaceThenEscape(s[1..], c, rest);
      var head := if s[0] == c then ['\\', c] else [s[0]];
      assert ReplaceChar(s, c) == head + ReplaceChar(s[1..], c);
      EscapeByConcat(head, ReplaceChar(s[1..], c), rest);
      HeadThenEscape(s[0], c, rest);
      assert EscapeBy(s, [c] + rest) == EscapeCharBy(s[0], [c] + rest) + EscapeBy(s[1..], [c] + rest);
    }
  }

  /** One character's `replace` output, escaped by the remaining list, is its escape by the whole list. */
  lemma HeadThenEscape(x: char, c: char, rest: seq<char>)
    requires c !in rest && '\\' !in rest
    ensures EscapeBy(if x == c then ['\\', c] else [x], rest) == EscapeCharBy(x, [c] + rest)
  {
    if x == c {
      var head := ['\\', c];
      assert head[1..] == [c];
      assert EscapeBy(head[1..], rest) == [c] by {
        assert EscapeBy([c][1..], rest) == [];
      }
    } else {
      assert EscapeBy([x], rest) == EscapeCharBy(x, rest) by {
        assert [x][1..] == [];
      }
    }
  }

  /** The sequential replacements equal a per-character escape, given a list with no repeats and no backslash. */
  lemma {:induction false} ReplaceEachIsEscapeBy(s: string, cs: seq<char>)
    requires '\\' !in cs
    requires forall i, j :: 0 <= i < j < |cs| ==> cs[i] != cs[j]
    ensures ReplaceEach(s, cs) == EscapeBy(s, cs)
    decreases |cs|
  {
    if |cs| == 0 {
      EscapeByNothing(s, cs);
    } else {
      var rest := cs[1..];
      assert cs[0] !in rest by {
        forall k | 0 <= k < |rest|
          ensures rest[k] != cs[0]
        {
          assert rest[k] == cs[k + 1];
        }
      }
      assert '\\' !in rest by { assert forall x :: x in rest ==> x in cs; }
      assert forall i, j :: 0 <= i < j < |rest| ==> rest[i] != rest[j] by {
        forall i, j | 0 <= i < j < |rest|
          ensures rest[i] != rest[j]
        {
          assert rest[i] == cs[i + 1] && rest[j] == cs[j + 1];
        }
      }
      ReplaceEachIsEscapeBy(ReplaceChar(s, cs[0]), rest);
      ReplaceThenEscape(s, cs[0], rest);
      assert [cs[0]] + rest == cs;
    }
  }

  lemma {:induction false} EscapeByNothing(s: string, cs: seq<char>)
    requires |cs| == 0
    ensures EscapeBy(s, cs) == s
  {
    if |s| > 0 {
      EscapeByNothing(s[1..], cs);
    }
  }

  /** Number of characters of `s` that are in the escape list. */
  function CountSpecials(s: string): (n: nat)
    ensures n <= |s|
    ensures n == 0 <==> forall i :: 0 <= i < |s| ==> s[i] !in Specials
  {
    if |s| == 0 then 0
    else
      assert forall i :: 1 <= i < |s| ==> s[i] == s[1..][i - 1];
      (if s[0] in Specials then 1 else 0) + CountSpecials(s[1..])
  }

  /** Escaping adds exactly one backslash per listed character. */
  lemma EscapeLength(s: string)
    ensures |EscapeMarkdown(s)| == |s| + CountSpecials(s)
  {
    EscapeByLength(s);
  }

  lemma {:induction false} EscapeByLength(s: string)
    ensures |EscapeBy(s, Specials)| == |s| + CountSpecials(s)
  {
    if |s| > 0 {
      EscapeByLength(s[1..]);
    }
  }

  /** A string without listed characters is left unchanged. */
  lemma EscapeWithoutSpecials(s: string)
    requires forall i :: 0 <= i < |s| ==> s[i] !in Specials
    ensures EscapeMarkdown(s) == s
  {
    EscapeLength(s);
    EscapeByIdentity(s);
  }

  lemma {:induction false} EscapeByIdentity(s: string)
    requires forall i :: 0 <= i < |s| ==> s[i] !in Specials
    ensures EscapeBy(s, Specials) == s
  {
    if |s| > 0 {
      EscapeByIdentity(s[1..]);
    }
  }

  /** Deletes each backslash that precedes a listed character. */
  function Unescape(t: string): (r: string)
    ensures |r| <= |t|
  {
    if |t| >= 2 && t[0] == '\\' && t[1] in Specials then [t[1]] + Unescape(t[2..])
    else if |t| == 0 then []
    else [t[0]] + Unescape(t[1..])
  }

  /** An escaped string never starts with a listed character: each one is preceded by its backslash. */
  lemma EscapedHead(s: string)
    requires |s| > 0
    ensures EscapeBy(s, Specials)[0] !in Specials
  {
    BackslashNotSpecial();
    var head := EscapeCharBy(s[0], Specials);
    assert EscapeBy(s, Specials) == head + EscapeBy(s[1..], Specials);
    if s[0] in Specials {
      assert head[0] == '\\';
    } else {
      assert head[0] == s[0];
    }
  }

  /** Removing the inserted backslashes recovers the original text. */
  lemma {:induction false} UnescapeEscape(s: string)
    ensures Unescape(EscapeBy(s, Specials)) == s
  {
    if |s| > 0 {
      var tail := EscapeBy(s[1..], Specials);
      UnescapeEscape(s[1..]);
      if s[0] in Specials {
        assert EscapeBy(s, Specials) == ['\\', s[0]] + tail;
        UnescapeEscapedHead(s[0], tail);
      } else {
        assert EscapeBy(s, Specials) == [s[0]] + tail;
        if |tail| > 0 {
          EscapedHead(s[1..]);
        }
        UnescapePlainHead(s[0], tail);
      }
      assert s == [s[0]] + s[1..];
    }
  }

  lemma UnescapeEscapedHead(x: char, tail: string)
    requires x in Specials
    ensures Unescape(['\\', x] + tail) == [x] + Unescape(tail)
  {
    assert (['\\', x] + tail)[2..] == tail;
  }

  lemma UnescapePlainHead(x: char, tail: string)
    requires x !in Specials
    requires x == '\\' && |tail| > 0 ==> tail[0] !in Specials
    ensures Unescape([x] + tail) == [x] + Unescape(tail)
  {
    assert ([x] + tail)[1..] == tail;
  }

  /** The round trip for `escape_markdown` itself. */
  lemma EscapeMarkdownRoundTrip(s: string)
    ensures Unescape(EscapeMarkdown(s)) == s
  {
    UnescapeEscape(s);
  }

  // ---------------------------------------------------------------- emoji

  const RedCircle: string := "\U{1F534}"
  const OrangeCircle: string := "\U{1F7E0}"
  const YellowCircle: string := "\U{1F7E1}"
  const GreenCircle: string := "\U{1F7E2}"
  const WhiteCircle: string := "\U{26AA}"

  /** `_get_emoji`: a coloured circle per level name, the white circle for anything else. */
  function Emoji(level: string): (e: string)
    ensures |e| == 1
    ensures level !in ["CRITICAL", "HIGH", "MEDIUM", "LOW"] ==> e == WhiteCircle
  {
    if level == "CRITICAL" then RedCircle
    else if level == "HIGH" then OrangeCircle
    else if level == "MEDIUM" then YellowCircle
    else if level == "LOW" then GreenCircle
    else WhiteCircle
  }

  /** Distinct alert levels get distinct glyphs. */
  lemma EmojiDistinguishesLevels(a: AlertLevel, b: AlertLevel)
    requires a != b
    ensures Emoji(LevelName(a)) != Emoji(LevelName(b))
  {
  }

  // ---------------------------------------------------------------- message

  const AlarmClock: string := "\U{23F0}"
  const Calendar: string := "\U{1F4C5}"
  const MoneyBag: string := "\U{1F4B0}"
  const LinkSymbol: string := "\U{1F517}"

  /** The closing line for CRITICAL alerts (the backslashes are Markdown escapes). */
  const CriticalClosing: string := "\U{26A0}\U{FE0F} *FINAL HOURS \\- SUBMIT NOW\\!*"
  /** The closing line for HIGH alerts. */
  const HighClosing: string := "\U{26A1} *Deadline approaching fast\\!*"

  /** Python truthiness of `hackathon.get('prize_amount')`. */
  predicate PrizeShown(prize: Option<real>) {
    prize.Some? && prize.value != 0.0
  }

  /** The pieces of a notification, in the order `format_message` appends them. */
  datatype Line =
    | Title(level: string)
    | NameLine(name: string)
    | CountdownLine(hours: real)
    | DeadlineLine(deadline: int)
    | PrizeLine(amount: real)
    | LinkLine(url: string)
    | UrgencyLine(level: string)

  /** Which pieces a record's message has: the prize line only for a truthy prize, the urgency line only for CRITICAL and HIGH. */
  function Layout(a: Scored): (lines: seq<Line>)
    ensures 5 <= |lines| <= 7
    ensures lines[0] == Title(LevelName(a.level)) && lines[1] == NameLine(a.item.name)
    ensures forall i :: 1 < i < |lines| ==> !lines[i].NameLine? && !lines[i].Title?
    ensures PrizeShown(a.item.prize) <==> exists i :: 0 <= i < |lines| && lines[i].PrizeLine?
    ensures forall i :: 0 <= i < |lines| && lines[i].PrizeLine? ==> Some(lines[i].amount) == a.item.prize
    ensures lines[|lines| - 1].UrgencyLine? <==> a.level == Critical || a.level == High
    ensures !lines[|lines| - 1].UrgencyLine? ==> lines[|lines| - 1] == LinkLine(a.item.url)
    ensures lines[|lines| - 1].UrgencyLine? ==> lines[|lines| - 1].level == LevelName(a.level)
    ensures lines[2] == CountdownLine(a.hoursRemaining) && lines[3] == DeadlineLine(a.item.deadline)
    ensures lines[|lines| - 1].UrgencyLine? ==> lines[|lines| - 2] == LinkLine(a.item.url)
    ensures |lines| == 5 + (if PrizeShown(a.item.prize) then 1 else 0) + (if a.level == Critical || a.level == High then 1 else 0)
    ensures PrizeShown(a.item.prize) ==> lines[4] == PrizeLine(a.item.prize.value)
  {
    var level := LevelName(a.level);
    var head := [Title(level), NameLine(a.item.name), CountdownLine(a.hoursRemaining), DeadlineLine(a.item.deadline)];
    var prize := if PrizeShown(a.item.prize) then [PrizeLine(a.item.prize.value)] else [];
    var closing := if level == "CRITICAL" || level == "HIGH" then [UrgencyLine(level)] else [];
    var lines := head + prize + [LinkLine(a.item.url)] + closing;
    if PrizeShown(a.item.prize) then
      assert lines[4].PrizeLine?;
      lines
    else lines
  }

  /**
   * The text of one piece. `formatDeadline` stands for `strftime('%Y-%m-%d %H:%M UTC')` and
   * `formatPrize` for the `:,.0f` formatting.
   */
  function RenderLine(line: Line, formatDeadline: int -> string, formatPrize: real -> string): (r: string)
    ensures line.Title? ==> Emoji(line.level) <= r
    ensures line.NameLine? ==>
      |r| >= 4 && r[1..|r| - 3] == EscapeBy(line.name, Specials) && Unescape(r[1..|r| - 3]) == line.name
    ensures line.LinkLine? ==> EndsWith(r, "(" + line.url + ")\n\n")
    ensures line.CountdownLine? ==> EndsWith(r, " remaining*\n")
    ensures line.Title? || line.NameLine? || line.DeadlineLine? || line.PrizeLine? ==> EndsWith(r, "\n\n")
  {
    match line
    case Title(level) => Ended(Emoji(level) + " *" + level + " ALERT*", "\n\n")
    case NameLine(name) => NameText(name)
    case CountdownLine(hours) => Ended(AlarmClock + " *" + FormatCountdown(hours), " remaining*\n")
    case DeadlineLine(deadline) => Ended(Calendar + " Deadline: " + formatDeadline(deadline), "\n\n")
    case PrizeLine(amount) => Ended(MoneyBag + " Prize: $" + formatPrize(amount), "\n\n")
    case LinkLine(url) => Ended(LinkSymbol + " [Submit Now]", "(" + url + ")\n\n")
    case UrgencyLine(level) =>
      if level == "CRITICAL" then CriticalClosing else if level == "HIGH" then HighClosing else ""
  }

  /** `body` followed by `tail`. */
  function Ended(body: string, tail: string): (r: string)
    ensures body <= r && EndsWith(r, tail)
  {
    var r := body + tail;
    assert r[|r| - |tail|..] == tail;
    r
  }

  /** The name line: the escaped name in asterisks, then a blank line; the name can be read back. */
  function NameText(name: string): (r: string)
    ensures |r| >= 4 && Unescape(r[1..|r| - 3]) == name
    ensures |r| >= 4 && r[0] == '*' && r[1..|r| - 3] == EscapeBy(name, Specials) && r[|r| - 3..] == "*\n\n"
    ensures EndsWith(r, "\n\n")
  {
    var escaped := EscapeMarkdown(name);
    Emphasized(escaped);
    EscapeMarkdownRoundTrip(name);
    "*" + escaped + "*\n\n"
  }

  /** The text between the asterisks of an emphasized line is what was put there. */
  lemma Emphasized(e: string)
    ensures var r := "*" + e + "*\n\n"; |r| >= 4 && r[1..|r| - 3] == e && EndsWith(r, "\n\n")
    ensures var r := "*" + e + "*\n\n"; r[0] == '*' && r[|r| - 3..] == "*\n\n"
  {
    var r := "*" + e + "*\n\n";
    assert r[1..|r| - 3] == e;
    assert r[|r| - 2..] == "\n\n";
  }

  /** The pieces' texts, joined. */
  function Render(lines: seq<Line>, formatDeadline: int -> string, formatPrize: real -> string): string {
    if |lines| == 0 then ""
    else RenderLine(lines[0], formatDeadline, formatPrize) + Render(lines[1..], formatDeadline, formatPrize)
  }

  predicate EndsWith(s: string, t: string) {
    |t| <= |s| && s[|s| - |t|..] == t
  }

  /** A rendered message ends with the text of its last piece. */
  lemma {:induction false} RenderEnds(lines: seq<Line>, formatDeadline: int -> string, formatPrize: real -> string)
    requires |lines| > 0
    ensures EndsWith(Render(lines, formatDeadline, formatPrize), RenderLine(lines[|lines| - 1], formatDeadline, formatPrize))
  {
    var first := RenderLine(lines[0], formatDeadline, formatPrize);
    var rest := Render(lines[1..], formatDeadline, formatPrize);
    if |lines| > 1 {
      RenderEnds(lines[1..], formatDeadline, formatPrize);
      assert lines[1..][|lines| - 2] == lines[|lines| - 1];
      AppendKeepsEnd(first, rest, RenderLine(lines[|lines| - 1], formatDeadline, formatPrize));
    } else {
      EndsWithSelf(first);
      assert rest == [];
      assert first + rest == first;
    }
  }

  /** Text put in front of a string does not change how it ends. */
  lemma AppendKeepsEnd(a: string, b: string, t: string)
    requires EndsWith(b, t)
    ensures EndsWith(a + b, t)
  {
    assert (a + b)[|a + b| - |t|..] == b[|b| - |t|..];
  }

  lemma SuffixOfSuffix(s: string, t: string, u: string)
    requires EndsWith(s, t) && EndsWith(t, u)
    ensures EndsWith(s, u)
  {
    assert s[|s| - |u|..] == t[|t| - |u|..];
  }

  /** `format_message`. */
  function FormatMessage(a: Scored, formatDeadline: int -> string, formatPrize: real -> string): (m: string)
    ensures Emoji(LevelName(a.level)) <= m
    ensures a.level == Critical ==> EndsWith(m, CriticalClosing)
    ensures a.level == High ==> EndsWith(m, HighClosing)
    ensures a.level != Critical && a.level != High ==> EndsWith(m, ")\n\n")
  {
    MessageEnds(a, formatDeadline, formatPrize);
    Render(Layout(a), formatDeadline, formatPrize)
  }

  lemma MessageEnds(a: Scored, formatDeadline: int -> string, formatPrize: real -> string)
    ensures Emoji(LevelName(a.level)) <= Render(Layout(a), formatDeadline, formatPrize)
    ensures a.level == Critical ==> EndsWith(Render(Layout(a), formatDeadline, formatPrize), CriticalClosing)
    ensures a.level == High ==> EndsWith(Render(Layout(a), formatDeadline, formatPrize), HighClosing)
    ensures a.level != Critical && a.level != High ==> EndsWith(Render(Layout(a), formatDeadline, formatPrize), ")\n\n")
  {
    var lines := Layout(a);
    LayoutLast(a);
    MessageStarts(lines, LevelName(a.level), formatDeadline, formatPrize);
    MessageCloses(lines, formatDeadline, formatPrize);
  }

  /** The last piece of a layout: the urgency line for CRITICAL and HIGH, the link otherwise. */
  lemma LayoutLast(a: Scored)
    ensures var lines := Layout(a);
      && (a.level == Critical ==> lines[|lines| - 1] == UrgencyLine("CRITICAL"))
      && (a.level == High ==> lines[|lines| - 1] == UrgencyLine("HIGH"))
      && (a.level != Critical && a.level != High ==> lines[|lines| - 1] == LinkLine(a.item.url))
  {
  }

  /** A message whose first piece is a title begins with that title's emoji. */
  lemma MessageStarts(lines: seq<Line>, level: string, formatDeadline: int -> string, formatPrize: real -> string)
    requires |lines| > 0 && lines[0] == Title(level)
    ensures Emoji(level) <= Render(lines, formatDeadline, formatPrize)
  {
    var title := RenderLine(lines[0], formatDeadline, formatPrize);
    assert Emoji(level) <= title;
    assert title <= Render(lines, formatDeadline, formatPrize);
  }

  /** A message whose last piece is the urgency line or the link ends with that piece's closing text. */
  lemma MessageCloses(lines: seq<Line>, formatDeadline: int -> string, formatPrize: real -> string)
    requires |lines| > 0
    ensures lines[|lines| - 1] == UrgencyLine("CRITICAL") ==> EndsWith(Render(lines, formatDeadline, formatPrize), CriticalClosing)
    ensures lines[|lines| - 1] == UrgencyLine("HIGH") ==> EndsWith(Render(lines, formatDeadline, formatPrize), HighClosing)
    ensures lines[|lines| - 1].LinkLine? ==> EndsWith(Render(lines, formatDeadline, formatPrize), ")\n\n")
  {
    var last := lines[|lines| - 1];
    ClosingPiece(last, formatDeadline, formatPrize);
    if last == UrgencyLine("CRITICAL") {
      EndsWithLastPiece(lines, formatDeadline, formatPrize, CriticalClosing);
    } else if last == UrgencyLine("HIGH") {
      EndsWithLastPiece(lines, formatDeadline, formatPrize, HighClosing);
    } else if last.LinkLine? {
      EndsWithLastPiece(lines, formatDeadline, formatPrize, ")\n\n");
    }
  }

  /** The closing texts of the urgency lines and of the link line. */
  lemma ClosingPiece(last: Line, formatDeadline: int -> string, formatPrize: real -> string)
    ensures last == UrgencyLine("CRITICAL") ==> EndsWith(RenderLine(last, formatDeadline, formatPrize), CriticalClosing)
    ensures last == UrgencyLine("HIGH") ==> EndsWith(RenderLine(last, formatDeadline, formatPrize), HighClosing)
    ensures last.LinkLine? ==> EndsWith(RenderLine(last, formatDeadline, formatPrize), ")\n\n")
  {
    var r := RenderLine(last, formatDeadline, formatPrize);
    if last == UrgencyLine("CRITICAL") {
      assert r == CriticalClosing;
      EndsWithSelf(CriticalClosing);
    } else if last == UrgencyLine("HIGH") {
      assert r == HighClosing;
      EndsWithSelf(HighClosing);
    } else if last.LinkLine? {
      LinkTail(r, last.url);
    }
  }

  lemma LinkTail(r: string, url: string)
    requires EndsWith(r, "(" + url + ")\n\n")
    ensures EndsWith(r, ")\n\n")
  {
    var tail := "(" + url + ")\n\n";
    assert tail[|tail| - 3..] == ")\n\n";
    SuffixOfSuffix(r, tail, ")\n\n");
  }

  lemma EndsWithSelf(s: string)
    ensures EndsWith(s, s)
  {
    assert s[|s| - |s|..] == s;
  }

  /** Whatever the last piece of a message ends with, the message ends with too. */
  lemma EndsWithLastPiece(lines: seq<Line>, formatDeadline: int -> string, formatPrize: real -> string, tail: string)
    requires |lines| > 0
    requires EndsWith(RenderLine(lines[|lines| - 1], formatDeadline, formatPrize), tail)
    ensures EndsWith(Render(lines, formatDeadline, formatPrize), tail)
  {
    RenderEnds(lines, formatDeadline, formatPrize);
    SuffixOfSuffix(Render(lines, formatDeadline, formatPrize), RenderLine(lines[|lines| - 1], formatDeadline, formatPrize), tail);
  }

  // ---------------------------------------------------------------- sending

  /** What `send_batch` does, in order: a send attempt with its outcome, or a two-second pause. */
  datatype Event = Send(index: nat, ok: bool) | Delay

  /** Number of the first `n` live sends that `delivered` reports as successful. */
  function CountDelivered(delivered: nat -> bool, n: nat): (k: nat)
    ensures k <= n
  {
    if n == 0 then 0 else CountDelivered(delivered, n - 1) + (if delivered(n - 1) then 1 else 0)
  }

  /**
   * `send_batch`: sends each record in order and counts the outcomes; a dry run reports every send
   * as successful. Live sends are separated by a pause, with none after the last.
   */
  method SendBatch(count: nat, dryRun: bool, delivered: nat -> bool) returns (sent: nat, failed: nat, trace: seq<Event>)
    ensures sent + failed == count
    ensures dryRun ==> sent == count && failed == 0
    ensures !dryRun ==> sent == CountDelivered(delivered, count)
    ensures dryRun ==> |trace| == count && forall i :: 0 <= i < count ==> trace[i] == Send(i, true)
    ensures !dryRun && count > 0 ==> |trace| == 2 * count - 1
    ensures !dryRun ==> forall i :: 0 <= i < count ==> trace[2 * i] == Send(i, delivered(i))
    ensures !dryRun ==> forall i :: 0 <= i < count - 1 ==> trace[2 * i + 1] == Delay
  {
    sent, failed, trace := 0, 0, [];
    for i := 0 to count
      invariant sent + failed == i
      invariant dryRun ==> sent == i && |trace| == i && forall j :: 0 <= j < i ==> trace[j] == Send(j, true)
      invariant !dryRun ==> sent == CountDelivered(delivered, i)
      invariant !dryRun ==> |trace| == (if i == count && i > 0 then 2 * i - 1 else 2 * i)
      invariant !dryRun ==> forall j :: 0 <= j < i ==> trace[2 * j] == Send(j, delivered(j))
      invariant !dryRun ==> forall j :: 0 <= j < i && j < count - 1 ==> trace[2 * j + 1] == Delay
    {
      var ok := dryRun || delivered(i);
      if ok {
        sent := sent + 1;
      } else {
        failed := failed + 1;
      }
      trace := trace + [Send(i, ok)];
      if i < count - 1 && !dryRun {
        trace := trace + [Delay];
      }
    }
  }
}
