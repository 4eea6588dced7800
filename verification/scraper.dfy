/**
 * Post-processing of the profile scraper. The regular-expression engine, the HTML tree and the
 * date parser are not modelled: each candidate link arrives with the matches the patterns found in
 * its text, and date strings are read by a `parse` function supplied by the caller. What is
 * modelled is every decision the scraper takes around them.
 */
module Scraper {
  import opened Wrappers
  import opened Seqs
  import opened Text
  import opened Dedup
  import opened StableSort
  import opened Records

  const BaseUrl: string := "https://devpost.com"

  /** Groups of the date-range pattern "Feb 2 – 20, 2026": the start "Mon D", the end day, the year. */
  datatype RangeMatch = RangeMatch(start: string, endDay: string, year: string)

  /** Groups of one prize-pattern match over the lower-cased text: prefix symbol, amount, magnitude, suffix. */
  datatype PrizeMatch = PrizeMatch(prefix: Option<char>, amount: string, modifier: Option<string>, suffix: Option<string>)

  /** A "City, Region" capture; the pattern cannot match fewer than five characters ("Ab,CD"). */
  type LocationText = s: string | |s| >= 5 witness "Ab,CD"

  /**
   * One anchor element of the page. `text` is its visible text (pieces joined by spaces, stripped), `href` its
   * link target ("" when absent), `heading` the stripped text of its first h2/h5/h3 element if any.
   * The remaining fields are what the four patterns found in `text`.
   */
  datatype Candidate = Candidate(
    text: string,
    href: string,
    heading: Option<string>,
    submitMatch: Option<string>,
    rangeMatch: Option<RangeMatch>,
    simpleMatch: Option<string>,
    prizeMatches: seq<PrizeMatch>,
    locationMatch: Option<LocationText>)

  /** A parsed link before the "deadline required" filter. */
  datatype Listing = Listing(name: string, url: string, deadline: Option<int>, prize: Option<real>, location: string)

  // ---------------------------------------------------------------- URL

  /** Python's `s.split('?')[0]`: everything before the first `?`. */
  function BeforeQuery(s: string): (r: string)
    ensures r <= s
    ensures '?' !in r
    ensures |r| < |s| ==> s[|r|] == '?'
  {
    if |s| == 0 || s[0] == '?' then [] else [s[0]] + BeforeQuery(s[1..])
  }

  /** Drops the query string and makes a site-relative path absolute. */
  function CleanUrl(href: string): (url: string)
    ensures '?' !in url
    ensures "http" <= url
    ensures |BeforeQuery(href)| <= |url| && url[|url| - |BeforeQuery(href)|..] == BeforeQuery(href)
    ensures "http" <= BeforeQuery(href) ==> url == BeforeQuery(href)
    ensures !("http" <= BeforeQuery(href)) ==> url == BaseUrl + BeforeQuery(href)
  {
    var path := BeforeQuery(href);
    if "http" <= path then path else BaseUrl + path
  }

  /** Cleaning a clean URL changes nothing. */
  lemma CleanUrlIdempotent(href: string)
    ensures CleanUrl(CleanUrl(href)) == CleanUrl(href)
  {
    var url := CleanUrl(href);
    NoQueryUnchanged(url);
  }

  lemma {:induction false} NoQueryUnchanged(s: string)
    requires '?' !in s
    ensures BeforeQuery(s) == s
  {
    if |s| > 0 {
      assert '?' !in s[1..] by { assert forall c :: c in s[1..] ==> c in s; }
      NoQueryUnchanged(s[1..]);
    }
  }

  // ---------------------------------------------------------------- name

  /** Python's `s.split('\n')[0]`. */
  function FirstLine(s: string): (r: string)
    ensures r <= s && '\n' !in r
    ensures |r| < |s| ==> s[|r|] == '\n'
  {
    if |s| == 0 || s[0] == '\n' then [] else [s[0]] + FirstLine(s[1..])
  }

  /** `re.sub(r'^(Featured\s*)?', '', s)`: removes a leading "Featured" and the whitespace after it. */
  function DropFeatured(s: string): (r: string)
    ensures |r| <= |s| && r == s[|s| - |r|..]
    ensures "Featured" <= s ==> |r| <= |s| - 8 && forall i :: 8 <= i < |s| - |r| ==> IsSpace(s[i])
    ensures "Featured" <= s && |r| > 0 ==> !IsSpace(r[0])
    ensures !("Featured" <= s) ==> r == s
  {
    if "Featured" <= s then TrimStart(s[8..]) else s
  }

  /** The display name: the heading's text, else the first line of the link text without a "Featured" prefix. */
  function NameOf(c: Candidate): (name: string)
    ensures c.heading.Some? ==> name == c.heading.value
    ensures c.heading.None? ==> Contains(FirstLine(c.text), name) && '\n' !in name
    ensures c.heading.None? && |name| > 0 ==> !IsSpace(name[0]) && !IsSpace(name[|name| - 1])
  {
    match c.heading
    case Some(h) => h
    case None =>
      var line := FirstLine(c.text);
      var stripped := Strip(line);
      var dropped := DropFeatured(stripped);
      NameWithin(line, stripped, dropped, Strip(dropped));
      Strip(dropped)
  }

  /**
   * Without a heading the name is the stripped first line, minus a leading "Featured" and the
   * whitespace around what remains.
   */
  lemma NameOfFirstLine(c: Candidate)
    requires c.heading.None?
    ensures !("Featured" <= Strip(FirstLine(c.text))) ==> NameOf(c) == Strip(FirstLine(c.text))
    ensures "Featured" <= Strip(FirstLine(c.text)) ==> NameOf(c) == Strip(Strip(FirstLine(c.text))[8..])
  {
    NameWithoutFeatured(Strip(FirstLine(c.text)));
  }

  /** The name cut from a stripped line: the line itself, or what follows a leading "Featured", stripped. */
  lemma NameWithoutFeatured(stripped: string)
    requires |stripped| > 0 ==> !IsSpace(stripped[0]) && !IsSpace(stripped[|stripped| - 1])
    ensures !("Featured" <= stripped) ==> Strip(DropFeatured(stripped)) == stripped
    ensures "Featured" <= stripped ==> Strip(DropFeatured(stripped)) == Strip(stripped[8..])
  {
    if "Featured" <= stripped {
      StripAfterTrimStart(stripped[8..]);
    } else {
      StripStripped(stripped);
    }
  }

  /** Stripping an already stripped string changes nothing. */
  lemma StripStripped(s: string)
    requires |s| > 0 ==> !IsSpace(s[0]) && !IsSpace(s[|s| - 1])
    ensures Strip(s) == s
  {
    if |s| > 0 {
      StripUnpadded(s);
    }
  }

  /** Removing leading whitespace before stripping changes nothing. */
  lemma StripAfterTrimStart(s: string)
    ensures Strip(TrimStart(s)) == Strip(s)
  {
    var t := TrimStart(s);
    assert TrimStart(t) == t;
  }

  /** Cutting a substring, then a suffix of it, then a substring of that, leaves a substring of the line. */
  lemma NameWithin(line: string, stripped: string, dropped: string, name: string)
    requires Contains(line, stripped)
    requires |dropped| <= |stripped| && dropped == stripped[|stripped| - |dropped|..]
    requires Contains(dropped, name)
    ensures Contains(line, name)
    ensures '\n' !in line ==> '\n' !in name
  {
    OccursAtContains(stripped, dropped, |stripped| - |dropped|);
    ContainsTransitive(line, stripped, dropped);
    ContainsTransitive(line, dropped, name);
    ContainsMembers(line, name);
  }

  // ---------------------------------------------------------------- deadline

  /** Python's `s.split()[0]`, or `None` where that raises because `s` has no word. */
  function FirstWord(s: string): (r: Option<string>)
    ensures r.None? <==> forall i :: 0 <= i < |s| ==> IsSpace(s[i])
    ensures r.Some? ==> |r.value| > 0 && forall i :: 0 <= i < |r.value| ==> !IsSpace(r.value[i])
    ensures r.Some? ==> exists k :: WordAt(s, r.value, k)
  {
    var t := TrimStart(s);
    if |t| == 0 then None
    else
      var w := WordPrefix(t);
      FirstWordAt(s, t, w);
      Some(w)
  }

  /**
   * `w` is the first word of `s`, starting at `k`: only whitespace comes before it, and it runs up to
   * whitespace or the end of `s`.
   */
  predicate WordAt(s: string, w: string, k: int) {
    |w| > 0 && (forall i :: 0 <= i < |w| ==> !IsSpace(w[i]))
    && 0 <= k && k + |w| <= |s| && s[k..k + |w|] == w
    && (forall i :: 0 <= i < k ==> IsSpace(s[i]))
    && (k + |w| == |s| || IsSpace(s[k + |w|]))
  }

  /** A text has at most one first word: `WordAt` fixes both the word and where it starts. */
  lemma WordAtUnique(s: string, w1: string, k1: int, w2: string, k2: int)
    requires WordAt(s, w1, k1) && WordAt(s, w2, k2)
    ensures w1 == w2 && k1 == k2
  {
    WordAtBounds(s, w1, k1);
    WordAtBounds(s, w2, k2);
    assert s[k1] == w1[0] && s[k2] == w2[0];
    assert k1 == k2;
    assert |w2| <= |w1| by {
      if k1 + |w1| < |s| { assert IsSpace(s[k1 + |w1|]); }
    }
    assert |w1| <= |w2| by {
      if k2 + |w2| < |s| { assert IsSpace(s[k2 + |w2|]); }
    }
  }

  /** A first word starts at the first non-blank character and stops at the next blank. */
  lemma WordAtBounds(s: string, w: string, k: int)
    requires WordAt(s, w, k)
    ensures forall j :: 0 <= j < |s| && !IsSpace(s[j]) ==> k <= j
    ensures forall j :: k <= j < |s| && IsSpace(s[j]) ==> k + |w| <= j
  {
    forall j | k <= j < k + |w|
      ensures !IsSpace(s[j])
    {
      assert s[j] == w[j - k];
    }
  }

  /** Whatever the first word of the month group is, the date text is built from that word. */
  lemma RangeTextOfFirstWord(m: RangeMatch, month: string, k: int)
    requires WordAt(m.start, month, k)
    ensures RangeDeadlineText(m) == Some(month + " " + m.endDay + ", " + m.year + " 11:59 PM")
  {
    var r := RangeDeadlineText(m);
    assert !IsSpace(m.start[k]);
    var month', k' :| WordAt(m.start, month', k') && r.value == month' + " " + m.endDay + ", " + m.year + " 11:59 PM";
    WordAtUnique(m.start, month, k, month', k');
  }

  /** The word found after the leading whitespace `s[..|s| - |t|]` is the first word of `s`. */
  lemma FirstWordAt(s: string, t: string, w: string)
    requires |t| <= |s| && t == s[|s| - |t|..] && forall i :: 0 <= i < |s| - |t| ==> IsSpace(s[i])
    requires 0 < |w| <= |t| && w <= t && forall i :: 0 <= i < |w| ==> !IsSpace(w[i])
    requires |w| == |t| || IsSpace(t[|w|])
    ensures WordAt(s, w, |s| - |t|)
  {
    assert s[|s| - |t|..][..|w|] == w;
  }

  function WordPrefix(s: string): (r: string)
    requires |s| > 0 && !IsSpace(s[0])
    ensures 0 < |r| <= |s| && r <= s
    ensures forall i :: 0 <= i < |r| ==> !IsSpace(r[i])
    ensures |r| == |s| || IsSpace(s[|r|])
  {
    if |s| == 1 || IsSpace(s[1]) then [s[0]] else [s[0]] + WordPrefix(s[1..])
  }

  /** The date string built from a range match: the month, the end day and the year at 11:59 PM. */
  function RangeDeadlineText(m: RangeMatch): (r: Option<string>)
    ensures r.None? <==> forall i :: 0 <= i < |m.start| ==> IsSpace(m.start[i])
    ensures r.Some? ==> exists month ::
      (exists k :: WordAt(m.start, month, k)) && r.value == month + " " + m.endDay + ", " + m.year + " 11:59 PM"
    ensures r.Some? ==> |r.value| >= 9 && r.value[|r.value| - 9..] == " 11:59 PM"
  {
    match FirstWord(m.start)
    case None => None
    case Some(month) => Some(month + " " + m.endDay + ", " + m.year + " 11:59 PM")
  }

  /** Date strings to try, in order: the "to submit" phrase, the date range, the bare date-time. */
  function DeadlineAttempts(c: Candidate): seq<Option<string>> {
    [c.submitMatch, if c.rangeMatch.Some? then RangeDeadlineText(c.rangeMatch.value) else None, c.simpleMatch]
  }

  /** Attempt `i` produced a string that parses. */
  predicate Succeeds(attempts: seq<Option<string>>, parse: string -> Option<int>, i: int) {
    0 <= i < |attempts| && attempts[i].Some? && parse(attempts[i].value).Some?
  }

  /** The first attempt whose string parses wins; a failed parse falls through to the next one. */
  function FirstParsed(attempts: seq<Option<string>>, parse: string -> Option<int>): (r: Option<int>)
    ensures r.Some? <==> exists i :: Succeeds(attempts, parse, i)
    ensures r.Some? ==> exists i :: (Succeeds(attempts, parse, i) && parse(attempts[i].value) == r
      && forall j :: 0 <= j < i ==> !Succeeds(attempts, parse, j))
  {
    if |attempts| == 0 then None
    else
      assert forall i :: 1 <= i < |attempts| ==>
        (Succeeds(attempts, parse, i) <==> Succeeds(attempts[1..], parse, i - 1));
      if attempts[0].Some? && parse(attempts[0].value).Some? then
        assert Succeeds(attempts, parse, 0);
        parse(attempts[0].value)
      else
        var r := FirstParsed(attempts[1..], parse);
        if r.Some? then
          var i :| Succeeds(attempts[1..], parse, i) && parse(attempts[1..][i].value) == r
            && forall j :: 0 <= j < i ==> !Succeeds(attempts[1..], parse, j);
          assert Succeeds(attempts, parse, i + 1);
          r
        else r
  }

  /** `_extract_deadline_from_text`: the cascade over the three patterns. */
  function ExtractDeadline(c: Candidate, parse: string -> Option<int>): Option<int> {
    FirstParsed(DeadlineAttempts(c), parse)
  }

  // ---------------------------------------------------------------- prize

  /** Conversion rates to USD, keyed by symbol or lower-case code. */
  const Currencies: map<string, real> := map[
    "$" := 1.0, "usd" := 1.0,
    "\U{20AC}" := 1.08, "eur" := 1.08,
    "\U{A3}" := 1.25, "gbp" := 1.25,
    "\U{20B9}" := 0.012, "inr" := 0.012,
    "c$" := 0.74, "cad" := 0.74,
    "a$" := 0.65, "aud" := 0.65]

  /** Python truthiness of an optional string group. */
  predicate Truthy(s: Option<string>) {
    s.Some? && s.value != ""
  }

  /** Python's `s.replace(',', '')`. */
  function RemoveCommas(s: string): (r: string)
    ensures ',' !in r
  {
    Filter(s, c => c != ',')
  }

  function Pow10(n: nat): (p: nat)
    ensures p >= 1
  {
    if n == 0 then 1 else 10 * Pow10(n - 1)
  }

  /** Index of the first '.' in `s`, or |s| when there is none. */
  function DotIndex(s: string): (i: nat)
    ensures i <= |s| && '.' !in s[..i]
    ensures i < |s| ==> s[i] == '.'
  {
    if |s| == 0 || s[0] == '.' then 0
    else
      var j := DotIndex(s[1..]);
      assert s[..j + 1] == [s[0]] + s[1..][..j];
      j + 1
  }

  /** Python's `float(s)` on the text the amount group can capture: digits with at most one '.'. */
  function ParseAmount(s: string): (r: Option<real>)
    ensures r.Some? ==> r.value >= 0.0
  {
    var i := DotIndex(s);
    if i == |s| then
      if |s| > 0 && AllDigits(s) then Some(DigitsValue(s) as real) else None
    else
      var whole, frac := s[..i], s[i + 1..];
      if AllDigits(whole) && AllDigits(frac) && |whole| + |frac| > 0 then
        Some(DigitsValue(whole) as real + DigitsValue(frac) as real / Pow10(|frac|) as real)
      else None
  }

  /** A whole number written in decimal reads back as itself. */
  lemma ParseAmountOfNat(n: nat)
    ensures ParseAmount(NatToString(n)) == Some(n as real)
  {
    var s := NatToString(n);
    NatToStringRoundTrip(n);
  }

  /** Magnitude modifier: thousands for "k", millions for "m", "mil" or "million". */
  function Magnitude(modifier: Option<string>): (f: real)
    ensures f >= 1.0
    ensures modifier == Some("k") ==> f == 1000.0
    ensures Truthy(modifier) && modifier.value in ["m", "mil", "million"] ==> f == 1000000.0
    ensures !Truthy(modifier) || modifier.value !in ["k", "m", "mil", "million"] ==> f == 1.0
  {
    if !Truthy(modifier) then 1.0
    else if modifier.value == "k" then 1000.0
    else if modifier.value in ["m", "mil", "million"] then 1000000.0
    else 1.0
  }

  /** Exchange rate of a match: a known prefix symbol wins over a known suffix code; USD otherwise. */
  function Rate(m: PrizeMatch): (rate: real)
    ensures m.prefix.Some? && [m.prefix.value] in Currencies ==> rate == Currencies[[m.prefix.value]]
    ensures (m.prefix.None? || [m.prefix.value] !in Currencies) && Truthy(m.suffix) && m.suffix.value in Currencies
      ==> rate == Currencies[m.suffix.value]
    ensures (m.prefix.None? || [m.prefix.value] !in Currencies) && !(Truthy(m.suffix) && m.suffix.value in Currencies)
      ==> rate == 1.0
    ensures rate > 0.0
  {
    if m.prefix.Some? && [m.prefix.value] in Currencies then Currencies[[m.prefix.value]]
    else if Truthy(m.suffix) && m.suffix.value in Currencies then Currencies[m.suffix.value]
    else 1.0
  }

  /** The match is discarded before its amount is read: no currency marker without the word "prize", or an unknown suffix. */
  predicate Skipped(m: PrizeMatch, mentionsPrize: bool) {
    (m.prefix.None? && !Truthy(m.suffix) && !mentionsPrize)
    || (Truthy(m.suffix) && m.suffix.value !in Currencies)
  }

  /** Only amounts strictly above $100 count as a prize. */
  function AboveFloor(v: real): (r: Option<real>)
    ensures r.Some? <==> v > 100.0
    ensures r.Some? ==> r.value == v
  {
    if v > 100.0 then Some(v) else None
  }

  /** A parsed amount scaled by the match's magnitude word and converted at its exchange rate. */
  function InUsd(amount: real, m: PrizeMatch): real {
    amount * Magnitude(m.modifier) * Rate(m)
  }

  /** The USD value one match contributes, if it is not skipped and exceeds the $100 floor. */
  function MatchValue(m: PrizeMatch, mentionsPrize: bool): (r: Option<real>)
    ensures r.Some? ==> r.value > 100.0
    ensures Skipped(m, mentionsPrize) ==> r.None?
    ensures r.Some? ==> ParseAmount(RemoveCommas(m.amount)).Some?
    ensures ParseAmount(RemoveCommas(m.amount)).None? ==> r.None?
    ensures !Skipped(m, mentionsPrize) && ParseAmount(RemoveCommas(m.amount)).Some? ==>
      r == AboveFloor(InUsd(ParseAmount(RemoveCommas(m.amount)).value, m))
  {
    var parsed := ParseAmount(RemoveCommas(m.amount));
    if Skipped(m, mentionsPrize) || parsed.None? then None
    else AboveFloor(InUsd(parsed.value, m))
  }

  /**
   * The pattern captures "m" before it could try "mil", so "$5 million" arrives as prefix "$",
   * amount "5", modifier "m" and suffix "ill"; the unknown suffix then discards the match
   * although its prefix names a currency.
   */
  lemma PrefixedAmountDroppedByWordSuffix(mentionsPrize: bool)
    ensures MatchValue(PrizeMatch(Some('$'), "5", Some("m"), Some("ill")), mentionsPrize) == None
  {
    assert "ill" !in Currencies;
  }

  /** The largest present value, or 0 when none is present (the loop's running `max_prize`). */
  function MaxPresent(vs: seq<Option<real>>): (best: real)
    requires forall i :: 0 <= i < |vs| && vs[i].Some? ==> vs[i].value > 0.0
    ensures best >= 0.0
    ensures forall i :: 0 <= i < |vs| && vs[i].Some? ==> vs[i].value <= best
    ensures best == 0.0 <==> forall i :: 0 <= i < |vs| ==> vs[i].None?
    ensures best != 0.0 ==> exists i :: 0 <= i < |vs| && vs[i] == Some(best)
  {
    if |vs| == 0 then 0.0
    else
      var pre := vs[..|vs| - 1];
      assert forall i :: 0 <= i < |pre| ==> pre[i] == vs[i];
      var rest := MaxPresent(pre);
      match vs[|vs| - 1]
      case None => rest
      case Some(v) => if v > rest then v else rest
  }

  /** The value of each match, in order. */
  function MatchValues(ms: seq<PrizeMatch>, mentionsPrize: bool): (vs: seq<Option<real>>)
    ensures |vs| == |ms|
    ensures forall i :: 0 <= i < |ms| ==> vs[i] == MatchValue(ms[i], mentionsPrize)
  {
    seq(|ms|, i requires 0 <= i < |ms| => MatchValue(ms[i], mentionsPrize))
  }

  /** `_extract_prize_from_text`: the best match value, or `None` when no match counts. */
  function ExtractPrize(text: string, ms: seq<PrizeMatch>): (r: Option<real>)
    ensures r.Some? ==> r.value > 100.0
    ensures r.Some? <==> exists i :: 0 <= i < |ms| && MatchValue(ms[i], Contains(Lower(text), "prize")).Some?
    ensures r.Some? ==> forall i :: 0 <= i < |ms| && MatchValue(ms[i], Contains(Lower(text), "prize")).Some? ==>
      MatchValue(ms[i], Contains(Lower(text), "prize")).value <= r.value
    ensures r.Some? ==> exists i :: 0 <= i < |ms| && MatchValue(ms[i], Contains(Lower(text), "prize")) == r
  {
    var vs := MatchValues(ms, Contains(Lower(text), "prize"));
    var best := MaxPresent(vs);
    if best > 0.0 then Some(best) else None
  }

  /** "20k EUR" converts at the euro rate: 21600 USD. */
  lemma EuroSuffixExample(mentionsPrize: bool)
    ensures MatchValue(PrizeMatch(None, "20", Some("k"), Some("eur")), mentionsPrize) == Some(21600.0)
  {
    var m := PrizeMatch(None, "20", Some("k"), Some("eur"));
    assert "eur" in Currencies && Currencies["eur"] == 1.08;
    assert !Skipped(m, mentionsPrize);
    assert Rate(m) == 1.08;
    assert Magnitude(m.modifier) == 1000.0;
    assert RemoveCommas("20") == "20";
    ParseAmountOfNat(20);
    assert NatToString(20) == "20";
    assert ParseAmount(RemoveCommas(m.amount)) == Some(20.0);
  }

  // ---------------------------------------------------------------- location

  /** "Online" if the text says so, else the "City, Region" capture, else "Unknown". */
  function ExtractLocation(text: string, m: Option<LocationText>): (loc: string)
    ensures |loc| > 0
    ensures Contains(text, "Online") ==> loc == "Online"
    ensures !Contains(text, "Online") ==> loc == if m.Some? then m.value else "Unknown"
  {
    if Contains(text, "Online") then "Online"
    else match m
      case Some(place) => place
      case None => "Unknown"
  }

  // ---------------------------------------------------------------- one link

  /** The navigation and footer filters of `_parse_challenge_link`. */
  predicate Rejected(c: Candidate) {
    |c.text| == 0 || |c.text| < 20
    || Contains(c.text, "Browse hackathons") || Contains(c.text, "Host a hackathon")
    || c.href == "" || !Contains(c.href, "ref_content")
    || |NameOf(c)| < 3
  }

  /** `_parse_challenge_link`: `None` for rejected links, otherwise the extracted fields. */
  function ParseChallengeLink(c: Candidate, parse: string -> Option<int>): (r: Option<Listing>)
    ensures r.None? <==> Rejected(c)
    ensures r.Some? ==> |c.text| >= 20 && Contains(c.href, "ref_content") && |r.value.name| >= 3
    ensures r.Some? ==> '?' !in r.value.url && "http" <= r.value.url && |r.value.location| > 0
    ensures r.Some? && r.value.prize.Some? ==> r.value.prize.value > 100.0
    ensures r.Some? ==> r.value.deadline == FirstParsed(DeadlineAttempts(c), parse)
    ensures r.Some? ==> r.value.name == NameOf(c) && r.value.url == CleanUrl(c.href)
    ensures r.Some? ==> r.value.prize == ExtractPrize(c.text, c.prizeMatches)
    ensures r.Some? ==> r.value.location == ExtractLocation(c.text, c.locationMatch)
  {
    if |c.text| == 0 || |c.text| < 20 then None
    else if Contains(c.text, "Browse hackathons") || Contains(c.text, "Host a hackathon") then None
    else if c.href == "" || !Contains(c.href, "ref_content") then None
    else
      var url := CleanUrl(c.href);
      var name := NameOf(c);
      if |name| < 3 then None
      else
        Some(Listing(name, url, ExtractDeadline(c, parse), ExtractPrize(c.text, c.prizeMatches),
                     ExtractLocation(c.text, c.locationMatch)))
  }

  // ---------------------------------------------------------------- one page

  function Url(h: Hackathon): string {
    h.url
  }

  /** The record a link yields: `None` when it is rejected or has no deadline. */
  function RecordOf(c: Candidate, parse: string -> Option<int>): (r: Option<Hackathon>)
    ensures r.Some? <==> ParseChallengeLink(c, parse).Some? && ParseChallengeLink(c, parse).value.deadline.Some?
    ensures r.Some? ==> r.value.name == NameOf(c) && r.value.url == CleanUrl(c.href)
    ensures r.Some? ==> FirstParsed(DeadlineAttempts(c), parse) == Some(r.value.deadline)
    ensures r.Some? ==> r.value.prize == ExtractPrize(c.text, c.prizeMatches)
    ensures r.Some? ==> r.value.location == ExtractLocation(c.text, c.locationMatch) && r.value.tags == []
  {
    match ParseChallengeLink(c, parse)
    case None => None
    case Some(l) =>
      if l.deadline.Some? then Some(Hackathon(l.name, l.url, l.deadline.value, l.prize, l.location, [])) else None
  }

  /** The anchors `find_all` selects: an href mentioning both "devpost.com" and "ref_content". */
  predicate IsChallengeLink(c: Candidate) {
    c.href != "" && Contains(c.href, "devpost.com") && Contains(c.href, "ref_content")
  }

  /** The selected anchors that parse and have a deadline, as records, in document order. */
  function ParsedWithDeadline(anchors: seq<Candidate>, parse: string -> Option<int>): (r: seq<Hackathon>)
    ensures forall i :: 0 <= i < |r| ==>
      exists c :: c in anchors && IsChallengeLink(c) && RecordOf(c, parse) == Some(r[i])
    ensures forall c :: c in anchors && IsChallengeLink(c) && RecordOf(c, parse).Some? ==> RecordOf(c, parse).value in r
  {
    var links := Filter(anchors, IsChallengeLink);
    assert forall c :: c in anchors && IsChallengeLink(c) ==> c in links;
    var r := Collect(links, c => RecordOf(c, parse));
    assert forall j :: 0 <= j < |links| ==> links[j] in anchors && IsChallengeLink(links[j]);
    r
  }

  /** Records appear in document order: the anchors of a split page contribute in turn. */
  lemma ParsedWithDeadlineConcat(a: seq<Candidate>, b: seq<Candidate>, parse: string -> Option<int>)
    ensures ParsedWithDeadline(a + b, parse) == ParsedWithDeadline(a, parse) + ParsedWithDeadline(b, parse)
  {
    FilterConcat(a, b, IsChallengeLink);
    CollectConcat(Filter(a, IsChallengeLink), Filter(b, IsChallengeLink), c => RecordOf(c, parse));
  }

  /** A single anchor yields its record when it is selected and parses with a deadline, and nothing otherwise. */
  lemma ParsedWithDeadlineSingle(c: Candidate, parse: string -> Option<int>)
    ensures ParsedWithDeadline([c], parse)
      == if IsChallengeLink(c) && RecordOf(c, parse).Some? then [RecordOf(c, parse).value] else []
  {
    assert [c][1..] == [];
    assert Filter([c], IsChallengeLink) == if IsChallengeLink(c) then [c] else [];
    CollectSingle(c, (x: Candidate) => RecordOf(x, parse));
  }

  /** `extract_hackathons`: parsed links with a deadline, first occurrence per URL, in document order. */
  function ExtractHackathons(anchors: seq<Candidate>, parse: string -> Option<int>): (r: seq<Hackathon>)
    ensures KeysDistinct(r, Url)
    ensures KeySet(r, Url) == KeySet(ParsedWithDeadline(anchors, parse), Url)
    ensures SubsequenceOf(r, ParsedWithDeadline(anchors, parse))
    ensures forall i :: 0 <= i < |r| ==>
      exists c :: c in anchors && IsChallengeLink(c) && RecordOf(c, parse) == Some(r[i])
  {
    var parsed := ParsedWithDeadline(anchors, parse);
    var r := DedupBy(parsed, Url);
    SubsequenceMembers(r, parsed);
    r
  }

  /** Each extracted record is the first parsed record with its URL: later duplicates are the ones dropped. */
  lemma ExtractKeepsFirst(anchors: seq<Candidate>, parse: string -> Option<int>)
    ensures forall i :: 0 <= i < |ExtractHackathons(anchors, parse)| ==> exists j ::
      FirstOfKey(ParsedWithDeadline(anchors, parse), Url, j) && ExtractHackathons(anchors, parse)[i] == ParsedWithDeadline(anchors, parse)[j]
  {
    assert ExtractHackathons(anchors, parse) == DedupBy(ParsedWithDeadline(anchors, parse), Url);
  }

  // ---------------------------------------------------------------- all pages

  /** What fetching one page produced. */
  datatype Page = FetchFailed | Fetched(anchors: seq<Candidate>)

  /** The records a page yields; a failed fetch yields none. */
  function PageRecords(page: Page, parse: string -> Option<int>): seq<Hackathon> {
    match page
    case FetchFailed => []
    case Fetched(anchors) => ExtractHackathons(anchors, parse)
  }

  /**
   * Records from pages `page`..`maxPages`, stopping at the first page that yields nothing.
   * `records` says what one fetched page yields.
   */
  function Harvest<T>(fetch: int -> Page, records: Page -> seq<T>, page: int, maxPages: int): seq<T>
    decreases if page <= maxPages then maxPages - page + 1 else 0
  {
    if page > maxPages || |records(fetch(page))| == 0 then []
    else records(fetch(page)) + Harvest(fetch, records, page + 1, maxPages)
  }

  /** The paging loop: fetches pages 1, 2, ... up to `maxPages` and stops at the first page that yields nothing. */
  method Paginate<T>(fetch: int -> Page, records: Page -> seq<T>, maxPages: int)
    returns (all: seq<T>, pagesFetched: nat)
    ensures all == Harvest(fetch, records, 1, maxPages)
    ensures pagesFetched <= if maxPages > 0 then maxPages else 0
    ensures maxPages > 0 ==> pagesFetched >= 1
    ensures forall p :: 1 <= p < pagesFetched ==> |records(fetch(p))| > 0
    ensures 1 <= pagesFetched < maxPages ==> |records(fetch(pagesFetched))| == 0
  {
    all := [];
    var page := 1;
    var stopped := false;
    pagesFetched := 0;
    while page <= maxPages && !stopped
      invariant 1 <= page
      invariant page <= if maxPages > 0 then maxPages + 1 else 1
      invariant forall p :: 1 <= p < page ==> |records(fetch(p))| > 0
      invariant !stopped ==> pagesFetched == page - 1
      invariant !stopped ==> all + Harvest(fetch, records, page, maxPages) == Harvest(fetch, records, 1, maxPages)
      invariant stopped ==> pagesFetched == page && page <= maxPages
      invariant stopped ==> |records(fetch(page))| == 0 && all == Harvest(fetch, records, 1, maxPages)
      decreases maxPages - page + 1, if stopped then 0 else 1
    {
      pagesFetched := pagesFetched + 1;
      var hs := records(fetch(page));
      if |hs| == 0 {
        stopped := true;
      } else {
        var later := Harvest(fetch, records, page + 1, maxPages);
        assert (all + hs) + later == all + (hs + later);
        all := all + hs;
        page := page + 1;
      }
    }
    if !stopped {
      assert all + [] == all;
    }
  }

  function DeadlineKey(h: Hackathon): real {
    h.deadline as real
  }

  /** The records whose deadline is strictly after `now`, in order. */
  function Active(all: seq<Hackathon>, now: int): seq<Hackathon> {
    Filter(all, (h: Hackathon) => h.deadline > now)
  }

  /** Future-only filter, keep-first de-duplication by URL, then stable ascending sort by deadline. */
  function Finalize(all: seq<Hackathon>, now: int): (r: seq<Hackathon>)
    ensures SortedBy(r, DeadlineKey)
    ensures multiset(r) == multiset(DedupBy(Active(all, now), Url))
    ensures forall k :: KeyClass(r, DeadlineKey, k) == KeyClass(DedupBy(Active(all, now), Url), DeadlineKey, k)
  {
    SortBy(DedupBy(Active(all, now), Url), DeadlineKey)
  }

  /** Every finalized record is an active input record. */
  lemma FinalizeFromActive(all: seq<Hackathon>, now: int)
    ensures forall x :: x in Finalize(all, now) ==> x in Active(all, now)
  {
    var unique := DedupBy(Active(all, now), Url);
    SubsequenceMembers(unique, Active(all, now));
    forall x | x in Finalize(all, now)
      ensures x in unique
    {
      assert x in multiset(Finalize(all, now));
    }
  }

  /** What `get_active_hackathons` promises: future deadlines only, one record per URL, every future URL kept. */
  lemma FinalizeSelects(all: seq<Hackathon>, now: int)
    ensures forall x :: x in Finalize(all, now) ==> x in all && x.deadline > now
    ensures KeysDistinct(Finalize(all, now), Url)
    ensures KeySet(Finalize(all, now), Url) == KeySet(Active(all, now), Url)
  {
    var unique := DedupBy(Active(all, now), Url);
    FinalizeFromActive(all, now);
    PermutationKeepsDistinct(unique, Finalize(all, now), Url);
    MembersSameKeys(unique, Finalize(all, now));
  }

  /** Two sequences with the same elements have the same URL set. */
  lemma MembersSameKeys(a: seq<Hackathon>, b: seq<Hackathon>)
    requires multiset(a) == multiset(b)
    ensures KeySet(a, Url) == KeySet(b, Url)
  {
    forall k | k in KeySet(a, Url)
      ensures k in KeySet(b, Url)
    {
      var i :| 0 <= i < |a| && Url(a[i]) == k;
      assert a[i] in multiset(b);
      var j :| 0 <= j < |b| && b[j] == a[i];
    }
    forall k | k in KeySet(b, Url)
      ensures k in KeySet(a, Url)
    {
      var i :| 0 <= i < |b| && Url(b[i]) == k;
      assert b[i] in multiset(a);
      var j :| 0 <= j < |a| && a[j] == b[i];
    }
  }

  /**
   * `get_active_hackathons`: pages through the listing until a page fails or yields nothing, then
   * keeps future, distinct-URL records sorted by deadline.
   */
  method GetActiveHackathons(fetch: int -> Page, parse: string -> Option<int>, maxPages: int, now: int)
    returns (active: seq<Hackathon>, pagesFetched: nat)
    ensures active == Finalize(Harvest(fetch, (p: Page) => PageRecords(p, parse), 1, maxPages), now)
    ensures pagesFetched <= if maxPages > 0 then maxPages else 0
  {
    var all;
    all, pagesFetched := Paginate(fetch, (p: Page) => PageRecords(p, parse), maxPages);
    active := Finalize(all, now);
  }
}
