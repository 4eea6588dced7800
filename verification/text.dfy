/** Character and string helpers mirroring the few Python `str` operations the program relies on. */
module Text {
  import opened Wrappers

  /** Python's `str.isspace` restricted to the ASCII and Latin-1 whitespace characters. */
  predicate IsSpace(c: char) {
    c == ' ' || ('\t' <= c <= '\r') || ('\U{1C}' <= c <= '\U{1F}') || c == '\U{85}' || c == '\U{A0}'
  }

  predicate IsDigit(c: char) {
    '0' <= c <= '9'
  }

  predicate AllDigits(s: string) {
    forall i :: 0 <= i < |s| ==> IsDigit(s[i])
  }

  /** Python's `t in s` for strings: `t` occurs somewhere in `s` as a contiguous run. */
  predicate Contains(s: string, t: string)
    decreases |s|
  {
    t <= s || (|s| > 0 && Contains(s[1..], t))
  }

  /** `t` occurs in `s` starting at index `i`. */
  predicate OccursAt(s: string, t: string, i: int) {
    0 <= i <= |s| - |t| && s[i..i + |t|] == t
  }

  /** `Contains` agrees with the positional definition of a substring occurrence. */
  lemma {:induction false} ContainsIffOccurrence(s: string, t: string)
    ensures Contains(s, t) <==> exists i :: OccursAt(s, t, i)
    decreases |s|
  {
    if t <= s {
      assert OccursAt(s, t, 0);
    } else if |s| == 0 {
    } else {
      ContainsIffOccurrence(s[1..], t);
      if Contains(s[1..], t) {
        var i :| OccursAt(s[1..], t, i);
        assert s[i + 1..i + 1 + |t|] == s[1..][i..i + |t|];
        assert OccursAt(s, t, i + 1);
      } else {
        assert !OccursAt(s, t, 0);
        forall i | 1 <= i && OccursAt(s, t, i)
          ensures OccursAt(s[1..], t, i - 1)
        {
          assert s[i..i + |t|] == s[1..][i - 1..i - 1 + |t|];
        }
      }
    }
  }

  /** An occurrence at a known index is an occurrence. */
  lemma {:induction false} OccursAtContains(s: string, t: string, i: int)
    requires OccursAt(s, t, i)
    ensures Contains(s, t)
    decreases i
  {
    if i > 0 {
      assert forall k :: i <= k < i + |t| ==> s[1..][k - 1] == s[k];
      assert s[1..][i - 1..i - 1 + |t|] == s[i..i + |t|];
      OccursAtContains(s[1..], t, i - 1);
    }
  }

  /** ASCII lower-casing. */
  function LowerChar(c: char): char {
    if 'A' <= c <= 'Z' then (c as int + 32) as char else c
  }

  /** Python's `str.lower` on the ASCII letters; every other character is left alone. */
  function Lower(s: string): (r: string)
    ensures |r| == |s|
    ensures forall i :: 0 <= i < |s| ==> r[i] == LowerChar(s[i])
  {
    if |s| == 0 then [] else [LowerChar(s[0])] + Lower(s[1..])
  }

  /** Removes leading whitespace. */
  function TrimStart(s: string): (r: string)
    ensures |r| <= |s| && r == s[|s| - |r|..]
    ensures forall i :: 0 <= i < |s| - |r| ==> IsSpace(s[i])
    ensures |r| > 0 ==> !IsSpace(r[0])
  {
    if |s| > 0 && IsSpace(s[0]) then TrimStart(s[1..]) else s
  }

  /** Removes trailing whitespace. */
  function TrimEnd(s: string): (r: string)
    ensures |r| <= |s| && r == s[..|r|]
    ensures forall i :: |r| <= i < |s| ==> IsSpace(s[i])
    ensures |r| > 0 ==> !IsSpace(r[|r| - 1])
  {
    if |s| > 0 && IsSpace(s[|s| - 1]) then TrimEnd(s[..|s| - 1]) else s
  }

  /** Python's `str.strip()`: the contiguous middle of `s` left once whitespace is removed from both ends. */
  function Strip(s: string): (r: string)
    ensures Contains(s, r)
    ensures |r| > 0 ==> !IsSpace(r[0]) && !IsSpace(r[|r| - 1])
    ensures exists k :: StrippedAt(s, r, k)
  {
    var t := TrimStart(s);
    var r := TrimEnd(t);
    StripFacts(s, t, r);
    OccursAtContains(s, r, |s| - |t|);
    r
  }

  /** A whitespace-only prefix cut from `s`, then a whitespace-only suffix cut from the rest, leaves `r` at `|s| - |t|`. */
  lemma StripFacts(s: string, t: string, r: string)
    requires |t| <= |s| && t == s[|s| - |t|..] && forall i :: 0 <= i < |s| - |t| ==> IsSpace(s[i])
    requires |r| <= |t| && r == t[..|r|] && forall i :: |r| <= i < |t| ==> IsSpace(t[i])
    ensures StrippedAt(s, r, |s| - |t|)
  {
    var k := |s| - |t|;
    assert t == s[k..];
    assert r == t[..|r|];
    assert s[k..k + |r|] == r by {
      forall m | 0 <= m < |r|
        ensures s[k + m] == r[m]
      {
        assert r[m] == t[m];
      }
    }
    assert OccursAt(s, r, k);
    forall i | k + |r| <= i < |s|
      ensures IsSpace(s[i])
    {
      assert s[i] == t[i - k];
    }
  }

  /** `r` occurs in `s` at index `k`, and everything of `s` before and after that occurrence is whitespace. */
  predicate StrippedAt(s: string, r: string, k: int) {
    OccursAt(s, r, k)
    && (forall i :: 0 <= i < k ==> IsSpace(s[i]))
    && (forall i :: k + |r| <= i < |s| ==> IsSpace(s[i]))
  }

  /** Occurrence is transitive: a substring of a substring is a substring. */
  lemma ContainsTransitive(a: string, b: string, t: string)
    requires Contains(a, b) && Contains(b, t)
    ensures Contains(a, t)
  {
    ContainsIffOccurrence(a, b);
    ContainsIffOccurrence(b, t);
    var i :| OccursAt(a, b, i);
    var j :| OccursAt(b, t, j);
    forall k | 0 <= k < |t|
      ensures a[i + j + k] == t[k]
    {
      assert t[k] == b[j + k];
      assert b[j + k] == a[i..i + |b|][j + k];
    }
    assert a[i + j..i + j + |t|] == t;
    OccursAtContains(a, t, i + j);
  }

  /** Every character of a substring occurs in the string. */
  lemma ContainsMembers(s: string, t: string)
    requires Contains(s, t)
    ensures forall c :: c in t ==> c in s
  {
    ContainsIffOccurrence(s, t);
    var i :| OccursAt(s, t, i);
    forall c | c in t
      ensures c in s
    {
      var k :| 0 <= k < |t| && t[k] == c;
      assert s[i + k] == c;
    }
  }

  /** A string that neither begins nor ends with whitespace is its own strip. */
  lemma StripUnpadded(s: string)
    requires |s| > 0 && !IsSpace(s[0]) && !IsSpace(s[|s| - 1])
    ensures Strip(s) == s
  {
  }

  function DigitChar(d: nat): char
    requires d < 10
  {
    "0123456789"[d]
  }

  function DigitValue(c: char): nat
    requires IsDigit(c)
  {
    c as int - '0' as int
  }

  /** The number a string of decimal digits denotes (the empty string denotes 0). */
  function DigitsValue(s: string): nat
    requires AllDigits(s)
  {
    if |s| == 0 then 0 else DigitsValue(s[..|s| - 1]) * 10 + DigitValue(s[|s| - 1])
  }

  /** Decimal rendering of a natural number, as Python's `str(n)` / `f"{n}"`. */
  function NatToString(n: nat): (r: string)
    ensures |r| > 0 && AllDigits(r)
    ensures |r| > 1 ==> r[0] != '0'
  {
    if n < 10 then [DigitChar(n)] else NatToString(n / 10) + [DigitChar(n % 10)]
  }

  /** Reading the rendered digits back yields the number: the rendering loses nothing. */
  lemma {:induction false} NatToStringRoundTrip(n: nat)
    ensures DigitsValue(NatToString(n)) == n
  {
    if n >= 10 {
      var s := NatToString(n);
      NatToStringRoundTrip(n / 10);
      assert s[..|s| - 1] == NatToString(n / 10);
    }
  }

  /** Decimal rendering of an integer, with a leading `-` for negatives. */
  function IntToString(i: int): (r: string)
    ensures |r| > 0 && IsDigit(r[|r| - 1])
    ensures i < 0 <==> r[0] == '-'
  {
    if i < 0 then "-" + NatToString(-i) else NatToString(i)
  }

  /** A numeral as `str` writes an integer: an optional '-', then digits without a leading zero, and never "-0". */
  predicate Canonical(t: string) {
    |t| > 0
    && var digits := if t[0] == '-' then t[1..] else t;
    |digits| > 0 && AllDigits(digits) && (|digits| > 1 || t[0] == '-' ==> digits[0] != '0')
  }

  /** The rendering of a positive number does not start with '0'. */
  lemma {:induction false} NatToStringLeading(n: nat)
    requires n > 0
    ensures NatToString(n)[0] != '0'
  {
    if n >= 10 {
      NatToStringLeading(n / 10);
    }
  }

  /** Every integer is rendered as a canonical numeral. */
  lemma IntToStringCanonical(i: int)
    ensures Canonical(IntToString(i))
  {
    if i < 0 {
      var digits := NatToString(-i);
      NatToStringLeading(-i);
      assert IntToString(i)[1..] == digits;
    } else if i > 0 {
      NatToStringLeading(i);
    }
  }

  /** Python's `int(text)` for decimal text: surrounding whitespace, an optional sign, then at least one digit. */
  function ParseInt(text: string): (r: Option<int>)
    ensures r.Some? ==> |Strip(text)| > 0 && IsDigit(Strip(text)[|Strip(text)| - 1])
    ensures r.Some? && r.value < 0 ==> Strip(text)[0] == '-'
  {
    var t := Strip(text);
    if |t| > 0 && (t[0] == '-' || t[0] == '+') then
      var digits := t[1..];
      if |digits| > 0 && AllDigits(digits) then
        Some(if t[0] == '-' then -(DigitsValue(digits) as int) else DigitsValue(digits))
      else None
    else if |t| > 0 && AllDigits(t) then Some(DigitsValue(t))
    else None
  }

  /** Rendering an integer and parsing it back returns the integer. */
  lemma IntToStringRoundTrip(i: int)
    ensures ParseInt(IntToString(i)) == Some(i)
  {
    var s := IntToString(i);
    StripUnpadded(s);
    if i < 0 {
      NegativeRoundTrip(i);
    } else {
      NatToStringRoundTrip(i);
      ParseDigits(s);
    }
  }

  lemma ParseDigits(s: string)
    requires |s| > 0 && AllDigits(s)
    ensures ParseInt(s) == Some(DigitsValue(s))
  {
    StripUnpadded(s);
    assert IsDigit(s[0]);
  }

  lemma NegativeRoundTrip(i: int)
    requires i < 0
    ensures ParseInt(IntToString(i)) == Some(i)
  {
    NegativeRendering(i);
    ParseNegative(IntToString(i));
  }

  /** A negative number renders as a minus sign and the digits of its magnitude, with nothing to strip. */
  lemma NegativeRendering(i: int)
    requires i < 0
    ensures var s := IntToString(i);
      |s| > 1 && s[0] == '-' && AllDigits(s[1..]) && DigitsValue(s[1..]) == -i && Strip(s) == s
  {
    var n: nat := -i;
    var digits := NatToString(n);
    var s := "-" + digits;
    assert IntToString(i) == s;
    assert s[1..] == digits;
    assert Strip(s) == s by {
      StripUnpadded(s);
    }
    assert DigitsValue(digits) == n by {
      NatToStringRoundTrip(n);
    }
  }

  /** A minus sign followed by digits, with nothing around it to strip, parses as the negated digits. */
  lemma ParseNegative(s: string)
    requires |s| > 1 && s[0] == '-' && AllDigits(s[1..]) && Strip(s) == s
    ensures ParseInt(s) == Some(-(DigitsValue(s[1..]) as int))
  {
  }
}
