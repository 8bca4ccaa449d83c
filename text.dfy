/** The string handling the controller relies on when it writes a distance
    into a style annotation and reads it back: how a template literal prints
    an integer Number, `String.prototype.trim`, `String.prototype.replace`
    with a string pattern, and `parseFloat` followed by `Number.isFinite`. */
module Text {
  import opened Wrappers

  predicate IsDigit(c: char) {
    '0' <= c <= '9'
  }

  predicate AllDigits(s: string) {
    forall i :: 0 <= i < |s| ==> IsDigit(s[i])
  }

  function DigitChar(d: nat): (c: char)
    requires d < 10
    ensures IsDigit(c)
  {
    ('0' as int + d) as char
  }

  function DigitValue(c: char): (d: nat)
    requires IsDigit(c)
    ensures d < 10 && DigitChar(d) == c
  {
    c as int - '0' as int
  }

  /** The decimal digits of `n`, most significant first, without leading
      zeros ("0" for zero). */
  function Digits(n: nat): (s: string)
    ensures |s| > 0 && AllDigits(s)
    ensures |s| > 1 ==> s[0] != '0'
    decreases n
  {
    if n < 10 then [DigitChar(n)] else Digits(n / 10) + [DigitChar(n % 10)]
  }

  /** How a JavaScript template literal prints an integer-valued Number. */
  function IntToString(i: int): (s: string)
    ensures forall k :: 0 <= k < |s| ==> IsDigit(s[k]) || s[k] == '-'
    ensures |s| > 0 && (s[0] == '-' <==> i < 0)
  {
    if i < 0 then "-" + Digits(-i) else Digits(i)
  }

  /** The number an all-digit string denotes. */
  function DigitsValue(s: string): nat
    requires AllDigits(s)
    decreases |s|
  {
    if s == [] then 0 else DigitsValue(s[..|s| - 1]) * 10 + DigitValue(s[|s| - 1])
  }

  lemma {:induction false} DigitsValueOfDigits(n: nat)
    ensures DigitsValue(Digits(n)) == n
    decreases n
  {
    if n >= 10 {
      var s := Digits(n);
      assert s[..|s| - 1] == Digits(n / 10);
      DigitsValueOfDigits(n / 10);
    }
  }

  /** The length of the longest all-digit prefix of `s`. */
  function DigitRun(s: string): (k: nat)
    ensures k <= |s| && AllDigits(s[..k])
    ensures k < |s| ==> !IsDigit(s[k])
    decreases |s|
  {
    if s != [] && IsDigit(s[0]) then 1 + DigitRun(s[1..]) else 0
  }

  /** The characters `trim` and `parseFloat` treat as white space (the
      ASCII ones and the common Unicode ones). */
  predicate IsSpace(c: char) {
    c == ' ' || c == '\t' || c == '\n' || c == '\r' || c == '\U{B}' || c == '\U{C}'
    || c == '\U{A0}' || c == '\U{FEFF}' || c == '\U{2028}' || c == '\U{2029}'
  }

  function TrimStart(s: string): (r: string)
    ensures r == [] || !IsSpace(r[0])
    ensures |r| <= |s| && r == s[|s| - |r|..]
    ensures forall k :: 0 <= k < |s| - |r| ==> IsSpace(s[k])
    decreases |s|
  {
    if s != [] && IsSpace(s[0]) then TrimStart(s[1..]) else s
  }

  function TrimEnd(s: string): (r: string)
    ensures r == [] || !IsSpace(r[|r| - 1])
    ensures |r| <= |s| && r == s[..|r|]
    ensures forall k :: |r| <= k < |s| ==> IsSpace(s[k])
    decreases |s|
  {
    if s != [] && IsSpace(s[|s| - 1]) then TrimEnd(s[..|s| - 1]) else s
  }

  /** `s.trim()`. */
  function Trim(s: string): (r: string)
    ensures r == [] || (!IsSpace(r[0]) && !IsSpace(r[|r| - 1]))
    ensures var i := |s| - |TrimStart(s)|;
      && i + |r| <= |s| && r == s[i..i + |r|]
      && (forall k :: 0 <= k < i ==> IsSpace(s[k]))
      && (forall k :: i + |r| <= k < |s| ==> IsSpace(s[k]))
  {
    TrimEnd(TrimStart(s))
  }

  /** `s.replace(pat, rep)` with a string pattern: only the first occurrence
      of `pat` is replaced. */
  function ReplaceFirst(s: string, pat: string, rep: string): (r: string)
    ensures |r| == |s| || |r| == |s| - |pat| + |rep|  // at most one replacement
    decreases |s|
  {
    if |s| < |pat| then s
    else if s[..|pat|] == pat then rep + s[|pat|..]
    else [s[0]] + ReplaceFirst(s[1..], pat, rep)
  }

  /** Text in which `pat` does not occur comes back unchanged. */
  lemma {:induction false} ReplaceAbsent(s: string, pat: string, rep: string)
    requires NoMatchBefore(s, pat, |s| + 1)
    ensures ReplaceFirst(s, pat, rep) == s
    decreases |s|
  {
    if |s| >= |pat| {
      assert s[..|pat|] != pat by {
        assert !MatchAt(s, pat, 0);
        assert s[..|pat|] == s[0..0 + |pat|];
      }
      NoMatchTail(s, pat, |s|);
      ReplaceAbsent(s[1..], pat, rep);
      assert [s[0]] + s[1..] == s;
    }
  }

  /** `pat` occurs in `s` at position `k`. */
  predicate MatchAt(s: string, pat: string, k: int) {
    0 <= k && k + |pat| <= |s| && s[k..k + |pat|] == pat
  }

  /** `pat` occurs in `s` at no position before `i`. */
  predicate NoMatchBefore(s: string, pat: string, i: int) {
    forall k :: 0 <= k < i ==> !MatchAt(s, pat, k)
  }

  lemma MatchShift(s: string, pat: string, k: nat)
    requires |s| > 0
    ensures MatchAt(s[1..], pat, k) <==> MatchAt(s, pat, k + 1)
  {
    if k + 1 + |pat| <= |s| {
      assert s[1..][k..k + |pat|] == s[k + 1..k + 1 + |pat|];
    }
  }

  lemma NoMatchTail(s: string, pat: string, i: int)
    requires |s| > 0
    ensures NoMatchBefore(s, pat, i + 1) ==> NoMatchBefore(s[1..], pat, i)
  {
    if NoMatchBefore(s, pat, i + 1) {
      forall k | 0 <= k < i
        ensures !MatchAt(s[1..], pat, k)
      {
        MatchShift(s, pat, k);
      }
    }
  }

  /** `replace` rewrites exactly the first occurrence of `pat`: when it
      starts at `i`, the text before and after it is kept. */
  lemma {:induction false} ReplaceAt(s: string, pat: string, rep: string, i: nat)
    requires MatchAt(s, pat, i) && NoMatchBefore(s, pat, i)
    ensures ReplaceFirst(s, pat, rep) == s[..i] + rep + s[i + |pat|..]
    decreases i
  {
    if i == 0 {
      assert s[..|pat|] == s[0..0 + |pat|];
    } else {
      var t := s[1..];
      ReplaceSkip(s, pat, rep);
      MatchShift(s, pat, i - 1);
      NoMatchTail(s, pat, i - 1);
      ReplaceAt(t, pat, rep, i - 1);
      SplitAround(s, i, |pat|, rep);
    }
  }

  /** Where `pat` does not start at 0, `replace` keeps the first character
      and works on the rest. */
  lemma ReplaceSkip(s: string, pat: string, rep: string)
    requires |s| > 0 && !MatchAt(s, pat, 0)
    ensures ReplaceFirst(s, pat, rep) == [s[0]] + ReplaceFirst(s[1..], pat, rep)
  {
    if |s| >= |pat| {
      assert s[..|pat|] == s[0..0 + |pat|];
    }
  }

  lemma SplitAround(s: string, i: nat, n: nat, rep: string)
    requires 0 < i && i + n <= |s|
    ensures [s[0]] + (s[1..][..i - 1] + rep + s[1..][i - 1 + n..]) == s[..i] + rep + s[i + n..]
  {
    assert [s[0]] + s[1..][..i - 1] == s[..i];
    assert s[1..][i - 1 + n..] == s[i + n..];
  }

  /** `parseFloat(s)` followed by `Number.isFinite`: `Some(n)` for a finite
      result `n`, `None` for NaN or an infinity.  Leading white space is
      skipped, an optional sign is read, and the longest run of digits after
      it gives the value; whatever follows is ignored.  Only the integer
      forms the controller itself writes are modelled: a fraction or an
      exponent after the digits is ignored here. */
  function ParseFinite(s: string): (r: Option<int>)
    ensures var t := TrimStart(s);
      var u := if t != [] && (t[0] == '-' || t[0] == '+') then t[1..] else t;
      r.Some? <==> u != [] && IsDigit(u[0])
    ensures r.Some? && TrimStart(s)[0] == '-' ==> r.value <= 0
    ensures r.Some? && TrimStart(s)[0] != '-' ==> r.value >= 0
  {
    var t := TrimStart(s);
    if t != [] && t[0] == '-' then
      match ParseUnsigned(t[1..])
      case Some(v) => Some(-v)
      case None => None
    else if t != [] && t[0] == '+' then ParseUnsigned(t[1..])
    else ParseUnsigned(t)
  }

  /** The value of the leading digits of `s`, if there are any. */
  function ParseUnsigned(s: string): (r: Option<int>)
    ensures r.Some? <==> s != [] && IsDigit(s[0])
    ensures r.Some? ==> r.value >= 0
  {
    var k := DigitRun(s);
    if k == 0 then None else Some(DigitsValue(s[..k]))
  }

  lemma {:induction false} DigitRunOfDigits(s: string, rest: string)
    requires AllDigits(s)
    requires rest == [] || !IsDigit(rest[0])
    ensures DigitRun(s + rest) == |s|
    decreases |s|
  {
    if s != [] {
      assert (s + rest)[0] == s[0];
      assert (s + rest)[1..] == s[1..] + rest;
      DigitRunOfDigits(s[1..], rest);
    }
  }

  /** Printing an integer and parsing it back gives the integer, whatever
      non-digit text follows it. */
  lemma ParseIntToString(i: int, rest: string)
    requires rest == [] || !IsDigit(rest[0])
    ensures ParseFinite(IntToString(i) + rest) == Some(i)
  {
    if i < 0 {
      ParsePrintedNegative(i, rest);
    } else {
      ParseNonNegative(i, rest);
    }
  }

  lemma ParsePrintedNegative(i: int, rest: string)
    requires i < 0
    requires rest == [] || !IsDigit(rest[0])
    ensures ParseFinite(IntToString(i) + rest) == Some(i)
  {
    var d := Digits(-i);
    assert IntToString(i) == ['-'] + d;
    ParseNegative(-i, rest, IntToString(i) + rest);
  }

  /** A minus sign followed by the digits of `n` reads as `-n` (also for
      `n == 0`). */
  lemma ParseNegative(n: nat, rest: string, s: string)
    requires rest == [] || !IsDigit(rest[0])
    requires s == ['-'] + (Digits(n) + rest)
    ensures ParseFinite(s) == Some(-(n as int))
  {
    UnsignedDigits(n, rest);
    ParseAfterMinus(Digits(n) + rest, n);
  }

  lemma ParseNonNegative(n: nat, rest: string)
    requires rest == [] || !IsDigit(rest[0])
    ensures ParseFinite(Digits(n) + rest) == Some(n as int)
  {
    var s := Digits(n) + rest;
    assert s[0] == Digits(n)[0];
    UnsignedDigits(n, rest);
    ParseFromDigit(s);
  }

  lemma UnsignedDigits(n: nat, rest: string)
    requires rest == [] || !IsDigit(rest[0])
    ensures ParseUnsigned(Digits(n) + rest) == Some(n as int)
  {
    UnsignedOfDigits(Digits(n), rest);
    DigitsValueOfDigits(n);
  }

  /** A string that starts with a digit is read without sign. */
  lemma ParseFromDigit(s: string)
    requires s != [] && IsDigit(s[0])
    ensures ParseFinite(s) == ParseUnsigned(s)
  {
    TrimStartNoSpace(s);
    ParseTrimmedDigit(s);
  }

  lemma ParseTrimmedDigit(s: string)
    requires s != [] && IsDigit(s[0]) && TrimStart(s) == s
    ensures ParseFinite(s) == ParseUnsigned(s)
  {
  }

  /** Text that does not start with white space is left alone by
      `TrimStart`. */
  lemma TrimStartNoSpace(s: string)
    requires s == [] || !IsSpace(s[0])
    ensures TrimStart(s) == s
  {
  }

  /** A minus sign reads as the negation of the number after it. */
  lemma ParseAfterMinus(t: string, v: int)
    requires ParseUnsigned(t) == Some(v)
    ensures ParseFinite(['-'] + t) == Some(-v)
  {
    var s := ['-'] + t;
    assert s[1..] == t;
    ParseLeadingMinus(s);
  }

  /** A minus sign with no digit after it reads as no number. */
  lemma ParseMinusNoDigits(t: string)
    requires ParseUnsigned(t) == None
    ensures ParseFinite(['-'] + t) == None
  {
    var s := ['-'] + t;
    assert s[1..] == t;
    ParseLeadingMinus(s);
  }

  /** Text that starts with a minus sign needs no trimming. */
  lemma ParseLeadingMinus(s: string)
    requires s != [] && s[0] == '-'
    ensures ParseUnsigned(s[1..]).Some? ==> ParseFinite(s) == Some(-ParseUnsigned(s[1..]).value)
    ensures ParseUnsigned(s[1..]).None? ==> ParseFinite(s) == None
  {
    assert TrimStart(s) == s;
  }

  /** The leading digits of `d + rest` are exactly `d`. */
  lemma UnsignedOfDigits(d: string, rest: string)
    requires |d| > 0 && AllDigits(d)
    requires rest == [] || !IsDigit(rest[0])
    ensures ParseUnsigned(d + rest) == Some(DigitsValue(d) as int)
  {
    DigitRunOfDigits(d, rest);
    assert (d + rest)[..|d|] == d;
  }

  /** A minus sign in front of a printed negative integer ("--5") is no
      number at all. */
  lemma ParseDoubleMinus(i: int, rest: string)
    requires i < 0
    ensures ParseFinite("-" + IntToString(i) + rest) == None
  {
    var t := IntToString(i) + rest;
    assert "-" + IntToString(i) + rest == ['-'] + t;
    assert t[0] == '-';
    ParseMinusNoDigits(t);
  }

  /** Removing the first "px" from a string that ends in "px" and has no
      other "p" leaves what came before it. */
  lemma {:induction false} ReplacePxSuffix(x: string)
    requires forall k :: 0 <= k < |x| ==> x[k] != 'p'
    ensures ReplaceFirst(x + "px", "px", "") == x
    decreases |x|
  {
    var s := x + "px";
    if x == [] {
      assert s[..2] == "px";
    } else {
      assert s[..2][0] == x[0];
      assert s[1..] == x[1..] + "px";
      ReplacePxSuffix(x[1..]);
      assert [x[0]] + x[1..] == x;
    }
  }
}
