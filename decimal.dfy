/**
  A decimal-string reader standing in for Python's `float(str)` on the
  numeric strings a depth feed carries ("28000.01000000", "0.5", "-3").
  It accepts an optional sign, a run of digits, and optionally a '.'
  followed by another run of digits, with at least one digit in all.
*/
module Decimal {
  import opened Wrappers

  predicate IsDigit(c: char) {
    '0' <= c <= '9'
  }

  /** Every character of `s` is a digit (stated from the last character back, as DigitsValue reads it). */
  predicate AllDigits(s: string) {
    s == [] || (AllDigits(s[..|s| - 1]) && IsDigit(s[|s| - 1]))
  }

  lemma {:induction false} AllDigitsAt(s: string, i: nat)
    requires i < |s|
    ensures AllDigits(s) ==> IsDigit(s[i])
  {
    if i < |s| - 1 {
      AllDigitsAt(s[..|s| - 1], i);
    }
  }

  /** The value of a run of digits, most significant digit first. */
  function DigitsValue(s: string): nat
    requires AllDigits(s)
  {
    if s == [] then 0
    else DigitsValue(s[..|s| - 1]) * 10 + (s[|s| - 1] as int - '0' as int)
  }

  function Pow10(n: nat): (r: nat)
    ensures r >= 1
  {
    if n == 0 then 1 else 10 * Pow10(n - 1)
  }

  /** Position of the first '.' in `s`, or `|s|` when there is none. */
  function DotIndex(s: string): (k: nat)
    ensures k <= |s|
    ensures forall i :: 0 <= i < k ==> s[i] != '.'
    ensures k < |s| ==> s[k] == '.'
  {
    if s == [] || s[0] == '.' then 0 else 1 + DotIndex(s[1..])
  }

  /** The number written `whole.frac`. */
  function PointValue(whole: string, frac: string): (v: real)
    requires AllDigits(whole) && AllDigits(frac)
    ensures v >= DigitsValue(whole) as real
  {
    DigitsValue(whole) as real + DigitsValue(frac) as real / Pow10(|frac|) as real
  }

  /** Digits, optionally '.' and more digits; at least one digit overall. */
  function ParseUnsigned(s: string): (r: Option<real>)
    ensures r.Some? ==> r.value >= 0.0
  {
    var k := DotIndex(s);
    var whole := s[..k];
    var frac := if k < |s| then s[k + 1..] else "";
    if AllDigits(whole) && AllDigits(frac) && |whole| + |frac| > 0 then
      Some(PointValue(whole, frac))
    else
      None
  }

  /** `float(s)` on the strings modelled here; `None` is the ValueError. */
  function ParseDecimal(s: string): Option<real>
  {
    if |s| > 0 && s[0] == '-' then
      match ParseUnsigned(s[1..])
      case Some(v) => Some(-v)
      case None => None
    else if |s| > 0 && s[0] == '+' then
      ParseUnsigned(s[1..])
    else
      ParseUnsigned(s)
  }

  /** Canonical decimal rendering of a natural number. */
  function NatString(n: nat): (s: string)
    ensures |s| > 0 && AllDigits(s)
  {
    if n < 10 then
      var s := [('0' as int + n) as char];
      assert s[..0] == [] && AllDigits([]);
      s
    else
      var s := NatString(n / 10) + [('0' as int + n % 10) as char];
      assert s[..|s| - 1] == NatString(n / 10);
      s
  }

  lemma {:induction false} NatStringValue(n: nat)
    ensures DigitsValue(NatString(n)) == n
  {
    if n >= 10 {
      var s := NatString(n);
      assert s[..|s| - 1] == NatString(n / 10);
      NatStringValue(n / 10);
    }
  }

  lemma DotIndexNone(s: string)
    requires forall i :: 0 <= i < |s| ==> s[i] != '.'
    ensures DotIndex(s) == |s|
  {
  }

  /** A run of digits with no point reads as its value. */
  lemma UnsignedDigits(s: string)
    requires AllDigits(s) && |s| > 0
    ensures ParseUnsigned(s) == Some(DigitsValue(s) as real)
  {
    forall i | 0 <= i < |s|
      ensures s[i] != '.'
    {
      AllDigitsAt(s, i);
    }
    DotIndexNone(s);
    assert s[..|s|] == s;
    assert PointValue(s, "") == DigitsValue(s) as real;
  }

  /** Reading back the rendering of a natural number gives that number, with either sign. */
  lemma ParseNatString(n: nat)
    ensures ParseDecimal(NatString(n)) == Some(n as real)
    ensures ParseDecimal("-" + NatString(n)) == Some(-(n as real))
  {
    var s := NatString(n);
    NatStringValue(n);
    UnsignedDigits(s);
    AllDigitsAt(s, 0);
    assert ("-" + s)[1..] == s;
  }

  lemma UnsignedRejectsForeign(t: string, j: nat)
    requires j < |t| && !IsDigit(t[j]) && t[j] != '.'
    ensures ParseUnsigned(t) == None
  {
    var k := DotIndex(t);
    if j < k {
      assert t[..k][j] == t[j];
      AllDigitsAt(t[..k], j);
    } else if j > k {
      assert t[k + 1..][j - k - 1] == t[j];
      AllDigitsAt(t[k + 1..], j - k - 1);
    }
  }

  /** A string holding a character that is neither a digit, a sign nor '.' is rejected. */
  lemma ParseRejectsForeign(s: string, i: nat)
    requires i < |s| && !IsDigit(s[i]) && s[i] != '.' && s[i] != '-' && s[i] != '+'
    ensures ParseDecimal(s) == None
  {
    if s[0] == '-' || s[0] == '+' {
      assert s[1..][i - 1] == s[i];
      UnsignedRejectsForeign(s[1..], i - 1);
    } else {
      UnsignedRejectsForeign(s, i);
    }
  }

  /** The empty string and a lone '.' are not numbers. */
  lemma ParseRejectsDigitless()
    ensures ParseDecimal("") == None
    ensures ParseDecimal(".") == None
    ensures ParseDecimal("-") == None
  {
    assert DotIndex(".") == 0;
    assert "-"[1..] == "";
  }

  lemma DotIndexPointed(whole: string, frac: string)
    requires AllDigits(whole)
    ensures DotIndex(whole + "." + frac) == |whole|
  {
    var s := whole + "." + frac;
    forall i | 0 <= i < |whole|
      ensures s[i] != '.'
    {
      AllDigitsAt(whole, i);
    }
    assert s[|whole|] == '.';
  }

  lemma UnsignedPointed(whole: string, frac: string)
    requires AllDigits(whole) && AllDigits(frac) && |whole| + |frac| > 0
    ensures ParseUnsigned(whole + "." + frac) ==
      Some(PointValue(whole, frac))
  {
    var s := whole + "." + frac;
    DotIndexPointed(whole, frac);
    var k := DotIndex(s);
    assert k < |s|;
    assert s[..k] == whole;
    assert s[k + 1..] == frac;
  }

  /** A run of digits, a point and a run of digits reads as whole part plus fraction. */
  lemma ParsePointed(whole: string, frac: string)
    requires AllDigits(whole) && AllDigits(frac) && |whole| + |frac| > 0
    ensures ParseDecimal(whole + "." + frac) ==
      Some(PointValue(whole, frac))
  {
    var s := whole + "." + frac;
    UnsignedPointed(whole, frac);
    if |whole| > 0 {
      AllDigitsAt(whole, 0);
      assert s[0] == whole[0];
    }
  }

  /** The same with a leading sign: '-' negates the value and '+' keeps it. */
  lemma ParseSignedPointed(whole: string, frac: string)
    requires AllDigits(whole) && AllDigits(frac) && |whole| + |frac| > 0
    ensures ParseDecimal("-" + whole + "." + frac) == Some(-PointValue(whole, frac))
    ensures ParseDecimal("+" + whole + "." + frac) == Some(PointValue(whole, frac))
  {
    var s := whole + "." + frac;
    UnsignedPointed(whole, frac);
    SignedParse('-', s);
    SignedParse('+', s);
    SignedText('-', whole, frac);
    SignedText('+', whole, frac);
  }

  lemma SignedText(c: char, whole: string, frac: string)
    ensures [c] + whole + "." + frac == [c] + (whole + "." + frac)
  {
  }

  /** A leading sign is read off before the unsigned part. */
  lemma SignedParse(c: char, s: string)
    requires c == '-' || c == '+'
    ensures c == '+' ==> ParseDecimal([c] + s) == ParseUnsigned(s)
    ensures c == '-' ==> ParseDecimal([c] + s) == (if ParseUnsigned(s).Some? then Some(-ParseUnsigned(s).value) else None)
  {
    assert ([c] + s)[1..] == s;
  }
}
