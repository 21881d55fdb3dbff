// Decimal digit strings: what `Number(...)` / `parseInt(...)` read from a run
// of ASCII digits, and what a template literal `${n}` writes for a count.

module Text {

  predicate IsDigit(c: char) { '0' <= c <= '9' }

  predicate AllDigits(s: string) { forall i :: 0 <= i < |s| ==> IsDigit(s[i]) }

  function DigitValue(c: char): (d: nat)
    requires IsDigit(c)
    ensures d < 10
  {
    (c as int) - ('0' as int)
  }

  function DigitChar(d: nat): (c: char)
    requires d < 10
    ensures IsDigit(c) && DigitValue(c) == d
  {
    ((('0' as int) + d) as char)
  }

  lemma DigitCharOfValue(c: char)
    requires IsDigit(c)
    ensures DigitChar(DigitValue(c)) == c
  {
  }

  function Pow10(n: nat): (p: nat)
    ensures p >= 1
  {
    if n == 0 then 1 else 10 * Pow10(n - 1)
  }

  /** The value of a string of decimal digits, most significant first (leading zeros allowed). */
  function DecimalValue(s: string): (v: nat)
    requires AllDigits(s)
    ensures v < Pow10(|s|)
    decreases |s|
  {
    if s == [] then 0 else DecimalValue(s[..|s| - 1]) * 10 + DigitValue(s[|s| - 1])
  }

  lemma DecimalValueSnoc(s: string, c: char)
    requires AllDigits(s) && IsDigit(c)
    ensures AllDigits(s + [c]) && DecimalValue(s + [c]) == DecimalValue(s) * 10 + DigitValue(c)
  {
    assert (s + [c])[..|s|] == s;
  }

  /** The shortest decimal spelling of `n`, as JavaScript's Number-to-String gives it for an integer count. */
  function NatToString(n: nat): (r: string)
    ensures AllDigits(r) && 1 <= |r|
    ensures DecimalValue(r) == n
    ensures |r| > 1 ==> r[0] != '0'
    decreases n
  {
    if n < 10 then [DigitChar(n)]
    else
      var prefix := NatToString(n / 10);
      DecimalValueSnoc(prefix, DigitChar(n % 10));
      prefix + [DigitChar(n % 10)]
  }

  /** Two decimal spellings without leading zeros that read back to the same value are the same. */
  lemma {:induction false} NatToStringUnique(s: string)
    requires AllDigits(s) && 1 <= |s| && (|s| > 1 ==> s[0] != '0')
    ensures NatToString(DecimalValue(s)) == s
    decreases |s|
  {
    if |s| == 1 {
      assert s == [s[0]];
    } else {
      var prefix := s[..|s| - 1];
      assert AllDigits(prefix);
      assert prefix[0] == s[0];
      NatToStringUnique(prefix);
      var v := DecimalValue(s);
      assert v / 10 == DecimalValue(prefix) && v % 10 == DigitValue(s[|s| - 1]);
      LeadingDigitBound(prefix);
      assert v >= 10;
      assert s == prefix + [s[|s| - 1]];
    }
  }

  lemma {:induction false} LeadingDigitBound(s: string)
    requires AllDigits(s) && 1 <= |s| && s[0] != '0'
    ensures DecimalValue(s) >= 1
    decreases |s|
  {
    if |s| > 1 {
      var prefix := s[..|s| - 1];
      assert prefix[0] == s[0];
      LeadingDigitBound(prefix);
    }
  }

  /** The length of the run of digits `s` starts with. */
  function DigitRun(s: string): (n: nat)
    ensures n <= |s| && AllDigits(s[..n])
    ensures n < |s| ==> !IsDigit(s[n])
  {
    if s != [] && IsDigit(s[0]) then
      var n := 1 + DigitRun(s[1..]);
      assert s[..n] == [s[0]] + s[1..][..n - 1];
      n
    else 0
  }

  lemma {:induction false} DigitRunOfConcat(a: string, x: string)
    requires AllDigits(a) && x != [] && !IsDigit(x[0])
    ensures DigitRun(a + x) == |a|
    decreases |a|
  {
    if a != [] {
      assert (a + x)[1..] == a[1..] + x;
      DigitRunOfConcat(a[1..], x);
    } else {
      assert a + x == x;
    }
  }

  /** A count written out in front of text that starts with a non-digit can be read back. */
  lemma CountPrefixDetermines(n1: nat, n2: nat, x: string, y: string)
    requires x != [] && !IsDigit(x[0]) && y != [] && !IsDigit(y[0])
    requires NatToString(n1) + x == NatToString(n2) + y
    ensures n1 == n2 && x == y
  {
    var a, b := NatToString(n1), NatToString(n2);
    DigitRunOfConcat(a, x);
    DigitRunOfConcat(b, y);
    assert a == (a + x)[..|a|];
    assert b == (b + y)[..|b|];
    assert x == (a + x)[|a|..];
    assert y == (b + y)[|b|..];
  }
}
