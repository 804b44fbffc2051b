/**
 * String helpers used by the worker probe and the alert text: ordinal
 * substring search (what `string.Contains(string)` does) and the decimal
 * rendering of an integer (what string interpolation of an `int` produces
 * under the invariant culture), with a parser as its inverse.
 */
module Text {

  /** `pat` occurs in `s` starting at index `i`. */
  ghost predicate OccursAt(s: string, pat: string, i: int)
  {
    0 <= i && i + |pat| <= |s| && s[i..i + |pat|] == pat
  }

  /** `pat` occurs somewhere in `s`. */
  ghost predicate IsSubstring(pat: string, s: string)
  {
    exists i :: OccursAt(s, pat, i)
  }

  predicate StartsWith(s: string, prefix: string)
  {
    |prefix| <= |s| && s[..|prefix|] == prefix
  }

  predicate EndsWith(s: string, suffix: string)
  {
    |suffix| <= |s| && s[|s| - |suffix|..] == suffix
  }

  /** An occurrence in the tail of `s` is an occurrence in `s` one place later, and back. */
  lemma OccursInTail(s: string, pat: string)
    requires s != [] && !OccursAt(s, pat, 0)
    ensures IsSubstring(pat, s[1..]) <==> IsSubstring(pat, s)
  {
    if IsSubstring(pat, s[1..]) {
      var i :| OccursAt(s[1..], pat, i);
      assert s[i + 1..i + 1 + |pat|] == s[1..][i..i + |pat|];
      assert OccursAt(s, pat, i + 1);
    }
    if IsSubstring(pat, s) {
      var i :| OccursAt(s, pat, i);
      assert i != 0;
      assert s[1..][i - 1..i - 1 + |pat|] == s[i..i + |pat|];
      assert OccursAt(s[1..], pat, i - 1);
    }
  }

  /** Ordinal substring search: compare at the front, else search the tail. */
  function Contains(s: string, pat: string): (r: bool)
    ensures r <==> IsSubstring(pat, s)
    decreases |s|
  {
    if |s| < |pat| then
      false
    else if s[..|pat|] == pat then
      assert OccursAt(s, pat, 0);
      true
    else
      OccursInTail(s, pat);
      Contains(s[1..], pat)
  }

  predicate IsDigit(c: char)
  {
    '0' <= c <= '9'
  }

  function DigitChar(d: int): (c: char)
    requires 0 <= d < 10
    ensures IsDigit(c) && c as int - '0' as int == d
  {
    (d + '0' as int) as char
  }

  /** The decimal digits of `n`, most significant first, without leading zeros. */
  function Digits(n: nat): (r: string)
    decreases n
  {
    if n < 10 then [DigitChar(n)] else Digits(n / 10) + [DigitChar(n % 10)]
  }

  /**
   * `n` rendered in decimal: a '-' exactly when negative, then digits only,
   * with no leading zero unless the value is zero.
   */
  function DecimalString(n: int): (r: string)
    ensures var start := if n < 0 then 1 else 0;
      start < |r| &&
      (r[0] == '-' <==> n < 0) &&
      (forall i :: start <= i < |r| ==> IsDigit(r[i])) &&
      (r[start] == '0' ==> n == 0)
  {
    var digits := if n < 0 then -n else n;
    DigitsShape(digits);
    if n < 0 then "-" + Digits(-n) else Digits(n)
  }

  /** The value of a run of decimal digits (the inverse of Digits). */
  function ParseDigits(s: string): nat
  {
    if s == [] then 0
    else if IsDigit(s[|s| - 1]) then ParseDigits(s[..|s| - 1]) * 10 + (s[|s| - 1] as int - '0' as int)
    else ParseDigits(s[..|s| - 1]) * 10
  }

  /** The value of a decimal rendering (the inverse of DecimalString). */
  function ParseDecimal(s: string): int
  {
    if s != [] && s[0] == '-' then -(ParseDigits(s[1..]) as int) else ParseDigits(s)
  }

  lemma {:induction false} DigitsShape(n: nat)
    ensures Digits(n) != []
    ensures forall i :: 0 <= i < |Digits(n)| ==> IsDigit(Digits(n)[i])
    ensures n > 0 ==> Digits(n)[0] != '0'
    decreases n
  {
    if n >= 10 {
      DigitsShape(n / 10);
      assert Digits(n)[0] == Digits(n / 10)[0];
    }
  }

  lemma {:induction false} ParseDigitsRoundTrip(n: nat)
    ensures ParseDigits(Digits(n)) == n
    decreases n
  {
    if n >= 10 {
      var d := Digits(n);
      assert d[..|d| - 1] == Digits(n / 10);
      ParseDigitsRoundTrip(n / 10);
    } else {
      assert Digits(n)[..0] == [];
    }
  }

  /** Parsing undoes rendering, so distinct integers render differently. */
  lemma DecimalRoundTrip(n: int)
    ensures ParseDecimal(DecimalString(n)) == n
  {
    if n < 0 {
      DigitsShape(-n);
      assert DecimalString(n)[1..] == Digits(-n);
      ParseDigitsRoundTrip(-n);
    } else {
      DigitsShape(n);
      assert IsDigit(Digits(n)[0]);
      ParseDigitsRoundTrip(n);
    }
  }

  /** A decimal rendering is a '-' or digit followed by digits: never a double quote. */
  lemma DecimalHasNoQuote(n: int)
    ensures DecimalString(n) != []
    ensures forall i :: 0 <= i < |DecimalString(n)| ==> DecimalString(n)[i] != '"'
  {
    if n < 0 {
      DigitsShape(-n);
      assert forall i :: 1 <= i < |DecimalString(n)| ==> DecimalString(n)[i] == Digits(-n)[i - 1];
    } else {
      DigitsShape(n);
    }
  }
}
