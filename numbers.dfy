/**
  The two conversions between numbers and text in the second importer:
  `str(idx + 1)`, which makes the CSV key of a stall, and `int(text)`, which
  reads the calorie count out of the CSV.
*/
module Numbers {
  import opened Chars

  predicate IsDigit(c: char) {
    '0' <= c <= '9'
  }

  function DigitValue(c: char): nat
    requires IsDigit(c)
  {
    (c as int) - ('0' as int)
  }

  function DigitChar(d: nat): (c: char)
    requires d < 10
    ensures IsDigit(c) && DigitValue(c) == d
  {
    (('0' as int) + d) as char
  }

  /** `str(n)` for a non-negative `int`: its decimal digits, without leading zeros. */
  function NatToString(n: nat): (s: string)
    ensures |s| >= 1 && forall k :: 0 <= k < |s| ==> IsDigit(s[k])
  {
    if n < 10 then [DigitChar(n)] else NatToString(n / 10) + [DigitChar(n % 10)]
  }

  predicate DigitsOrSeparators(s: string) {
    forall k :: 0 <= k < |s| ==> IsDigit(s[k]) || s[k] == '_'
  }

  /** Decimal digits in which each `_` stands between two digits, as `int()` accepts them. */
  predicate IsDigitGroup(s: string) {
    && |s| >= 1 && IsDigit(s[0]) && DigitsOrSeparators(s)
    && forall k :: 0 <= k < |s| && s[k] == '_' ==> k + 1 < |s| && IsDigit(s[k + 1])
  }

  /** The number written by digits and `_` separators; the separators are skipped. */
  function DigitsValue(s: string): nat
    requires DigitsOrSeparators(s)
  {
    if s == [] then 0
    else if s[|s| - 1] == '_' then DigitsValue(s[..|s| - 1])
    else 10 * DigitsValue(s[..|s| - 1]) + DigitValue(s[|s| - 1])
  }

  /** A signed or unsigned digit group, as `int()` reads it once surrounding whitespace is gone. */
  predicate IsSignedDigits(t: string) {
    || IsDigitGroup(t)
    || (|t| >= 2 && (t[0] == '+' || t[0] == '-') && IsDigitGroup(t[1..]))
  }

  /** The text `int()` converts without raising `ValueError`: whitespace at either end is skipped. */
  predicate IsIntText(s: string)
    decreases |s|
  {
    if s != [] && IsSpace(s[0]) then IsIntText(s[1..])
    else if s != [] && IsSpace(s[|s| - 1]) then IsIntText(s[..|s| - 1])
    else IsSignedDigits(s)
  }

  /** `int(s)` for text that `int()` accepts. */
  function IntValue(s: string): int
    requires IsIntText(s)
    decreases |s|
  {
    if s != [] && IsSpace(s[0]) then IntValue(s[1..])
    else if s != [] && IsSpace(s[|s| - 1]) then IntValue(s[..|s| - 1])
    else if IsDigitGroup(s) then DigitsValue(s)
    else if s[0] == '-' then -(DigitsValue(s[1..]) as int)
    else DigitsValue(s[1..])
  }

  lemma {:induction false} DigitsValueOfNatToString(n: nat)
    ensures DigitsValue(NatToString(n)) == n
  {
    if n >= 10 {
      DigitsValueOfNatToString(n / 10);
      var s := NatToString(n);
      assert s[..|s| - 1] == NatToString(n / 10);
    }
  }

  /** `int(str(n)) == n`: the CSV key of a stall reads back as its number. */
  lemma NatToStringRoundTrip(n: nat)
    ensures IsIntText(NatToString(n)) && IntValue(NatToString(n)) == n
  {
    var s := NatToString(n);
    assert !IsSpace(s[0]) && !IsSpace(s[|s| - 1]);
    DigitsValueOfNatToString(n);
  }

  /** Distinct numbers have distinct keys. */
  lemma NatToStringInjective(m: nat, n: nat)
    requires NatToString(m) == NatToString(n)
    ensures m == n
  {
    NatToStringRoundTrip(m);
    NatToStringRoundTrip(n);
  }
}
