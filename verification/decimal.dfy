/**
 Decimal rendering of integers as JavaScript's `String(n)` and template
 literals produce it for whole numbers, and the parse that reads it back.
 */
module Decimal {
  import opened Wrappers

  predicate IsDigit(c: char) {
    '0' <= c <= '9'
  }

  predicate AllDigits(s: string) {
    forall i :: 0 <= i < |s| ==> IsDigit(s[i])
  }

  function DigitChar(d: nat): (c: char)
    requires d < 10
    ensures IsDigit(c)
    ensures c as int - 48 == d
  {
    (48 + d) as char
  }

  function DigitValue(c: char): (d: nat)
    requires IsDigit(c)
    ensures d < 10 && DigitChar(d) == c
  {
    c as int - 48
  }

  /** Shortest decimal rendering of `n`: digits only, no leading zero. */
  function NatToString(n: nat): (s: string)
    ensures |s| >= 1 && AllDigits(s)
    ensures |s| > 1 ==> s[0] != '0'
    ensures n < 10 <==> |s| == 1
  {
    if n < 10 then [DigitChar(n)] else NatToString(n / 10) + [DigitChar(n % 10)]
  }

  function Pow10(k: nat): nat {
    if k == 0 then 1 else 10 * Pow10(k - 1)
  }

  /** A number below 10^k needs at most k digits. */
  lemma {:induction false} NatToStringLength(n: nat, k: nat)
    requires 1 <= k && n < Pow10(k)
    ensures |NatToString(n)| <= k
  {
    if n >= 10 {
      NatToStringLength(n / 10, k - 1);
    }
  }

  /** Numeric value of a digit string, most significant digit first. */
  function Value(s: string): nat
    requires AllDigits(s)
  {
    if s == [] then 0 else 10 * Value(s[..|s| - 1]) + DigitValue(s[|s| - 1])
  }

  /** A non-empty string of decimal digits, read as a number. */
  function ParseNat(s: string): (r: Option<nat>)
    ensures r.Some? <==> |s| >= 1 && AllDigits(s)
  {
    if |s| >= 1 && AllDigits(s) then Some(Value(s)) else None
  }

  /** Reading back the rendering of `n` gives `n`. */
  lemma {:induction false} ParseNatToString(n: nat)
    ensures ParseNat(NatToString(n)) == Some(n)
  {
    var s := NatToString(n);
    if n >= 10 {
      ParseNatToString(n / 10);
      assert s[..|s| - 1] == NatToString(n / 10);
      assert DigitValue(s[|s| - 1]) == n % 10;
      assert Value(s) == 10 * Value(s[..|s| - 1]) + DigitValue(s[|s| - 1]);
      assert ParseNat(s[..|s| - 1]) == Some(n / 10);
    } else {
      assert Value(s) == 10 * Value(s[..0]) + DigitValue(s[0]);
    }
  }

  /** Leading zeros do not change the value of a digit string. */
  lemma {:induction false} ValueLeadingZeros(z: nat, s: string)
    requires AllDigits(s)
    ensures AllDigits(seq(z, _ => '0') + s)
    ensures Value(seq(z, _ => '0') + s) == Value(s)
    decreases z, |s|
  {
    var t := seq(z, _ => '0') + s;
    if s == [] {
      if z > 0 {
        assert t[..|t| - 1] == seq(z - 1, _ => '0') + [];
        ValueLeadingZeros(z - 1, []);
      }
    } else {
      assert t[..|t| - 1] == seq(z, _ => '0') + s[..|s| - 1];
      ValueLeadingZeros(z, s[..|s| - 1]);
    }
  }

  /** JavaScript's `String(n)` for a whole number: a minus sign, then the magnitude. */
  function IntToString(n: int): (s: string)
    ensures |s| >= 1
    ensures n >= 0 <==> IsDigit(s[0])
    ensures forall i :: 1 <= i < |s| ==> IsDigit(s[i])
    ensures forall i :: 0 <= i < |s| ==> IsDigit(s[i]) || s[i] == '-'
    ensures IsDigit(s[0]) && |s| > 1 ==> s[0] != '0'
    ensures n < 0 ==> |s| >= 2 && s[1] != '0'
  {
    if n < 0 then "-" + NatToString(-n) else NatToString(n)
  }

  /** An optional minus sign followed by a non-empty digit string. */
  function ParseInt(s: string): (r: Option<int>)
    ensures |s| >= 1 && AllDigits(s) ==> r.Some? && r.value >= 0
  {
    if |s| >= 1 && s[0] == '-' then
      match ParseNat(s[1..])
      case Some(m) => Some(-(m as int))
      case None => None
    else
      match ParseNat(s)
      case Some(m) => Some(m)
      case None => None
  }

  /** Reading back the rendering of any whole number `n` gives `n`. */
  lemma ParseIntToString(n: int)
    ensures ParseInt(IntToString(n)) == Some(n)
  {
    var s := IntToString(n);
    if n < 0 {
      ParseNatToString(-n);
      assert s == "-" + NatToString(-n);
      assert s[0] == '-' && s[1..] == NatToString(-n);
    } else {
      assert s == NatToString(n);
      ParseNatToString(n);
    }
  }
}
