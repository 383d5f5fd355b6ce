/** Unsigned decimal numbers in text. */
module Decimals {
  import opened Basics
  import opened Ascii

  predicate IsDigits(s: Text) {
    forall b | b in s :: IsDigit(b)
  }

  /** Length of the leading run of digits. */
  function LeadingDigits(s: Text): (n: nat)
    ensures n <= |s| && IsDigits(s[..n])
    ensures n < |s| ==> !IsDigit(s[n])
  {
    if s != [] && IsDigit(s[0]) then
      var n := LeadingDigits(s[1..]);
      assert s[..n + 1] == [s[0]] + s[1..][..n];
      n + 1
    else 0
  }

  /** The number `digits` spells, leading zeros and all. */
  function DecimalValue(digits: Text): nat {
    if digits == [] then 0
    else
      var last := digits[|digits| - 1];
      10 * DecimalValue(digits[..|digits| - 1]) + (if IsDigit(last) then last - DIGIT_ZERO else 0)
  }

  /** Decimal digits of a number. */
  function Decimal(n: nat): (digits: Text)
    ensures digits != [] && IsDigits(digits)
  {
    if n < 10 then [DIGIT_ZERO + n] else Decimal(n / 10) + [DIGIT_ZERO + n % 10]
  }

  lemma {:induction false} DecimalRoundTrip(n: nat)
    ensures DecimalValue(Decimal(n)) == n
  {
    var digits := Decimal(n);
    if n >= 10 {
      DecimalRoundTrip(n / 10);
      assert digits[..|digits| - 1] == Decimal(n / 10);
    } else {
      assert digits[..0] == [];
    }
  }

  /** A run of digits ends where something else follows. */
  lemma {:induction false} LeadingDigitsOf(digits: Text, rest: Text)
    requires IsDigits(digits) && (rest == [] || !IsDigit(rest[0]))
    ensures LeadingDigits(digits + rest) == |digits|
  {
    if digits == [] {
      assert digits + rest == rest;
    } else {
      assert (digits + rest)[1..] == digits[1..] + rest;
      assert digits[0] in digits && forall b | b in digits[1..] :: b in digits;
      LeadingDigitsOf(digits[1..], rest);
    }
  }

  function Pow10(n: nat): (p: nat)
    ensures p >= 1
  {
    if n == 0 then 1 else 10 * Pow10(n - 1)
  }

  lemma {:induction false} Pow10Add(a: nat, b: nat)
    ensures Pow10(a + b) == Pow10(a) * Pow10(b)
  {
    if a != 0 {
      Pow10Add(a - 1, b);
      assert 10 * (Pow10(a - 1) * Pow10(b)) == (10 * Pow10(a - 1)) * Pow10(b);
    }
  }

  /** `n` digits spell less than `10^n`. */
  lemma {:induction false} DecimalBelow(digits: Text)
    ensures DecimalValue(digits) < Pow10(|digits|)
  {
    if digits != [] {
      DecimalBelow(digits[..|digits| - 1]);
    }
  }

  lemma {:induction false} DecimalAppend(a: Text, b: Text)
    ensures DecimalValue(a + b) == DecimalValue(a) * Pow10(|b|) + DecimalValue(b)
  {
    if b == [] {
      assert a + b == a;
    } else {
      hide DecimalValue;
      var init, last := b[..|b| - 1], b[|b| - 1];
      DecimalAppend(a, init);
      DecimalSnoc(a + init, last);
      DecimalSnoc(init, last);
      assert a + b == (a + init) + [last] && b == init + [last];
      TenTimes(DecimalValue(a), Pow10(|init|));
    }
  }

  lemma DecimalSnoc(digits: Text, last: byte)
    ensures DecimalValue(digits + [last]) ==
      10 * DecimalValue(digits) + (if IsDigit(last) then last - DIGIT_ZERO else 0)
  {
    assert (digits + [last])[..|digits|] == digits;
  }

  lemma TenTimes(x: nat, p: nat)
    ensures 10 * (x * p) == x * (10 * p)
  {
  }
}
