/** Prometheus byte sizes such as `64MiB` and `1.5GiB` (`src/config.rs:655-795`). */
module Sizes {
  import opened Basics
  import opened Ascii
  import opened Decimals

  datatype SizeError = Empty | InvalidFormat | UnknownUnit | NumberOverflow

  /** `K`, `M`, `G`, `T`, `P` and `E`, as powers of 1024. */
  const PREFIXES: Text := [75, 77, 71, 84, 80, 69]

  const LETTER_B: byte := 66
  const LETTER_I: byte := 105

  function PrefixBytes(letter: byte): Option<nat> {
    if letter == PREFIXES[0] then Some(0x400)
    else if letter == PREFIXES[1] then Some(0x10_0000)
    else if letter == PREFIXES[2] then Some(0x4000_0000)
    else if letter == PREFIXES[3] then Some(0x100_0000_0000)
    else if letter == PREFIXES[4] then Some(0x4_0000_0000_0000)
    else if letter == PREFIXES[5] then Some(0x1000_0000_0000_0000)
    else None
  }

  /** `B`, `KB`, `KiB` and so on up to `EiB`: all powers of 1024, case and all. */
  function UnitBytes(name: Text): (bytes: Option<nat>)
    ensures bytes.Some? ==> name != [] && 1 <= bytes.value <= 0x1000_0000_0000_0000
  {
    if name == [LETTER_B] then Some(1)
    else if (|name| == 2 && name[1] == LETTER_B) || (|name| == 3 && name[1..] == [LETTER_I, LETTER_B]) then
      PrefixBytes(name[0])
    else None
  }

  /** Length of the leading run without digits and points. */
  function UnitRun(s: Text): (n: nat)
    ensures n <= |s|
    ensures forall i | 0 <= i < n :: !IsDigit(s[i]) && s[i] != DOT
    ensures n < |s| ==> IsDigit(s[n]) || s[n] == DOT
  {
    if s != [] && !IsDigit(s[0]) && s[0] != DOT then 1 + UnitRun(s[1..]) else 0
  }

  /** `[0-9]*(\.[0-9]*)?<unit>` */
  datatype Component = Component(whole: Text, point: bool, fraction: Text, unit: Text)

  predicate ComponentOk(c: Component) {
    && IsDigits(c.whole) && IsDigits(c.fraction)
    && (c.fraction != [] ==> c.point)
    && (c.whole != [] || c.fraction != [])
    && UnitBytes(c.unit).Some?
    && UnitRun(c.unit) == |c.unit|
  }

  function PrintFraction(c: Component): Text {
    if c.point then [DOT] + c.fraction else []
  }

  function Print(c: Component): Text {
    c.whole + (PrintFraction(c) + c.unit)
  }

  /** The point and its digits, if `s` starts with one, and what follows. */
  function FractionPart(s: Text): (r: (bool, Text, Text))
    ensures IsDigits(r.1) && (r.1 != [] ==> r.0) && |r.1| + |r.2| <= |s|
  {
    if s != [] && s[0] == DOT then
      var f := LeadingDigits(s[1..]);
      (true, s[1..][..f], s[1..][f..])
    else (false, [], s)
  }

  /** The first component of `s`, and what follows it. */
  function FirstComponent(s: Text): (r: Result<(Component, Text), SizeError>)
    ensures r.Ok? ==> ComponentOk(r.value.0) && |r.value.1| < |s|
  {
    var w := LeadingDigits(s);
    var (point, fraction, after) := FractionPart(s[w..]);
    if s[..w] == [] && fraction == [] then Err(InvalidFormat)
    else
      var u := UnitRun(after);
      if UnitBytes(after[..u]).None? then Err(UnknownUnit)
      else
        UnitRunAll(after[..u]);
        Ok((Component(s[..w], point, fraction, after[..u]), after[u..]))
  }

  lemma {:induction false} UnitRunAll(s: Text)
    requires forall i | 0 <= i < |s| :: !IsDigit(s[i]) && s[i] != DOT
    ensures UnitRun(s) == |s|
  {
    if s != [] {
      UnitRunAll(s[1..]);
    }
  }

  // ----- values

  /** Only this many digits of a fraction are read. */
  const FRACTION_DIGITS := 19

  function ReadDigits(fraction: Text): Text {
    if |fraction| <= FRACTION_DIGITS then fraction else fraction[..FRACTION_DIGITS]
  }

  /** `a * b / p`, rounded down, on a product wide enough not to overflow. */
  function MulDiv(a: nat, b: nat, p: nat): nat
    requires p > 0
  {
    ProductPositive(a, b);
    a * b / p
  }

  lemma ProductPositive(a: nat, b: nat)
    ensures a * b >= 0
  {
  }

  /** The bytes a fraction of a unit is worth, rounded down, from the digits that are read. */
  function FractionBytes(fraction: Text, bytes: nat): nat {
    MulDiv(DecimalValue(ReadDigits(fraction)), bytes, Pow10(|ReadDigits(fraction)|))
  }

  /** What the component is worth to the parser, were there no overflow. */
  function Value(c: Component): nat
    requires ComponentOk(c)
  {
    var bytes := UnitBytes(c.unit).value;
    DecimalValue(c.whole) * bytes + FractionBytes(c.fraction, bytes)
  }

  /** The checked 64-bit arithmetic of one component. */
  function CheckedValue(c: Component): Option<u64>
    requires ComponentOk(c)
  {
    var bytes := UnitBytes(c.unit).value;
    if DecimalValue(c.whole) >= TWO_64 || DecimalValue(c.whole) * bytes >= TWO_64 then None
    else if c.fraction == [] then Some(DecimalValue(c.whole) * bytes)
    else
      var part := FractionBytes(c.fraction, bytes);
      if part >= TWO_64 || DecimalValue(c.whole) * bytes + part >= TWO_64 then None
      else Some(DecimalValue(c.whole) * bytes + part)
  }

  /** Component by component from `total` on. */
  function Components(s: Text, total: u64): Result<u64, SizeError>
    decreases |s|
  {
    if s == [] then Ok(total)
    else
      match FirstComponent(s)
      case Err(error) => Err(error)
      case Ok((c, rest)) =>
        match CheckedValue(c)
        case None => Err(NumberOverflow)
        case Some(value) => if total + value >= TWO_64 then Err(NumberOverflow) else Components(rest, total + value)
  }

  /** A trimmed size string. */
  function ParseTrimmed(s: Text): Result<u64, SizeError> {
    if s == [] then Err(Empty)
    else if IsDigits(s) then
      if DecimalValue(s) < TWO_64 then Ok(DecimalValue(s)) else Err(NumberOverflow)
    else Components(s, 0)
  }

  // ----- trimming

  /** The UTF-8 forms of the Unicode white space characters. */
  const WHITE_SPACE: seq<Text> := [
    [9], [10], [11], [12], [13], [32], [0xc2, 0x85], [0xc2, 0xa0], [0xe1, 0x9a, 0x80],
    [0xe2, 0x80, 0x80], [0xe2, 0x80, 0x81], [0xe2, 0x80, 0x82], [0xe2, 0x80, 0x83], [0xe2, 0x80, 0x84],
    [0xe2, 0x80, 0x85], [0xe2, 0x80, 0x86], [0xe2, 0x80, 0x87], [0xe2, 0x80, 0x88], [0xe2, 0x80, 0x89],
    [0xe2, 0x80, 0x8a], [0xe2, 0x80, 0xa8], [0xe2, 0x80, 0xa9], [0xe2, 0x80, 0xaf], [0xe2, 0x81, 0x9f],
    [0xe3, 0x80, 0x80]]

  predicate IsWhiteSpace(s: Text) {
    s in WHITE_SPACE
  }

  /** Length of the white space character `s` starts with, or 0. */
  function WhiteStart(s: Text): (n: nat)
    ensures n <= |s|
  {
    hide IsWhiteSpace;
    if |s| >= 1 && IsWhiteSpace(s[..1]) then 1
    else if |s| >= 2 && IsWhiteSpace(s[..2]) then 2
    else if |s| >= 3 && IsWhiteSpace(s[..3]) then 3
    else 0
  }

  function LastBytes(s: Text, k: nat): Text
    requires k <= |s|
  {
    s[|s| - k..]
  }

  /** Length of the white space character `s` ends with, or 0. */
  function WhiteEnd(s: Text): (n: nat)
    ensures n <= |s|
  {
    hide IsWhiteSpace, LastBytes;
    if |s| >= 1 && IsWhiteSpace(LastBytes(s, 1)) then 1
    else if |s| >= 2 && IsWhiteSpace(LastBytes(s, 2)) then 2
    else if |s| >= 3 && IsWhiteSpace(LastBytes(s, 3)) then 3
    else 0
  }

  function TrimStart(s: Text): Text {
    if WhiteStart(s) == 0 then s else TrimStart(s[WhiteStart(s)..])
  }

  function TrimEnd(s: Text): Text {
    if WhiteEnd(s) == 0 then s else TrimEnd(s[..|s| - WhiteEnd(s)])
  }

  function ParseSize(input: Text): Result<u64, SizeError> {
    ParseTrimmed(TrimEnd(TrimStart(input)))
  }

  // ----- the loop

  lemma NoComponents(total: u64)
    ensures Components([], total) == Ok(total)
  {
  }

  method Parse(input: Text) returns (r: Result<u64, SizeError>)
    ensures r == ParseSize(input)
  {
    hide TrimStart, TrimEnd, DecimalValue, FirstComponent, CheckedValue, IsDigits;
    var trimmed := TrimEnd(TrimStart(input));
    if trimmed == [] {
      return Err(Empty);
    }
    if IsDigits(trimmed) {
      var n := DecimalValue(trimmed);
      if n < TWO_64 {
        return Ok(n);
      } else {
        return Err(NumberOverflow);
      }
    }
    var remaining := trimmed;
    var total: u64 := 0;
    while remaining != []
      invariant Components(remaining, total) == Components(trimmed, 0)
      decreases |remaining|
    {
      var first := ReadComponent(remaining);
      if first.Err? {
        return Err(first.error);
      }
      var component := ComponentBytes(first.value.0);
      if component.None? {
        return Err(NumberOverflow);
      }
      if total + component.value >= TWO_64 {
        return Err(NumberOverflow);
      }
      total := total + component.value;
      remaining := first.value.1;
    }
    NoComponents(total);
    r := Ok(total);
  }

  /** The lexical half of the loop body. */
  method ReadComponent(remaining: Text) returns (r: Result<(Component, Text), SizeError>)
    ensures r == FirstComponent(remaining)
  {
    hide LeadingDigits, UnitBytes, UnitRun;
    var wholeLen := LeadingDigits(remaining);
    var whole, rest := remaining[..wholeLen], remaining[wholeLen..];
    var point := false;
    var fraction: Text := [];
    if rest != [] && rest[0] == DOT {
      point := true;
      var afterPoint := rest[1..];
      var fractionLen := LeadingDigits(afterPoint);
      fraction, rest := afterPoint[..fractionLen], afterPoint[fractionLen..];
    }
    if whole == [] && fraction == [] {
      return Err(InvalidFormat);
    }
    var unitLen := UnitRun(rest);
    var unit, next := rest[..unitLen], rest[unitLen..];
    if UnitBytes(unit).None? {
      return Err(UnknownUnit);
    }
    r := Ok((Component(whole, point, fraction, unit), next));
  }

  /** The arithmetic half: checked multiplications and additions; 128 bits hold the numerator. */
  method ComponentBytes(c: Component) returns (r: Option<u64>)
    requires ComponentOk(c)
    ensures r == CheckedValue(c)
  {
    hide DecimalValue, UnitBytes, Pow10, IsDigits, MulDiv;
    var bytesPerUnit := UnitBytes(c.unit).value;
    var component: nat := 0;
    NoDigits();
    ProductPositive(DecimalValue(c.whole), bytesPerUnit);
    if c.whole != [] {
      var whole := DecimalValue(c.whole);
      if whole >= TWO_64 {
        return None;
      }
      component := whole * bytesPerUnit;
      if component >= TWO_64 {
        return None;
      }
    }
    if c.fraction != [] {
      var digits := ReadDigits(c.fraction);
      NineteenDigitsFit(digits, bytesPerUnit);
      var number := DecimalValue(digits);
      assert number < TWO_64 && number * bytesPerUnit < TWO_64 * TWO_64;
      var part := MulDiv(number, bytesPerUnit, Pow10(|digits|));
      if part >= TWO_64 {
        return None;
      }
      component := component + part;
      if component >= TWO_64 {
        return None;
      }
    }
    r := Some(component);
  }

  lemma NoDigits()
    ensures DecimalValue([]) == 0
  {
  }

  lemma {:induction false} Pow10Grows(a: nat, b: nat)
    requires a <= b
    ensures Pow10(a) <= Pow10(b)
  {
    if a < b {
      Pow10Grows(a, b - 1);
    }
  }

  lemma Pow10Values()
    ensures Pow10(19) == 10_000_000_000_000_000_000 && Pow10(20) == 100_000_000_000_000_000_000
  {
    assert Pow10(5) == 100_000;
    Pow10Add(5, 5);
    Pow10Add(10, 5);
    Pow10Add(15, 4);
    assert Pow10(4) == 10_000;
  }

  lemma NineteenDigitsFit(digits: Text, bytes: nat)
    requires |digits| <= FRACTION_DIGITS && bytes <= 0x1000_0000_0000_0000
    ensures DecimalValue(digits) < TWO_64 && DecimalValue(digits) * bytes < TWO_64 * TWO_64
  {
    DecimalBelow(digits);
    Pow10Grows(|digits|, 19);
    Pow10Values();
    MulMonotone(bytes, TWO_64, DecimalValue(digits));
    MulMonotone(DecimalValue(digits), TWO_64 - 1, TWO_64);
  }
}
