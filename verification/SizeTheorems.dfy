/** What sizes are accepted, and how exact they are (`src/config.rs:686-775`). */
module SizeTheorems {
  import opened Basics
  import opened Ascii
  import opened Decimals
  import opened Sizes

  // ----- what is accepted

  ghost predicate AllOk(components: seq<Component>) {
    forall i | 0 <= i < |components| :: ComponentOk(components[i])
  }

  function PrintAll(components: seq<Component>): Text {
    if components == [] then [] else Print(components[0]) + PrintAll(components[1..])
  }

  ghost function ValueAll(components: seq<Component>): nat
    requires AllOk(components)
  {
    if components == [] then 0 else Value(components[0]) + ValueAll(components[1..])
  }

  lemma {:induction false} UnitRunOf(unit: Text, rest: Text)
    requires UnitRun(unit) == |unit| && (rest == [] || IsDigit(rest[0]) || rest[0] == DOT)
    ensures UnitRun(unit + rest) == |unit|
  {
    if unit == [] {
      assert unit + rest == rest;
    } else {
      assert (unit + rest)[1..] == unit[1..] + rest;
      UnitRunOf(unit[1..], rest);
    }
  }

  /** A unit starts with neither a digit nor a point. */
  lemma UnitStart(c: Component)
    requires ComponentOk(c)
    ensures c.unit != [] && !IsDigit(c.unit[0]) && c.unit[0] != DOT
  {
  }

  lemma ComponentStart(c: Component, rest: Text)
    requires ComponentOk(c)
    ensures
      var s := Print(c) + rest;
      s != [] && (IsDigit(s[0]) || s[0] == DOT)
  {
    if c.whole != [] {
      assert c.whole[0] in c.whole;
    }
  }

  lemma Regroup4(a: Text, b: Text, c: Text, d: Text)
    ensures (a + (b + c)) + d == a + (b + (c + d))
  {
    assert (b + c) + d == b + (c + d);
  }

  lemma Cut(a: Text, b: Text)
    ensures (a + b)[..|a|] == a && (a + b)[|a|..] == b
  {
  }

  lemma PrintedFraction(c: Component, after: Text)
    requires ComponentOk(c) && after != [] && !IsDigit(after[0]) && after[0] != DOT
    ensures FractionPart(PrintFraction(c) + after) == (c.point, c.fraction, after)
  {
    hide LeadingDigits, IsDigits, UnitBytes, UnitRun;
    if c.point {
      var s := PrintFraction(c) + after;
      assert s[1..] == c.fraction + after;
      LeadingDigitsOf(c.fraction, after);
      Cut(c.fraction, after);
    } else {
      assert PrintFraction(c) + after == after;
    }
  }

  /** A printed component reads back, whatever component follows it. */
  lemma PrintedFirst(c: Component, rest: Text)
    requires ComponentOk(c) && (rest == [] || IsDigit(rest[0]) || rest[0] == DOT)
    ensures FirstComponent(Print(c) + rest) == Ok((c, rest))
  {
    hide UnitBytes, UnitRun, LeadingDigits, IsDigits, FractionPart, IsDigit;
    var after := c.unit + rest;
    var tail := PrintFraction(c) + after;
    UnitStart(c);
    Regroup4(c.whole, PrintFraction(c), c.unit, rest);
    PrintedFraction(c, after);
    PointIsNoDigit();
    LeadingDigitsOf(c.whole, tail);
    Cut(c.whole, tail);
    UnitRunOf(c.unit, rest);
    Cut(c.unit, rest);
  }

  lemma PointIsNoDigit()
    ensures !IsDigit(DOT)
  {
  }

  lemma Whole(s: Text, n: nat)
    requires n <= |s|
    ensures s[..n] + s[n..] == s
  {
  }

  lemma FirstIsPrinted(s: Text)
    requires FirstComponent(s).Ok?
    ensures Print(FirstComponent(s).value.0) + FirstComponent(s).value.1 == s
  {
    hide UnitBytes, UnitRun, LeadingDigits, IsDigits, ComponentOk, FractionPart;
    var (c, rest) := FirstComponent(s).value;
    var after := FractionPart(s[|c.whole|..]).2;
    Whole(s, |c.whole|);
    Whole(after, UnitRun(after));
    FractionIsPrinted(s[|c.whole|..]);
    Regroup4(c.whole, PrintFraction(c), c.unit, rest);
  }

  lemma FractionIsPrinted(s: Text)
    ensures
      var (point, fraction, after) := FractionPart(s);
      (if point then [DOT] + fraction else []) + after == s
  {
    hide LeadingDigits, IsDigits;
  }

  /** The checked arithmetic fails only when the value itself does not fit. */
  lemma CheckedIsValue(c: Component)
    requires ComponentOk(c)
    ensures CheckedValue(c) == if Value(c) < TWO_64 then Some(Value(c)) else None
  {
    hide IsDigits, UnitRun, UnitBytes, MulDiv;
    var bytes := UnitBytes(c.unit).value;
    MulMonotone(1, bytes, DecimalValue(c.whole));
    if c.fraction == [] {
      NoFraction(bytes);
    }
  }

  lemma NoFraction(bytes: nat)
    ensures FractionBytes([], bytes) == 0
  {
    NoDigits();
  }

  lemma {:induction false} PrintedParses(components: seq<Component>, total: u64)
    requires AllOk(components) && total + ValueAll(components) < TWO_64
    ensures Components(PrintAll(components), total) == Ok(total + ValueAll(components))
    decreases |components|
  {
    hide ComponentOk, FirstComponent, Print, Value, CheckedValue;
    if components == [] {
      NoComponents(total);
    } else {
      var c, rest := components[0], components[1..];
      AllOkTail(components);
      AllStart(rest);
      PrintedFirst(c, PrintAll(rest));
      ComponentStart(c, PrintAll(rest));
      CheckedIsValue(c);
      PrintedParses(rest, total + Value(c));
    }
  }

  lemma AllOkTail(components: seq<Component>)
    requires AllOk(components) && components != []
    ensures ComponentOk(components[0]) && AllOk(components[1..])
  {
  }

  lemma AllStart(components: seq<Component>)
    requires AllOk(components)
    ensures
      var s := PrintAll(components);
      s == [] || IsDigit(s[0]) || s[0] == DOT
  {
    hide Print, ComponentOk;
    if components != [] {
      ComponentStart(components[0], PrintAll(components[1..]));
    }
  }

  lemma {:induction false} ParsedIsPrinted(s: Text, total: u64) returns (components: seq<Component>)
    requires Components(s, total).Ok?
    ensures AllOk(components) && PrintAll(components) == s
    ensures Components(s, total).value == total + ValueAll(components)
    ensures s != [] ==> components != []
    decreases |s|
  {
    hide FirstComponent, Print, Value, CheckedValue, ComponentOk;
    if s == [] {
      components := [];
    } else {
      var (c, rest) := FirstComponent(s).value;
      CheckedIsValue(c);
      FirstIsPrinted(s);
      var more := ParsedIsPrinted(rest, total + Value(c));
      components := [c] + more;
      assert components[1..] == more;
    }
  }

  ghost predicate Spells(components: seq<Component>, s: Text, n: nat) {
    components != [] && AllOk(components) && PrintAll(components) == s && ValueAll(components) == n
  }

  lemma SpelledIsNotDigits(components: seq<Component>, s: Text, n: nat)
    requires Spells(components, s, n)
    ensures s != [] && !IsDigits(s)
  {
    hide UnitBytes, UnitRun;
    var c := components[0];
    UnitStart(c);
    assert s == c.whole + (PrintFraction(c) + c.unit) + PrintAll(components[1..]);
    var at := |c.whole| + |PrintFraction(c)|;
    assert s[at] == c.unit[0];
  }

  /** Sizes are accepted exactly for a bare number and for a sequence of `<number><unit>`
      components, when the value fits 64 bits. */
  lemma AcceptedExactly(s: Text, n: u64)
    ensures ParseTrimmed(s) == Ok(n) <==>
      || (s != [] && IsDigits(s) && DecimalValue(s) == n)
      || exists components :: Spells(components, s, n)
  {
    hide Components, IsDigits, PrintAll, ValueAll, AllOk, DecimalValue;
    if ParseTrimmed(s) == Ok(n) && !IsDigits(s) {
      var components := ParsedIsPrinted(s, 0);
      assert Spells(components, s, n);
    }
    if components :| Spells(components, s, n) {
      SpelledIsNotDigits(components, s, n);
      PrintedParses(components, 0);
    }
  }

  lemma {:induction false} PrintedOverflows(components: seq<Component>, total: u64)
    requires AllOk(components) && total + ValueAll(components) >= TWO_64
    ensures Components(PrintAll(components), total) == Err(NumberOverflow)
    decreases |components|
  {
    hide ComponentOk, FirstComponent, Print, Value, CheckedValue;
    var c, rest := components[0], components[1..];
    AllOkTail(components);
    AllStart(rest);
    PrintedFirst(c, PrintAll(rest));
    ComponentStart(c, PrintAll(rest));
    CheckedIsValue(c);
    if total + Value(c) < TWO_64 {
      PrintedOverflows(rest, total + Value(c));
    }
  }

  /** A well-formed size that does not fit is reported as an overflow. */
  lemma TooLarge(components: seq<Component>)
    requires components != [] && AllOk(components) && ValueAll(components) >= TWO_64
    ensures ParseTrimmed(PrintAll(components)) == Err(NumberOverflow)
  {
    hide Components, IsDigits, PrintAll, ValueAll, AllOk;
    SpelledIsNotDigits(components, PrintAll(components), ValueAll(components));
    PrintedOverflows(components, 0);
  }

  // ----- how exact an accepted component is

  /** The exact number of bytes a fraction of a unit is worth, rounded down. */
  function ExactFractionBytes(fraction: Text, bytes: nat): nat {
    MulDiv(DecimalValue(fraction), bytes, Pow10(|fraction|))
  }

  /** The exact rational value of a component, rounded down. */
  function ExactValue(c: Component): nat
    requires ComponentOk(c)
  {
    MulDiv(DecimalValue(c.whole + c.fraction), UnitBytes(c.unit).value, Pow10(|c.fraction|))
  }

  lemma ExactIsWholePlusFraction(c: Component)
    requires ComponentOk(c)
    ensures ExactValue(c) ==
      DecimalValue(c.whole) * UnitBytes(c.unit).value + ExactFractionBytes(c.fraction, UnitBytes(c.unit).value)
  {
    hide UnitBytes, DecimalValue, Pow10, IsDigits, UnitRun;
    var w, f, p := DecimalValue(c.whole), DecimalValue(c.fraction), Pow10(|c.fraction|);
    DecimalAppend(c.whole, c.fraction);
    WholeOut(w, f, p, UnitBytes(c.unit).value);
  }

  lemma WholeOut(w: nat, f: nat, p: nat, b: nat)
    requires p > 0
    ensures MulDiv(w * p + f, b, p) == w * b + MulDiv(f, b, p)
  {
    assert (w * p + f) * b == (w * b) * p + f * b by {
      assert (w * p) * b == (w * b) * p;
    }
    DivMultiple(w * b, p, f * b);
  }

  lemma DivMultiple(q: int, p: int, r: int)
    requires p > 0
    ensures (q * p + r) / p == q + r / p
  {
    var d := r / p;
    assert r == d * p + r % p;
    assert (q + d) * p == q * p + d * p;
    DivIs(q * p + r, p, q + d, r % p);
  }

  lemma DivIs(x: int, p: int, q: int, r: int)
    requires p > 0 && 0 <= r < p && x == q * p + r
    ensures x / p == q
  {
    FloorBelow(x, p, q);
    FloorBelow(x, p, q - 1);
    assert (q + 1) * p == q * p + p;
  }

  /** The digits not read, as a part of the exact fraction. */
  lemma Truncation(fraction: Text)
    requires |fraction| > FRACTION_DIGITS
    ensures
      var m := Pow10(|fraction| - FRACTION_DIGITS);
      var read := DecimalValue(ReadDigits(fraction));
      && read * m <= DecimalValue(fraction) < (read + 1) * m
      && Pow10(|fraction|) == m * Pow10(FRACTION_DIGITS)
  {
    hide DecimalValue, Pow10;
    var head, tail := fraction[..FRACTION_DIGITS], fraction[FRACTION_DIGITS..];
    assert fraction == head + tail;
    DecimalAppend(head, tail);
    DecimalBelow(tail);
    Pow10Add(FRACTION_DIGITS, |tail|);
    assert (DecimalValue(head) + 1) * Pow10(|tail|) == DecimalValue(head) * Pow10(|tail|) + Pow10(|tail|);
  }

  lemma DivMonotone(x: int, y: int, p: int)
    requires x <= y && p > 0
    ensures x / p <= y / p
  {
    FloorBelow(y, p, y / p);
    FloorBelow(x, p, y / p);
  }

  lemma ScaledQuotient(x: int, p: int, m: int)
    requires p > 0 && m > 0 && m * p > 0
    ensures (x * m) / (m * p) == x / p
  {
    DivDiv(x * m, m, p);
    DivMultiple(x, m, 0);
  }

  /** Truncating a numerator to a multiple of `m` loses at most one from a quotient by `m * p`
      when the multiplier is at most `p`. */
  lemma TruncatedQuotient(read: nat, full: nat, m: nat, b: nat, p: nat)
    requires m > 0 && p > 0 && b <= p && m * p > 0 && read * m <= full <= (read + 1) * m
    ensures MulDiv(read, b, p) <= MulDiv(full, b, m * p) <= MulDiv(read, b, p) + 1
  {
    assert read * b * m <= full * b <= (read * b + b) * m by {
      MulMonotone(read * m, full, b);
      MulMonotone(full, (read + 1) * m, b);
      Shuffle(read, m, b);
    }
    DivMonotone(read * b * m, full * b, m * p);
    DivMonotone(full * b, (read * b + b) * m, m * p);
    ScaledQuotient(read * b, p, m);
    ScaledQuotient(read * b + b, p, m);
    DivMonotone(read * b + b, 1 * p + read * b, p);
    DivMultiple(1, p, read * b);
  }

  lemma Shuffle(read: nat, m: nat, b: nat)
    ensures (read + 1) * m * b == (read * b + b) * m && read * m * b == read * b * m
  {
  }

  /** A fraction is worth its exact value or one byte less; with at most 19 digits exactly its value. */
  lemma FractionWithinOne(fraction: Text, bytes: nat)
    requires bytes <= 0x1000_0000_0000_0000
    ensures FractionBytes(fraction, bytes) <= ExactFractionBytes(fraction, bytes) <= FractionBytes(fraction, bytes) + 1
    ensures |fraction| <= FRACTION_DIGITS ==> FractionBytes(fraction, bytes) == ExactFractionBytes(fraction, bytes)
  {
    hide DecimalValue, Pow10, MulDiv;
    if |fraction| > FRACTION_DIGITS {
      Truncation(fraction);
      Pow10Values();
      TruncatedQuotient(
        DecimalValue(ReadDigits(fraction)), DecimalValue(fraction), Pow10(|fraction| - FRACTION_DIGITS), bytes,
        Pow10(FRACTION_DIGITS));
    }
  }

  /** Every component is worth its exact rational value rounded down, or one byte less; the
      former whenever its fraction has at most 19 digits. */
  lemma ComponentWithinOne(c: Component)
    requires ComponentOk(c)
    ensures ExactValue(c) - 1 <= Value(c) <= ExactValue(c)
    ensures |c.fraction| <= FRACTION_DIGITS ==> Value(c) == ExactValue(c)
  {
    hide UnitBytes, DecimalValue, Pow10, MulDiv, IsDigits, UnitRun, FractionBytes, ExactFractionBytes;
    ExactIsWholePlusFraction(c);
    FractionWithinOne(c.fraction, UnitBytes(c.unit).value);
  }

  // ----- when the digits past the 19th matter

  /** Fractions of `n` digits of a unit of `bytes` are all worth their exact value rounded down. */
  ghost predicate ExactAt(bytes: nat, n: nat) {
    forall fraction | |fraction| == n && IsDigits(fraction) ::
      FractionBytes(fraction, bytes) == ExactFractionBytes(fraction, bytes)
  }

  /** `x` in exactly `n` digits. */
  function Padded(x: nat, n: nat): (digits: Text)
    ensures |digits| == n && IsDigits(digits)
  {
    if n == 0 then [] else Padded(x / 10, n - 1) + [DIGIT_ZERO + x % 10]
  }

  lemma {:induction false} PaddedValue(x: nat, n: nat)
    requires x < Pow10(n)
    ensures DecimalValue(Padded(x, n)) == x
  {
    if n > 0 {
      PaddedValue(x / 10, n - 1);
      DecimalSnoc(Padded(x / 10, n - 1), DIGIT_ZERO + x % 10);
    }
  }

  predicate LargeUnit(bytes: nat) {
    || bytes == 0x10_0000 || bytes == 0x4000_0000 || bytes == 0x100_0000_0000
    || bytes == 0x4_0000_0000_0000 || bytes == 0x1000_0000_0000_0000
  }

  lemma UnitSizes(name: Text)
    requires UnitBytes(name).Some?
    ensures UnitBytes(name).value == 1 || UnitBytes(name).value == 0x400 || LargeUnit(UnitBytes(name).value)
  {
  }

  /** The smallest 20-digit fraction of a unit that is worth a byte: `10^20 / bytes`, rounded up. */
  function Crossing(bytes: nat): nat {
    if bytes == 0x10_0000 then 95_367_431_640_625
    else if bytes == 0x4000_0000 then 93_132_257_462
    else if bytes == 0x100_0000_0000 then 90_949_471
    else if bytes == 0x4_0000_0000_0000 then 88_818
    else 87
  }

  lemma CrossingCrosses(bytes: nat)
    requires LargeUnit(bytes)
    ensures Crossing(bytes) < Pow10(20) <= Crossing(bytes) * bytes
    ensures Crossing(bytes) / 10 < Pow10(19) && (Crossing(bytes) / 10) * bytes < Pow10(19)
  {
    hide Pow10;
    Pow10Values();
  }

  /** Without its 20th digit that fraction is worth nothing, however many zeros follow. */
  lemma LostByte(bytes: nat, n: nat)
    requires LargeUnit(bytes) && n >= 20
    ensures !ExactAt(bytes, n)
  {
    hide Pow10, DecimalValue, Padded, IsDigits, LargeUnit, Crossing;
    var x := Crossing(bytes);
    var head, zeros := Padded(x, 20), Padded(0, n - 20);
    CrossingCrosses(bytes);
    PaddedSplit(x);
    PaddedValue(x, 20);
    PaddedValue(x / 10, 19);
    PaddedValue(0, n - 20);
    DecimalAppend(head, zeros);
    DigitsAppend(head, zeros);
    Pow10Add(20, n - 20);
    var fraction := head + zeros;
    assert fraction[..19] == head[..19];
    WorthNothing(x / 10, bytes, Pow10(19));
    WorthSomething(x, bytes, Pow10(20), Pow10(n - 20));
    assert FractionBytes(fraction, bytes) != ExactFractionBytes(fraction, bytes);
  }

  lemma PaddedSplit(x: nat)
    ensures Padded(x, 20)[..19] == Padded(x / 10, 19)
  {
    hide DecimalValue;
  }

  lemma DigitsAppend(a: Text, b: Text)
    requires IsDigits(a) && IsDigits(b)
    ensures IsDigits(a + b)
  {
  }

  lemma WorthNothing(x: nat, b: nat, p: nat)
    requires p > 0 && x * b < p
    ensures MulDiv(x, b, p) == 0
  {
    ProductPositive(x, b);
    DivIs(x * b, p, 0, x * b);
  }

  lemma WorthSomething(x: nat, b: nat, p: nat, m: nat)
    requires p > 0 && m > 0 && p * m > 0 && x * b >= p
    ensures MulDiv(x * m, b, p * m) >= 1
  {
    SwapFactors(x, m, b);
    MulMonotone(p, x * b, m);
    DivMonotone(p * m, x * m * b, p * m);
    DivIs(p * m, p * m, 1, 0);
  }

  lemma SwapFactors(x: nat, m: nat, b: nat)
    ensures x * m * b == x * b * m
  {
  }

  /** A unit that divides `10^19` loses nothing: bytes and kibibytes. */
  lemma SmallUnitIsExact(fraction: Text, bytes: nat, q: nat)
    requires |fraction| > FRACTION_DIGITS && bytes > 0 && bytes * q == Pow10(FRACTION_DIGITS)
    ensures FractionBytes(fraction, bytes) == ExactFractionBytes(fraction, bytes)
  {
    hide DecimalValue, Pow10;
    Truncation(fraction);
    var m := Pow10(|fraction| - FRACTION_DIGITS);
    var read, full := DecimalValue(ReadDigits(fraction)), DecimalValue(fraction);
    assert q > 0;
    DividedUnit(full, bytes, m, q);
    DividedUnit(read, bytes, 1, q);
    DivIs(full, m, read, full - read * m);
  }

  lemma DividedUnit(x: nat, b: nat, m: nat, q: nat)
    requires b > 0 && m > 0 && q > 0 && m * (b * q) > 0
    ensures MulDiv(x, b, m * (b * q)) == (x / m) / q
  {
    assert m * q > 0 && b * (m * q) == m * (b * q);
    ScaledQuotient(x, m * q, b);
    DivDiv(x, m, q);
  }

  /** The digits past the 19th never matter exactly for fractions without them and for units of
      at most a kibibyte; for every larger unit some fraction of each greater length loses a byte. */
  lemma TruncationIsExact(name: Text, n: nat)
    requires UnitBytes(name).Some?
    ensures ExactAt(UnitBytes(name).value, n) <==> n <= FRACTION_DIGITS || UnitBytes(name).value <= 0x400
  {
    hide FractionBytes, ExactFractionBytes, Pow10, IsDigits, UnitBytes;
    var bytes := UnitBytes(name).value;
    UnitSizes(name);
    if n > FRACTION_DIGITS && bytes > 0x400 {
      LostByte(bytes, n);
    } else {
      Pow10Values();
      var q := if bytes == 1 then 10_000_000_000_000_000_000 else 9_765_625_000_000_000;
      forall fraction | |fraction| == n && IsDigits(fraction)
        ensures FractionBytes(fraction, bytes) == ExactFractionBytes(fraction, bytes)
      {
        if n <= FRACTION_DIGITS {
          FractionWithinOne(fraction, bytes);
        } else {
          SmallUnitIsExact(fraction, bytes, q);
        }
      }
    }
  }

  /** `0.00000000000000000087EiB`, and the component it spells. */
  const LOST_BYTE: Text := [
    48, 46, 48, 48, 48, 48, 48, 48, 48, 48, 48, 48, 48, 48, 48, 48, 48, 48, 48, 48, 56, 55, 69, 105, 66]
  const LOST_COMPONENT := Component(
    [48], true, [48, 48, 48, 48, 48, 48, 48, 48, 48, 48, 48, 48, 48, 48, 48, 48, 48, 48, 56, 55], [69, 105, 66])

  lemma {:induction false} ZerosAre(n: nat, i: nat)
    requires i < n
    ensures Padded(0, n)[i] == DIGIT_ZERO
  {
    if i < n - 1 {
      ZerosAre(n - 1, i);
    }
  }

  lemma LostFraction()
    ensures LOST_COMPONENT.fraction == Padded(87, 20)
  {
    hide Padded;
    assert Padded(87, 20) == Padded(8, 19) + [55] by { PaddedStep(87, 20); }
    assert Padded(8, 19) == Padded(0, 18) + [56] by { PaddedStep(8, 19); }
    forall i | 0 <= i < 18
      ensures Padded(0, 18)[i] == DIGIT_ZERO
    {
      ZerosAre(18, i);
    }
  }

  lemma PaddedStep(x: nat, n: nat)
    requires n > 0
    ensures Padded(x, n) == Padded(x / 10, n - 1) + [DIGIT_ZERO + x % 10]
  {
  }

  lemma LostUnit()
    ensures UnitBytes(LOST_COMPONENT.unit) == Some(0x1000_0000_0000_0000)
    ensures UnitRun(LOST_COMPONENT.unit) == |LOST_COMPONENT.unit|
  {
    UnitRunAll(LOST_COMPONENT.unit);
    assert LOST_COMPONENT.unit[1..] == [LETTER_I, LETTER_B];
  }

  lemma LostText()
    ensures Print(LOST_COMPONENT) == LOST_BYTE
  {
  }

  lemma LostComponentOk()
    ensures ComponentOk(LOST_COMPONENT) && UnitBytes(LOST_COMPONENT.unit) == Some(0x1000_0000_0000_0000)
    ensures Print(LOST_COMPONENT) == LOST_BYTE
  {
    hide Padded, UnitBytes, UnitRun, Print;
    LostFraction();
    LostUnit();
    LostText();
    assert IsDigits(LOST_COMPONENT.fraction) by { hide IsDigits; }
    assert LOST_COMPONENT.whole == [48];
  }

  lemma NothingToTrim()
    ensures TrimEnd(TrimStart(LOST_BYTE)) == LOST_BYTE
  {
    hide IsWhiteSpace;
    NotWhiteSpace(LOST_BYTE[..1]);
    NotWhiteSpace(LOST_BYTE[..2]);
    NotWhiteSpace(LOST_BYTE[..3]);
    NotWhiteSpace(LOST_BYTE[24..]);
    NotWhiteSpace(LOST_BYTE[23..]);
    NotWhiteSpace(LOST_BYTE[22..]);
  }

  lemma NotWhiteSpace(s: Text)
    requires s != [] && (s[0] == 48 || s[0] == 66 || s[0] == 105 || s[0] == 69)
    ensures !IsWhiteSpace(s)
  {
  }

  /** A size that is worth one byte parses to none. */
  lemma LostByteParses()
    ensures ParseSize(LOST_BYTE) == Ok(0)
    ensures ComponentOk(LOST_COMPONENT) && Print(LOST_COMPONENT) == LOST_BYTE && ExactValue(LOST_COMPONENT) == 1
  {
    hide TrimStart, TrimEnd, ParseTrimmed, UnitBytes, DecimalValue, Pow10, MulDiv, Padded, IsDigits, UnitRun, Print;
    LostComponentOk();
    LostFraction();
    PaddedSplit(87);
    Pow10Values();
    PaddedValue(87, 20);
    PaddedValue(8, 19);
    ZeroWhole();
    ExactIsWholePlusFraction(LOST_COMPONENT);
    WorthNothing(8, 0x1000_0000_0000_0000, Pow10(19));
    assert MulDiv(87, 0x1000_0000_0000_0000, Pow10(20)) == 1 by { WorthOne(); }
    assert Value(LOST_COMPONENT) == 0;
    NothingToTrim();
    SpellsOne(LOST_COMPONENT);
    AcceptedExactly(LOST_BYTE, 0);
  }

  lemma SpellsOne(c: Component)
    requires ComponentOk(c)
    ensures Spells([c], Print(c), Value(c))
  {
    hide ComponentOk, Print, Value;
    var all := [c];
    assert all[1..] == [] && AllOk(all);
    assert PrintAll(all) == Print(c) + PrintAll([]) == Print(c) + [] == Print(c);
    assert ValueAll(all) == Value(c) + ValueAll(all[1..]);
  }

  lemma ZeroWhole()
    ensures DecimalValue(LOST_COMPONENT.whole) == 0
  {
    assert LOST_COMPONENT.whole[..0] == [];
  }

  lemma WorthOne()
    ensures MulDiv(87, 0x1000_0000_0000_0000, Pow10(20)) == 1
  {
    hide Pow10;
    Pow10Values();
    DivIs(87 * 0x1000_0000_0000_0000, Pow10(20), 1, 87 * 0x1000_0000_0000_0000 - Pow10(20));
  }
}
