/** Prometheus durations such as `1h30m` (`src/config.rs:829-923`). */
module Durations {
  import opened Basics
  import opened Ascii
  import opened Decimals

  datatype DurationError = Empty | InvalidFormat | UnknownUnit | UnitOrder | NumberOverflow

  const UNIT_COUNT := 7

  /** `y`, `w`, `d`, `h`, `m`, `s` and `ms`, in descending order. */
  function UnitName(u: nat): (name: Text)
    requires u < UNIT_COUNT
    ensures name != []
  {
    [[121], [119], [100], [104], [109], [115], [109, 115]][u]
  }

  /** A unit's length in milliseconds. */
  function UnitMs(u: nat): (ms: nat)
    requires u < UNIT_COUNT
    ensures ms > 0
  {
    [31_536_000_000, 604_800_000, 86_400_000, 3_600_000, 60_000, 1_000, 1][u]
  }

  const ZERO: Text := [DIGIT_ZERO]

  /** The longest of the first `n` units that `s` starts with. */
  function LongestUnit(s: Text, n: nat): (best: Option<nat>)
    requires n <= UNIT_COUNT
    ensures best.Some? ==> best.value < n && UnitName(best.value) <= s
  {
    if n == 0 then None
    else
      var before := LongestUnit(s, n - 1);
      if UnitName(n - 1) <= s && (before.None? || |UnitName(n - 1)| >= |UnitName(before.value)|) then Some(n - 1)
      else before
  }

  /** The groups in `s`, after unit `last` (-1 at first) and `total` milliseconds. */
  function ParseGroups(s: Text, last: int, total: nat): Result<nat, DurationError>
    decreases |s|
  {
    if s == [] then Ok(total)
    else
      var n := LeadingDigits(s);
      if n == 0 then Err(InvalidFormat)
      else if DecimalValue(s[..n]) >= TWO_64 then Err(NumberOverflow)
      else
        match LongestUnit(s[n..], UNIT_COUNT)
        case None => Err(UnknownUnit)
        case Some(u) =>
          if u <= last then Err(UnitOrder)
          else ParseGroups(s[n..][|UnitName(u)|..], u, total + DecimalValue(s[..n]) * UnitMs(u))
  }

  function ParseDuration(input: Text): Result<u64, DurationError> {
    if input == [] then Err(Empty)
    else if input == ZERO then Ok(0)
    else
      match ParseGroups(input, -1, 0)
      case Err(error) => Err(error)
      case Ok(total) => if total < TWO_64 then Ok(total) else Err(NumberOverflow)
  }

  // ----- the loop

  const TWO_128 := TWO_64 * TWO_64

  /** Upper bound of what the units before `n` can add up to. */
  function Capacity(n: nat): nat
    requires n <= UNIT_COUNT
  {
    if n == 0 then 0 else Capacity(n - 1) + TWO_64 * UnitMs(n - 1)
  }

  lemma CapacityGrows(a: nat, b: nat)
    requires a <= b <= UNIT_COUNT
    ensures Capacity(a) <= Capacity(b)
    decreases b
  {
    if a < b {
      CapacityGrows(a, b - 1);
    }
  }

  lemma CapacityFits()
    ensures Capacity(UNIT_COUNT) < TWO_128
  {
    assert Capacity(1) == TWO_64 * 31_536_000_000;
    assert Capacity(2) == Capacity(1) + TWO_64 * 604_800_000;
    assert Capacity(3) == Capacity(2) + TWO_64 * 86_400_000;
    assert Capacity(4) == Capacity(3) + TWO_64 * 3_600_000;
    assert Capacity(5) == Capacity(4) + TWO_64 * 60_000;
    assert Capacity(6) == Capacity(5) + TWO_64 * 1_000;
    assert Capacity(7) == Capacity(6) + TWO_64;
  }

  lemma ContributionFits(number: u64, u: nat, last: int, total: nat)
    requires -1 <= last < u < UNIT_COUNT && total <= Capacity(last + 1)
    ensures total + number * UnitMs(u) <= Capacity(u + 1) < TWO_128
  {
    CapacityGrows(last + 1, u);
    CapacityGrows(u + 1, UNIT_COUNT);
    CapacityFits();
    MulMonotone(number, TWO_64, UnitMs(u));
  }

  /** One group of the recursion. */
  lemma OneGroup(s: Text, last: int, total: nat)
    requires s != []
    ensures
      var n := LeadingDigits(s);
      var found := LongestUnit(s[n..], UNIT_COUNT);
      ParseGroups(s, last, total) ==
        if n == 0 then Err(InvalidFormat)
        else if DecimalValue(s[..n]) >= TWO_64 then Err(NumberOverflow)
        else if found.None? then Err(UnknownUnit)
        else if found.value <= last then Err(UnitOrder)
        else ParseGroups(
          s[n..][|UnitName(found.value)|..], found.value, total + DecimalValue(s[..n]) * UnitMs(found.value))
  {
    hide DecimalValue, LongestUnit, UnitName, UnitMs, LeadingDigits;
  }

  /** The parser's loop; its 128-bit total never overflows, whatever the input. */
  method Parse(input: Text) returns (r: Result<u64, DurationError>)
    ensures r == ParseDuration(input)
  {
    hide DecimalValue, LongestUnit, Capacity, UnitName, UnitMs, ParseGroups, LeadingDigits;
    if input == [] {
      return Err(Empty);
    }
    if input == ZERO {
      return Ok(0);
    }
    var remaining := input;
    var last: Option<nat> := None;
    var totalMs: nat := 0;
    CapacityStart();
    while remaining != []
      invariant last.Some? ==> last.value < UNIT_COUNT
      invariant totalMs <= Capacity(if last.Some? then last.value + 1 else 0)
      invariant ParseGroups(remaining, if last.Some? then last.value else -1, totalMs) == ParseGroups(input, -1, 0)
      decreases |remaining|
    {
      var n := LeadingDigits(remaining);
      OneGroup(remaining, if last.Some? then last.value else -1, totalMs);
      if n == 0 {
        return Err(InvalidFormat);
      }
      var digits, rest := remaining[..n], remaining[n..];
      if DecimalValue(digits) >= TWO_64 {
        return Err(NumberOverflow);
      }
      var number: u64 := DecimalValue(digits);
      var found := LongestUnit(rest, UNIT_COUNT);
      if found.None? {
        return Err(UnknownUnit);
      }
      var u := found.value;
      if last.Some? && u <= last.value {
        return Err(UnitOrder);
      }
      ContributionFits(number, u, if last.Some? then last.value else -1, totalMs);
      assert totalMs + number * UnitMs(u) < TWO_128;
      last := Some(u);
      totalMs := totalMs + number * UnitMs(u);
      remaining := rest[|UnitName(u)|..];
    }
    NothingParses(if last.Some? then last.value else -1, totalMs);
    if totalMs >= TWO_64 {
      return Err(NumberOverflow);
    }
    r := Ok(totalMs);
  }

  lemma CapacityStart()
    ensures Capacity(0) == 0
  {
  }

  // ----- what is accepted

  /** `<number><unit>` */
  datatype Group = Group(digits: Text, unit: nat)

  predicate GroupOk(g: Group) {
    g.digits != [] && IsDigits(g.digits) && DecimalValue(g.digits) < TWO_64 && g.unit < UNIT_COUNT
  }

  /** Each group finer than the one before, the first finer than `last`. */
  predicate Descending(groups: seq<Group>, last: int) {
    groups == []
    || (GroupOk(groups[0]) && groups[0].unit > last && Descending(groups[1..], groups[0].unit))
  }

  function PrintGroup(g: Group): Text
    requires GroupOk(g)
  {
    g.digits + UnitName(g.unit)
  }

  function PrintGroups(groups: seq<Group>, last: int): Text
    requires Descending(groups, last)
  {
    if groups == [] then [] else PrintGroup(groups[0]) + PrintGroups(groups[1..], groups[0].unit)
  }

  function Worth(g: Group): nat
    requires GroupOk(g)
  {
    DecimalValue(g.digits) * UnitMs(g.unit)
  }

  function Milliseconds(groups: seq<Group>, last: int): nat
    requires Descending(groups, last)
  {
    if groups == [] then 0
    else Worth(groups[0]) + Milliseconds(groups[1..], groups[0].unit)
  }

  /** A unit name starts with no digit, and `m` is the only one another starts with. */
  lemma UnitPrefixes(u: nat, rest: Text, i: nat)
    requires u < UNIT_COUNT && i < UNIT_COUNT && (rest == [] || IsDigit(rest[0]))
    ensures UnitName(i) <= UnitName(u) + rest <==> i == u || (i == 4 && u == 6)
    ensures !IsDigit((UnitName(u) + rest)[0])
  {
    var s := UnitName(u) + rest;
    if UnitName(i) <= s {
      assert UnitName(i)[0] == s[0];
      assert i == 6 ==> s[1] == 115;
    }
  }

  lemma LongestUnitOf(u: nat, rest: Text)
    requires u < UNIT_COUNT && (rest == [] || IsDigit(rest[0]))
    ensures LongestUnit(UnitName(u) + rest, UNIT_COUNT) == Some(u)
  {
    LongestUnitUpTo(u, rest, UNIT_COUNT);
  }

  lemma {:induction false} LongestUnitUpTo(u: nat, rest: Text, n: nat)
    requires u < UNIT_COUNT && n <= UNIT_COUNT && (rest == [] || IsDigit(rest[0]))
    ensures LongestUnit(UnitName(u) + rest, n) ==
      if u < n then Some(u) else if u == 6 && n > 4 then Some(4) else None
  {
    if n > 0 {
      LongestUnitUpTo(u, rest, n - 1);
      UnitPrefixes(u, rest, n - 1);
    }
  }

  lemma StartsWithDigit(groups: seq<Group>, last: int)
    requires Descending(groups, last)
    ensures PrintGroups(groups, last) == [] || IsDigit(PrintGroups(groups, last)[0])
  {
    if groups != [] {
      assert groups[0].digits[0] in groups[0].digits;
    }
  }

  lemma GroupText(g: Group, rest: Text)
    requires GroupOk(g)
    ensures
      var s := PrintGroup(g) + rest;
      && s == g.digits + (UnitName(g.unit) + rest)
      && s[..|g.digits|] == g.digits && s[|g.digits|..] == UnitName(g.unit) + rest
      && (UnitName(g.unit) + rest)[|UnitName(g.unit)|..] == rest
  {
    hide DecimalValue, IsDigits, UnitName;
  }

  /** One printed group and what follows it. */
  lemma GroupParses(g: Group, rest: Text, last: int, total: nat)
    requires GroupOk(g) && g.unit > last && (rest == [] || IsDigit(rest[0]))
    ensures ParseGroups(PrintGroup(g) + rest, last, total) == ParseGroups(rest, g.unit, total + Worth(g))
  {
    hide DecimalValue, LongestUnit, LeadingDigits, PrintGroup, UnitName, UnitMs;
    GroupText(g, rest);
    UnitPrefixes(g.unit, rest, g.unit);
    LeadingDigitsOf(g.digits, UnitName(g.unit) + rest);
    LongestUnitOf(g.unit, rest);
  }

  lemma NothingParses(last: int, total: nat)
    ensures ParseGroups([], last, total) == Ok(total)
    ensures Descending([], last) && PrintGroups([], last) == [] && Milliseconds([], last) == 0
  {
  }

  lemma FirstGroup(groups: seq<Group>, last: int)
    requires Descending(groups, last) && groups != []
    ensures GroupOk(groups[0]) && groups[0].unit > last && Descending(groups[1..], groups[0].unit)
    ensures PrintGroups(groups, last) == PrintGroup(groups[0]) + PrintGroups(groups[1..], groups[0].unit)
    ensures Milliseconds(groups, last) == Worth(groups[0]) + Milliseconds(groups[1..], groups[0].unit)
  {
  }

  lemma {:induction false} PrintedParses(groups: seq<Group>, last: int, total: nat)
    requires Descending(groups, last)
    ensures ParseGroups(PrintGroups(groups, last), last, total) == Ok(total + Milliseconds(groups, last))
    decreases |groups|
  {
    hide ParseGroups, PrintGroups, Milliseconds, Descending, PrintGroup, GroupOk, Worth;
    if groups == [] {
      NothingParses(last, total);
    } else {
      FirstGroup(groups, last);
      var g, rest := groups[0], groups[1..];
      StartsWithDigit(rest, g.unit);
      GroupParses(g, PrintGroups(rest, g.unit), last, total);
      PrintedParses(rest, g.unit, total + Worth(g));
    }
  }

  /** Whatever parses is a printed list of descending groups, worth what it parses to. */
  lemma {:induction false} ParsedIsPrinted(s: Text, last: int, total: nat) returns (groups: seq<Group>)
    requires ParseGroups(s, last, total).Ok?
    ensures Descending(groups, last) && PrintGroups(groups, last) == s
    ensures ParseGroups(s, last, total).value == total + Milliseconds(groups, last)
    ensures s != [] ==> groups != []
    decreases |s|
  {
    hide DecimalValue, LongestUnit, LeadingDigits, UnitName, UnitMs;
    if s == [] {
      groups := [];
    } else {
      var n := LeadingDigits(s);
      var u := LongestUnit(s[n..], UNIT_COUNT).value;
      var name := UnitName(u);
      var g, rest := Group(s[..n], u), s[n..][|name|..];
      var more := ParsedIsPrinted(rest, u, total + DecimalValue(s[..n]) * UnitMs(u));
      groups := [g] + more;
      assert groups[1..] == more;
      assert s == s[..n] + s[n..] && s[n..] == name + rest;
    }
  }

  ghost predicate Spells(groups: seq<Group>, input: Text, ms: nat) {
    groups != [] && Descending(groups, -1) && PrintGroups(groups, -1) == input && Milliseconds(groups, -1) == ms
  }

  /** Durations are accepted exactly for `0` and for descending `<number><unit>` groups whose
      sum fits, and are worth that sum. */
  lemma AcceptedExactly(input: Text, ms: u64)
    ensures ParseDuration(input) == Ok(ms) <==>
      (input == ZERO && ms == 0) || exists groups :: Spells(groups, input, ms)
  {
    hide ParseGroups, UnitName, UnitMs;
    if ParseDuration(input) == Ok(ms) && input != ZERO {
      var groups := ParsedIsPrinted(input, -1, 0);
      assert Spells(groups, input, ms);
    }
    if groups :| Spells(groups, input, ms) {
      PrintedParses(groups, -1, 0);
      assert |PrintGroup(groups[0])| >= 2;
    }
  }

  /** Well-formed groups whose sum does not fit are reported as an overflow. */
  lemma TooLong(groups: seq<Group>)
    requires groups != [] && Descending(groups, -1) && Milliseconds(groups, -1) >= TWO_64
    ensures ParseDuration(PrintGroups(groups, -1)) == Err(NumberOverflow)
  {
    hide ParseGroups, UnitName, UnitMs;
    PrintedParses(groups, -1, 0);
    assert |PrintGroup(groups[0])| >= 2;
  }

  // ----- canonical printing

  /** `ms` in units from `u` on, each as often as it goes, left out when it does not. */
  function Canonical(ms: nat, u: nat): seq<Group>
    requires u <= UNIT_COUNT
    decreases UNIT_COUNT - u
  {
    if u == UNIT_COUNT then []
    else
      var rest := Canonical(ms % UnitMs(u), u + 1);
      if ms / UnitMs(u) == 0 then rest else [Group(Decimal(ms / UnitMs(u)), u)] + rest
  }

  function PrintDuration(ms: u64): Text {
    CanonicalDescends(ms, 0, -1);
    if ms == 0 then ZERO else PrintGroups(Canonical(ms, 0), -1)
  }

  lemma {:induction false} CanonicalDescends(ms: nat, u: nat, last: int)
    requires u <= UNIT_COUNT && last < u && ms < TWO_64
    ensures Descending(Canonical(ms, u), last)
    ensures u < UNIT_COUNT ==> Milliseconds(Canonical(ms, u), last) == ms
    ensures u == UNIT_COUNT ==> Canonical(ms, u) == []
    ensures u < UNIT_COUNT && ms > 0 ==> Canonical(ms, u) != []
    decreases UNIT_COUNT - u
  {
    if u < UNIT_COUNT {
      var unit := UnitMs(u);
      var q, r := ms / unit, ms % unit;
      assert ms == q * unit + r && q <= ms;
      if q == 0 {
        CanonicalDescends(r, u + 1, last);
      } else {
        CanonicalDescends(r, u + 1, u);
        DecimalRoundTrip(q);
        var g := Group(Decimal(q), u);
        assert Canonical(ms, u)[0] == g && Canonical(ms, u)[1..] == Canonical(r, u + 1);
      }
    }
  }

  /** Every 64-bit number of milliseconds, printed canonically, reads back as itself. */
  lemma DurationRoundTrip(ms: u64)
    ensures ParseDuration(PrintDuration(ms)) == Ok(ms)
  {
    if ms > 0 {
      CanonicalDescends(ms, 0, -1);
      assert Spells(Canonical(ms, 0), PrintDuration(ms), ms);
      AcceptedExactly(PrintDuration(ms), ms);
    }
  }
}
