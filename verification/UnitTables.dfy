/**
 What every unit of a size and of a duration is worth, and that white space around a size does not
 matter (`src/config.rs:688-711`, `src/config.rs:850-870`).
 */
module UnitTables {
  import opened Basics
  import opened Names
  import opened Decimals
  import Sizes
  import SizeTheorems
  import Durations

  // ----- sizes

  /** `B`, and the six prefixes with `B` or `iB`: powers of 1024, and no other unit. */
  lemma SizeUnits(name: Text)
    ensures Sizes.UnitBytes(name) ==
      if name == Bytes("B") then Some(1)
      else if name == Bytes("KB") || name == Bytes("KiB") then Some(1024)
      else if name == Bytes("MB") || name == Bytes("MiB") then Some(1024 * 1024)
      else if name == Bytes("GB") || name == Bytes("GiB") then Some(1024 * 1024 * 1024)
      else if name == Bytes("TB") || name == Bytes("TiB") then Some(1024 * 1024 * 1024 * 1024)
      else if name == Bytes("PB") || name == Bytes("PiB") then Some(1024 * 1024 * 1024 * 1024 * 1024)
      else if name == Bytes("EB") || name == Bytes("EiB") then Some(1024 * 1024 * 1024 * 1024 * 1024 * 1024)
      else None
  {
    if |name| == 3 {
      assert name[1..] == [name[1], name[2]];
    }
  }

  lemma {:induction false} UnitsAreLetters(unit: Text)
    requires forall i | 0 <= i < |unit| :: Letter(unit[i])
    ensures Sizes.UnitRun(unit) == |unit|
  {
    Sizes.UnitRunAll(unit);
  }

  /** A whole number of a unit is worth that many times the unit, when that fits. */
  lemma WholeSize(n: nat, unit: Text, bytes: nat)
    requires Sizes.UnitBytes(unit) == Some(bytes) && n * bytes < TWO_64
    ensures Sizes.ParseTrimmed(Decimal(n) + unit) == Ok(n * bytes)
  {
    hide Decimal, DecimalValue, Sizes.UnitBytes, Sizes.ParseTrimmed, Sizes.UnitRun, Sizes.FractionBytes, IsDigits;
    UnitLetters(unit);
    UnitsAreLetters(unit);
    var c := Sizes.Component(Decimal(n), false, [], unit);
    NoDigitsAreDigits();
    assert Sizes.ComponentOk(c);
    DecimalRoundTrip(n);
    SizeTheorems.NoFraction(bytes);
    assert Sizes.Value(c) == n * bytes;
    PrintedWhole(c);
    SizeTheorems.SpellsOne(c);
    SizeTheorems.AcceptedExactly(Decimal(n) + unit, n * bytes);
  }

  lemma NoDigitsAreDigits()
    ensures IsDigits([])
  {
  }

  lemma PrintedWhole(c: Sizes.Component)
    requires !c.point
    ensures Sizes.Print(c) == c.whole + c.unit
  {
    assert Sizes.PrintFraction(c) + c.unit == c.unit;
  }

  lemma UnitLetters(unit: Text)
    requires Sizes.UnitBytes(unit).Some?
    ensures forall i | 0 <= i < |unit| :: Letter(unit[i])
  {
    if |unit| == 3 {
      assert unit[1..][0] == unit[1] && unit[1..][1] == unit[2];
    }
  }

  // ----- white space

  /** Spaces, tabs and ends of lines. */
  predicate White(text: Text) {
    forall i | 0 <= i < |text| ::
      text[i] == ' ' as int || text[i] == '\t' as int || text[i] == '\n' as int || text[i] == '\r' as int
  }

  /** A visible ASCII byte. */
  predicate Visible(b: byte) {
    '!' as int <= b <= '~' as int
  }

  lemma VisibleIsNotWhite(s: Text)
    requires s != [] && (Visible(s[0]) || Visible(s[|s| - 1]))
    ensures !Sizes.IsWhiteSpace(s)
  {
  }

  lemma WhiteByte(b: byte)
    requires White([b])
    ensures Sizes.IsWhiteSpace([b])
  {
    assert [b][0] == b;
    assert Sizes.WHITE_SPACE[0] == [9] && Sizes.WHITE_SPACE[1] == [10] && Sizes.WHITE_SPACE[4] == [13]
      && Sizes.WHITE_SPACE[5] == [32];
  }

  lemma NothingAtStart(s: Text)
    requires s != [] && Visible(s[0])
    ensures Sizes.WhiteStart(s) == 0
  {
    hide Sizes.IsWhiteSpace, Visible;
    VisibleIsNotWhite(s[..1]);
    if |s| >= 2 {
      VisibleIsNotWhite(s[..2]);
    }
    if |s| >= 3 {
      VisibleIsNotWhite(s[..3]);
    }
  }

  lemma NoWhiteEnd(s: Text, k: nat)
    requires 0 < k <= |s| && Visible(s[|s| - 1])
    ensures !Sizes.IsWhiteSpace(Sizes.LastBytes(s, k))
  {
    hide Sizes.IsWhiteSpace, Visible;
    VisibleIsNotWhite(s[|s| - k..]);
  }

  lemma NothingAtEnd(s: Text)
    requires s != [] && Visible(s[|s| - 1])
    ensures Sizes.WhiteEnd(s) == 0
  {
    hide Sizes.IsWhiteSpace, Sizes.LastBytes, Visible;
    NoWhiteEnd(s, 1);
    if |s| >= 2 {
      NoWhiteEnd(s, 2);
    }
    if |s| >= 3 {
      NoWhiteEnd(s, 3);
    }
  }

  lemma OneAtStart(b: byte, s: Text)
    requires White([b])
    ensures Sizes.TrimStart([b] + s) == Sizes.TrimStart(s)
  {
    hide Sizes.IsWhiteSpace, White;
    WhiteByte(b);
    var all := [b] + s;
    assert all[..1] == [b] && all[1..] == s;
    assert Sizes.WhiteStart(all) == 1;
    hide Sizes.WhiteStart;
  }

  lemma OneAtEnd(s: Text, b: byte)
    requires White([b])
    ensures Sizes.TrimEnd(s + [b]) == Sizes.TrimEnd(s)
  {
    hide Sizes.IsWhiteSpace, White;
    WhiteByte(b);
    var all := s + [b];
    assert all[|all| - 1..] == [b] && all[..|all| - 1] == s;
    assert Sizes.WhiteEnd(all) == 1;
    hide Sizes.WhiteEnd;
  }

  lemma WhiteParts(white: Text)
    requires White(white) && white != []
    ensures White([white[0]]) && White(white[1..]) && white == [white[0]] + white[1..]
    ensures White([white[|white| - 1]]) && White(white[..|white| - 1])
    ensures white == white[..|white| - 1] + [white[|white| - 1]]
  {
  }

  lemma {:induction false} StartTrimmed(white: Text, s: Text)
    requires White(white) && s != [] && Visible(s[0])
    ensures Sizes.TrimStart(white + s) == s
  {
    if white == [] {
      hide Sizes.WhiteStart, White, Visible;
      assert white + s == s;
      NothingAtStart(s);
    } else {
      hide Sizes.TrimStart, White, Visible;
      WhiteParts(white);
      Regroup([white[0]], white[1..], s);
      OneAtStart(white[0], white[1..] + s);
      StartTrimmed(white[1..], s);
    }
  }

  lemma {:induction false} EndTrimmed(s: Text, white: Text)
    requires White(white) && s != [] && Visible(s[|s| - 1])
    ensures Sizes.TrimEnd(s + white) == s
  {
    if white == [] {
      hide Sizes.WhiteEnd, White, Visible;
      assert s + white == s;
      NothingAtEnd(s);
    } else {
      hide Sizes.TrimEnd, White, Visible;
      var init, last := white[..|white| - 1], white[|white| - 1];
      WhiteParts(white);
      Regroup(s, init, [last]);
      OneAtEnd(s + init, last);
      EndTrimmed(s, init);
    }
  }

  /** White space around a size does not matter. */
  lemma WhiteSpaceAround(before: Text, s: Text, after: Text)
    requires White(before) && White(after) && s != [] && Visible(s[0]) && Visible(s[|s| - 1])
    ensures Sizes.ParseSize(before + (s + after)) == Sizes.ParseTrimmed(s)
  {
    hide Sizes.TrimStart, Sizes.TrimEnd, Sizes.ParseTrimmed, White, Visible;
    assert (s + after)[0] == s[0];
    StartTrimmed(before, s + after);
    EndTrimmed(s, after);
  }

  // ----- durations

  /** Years of 365 days, weeks, days, hours, minutes, seconds and milliseconds, from long to short. */
  lemma DurationUnits()
    ensures Durations.UnitName(0) == Bytes("y") && Durations.UnitMs(0) == 365 * 24 * 60 * 60 * 1000
    ensures Durations.UnitName(1) == Bytes("w") && Durations.UnitMs(1) == 7 * 24 * 60 * 60 * 1000
    ensures Durations.UnitName(2) == Bytes("d") && Durations.UnitMs(2) == 24 * 60 * 60 * 1000
    ensures Durations.UnitName(3) == Bytes("h") && Durations.UnitMs(3) == 60 * 60 * 1000
    ensures Durations.UnitName(4) == Bytes("m") && Durations.UnitMs(4) == 60 * 1000
    ensures Durations.UnitName(5) == Bytes("s") && Durations.UnitMs(5) == 1000
    ensures Durations.UnitName(6) == Bytes("ms") && Durations.UnitMs(6) == 1
  {
  }

  /** A number of a unit is worth that many times the unit, when that fits. */
  lemma WholeDuration(n: nat, u: nat)
    requires u < Durations.UNIT_COUNT && n * Durations.UnitMs(u) < TWO_64
    ensures Durations.ParseDuration(Decimal(n) + Durations.UnitName(u)) == Ok(n * Durations.UnitMs(u))
  {
    hide Decimal, DecimalValue, Durations.UnitName, Durations.UnitMs, Durations.ParseDuration, IsDigits;
    DecimalRoundTrip(n);
    MulMonotone(1, Durations.UnitMs(u), n);
    var g := Durations.Group(Decimal(n), u);
    var groups := [g];
    assert groups[1..] == [];
    assert Durations.Descending(groups, -1);
    assert Durations.PrintGroups(groups, -1) == Durations.PrintGroup(g) + [] == Decimal(n) + Durations.UnitName(u);
    assert Durations.Milliseconds(groups, -1) == Durations.Worth(g) + Durations.Milliseconds([], u);
    assert Durations.Spells(groups, Decimal(n) + Durations.UnitName(u), n * Durations.UnitMs(u));
    Durations.AcceptedExactly(Decimal(n) + Durations.UnitName(u), n * Durations.UnitMs(u));
  }
}
