/**
 Anchored relabeling patterns (`src/relabel.rs:58-127`): a denotation for the pattern
 classes with a fast path, and what the regex engine is trusted to do for them.
 */
module Patterns {
  import opened Basics
  import opened Names
  import opened Ascii

  /** Characters with a meaning in a pattern: `. ^ $ * + ? ( ) [ ] { } | \`. */
  const REGEX_META: set<byte> := {46, 94, 36, 42, 43, 63, 40, 41, 91, 93, 123, 125, 124, 92}

  /** `(.*)` */
  const CAPTURE_ALL: Text := [OPEN_PAREN, DOT, STAR, CLOSE_PAREN]

  predicate HasMeta(pattern: Text) {
    exists b | b in pattern :: b in REGEX_META
  }

  // ----- denotation

  datatype Re = Empty | Byte(b: byte) | AnyByte | Cat(first: Re, second: Re) | Repeat(body: Re) | Group(inner: Re)

  /** Strings a regular expression matches from end to end; `.` does not match a line feed. */
  ghost predicate Matches(re: Re, s: Text)
    decreases re, |s|
  {
    match re
    case Empty => s == []
    case Byte(b) => s == [b]
    case AnyByte => |s| == 1 && s[0] != LINE_FEED
    case Cat(first, second) => exists k | 0 <= k <= |s| :: Matches(first, s[..k]) && Matches(second, s[k..])
    case Repeat(body) => s == [] || exists k | 0 < k <= |s| :: Matches(body, s[..k]) && Matches(Repeat(body), s[k..])
    case Group(inner) => Matches(inner, s)
  }

  function Literal(text: Text): Re {
    if text == [] then Empty else Cat(Byte(text[0]), Literal(text[1..]))
  }

  const ANY := Repeat(AnyByte)

  /** `classify`. */
  datatype PatternKind = LiteralKind | LiteralPrefixKind(prefix: Text) | GeneralKind

  predicate EndsWithDotStar(pattern: Text) {
    |pattern| >= 2 && pattern[|pattern| - 2] == DOT && pattern[|pattern| - 1] == STAR
  }

  function Classify(pattern: Text): PatternKind {
    if !HasMeta(pattern) then LiteralKind
    else if EndsWithDotStar(pattern) && !HasMeta(pattern[..|pattern| - 2]) then
      LiteralPrefixKind(pattern[..|pattern| - 2])
    else GeneralKind
  }

  /** No character with a meaning in a pattern. */
  predicate Plain(text: Text) {
    forall i | 0 <= i < |text| :: text[i] !in Bytes(".^$*+?()[]{}|\\")
  }

  lemma MetaExactly(text: Text)
    ensures HasMeta(text) <==> !Plain(text)
  {
    var meta := Bytes(".^$*+?()[]{}|\\");
    assert meta == [46, 94, 36, 42, 43, 63, 40, 41, 91, 93, 123, 125, 124, 92];
    forall b: byte
      ensures b in REGEX_META <==> b in meta
    {
      MetaByte(b);
    }
    assert forall i | 0 <= i < |text| :: text[i] in text;
  }

  lemma MetaByte(b: byte)
    ensures b in REGEX_META <==> b in [46, 94, 36, 42, 43, 63, 40, 41, 91, 93, 123, 125, 124, 92]
  {
  }

  /** A pattern is a literal when no character of it has a meaning, and a prefix pattern when none has
      before its final `.*`. */
  lemma ClassifyExactly(pattern: Text, prefix: Text)
    ensures Classify(pattern) == LiteralKind <==> Plain(pattern)
    ensures Classify(pattern) == LiteralPrefixKind(prefix) <==> Plain(prefix) && pattern == prefix + Bytes(".*")
  {
    hide HasMeta, Plain;
    MetaExactly(pattern);
    MetaExactly(prefix);
    DotStarIsMeta(prefix);
    if EndsWithDotStar(pattern) {
      MetaExactly(pattern[..|pattern| - 2]);
      assert pattern == pattern[..|pattern| - 2] + Bytes(".*");
    }
    if pattern == prefix + Bytes(".*") {
      assert pattern[..|pattern| - 2] == prefix;
    }
  }

  lemma DotStarIsMeta(prefix: Text)
    ensures HasMeta(prefix + Bytes(".*")) && EndsWithDotStar(prefix + Bytes(".*"))
  {
    var pattern := prefix + Bytes(".*");
    assert pattern[|prefix|] == 46;
  }

  /** What a pattern of a fast-path class denotes; other patterns are left to the engine. */
  function Denotation(pattern: Text): Option<Re> {
    if pattern == CAPTURE_ALL then Some(Group(ANY))
    else
      match Classify(pattern)
      case LiteralKind => Some(Literal(pattern))
      case LiteralPrefixKind(prefix) => Some(Cat(Literal(prefix), ANY))
      case GeneralKind => None
  }

  lemma {:induction false} LiteralMatches(text: Text, s: Text)
    ensures Matches(Literal(text), s) <==> s == text
  {
    if text != [] {
      if s != [] {
        LiteralMatches(text[1..], s[1..]);
        assert s == [s[0]] + s[1..] && text == [text[0]] + text[1..];
        assert s[..1] == [s[0]];
        assert s == text ==> Matches(Byte(text[0]), s[..1]) && Matches(Literal(text[1..]), s[1..]);
      }
      if Matches(Literal(text), s) {
        var k :| 0 <= k <= |s| && Matches(Byte(text[0]), s[..k]) && Matches(Literal(text[1..]), s[k..]);
        assert k == 1 by { assert |s[..k]| == 1; }
      }
    }
  }

  lemma {:induction false} AnyMatches(s: Text)
    ensures Matches(ANY, s) <==> LINE_FEED !in s
    decreases |s|
  {
    if s != [] {
      AnyMatches(s[1..]);
      assert s == [s[0]] + s[1..] && s[..1] == [s[0]];
      if LINE_FEED !in s {
        assert Matches(AnyByte, s[..1]) && Matches(ANY, s[1..]);
      }
      if Matches(ANY, s) {
        var k :| 0 < k <= |s| && Matches(AnyByte, s[..k]) && Matches(ANY, s[k..]);
        assert k == 1 by { assert |s[..k]| == 1; }
      }
    }
  }

  predicate HasPrefix(s: Text, prefix: Text) {
    |prefix| <= |s| && s[..|prefix|] == prefix
  }

  lemma PrefixMatches(prefix: Text, s: Text)
    ensures Matches(Cat(Literal(prefix), ANY), s) <==> HasPrefix(s, prefix) && LINE_FEED !in s[|prefix|..]
  {
    var n := |prefix|;
    if HasPrefix(s, prefix) && LINE_FEED !in s[n..] {
      LiteralMatches(prefix, s[..n]);
      AnyMatches(s[n..]);
    }
    if Matches(Cat(Literal(prefix), ANY), s) {
      var k :| 0 <= k <= |s| && Matches(Literal(prefix), s[..k]) && Matches(ANY, s[k..]);
      LiteralMatches(prefix, s[..k]);
      AnyMatches(s[k..]);
    }
  }

  // ----- the engine

  /** Capture groups of a match; group 0 is the whole match, an unmatched group is absent. */
  datatype Captures = Captures(groups: seq<Option<Text>>, names: map<Text, nat>)

  /** The regex crate: the captures of the anchored pattern on a value, if it matches. */
  type Engine = (Text, Text) -> Option<Captures>

  /** Groups of a match of a fast-path pattern: only `(.*)` has one, which holds the value. */
  function CapturesOf(pattern: Text, value: Text): Captures {
    Captures(if pattern == CAPTURE_ALL then [Some(value), Some(value)] else [Some(value)], map[])
  }

  /** The engine agrees with the denotation wherever there is one. */
  ghost predicate Lawful(engine: Engine) {
    forall pattern, value | Denotation(pattern).Some? ::
      engine(pattern, value) ==
        if Matches(Denotation(pattern).value, value) then Some(CapturesOf(pattern, value)) else None
  }

  /** `AnchoredRegex::matches`. */
  predicate AnchoredMatch(pattern: Text, value: Text, engine: Engine) {
    match Classify(pattern)
    case LiteralKind => value == pattern
    case LiteralPrefixKind(prefix) => HasPrefix(value, prefix) && LINE_FEED !in value[|prefix|..]
    case GeneralKind => engine(pattern, value).Some?
  }

  lemma CaptureAllIsGeneral()
    ensures Classify(CAPTURE_ALL) == GeneralKind
  {
    assert OPEN_PAREN in CAPTURE_ALL;
  }

  /** The fast paths of `matches` agree with anchored matching, line feeds included. */
  lemma AnchoredMatchIsExact(pattern: Text, value: Text, engine: Engine)
    requires Lawful(engine)
    ensures AnchoredMatch(pattern, value, engine) <==> engine(pattern, value).Some?
    ensures Denotation(pattern).Some? ==>
      (AnchoredMatch(pattern, value, engine) <==> Matches(Denotation(pattern).value, value))
  {
    CaptureAllIsGeneral();
    LiteralMatches(pattern, value);
    match Classify(pattern)
    case LiteralKind =>
    case LiteralPrefixKind(prefix) => PrefixMatches(prefix, value);
    case GeneralKind =>
  }
}
