/**
 The remote-write 2.0 symbol table: every distinct label string is written once and
 series refer to it by position (`src/remote_write.rs:463-523`, Remote-Write 2.0
 specification, section "Symbols").
 */
module SymbolTable {
  import opened Basics
  import opened Model

  /** Symbols in interning order, and where each non-empty one is. */
  datatype Interner = Interner(symbols: seq<Text>, index: map<Text, u32>)

  const EMPTY_INTERNER := Interner([[]], map[])

  /** `intern`: the empty string is symbol 0, a known string keeps its reference, a new one
      is appended. */
  function Intern(table: Interner, text: Text): (Interner, u32) {
    if text == [] then (table, 0)
    else if text in table.index then (table, table.index[text])
    else
      var reference := if |table.symbols| < TWO_32 then |table.symbols| else 0;
      (Interner(table.symbols + [text], table.index[text := reference]), reference)
  }

  /** Interning `texts` in order, with no memory but the table: the plain interner. */
  function InternAll(texts: seq<Text>): (r: (Interner, seq<u32>))
    ensures |r.1| == |texts|
  {
    if texts == [] then (EMPTY_INTERNER, [])
    else
      var (table, refs) := InternAll(texts[..|texts| - 1]);
      var (next, reference) := Intern(table, texts[|texts| - 1]);
      (next, refs + [reference])
  }

  /** Name and value strings of `labels`, alternating. */
  function Texts(labels: seq<Label>): (texts: seq<Text>)
    ensures |texts| == 2 * |labels|
    ensures forall i | 0 <= i < |labels| :: texts[2 * i] == labels[i].name && texts[2 * i + 1] == labels[i].value
  {
    if labels == [] then [] else [labels[0].name, labels[0].value] + Texts(labels[1..])
  }

  /** All strings of a batch, in the order the encoder meets them. */
  function BatchTexts(batch: seq<TimeSeries>): seq<Text> {
    if batch == [] then [] else Texts(batch[0].labels) + BatchTexts(batch[1..])
  }

  lemma {:induction false} TextsSnoc(labels: seq<Label>, pair: Label)
    ensures Texts(labels + [pair]) == Texts(labels) + [pair.name, pair.value]
  {
    if labels == [] {
      assert labels + [pair] == [pair];
      assert [pair][1..] == [];
    } else {
      TextsSnoc(labels[1..], pair);
      assert (labels + [pair])[1..] == labels[1..] + [pair];
    }
  }

  lemma {:induction false} BatchTextsSnoc(batch: seq<TimeSeries>, series: TimeSeries)
    ensures BatchTexts(batch + [series]) == BatchTexts(batch) + Texts(series.labels)
  {
    hide Texts;
    if batch == [] {
      assert batch + [series] == [series];
      assert [series][1..] == [];
    } else {
      BatchTextsSnoc(batch[1..], series);
      assert (batch + [series])[1..] == batch[1..] + [series];
      var first, rest := Texts(batch[0].labels), BatchTexts(batch[1..]);
      assert (first + rest) + Texts(series.labels) == first + (rest + Texts(series.labels));
    }
  }

  lemma InternSnoc(texts: seq<Text>, text: Text)
    ensures InternAll(texts + [text]) ==
      var (table, refs) := InternAll(texts);
      (Intern(table, text).0, refs + [Intern(table, text).1])
  {
    assert (texts + [text])[..|texts|] == texts;
  }

  /** Where interning the texts before position `p` and all of `texts` puts the same string. */
  ghost predicate Remembers(texts: seq<Text>, p: nat)
    requires p < |texts|
  {
    var (table, refs) := InternAll(texts);
    if texts[p] == [] then refs[p] == 0 else texts[p] in table.index && table.index[texts[p]] == refs[p]
  }

  lemma {:induction false} InternRemembers(texts: seq<Text>)
    ensures forall p | 0 <= p < |texts| :: Remembers(texts, p)
  {
    if texts != [] {
      var init := texts[..|texts| - 1];
      InternRemembers(init);
      forall p | 0 <= p < |texts|
        ensures Remembers(texts, p)
      {
        assert p < |init| ==> Remembers(init, p);
      }
    }
  }

  /** Reusing the reference of an earlier equal string is what the plain interner does:
      it only fires for strings already interned, so it cannot change interning order. */
  lemma ReuseIsPlain(texts: seq<Text>, p: nat, text: Text)
    requires p < |texts| && texts[p] == text
    ensures Intern(InternAll(texts).0, text) == (InternAll(texts).0, InternAll(texts).1[p])
  {
    InternRemembers(texts);
    assert Remembers(texts, p);
  }

  // ----- what the table means

  predicate Distinct(symbols: seq<Text>) {
    forall i, j | 0 <= i < j < |symbols| :: symbols[i] != symbols[j]
  }

  /** A table whose references are positions: symbol 0 is empty, no symbol repeats, and the
      index knows exactly the other symbols, each at its place. */
  ghost predicate Sound(table: Interner) {
    && table.symbols != [] && table.symbols[0] == []
    && Distinct(table.symbols)
    && (forall i | 1 <= i < |table.symbols| :: table.symbols[i] in table.index && table.index[table.symbols[i]] == i)
    && (forall t | t in table.index :: 1 <= table.index[t] < |table.symbols| && table.symbols[table.index[t]] == t)
  }

  lemma InternSound(table: Interner, text: Text)
    requires Sound(table) && |Intern(table, text).0.symbols| <= TWO_32
    ensures Sound(Intern(table, text).0)
    ensures Intern(table, text).1 < |Intern(table, text).0.symbols|
    ensures Intern(table, text).0.symbols[Intern(table, text).1] == text
  {
  }

  lemma {:induction false} InternGrows(texts: seq<Text>, n: nat)
    requires n <= |texts|
    ensures InternAll(texts[..n]).0.symbols <= InternAll(texts).0.symbols
    ensures InternAll(texts[..n]).1 <= InternAll(texts).1
  {
    if n == |texts| {
      assert texts[..n] == texts;
    } else {
      var init := texts[..|texts| - 1];
      InternGrows(init, n);
      assert init[..n] == texts[..n];
    }
  }

  /** References resolve to the strings they stand for. */
  ghost predicate Resolves(symbols: seq<Text>, refs: seq<u32>, texts: seq<Text>) {
    && |refs| == |texts|
    && forall p | 0 <= p < |texts| :: refs[p] < |symbols| && symbols[refs[p]] == texts[p]
  }

  /** Up to 2^32 symbols: the table is sound and every reference resolves. */
  lemma {:induction false} InternAllSound(texts: seq<Text>)
    requires |InternAll(texts).0.symbols| <= TWO_32
    ensures Sound(InternAll(texts).0)
    ensures Resolves(InternAll(texts).0.symbols, InternAll(texts).1, texts)
  {
    if texts != [] {
      var init := texts[..|texts| - 1];
      InternGrows(texts, |init|);
      InternAllSound(init);
      InternSound(InternAll(init).0, texts[|init|]);
    }
  }

  /** The symbol after the 2^32-nd has no reference left and gets that of the empty string. */
  lemma {:induction false} LostReference(texts: seq<Text>) returns (p: nat)
    requires |InternAll(texts).0.symbols| > TWO_32
    ensures p < |texts| && texts[p] != [] && InternAll(texts).1[p] == 0
  {
    var init := texts[..|texts| - 1];
    if |InternAll(init).0.symbols| > TWO_32 {
      p := LostReference(init);
    } else {
      p := |init|;
    }
  }

  /** Every reference resolves to its string exactly when the table has at most 2^32 symbols. */
  lemma ResolvesExactly(texts: seq<Text>)
    ensures Resolves(InternAll(texts).0.symbols, InternAll(texts).1, texts)
      <==> |InternAll(texts).0.symbols| <= TWO_32
  {
    hide InternAll;
    if |InternAll(texts).0.symbols| <= TWO_32 {
      InternAllSound(texts);
    } else {
      var p := LostReference(texts);
      EmptyIsFirst(texts);
    }
  }

  lemma EmptyIsFirst(texts: seq<Text>)
    ensures InternAll(texts).0.symbols != [] && InternAll(texts).0.symbols[0] == []
  {
    InternGrows(texts, 0);
  }
}
