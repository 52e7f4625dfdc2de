/**
 Worked examples: the behaviour on a few small corpora, derived from the
 model's definitions.
 */
module Scenarios {
  import opened Tokenizer
  import opened Normalizer
  import opened Words
  import opened Aggregator
  import opened Ranking
  import opened Histogram
  import opened Report

  /** Leading and trailing whitespace give empty edge tokens, which cleaning drops. */
  lemma EdgeTokens()
    ensures Split(" a ") == ["", "a", ""]
    ensures LineWords(" a ") == ["a"]
  {
    var s := " a ";
    assert TokenLength(s) == 0;
    assert SpaceEnd(s, 1) == 1;
    assert SpaceEnd(s, 0) == 1;
    assert Head(s) == "" && Next(s) == "a ";
    var s1 := "a ";
    assert TokenLength(s1[1..]) == 0;
    assert TokenLength(s1) == 1;
    assert SpaceEnd(s1, 2) == 2;
    assert SpaceEnd(s1, 1) == 2;
    assert Head(s1) == "a" && Next(s1) == "";
    assert Split(s1) == ["a", ""];
    assert Normalize("a") == "a" by { NormalizeChar('a'); }
    assert Normalize("") == "";
  }

  /** A raw token of three characters normalizes character by character. */
  lemma Normalize3(a: char, b: char, c: char)
    ensures Normalize([a, b, c]) == Normalize([a]) + Normalize([b]) + Normalize([c])
  {
    var ab := [a] + [b];
    NormalizeAppend([a], [b]);
    NormalizeAppend(ab, [c]);
    assert ab + [c] == [a, b, c];
  }

  /** Punctuation inside a token is deleted. */
  lemma PunctuationDeleted()
    ensures Normalize("a-b") == "ab"
  {
    Normalize3('a', '-', 'b');
    NormalizeChar('a');
    NormalizeChar('-');
    NormalizeChar('b');
  }

  /** `_` is a word character: a lowercase token with an underscore is already a word. */
  lemma UnderscoreKept()
    ensures Normalize("c_d") == "c_d"
  {
    Normalize3('c', '_', 'd');
    NormalizeChar('c');
    NormalizeChar('_');
    NormalizeChar('d');
  }

  /** Capitals are lowered and trailing punctuation deleted. */
  lemma CapitalLowered()
    ensures Normalize("Hi!") == "hi"
  {
    Normalize3('H', 'i', '!');
    NormalizeChar('H');
    NormalizeChar('i');
    NormalizeChar('!');
  }

  /** A cleaned word holds no whitespace. */
  lemma WordNoSpace(w: string)
    requires IsWord(w)
    ensures w != [] && NoSpace(w)
  {
  }

  /**
   A one-line corpus "z x y x" of three distinct words, with y before z in
   word order: x is counted twice and ranks first, y and z once each, in
   word order; the distribution holds one word seen twice and two words seen
   once.
   */
  lemma SmallCorpus(x: string, y: string, z: string)
    requires IsWord(x) && IsWord(y) && IsWord(z)
    requires x != y && x != z && y != z && WordBefore(y, z)
    ensures WordCount([JoinBlank([z, x, y, x])]) == Summary(3, 4,
      [Row(x, 2), Row(y, 1), Row(z, 1)],
      [Row(2, 1), Row(1, 2)])
  {
    var ws := [z, x, y, x];
    var lines := [JoinBlank(ws)];
    var t := map[x := 2, y := 1, z := 1];
    var r := [Row(x, 2), Row(y, 1), Row(z, 1)];
    SmallCorpusTable(x, y, z);
    SmallRank(x, y, z);
    SmallDistribution(x, y, z);
    SmallSizes(x, y, z);
    ShortReport(lines, t, r, [Row(2, 1), Row(1, 2)]);
  }

  lemma SmallCorpusTable(x: string, y: string, z: string)
    requires IsWord(x) && IsWord(y) && IsWord(z)
    requires x != y && x != z && y != z
    ensures CorpusTable([JoinBlank([z, x, y, x])]) == map[x := 2, y := 1, z := 1]
  {
    SmallWords(x, y, z);
    SmallTable(x, y, z);
  }

  lemma SmallSizes(x: string, y: string, z: string)
    requires x != y && x != z && y != z
    ensures |map[x := 2, y := 1, z := 1]| == 3
    ensures TotalCount([Row(x, 2), Row(y, 1), Row(z, 1)]) == 4
  {
    assert |map[x := 2, y := 1]| == 2;
    var r := [Row(x, 2), Row(y, 1), Row(z, 1)];
    assert r[1..] == [Row(y, 1), Row(z, 1)];
    assert r[1..][1..] == [Row(z, 1)];
    assert r[1..][1..][1..] == [];
    assert TotalCount(r[1..][1..]) == 1;
    assert TotalCount(r[1..]) == 2;
  }

  lemma SmallWords(x: string, y: string, z: string)
    requires IsWord(x) && IsWord(y) && IsWord(z)
    ensures CorpusWords([JoinBlank([z, x, y, x])]) == [z, x, y, x]
  {
    var ws := [z, x, y, x];
    var line := JoinBlank(ws);
    WordNoSpace(x);
    WordNoSpace(y);
    WordNoSpace(z);
    SplitJoinBlank(ws);
    CleanWords(ws);
    assert [line][1..] == [];
  }

  lemma SmallTable(x: string, y: string, z: string)
    requires x != y && x != z && y != z
    ensures Count([z, x, y, x]) == map[x := 2, y := 1, z := 1]
  {
    assert [] + [z] == [z] && [z] + [x] == [z, x] && [z, x] + [y] == [z, x, y] && [z, x, y] + [x] == [z, x, y, x];
    CountSnoc([], z);
    CountSnoc([z], x);
    CountSnoc([z, x], y);
    CountSnoc([z, x, y], x);
    IncSteps(x, y, z);
  }

  lemma IncSteps(x: string, y: string, z: string)
    requires x != y && x != z && y != z
    ensures Inc(Inc(Inc(Inc(map[], z), x), y), x) == map[x := 2, y := 1, z := 1]
  {
  }

  lemma SmallRank(x: string, y: string, z: string)
    requires x != y && x != z && y != z && WordBefore(y, z)
    ensures Rank(map[x := 2, y := 1, z := 1]) == [Row(x, 2), Row(y, 1), Row(z, 1)]
  {
    var t := map[x := 2, y := 1, z := 1];
    var r := [Row(x, 2), Row(y, 1), Row(z, 1)];
    assert Ranked(r);
    assert Lists(r, t) by {
      assert forall w :: w in t ==> w == x || w == y || w == z;
      assert r[0].key == x && r[1].key == y && r[2].key == z;
    }
    RankUnique(t, r);
  }

  lemma SmallDistribution(x: string, y: string, z: string)
    ensures Group([Row(x, 2), Row(y, 1), Row(z, 1)]) == [Row(2, 1), Row(1, 2)]
  {
    var r := [Row(x, 2), Row(y, 1), Row(z, 1)];
    assert r[2..][1..] == [];
    assert r[1..][1..] == r[2..];
  }
}
