/**
 Aggregator: `groupBy("word").agg(count("*"))` as a frequency table, built
 by folding the word stream into an initially empty map, and the merge of
 partial tables that makes the count independent of how the corpus is
 partitioned.
 */
module Aggregator {
  import opened Words

  /** Word to number of occurrences. */
  type Table = map<string, nat>

  /**
   A row of a `groupBy(key).agg(count("*"))` result: a key and the number
   of rows that have it.
   */
  datatype Row<K> = Row(key: K, count: nat)

  /** The count of `w` in `t`, zero for a word that is not a key. */
  function Get(t: Table, w: string): nat {
    if w in t then t[w] else 0
  }

  /** Record one more occurrence of `w`, starting an unseen word at 1. */
  function Inc(t: Table, w: string): (r: Table)
    ensures r.Keys == t.Keys + {w}
    ensures r[w] == Get(t, w) + 1
    ensures forall v :: v in t && v != w ==> r[v] == t[v]
  {
    t[w := Get(t, w) + 1]
  }

  /**
   The frequency table of a word stream, folding from the left. Its keys are
   exactly the words of the stream, and each key maps to the number of its
   occurrences, so to at least 1.
   */
  function Count(ws: seq<string>): (t: Table)
    ensures forall w :: w in t <==> w in ws
    ensures forall w :: w in t ==> t[w] == multiset(ws)[w] && t[w] >= 1
  {
    if ws == [] then map[]
    else
      var n := |ws| - 1;
      assert ws == ws[..n] + [ws[n]];
      Inc(Count(ws[..n]), ws[n])
  }

  /** Counting one more word is one more increment. */
  lemma CountSnoc(ws: seq<string>, w: string)
    ensures Count(ws + [w]) == Inc(Count(ws), w)
  {
    assert (ws + [w])[..|ws|] == ws;
  }

  /** Incrementing is undone by restoring the old count, or removing a word that was new. */
  lemma IncUndo(t: Table, w: string)
    ensures w in t ==> Inc(t, w)[w := t[w]] == t
    ensures w !in t ==> Inc(t, w) - {w} == t
  {
  }

  /** Pointwise sum of two tables. */
  function Merge(a: Table, b: Table): (r: Table)
    ensures r.Keys == a.Keys + b.Keys
    ensures forall w :: w in r ==> r[w] == Get(a, w) + Get(b, w)
  {
    map w | w in a.Keys + b.Keys :: Get(a, w) + Get(b, w)
  }

  /** The table of the whole corpus. */
  function CorpusTable(lines: seq<string>): Table {
    Count(CorpusWords(lines))
  }

  /** The count of any word, key or not, is its multiplicity in the stream. */
  lemma CountGet(ws: seq<string>, w: string)
    ensures Get(Count(ws), w) == multiset(ws)[w]
  {
  }

  /** The table of two streams one after the other is the merge of their tables. */
  lemma CountAppend(a: seq<string>, b: seq<string>)
    ensures Count(a + b) == Merge(Count(a), Count(b))
  {
    var l, r := Count(a + b), Merge(Count(a), Count(b));
    forall w ensures Get(l, w) == Get(r, w) {
      CountAppendAt(a, b, w);
    }
    TableExtensionality(l, r);
  }

  /** Two tables without zero counts are equal when they agree on every word. */
  lemma TableExtensionality(l: Table, r: Table)
    requires forall w :: w in l ==> l[w] >= 1
    requires forall w :: w in r ==> r[w] >= 1
    requires forall w :: Get(l, w) == Get(r, w)
    ensures l == r
  {
    assert forall w :: w in l <==> Get(l, w) >= 1;
    assert forall w :: w in r <==> Get(r, w) >= 1;
    assert l.Keys == r.Keys;
  }

  lemma CountAppendAt(a: seq<string>, b: seq<string>, w: string)
    ensures Get(Count(a + b), w) == Get(Count(a), w) + Get(Count(b), w)
  {
    CountGet(a + b, w);
    CountGet(a, w);
    CountGet(b, w);
    assert multiset(a + b) == multiset(a) + multiset(b);
  }

  /** The order of the stream does not matter: only its multiset does. */
  lemma CountPermutation(a: seq<string>, b: seq<string>)
    requires multiset(a) == multiset(b)
    ensures Count(a) == Count(b)
  {
    forall w ensures Get(Count(a), w) == Get(Count(b), w) {
      CountGet(a, w);
      CountGet(b, w);
    }
    TableExtensionality(Count(a), Count(b));
  }

  /** The order of the lines does not matter: only their multiset does. */
  lemma CorpusTablePermutation(a: seq<string>, b: seq<string>)
    requires multiset(a) == multiset(b)
    ensures CorpusTable(a) == CorpusTable(b)
  {
    CorpusWordsPermutation(a, b);
    CountPermutation(CorpusWords(a), CorpusWords(b));
  }

  /** Reordering the lines reorders the word stream. */
  lemma {:induction false} CorpusWordsPermutation(a: seq<string>, b: seq<string>)
    requires multiset(a) == multiset(b)
    ensures multiset(CorpusWords(a)) == multiset(CorpusWords(b))
    decreases |a|
  {
    if a == [] {
      assert b == [] by {
        assert |b| == |multiset(b)| == 0;
      }
    } else {
      assert a[0] in multiset(b);
      var i :| 0 <= i < |b| && b[i] == a[0];
      var p, q := b[..i], b[i + 1..];
      DropOne(a, b, i);
      CorpusWordsPermutation(a[1..], p + q);
      Around(b, i);
      WordsStep(a, b, p, q);
    }
  }

  /** The first line of `a`, found between `p` and `q` in `b`, brings the same words. */
  lemma WordsStep(a: seq<string>, b: seq<string>, p: seq<string>, q: seq<string>)
    requires a != [] && b == p + [a[0]] + q
    requires multiset(CorpusWords(a[1..])) == multiset(CorpusWords(p + q))
    ensures multiset(CorpusWords(a)) == multiset(CorpusWords(b))
  {
    CorpusWordsAround(b, p, a[0], q);
    CorpusAppend(p, q);
    assert CorpusWords(a) == LineWords(a[0]) + CorpusWords(a[1..]);
    MultisetMiddle(CorpusWords(p), LineWords(a[0]), CorpusWords(q), CorpusWords(a[1..]));
  }

  /** Taking the first element out of one side and a matching one out of the other. */
  lemma DropOne<T>(a: seq<T>, b: seq<T>, i: nat)
    requires a != [] && i < |b| && b[i] == a[0] && multiset(a) == multiset(b)
    ensures multiset(a[1..]) == multiset(b[..i] + b[i + 1..])
  {
    assert a == [a[0]] + a[1..];
    assert multiset(a) == multiset{a[0]} + multiset(a[1..]);
    Around(b, i);
    assert multiset(b) == multiset(b[..i]) + multiset{b[i]} + multiset(b[i + 1..]);
    assert multiset(b[..i] + b[i + 1..]) == multiset(b[..i]) + multiset(b[i + 1..]);
    assert multiset(a[1..]) == multiset(a) - multiset{a[0]};
    assert multiset(b[..i]) + multiset(b[i + 1..]) == multiset(b) - multiset{b[i]};
  }

  /** The word stream of a corpus around one of its lines. */
  lemma CorpusWordsAround(b: seq<string>, p: seq<string>, x: string, q: seq<string>)
    requires b == p + [x] + q
    ensures CorpusWords(b) == CorpusWords(p) + LineWords(x) + CorpusWords(q)
  {
    CorpusAppend(p + [x], q);
    CorpusAppend(p, [x]);
    assert [x][1..] == [];
    assert CorpusWords([x]) == LineWords(x);
  }

  /** A sequence is what comes before position i, the element there, and what follows. */
  lemma Around<T>(b: seq<T>, i: nat)
    requires i < |b|
    ensures b == b[..i] + [b[i]] + b[i + 1..]
  {
  }

  lemma MultisetMiddle<T>(p: seq<T>, w: seq<T>, q: seq<T>, r: seq<T>)
    requires multiset(r) == multiset(p + q)
    ensures multiset(w + r) == multiset(p + w + q)
  {
  }

  lemma MergeCommutative(a: Table, b: Table)
    ensures Merge(a, b) == Merge(b, a)
  {
  }

  lemma MergeAssociative(a: Table, b: Table, c: Table)
    ensures Merge(Merge(a, b), c) == Merge(a, Merge(b, c))
  {
  }

  lemma MergeIdentity(a: Table)
    ensures Merge(a, map[]) == a && Merge(map[], a) == a
  {
  }

  /** Merging a list of partial tables, in order, starting from the empty table. */
  function MergeAll(ts: seq<Table>): Table {
    if ts == [] then map[] else Merge(ts[0], MergeAll(ts[1..]))
  }

  function Flatten(chunks: seq<seq<string>>): seq<string> {
    if chunks == [] then [] else chunks[0] + Flatten(chunks[1..])
  }

  function ChunkTables(chunks: seq<seq<string>>): (ts: seq<Table>)
    ensures |ts| == |chunks|
    ensures forall i :: 0 <= i < |chunks| ==> ts[i] == CorpusTable(chunks[i])
  {
    if chunks == [] then [] else [CorpusTable(chunks[0])] + ChunkTables(chunks[1..])
  }

  /** Counting two parts of the corpus separately and merging is counting it all. */
  lemma CorpusTableAppend(a: seq<string>, b: seq<string>)
    ensures CorpusTable(a + b) == Merge(CorpusTable(a), CorpusTable(b))
  {
    CorpusAppend(a, b);
    CountAppend(CorpusWords(a), CorpusWords(b));
  }

  /**
   Partition independence: cutting the corpus into any number of consecutive
   chunks, counting each and merging the partial tables gives the table of
   the whole corpus.
   */
  lemma {:induction false} PartitionIndependence(chunks: seq<seq<string>>)
    ensures MergeAll(ChunkTables(chunks)) == CorpusTable(Flatten(chunks))
  {
    if chunks == [] {
      assert CorpusWords([]) == [];
    } else {
      PartitionIndependence(chunks[1..]);
      assert ChunkTables(chunks)[1..] == ChunkTables(chunks[1..]);
      CorpusTableAppend(chunks[0], Flatten(chunks[1..]));
    }
  }
}
