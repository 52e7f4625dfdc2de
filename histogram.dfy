/**
 The word-frequency distribution: `groupBy("count").agg(count("*"))` over
 the ranked table, ordered by count descending. Each bucket says how many
 distinct words occur exactly that many times.
 */
module Histogram {
  import opened Aggregator
  import opened Ranking

  /**
   A row of the distribution: a frequency (the key) and the number of
   distinct words that occur that many times (its count). The key is the
   column Spark calls `count` in this result, and the count is the column
   `words_with_this_frequency`.
   */
  type Bucket = Row<nat>

  /** Frequencies strictly descending: each frequency has one bucket. */
  predicate Descending(h: seq<Bucket>) {
    forall i, j :: 0 <= i < j < |h| ==> h[i].key > h[j].key
  }

  /** The displayed rows of a descending distribution are descending. */
  lemma TakeDescending(h: seq<Bucket>, k: nat)
    requires Descending(h)
    ensures Descending(Take(h, k))
  {
    var v := Take(h, k);
    assert forall i :: 0 <= i < |v| ==> v[i] == h[i];
  }

  predicate NonIncreasing(r: seq<Entry>) {
    forall i, j :: 0 <= i < j < |r| ==> r[i].count >= r[j].count
  }

  /** The sum of the words column: the number of distinct words. */
  function BucketWords(h: seq<Bucket>): nat {
    if h == [] then 0 else h[0].count + BucketWords(h[1..])
  }

  /** The sum of count times words: the number of occurrences. */
  function BucketOccurrences(h: seq<Bucket>): nat {
    if h == [] then 0 else h[0].key * h[0].count + BucketOccurrences(h[1..])
  }

  /**
   `h` is the distribution of the listing `r` (each bucket's key is a
   frequency and its count a number of words): strictly descending frequencies,
   each bucket holding the number of entries of `r` with its frequency (at least
   one), every count of `r` with its bucket, and the two column sums equal to
   the number of entries and their total count.
   */
  predicate Groups(r: seq<Entry>, h: seq<Bucket>) {
    && Descending(h)
    && (forall i :: 0 <= i < |h| ==> h[i].count == CountOf(r, h[i].key) && h[i].count >= 1)
    && (forall j :: 0 <= j < |r| ==> exists i :: 0 <= i < |h| && h[i].key == r[j].count)
    && BucketWords(h) == |r| && BucketOccurrences(h) == TotalCount(r)
  }

  /** Group a listing ordered by non-increasing count into runs of equal count. */
  function Group(r: seq<Entry>): (h: seq<Bucket>)
    requires NonIncreasing(r)
    ensures |h| <= |r| && (r != [] ==> h != [] && h[0].key == r[0].count)
    ensures Groups(r, h)
  {
    if r == [] then []
    else
      var rest := Group(r[1..]);
      var c := r[0].count;
      if rest != [] && rest[0].key == c then
        var h := [Row(c, rest[0].count + 1)] + rest[1..];
        GroupMerged(r, rest, h);
        h
      else
        var h := [Row(c, 1)] + rest;
        GroupFresh(r, rest, h);
        h
  }

  /** The first entry joins the first bucket of the rest, which has its count. */
  lemma GroupMerged(r: seq<Entry>, rest: seq<Bucket>, h: seq<Bucket>)
    requires r != [] && NonIncreasing(r)
    requires rest != [] && rest[0].key == r[0].count
    requires Groups(r[1..], rest)
    requires h == [Row(r[0].count, rest[0].count + 1)] + rest[1..]
    ensures Groups(r, h)
  {
    MergedCounts(r, rest, h);
    MergedCovers(r, rest, h);
    BumpSums(rest, h);
  }

  lemma MergedCounts(r: seq<Entry>, rest: seq<Bucket>, h: seq<Bucket>)
    requires r != [] && rest != [] && rest[0].key == r[0].count
    requires forall i, j :: 0 <= i < j < |rest| ==> rest[i].key > rest[j].key
    requires forall i :: 0 <= i < |rest| ==> rest[i].count == CountOf(r[1..], rest[i].key) && rest[i].count >= 1
    requires h == [Row(r[0].count, rest[0].count + 1)] + rest[1..]
    ensures forall i, j :: 0 <= i < j < |h| ==> h[i].key > h[j].key
    ensures forall i :: 0 <= i < |h| ==> h[i].count == CountOf(r, h[i].key) && h[i].count >= 1
  {
    var c := r[0].count;
    forall i | 1 <= i < |h| ensures h[i] == rest[i] && h[i].key < c {
      assert rest[0].key > rest[i].key;
    }
    forall i | 0 <= i < |h| ensures h[i].count == CountOf(r, h[i].key) {
      assert CountOf(r, h[i].key) == (if c == h[i].key then 1 else 0) + CountOf(r[1..], h[i].key);
    }
  }

  lemma MergedCovers(r: seq<Entry>, rest: seq<Bucket>, h: seq<Bucket>)
    requires r != [] && rest != [] && rest[0].key == r[0].count
    requires forall j :: 0 <= j < |r[1..]| ==> exists i :: 0 <= i < |rest| && rest[i].key == r[1..][j].count
    requires h == [Row(r[0].count, rest[0].count + 1)] + rest[1..]
    ensures forall j :: 0 <= j < |r| ==> exists i :: 0 <= i < |h| && h[i].key == r[j].count
  {
    forall j | 0 <= j < |r| ensures exists i :: 0 <= i < |h| && h[i].key == r[j].count {
      if j > 0 {
        var i :| 0 <= i < |rest| && rest[i].key == r[1..][j - 1].count;
        assert h[i].key == r[j].count;
      } else {
        assert h[0].key == r[0].count;
      }
    }
  }

  /** Adding one word to the first bucket adds one word and its count of occurrences. */
  lemma BumpSums(rest: seq<Bucket>, h: seq<Bucket>)
    requires rest != [] && h == [Row(rest[0].key, rest[0].count + 1)] + rest[1..]
    ensures BucketWords(h) == BucketWords(rest) + 1
    ensures BucketOccurrences(h) == BucketOccurrences(rest) + rest[0].key
  {
    var c := rest[0].key;
    assert h[1..] == rest[1..];
    assert c * (rest[0].count + 1) == c * rest[0].count + c;
  }

  /** The first entry starts a bucket of its own, above every bucket of the rest. */
  lemma GroupFresh(r: seq<Entry>, rest: seq<Bucket>, h: seq<Bucket>)
    requires r != [] && NonIncreasing(r)
    requires rest != [] ==> rest[0].key != r[0].count
    requires r[1..] != [] ==> rest != [] && rest[0].key == r[1].count
    requires Groups(r[1..], rest)
    requires h == [Row(r[0].count, 1)] + rest
    ensures Groups(r, h)
  {
    FreshCounts(r, rest, h);
    FreshCovers(r, rest, h);
    assert h[1..] == rest;
  }

  lemma FreshCounts(r: seq<Entry>, rest: seq<Bucket>, h: seq<Bucket>)
    requires r != [] && NonIncreasing(r)
    requires rest != [] ==> rest[0].key != r[0].count
    requires r[1..] != [] ==> rest != [] && rest[0].key == r[1].count
    requires forall i, j :: 0 <= i < j < |rest| ==> rest[i].key > rest[j].key
    requires forall i :: 0 <= i < |rest| ==> rest[i].count == CountOf(r[1..], rest[i].key) && rest[i].count >= 1
    requires h == [Row(r[0].count, 1)] + rest
    ensures forall i, j :: 0 <= i < j < |h| ==> h[i].key > h[j].key
    ensures forall i :: 0 <= i < |h| ==> h[i].count == CountOf(r, h[i].key) && h[i].count >= 1
  {
    var c := r[0].count;
    forall i | 0 <= i < |rest| ensures rest[i].key < c {
      assert rest[0].key == r[1].count <= c;
      if i > 0 {
        assert rest[0].key > rest[i].key;
      }
    }
    CountOfAbsent(r[1..], c);
    forall i | 1 <= i < |h| ensures h[i] == rest[i - 1] && h[i].count == CountOf(r, h[i].key) {
      assert h[i] == rest[i - 1];
    }
  }

  lemma FreshCovers(r: seq<Entry>, rest: seq<Bucket>, h: seq<Bucket>)
    requires r != []
    requires forall j :: 0 <= j < |r[1..]| ==> exists i :: 0 <= i < |rest| && rest[i].key == r[1..][j].count
    requires h == [Row(r[0].count, 1)] + rest
    ensures forall j :: 0 <= j < |r| ==> exists i :: 0 <= i < |h| && h[i].key == r[j].count
  {
    forall j | 0 <= j < |r| ensures exists i :: 0 <= i < |h| && h[i].key == r[j].count {
      if j > 0 {
        var i :| 0 <= i < |rest| && rest[i].key == r[1..][j - 1].count;
        assert h[i + 1].key == r[j].count;
      } else {
        assert h[0].key == r[0].count;
      }
    }
  }

  /** In a listing with non-increasing counts, a count above the first occurs nowhere. */
  lemma {:induction false} CountOfAbsent(r: seq<Entry>, c: nat)
    requires NonIncreasing(r)
    requires r != [] ==> r[0].count < c
    ensures CountOf(r, c) == 0
  {
    if r != [] {
      CountOfAbsent(r[1..], c);
    }
  }

  /**
   The word-frequency distribution of a table: for each count that occurs
   (the bucket's key), the number of distinct words with that count (the
   bucket's count), in strictly descending order of count. The words column adds up to the number of unique words
   and the count-times-words column to the number of occurrences.
   */
  function Distribution(t: Table): (h: seq<Bucket>)
    ensures Descending(h)
    ensures forall i :: 0 <= i < |h| ==> h[i].count == |WordsWith(t, h[i].key)| && h[i].count >= 1
    ensures forall w :: w in t ==> exists i :: 0 <= i < |h| && h[i].key == t[w]
    ensures BucketWords(h) == |t| && BucketOccurrences(h) == TotalCount(Rank(t))
  {
    var r := Rank(t);
    var h := Group(r);
    forall i | 0 <= i < |h| ensures h[i].count == |WordsWith(t, h[i].key)| {
      CountOfWords(r, t, h[i].key);
    }
    forall w | w in t ensures exists i :: 0 <= i < |h| && h[i].key == t[w] {
      var j :| 0 <= j < |r| && r[j].key == w;
      assert r[j].count == t[w];
    }
    h
  }

  /** Only counts that occur are listed: every bucket has a word with its count. */
  lemma DistributionOccurs(t: Table, i: nat)
    requires i < |Distribution(t)|
    ensures exists w :: w in t && t[w] == Distribution(t)[i].key
  {
    var b := Distribution(t)[i];
    var w :| w in WordsWith(t, b.key);
  }
}
