/**
 Ranking: `orderBy(col("count").desc())` over the frequency table.

 Spark orders by count only and leaves the order of equal counts open. The
 model fixes one total order so that the ranked list is a function of the
 table: count descending, then word ascending (lexicographic on characters).
 Every property stated for the ranked list below other than the word order
 among equal counts holds of any order Spark might choose.
 */
module Ranking {
  import opened Aggregator

  /** One row of the ranked table: a word (the key) and its number of occurrences. */
  type Entry = Row<string>

  /** Strict lexicographic order on words. */
  predicate WordBefore(a: string, b: string) {
    if a == [] then b != []
    else if b == [] then false
    else a[0] < b[0] || (a[0] == b[0] && WordBefore(a[1..], b[1..]))
  }

  lemma {:induction false} WordBeforeIrreflexive(a: string)
    ensures !WordBefore(a, a)
  {
    if a != [] {
      WordBeforeIrreflexive(a[1..]);
    }
  }

  lemma {:induction false} WordBeforeTransitive(a: string, b: string, c: string)
    requires WordBefore(a, b) && WordBefore(b, c)
    ensures WordBefore(a, c)
  {
    if a != [] && b != [] && c != [] && a[0] == b[0] == c[0] {
      WordBeforeTransitive(a[1..], b[1..], c[1..]);
    }
  }

  lemma {:induction false} WordBeforeTotal(a: string, b: string)
    requires a != b
    ensures WordBefore(a, b) || WordBefore(b, a)
  {
    if a != [] && b != [] && a[0] == b[0] {
      assert a == [a[0]] + a[1..] && b == [b[0]] + b[1..];
      WordBeforeTotal(a[1..], b[1..]);
    }
  }

  lemma {:induction false} WordBeforeAsymmetric(a: string, b: string)
    requires WordBefore(a, b)
    ensures !WordBefore(b, a)
  {
    if a != [] && b != [] && a[0] == b[0] {
      WordBeforeAsymmetric(a[1..], b[1..]);
    }
  }

  /** `a` is listed before `b`: higher count first, then the smaller word. */
  predicate RanksBefore(a: Entry, b: Entry) {
    a.count > b.count || (a.count == b.count && WordBefore(a.key, b.key))
  }

  lemma RanksBeforeTransitive(a: Entry, b: Entry, c: Entry)
    requires RanksBefore(a, b) && RanksBefore(b, c)
    ensures RanksBefore(a, c)
  {
    if a.count == b.count == c.count {
      WordBeforeTransitive(a.key, b.key, c.key);
    }
  }

  lemma RanksBeforeTotal(a: Entry, b: Entry)
    requires a.key != b.key
    ensures RanksBefore(a, b) || RanksBefore(b, a)
  {
    WordBeforeTotal(a.key, b.key);
  }

  lemma RanksBeforeAsymmetric(a: Entry, b: Entry)
    requires RanksBefore(a, b)
    ensures !RanksBefore(b, a)
  {
    if a.count == b.count {
      WordBeforeAsymmetric(a.key, b.key);
    }
  }

  function EntryOf(t: Table, w: string): Entry
    requires w in t
  {
    Row(w, t[w])
  }

  /** `w` is the key of `t` that ranks before every other key of `t`. */
  predicate IsTop(t: Table, w: string) {
    w in t && forall v :: v in t && v != w ==> RanksBefore(EntryOf(t, w), EntryOf(t, v))
  }

  /** Every non-empty set of keys has a key that ranks before all the others. */
  lemma {:induction false} TopOf(t: Table, ks: set<string>) returns (w: string)
    requires ks != {} && ks <= t.Keys
    ensures w in ks && forall v :: v in ks && v != w ==> RanksBefore(EntryOf(t, w), EntryOf(t, v))
    decreases |ks|
  {
    var k :| k in ks;
    if ks == {k} {
      w := k;
    } else {
      var b := TopOf(t, ks - {k});
      RanksBeforeTotal(EntryOf(t, k), EntryOf(t, b));
      if RanksBefore(EntryOf(t, k), EntryOf(t, b)) {
        w := k;
        forall v | v in ks && v != k ensures RanksBefore(EntryOf(t, k), EntryOf(t, v)) {
          if v != b {
            RanksBeforeTransitive(EntryOf(t, k), EntryOf(t, b), EntryOf(t, v));
          }
        }
      } else {
        w := b;
      }
    }
  }

  lemma TopExists(t: Table)
    requires |t| > 0
    ensures exists w :: IsTop(t, w)
  {
    assert t.Keys != {};
    var w := TopOf(t, t.Keys);
    assert IsTop(t, w);
  }

  lemma TopUnique(t: Table)
    ensures forall w1, w2 :: IsTop(t, w1) && IsTop(t, w2) ==> w1 == w2
  {
    forall w1, w2 | IsTop(t, w1) && IsTop(t, w2) ensures w1 == w2 {
      if w1 != w2 {
        RanksBeforeAsymmetric(EntryOf(t, w1), EntryOf(t, w2));
      }
    }
  }

  /** `r` lists the entries of `t`: each exactly once, with its count, and nothing else. */
  predicate Lists(r: seq<Entry>, t: Table) {
    && (forall i :: 0 <= i < |r| ==> r[i].key in t && r[i].count == t[r[i].key])
    && (forall i, j :: 0 <= i < j < |r| ==> r[i].key != r[j].key)
    && (forall w :: w in t ==> exists i :: 0 <= i < |r| && r[i].key == w)
  }

  /** Every entry is listed before every later one. */
  predicate Ranked(r: seq<Entry>) {
    forall i, j :: 0 <= i < j < |r| ==> RanksBefore(r[i], r[j])
  }

  /**
   The ranked table: a permutation of the table's (word, count) entries,
   strictly ordered by count descending and then by word, so with counts
   non-increasing. Each step takes the top entry of what is left.
   */
  function Rank(t: Table): (r: seq<Entry>)
    ensures Lists(r, t) && Ranked(r) && |r| == |t|
    ensures forall i, j :: 0 <= i < j < |r| ==> r[i].count >= r[j].count
    decreases |t|
  {
    if |t| == 0 then []
    else
      TopExists(t);
      TopUnique(t);
      var w :| IsTop(t, w);
      var rest := Rank(t - {w});
      RankStep(t, w, rest);
      [EntryOf(t, w)] + rest
  }

  /** Putting the top entry in front of a ranked listing of the others ranks the whole table. */
  lemma RankStep(t: Table, w: string, rest: seq<Entry>)
    requires IsTop(t, w)
    requires Lists(rest, t - {w}) && Ranked(rest) && |rest| == |t - {w}|
    ensures var r := [EntryOf(t, w)] + rest;
            Lists(r, t) && Ranked(r) && |r| == |t|
  {
    var r := [EntryOf(t, w)] + rest;
    assert (t - {w}).Keys == t.Keys - {w};
    StepEntries(t, w, rest);
    StepOrder(t, w, rest);
    StepCovers(t, w, rest);
  }

  lemma StepEntries(t: Table, w: string, rest: seq<Entry>)
    requires w in t
    requires forall i :: 0 <= i < |rest| ==> rest[i].key in t - {w} && rest[i].count == (t - {w})[rest[i].key]
    ensures var r := [EntryOf(t, w)] + rest;
            forall i :: 0 <= i < |r| ==> r[i].key in t && r[i].count == t[r[i].key]
  {
    var r := [EntryOf(t, w)] + rest;
    forall i | 0 <= i < |r| ensures r[i].key in t && r[i].count == t[r[i].key] {
      if i > 0 {
        assert r[i] == rest[i - 1];
      }
    }
  }

  lemma StepOrder(t: Table, w: string, rest: seq<Entry>)
    requires IsTop(t, w)
    requires forall i :: 0 <= i < |rest| ==> rest[i].key in t - {w} && rest[i].count == (t - {w})[rest[i].key]
    requires forall i, j :: 0 <= i < j < |rest| ==> rest[i].key != rest[j].key
    requires Ranked(rest)
    ensures var r := [EntryOf(t, w)] + rest;
            (forall i, j :: 0 <= i < j < |r| ==> r[i].key != r[j].key) && Ranked(r)
  {
    var r := [EntryOf(t, w)] + rest;
    forall i, j | 0 <= i < j < |r| ensures r[i].key != r[j].key && RanksBefore(r[i], r[j]) {
      assert r[j] == rest[j - 1];
      if i > 0 {
        assert r[i] == rest[i - 1];
      } else {
        assert r[j].key in t - {w};
      }
    }
  }

  lemma StepCovers(t: Table, w: string, rest: seq<Entry>)
    requires w in t
    requires forall v :: v in t - {w} ==> exists i :: 0 <= i < |rest| && rest[i].key == v
    ensures var r := [EntryOf(t, w)] + rest;
            forall v :: v in t ==> exists i :: 0 <= i < |r| && r[i].key == v
  {
    var r := [EntryOf(t, w)] + rest;
    forall v | v in t ensures exists i :: 0 <= i < |r| && r[i].key == v {
      if v == w {
        assert r[0].key == v;
      } else {
        assert v in t - {w};
        var i :| 0 <= i < |rest| && rest[i].key == v;
        assert r[i + 1].key == v;
      }
    }
  }

  /** The shown top of the ranking: its first k entries, or all when there are fewer. */
  function Take<T>(s: seq<T>, k: nat): (r: seq<T>)
    ensures |r| == if k < |s| then k else |s|
    ensures r <= s
  {
    if k < |s| then s[..k] else s
  }

  /** A view at least as long as the listing shows all of it. */
  lemma TakeAll<T>(s: seq<T>, k: nat)
    requires |s| <= k
    ensures Take(s, k) == s
  {
  }

  /**
   The top-k view of the ranking holds the k best entries: each of them ranks
   before every entry of the table that the view leaves out.
   */
  lemma TopViewBest(t: Table, k: nat, i: nat, w: string)
    requires i < |Take(Rank(t), k)| && w in t
    requires forall j :: 0 <= j < |Take(Rank(t), k)| ==> Take(Rank(t), k)[j].key != w
    ensures RanksBefore(Take(Rank(t), k)[i], EntryOf(t, w))
  {
    var r := Rank(t);
    var view := Take(r, k);
    var j :| 0 <= j < |r| && r[j].key == w;
    assert j >= |view|;
    assert view[i] == r[i];
  }

  /** Rank always starts with the top entry. */
  lemma RankUnfold(t: Table, w: string)
    requires IsTop(t, w)
    ensures Rank(t) == [EntryOf(t, w)] + Rank(t - {w})
  {
    TopUnique(t);
  }

  /**
   The tie-break makes the ranking reproducible: any strictly ranked listing
   of the table is the one Rank computes.
   */
  lemma {:induction false} RankUnique(t: Table, r: seq<Entry>)
    requires Lists(r, t) && Ranked(r)
    ensures r == Rank(t)
    decreases |t|
  {
    if r == [] {
      assert t.Keys == {};
      assert t == map[];
    } else {
      var w := r[0].key;
      forall v | v in t && v != w ensures RanksBefore(EntryOf(t, w), EntryOf(t, v)) {
        var j :| 0 <= j < |r| && r[j].key == v;
        assert j > 0;
      }
      assert IsTop(t, w);
      var rest := t - {w};
      var tail := r[1..];
      TailLists(t, r);
      RankUnique(rest, tail);
      RankUnfold(t, w);
      assert r[0] == EntryOf(t, w);
      HeadTail(r);
    }
  }

  lemma HeadTail(r: seq<Entry>)
    requires r != []
    ensures r == [r[0]] + r[1..]
  {
  }

  lemma TailLists(t: Table, r: seq<Entry>)
    requires Lists(r, t) && Ranked(r) && r != []
    ensures Lists(r[1..], t - {r[0].key}) && Ranked(r[1..])
  {
    ListsTail(r, t);
  }

  /** The sum of the counts of a listing. */
  function TotalCount(r: seq<Entry>): nat {
    if r == [] then 0 else r[0].count + TotalCount(r[1..])
  }

  lemma {:induction false} TotalCountAppend(a: seq<Entry>, b: seq<Entry>)
    ensures TotalCount(a + b) == TotalCount(a) + TotalCount(b)
  {
    if a == [] {
      assert a + b == b;
    } else {
      assert (a + b)[1..] == a[1..] + b;
      TotalCountAppend(a[1..], b);
    }
  }

  /** Total count with entry i in the middle taken out. */
  lemma TotalCountSplit(r: seq<Entry>, i: nat)
    requires i < |r|
    ensures TotalCount(r) == TotalCount(r[..i] + r[i + 1..]) + r[i].count
  {
    var a, b := r[..i], r[i + 1..];
    assert r[i..][1..] == b;
    assert r == a + r[i..];
    TotalCountAppend(a, r[i..]);
    TotalCountAppend(a, b);
  }

  /** Lowering one count of a listing by one lowers the same count of the table. */
  lemma ListsDecrement(r: seq<Entry>, t: Table, i: nat)
    requires Lists(r, t) && i < |r| && r[i].count >= 1
    ensures Lists(r[i := Row(r[i].key, r[i].count - 1)], t[r[i].key := r[i].count - 1])
  {
    var w := r[i].key;
    var r', t' := r[i := Row(w, r[i].count - 1)], t[w := r[i].count - 1];
    forall v | v in t' ensures exists j :: 0 <= j < |r'| && r'[j].key == v {
      var j :| 0 <= j < |r| && r[j].key == v;
      assert r'[j].key == v;
    }
  }

  /** Dropping one entry of a listing drops its word from the table. */
  lemma ListsRemove(r: seq<Entry>, t: Table, i: nat)
    requires Lists(r, t) && i < |r|
    ensures Lists(r[..i] + r[i + 1..], t - {r[i].key})
  {
    RemoveEntries(r, t, i);
    RemoveCovers(r, t, i);
  }

  lemma RemoveEntries(r: seq<Entry>, t: Table, i: nat)
    requires i < |r|
    requires forall j :: 0 <= j < |r| ==> r[j].key in t && r[j].count == t[r[j].key]
    requires forall j, l :: 0 <= j < l < |r| ==> r[j].key != r[l].key
    ensures var r', t' := r[..i] + r[i + 1..], t - {r[i].key};
            && (forall j :: 0 <= j < |r'| ==> r'[j].key in t' && r'[j].count == t'[r'[j].key])
            && (forall j, l :: 0 <= j < l < |r'| ==> r'[j].key != r'[l].key)
  {
    var r', t' := r[..i] + r[i + 1..], t - {r[i].key};
    RemoveShift(r, i);
    forall j | 0 <= j < |r'| ensures r'[j] == r[if j < i then j else j + 1] {
      if j >= i {
        assert r'[j + 1 - 1] == r[j + 1];
      }
    }
  }

  lemma RemoveCovers(r: seq<Entry>, t: Table, i: nat)
    requires i < |r|
    requires forall w :: w in t ==> exists j :: 0 <= j < |r| && r[j].key == w
    ensures var r', t' := r[..i] + r[i + 1..], t - {r[i].key};
            forall v :: v in t' ==> exists j :: 0 <= j < |r'| && r'[j].key == v
  {
    var r', t' := r[..i] + r[i + 1..], t - {r[i].key};
    RemoveShift(r, i);
    forall v | v in t' ensures exists j :: 0 <= j < |r'| && r'[j].key == v {
      var j :| 0 <= j < |r| && r[j].key == v;
      if j < i {
        assert r'[j].key == v;
      } else {
        assert r'[j - 1].key == v;
      }
    }
  }

  /** Where the entries of a listing end up when entry i is dropped. */
  lemma RemoveShift(r: seq<Entry>, i: nat)
    requires i < |r|
    ensures |r[..i] + r[i + 1..]| == |r| - 1
    ensures forall j :: 0 <= j < i ==> (r[..i] + r[i + 1..])[j] == r[j]
    ensures forall j :: i < j < |r| ==> (r[..i] + r[i + 1..])[j - 1] == r[j]
  {
  }

  /**
   The counts of any listing of the table of a word stream add up to the
   length of the stream: the total-occurrences figure is the sum of the
   table's counts.
   */
  lemma {:induction false} ListingTotal(ws: seq<string>, r: seq<Entry>)
    requires Lists(r, Count(ws))
    ensures TotalCount(r) == |ws|
    decreases |ws|
  {
    if ws != [] {
      var n := |ws| - 1;
      var p, x := ws[..n], ws[n];
      assert ws == p + [x];
      var t := Count(ws);
      assert t == Inc(Count(p), x);
      var i :| 0 <= i < |r| && r[i].key == x;
      if x in Count(p) {
        var r' := r[i := Row(x, r[i].count - 1)];
        SeenLists(Count(p), x, r, i);
        DecrementTotal(r, i);
        ListingTotal(p, r');
      } else {
        var r' := r[..i] + r[i + 1..];
        NewLists(Count(p), x, r, i);
        TotalCountSplit(r, i);
        ListingTotal(p, r');
      }
    }
  }

  /** A repeated word: lowering its entry by one lists the table before the occurrence. */
  lemma SeenLists(u: Table, x: string, r: seq<Entry>, i: nat)
    requires x in u && Lists(r, Inc(u, x)) && i < |r| && r[i].key == x
    ensures r[i].count >= 1 && Lists(r[i := Row(x, r[i].count - 1)], u)
  {
    IncUndo(u, x);
    ListsDecrement(r, Inc(u, x), i);
  }

  /** A new word: dropping its entry, of count 1, lists the table before the occurrence. */
  lemma NewLists(u: Table, x: string, r: seq<Entry>, i: nat)
    requires x !in u && Lists(r, Inc(u, x)) && i < |r| && r[i].key == x
    ensures r[i].count == 1 && Lists(r[..i] + r[i + 1..], u)
  {
    IncUndo(u, x);
    ListsRemove(r, Inc(u, x), i);
  }

  /** Lowering one count by one lowers the total by one. */
  lemma DecrementTotal(r: seq<Entry>, i: nat)
    requires i < |r| && r[i].count >= 1
    ensures TotalCount(r[i := Row(r[i].key, r[i].count - 1)]) + 1 == TotalCount(r)
  {
    var r' := r[i := Row(r[i].key, r[i].count - 1)];
    TotalCountSplit(r, i);
    TotalCountSplit(r', i);
    assert r'[..i] == r[..i] && r'[i + 1..] == r[i + 1..];
  }

  /** The number of entries with count c. */
  function CountOf(r: seq<Entry>, c: nat): nat {
    if r == [] then 0 else (if r[0].count == c then 1 else 0) + CountOf(r[1..], c)
  }

  /** The words of a table with count c. */
  function WordsWith(t: Table, c: nat): set<string> {
    set w | w in t && t[w] == c
  }

  lemma ListsTail(r: seq<Entry>, t: Table)
    requires Lists(r, t) && r != []
    ensures Lists(r[1..], t - {r[0].key})
  {
    TailEntries(r, t);
    TailCovers(r, t);
  }

  lemma TailEntries(r: seq<Entry>, t: Table)
    requires r != []
    requires forall j :: 0 <= j < |r| ==> r[j].key in t && r[j].count == t[r[j].key]
    requires forall j, l :: 0 <= j < l < |r| ==> r[j].key != r[l].key
    ensures var tail, rest := r[1..], t - {r[0].key};
            && (forall j :: 0 <= j < |tail| ==> tail[j].key in rest && tail[j].count == rest[tail[j].key])
            && (forall j, l :: 0 <= j < l < |tail| ==> tail[j].key != tail[l].key)
  {
    var tail, rest := r[1..], t - {r[0].key};
    forall j | 0 <= j < |tail| ensures tail[j].key in rest && tail[j].count == rest[tail[j].key] {
      assert tail[j] == r[j + 1];
    }
  }

  lemma TailCovers(r: seq<Entry>, t: Table)
    requires r != []
    requires forall w :: w in t ==> exists j :: 0 <= j < |r| && r[j].key == w
    ensures var tail, rest := r[1..], t - {r[0].key};
            forall v :: v in rest ==> exists j :: 0 <= j < |tail| && tail[j].key == v
  {
    var tail, rest := r[1..], t - {r[0].key};
    forall v | v in rest ensures exists j :: 0 <= j < |tail| && tail[j].key == v {
      var j :| 0 <= j < |r| && r[j].key == v;
      assert tail[j - 1].key == v;
    }
  }

  lemma WordsWithRemove(t: Table, w: string, c: nat)
    requires w in t
    ensures t[w] == c ==> |WordsWith(t, c)| == |WordsWith(t - {w}, c)| + 1
    ensures t[w] != c ==> WordsWith(t, c) == WordsWith(t - {w}, c)
  {
    if t[w] == c {
      assert WordsWith(t, c) == WordsWith(t - {w}, c) + {w};
    }
  }

  /** For a listing of the table, counting entries with count c is counting distinct words with count c. */
  lemma {:induction false} CountOfWords(r: seq<Entry>, t: Table, c: nat)
    requires Lists(r, t)
    ensures CountOf(r, c) == |WordsWith(t, c)|
    decreases |r|
  {
    if r == [] {
      assert t.Keys == {};
      assert WordsWith(t, c) == {};
    } else {
      var w := r[0].key;
      ListsTail(r, t);
      CountOfWords(r[1..], t - {w}, c);
      WordsWithRemove(t, w, c);
    }
  }
}
