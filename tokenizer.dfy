/**
 Tokenizer: splitting a line on runs of whitespace, as Spark's
 `split(line, "\s+")` does (Java regular expressions, limit -1).

 A separator is a maximal non-empty run of whitespace. The tokens are the
 pieces between separators, so a line with k separator runs has k + 1
 tokens. A leading or trailing run gives an empty first or last token, and
 the empty line gives the single empty token; the normalizer's filter drops
 those later.
 */
module Tokenizer {

  /** Java's predefined class `\s` (without the Unicode flag): [ \t\n\x0B\f\r]. */
  predicate IsSpace(c: char) {
    c == ' ' || c == '\t' || c == '\n' || c == '\U{000B}' || c == '\U{000C}' || c == '\r'
  }

  predicate NoSpace(s: string) {
    forall i :: 0 <= i < |s| ==> !IsSpace(s[i])
  }

  predicate AllSpace(s: string) {
    forall i :: 0 <= i < |s| ==> IsSpace(s[i])
  }

  /** The length of the longest prefix of `s` that holds no whitespace. */
  function TokenLength(s: string): (n: nat)
    ensures n <= |s| && NoSpace(s[..n])
    ensures n < |s| ==> IsSpace(s[n])
  {
    if s == [] || IsSpace(s[0]) then 0 else 1 + TokenLength(s[1..])
  }

  /** The end of the run of whitespace that starts at index `k` of `s`. */
  function SpaceEnd(s: string, k: nat): (e: nat)
    requires k <= |s|
    ensures k <= e <= |s|
    ensures forall i :: k <= i < e ==> IsSpace(s[i])
    ensures e < |s| ==> !IsSpace(s[e])
    decreases |s| - k
  {
    if k < |s| && IsSpace(s[k]) then SpaceEnd(s, k + 1) else k
  }

  /** The first token of `s`: everything up to the first whitespace. */
  function Head(s: string): (h: string)
    ensures NoSpace(h)
  {
    s[..TokenLength(s)]
  }

  /** The whitespace run after the first token, when there is whitespace. */
  function Sep(s: string): (sep: string)
    requires TokenLength(s) < |s|
    ensures sep != [] && AllSpace(sep)
  {
    var n := TokenLength(s);
    s[n..SpaceEnd(s, n)]
  }

  /** What follows the first token and the whitespace run after it. */
  function Next(s: string): (rest: string)
    requires TokenLength(s) < |s|
    ensures |rest| < |s|
    ensures rest != [] ==> !IsSpace(rest[0])
  {
    s[SpaceEnd(s, TokenLength(s))..]
  }

  /** A line with whitespace is its first token, a whitespace run, and the rest. */
  lemma Decompose(s: string)
    requires TokenLength(s) < |s|
    ensures s == Head(s) + Sep(s) + Next(s)
  {
    var n := TokenLength(s);
    Slices(s, n, SpaceEnd(s, n));
  }

  lemma Slices(s: string, n: nat, e: nat)
    requires n <= e <= |s|
    ensures s == s[..n] + s[n..e] + s[e..]
  {
    assert s[..e] == s[..n] + s[n..e];
  }

  /** The tokens of a line, in order. */
  function Split(s: string): (r: seq<string>)
    ensures |r| >= 1
    ensures forall i :: 0 <= i < |r| ==> NoSpace(r[i])
    ensures forall i :: 0 < i < |r| - 1 ==> r[i] != []
    ensures r[0] == [] <==> s == [] || IsSpace(s[0])
    decreases |s|
  {
    if TokenLength(s) == |s| then [s] else [Head(s)] + Split(Next(s))
  }

  /** The whitespace runs between consecutive tokens, in order. */
  function Separators(s: string): (r: seq<string>)
    ensures |r| == |Split(s)| - 1
    ensures forall i :: 0 <= i < |r| ==> r[i] != [] && AllSpace(r[i])
    decreases |s|
  {
    if TokenLength(s) == |s| then [] else [Sep(s)] + Separators(Next(s))
  }

  /** toks[0] + seps[0] + toks[1] + ... + toks[n]: the inverse of splitting. */
  function Interleave(toks: seq<string>, seps: seq<string>): string
    requires |toks| == |seps| + 1
  {
    if seps == [] then toks[0] else toks[0] + seps[0] + Interleave(toks[1..], seps[1..])
  }

  /** Splitting loses nothing: re-inserting the separators gives back the line. */
  lemma {:induction false} SplitRoundTrip(s: string)
    ensures Interleave(Split(s), Separators(s)) == s
    decreases |s|
  {
    if TokenLength(s) < |s| {
      var toks, seps := Split(s), Separators(s);
      SplitRoundTrip(Next(s));
      assert toks[1..] == Split(Next(s));
      assert seps[1..] == Separators(Next(s));
      Decompose(s);
    }
  }

  /** The end of the line decides the last token. */
  lemma {:induction false} SplitLast(s: string)
    ensures Split(s)[|Split(s)| - 1] == [] <==> s == [] || IsSpace(s[|s| - 1])
    decreases |s|
  {
    var r := Split(s);
    if TokenLength(s) < |s| {
      var next, sep := Next(s), Sep(s);
      SplitLast(next);
      var rest := Split(next);
      assert r == [Head(s)] + rest;
      LastOfAppend([Head(s)], rest);
      assert r[|r| - 1] == rest[|rest| - 1];
      Decompose(s);
      if next != [] {
        LastOfAppend(Head(s) + sep, next);
        assert s[|s| - 1] == next[|next| - 1];
      } else {
        assert s == Head(s) + sep;
        LastOfAppend(Head(s), sep);
        assert IsSpace(s[|s| - 1]);
        assert rest[|rest| - 1] == [];
      }
    } else {
      assert r == [s];
      assert s != [] ==> Head(s) == s;
    }
  }

  lemma LastOfAppend<T>(a: seq<T>, b: seq<T>)
    requires b != []
    ensures (a + b)[|a + b| - 1] == b[|b| - 1]
  {
  }

  /** A token ends at the first whitespace. */
  lemma {:induction false} TokenLengthOf(w: string, rest: string)
    requires NoSpace(w) && (rest == [] || IsSpace(rest[0]))
    ensures TokenLength(w + rest) == |w|
  {
    if w != [] {
      assert (w + rest)[1..] == w[1..] + rest;
      TokenLengthOf(w[1..], rest);
    } else {
      assert w + rest == rest;
    }
  }

  /** A token followed by a single blank and a line that starts with a token. */
  lemma SplitBlank(w: string, rest: string)
    requires NoSpace(w) && (rest == [] || !IsSpace(rest[0]))
    ensures Split(w + [' '] + rest) == [w] + Split(rest)
  {
    var s := w + [' '] + rest;
    assert s == w + ([' '] + rest);
    TokenLengthOf(w, [' '] + rest);
    assert s[|w|] == ' ';
    assert SpaceEnd(s, |w|) == |w| + 1 by {
      assert SpaceEnd(s, |w| + 1) == |w| + 1;
    }
    assert Head(s) == w;
    assert Next(s) == rest;
  }

  /** A line without whitespace is a single token. */
  lemma SplitNoSpace(s: string)
    requires NoSpace(s)
    ensures Split(s) == [s]
  {
    assert s + [] == s;
    TokenLengthOf(s, []);
  }

  /** Tokens joined with single blanks. */
  function JoinBlank(toks: seq<string>): string
    requires |toks| >= 1
  {
    if |toks| == 1 then toks[0] else toks[0] + [' '] + JoinBlank(toks[1..])
  }

  /**
   Splitting undoes joining with single blanks, for tokens that are non-empty
   and hold no whitespace.
   */
  lemma {:induction false} SplitJoinBlank(toks: seq<string>)
    requires |toks| >= 1
    requires forall i :: 0 <= i < |toks| ==> toks[i] != [] && NoSpace(toks[i])
    ensures Split(JoinBlank(toks)) == toks
  {
    if |toks| == 1 {
      SplitNoSpace(toks[0]);
    } else {
      var rest := JoinBlank(toks[1..]);
      SplitJoinBlank(toks[1..]);
      assert rest[0] == toks[1][0] by {
        JoinBlankStart(toks[1..]);
      }
      SplitBlank(toks[0], rest);
    }
  }

  lemma JoinBlankStart(toks: seq<string>)
    requires |toks| >= 1 && toks[0] != []
    ensures JoinBlank(toks) != [] && JoinBlank(toks)[0] == toks[0][0]
  {
  }
}
