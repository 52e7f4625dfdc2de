/**
 The cleaned word stream: every line is tokenized, every token normalized,
 and the empty results dropped (`explode(split(...))`, then `select(lower(
 regexp_replace(...)))`, then `filter(word != "")`).
 */
module Words {
  import opened Tokenizer
  import opened Normalizer

  /** What survives the pipeline: a non-empty normalized word. */
  predicate IsWord(w: string) {
    w != [] && IsNormalized(w)
  }

  predicate AllWords(ws: seq<string>) {
    forall i :: 0 <= i < |ws| ==> IsWord(ws[i])
  }

  /** Normalize each token and drop those that become empty, keeping the order. */
  function Clean(toks: seq<string>): (r: seq<string>)
    ensures |r| <= |toks| && AllWords(r)
  {
    if toks == [] then []
    else
      var w := Normalize(toks[0]);
      if w == [] then Clean(toks[1..]) else [w] + Clean(toks[1..])
  }

  /** Each raw token contributes its normalized word, or nothing when that is empty. */
  lemma CleanOne(tok: string)
    ensures Clean([tok]) == if Normalize(tok) == [] then [] else [Normalize(tok)]
  {
    assert [tok][1..] == [];
  }

  /**
   Cleaning works token by token: the cleaned stream of two token sequences
   one after the other is the concatenation of their cleaned streams.
   */
  lemma {:induction false} CleanAppend(a: seq<string>, b: seq<string>)
    ensures Clean(a + b) == Clean(a) + Clean(b)
  {
    if a == [] {
      assert a + b == b;
    } else {
      assert (a + b)[0] == a[0] && (a + b)[1..] == a[1..] + b;
      CleanAppend(a[1..], b);
    }
  }

  /** The cleaned words of one line. */
  function LineWords(line: string): (r: seq<string>)
    ensures AllWords(r)
  {
    Clean(Split(line))
  }

  /** The cleaned words of all lines, line after line. */
  function CorpusWords(lines: seq<string>): (r: seq<string>)
    ensures AllWords(r)
  {
    if lines == [] then [] else LineWords(lines[0]) + CorpusWords(lines[1..])
  }

  function Concat(ws: seq<string>): string {
    if ws == [] then [] else ws[0] + Concat(ws[1..])
  }

  /** A word is in the cleaned stream exactly when some token normalizes to it. */
  lemma {:induction false} CleanMembers(toks: seq<string>, w: string)
    ensures w in Clean(toks) <==> w != [] && exists i :: 0 <= i < |toks| && Normalize(toks[i]) == w
  {
    if toks != [] {
      CleanMembers(toks[1..], w);
      if exists i :: 0 <= i < |toks| && Normalize(toks[i]) == w {
        var i :| 0 <= i < |toks| && Normalize(toks[i]) == w;
        if i > 0 {
          assert Normalize(toks[1..][i - 1]) == w;
        }
      }
      if exists i :: 0 <= i < |toks[1..]| && Normalize(toks[1..][i]) == w {
        var i :| 0 <= i < |toks[1..]| && Normalize(toks[1..][i]) == w;
        assert Normalize(toks[i + 1]) == w;
      }
    }
  }

  /** Splitting the corpus anywhere splits the word stream at the same place. */
  lemma {:induction false} CorpusAppend(a: seq<string>, b: seq<string>)
    ensures CorpusWords(a + b) == CorpusWords(a) + CorpusWords(b)
  {
    if a == [] {
      assert a + b == b;
    } else {
      var w := LineWords(a[0]);
      calc {
        CorpusWords(a + b);
        { assert (a + b)[0] == a[0] && (a + b)[1..] == a[1..] + b; }
        w + CorpusWords(a[1..] + b);
        { CorpusAppend(a[1..], b); }
        w + (CorpusWords(a[1..]) + CorpusWords(b));
        (w + CorpusWords(a[1..])) + CorpusWords(b);
      }
    }
  }

  lemma NormalizeSeparator(sep: string)
    requires AllSpace(sep)
    ensures Normalize(sep) == []
  {
    NormalizeEmpty(sep);
  }

  lemma {:induction false} InterleaveNormalize(toks: seq<string>, seps: seq<string>)
    requires |toks| == |seps| + 1
    requires forall i :: 0 <= i < |seps| ==> AllSpace(seps[i])
    ensures Normalize(Interleave(toks, seps)) == Concat(Clean(toks))
  {
    if seps == [] {
      assert toks[1..] == [];
      CleanStep(toks);
    } else {
      var rest := Interleave(toks[1..], seps[1..]);
      calc {
        Normalize(Interleave(toks, seps));
        Normalize(toks[0] + seps[0] + rest);
        { NormalizeAppend(toks[0] + seps[0], rest); NormalizeAppend(toks[0], seps[0]); }
        Normalize(toks[0]) + Normalize(seps[0]) + Normalize(rest);
        { NormalizeSeparator(seps[0]); InterleaveNormalize(toks[1..], seps[1..]); }
        Normalize(toks[0]) + [] + Concat(Clean(toks[1..]));
        { assert Normalize(toks[0]) + [] == Normalize(toks[0]); CleanStep(toks); }
        Concat(Clean(toks));
      }
    }
  }

  /** Concatenating the cleaned tokens adds one normalized token at a time. */
  lemma CleanStep(toks: seq<string>)
    requires toks != []
    ensures Concat(Clean(toks)) == Normalize(toks[0]) + Concat(Clean(toks[1..]))
  {
    var w, rest := Normalize(toks[0]), Clean(toks[1..]);
    if w == [] {
      assert w + Concat(rest) == Concat(rest);
    } else {
      assert ([w] + rest)[1..] == rest;
    }
  }

  /**
   Nothing of a line is lost or invented on the way to its words: their
   concatenation is the normalization of the whole line.
   */
  lemma LineWordsConcat(line: string)
    ensures Concat(LineWords(line)) == Normalize(line)
  {
    SplitRoundTrip(line);
    InterleaveNormalize(Split(line), Separators(line));
  }

  /** A line without word characters (an empty line, blanks, punctuation) contributes nothing. */
  lemma BlankLine(line: string)
    requires forall i :: 0 <= i < |line| ==> !IsWordChar(line[i])
    ensures LineWords(line) == []
  {
    NormalizeEmpty(line);
    LineWordsConcat(line);
    ConcatEmpty(LineWords(line));
  }

  lemma {:induction false} ConcatEmpty(ws: seq<string>)
    requires AllWords(ws) && Concat(ws) == []
    ensures ws == []
  {
  }

  /** Cleaning a stream of words changes nothing: cleaning is idempotent. */
  lemma {:induction false} CleanWords(ws: seq<string>)
    requires AllWords(ws)
    ensures Clean(ws) == ws
  {
    if ws != [] {
      NormalizeFixpoint(ws[0]);
      CleanWords(ws[1..]);
    }
  }
}
