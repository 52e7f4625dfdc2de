/**
 Normalizer: `lower(regexp_replace(word, "[^\w]", ""))`.

 Every character outside Java's non-Unicode word class `\w` = [A-Za-z0-9_]
 is deleted, then the rest is lowercased. After the deletion only ASCII
 characters remain, so ASCII lowercasing gives exactly what Java's
 `toLowerCase` gives on them.
 */
module Normalizer {

  /** Java's predefined class `\w` without the Unicode flag. */
  predicate IsWordChar(c: char) {
    'a' <= c <= 'z' || 'A' <= c <= 'Z' || '0' <= c <= '9' || c == '_'
  }

  /** The characters a normalized word is made of. */
  predicate IsLowerWordChar(c: char) {
    'a' <= c <= 'z' || '0' <= c <= '9' || c == '_'
  }

  /** A word that normalization leaves as it is (possibly empty). */
  predicate IsNormalized(w: string) {
    forall i :: 0 <= i < |w| ==> IsLowerWordChar(w[i])
  }

  function LowerChar(c: char): (r: char)
    ensures 'A' <= c <= 'Z' ==> 'a' <= r <= 'z' && r as int == c as int + 32
    ensures !('A' <= c <= 'Z') ==> r == c
    ensures IsWordChar(c) ==> IsLowerWordChar(r)
  {
    if 'A' <= c <= 'Z' then (c as int + 32) as char else c
  }

  /** `regexp_replace(s, "[^\w]", "")`: the word characters of `s`, in order. */
  function StripNonWord(s: string): (r: string)
    ensures |r| <= |s|
    ensures forall i :: 0 <= i < |r| ==> IsWordChar(r[i])
    ensures (forall i :: 0 <= i < |s| ==> IsWordChar(s[i])) ==> r == s
    ensures (forall i :: 0 <= i < |s| ==> !IsWordChar(s[i])) ==> r == []
  {
    if s == [] then []
    else if IsWordChar(s[0]) then [s[0]] + StripNonWord(s[1..])
    else StripNonWord(s[1..])
  }

  /** `lower(s)`, character by character. */
  function Lower(s: string): (r: string)
    ensures |r| == |s|
    ensures forall i :: 0 <= i < |s| ==> r[i] == LowerChar(s[i])
  {
    if s == [] then [] else [LowerChar(s[0])] + Lower(s[1..])
  }

  /** One raw token cleaned: non-word characters removed, then lowercased. */
  function Normalize(s: string): (r: string)
    ensures |r| <= |s| && IsNormalized(r)
  {
    Lower(StripNonWord(s))
  }

  /** On one character, normalization keeps a lowered word character or drops it. */
  lemma NormalizeChar(c: char)
    ensures Normalize([c]) == if IsWordChar(c) then [LowerChar(c)] else []
  {
    assert [c][1..] == [];
  }

  /** Normalization works character by character: it distributes over concatenation. */
  lemma {:induction false} NormalizeAppend(a: string, b: string)
    ensures Normalize(a + b) == Normalize(a) + Normalize(b)
  {
    StripAppend(a, b);
    LowerAppend(StripNonWord(a), StripNonWord(b));
  }

  lemma {:induction false} StripAppend(a: string, b: string)
    ensures StripNonWord(a + b) == StripNonWord(a) + StripNonWord(b)
  {
    if a != [] {
      assert (a + b)[1..] == a[1..] + b;
      StripAppend(a[1..], b);
    } else {
      assert a + b == b;
    }
  }

  lemma LowerAppend(a: string, b: string)
    ensures Lower(a + b) == Lower(a) + Lower(b)
  {
    var l, r := Lower(a + b), Lower(a) + Lower(b);
    forall i | 0 <= i < |l| ensures l[i] == r[i] {
      if i < |a| {
        assert (a + b)[i] == a[i];
      } else {
        assert (a + b)[i] == b[i - |a|];
      }
    }
  }

  /** The normalized words are exactly the fixed points of normalization. */
  lemma NormalizeFixpoint(w: string)
    ensures Normalize(w) == w <==> IsNormalized(w)
  {
    if IsNormalized(w) {
      assert forall i :: 0 <= i < |w| ==> IsWordChar(w[i]);
      assert StripNonWord(w) == w;
      assert forall i :: 0 <= i < |w| ==> LowerChar(w[i]) == w[i];
    }
  }

  /** Normalizing twice is normalizing once. */
  lemma NormalizeIdempotent(s: string)
    ensures Normalize(Normalize(s)) == Normalize(s)
  {
    NormalizeFixpoint(Normalize(s));
  }

  /** A token becomes empty exactly when it holds no word character. */
  lemma {:induction false} NormalizeEmpty(s: string)
    ensures Normalize(s) == [] <==> forall i :: 0 <= i < |s| ==> !IsWordChar(s[i])
  {
    if s != [] {
      NormalizeEmpty(s[1..]);
      assert forall i :: 1 <= i < |s| ==> s[i] == s[1..][i - 1];
    }
  }
}
