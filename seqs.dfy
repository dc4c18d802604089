/**
 * Small facts about sequences, stated once for any element type. Several
 * are plain associativity that Dafny proves unaided; they exist so that the
 * proofs using them name the regrouping instead of leaving the solver to
 * search for it on long strings.
 */
module Seqs {
  /** Cutting a sequence at `j` is cutting its tail at `j - 1`, with the head in front. */
  lemma SliceCons<T>(s: seq<T>, j: nat)
    requires 0 < j <= |s|
    ensures s[..j] == [s[0]] + s[1..][..j - 1] && s[j..] == s[1..][j - 1..]
  {
    assert s[..j] == [s[0]] + s[1..j];
  }

  /** Regrouping a splice with a head element. */
  lemma SpliceAssoc<T>(h: T, a: seq<T>, x: T, b: seq<T>)
    ensures [h] + (a + [x] + b) == ([h] + a) + [x] + b
  {
    assert [h] + (a + [x] + b) == [h] + a + ([x] + b);
  }

  /** Regrouping a concatenation with a head element. */
  lemma ConsAssoc<T>(h: T, a: seq<T>, b: seq<T>)
    ensures [h] + (a + b) == ([h] + a) + b
  {
  }

  /** Three pieces with separators, grouped to the right. */
  lemma Regroup3<T>(a: seq<T>, x: T, b: seq<T>, c: seq<T>)
    ensures a + [x] + b + [x] + c == a + [x] + (b + [x] + c)
  {
  }

  /** Four pieces with separators, grouped to the right. */
  lemma Regroup4<T>(a: seq<T>, x: T, b: seq<T>, c: seq<T>, d: seq<T>)
    ensures a + [x] + b + [x] + c + [x] + d == a + [x] + (b + [x] + (c + [x] + d))
  {
  }
}
