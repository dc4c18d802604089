/**
 * The document normaliser in `read_gpx_file` (src/main.rs:146-152): a
 * literal `str::replace` that deletes every occurrence of one fixed
 * fragment, an empty author inside a copyright element in one exact
 * layout, before the text is decoded.
 */
module Normalize {
  import opened Seqs

  /** The opening tag the fragment starts with. */
  const OpeningTag: string := "<copyright>"

  /** What follows the opening tag: the empty author and the closing tag. */
  const TagBody: string := "\n" + "            <author></author>\n        </copyright>"

  /** The deleted fragment, character for character (src/main.rs:150). */
  const Fragment: string := OpeningTag + TagBody

  /** `pat` occurs in `s` starting at position `i`. */
  predicate MatchAt(s: string, pat: string, i: nat) {
    i + |pat| <= |s| && s[i..i + |pat|] == pat
  }

  /**
   * `s.replace(pat, "")`: scan left to right; at each position where `pat`
   * starts, drop it and go on after it, otherwise keep the character. So the
   * occurrences removed are the non-overlapping ones found left to right.
   */
  function DeleteAll(s: string, pat: string): (r: string)
    requires |pat| > 0
    ensures |r| <= |s|
    decreases |s|
  {
    if |s| < |pat| then s
    else if s[..|pat|] == pat then DeleteAll(s[|pat|..], pat)
    else [s[0]] + DeleteAll(s[1..], pat)
  }

  /** What `read_gpx_file` hands to the decoder. */
  function NormalizeDocument(contents: string): (r: string)
    ensures |r| <= |contents| && Subsequence(r, contents)
  {
    DeleteAllSubsequence(contents, Fragment);
    DeleteAll(contents, Fragment)
  }

  /** An occurrence in the tail is an occurrence one place further on in the whole. */
  lemma MatchShift(s: string, pat: string, i: nat)
    requires s != []
    ensures MatchAt(s[1..], pat, i) <==> MatchAt(s, pat, i + 1)
  {
    if i + 1 + |pat| <= |s| {
      assert s[1..][i..i + |pat|] == s[i + 1..i + 1 + |pat|];
    }
  }

  /** With no occurrence of the fragment the text is returned unchanged. */
  lemma {:induction false} DeleteAllAbsent(s: string, pat: string)
    requires |pat| > 0
    requires forall i: nat :: !MatchAt(s, pat, i)
    ensures DeleteAll(s, pat) == s
  {
    if |s| >= |pat| {
      assert !MatchAt(s, pat, 0);
      forall i: nat ensures !MatchAt(s[1..], pat, i) {
        MatchShift(s, pat, i);
      }
      DeleteAllAbsent(s[1..], pat);
      assert s == [s[0]] + s[1..];
    }
  }

  /**
   * The leftmost occurrence is the first one removed: the text before it is
   * kept as it is, and the rest is processed from just after it. This is
   * the `match_indices` loop of `str::replace`.
   */
  lemma {:induction false} DeleteAllFirstMatch(s: string, pat: string, i: nat)
    requires |pat| > 0 && MatchAt(s, pat, i)
    requires forall j: nat :: j < i ==> !MatchAt(s, pat, j)
    ensures DeleteAll(s, pat) == s[..i] + DeleteAll(s[i + |pat|..], pat)
  {
    if i == 0 {
      assert s[..|pat|] == pat;
      assert s[..0] == [];
    } else {
      NoMatchesInTail(s, pat, i);
      DeleteAllFirstMatch(s[1..], pat, i - 1);
      assert s[1..][i - 1 + |pat|..] == s[i + |pat|..];
      DeleteAllKeepPrefix(s, pat, i, DeleteAll(s[i + |pat|..], pat));
    }
  }

  /** Where no occurrence starts, the first character is kept. */
  lemma DeleteAllKeep(s: string, pat: string)
    requires |pat| > 0 && |s| >= |pat| && !MatchAt(s, pat, 0)
    ensures DeleteAll(s, pat) == [s[0]] + DeleteAll(s[1..], pat)
  {
    assert s[0..|pat|] == s[..|pat|];
  }

  /** The kept first character joins the kept prefix of the tail. */
  lemma DeleteAllKeepPrefix(s: string, pat: string, i: nat, rest: string)
    requires |pat| > 0 && 0 < i && i + |pat| <= |s| && !MatchAt(s, pat, 0)
    requires DeleteAll(s[1..], pat) == s[1..][..i - 1] + rest
    ensures DeleteAll(s, pat) == s[..i] + rest
  {
    DeleteAllKeep(s, pat);
    SliceCons(s, i);
    ConsAssoc(s[0], s[1..][..i - 1], rest);
  }

  lemma NoMatchesInTail(s: string, pat: string, i: nat)
    requires 0 < i && MatchAt(s, pat, i)
    requires forall j: nat :: j < i ==> !MatchAt(s, pat, j)
    ensures MatchAt(s[1..], pat, i - 1)
    ensures forall j: nat :: j < i - 1 ==> !MatchAt(s[1..], pat, j)
  {
    MatchShift(s, pat, i - 1);
    forall j: nat | j < i - 1 ensures !MatchAt(s[1..], pat, j) {
      MatchShift(s, pat, j);
    }
  }

  /** `a` is `b` with some characters left out (and the rest kept in order). */
  predicate Subsequence(a: string, b: string)
    decreases |b|
  {
    if a == [] then true
    else if b == [] then false
    else if a[0] == b[0] then Subsequence(a[1..], b[1..])
    else Subsequence(a, b[1..])
  }

  lemma {:induction false} SubsequenceCons(a: string, x: char, b: string)
    requires Subsequence(a, b)
    ensures Subsequence(a, [x] + b)
    decreases |b|
  {
    assert ([x] + b)[1..] == b;
    if a != [] && a[0] == x {
      if a[0] == b[0] {
        SubsequenceCons(a[1..], b[0], b[1..]);
        assert [b[0]] + b[1..] == b;
      } else {
        SubsequenceCons(a, x, b[1..]);
        assert ([x] + b[1..])[1..] == b[1..];
        SubsequenceCons(a[1..], b[0], b[1..]);
        assert [b[0]] + b[1..] == b;
      }
    }
  }

  lemma {:induction false} SubsequencePrepend(a: string, c: string, b: string)
    requires Subsequence(a, b)
    ensures Subsequence(a, c + b)
  {
    if c != [] {
      SubsequencePrepend(a, c[1..], b);
      SubsequenceCons(a, c[0], c[1..] + b);
      assert c + b == [c[0]] + (c[1..] + b);
    } else {
      assert c + b == b;
    }
  }

  lemma {:induction false} SubsequenceRefl(a: string)
    ensures Subsequence(a, a)
  {
    if a != [] {
      SubsequenceRefl(a[1..]);
    }
  }

  /** Deleting keeps every other character, in order. */
  lemma {:induction false} DeleteAllSubsequence(s: string, pat: string)
    requires |pat| > 0
    ensures Subsequence(DeleteAll(s, pat), s)
    decreases |s|
  {
    if |s| < |pat| {
      SubsequenceRefl(s);
    } else if s[..|pat|] == pat {
      DeleteAllSubsequence(s[|pat|..], pat);
      SubsequencePrepend(DeleteAll(s[|pat|..], pat), s[..|pat|], s[|pat|..]);
      assert s[..|pat|] + s[|pat|..] == s;
    } else {
      DeleteAllSubsequence(s[1..], pat);
      var r := [s[0]] + DeleteAll(s[1..], pat);
      assert r[0] == s[0] && r[1..] == DeleteAll(s[1..], pat);
    }
  }

  /**
   * Normalising is not idempotent: in the fragment's opening tag followed by
   * the whole fragment followed by the rest of the fragment, the one
   * occurrence found is deleted, and what is left around it is the fragment
   * again, which a second pass deletes.
   */
  lemma NotIdempotent()
    ensures var s := OpeningTag + Fragment + Fragment[|OpeningTag|..];
            NormalizeDocument(s) == Fragment &&
            NormalizeDocument(NormalizeDocument(s)) == [] &&
            NormalizeDocument(NormalizeDocument(s)) != NormalizeDocument(s)
  {
    var n, k := |Fragment|, |OpeningTag|;
    var s := OpeningTag + Fragment + Fragment[k..];
    assert n == 62 && k == 11;
    assert s[k..k + n] == Fragment;
    assert Fragment[0] == OpeningTag[0] == '<' && Fragment[k] == TagBody[0] == '\n';
    forall j: nat | j < k ensures !MatchAt(s, Fragment, j) {
      if j == 0 {
        assert s[k] == Fragment[0];
        assert s[j..j + n][k] != Fragment[k];
      } else {
        assert s[j] == OpeningTag[j];
        assert s[j..j + n][0] != Fragment[0];
      }
    }
    DeleteAllFirstMatch(s, Fragment, k);
    assert s[k + n..] == Fragment[k..];
    assert s[..k] + Fragment[k..] == Fragment;
    assert Fragment[..n] == Fragment && Fragment[n..] == [];
  }
}
