/** Pieces of text, where they stand and where they are found. */
module Texts {
  import opened Wrappers

  /** Does `word` stand at position `p`? (`substr(p, n) == word`) */
  predicate Has(s: string, p: nat, word: string) {
    p + |word| <= |s| && s[p..p + |word|] == word
  }

  lemma HasSplit(s: string, p: nat, a: string, b: string)
    requires Has(s, p, a + b)
    ensures Has(s, p, a) && Has(s, p + |a|, b)
  {
    var t := s[p..p + |a + b|];
    assert t[..|a|] == a && t[|a|..] == b;
    assert s[p..p + |a|] == t[..|a|];
    assert s[p + |a|..p + |a| + |b|] == t[|a|..];
  }

  lemma HasJoin(s: string, p: nat, a: string, b: string)
    requires Has(s, p, a) && Has(s, p + |a|, b)
    ensures Has(s, p, a + b)
  {
    assert s[p..p + |a + b|] == s[p..p + |a|] + s[p + |a|..p + |a| + |b|];
  }

  lemma HasJoinFour(s: string, p: nat, a: string, b: string, c: string, d: string)
    requires Has(s, p, a) && Has(s, p + |a|, b) && Has(s, p + |a| + |b|, c) && Has(s, p + |a| + |b| + |c|, d)
    ensures Has(s, p, a + (b + (c + d)))
  {
    hide Has;
    HasJoin(s, p + |a| + |b|, c, d);
    HasJoin(s, p + |a|, b, c + d);
    HasJoin(s, p, a, b + (c + d));
  }

  lemma HasSlice(s: string, p: nat, q: nat)
    requires p <= q <= |s|
    ensures Has(s, p, s[p..q]) && |s[p..q]| == q - p
  {
  }

  lemma HasOne(s: string, p: nat)
    requires p < |s|
    ensures Has(s, p, [s[p]])
  {
  }

  lemma HasEnds(s: string, p: nat, a: string)
    requires Has(s, p, a)
    ensures p + |a| <= |s|
  {
  }

  lemma HasThree(s: string, p: nat, a: string, b: string, c: string)
    requires Has(s, p, a + (b + c))
    ensures Has(s, p, a) && Has(s, p + |a|, b) && Has(s, p + |a| + |b|, c)
  {
    hide Has;
    HasSplit(s, p, a, b + c);
    HasSplit(s, p + |a|, b, c);
  }

  lemma HasFour(s: string, p: nat, a: string, b: string, c: string, d: string)
    requires Has(s, p, a + (b + (c + d)))
    ensures Has(s, p, a) && Has(s, p + |a|, b) && Has(s, p + |a| + |b|, c) && Has(s, p + |a| + |b| + |c|, d)
  {
    hide Has;
    HasSplit(s, p, a, b + (c + d));
    HasThree(s, p + |a|, b, c, d);
  }

  /** The text up to the first character of its second part. */
  lemma HasFirst(s: string, p: nat, a: string, b: string)
    requires b != "" && Has(s, p, a + b)
    ensures Has(s, p, a + [b[0]])
  {
    assert a + b == (a + [b[0]]) + b[1..];
    HasSplit(s, p, a + [b[0]], b[1..]);
  }

  lemma HasAt(s: string, p: nat, a: string, i: nat)
    requires Has(s, p, a) && i < |a|
    ensures p + i < |s| && s[p + i] == a[i]
  {
    assert s[p + i] == s[p..p + |a|][i];
  }

  /** `std::string::find`: the first occurrence from `i` on. */
  function FindFrom(s: string, word: string, i: nat): (pos: Option<nat>)
    requires i <= |s|
    ensures pos.Some? ==> i <= pos.value && Has(s, pos.value, word)
    ensures pos.Some? ==> forall k :: i <= k < pos.value ==> !Has(s, k, word)
    ensures pos.None? ==> forall k :: i <= k ==> !Has(s, k, word)
    decreases |s| - i
  {
    if Has(s, i, word) then Some(i)
    else if i == |s| then None
    else FindFrom(s, word, i + 1)
  }

  function Find(s: string, word: string): (pos: Option<nat>)
    ensures pos.Some? ==> Has(s, pos.value, word) && forall k :: 0 <= k < pos.value ==> !Has(s, k, word)
    ensures pos.None? ==> forall k: nat :: !Has(s, k, word)
  {
    FindFrom(s, word, 0)
  }

  /** `std::string(n, ' ')` */
  function Blanks(n: nat): (s: string)
    ensures |s| == n && forall i :: 0 <= i < n ==> s[i] == ' '
  {
    seq(n, _ => ' ')
  }

  lemma {:induction false} DistinctSize<T>(s: seq<T>)
    requires forall i, j :: 0 <= i < j < |s| ==> s[i] != s[j]
    ensures |set x | x in s| == |s|
  {
    if s != [] {
      var last := |s| - 1;
      DistinctSize(s[..last]);
      assert s == s[..last] + [s[last]];
      assert (set x | x in s) == (set x | x in s[..last]) + {s[last]};
    }
  }
}
