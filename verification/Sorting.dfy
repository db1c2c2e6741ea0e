// Ordering of texts as the containers compare them, and the facts about
// swapping and partitioning that both sorts rest on.

module Sorting {
  import opened Strings

  // StrCmp, in either direction.
  function StrCmp(s: string, t: string, opposite: bool): int {
    if s == t then 0
    else if opposite then (if StrLess(t, s) then -1 else 1)
    else (if StrLess(t, s) then 1 else -1)
  }

  predicate Le(s: string, t: string, opposite: bool) {
    StrCmp(s, t, opposite) <= 0
  }

  // Upwards the smaller text comes first, downwards the greater one.
  lemma LeIs(s: string, t: string, opposite: bool)
    ensures Le(s, t, opposite) <==>
            s == t || if opposite then exists n: nat :: DiffersAt(t, s, n) else exists n: nat :: DiffersAt(s, t, n)
  {
    hide DiffersAt, StrLess;
    StrTotal(s, t);
    StrLessIs(s, t);
    StrLessIs(t, s);
  }

  lemma LeTotal(s: string, t: string, opposite: bool)
    ensures Le(s, t, opposite) || Le(t, s, opposite)
    ensures Le(s, t, opposite) && Le(t, s, opposite) ==> s == t
    ensures Le(s, s, opposite)
  {
    StrTotal(s, t);
  }

  lemma LeTrans(s: string, t: string, u: string, opposite: bool)
    requires Le(s, t, opposite) && Le(t, u, opposite)
    ensures Le(s, u, opposite)
  {
    StrTotal(s, t);
    StrTotal(t, u);
    StrTotal(s, u);
    if s != t && t != u {
      if opposite { StrTrans(u, t, s); } else { StrTrans(s, t, u); }
    }
  }

  function SwapAt<T>(s: seq<T>, i: nat, k: nat): (r: seq<T>)
    requires i < |s| && k < |s|
    ensures |r| == |s|
  {
    s[i := s[k]][k := s[i]]
  }

  // The same elements in [lo, hi), and nothing changed elsewhere.
  ghost predicate Permuted<T>(s: seq<T>, before: seq<T>, lo: nat, hi: nat) {
    && |s| == |before| && lo <= hi <= |s|
    && multiset(s[lo..hi]) == multiset(before[lo..hi])
    && s[..lo] == before[..lo] && s[hi..] == before[hi..]
  }

  lemma SwapPermutes<T>(s: seq<T>, i: nat, k: nat, lo: nat, hi: nat)
    requires lo <= i < hi <= |s| && lo <= k < hi
    ensures Permuted(SwapAt(s, i, k), s, lo, hi)
  {
    var t := s[lo..hi];
    assert SwapAt(s, i, k)[lo..hi] == t[i - lo := t[k - lo]][k - lo := t[i - lo]];
  }

  lemma PermutedTrans<T>(s: seq<T>, t: seq<T>, u: seq<T>, lo: nat, hi: nat)
    requires Permuted(s, t, lo, hi) && Permuted(t, u, lo, hi)
    ensures Permuted(s, u, lo, hi)
  {
  }

  // A permutation of a part is a permutation of the whole.
  lemma Widen<T>(s: seq<T>, t: seq<T>, lo: nat, hi: nat, lo': nat, hi': nat)
    requires Permuted(s, t, lo, hi) && lo' <= lo && hi <= hi' <= |s|
    ensures Permuted(s, t, lo', hi')
  {
    assert s[lo'..hi'] == s[..lo][lo'..] + s[lo..hi] + s[hi..][..hi' - hi];
    assert t[lo'..hi'] == t[..lo][lo'..] + t[lo..hi] + t[hi..][..hi' - hi];
    assert s[..lo'] == s[..lo][..lo'] && t[..lo'] == t[..lo][..lo'];
    assert s[hi'..] == s[hi..][hi' - hi..] && t[hi'..] == t[hi..][hi' - hi..];
  }

  // Elements outside the range stay, elements inside are among the old ones.
  lemma Elements<T>(s: seq<T>, t: seq<T>, lo: nat, hi: nat, x: nat)
    requires Permuted(s, t, lo, hi) && x < |s|
    ensures x < lo || x >= hi ==> s[x] == t[x]
    ensures lo <= x < hi ==> exists y :: lo <= y < hi && t[y] == s[x]
  {
    if x < lo {
      assert s[..lo][x] == t[..lo][x];
    } else if x >= hi {
      assert s[hi..][x - hi] == t[hi..][x - hi];
    } else {
      assert s[lo..hi][x - lo] in multiset(t[lo..hi]);
      var y :| 0 <= y < hi - lo && t[lo..hi][y] == s[x];
      assert t[lo + y] == s[x];
    }
  }

  // Ascending or descending over [lo, hi).
  predicate Ordered(s: seq<string>, opposite: bool, lo: nat, hi: nat) {
    hi <= |s| && forall x, y :: lo <= x < y < hi ==> Le(s[x], s[y], opposite)
  }

  predicate AllLe(s: seq<string>, opposite: bool, lo: nat, hi: nat, pivot: string) {
    hi <= |s| && forall x :: lo <= x < hi ==> Le(s[x], pivot, opposite)
  }

  predicate AllGt(s: seq<string>, opposite: bool, lo: nat, hi: nat, pivot: string) {
    hi <= |s| && forall x :: lo <= x < hi ==> !Le(s[x], pivot, opposite)
  }

  // What is known once the pivot stands at k: nothing greater before it,
  // nothing smaller after it.
  predicate Parted(s: seq<string>, opposite: bool, lo: nat, k: nat, hi: nat) {
    && lo <= k < hi <= |s|
    && AllLe(s, opposite, lo, k, s[k])
    && AllGt(s, opposite, k + 1, hi, s[k])
  }

  // Sorting the part before k keeps what was known.
  lemma PartedLeft(s: seq<string>, t: seq<string>, opposite: bool, lo: nat, k: nat, hi: nat)
    requires Parted(t, opposite, lo, k, hi) && Permuted(s, t, lo, k)
    ensures Parted(s, opposite, lo, k, hi)
  {
    Elements(s, t, lo, k, k);
    forall x | lo <= x < k ensures Le(s[x], s[k], opposite) { Elements(s, t, lo, k, x); }
    forall x | k + 1 <= x < hi ensures !Le(s[x], s[k], opposite) { Elements(s, t, lo, k, x); }
  }

  lemma PartedRight(s: seq<string>, t: seq<string>, opposite: bool, lo: nat, k: nat, hi: nat)
    requires Parted(t, opposite, lo, k, hi) && Permuted(s, t, k + 1, hi)
    ensures Parted(s, opposite, lo, k, hi)
  {
    Elements(s, t, k + 1, hi, k);
    forall x | lo <= x < k ensures Le(s[x], s[k], opposite) { Elements(s, t, k + 1, hi, x); }
    forall x | k + 1 <= x < hi ensures !Le(s[x], s[k], opposite) { Elements(s, t, k + 1, hi, x); }
  }

  lemma OrderedKept(s: seq<string>, t: seq<string>, opposite: bool, lo: nat, hi: nat, lo': nat, hi': nat)
    requires Ordered(t, opposite, lo, hi) && Permuted(s, t, lo', hi') && (hi <= lo' || hi' <= lo)
    ensures Ordered(s, opposite, lo, hi)
  {
    forall x | lo <= x < hi ensures s[x] == t[x] { Elements(s, t, lo', hi', x); }
  }

  // Two ordered parts around the pivot are ordered together.
  lemma OrderedAround(s: seq<string>, opposite: bool, lo: nat, k: nat, hi: nat)
    requires Parted(s, opposite, lo, k, hi)
    requires Ordered(s, opposite, lo, k) && Ordered(s, opposite, k + 1, hi)
    ensures Ordered(s, opposite, lo, hi)
  {
    forall x, y | lo <= x < y < hi ensures Le(s[x], s[y], opposite) {
      if y > k { LeTotal(s[k], s[y], opposite); }
      if x < k < y { LeTrans(s[x], s[k], s[y], opposite); }
    }
  }

  // While the two scans run: small elements up to i, great ones after k.
  predicate Scanning(s: seq<string>, opposite: bool, lo: nat, hi: nat, i: nat, k: int, pivot: string) {
    && lo < hi <= |s| && lo <= i <= k + 1 && k < hi
    && s[lo] == pivot
    && AllLe(s, opposite, lo, i, pivot)
    && AllGt(s, opposite, k + 1, hi, pivot)
  }

  lemma SwapScanning(s: seq<string>, opposite: bool, lo: nat, hi: nat, i: nat, k: nat, pivot: string)
    requires Scanning(s, opposite, lo, hi, i, k, pivot) && lo < i < k
    requires Le(s[k], pivot, opposite)
    ensures Scanning(SwapAt(s, i, k), opposite, lo, hi, i, k, pivot)
    ensures Le(SwapAt(s, i, k)[i], pivot, opposite) && SwapAt(s, i, k)[lo] == s[lo]
  {
  }

  // Putting the pivot in its place.
  lemma PlacePivot(s: seq<string>, opposite: bool, lo: nat, hi: nat, i: nat, k: nat, pivot: string)
    requires Scanning(s, opposite, lo, hi, i, k, pivot) && lo <= k <= i && Le(s[k], pivot, opposite)
    ensures Parted(SwapAt(s, lo, k), opposite, lo, k, hi)
  {
  }
}
