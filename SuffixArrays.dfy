/** The suffix array of the pattern (`cmp` and `buildSuffixArray`). */
module SuffixArrays {
  import opened Text

  /** `s` has n entries, each in 0 .. n-1. */
  ghost predicate InRange(s: seq<int>, n: int)
  {
    |s| == n && forall r :: 0 <= r < n ==> 0 <= s[r] < n
  }

  /** `s` lists each of 0 .. n-1 exactly once. */
  ghost predicate IsPermutation(s: seq<int>, n: int)
  {
    && InRange(s, n)
    && (forall r1, r2 :: 0 <= r1 < r2 < n ==> s[r1] != s[r2])
  }

  /** The suffix of `t` at u comes no later than the one at v. */
  ghost predicate SuffixLeq(t: seq<byte>, u: int, v: int)
    requires 0 <= u <= |t| && 0 <= v <= |t|
  {
    LexLeq(t[u..], t[v..])
  }

  /** Suffixes of `t` listed at successive ranks are lexicographically non-decreasing. */
  ghost predicate SortedSuffixes(t: seq<byte>, s: seq<int>)
    requires forall r :: 0 <= r < |s| ==> 0 <= s[r] <= |t|
  {
    forall r :: 1 <= r < |s| ==> SuffixLeq(t, s[r - 1], s[r])
  }

  /** `s` is the suffix array of `t`. */
  ghost predicate IsSuffixArray(t: seq<byte>, s: seq<int>)
  {
    IsPermutation(s, |t|) && SortedSuffixes(t, s)
  }

  // ---------------------------------------------------------------------------
  // Permutations
  // ---------------------------------------------------------------------------

  ghost function Image(s: seq<int>, k: int): set<int>
    requires 0 <= k <= |s|
  {
    set r | 0 <= r < k :: s[r]
  }

  lemma {:induction false} ImageSize(s: seq<int>, n: int, k: int)
    requires IsPermutation(s, n) && 0 <= k <= n
    ensures |Image(s, k)| == k
  {
    if k > 0 {
      ImageSize(s, n, k - 1);
      assert Image(s, k) == Image(s, k - 1) + {s[k - 1]};
      assert s[k - 1] !in Image(s, k - 1);
    }
  }

  /** The set {0, .., k-1}. */
  ghost function Below(k: int): (r: set<int>)
    ensures forall v :: v in r <==> 0 <= v < k
    ensures |r| == if k < 0 then 0 else k
    decreases k
  {
    if k <= 0 then {} else Below(k - 1) + {k - 1}
  }

  /** Pigeonhole: n distinct values drawn from 0 .. n-1 include every one of them. */
  lemma PermutationOnto(s: seq<int>, n: int, j: int)
    requires IsPermutation(s, n) && 0 <= j < n
    ensures exists r :: 0 <= r < n && s[r] == j
  {
    var img := Image(s, n);
    ImageSize(s, n, n);
    var rest := Below(n) - {j};
    assert j !in img ==> img <= rest;
    assert rest == img + (rest - img) || j in img;
  }

  lemma SwapKeepsPermutation(s: seq<int>, n: int, i: int, j: int)
    requires IsPermutation(s, n) && 0 <= i < n && 0 <= j < n
    ensures IsPermutation(s[i := s[j]][j := s[i]], n)
  {
    var s' := s[i := s[j]][j := s[i]];
    forall r1, r2 | 0 <= r1 < r2 < n
      ensures s'[r1] != s'[r2]
    {
      var o1 := if r1 == j then i else if r1 == i then j else r1;
      var o2 := if r2 == j then i else if r2 == i then j else r2;
      assert s'[r1] == s[o1] && s'[r2] == s[o2] && o1 != o2;
    }
  }

  lemma IdentityIsPermutation(s: seq<int>, n: int)
    requires |s| == n && forall k :: 0 <= k < n ==> s[k] == k
    ensures IsPermutation(s, n)
  {
  }

  /** In a suffix array every rank is at most every later one, not just the next. */
  lemma {:induction false} SortedGlobally(t: seq<byte>, s: seq<int>, r1: int, r2: int)
    requires InRange(s, |t|) && SortedSuffixes(t, s) && 0 <= r1 <= r2 < |s|
    ensures LexLeq(t[s[r1]..], t[s[r2]..])
    decreases r2 - r1
  {
    if r1 == r2 {
      LexLeqReflexive(t[s[r1]..]);
    } else {
      SortedGlobally(t, s, r1, r2 - 1);
      LexLeqTransitive(t[s[r1]..], t[s[r2 - 1]..], t[s[r2]..]);
    }
  }

  // ---------------------------------------------------------------------------
  // cmp and buildSuffixArray
  // ---------------------------------------------------------------------------

  /** After a common prefix of length k that ends at the first difference or at the end
      of either suffix, the byte pair there decides the order of the suffixes at a and b. */
  lemma CmpDecides(t: seq<byte>, a: int, b: int, k: int)
    requires 0 <= a && 0 <= b && 0 <= k && a + k <= |t| && b + k <= |t|
    requires t[a..a + k] == t[b..b + k]
    requires a + k == |t| || b + k == |t| || t[a + k] != t[b + k]
    ensures SuffixLeq(t, b, a) <==> !(b + k < |t| && (a + k == |t| || t[a + k] < t[b + k]))
  {
    assert t[b..][..k] == t[b..b + k] && t[a..][..k] == t[a..a + k];
    LexLeqAfterCommonPrefix(t[b..], t[a..], k);
    assert t[b..][k..] == t[b + k..] && t[a..][k..] == t[a + k..];
  }

  /** `cmp`: 0 when the suffix of txt[..n] at a sorts strictly before the one at b,
      1 otherwise. The comparison stops at n instead of at a NUL byte. */
  method Cmp(txt: array<byte>, n: int, a: int, b: int) returns (c: int)
    requires 0 <= n <= txt.Length && 0 <= a <= n && 0 <= b <= n
    ensures c == (if SuffixLeq(txt[..n], b, a) then 1 else 0)
  {
    ghost var t := txt[..n];
    var k := 0;
    while a + k < n && b + k < n && txt[a + k] == txt[b + k]
      invariant 0 <= k && a + k <= n && b + k <= n
      invariant t[a..a + k] == t[b..b + k]
    {
      assert t[a..a + k + 1] == t[a..a + k] + [t[a + k]];
      assert t[b..b + k + 1] == t[b..b + k] + [t[b + k]];
      k := k + 1;
    }
    CmpDecides(t, a, b, k);
    if b + k < n && (a + k == n || txt[a + k] < txt[b + k]) {
      c := 0;
    } else {
      c := 1;
    }
  }

  /** Exchanges a[i] and a[j]. */
  method Swap(a: array<int>, i: int, j: int)
    requires 0 <= i < a.Length && 0 <= j < a.Length
    modifies a
    ensures a[..] == old(a[..])[i := old(a[j])][j := old(a[i])]
  {
    a[i], a[j] := a[j], a[i];
  }

  /** Exchanging two adjacent entries below k rearranges a[..k] and leaves a[k..] alone. */
  lemma SwapInPrefix(a: seq<int>, j: int, k: int)
    requires 0 < j < k <= |a|
    ensures a[j - 1 := a[j]][j := a[j - 1]][k..] == a[k..]
    ensures multiset(a[j - 1 := a[j]][j := a[j - 1]][..k]) == multiset(a[..k])
  {
    var b := a[j - 1 := a[j]][j := a[j - 1]];
    assert b[..k] == a[..k][j - 1 := a[j]][j := a[j - 1]];
  }

  /** Entries lo .. hi-1 of `a` are in suffix order. */
  ghost predicate SortedRange(t: seq<byte>, a: seq<int>, lo: int, hi: int)
    requires 0 <= lo && hi <= |a| && forall r :: 0 <= r < |a| ==> 0 <= a[r] <= |t|
  {
    forall r :: lo < r < hi ==> SuffixLeq(t, a[r - 1], a[r])
  }

  /** What holds while a[i] moves down to position j in the insertion sort. */
  ghost predicate Inserting(t: seq<byte>, a: seq<int>, i: int, j: int)
    requires 0 <= j <= i < |a| && forall r :: 0 <= r < |a| ==> 0 <= a[r] <= |t|
  {
    && SortedRange(t, a, 0, j)
    && SortedRange(t, a, j, i + 1)
    && (0 < j < i ==> SuffixLeq(t, a[j - 1], a[j + 1]))
  }

  /** Swapping a[j-1] and a[j] when a[j] sorts strictly first moves the insertion down. */
  lemma InsertingStep(t: seq<byte>, a: seq<int>, i: int, j: int)
    requires IsPermutation(a, |t|) && 0 < j <= i < |a|
    requires Inserting(t, a, i, j) && !SuffixLeq(t, a[j - 1], a[j])
    ensures IsPermutation(a[j - 1 := a[j]][j := a[j - 1]], |t|)
    ensures Inserting(t, a[j - 1 := a[j]][j := a[j - 1]], i, j - 1)
  {
    LexLeqTotal(t[a[j]..], t[a[j - 1]..]);
    SwapKeepsPermutation(a, |t|, j - 1, j);
  }

  /** The insertion stops once a[j-1] sorts no later than a[j]. */
  lemma InsertingDone(t: seq<byte>, a: seq<int>, i: int, j: int)
    requires IsPermutation(a, |t|) && 0 <= j <= i < |a|
    requires Inserting(t, a, i, j) && (j == 0 || SuffixLeq(t, a[j - 1], a[j]))
    ensures SortedRange(t, a, 0, i + 1)
  {
  }

  /** One step of the insertion sort: moves a[i] down into the sorted a[..i]. */
  method InsertSuffix(txt: array<byte>, n: int, a: array<int>, i: int)
    requires 0 <= n <= txt.Length && IsPermutation(a[..], n) && 0 <= i < n
    requires SortedRange(txt[..n], a[..], 0, i)
    modifies a
    ensures IsPermutation(a[..], n) && SortedRange(txt[..n], a[..], 0, i + 1)
    ensures a[i + 1..] == old(a[i + 1..])
    ensures multiset(a[..i + 1]) == multiset(old(a[..i + 1]))
  {
    ghost var t := txt[..n];
    var j := i;
    while j > 0
      invariant 0 <= j <= i && IsPermutation(a[..], n) && txt[..n] == t
      invariant Inserting(t, a[..], i, j)
      invariant a[i + 1..] == old(a[i + 1..])
      invariant multiset(a[..i + 1]) == multiset(old(a[..i + 1]))
    {
      var c := Cmp(txt, n, a[j], a[j - 1]);
      if c != 0 {
        break;
      }
      InsertingStep(t, a[..], i, j);
      SwapInPrefix(a[..], j, i + 1);
      Swap(a, j - 1, j);
      j := j - 1;
    }
    InsertingDone(t, a[..], i, j);
  }

  /** Sorts the suffix indices in `a` (the role `qsort` plays in the source):
      insertion by adjacent swaps, driven by `Cmp`. */
  method SortSuffixes(txt: array<byte>, n: int, a: array<int>)
    requires 0 <= n <= txt.Length && IsPermutation(a[..], n)
    modifies a
    ensures IsPermutation(a[..], n) && SortedSuffixes(txt[..n], a[..])
  {
    var i := 0;
    while i < n
      invariant 0 <= i <= n && IsPermutation(a[..], n)
      invariant SortedRange(txt[..n], a[..], 0, i)
    {
      InsertSuffix(txt, n, a, i);
      i := i + 1;
    }
  }

  /** A new array holding 0, 1, .., n-1. */
  method Identity(n: int) returns (a: array<int>)
    requires 0 <= n
    ensures fresh(a) && IsPermutation(a[..], n)
    ensures forall k :: 0 <= k < n ==> a[k] == k
  {
    a := new int[n];
    for i := 0 to n
      invariant forall k :: 0 <= k < i ==> a[k] == k
    {
      a[i] := i;
    }
    IdentityIsPermutation(a[..], n);
  }

  /** A new array with the contents of `a`. */
  method Copy(a: array<int>) returns (b: array<int>)
    ensures fresh(b) && b[..] == a[..]
  {
    b := new int[a.Length];
    for i := 0 to a.Length
      invariant forall k :: 0 <= k < i ==> b[k] == a[k]
    {
      b[i] := a[i];
    }
  }

  /** `buildSuffixArray`: the indices 0 .. n-1 sorted by their suffixes of txt[..n]. */
  method BuildSuffixArray(txt: array<byte>, n: int) returns (suffixArr: array<int>)
    requires 0 <= n <= txt.Length
    ensures IsSuffixArray(txt[..n], suffixArr[..])
  {
    var suffixes := Identity(n);
    SortSuffixes(txt, n, suffixes);
    suffixArr := Copy(suffixes);
  }
}
