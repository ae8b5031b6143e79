/** `computeMaxLCP`: the largest longest-common-prefix of rank-adjacent suffixes,
    computed by Kasai's rank-array method. */
module Repetition {
  import opened Text
  import opened SuffixArrays

  /** `r` is the inverse of `s`, both over 0 .. n-1 (the source's ISA). */
  ghost predicate IsInverse(s: seq<int>, r: seq<int>, n: int)
  {
    && InRange(s, n) && InRange(r, n)
    && (forall j {:trigger s[r[j]]} :: 0 <= j < n ==> s[r[j]] == j)
    && (forall k {:trigger r[s[k]]} :: 0 <= k < n ==> r[s[k]] == k)
  }

  /** The suffixes of `t` listed by `s` are in order; `s` need not be a permutation. */
  ghost predicate Ordered(t: seq<byte>, s: seq<int>)
  {
    InRange(s, |t|) && SortedSuffixes(t, s)
  }

  /** LCP of the suffix at rank k with the suffix at rank k-1. */
  ghost function AdjLCP(t: seq<byte>, s: seq<int>, k: int): nat
    requires InRange(s, |t|) && 1 <= k < |s|
  {
    LCP(t[s[k]..], t[s[k - 1]..])
  }

  /** Largest AdjLCP over the ranks 1 .. k-1 (0 when there is none). */
  ghost function MaxAdjLCP(t: seq<byte>, s: seq<int>, k: int): nat
    requires InRange(s, |t|) && 0 <= k <= |s|
    decreases k
  {
    if k <= 1 then 0 else Max(MaxAdjLCP(t, s, k - 1), AdjLCP(t, s, k - 1))
  }

  /** LCP of the suffix at position j with its predecessor in rank order, or 0 for rank 0:
      the value `ell` holds after position j is processed. */
  ghost function PosLCP(t: seq<byte>, s: seq<int>, r: seq<int>, j: int): nat
    requires IsInverse(s, r, |t|) && 0 <= j < |t|
  {
    if r[j] > 0 then AdjLCP(t, s, r[j]) else 0
  }

  /** `v` is the length of the longest string that starts at two different positions of `t`. */
  ghost predicate IsMaxRepeat(t: seq<byte>, v: int)
  {
    && (forall i, j :: 0 <= i < j < |t| ==> LCP(t[i..], t[j..]) <= v)
    && (|t| >= 2 ==> exists i, j :: 0 <= i < j < |t| && LCP(t[i..], t[j..]) == v)
    && (|t| < 2 ==> v == 0)
  }

  lemma {:induction false} MaxAdjLCPIsMax(t: seq<byte>, s: seq<int>, k: int)
    requires InRange(s, |t|) && 0 <= k <= |s|
    ensures forall r :: 1 <= r < k ==> AdjLCP(t, s, r) <= MaxAdjLCP(t, s, k)
    ensures k >= 2 ==> exists r :: 1 <= r < k && AdjLCP(t, s, r) == MaxAdjLCP(t, s, k)
    decreases k
  {
    if k > 1 {
      MaxAdjLCPIsMax(t, s, k - 1);
    }
  }

  /** Among sorted suffixes, one that ranks lower shares with the suffix at rank hi
      no longer a prefix than the suffix right before rank hi does. */
  lemma RankLCPBound(t: seq<byte>, s: seq<int>, lo: int, hi: int)
    requires Ordered(t, s) && 0 <= lo < hi < |s|
    ensures LCP(t[s[lo]..], t[s[hi]..]) <= AdjLCP(t, s, hi)
  {
    SortedGlobally(t, s, lo, hi - 1);
    LCPBetween(t[s[lo]..], t[s[hi - 1]..], t[s[hi]..]);
    LCPSymmetric(t[s[hi - 1]..], t[s[hi]..]);
  }

  /** Distinct suffixes in lexicographic order have ranks in the same order. */
  lemma RankOrder(t: seq<byte>, s: seq<int>, r: seq<int>, u: int, v: int)
    requires Ordered(t, s) && IsInverse(s, r, |t|)
    requires 0 <= u < |t| && 0 <= v < |t| && u != v && LexLeq(t[u..], t[v..])
    ensures r[u] < r[v]
  {
    if r[u] >= r[v] {
      assert s[r[u]] == u && s[r[v]] == v;
      SortedGlobally(t, s, r[v], r[u]);
      LexLeqAntisymmetric(t[u..], t[v..]);
    }
  }

  /** The longest common prefix of two different positions is bounded by the
      rank-adjacent maximum. */
  lemma PairBelowMax(t: seq<byte>, s: seq<int>, r: seq<int>, i: int, j: int)
    requires Ordered(t, s) && IsInverse(s, r, |t|) && 0 <= i < j < |t|
    ensures LCP(t[i..], t[j..]) <= MaxAdjLCP(t, s, |t|)
  {
    var n := |t|;
    assert s[r[i]] == i && s[r[j]] == j;
    MaxAdjLCPIsMax(t, s, n);
    if r[i] < r[j] {
      RankLCPBound(t, s, r[i], r[j]);
    } else {
      RankLCPBound(t, s, r[j], r[i]);
      LCPSymmetric(t[i..], t[j..]);
    }
  }

  /** Some two different positions share a prefix as long as the rank-adjacent maximum. */
  lemma RepeatAttained(t: seq<byte>, s: seq<int>, r: seq<int>)
    requires IsInverse(s, r, |t|) && |t| >= 2
    ensures exists i, j :: 0 <= i < j < |t| && LCP(t[i..], t[j..]) == MaxAdjLCP(t, s, |t|)
  {
    var n := |t|;
    MaxAdjLCPIsMax(t, s, n);
    var k :| 1 <= k < n && AdjLCP(t, s, k) == MaxAdjLCP(t, s, n);
    var a, b := s[k], s[k - 1];
    assert r[a] == k && r[b] == k - 1;
    if a < b {
      assert LCP(t[a..], t[b..]) == MaxAdjLCP(t, s, n);
    } else {
      LCPSymmetric(t[a..], t[b..]);
      assert LCP(t[b..], t[a..]) == MaxAdjLCP(t, s, n);
    }
  }

  /** The rank-adjacent maximum is the longest repeat: no two suffixes share a longer
      prefix than some adjacent pair does. */
  lemma LongestRepeat(t: seq<byte>, s: seq<int>, r: seq<int>)
    requires Ordered(t, s) && IsInverse(s, r, |t|)
    ensures IsMaxRepeat(t, MaxAdjLCP(t, s, |t|))
  {
    var n := |t|;
    forall i, j | 0 <= i < j < n
      ensures LCP(t[i..], t[j..]) <= MaxAdjLCP(t, s, n)
    {
      PairBelowMax(t, s, r, i, j);
    }
    if n >= 2 {
      RepeatAttained(t, s, r);
    }
  }

  /** Dropping the first byte of two suffixes that share at least one byte keeps
      their order and shortens their common prefix by one. */
  lemma ShiftedPair(t: seq<byte>, u: int, v: int)
    requires 0 <= u < |t| && 0 <= v < |t|
    requires LexLeq(t[u..], t[v..]) && LCP(t[v..], t[u..]) >= 1
    ensures LexLeq(t[u + 1..], t[v + 1..])
    ensures LCP(t[v + 1..], t[u + 1..]) == LCP(t[v..], t[u..]) - 1
  {
    assert t[v..][1..] == t[v + 1..] && t[u..][1..] == t[u + 1..];
  }

  /** A suffix that sorts below the one at v shares with it no longer a prefix than
      v's rank predecessor does. */
  lemma BelowInRank(t: seq<byte>, s: seq<int>, r: seq<int>, u: int, v: int)
    requires Ordered(t, s) && IsInverse(s, r, |t|)
    requires 0 <= u < |t| && 0 <= v < |t| && u != v && LexLeq(t[u..], t[v..])
    ensures r[v] > 0 && LCP(t[u..], t[v..]) <= LCP(t[v..], t[s[r[v] - 1]..])
  {
    RankOrder(t, s, r, u, v);
    assert s[r[u]] == u && s[r[v]] == v;
    RankLCPBound(t, s, r[u], r[v]);
  }

  /** The suffix after p' + 1, which ranks below the one at j, bounds from below what
      j shares with its rank predecessor. */
  lemma KasaiShift(t: seq<byte>, s: seq<int>, r: seq<int>, j: int, p': int)
    requires Ordered(t, s) && IsInverse(s, r, |t|)
    requires 1 <= j < |t| && 0 <= p' < |t| && p' != j - 1
    requires LexLeq(t[p'..], t[j - 1..]) && LCP(t[j - 1..], t[p'..]) >= 2
    ensures r[j] > 0 && LCP(t[j - 1..], t[p'..]) - 1 <= LCP(t[j..], t[s[r[j] - 1]..])
  {
    ShiftedPair(t, p', j - 1);
    BelowInRank(t, s, r, p' + 1, j);
    LCPSymmetric(t[p' + 1..], t[j..]);
  }

  /** Kasai's observation: moving from position j-1 to j, the LCP with the rank
      predecessor drops by at most one. */
  lemma Kasai(t: seq<byte>, s: seq<int>, r: seq<int>, j: int)
    requires Ordered(t, s) && IsInverse(s, r, |t|)
    requires 1 <= j < |t| && r[j] > 0
    ensures PosLCP(t, s, r, j - 1) - 1 <= PosLCP(t, s, r, j)
  {
    assert s[r[j]] == j;
    if r[j - 1] > 0 {
      var p' := s[r[j - 1] - 1];
      assert s[r[j - 1]] == j - 1 && p' != j - 1;
      SortedGlobally(t, s, r[j - 1] - 1, r[j - 1]);
      if LCP(t[j - 1..], t[p'..]) >= 2 {
        KasaiShift(t, s, r, j, p');
      }
    }
  }

  /** Largest PosLCP over the positions 0 .. k-1 (0 when there is none). */
  ghost function PosMax(t: seq<byte>, s: seq<int>, r: seq<int>, k: int): nat
    requires IsInverse(s, r, |t|) && 0 <= k <= |t|
    decreases k
  {
    if k == 0 then 0 else Max(PosMax(t, s, r, k - 1), PosLCP(t, s, r, k - 1))
  }

  lemma {:induction false} PosMaxIsMax(t: seq<byte>, s: seq<int>, r: seq<int>, k: int)
    requires IsInverse(s, r, |t|) && 0 <= k <= |t|
    ensures forall j :: 0 <= j < k ==> PosLCP(t, s, r, j) <= PosMax(t, s, r, k)
    ensures PosMax(t, s, r, k) == 0 || exists j :: 0 <= j < k && PosLCP(t, s, r, j) == PosMax(t, s, r, k)
    decreases k
  {
    if k > 0 {
      PosMaxIsMax(t, s, r, k - 1);
    }
  }

  /** A maximum over positions is the maximum over ranks. */
  lemma MaxOverPositions(t: seq<byte>, s: seq<int>, r: seq<int>, res: int)
    requires IsInverse(s, r, |t|)
    requires forall j :: 0 <= j < |t| ==> PosLCP(t, s, r, j) <= res
    requires res == 0 || exists j :: 0 <= j < |t| && PosLCP(t, s, r, j) == res
    ensures res == MaxAdjLCP(t, s, |t|)
  {
    var n := |t|;
    MaxAdjLCPIsMax(t, s, n);
    if n >= 2 {
      var k :| 1 <= k < n && AdjLCP(t, s, k) == MaxAdjLCP(t, s, n);
      assert PosLCP(t, s, r, s[k]) == AdjLCP(t, s, k);
    }
  }

  /** Where the scan at position j starts: Kasai's bound makes the first
      max(0, ell - 1) bytes a common prefix with the rank predecessor. */
  lemma ScanStart(t: seq<byte>, s: seq<int>, r: seq<int>, j: int, ell: int)
    requires Ordered(t, s) && IsInverse(s, r, |t|)
    requires 0 <= j < |t| && r[j] > 0
    requires j == 0 ==> ell == 0
    requires j > 0 ==> ell == Max(0, PosLCP(t, s, r, j - 1) - 1)
    ensures 0 <= ell <= LCP(t[j..], t[s[r[j] - 1]..])
    ensures j + ell <= |t| && s[r[j] - 1] + ell <= |t|
    ensures t[j..j + ell] == t[s[r[j] - 1]..s[r[j] - 1] + ell]
  {
    var p := s[r[j] - 1];
    assert s[r[j]] == j;
    if j > 0 {
      Kasai(t, s, r, j);
    }
    var l := LCP(t[j..], t[p..]);
    LCPIsCommonPrefix(t[j..], t[p..]);
    assert t[j..j + ell] == t[j..][..l][..ell] && t[p..p + ell] == t[p..][..l][..ell];
  }

  /** Where the scan at position j stops: the bytes matched so far are the LCP. */
  lemma ScanStop(t: seq<byte>, j: int, p: int, h0: int, h: int)
    requires 0 <= j && 0 <= p && 0 <= h0 <= h && j + h <= |t| && p + h <= |t|
    requires t[j..j + h0] == t[p..p + h0]
    requires t[j + h0..j + h] == t[p + h0..p + h]
    requires Max(j + h, p + h) >= |t| || t[j + h] != t[p + h]
    ensures LCP(t[j..], t[p..]) == h
  {
    assert t[j..][..h] == t[j..j + h0] + t[j + h0..j + h];
    assert t[p..][..h] == t[p..p + h0] + t[p + h0..p + h];
    LCPUnique(t[j..], t[p..], h);
  }

  /** Byte-wise agreement of two stretches is equality of the slices. */
  lemma {:induction false} SameBytes(t: seq<byte>, j: int, p: int, lo: int, hi: int)
    requires 0 <= j && 0 <= p && 0 <= lo <= hi && j + hi <= |t| && p + hi <= |t|
    requires forall k :: j + lo <= k < j + hi ==> t[k] == t[k - j + p]
    ensures t[j + lo..j + hi] == t[p + lo..p + hi]
    decreases hi - lo
  {
    if lo < hi {
      SameBytes(t, j, p, lo, hi - 1);
      assert t[j + hi - 1] == t[p + hi - 1];
      assert t[j + lo..j + hi] == t[j + lo..j + hi - 1] + [t[j + hi - 1]];
      assert t[p + lo..p + hi] == t[p + lo..p + hi - 1] + [t[p + hi - 1]];
    }
  }

  /** Kasai's step is right: starting from h0 = max(0, ell - 1) matched bytes and
      scanning to the first mismatch yields the LCP of the suffix at j with its rank
      predecessor p. */
  lemma StepIsPosLCP(t: seq<byte>, s: seq<int>, r: seq<int>, j: int, ell: int, p: int, h0: int, h: int)
    requires Ordered(t, s) && IsInverse(s, r, |t|) && 0 <= j < |t| && r[j] > 0
    requires j == 0 ==> ell == 0
    requires j > 0 ==> ell == PosLCP(t, s, r, j - 1)
    requires p == s[r[j] - 1] && h0 == Max(0, ell - 1) && h0 <= h <= |t| - j
    requires h > h0 ==> p + h <= |t|
    requires forall k :: j + h0 <= k < j + h ==> t[k] == t[k - j + p]
    requires Max(j + h, p + h) >= |t| || t[j + h] != t[p + h]
    ensures h == PosLCP(t, s, r, j)
  {
    ScanStart(t, s, r, j, h0);
    SameBytes(t, j, p, h0, h);
    ScanStop(t, j, p, h0, h);
    assert s[r[j]] == j;
  }

  /** The source's ISA: the rank of every position under the permutation `sa`. */
  method InverseOf(sa: array<int>, n: int) returns (isa: array<int>)
    requires IsPermutation(sa[..], n)
    ensures IsInverse(sa[..], isa[..], n)
  {
    isa := new int[n];
    for r := 0 to n
      modifies isa
      invariant forall k :: 0 <= k < r ==> isa[sa[k]] == k
    {
      isa[sa[r]] := r;
    }
    forall j | 0 <= j < n
      ensures 0 <= isa[j] < n && sa[isa[j]] == j
    {
      PermutationOnto(sa[..], n, j);
    }
  }

  /** The inner scan: extends a common prefix of the suffixes at j and p from h0 bytes
      until a mismatch or the end of y[..n]; `t` names y[..n]. */
  method Extend(y: array<byte>, n: int, j: int, p: int, h0: int, ghost t: seq<byte>) returns (h: int)
    requires 0 <= n <= y.Length && y[..n] == t && 0 <= j < n && 0 <= p < n && j != p
    requires 0 <= h0 <= n - j && h0 <= n - 1
    ensures h0 <= h <= n - j && h <= n - 1 && (h > h0 ==> p + h <= n)
    ensures forall k :: j + h0 <= k < j + h ==> t[k] == t[k - j + p]
    ensures Max(j + h, p + h) >= n || t[j + h] != t[p + h]
  {
    h := h0;
    while Max(j + h, p + h) < n && y[j + h] == y[p + h]
      invariant h0 <= h <= n - j && h <= n - 1 && (h > h0 ==> p + h <= n)
      invariant forall k :: j + h0 <= k < j + h ==> t[k] == t[k - j + p]
    {
      h := h + 1;
    }
  }

  /** One step of Kasai's loop: given `ell`, the value left by position j-1, the
      LCP of the suffix at j with its rank predecessor (0 at rank 0). The ghost
      parameters name y[..n], sa and isa. */
  method StepLCP(y: array<byte>, n: int, sa: array<int>, isa: array<int>, j: int, ell: int,
                 ghost t: seq<byte>, ghost s: seq<int>, ghost rk: seq<int>)
    returns (h: int)
    requires 0 <= n <= y.Length && y[..n] == t && sa[..] == s && isa[..] == rk
    requires IsInverse(s, rk, n) && 0 <= j < n
    requires 0 <= ell <= n - j + 1 && ell <= Max(0, n - 1) && (j == 0 ==> ell == 0)
    ensures 0 <= h <= n - j && h <= n - 1
    ensures Ordered(t, s) && (j > 0 ==> ell == PosLCP(t, s, rk, j - 1)) ==> h == PosLCP(t, s, rk, j)
  {
    var h0 := Max(0, ell - 1);
    if isa[j] > 0 {
      var p := sa[isa[j] - 1];
      assert p == s[rk[j] - 1] && s[rk[j]] == j;
      h := Extend(y, n, j, p, h0, t);
      if Ordered(t, s) && (j > 0 ==> ell == PosLCP(t, s, rk, j - 1)) {
        StepIsPosLCP(t, s, rk, j, ell, p, h0, h);
      }
    } else {
      h := 0;
    }
  }

  /** Kasai's loop: the largest LCP of a position's suffix with its rank predecessor,
      at most n - 1; for sorted suffixes it is the largest rank-adjacent LCP. */
  method MaxPosLCP(y: array<byte>, n: int, sa: array<int>, isa: array<int>,
                   ghost t: seq<byte>, ghost s: seq<int>, ghost rk: seq<int>)
    returns (res: int)
    requires 0 <= n <= y.Length && y[..n] == t && sa[..] == s && isa[..] == rk
    requires IsInverse(s, rk, n)
    ensures 0 <= res <= Max(0, n - 1)
    ensures Ordered(t, s) ==> res == MaxAdjLCP(t, s, n)
  {
    ghost var sorted := Ordered(t, s);
    var ell := 0;
    res := 0;
    for j := 0 to n
      invariant 0 <= ell && 0 <= res
      invariant j == 0 ==> ell == 0 && res == 0
      invariant j > 0 ==> ell <= n - j + 1 && ell <= n - 1 && res <= n - 1
      invariant sorted && j > 0 ==> ell == PosLCP(t, s, rk, j - 1)
      invariant sorted ==> res == PosMax(t, s, rk, j)
    {
      ell := StepLCP(y, n, sa, isa, j, ell, t, s, rk);
      if ell > res {
        res := ell;
      }
    }
    if sorted {
      PosMaxIsMax(t, s, rk, n);
      MaxOverPositions(t, s, rk, res);
    }
  }

  /** `computeMaxLCP` over y[..n] and the permutation `sa`. For any permutation the
      result lies in [0, n-1] (0 when n is 0); for the true suffix array it is the
      largest rank-adjacent LCP, which is the length of the longest repeat. */
  method ComputeMaxLCP(y: array<byte>, n: int, sa: array<int>) returns (res: int)
    requires 0 <= n <= y.Length && IsPermutation(sa[..], n)
    ensures 0 <= res <= Max(0, n - 1)
    ensures IsSuffixArray(y[..n], sa[..]) ==> res == MaxAdjLCP(y[..n], sa[..], n)
    ensures IsSuffixArray(y[..n], sa[..]) ==> IsMaxRepeat(y[..n], res)
  {
    var isa := InverseOf(sa, n);
    res := MaxPosLCP(y, n, sa, isa, y[..n], sa[..], isa[..]);
    if IsSuffixArray(y[..n], sa[..]) {
      LongestRepeat(y[..n], sa[..], isa[..]);
    }
  }
}
