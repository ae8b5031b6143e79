/** Bytes, the lexicographic order on byte strings, longest common prefixes and
    the occurrence count that every matcher is specified against. */
module Text {

  /** An `unsigned char` of the C source. */
  type byte = b: int | 0 <= b < 256

  function Max(a: int, b: int): int { if a >= b then a else b }

  function Min(a: int, b: int): int { if a <= b then a else b }

  // ---------------------------------------------------------------------------
  // Lexicographic order (what `strcmp` decides, bounded by the strings' lengths)
  // ---------------------------------------------------------------------------

  /** `a` comes no later than `b` byte-wise; a proper prefix comes first. */
  predicate LexLeq(a: seq<byte>, b: seq<byte>)
    decreases |a|
  {
    |a| == 0 || (|b| > 0 && (a[0] < b[0] || (a[0] == b[0] && LexLeq(a[1..], b[1..]))))
  }

  /** Strictly before. */
  predicate LexLess(a: seq<byte>, b: seq<byte>)
  {
    !LexLeq(b, a)
  }

  lemma {:induction false} LexLeqReflexive(a: seq<byte>)
    ensures LexLeq(a, a)
  {
    if |a| > 0 { LexLeqReflexive(a[1..]); }
  }

  lemma {:induction false} LexLeqTotal(a: seq<byte>, b: seq<byte>)
    ensures LexLeq(a, b) || LexLeq(b, a)
    decreases |a|
  {
    if |a| > 0 && |b| > 0 && a[0] == b[0] { LexLeqTotal(a[1..], b[1..]); }
  }

  lemma {:induction false} LexLeqAntisymmetric(a: seq<byte>, b: seq<byte>)
    requires LexLeq(a, b) && LexLeq(b, a)
    ensures a == b
    decreases |a|
  {
    if |a| > 0 {
      LexLeqAntisymmetric(a[1..], b[1..]);
      assert a == [a[0]] + a[1..] && b == [b[0]] + b[1..];
    }
  }

  lemma {:induction false} LexLeqTransitive(a: seq<byte>, b: seq<byte>, c: seq<byte>)
    requires LexLeq(a, b) && LexLeq(b, c)
    ensures LexLeq(a, c)
    decreases |a|
  {
    if |a| > 0 && a[0] == b[0] && b[0] == c[0] {
      LexLeqTransitive(a[1..], b[1..], c[1..]);
    }
  }

  /** After a common prefix of length k, the order is decided by what follows. */
  lemma {:induction false} LexLeqAfterCommonPrefix(a: seq<byte>, b: seq<byte>, k: nat)
    requires k <= |a| && k <= |b| && a[..k] == b[..k]
    ensures LexLeq(a, b) == LexLeq(a[k..], b[k..])
    decreases k
  {
    if k > 0 {
      assert a[0] == a[..k][0] == b[..k][0] == b[0];
      assert a[1..][..k - 1] == a[1..k] == a[..k][1..];
      assert b[1..][..k - 1] == b[1..k] == b[..k][1..];
      LexLeqAfterCommonPrefix(a[1..], b[1..], k - 1);
      assert a[1..][k - 1..] == a[k..];
      assert b[1..][k - 1..] == b[k..];
    }
  }

  // ---------------------------------------------------------------------------
  // Longest common prefix
  // ---------------------------------------------------------------------------

  /** Length of the longest common prefix of `a` and `b`. */
  function LCP(a: seq<byte>, b: seq<byte>): (r: nat)
    ensures r <= |a| && r <= |b|
    decreases |a|
  {
    if |a| > 0 && |b| > 0 && a[0] == b[0] then 1 + LCP(a[1..], b[1..]) else 0
  }

  /** The LCP is a common prefix, and the next bytes (if any) differ. */
  lemma {:induction false} LCPIsCommonPrefix(a: seq<byte>, b: seq<byte>)
    ensures a[..LCP(a, b)] == b[..LCP(a, b)]
    ensures LCP(a, b) < |a| && LCP(a, b) < |b| ==> a[LCP(a, b)] != b[LCP(a, b)]
    decreases |a|
  {
    if |a| > 0 && |b| > 0 && a[0] == b[0] {
      LCPIsCommonPrefix(a[1..], b[1..]);
      var r := LCP(a, b);
      assert a[..r] == [a[0]] + a[1..][..r - 1];
      assert b[..r] == [b[0]] + b[1..][..r - 1];
    }
  }

  /** A common prefix followed by a mismatch or the end of either string is the LCP. */
  lemma {:induction false} LCPUnique(a: seq<byte>, b: seq<byte>, k: nat)
    requires k <= |a| && k <= |b| && a[..k] == b[..k]
    requires k == |a| || k == |b| || a[k] != b[k]
    ensures LCP(a, b) == k
    decreases k
  {
    if k > 0 {
      assert a[0] == a[..k][0] && b[0] == b[..k][0];
      assert a[1..][..k - 1] == a[..k][1..] && b[1..][..k - 1] == b[..k][1..];
      LCPUnique(a[1..], b[1..], k - 1);
    }
  }

  lemma LCPSymmetric(a: seq<byte>, b: seq<byte>)
    ensures LCP(a, b) == LCP(b, a)
  {
    LCPIsCommonPrefix(a, b);
    LCPUnique(b, a, LCP(a, b));
  }

  /** Any common prefix is at most as long as the longest one. */
  lemma LCPAtLeast(a: seq<byte>, b: seq<byte>, k: nat)
    requires k <= |a| && k <= |b| && a[..k] == b[..k]
    ensures k <= LCP(a, b)
  {
    LCPIsCommonPrefix(a, b);
  }

  /** A string that lies between `a` and `c` shares with `c` at least as long a
      prefix as `a` does. */
  lemma {:induction false} LCPBetween(a: seq<byte>, b: seq<byte>, c: seq<byte>)
    requires LexLeq(a, b) && LexLeq(b, c)
    ensures LCP(a, c) <= LCP(b, c)
    decreases |a|
  {
    if |a| > 0 && |c| > 0 && a[0] == c[0] {
      assert |b| > 0 && b[0] == a[0];
      LCPBetween(a[1..], b[1..], c[1..]);
    }
  }

  // ---------------------------------------------------------------------------
  // Occurrences
  // ---------------------------------------------------------------------------

  /** The pattern `x` occurs in `t` at position `p`. */
  predicate MatchAt(x: seq<byte>, t: seq<byte>, p: int)
  {
    0 <= p && p + |x| <= |t| && t[p..p + |x|] == x
  }

  /** Number of occurrences of `x` in `t` that start before `hi`. */
  function CountBelow(x: seq<byte>, t: seq<byte>, hi: int): nat
    decreases hi
  {
    if hi <= 0 then 0
    else CountBelow(x, t, hi - 1) + (if MatchAt(x, t, hi - 1) then 1 else 0)
  }

  /** Number of positions p in [0, |t| - |x|] where `x` occurs in `t`. */
  function CountOcc(x: seq<byte>, t: seq<byte>): nat
  {
    CountBelow(x, t, |t| - |x| + 1)
  }

  /** No occurrence starts at or after |t| - |x| + 1, so counting further changes nothing. */
  lemma {:induction false} CountBelowSaturates(x: seq<byte>, t: seq<byte>, hi: int)
    requires hi >= |t| - |x| + 1
    ensures CountBelow(x, t, hi) == CountOcc(x, t)
    decreases hi - |t| + |x|
  {
    if hi > |t| - |x| + 1 {
      CountBelowSaturates(x, t, hi - 1);
    }
  }

  /** Counting over a stretch without occurrences changes nothing. */
  lemma {:induction false} CountBelowGap(x: seq<byte>, t: seq<byte>, lo: int, hi: int)
    requires lo <= hi
    requires forall p :: lo <= p < hi ==> !MatchAt(x, t, p)
    ensures CountBelow(x, t, hi) == CountBelow(x, t, lo)
    decreases hi - lo
  {
    if lo < hi {
      CountBelowGap(x, t, lo, hi - 1);
    }
  }

  /** A pattern longer than the text never occurs. */
  lemma PatternLongerThanText(x: seq<byte>, t: seq<byte>)
    requires |x| > |t|
    ensures CountOcc(x, t) == 0
  {
  }

  /** An occurrence in a prefix of a buffer is an occurrence in the whole buffer. */
  lemma MatchAtPrefix(x: seq<byte>, t: seq<byte>, n: int, p: int)
    requires 0 <= n <= |t|
    ensures MatchAt(x, t[..n], p) <==> (MatchAt(x, t, p) && p + |x| <= n)
  {
    if 0 <= p && p + |x| <= n {
      assert t[..n][p..p + |x|] == t[p..p + |x|];
    }
  }
}
