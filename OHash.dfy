/** The matchers themselves: `ohash1` .. `ohash10`, `hash8`, and `search`, which picks
    the window width from the pattern's longest repeated factor. */
module OHash {
  import opened Text
  import opened SuffixArrays
  import opened Repetition
  import opened Hashing
  import opened ShiftTables
  import opened Scanning

  // ---------------------------------------------------------------------------
  // The matchers
  // ---------------------------------------------------------------------------

  /** `ohash<q>(x, m, y, n)` for 1 <= q <= 10: -1 for a pattern shorter than it accepts,
      otherwise the number of occurrences of x[..m] in y[..n]. Like the source, it relies
      on the caller having copied the pattern to y[n..n+m]. */
  method OHashOrder(q: int, x: array<byte>, m: int, y: array<byte>, n: int) returns (r: int)
    requires 1 <= q <= 10 && 0 <= m <= x.Length && 0 <= n && n + m <= y.Length
    requires y[n..n + m] == x[..m]
    ensures r == -1 <==> m < MinLength(Order(q))
    ensures r != -1 ==> r == CountOcc(x[..m], y[..n])
  {
    if m < MinLength(Order(q)) {
      return -1;
    }
    var shift, sh1 := Preprocess(Order(q), x, m);
    r := Scan(Order(q), x, m, y, n, shift, sh1);
  }

  /** `hash8(x, m, y, n)` with a table of `wsize` buckets: -1 for m < 8, leaving y
      alone; otherwise it copies the pattern to y[n..n+m] itself and counts the
      occurrences of x[..m] in the text as it was. */
  method Hash8(wsize: int, x: array<byte>, m: int, y: array<byte>, n: int) returns (r: int)
    requires wsize >= 1 && 0 <= m <= x.Length && 0 <= n && n + m <= y.Length && x != y
    modifies y
    ensures r == -1 <==> m < 8
    ensures r != -1 ==> r == CountOcc(x[..m], old(y[..n]))
    ensures forall k :: 0 <= k < y.Length ==> y[k] == if m >= 8 && n <= k < n + m then x[k - n] else old(y[k])
  {
    if m < 8 {
      return -1;
    }
    var shift, sh1 := Preprocess(Fallback(wsize), x, m);
    ghost var pat, table := x[..m], shift[..];
    for j := 0 to m
      invariant forall k :: 0 <= k < y.Length ==> y[k] == if n <= k < n + j then x[k - n] else old(y[k])
      invariant x[..m] == pat && shift[..] == table
    {
      y[n + j] := x[j];
    }
    assert y[n..n + m] == x[..m];
    r := Scan(Fallback(wsize), x, m, y, n, shift, sh1);
    assert y[..n] == old(y[..n]);
  }

  /** The end of the window `hash8` takes as its pattern's last: the value of its loop
      variable after the window loop, which starts at 8 and stops at m - 1. */
  function Hash8FinalEndAsWritten(m: int): (i: int)
    ensures i >= 8 && i >= m - 1
    ensures i == 8 || i == m - 1
  {
    if m - 1 > 8 then m - 1 else 8
  }

  /** For m = 8 that window ends at x[8], one byte past the pattern; for every longer
      pattern it is the last window, as in the other matchers and in Preprocess. */
  lemma Hash8FinalWindowPastPattern(m: int)
    requires m >= 8
    ensures Hash8FinalEndAsWritten(m) == m - 1 <==> m > 8
    ensures m == 8 ==> Hash8FinalEndAsWritten(m) == m
  {
  }

  // ---------------------------------------------------------------------------
  // Dispatch
  // ---------------------------------------------------------------------------

  /** The matcher `search` runs for q = maxLCP + 1. */
  function Dispatch(q: int, wsize: int): (s: Strategy)
    ensures wsize >= 1 ==> ValidStrategy(s)
    ensures s.Order? <==> 1 <= q <= 10
    ensures s.Order? ==> s.q == q
    ensures s.Fallback? ==> s.wsize == wsize
  {
    if 1 <= q <= 10 then Order(q) else Fallback(wsize)
  }

  /** With maxLCP at most m - 1, the chosen matcher accepts the pattern exactly when
      m >= 2: its own length guard never fires on a longer pattern. */
  lemma DispatchAccepts(m: int, res: int, wsize: int)
    requires 0 <= res <= Max(0, m - 1) && wsize >= 1
    ensures Accepts(Dispatch(res + 1, wsize), m) <==> m >= 2
  {
  }

  /** `search(x, m, y, n)`: builds the suffix array of x[..m], takes the longest repeated
      factor, writes x[0..m] (the pattern and the byte after it) to y[n..n+m+1], and runs
      the matcher that `Dispatch` chooses. -1 exactly for patterns shorter than 2. */
  method Search(x: array<byte>, m: int, y: array<byte>, n: int, wsize: int) returns (r: int)
    requires 0 <= m < x.Length && 0 <= n && n + m + 1 <= y.Length && x != y && wsize >= 1
    modifies y
    ensures y[..n] == old(y[..n]) && y[n..n + m + 1] == x[..m + 1]
    ensures y[n + m + 1..] == old(y[n + m + 1..])
    ensures r == -1 <==> m <= 1
    ensures m >= 2 ==> r == CountOcc(x[..m], old(y[..n]))
  {
    var sa := BuildSuffixArray(x, m);
    var res := ComputeMaxLCP(x, m, sa);
    PlaceSentinel(x, m, y, n);
    r := Run(res + 1, x, m, y, n, wsize);
  }

  /** Searching twice in the same buffer counts the same: the copy of the pattern that
      the first search leaves past the text changes nothing for the second. */
  method SearchTwice(x: array<byte>, m: int, y: array<byte>, n: int, wsize: int) returns (r1: int, r2: int)
    requires 0 <= m < x.Length && 0 <= n && n + m + 1 <= y.Length && x != y && wsize >= 1
    modifies y
    ensures r1 == r2
  {
    r1 := Search(x, m, y, n, wsize);
    r2 := Search(x, m, y, n, wsize);
  }

  /** The `switch` of `search`: runs the matcher for q = maxLCP + 1 on a text followed
      by a copy of the pattern, leaving the buffer as it found it. */
  method Run(q: int, x: array<byte>, m: int, y: array<byte>, n: int, wsize: int) returns (r: int)
    requires 1 <= q <= Max(1, m) && 0 <= m <= x.Length && 0 <= n && n + m <= y.Length
    requires x != y && wsize >= 1 && y[n..n + m] == x[..m]
    modifies y
    ensures y[..] == old(y[..])
    ensures r == -1 <==> m <= 1
    ensures m >= 2 ==> r == CountOcc(x[..m], y[..n])
  {
    DispatchAccepts(m, q - 1, wsize);
    if 1 <= q <= 10 {
      r := OHashOrder(q, x, m, y, n);
    } else {
      ghost var before := y[..];
      r := Hash8(wsize, x, m, y, n);
      forall k | n <= k < n + m
        ensures y[k] == before[k]
      {
        assert before[k] == before[n..n + m][k - n];
      }
      assert y[..] == before;
    }
  }

  /** The loop of `search` that writes x[i] to y[n+i] for i = 0 .. m. */
  method PlaceSentinel(x: array<byte>, m: int, y: array<byte>, n: int)
    requires 0 <= m < x.Length && 0 <= n && n + m + 1 <= y.Length && x != y
    modifies y
    ensures y[..n] == old(y[..n]) && y[n..n + m + 1] == x[..m + 1]
    ensures y[n + m + 1..] == old(y[n + m + 1..])
  {
    for i := 0 to m + 1
      invariant forall k :: 0 <= k < y.Length ==> y[k] == if n <= k < n + i then x[k - n] else old(y[k])
    {
      y[n + i] := x[i];
    }
  }

  // ---------------------------------------------------------------------------
  // Examples
  // ---------------------------------------------------------------------------

  /** A run of k equal bytes repeats its first k - 1 bytes and nothing longer. */
  lemma {:induction false} RunMaxRepeat(k: int, c: byte, v: int)
    requires k >= 2 && IsMaxRepeat(seq(k, _ => c), v)
    ensures v == k - 1
  {
    var t: seq<byte> := seq(k, _ => c);
    assert t[0..][..k - 1] == t[1..][..k - 1];
    LCPUnique(t[0..], t[1..], k - 1);
    var i, j :| 0 <= i < j < |t| && LCP(t[i..], t[j..]) == v;
  }

  /** Nine 0xFF bytes have maxLCP 8, so `search` runs `ohash9` on them, whose index for
      the pattern's own window lies past its 65536 buckets. */
  lemma Order9Reached(v: int)
    requires IsMaxRepeat(seq(9, _ => 255), v)
    ensures Dispatch(v + 1, 1) == Order(9)
    ensures IndexAsWritten(Order(9), Window(seq(9, _ => 255), 9, 8)) >= TableSize(Order(9))
  {
    RunMaxRepeat(9, 255, v);
    assert Window(seq(9, _ => 255), 9, 8) == seq(9, _ => 255);
    Order9IndexOverflows();
  }

  /** Two different bytes share no prefix, so `search` runs `ohash1` on "AB". */
  lemma DistinctDispatch(v: int, wsize: int)
    requires IsMaxRepeat([65, 66], v)
    ensures v == 0 && Dispatch(v + 1, wsize) == Order(1)
  {
    var t: seq<byte> := [65, 66];
    var i, j :| 0 <= i < j < |t| && LCP(t[i..], t[j..]) == v;
    assert t[0..][0] != t[1..][0];
    LCPUnique(t[0..], t[1..], 0);
  }

  /** "AAAA" has maxLCP 3, so `search` runs `ohash4` on it. */
  lemma RunDispatch(v: int, wsize: int)
    requires IsMaxRepeat(seq(4, _ => 65), v)
    ensures v == 3 && Dispatch(v + 1, wsize) == Order(4)
  {
    RunMaxRepeat(4, 65, v);
  }

  /** "AB" occurs three times in "ABABAB" (`ohash1`, maxLCP 0: DistinctDispatch). */
  method ExampleDistinct() returns (r: int)
    ensures r == 3
  {
    var x := new byte[3] [65, 66, 0];
    var y := new byte[9] [65, 66, 65, 66, 65, 66, 0, 0, 0];
    ghost var text := y[..6];
    r := Search(x, 2, y, 6, 1);
    assert x[..2] == [65, 66] && text == [65, 66, 65, 66, 65, 66];
    CountAB();
  }

  /** "AAAA" occurs three times, overlapping, in "AAAAAA" (`ohash4`, maxLCP 3: RunDispatch). */
  method ExampleRun() returns (r: int)
    ensures r == 3
  {
    var x := new byte[5] [65, 65, 65, 65, 0];
    var y := new byte[11] [65, 65, 65, 65, 65, 65, 0, 0, 0, 0, 0];
    ghost var text := y[..6];
    r := Search(x, 4, y, 6, 1);
    assert x[..4] == [65, 65, 65, 65] && text == [65, 65, 65, 65, 65, 65];
    CountAAAA();
  }

  lemma CountAB()
    ensures CountOcc([65, 66], [65, 66, 65, 66, 65, 66]) == 3
  {
    var x: seq<byte>, t: seq<byte> := [65, 66], [65, 66, 65, 66, 65, 66];
    assert t[0..2] == t[2..4] == t[4..6] == x;
    assert t[1..3] != x && t[3..5] != x by { assert t[1..3][0] == t[3..5][0] == 66; }
    assert CountBelow(x, t, 2) == 1;
    assert CountBelow(x, t, 4) == 2;
  }

  lemma CountAAAA()
    ensures CountOcc([65, 65, 65, 65], [65, 65, 65, 65, 65, 65]) == 3
  {
    var x: seq<byte>, t: seq<byte> := [65, 65, 65, 65], [65, 65, 65, 65, 65, 65];
    assert t[0..4] == t[1..5] == t[2..6] == x;
  }
}
