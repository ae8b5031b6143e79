/** The searching phase shared by `ohash1` .. `ohash10` and `hash8`: skip by the shift
    of the text window under the pattern's end until a zero shift marks a candidate,
    check the candidate byte by byte, move on by `sh1`. A copy of the pattern placed just
    past the text stops the skip loop. */
module Scanning {
  import opened Text
  import opened Hashing
  import opened ShiftTables

  /** Occurrences of `pat` in t[..n] that end before position e, i.e. start before
      e - |pat| + 1: what the search has counted when its window ends at e. */
  ghost function EndingBefore(pat: seq<byte>, t: seq<byte>, n: int, e: int): nat
    requires 0 <= n <= |t|
  {
    CountBelow(pat, t[..n], e - |pat| + 1)
  }

  // ---------------------------------------------------------------------------
  // Why the skips never pass an occurrence
  // ---------------------------------------------------------------------------

  /** Inside an occurrence of the pattern starting at p, the text window ending at i is
      the pattern's window ending at i - p. */
  lemma WindowInOccurrence(pat: seq<byte>, t: seq<byte>, p: int, q: int, i: int)
    requires MatchAt(pat, t, p) && 1 <= q && p + q - 1 <= i < p + |pat|
    ensures t[i - q + 1..i + 1] == Window(pat, q, i - p)
  {
    var w1, w2 := t[i - q + 1..i + 1], Window(pat, q, i - p);
    forall j | 0 <= j < q
      ensures w1[j] == w2[j]
    {
      assert t[p..p + |pat|][i - p - q + 1 + j] == t[i - q + 1 + j];
    }
  }

  /** The shift read at text position i never reaches past the end e of an occurrence of
      the pattern ending at or after i. */
  lemma SkipSafe(s: Strategy, pat: seq<byte>, table: seq<int>, sh1: int, t: seq<byte>, i: int, e: int)
    requires IsShiftTable(s, pat, table, sh1)
    requires Width(s) - 1 <= i <= e && MatchAt(pat, t, e - |pat| + 1)
    ensures i + table[Key(s, t[i - Width(s) + 1..i + 1])] <= e
  {
    var p := e - |pat| + 1;
    var q := Width(s);
    var b := Key(s, t[i - q + 1..i + 1]);
    if p + q - 1 <= i {
      WindowInOccurrence(pat, t, p, q, i);
      WindowShiftBound(s, pat, table, sh1, i - p);
      assert table[b] <= |pat| - 1 - (i - p);
    } else {
      TableBounds(s, pat, table, sh1, b);
      assert table[b] <= |pat| - q + 1;
    }
  }

  /** After a candidate at i, the shift `sh1` never reaches past the end e > i of an
      occurrence of the pattern. */
  lemma Sh1Safe(s: Strategy, pat: seq<byte>, table: seq<int>, sh1: int, t: seq<byte>, i: int, e: int)
    requires IsShiftTable(s, pat, table, sh1)
    requires Width(s) - 1 <= i < e && MatchAt(pat, t, e - |pat| + 1)
    requires Key(s, t[i - Width(s) + 1..i + 1]) == FinalKey(s, pat)
    ensures i + sh1 <= e
  {
    var p := e - |pat| + 1;
    var q := Width(s);
    if p + q - 1 <= i {
      WindowInOccurrence(pat, t, p, q, i);
      Sh1Bound(s, pat, table, sh1, i - p);
    } else {
      TableBounds(s, pat, table, sh1, 0);
    }
  }

  /** A candidate's last ExactTail bytes already match, so comparing the others decides
      whether the pattern occurs there. */
  lemma CandidateDecides(s: Strategy, pat: seq<byte>, t: seq<byte>, i: int)
    requires Accepts(s, |pat|) && |pat| - 1 <= i < |t|
    requires Key(s, t[i - Width(s) + 1..i + 1]) == FinalKey(s, pat)
    ensures var p, l := i - |pat| + 1, |pat| - ExactTail(s);
            MatchAt(pat, t, p) <==> pat[..l] == t[p..p + l]
  {
    var m := |pat|;
    var p, l := i - m + 1, m - ExactTail(s);
    var q := Width(s);
    if ExactTail(s) > 0 {
      ExactKeysInjective(s, t[i - q + 1..i + 1], Window(pat, q, m - 1));
      assert t[p..p + m] == t[p..p + l] + t[i - q + 1..i + 1];
      assert pat == pat[..l] + Window(pat, q, m - 1);
    }
  }

  /** No occurrence of the pattern in t[..n] ends in [i, i + sh) when sh is the shift read
      at i. */
  lemma SkipGap(s: Strategy, pat: seq<byte>, table: seq<int>, sh1: int, t: seq<byte>, n: int, i: int)
    requires IsShiftTable(s, pat, table, sh1) && 0 <= n <= |t| && Width(s) - 1 <= i < |t|
    ensures var sh := table[Key(s, t[i - Width(s) + 1..i + 1])];
            forall p :: i - |pat| + 1 <= p < i + sh - |pat| + 1 ==> !MatchAt(pat, t[..n], p)
  {
    var m := |pat|;
    var sh := table[Key(s, t[i - Width(s) + 1..i + 1])];
    forall p | i - m + 1 <= p < i + sh - m + 1
      ensures !MatchAt(pat, t[..n], p)
    {
      MatchAtPrefix(pat, t, n, p);
      if MatchAt(pat, t[..n], p) {
        SkipSafe(s, pat, table, sh1, t, i, p + m - 1);
      }
    }
  }

  /** One step of the skip loop, by the shift sh read at i, passes no occurrence, stays
      within the sentinel copy, and stops only at a window with the final window's key. */
  lemma SkipStep(s: Strategy, pat: seq<byte>, table: seq<int>, sh1: int, t: seq<byte>, n: int, i: int,
                 sh: int)
    requires IsShiftTable(s, pat, table, sh1) && 0 <= n && MatchAt(pat, t, n)
    requires |pat| - 1 <= i <= n + |pat| - 1 && sh == table[Key(s, t[i - Width(s) + 1..i + 1])]
    ensures 0 <= sh && i + sh <= n + |pat| - 1
    ensures forall p :: i - |pat| + 1 <= p < i + sh - |pat| + 1 ==> !MatchAt(pat, t[..n], p)
    ensures sh == 0 <==> Key(s, t[i - Width(s) + 1..i + 1]) == FinalKey(s, pat)
  {
    var b := Key(s, t[i - Width(s) + 1..i + 1]);
    SkipSafe(s, pat, table, sh1, t, i, n + |pat| - 1);
    ZeroOnlyAtFinalKey(s, pat, table, sh1, b);
    TableBounds(s, pat, table, sh1, b);
    SkipGap(s, pat, table, sh1, t, n, i);
  }

  /** Moving on by `sh1` after the candidate at i < n skips no occurrence. */
  lemma Sh1Step(s: Strategy, pat: seq<byte>, table: seq<int>, sh1: int, t: seq<byte>, n: int, i: int,
                found: bool)
    requires IsShiftTable(s, pat, table, sh1) && MatchAt(pat, t, n)
    requires Width(s) - 1 <= i < n
    requires Key(s, t[i - Width(s) + 1..i + 1]) == FinalKey(s, pat)
    requires found <==> MatchAt(pat, t[..n], i - |pat| + 1)
    ensures i + sh1 <= n + |pat| - 1
    ensures EndingBefore(pat, t, n, i + sh1) == EndingBefore(pat, t, n, i) + (if found then 1 else 0)
  {
    var m := |pat|;
    Sh1Safe(s, pat, table, sh1, t, i, n + m - 1);
    TableBounds(s, pat, table, sh1, 0);
    forall p | i - m + 2 <= p < i + sh1 - m + 1
      ensures !MatchAt(pat, t[..n], p)
    {
      MatchAtPrefix(pat, t, n, p);
      if MatchAt(pat, t[..n], p) {
        Sh1Safe(s, pat, table, sh1, t, i, p + m - 1);
      }
    }
    CountBelowGap(pat, t[..n], i - m + 2, i + sh1 - m + 1);
  }

  // ---------------------------------------------------------------------------
  // Searching
  // ---------------------------------------------------------------------------

  /** Compares x[..len] with y[p..p+len] byte by byte, stopping at the first mismatch. */
  method Verify(x: array<byte>, y: array<byte>, p: int, len: int) returns (ok: bool)
    requires 0 <= len <= x.Length && 0 <= p && p + len <= y.Length
    ensures ok <==> x[..len] == y[p..p + len]
  {
    var j := 0;
    while j < len && x[j] == y[p + j]
      invariant 0 <= j <= len && x[..j] == y[p..p + j]
    {
      j := j + 1;
    }
    ok := j >= len;
    if !ok {
      assert x[..len][j] != y[p..p + len][j];
    }
  }

  /** Reads the shift of the text window ending at j: it keeps the count, stays within
      the copy of the pattern, and is 0 exactly at a window with the final window's key.
      The ghost parameters name the pattern, the contents of y and the table. */
  method Probe(s: Strategy, m: int, y: array<byte>, n: int, shift: array<int>, sh1: int, j: int,
               ghost pat: seq<byte>, ghost t: seq<byte>, ghost table: seq<int>)
    returns (sh: int)
    requires |pat| == m && 0 <= n && y[..] == t && shift[..] == table
    requires MatchAt(pat, t, n) && IsShiftTable(s, pat, table, sh1)
    requires m - 1 <= j <= n + m - 1
    ensures 0 <= sh && j + sh <= n + m - 1
    ensures forall p :: j - m + 1 <= p < j + sh - m + 1 ==> !MatchAt(pat, t[..n], p)
    ensures sh == 0 <==> Key(s, t[j - Width(s) + 1..j + 1]) == FinalKey(s, pat)
  {
    var h := WindowKey(s, y, j);
    assert y[j - Width(s) + 1..j + 1] == t[j - Width(s) + 1..j + 1];
    sh := shift[h];
    SkipStep(s, pat, table, sh1, t, n, j, sh);
  }

  /** The skip loop: from i, add the shift of the window ending at the current position
      until it is 0. Stops at the first window with the final window's key, passing no
      occurrence and no further than the copy of the pattern at y[n..n+m]. */
  method Skip(s: Strategy, m: int, y: array<byte>, n: int, shift: array<int>, sh1: int,
              i: int, ghost pat: seq<byte>, ghost t: seq<byte>, ghost table: seq<int>)
    returns (j: int)
    requires |pat| == m && 0 <= n && y[..] == t && shift[..] == table
    requires MatchAt(pat, t, n) && IsShiftTable(s, pat, table, sh1)
    requires m - 1 <= i <= n + m - 1
    ensures i <= j <= n + m - 1 && Key(s, t[j - Width(s) + 1..j + 1]) == FinalKey(s, pat)
    ensures forall p :: i - m + 1 <= p < j - m + 1 ==> !MatchAt(pat, t[..n], p)
  {
    j := i;
    var sh := Probe(s, m, y, n, shift, sh1, j, pat, t, table);
    while sh != 0
      invariant i <= j && 0 <= sh && j + sh <= n + m - 1
      invariant forall p :: i - m + 1 <= p < j + sh - m + 1 ==> !MatchAt(pat, t[..n], p)
      invariant sh == 0 <==> Key(s, t[j - Width(s) + 1..j + 1]) == FinalKey(s, pat)
      decreases n + m - j
    {
      j := j + sh;
      sh := Probe(s, m, y, n, shift, sh1, j, pat, t, table);
    }
  }

  /** Checks the candidate whose window ends at i: it compares all but the last ExactTail
      bytes, which the zero shift already guarantees. */
  method Check(s: Strategy, x: array<byte>, m: int, y: array<byte>, n: int, i: int,
               ghost pat: seq<byte>, ghost t: seq<byte>)
    returns (ok: bool)
    requires Accepts(s, m) && m <= x.Length && m - 1 <= i < n <= y.Length
    requires x[..m] == pat && y[..] == t
    requires Key(s, t[i - Width(s) + 1..i + 1]) == FinalKey(s, pat)
    ensures ok <==> MatchAt(pat, t[..n], i - m + 1)
  {
    ok := Verify(x, y, i - m + 1, m - ExactTail(s));
    assert x[..m - ExactTail(s)] == pat[..m - ExactTail(s)];
    CandidateDecides(s, pat, t, i);
    MatchAtPrefix(pat, t, n, i - m + 1);
  }

  /** Checks the candidate whose window ends at k < n and moves on by `sh1`. */
  method Candidate(s: Strategy, x: array<byte>, m: int, y: array<byte>, n: int, sh1: int, k: int,
                   ghost pat: seq<byte>, ghost t: seq<byte>, ghost table: seq<int>)
    returns (j: int, found: bool)
    requires Accepts(s, m) && m <= x.Length && n + m <= y.Length
    requires x[..m] == pat && y[..] == t
    requires MatchAt(pat, t, n) && IsShiftTable(s, pat, table, sh1)
    requires m - 1 <= k < n && Key(s, t[k - Width(s) + 1..k + 1]) == FinalKey(s, pat)
    ensures k < j <= n + m - 1
    ensures EndingBefore(pat, t, n, j) == EndingBefore(pat, t, n, k) + (if found then 1 else 0)
  {
    found := Check(s, x, m, y, n, k, pat, t);
    Sh1Step(s, pat, table, sh1, t, n, k, found);
    TableBounds(s, pat, table, sh1, 0);
    j := k + sh1;
  }

  /** One pass of the searching loop's body: skip to the next candidate; past the text
      it reports `done`, otherwise it checks the candidate and moves on by `sh1`. */
  method Round(s: Strategy, x: array<byte>, m: int, y: array<byte>, n: int, shift: array<int>, sh1: int,
               i: int, ghost pat: seq<byte>, ghost t: seq<byte>, ghost table: seq<int>)
    returns (j: int, found: bool, done: bool)
    requires Accepts(s, m) && m <= x.Length && 0 <= n && n + m <= y.Length
    requires x[..m] == pat && y[..] == t && shift[..] == table
    requires MatchAt(pat, t, n) && IsShiftTable(s, pat, table, sh1)
    requires m - 1 <= i <= n + m - 1
    ensures j <= n + m - 1 && (done ==> n <= j && !found) && (!done ==> i < j)
    ensures EndingBefore(pat, t, n, j) == EndingBefore(pat, t, n, i) + (if found then 1 else 0)
  {
    var k := Skip(s, m, y, n, shift, sh1, i, pat, t, table);
    CountBelowGap(pat, t[..n], i - m + 1, k - m + 1);
    if k < n {
      j, found := Candidate(s, x, m, y, n, sh1, k, pat, t, table);
      done := false;
    } else {
      j, found, done := k, false, true;
    }
  }

  /** The searching loop: the number of occurrences of x[..m] in y[..n], given the table
      of x[..m] and a copy of x[..m] at y[n..n+m]. */
  method Scan(s: Strategy, x: array<byte>, m: int, y: array<byte>, n: int, shift: array<int>, sh1: int)
    returns (count: int)
    requires Accepts(s, m) && m <= x.Length && 0 <= n && n + m <= y.Length
    requires y[n..n + m] == x[..m] && IsShiftTable(s, x[..m], shift[..], sh1)
    ensures count == CountOcc(x[..m], y[..n])
  {
    ghost var pat, t, table := x[..m], y[..], shift[..];
    assert MatchAt(pat, t, n);
    var i := m - 1;
    count := 0;
    while true
      invariant m - 1 <= i <= n + m - 1
      invariant x[..m] == pat && y[..] == t && shift[..] == table
      invariant count == EndingBefore(pat, t, n, i)
      decreases n + m - i
    {
      var found, done;
      i, found, done := Round(s, x, m, y, n, shift, sh1, i, pat, t, table);
      if done {
        CountBelowSaturates(pat, t[..n], i - m + 1);
        assert t[..n] == y[..n];
        return;
      }
      if found {
        count := count + 1;
      }
    }
  }
}
