/** The preprocessing phase shared by `ohash1` .. `ohash10` and `hash8`: a Horspool-style
    shift table indexed by the key of a q-byte window, plus the shift `sh1` taken after a
    candidate has been checked. */
module ShiftTables {
  import opened Text
  import opened Hashing

  /** The q bytes of `x` that end at position k. */
  function Window(x: seq<byte>, q: int, k: int): (w: seq<byte>)
    requires 1 <= q && q - 1 <= k < |x|
    ensures |w| == q
  {
    x[k - q + 1..k + 1]
  }

  /** The matcher accepts a pattern of this length (otherwise it returns -1). */
  predicate Accepts(s: Strategy, m: int)
  {
    ValidStrategy(s) && MinLength(s) <= m
  }

  /** The shift of a bucket no window of the pattern falls into: m for `ohash1`,
      m - q (but at least 1) for `ohash2` .. `ohash10`, m - 7 for `hash8`. */
  function DefaultShift(s: Strategy, m: int): int
  {
    match s
    case Order(q) => if q == 1 then m else Max(m - q, 1)
    case Fallback(_) => m - 7
  }

  /** The last window end the preprocessing loop visits before the final window. */
  function HiEnd(s: Strategy, m: int): int
  {
    Max(Width(s) - 1, m - 2)
  }

  /** The largest window end k in [q-1, hi] whose window of `x` has key b, or -1. */
  function LastEnd(s: Strategy, x: seq<byte>, b: int, hi: int): (r: int)
    requires ValidStrategy(s) && hi < |x|
    ensures r == -1 || (Width(s) - 1 <= r <= hi && Key(s, Window(x, Width(s), r)) == b)
    decreases hi
  {
    if hi < Width(s) - 1 then -1
    else if Key(s, Window(x, Width(s), hi)) == b then hi
    else LastEnd(s, x, b, hi - 1)
  }

  /** The window ends after LastEnd up to hi all have other keys. */
  lemma {:induction false} LastEndIsLast(s: Strategy, x: seq<byte>, b: int, hi: int, k: int)
    requires ValidStrategy(s) && hi < |x| && Width(s) - 1 <= k <= hi
    requires LastEnd(s, x, b, hi) < k
    ensures Key(s, Window(x, Width(s), k)) != b
    decreases hi
  {
    if k < hi {
      LastEndIsLast(s, x, b, hi - 1, k);
    }
  }

  /** Every window end in [q-1, hi] with key b is at most LastEnd. */
  lemma LastEndAtLeast(s: Strategy, x: seq<byte>, b: int, hi: int, k: int)
    requires ValidStrategy(s) && hi < |x| && Width(s) - 1 <= k <= hi
    requires Key(s, Window(x, Width(s), k)) == b
    ensures k <= LastEnd(s, x, b, hi)
  {
    if LastEnd(s, x, b, hi) < k {
      LastEndIsLast(s, x, b, hi, k);
    }
  }

  /** Bucket b after the windows ending in [q-1, hi] have been entered. */
  function ValueUpTo(s: Strategy, x: seq<byte>, b: int, hi: int): int
    requires ValidStrategy(s) && hi < |x|
  {
    var k := LastEnd(s, x, b, hi);
    if k < 0 then DefaultShift(s, |x|) else |x| - 1 - k
  }

  /** Bucket b once all windows but the final one are entered. */
  function TableValue(s: Strategy, x: seq<byte>, b: int): int
    requires Accepts(s, |x|)
  {
    ValueUpTo(s, x, b, HiEnd(s, |x|))
  }

  /** The key of the pattern's final window. */
  function FinalKey(s: Strategy, x: seq<byte>): int
    requires Accepts(s, |x|)
  {
    Key(s, Window(x, Width(s), |x| - 1))
  }

  /** A table with every bucket set to the default shift. */
  function Defaults(s: Strategy, m: int): (t: seq<int>)
    requires ValidStrategy(s)
    ensures |t| == TableSize(s)
  {
    seq(TableSize(s), _ => DefaultShift(s, m))
  }

  /** The table after the windows ending at q-1 .. hi have been entered in that order,
      each window's bucket set to |x| - 1 - (its end). */
  function TableUpTo(s: Strategy, x: seq<byte>, hi: int): (t: seq<int>)
    requires ValidStrategy(s) && hi < |x|
    ensures |t| == TableSize(s)
    decreases hi
  {
    if hi < Width(s) - 1 then Defaults(s, |x|)
    else TableUpTo(s, x, hi - 1)[Key(s, Window(x, Width(s), hi)) := |x| - 1 - hi]
  }

  /** The table the preprocessing leaves behind: every window but the final one entered,
      then the final window's bucket cleared. */
  function ShiftTable(s: Strategy, x: seq<byte>): (t: seq<int>)
    requires Accepts(s, |x|)
    ensures |t| == TableSize(s)
  {
    TableUpTo(s, x, HiEnd(s, |x|))[FinalKey(s, x) := 0]
  }

  /** The shift after a candidate: the final bucket's value before it was cleared,
      raised to 1 when it was 0. */
  function Sh1(s: Strategy, x: seq<byte>): int
    requires Accepts(s, |x|)
  {
    Max(1, TableUpTo(s, x, HiEnd(s, |x|))[FinalKey(s, x)])
  }

  /** `table` and `sh1` are what the preprocessing computes for the pattern `x`. */
  predicate IsShiftTable(s: Strategy, x: seq<byte>, table: seq<int>, sh1: int)
  {
    Accepts(s, |x|) && table == ShiftTable(s, x) && sh1 == Sh1(s, x)
  }

  // ---------------------------------------------------------------------------
  // Properties of the table
  // ---------------------------------------------------------------------------

  /** Bucket b of the table after entering the windows up to hi holds the shift of the
      last window with key b: the later windows overwrite the earlier ones. */
  lemma {:induction false} TableUpToValue(s: Strategy, x: seq<byte>, hi: int, b: int)
    requires ValidStrategy(s) && hi < |x| && 0 <= b < TableSize(s)
    ensures TableUpTo(s, x, hi)[b] == ValueUpTo(s, x, b, hi)
    decreases hi
  {
    if hi >= Width(s) - 1 {
      TableUpToValue(s, x, hi - 1, b);
    }
  }

  /** The final bucket is 0, every other bucket holds the distance from the last window
      with its key (ending before the pattern's last position) to the pattern's end, or
      the default; `sh1` is the final bucket's value, but at least 1. */
  lemma TableEntry(s: Strategy, x: seq<byte>, table: seq<int>, sh1: int, b: int)
    requires IsShiftTable(s, x, table, sh1) && 0 <= b < |table|
    ensures table[b] == if b == FinalKey(s, x) then 0 else TableValue(s, x, b)
    ensures sh1 == Max(1, TableValue(s, x, FinalKey(s, x)))
  {
    TableUpToValue(s, x, HiEnd(s, |x|), b);
    TableUpToValue(s, x, HiEnd(s, |x|), FinalKey(s, x));
  }

  /** The default shift is at least 1 and at most m - q + 1. */
  lemma DefaultShiftBounds(s: Strategy, m: int)
    requires Accepts(s, m)
    ensures 1 <= DefaultShift(s, m) <= m - Width(s) + 1
  {
  }

  /** Every bucket holds a shift in [0, m - q + 1], and `sh1` one in [1, m - q + 1]. */
  lemma TableBounds(s: Strategy, x: seq<byte>, table: seq<int>, sh1: int, b: int)
    requires IsShiftTable(s, x, table, sh1) && 0 <= b < |table|
    ensures 0 <= table[b] <= |x| - Width(s) + 1
    ensures 1 <= sh1 <= |x| - Width(s) + 1
  {
    TableEntry(s, x, table, sh1, b);
    DefaultShiftBounds(s, |x|);
  }

  /** A bucket is 0 exactly when it is the final window's bucket. */
  lemma ZeroOnlyAtFinalKey(s: Strategy, x: seq<byte>, table: seq<int>, sh1: int, b: int)
    requires IsShiftTable(s, x, table, sh1) && 0 <= b < |table|
    ensures table[b] == 0 <==> b == FinalKey(s, x)
  {
    TableEntry(s, x, table, sh1, b);
    DefaultShiftBounds(s, |x|);
  }

  /** No window ending in [q-1, hi] has key b, so LastEnd finds none. */
  lemma {:induction false} LastEndNone(s: Strategy, x: seq<byte>, b: int, hi: int)
    requires ValidStrategy(s) && hi <= |x| - 2
    requires forall k :: Width(s) - 1 <= k <= |x| - 2 ==> Key(s, Window(x, Width(s), k)) != b
    ensures LastEnd(s, x, b, hi) == -1
    decreases hi
  {
    if hi >= Width(s) - 1 {
      LastEndNone(s, x, b, hi - 1);
    }
  }

  /** A bucket no window ending before the pattern's last position falls into keeps the
      default shift. */
  lemma UnusedBucketIsDefault(s: Strategy, x: seq<byte>, table: seq<int>, sh1: int, b: int)
    requires IsShiftTable(s, x, table, sh1) && 0 <= b < |table| && b != FinalKey(s, x)
    requires forall k :: Width(s) - 1 <= k <= |x| - 2 ==> Key(s, Window(x, Width(s), k)) != b
    ensures table[b] == DefaultShift(s, |x|)
  {
    TableEntry(s, x, table, sh1, b);
    UnusedKey(s, x, b);
  }

  /** A key other than the final one that no window ending before |x| - 1 has is not
      recorded by any window the table enters. */
  lemma UnusedKey(s: Strategy, x: seq<byte>, b: int)
    requires Accepts(s, |x|) && b != FinalKey(s, x)
    requires forall k :: Width(s) - 1 <= k <= |x| - 2 ==> Key(s, Window(x, Width(s), k)) != b
    ensures TableValue(s, x, b) == DefaultShift(s, |x|)
  {
    LastEndNone(s, x, b, |x| - 2);
    if |x| - 2 < Width(s) - 1 {
      assert LastEnd(s, x, b, |x| - 1) == LastEnd(s, x, b, |x| - 2);
    }
  }

  /** A bucket whose last window (before the pattern's last position) ends at k holds
      m - 1 - k. */
  lemma UsedBucketIsLastWindow(s: Strategy, x: seq<byte>, table: seq<int>, sh1: int, b: int, k: int)
    requires IsShiftTable(s, x, table, sh1) && 0 <= b < |table| && b != FinalKey(s, x)
    requires Width(s) - 1 <= k <= |x| - 2 && Key(s, Window(x, Width(s), k)) == b
    requires forall k' :: k < k' <= |x| - 2 ==> Key(s, Window(x, Width(s), k')) != b
    ensures table[b] == |x| - 1 - k
  {
    TableEntry(s, x, table, sh1, b);
    LastEndAtLeast(s, x, b, HiEnd(s, |x|), k);
  }

  /** A bucket that a window of the pattern ending at k <= HiEnd falls into holds at
      most m - 1 - k before the final bucket is cleared. */
  lemma ValueAtWindow(s: Strategy, x: seq<byte>, k: int)
    requires Accepts(s, |x|) && Width(s) - 1 <= k <= HiEnd(s, |x|)
    ensures TableValue(s, x, Key(s, Window(x, Width(s), k))) <= |x| - 1 - k
  {
    var b := Key(s, Window(x, Width(s), k));
    LastEndAtLeast(s, x, b, HiEnd(s, |x|), k);
  }

  /** A window of the pattern ending at k never shifts by more than |x| - 1 - k: its
      bucket is the final one (0) or records a window with that key ending at k or later. */
  lemma WindowShiftBound(s: Strategy, x: seq<byte>, table: seq<int>, sh1: int, k: int)
    requires IsShiftTable(s, x, table, sh1) && Width(s) - 1 <= k < |x|
    ensures table[Key(s, Window(x, Width(s), k))] <= |x| - 1 - k
  {
    TableEntry(s, x, table, sh1, Key(s, Window(x, Width(s), k)));
    if k <= HiEnd(s, |x|) {
      ValueAtWindow(s, x, k);
    }
  }

  /** After a candidate ending at the final window's key, the next occurrence of that
      key in the pattern bounds the shift `sh1`. */
  lemma Sh1Bound(s: Strategy, x: seq<byte>, table: seq<int>, sh1: int, k: int)
    requires IsShiftTable(s, x, table, sh1) && Width(s) - 1 <= k <= |x| - 2
    requires Key(s, Window(x, Width(s), k)) == FinalKey(s, x)
    ensures sh1 <= |x| - 1 - k
  {
    TableEntry(s, x, table, sh1, FinalKey(s, x));
    ValueAtWindow(s, x, k);
  }

  // ---------------------------------------------------------------------------
  // Preprocessing
  // ---------------------------------------------------------------------------

  lemma WindowOfPrefix(a: seq<byte>, m: int, q: int, k: int)
    requires 1 <= q && q - 1 <= k < m <= |a|
    ensures a[k - q + 1..k + 1] == Window(a, q, k) == Window(a[..m], q, k)
  {
  }

  /** Entering the window ending at e + 1 extends the table of the windows up to e;
      `a` is a buffer whose first m bytes are the pattern. */
  lemma EnterStep(s: Strategy, a: seq<byte>, m: int, pat: seq<byte>, t: seq<int>, e: int, h: int)
    requires ValidStrategy(s) && Width(s) - 2 <= e < m - 1 && m <= |a| && pat == a[..m]
    requires t == TableUpTo(s, pat, e)
    requires h == Key(s, Window(a, Width(s), e + 1))
    ensures t[h := m - 1 - (e + 1)] == TableUpTo(s, pat, e + 1)
  {
    WindowOfPrefix(a, m, Width(s), e + 1);
  }

  /** Enters the window of x ending at k into `shift` with the value v; returns its key. */
  method Enter(s: Strategy, x: array<byte>, shift: array<int>, k: int, v: int) returns (h: int)
    requires ValidStrategy(s) && Width(s) - 1 <= k < x.Length && shift.Length == TableSize(s)
    modifies shift
    ensures h == Key(s, Window(old(x[..]), Width(s), k))
    ensures shift[..] == old(shift[..])[h := v]
  {
    h := WindowKey(s, x, k);
    shift[h] := v;
  }

  /** Enters the window ending at e + 1 <= m - 1 into a table holding the windows that
      end up to e; `pat` names x[..m]. */
  method EnterNext(s: Strategy, x: array<byte>, m: int, shift: array<int>, e: int, ghost pat: seq<byte>)
    requires Accepts(s, m) && m <= x.Length && x as object != shift && x[..m] == pat
    requires Width(s) - 2 <= e < m - 1 && shift[..] == TableUpTo(s, pat, e)
    modifies shift
    ensures shift[..] == TableUpTo(s, pat, e + 1)
  {
    ghost var a, t := x[..], shift[..];
    var h := Enter(s, x, shift, e + 1, m - 1 - (e + 1));
    EnterStep(s, a, m, pat, t, e, h);
  }

  /** Enters the windows ending at q .. m-2 in order, each with m - 1 - k, so a later
      window overwrites an earlier one's bucket. */
  method EnterWindows(s: Strategy, x: array<byte>, m: int, shift: array<int>, ghost pat: seq<byte>)
    requires Accepts(s, m) && m <= x.Length && x as object != shift && x[..m] == pat
    requires shift[..] == TableUpTo(s, pat, Width(s) - 1)
    modifies shift
    ensures shift[..] == TableUpTo(s, pat, HiEnd(s, m))
  {
    for e := Width(s) - 1 to HiEnd(s, m)
      invariant x[..m] == pat && shift[..] == TableUpTo(s, pat, e)
    {
      EnterNext(s, x, m, shift, e, pat);
    }
  }

  /** A new table with every bucket set to the default shift, computed as the source
      does: m, m - q raised from 0 to 1, or m - 7. */
  method NewTable(s: Strategy, m: int) returns (shift: array<int>)
    requires Accepts(s, m)
    ensures fresh(shift) && shift[..] == Defaults(s, m)
  {
    var q := Width(s);
    var d: int;
    if s.Order? && q == 1 {
      d := m;
    } else if s.Order? {
      d := m - q;
      if d == 0 {
        d := 1;
      }
    } else {
      d := m - 7;
    }
    shift := new int[TableSize(s)];
    for c := 0 to shift.Length
      modifies shift
      invariant forall c' :: 0 <= c' < c ==> shift[c'] == d
    {
      shift[c] := d;
    }
    assert shift[..] == Defaults(s, m);
  }

  /** Reads `sh1` from the final window's bucket, raising 0 to 1, and clears that bucket. */
  method ClearFinal(s: Strategy, x: array<byte>, m: int, shift: array<int>, ghost pat: seq<byte>)
    returns (sh1: int)
    requires Accepts(s, m) && m <= x.Length && x as object != shift && x[..m] == pat
    requires shift[..] == TableUpTo(s, pat, HiEnd(s, m))
    modifies shift
    ensures shift[..] == ShiftTable(s, pat) && sh1 == Sh1(s, pat)
  {
    ghost var t := shift[..];
    var h := WindowKey(s, x, m - 1);
    WindowOfPrefix(x[..], m, Width(s), m - 1);
    assert h == FinalKey(s, pat);
    TableUpToValue(s, pat, HiEnd(s, m), h);
    DefaultShiftBounds(s, m);
    sh1 := shift[h];
    shift[h] := 0;
    if sh1 == 0 {
      sh1 := 1;
    }
  }

  /** The preprocessing: the default table, the first window entered with m - q, the
      windows ending at q .. m-2 entered in order, then `sh1` read from the final
      window's bucket (raised from 0 to 1) and that bucket cleared. */
  method Preprocess(s: Strategy, x: array<byte>, m: int) returns (shift: array<int>, sh1: int)
    requires Accepts(s, m) && m <= x.Length
    ensures fresh(shift) && IsShiftTable(s, x[..m], shift[..], sh1)
  {
    ghost var pat := x[..m];
    var q := Width(s);
    shift := NewTable(s, m);
    ghost var a, t := x[..], shift[..];
    var h := Enter(s, x, shift, q - 1, m - q);
    EnterStep(s, a, m, pat, t, q - 2, h);
    EnterWindows(s, x, m, shift, pat);
    sh1 := ClearFinal(s, x, m, shift, pat);
  }
}
