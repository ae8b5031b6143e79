/** The q-gram hashes of the `ohash` family: which matcher runs, how wide its window
    is, how a window becomes a bucket of the shift table, and the standalone `HS`. */
module Hashing {
  import opened Text

  /** The matcher `search` dispatches to: `Order(q)` is `ohash<q>` (1 <= q <= 10),
      `Fallback(wsize)` is `hash8` with its table of WSIZE buckets. */
  datatype Strategy = Order(q: int) | Fallback(wsize: int)

  predicate ValidStrategy(s: Strategy)
  {
    match s
    case Order(q) => 1 <= q <= 10
    case Fallback(wsize) => wsize >= 1
  }

  /** Number of bytes in a window (RANK<q>; 8 for `hash8`). */
  function Width(s: Strategy): int
  {
    match s
    case Order(q) => q
    case Fallback(_) => 8
  }

  /** Shortest pattern the matcher accepts; a shorter one makes it return -1. */
  function MinLength(s: Strategy): int
  {
    match s
    case Order(q) => if q == 1 then 2 else q
    case Fallback(_) => 8
  }

  /** Buckets in the shift table: ASIZE, DSIGMA or WSIZE. */
  function TableSize(s: Strategy): int
  {
    match s
    case Order(q) => if q == 1 then 256 else 65536
    case Fallback(wsize) => wsize
  }

  /** How many of the pattern's last bytes a zero shift already guarantees: the key of
      `ohash1` is the byte itself and the key of `ohash2` is injective. */
  function ExactTail(s: Strategy): int
  {
    match s
    case Order(q) => if q == 1 then 1 else if q == 2 then 2 else 0
    case Fallback(_) => 0
  }

  function Pow2(k: nat): (r: nat)
    ensures r >= 1
  {
    if k == 0 then 1 else 2 * Pow2(k - 1)
  }

  /** The shift-by-one hash `h = (h << 1) + b` over the bytes of `w`, in order. */
  function ShiftHash(w: seq<byte>): nat
    decreases |w|
  {
    if |w| == 0 then 0 else 2 * ShiftHash(w[..|w| - 1]) + w[|w| - 1]
  }

  /** Every term of the shift-by-one hash is at most 255 times a power of two. */
  lemma {:induction false} ShiftHashBound(w: seq<byte>)
    ensures ShiftHash(w) <= 255 * (Pow2(|w|) - 1)
    decreases |w|
  {
    if |w| > 0 {
      ShiftHashBound(w[..|w| - 1]);
    }
  }

  /** Windows of at most 8 bytes hash below DSIGMA, so orders 3 to 8 may index the
      table with the unreduced hash. */
  lemma ShiftHashFitsTable(w: seq<byte>)
    requires |w| <= 8
    ensures ShiftHash(w) < 65536
  {
    ShiftHashBound(w);
    Pow2Monotone(|w|, 8);
  }

  lemma {:induction false} Pow2Monotone(a: nat, b: nat)
    requires a <= b
    ensures Pow2(a) <= Pow2(b)
    decreases b
  {
    if a < b {
      Pow2Monotone(a, b - 1);
    }
  }

  /** The bucket of the window `w`. `ohash1` uses the byte, `ohash2` the two bytes
      side by side, the others the shift-by-one hash reduced to the table size
      (a reduction that changes nothing for orders 3 to 8, see RawIndexFits). */
  function Key(s: Strategy, w: seq<byte>): (r: int)
    requires ValidStrategy(s) && |w| == Width(s)
    ensures 0 <= r < TableSize(s)
  {
    match s
    case Order(q) =>
      if q == 1 then w[0]
      else if q == 2 then 256 * w[0] + w[1]
      else ShiftHash(w) % 65536
    case Fallback(wsize) => Reduce(ShiftHash(w), wsize)
  }

  /** h modulo d, by repeated subtraction (ReduceIsMod), so that the keys of `hash8`
      reduce without non-linear arithmetic on the symbolic WSIZE. */
  function Reduce(h: nat, d: int): (r: int)
    requires d >= 1
    ensures 0 <= r < d
    decreases h
  {
    if h < d then h else Reduce(h - d, d)
  }

  lemma {:induction false} ReduceIsMod(h: nat, d: int)
    requires d >= 1
    ensures Reduce(h, d) == h % d
    decreases h
  {
    if h >= d {
      ReduceIsMod(h - d, d);
      var k := (h - d) / d;
      assert h == (k + 1) * d + (h - d) % d;
      ModUnique(h, d, k + 1, (h - d) % d);
    }
  }

  /** The remainder is the only r in [0, d) with a = k * d + r. */
  lemma ModUnique(a: int, d: int, k: int, r: int)
    requires d >= 1 && a == k * d + r && 0 <= r < d
    ensures a % d == r
  {
    var k0 := a / d;
    assert (k0 - k) * d == r - a % d;
    MulBound(k0 - k, d);
  }

  lemma MulBound(c: int, d: int)
    requires d >= 1
    ensures c >= 1 ==> c * d >= d
    ensures c <= -1 ==> c * d <= -d
  {
  }

  /** Orders 3 to 8 index the table with the hash itself, which is the same bucket. */
  lemma RawIndexFits(s: Strategy, w: seq<byte>)
    requires ValidStrategy(s) && s.Order? && 3 <= s.q <= 8 && |w| == s.q
    ensures Key(s, w) == ShiftHash(w)
  {
    ShiftHashFitsTable(w);
  }

  /** Equal keys mean equal windows for `ohash1` and `ohash2`. */
  lemma ExactKeysInjective(s: Strategy, w1: seq<byte>, w2: seq<byte>)
    requires ValidStrategy(s) && s.Order? && s.q <= 2 && |w1| == |w2| == s.q
    requires Key(s, w1) == Key(s, w2)
    ensures w1 == w2
  {
    if s.q == 2 {
      assert w1 == [w1[0], w1[1]] && w2 == [w2[0], w2[1]];
    } else {
      assert w1 == [w1[0]] && w2 == [w2[0]];
    }
  }

  /** The table index the source computes for a window: like Key, except that `ohash9`
      does not reduce its nine-byte hash. */
  function IndexAsWritten(s: Strategy, w: seq<byte>): (r: int)
    requires ValidStrategy(s) && |w| == Width(s)
    ensures s != Order(9) ==> r == Key(s, w)
  {
    if s.Order? && 3 <= s.q <= 8 then
      RawIndexFits(s, w);
      ShiftHash(w)
    else if s.Order? && s.q == 9 then ShiftHash(w)
    else Key(s, w)
  }

  /** Nine 0xFF bytes: `ohash9` computes the index 130305, past the 65536 buckets. */
  lemma Order9IndexOverflows()
    ensures IndexAsWritten(Order(9), seq(9, _ => 255)) == 130305 >= TableSize(Order(9))
  {
    AllFFHash(9);
    assert Pow2(9) == 512 by { Pow2Values(); }
  }

  /** k bytes 0xFF hash to 255 * (2^k - 1), the largest value ShiftHashBound allows. */
  lemma {:induction false} AllFFHash(k: nat)
    ensures ShiftHash(seq(k, _ => 255)) == 255 * (Pow2(k) - 1)
  {
    if k > 0 {
      AllFFHash(k - 1);
      assert seq(k, _ => 255)[..k - 1] == seq(k - 1, _ => 255);
    }
  }

  lemma Pow2Values()
    ensures Pow2(9) == 512 && Pow2(16) == 65536
  {
    assert Pow2(1) == 2;
    assert Pow2(2) == 4;
    assert Pow2(3) == 8;
    assert Pow2(4) == 16;
    assert Pow2(5) == 32;
    assert Pow2(6) == 64;
    assert Pow2(7) == 128;
    assert Pow2(8) == 256;
    assert Pow2(9) == 512;
    assert Pow2(10) == 1024;
    assert Pow2(11) == 2048;
    assert Pow2(12) == 4096;
    assert Pow2(13) == 8192;
    assert Pow2(14) == 16384;
    assert Pow2(15) == 32768;
  }

  /** The windows computed one byte at a time, as the matchers' loops do. */
  method WindowKey(s: Strategy, a: array<byte>, i: int) returns (h: int)
    requires ValidStrategy(s) && Width(s) - 1 <= i < a.Length
    ensures h == Key(s, a[i - Width(s) + 1..i + 1])
  {
    var q := Width(s);
    var lo := i - q + 1;
    if s.Order? && q == 1 {
      h := a[i];
      assert a[lo..i + 1] == [a[i]];
    } else if s.Order? && q == 2 {
      h := 256 * (a[i - 1] as int) + a[i];
      assert a[lo..i + 1] == [a[i - 1], a[i]];
    } else {
      h := a[lo];
      assert a[lo..lo + 1][..0] == [];
      for j := 1 to q
        invariant h == ShiftHash(a[lo..lo + j])
      {
        assert a[lo..lo + j + 1][..j] == a[lo..lo + j];
        h := 2 * h + a[lo + j];
      }
      if s.Order? && q <= 8 {
        RawIndexFits(s, a[lo..i + 1]);
      } else if s.Order? {
        h := h % 65536;
      } else {
        ReduceIsMod(h, s.wsize);
        h := h % s.wsize;
      }
    }
  }

  /** The value HS computes: byte j of the window weighted by 2^j. */
  function WeightedHash(w: seq<byte>): nat
    decreases |w|
  {
    if |w| == 0 then 0 else WeightedHash(w[..|w| - 1]) + w[|w| - 1] * Pow2(|w| - 1)
  }

  /** Bytes from position 16 on add multiples of DSIGMA, so they never change HS. */
  lemma {:induction false} WeightedHashLateBytes(w: seq<byte>)
    requires |w| >= 16
    ensures WeightedHash(w) % 65536 == WeightedHash(w[..16]) % 65536
    decreases |w|
  {
    if |w| > 16 {
      var v := w[..|w| - 1];
      WeightedHashLateBytes(v);
      assert v[..16] == w[..16];
      Pow2Split(|w| - 1 - 16);
      var c := w[|w| - 1] * Pow2(|w| - 1 - 16);
      ScaleBy65536(w[|w| - 1], Pow2(|w| - 1 - 16));
      assert WeightedHash(w) == WeightedHash(v) + 65536 * c;
      ModAddMultiple(WeightedHash(v), c);
    } else {
      assert w[..16] == w;
    }
  }

  lemma {:induction false} Pow2Split(k: nat)
    ensures Pow2(k + 16) == 65536 * Pow2(k)
    decreases k
  {
    if k == 0 {
      Pow2Values();
    } else {
      Pow2Split(k - 1);
    }
  }

  lemma ScaleBy65536(b: int, p: int)
    ensures b * (65536 * p) == 65536 * (b * p)
  {
  }

  lemma ModAddMultiple(a: int, c: int)
    requires a >= 0 && c >= 0
    ensures (a + 65536 * c) % 65536 == a % 65536
  {
  }

  /** `HS(x, i, q)`: the weighted sum of x[i], ..., x[i+q-1] (just x[i] when q < 1),
      modulo DSIGMA. Each term x[i+j] << j fits a 32-bit int for q <= 24, and the
      unsigned wrap-around of the sum does not change its remainder modulo DSIGMA. */
  method HS(x: array<byte>, i: int, q: int) returns (r: int)
    requires q <= 24 && 0 <= i && i + Max(q, 1) <= x.Length
    ensures r == WeightedHash(x[i..i + Max(q, 1)]) % 65536
    ensures 0 <= r < 65536
  {
    var res: int := x[i];
    var p: int := 2;
    assert x[i..i + 1][..0] == [];
    for j := 1 to Max(q, 1)
      invariant p == Pow2(j)
      invariant res == WeightedHash(x[i..i + j])
    {
      assert x[i..i + j + 1][..j] == x[i..i + j];
      res := res + (x[i + j] as int) * p;
      p := 2 * p;
    }
    r := res % 65536;
  }
}
