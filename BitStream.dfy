/**
 * Big-endian bit streams.  The SDF codec packs numbers MSB-first into bytes;
 * this module gives that packing a reference meaning: a number contributes
 * its low `k` bits (`Bits`), a list contributes the concatenation of its
 * numbers' bits (`Stream`), and a stream becomes bytes eight bits at a time,
 * the last byte zero-padded (`BytesOf`).
 *
 * Python's shift and mask operators on non-negative integers are defined
 * bit by bit (`Shr`, `Low`, `BitOr`), so that every proof here divides by 2
 * only.
 */
module BitStream {

  type Byte = b: int | 0 <= b < 256

  function Pow2(k: nat): (p: nat)
    ensures p >= 1
  {
    if k == 0 then 1 else 2 * Pow2(k - 1)
  }

  lemma Pow2Is256()
    ensures Pow2(8) == 256
  {
  }

  lemma MulAtLeast(t: int, d: int)
    requires t >= 1 && d > 0
    ensures t * d >= d
  {
    assert t * d == d + (t - 1) * d;
  }

  lemma MulTwice(a: int, p: int)
    ensures a * (2 * p) == 2 * (a * p)
  {
  }

  lemma DivModUnique(x: int, d: int, q: int, r: int)
    requires d > 0 && 0 <= r < d && x == q * d + r
    ensures x / d == q && x % d == r
  {
    var q', r' := x / d, x % d;
    assert x == q' * d + r';
    assert (q - q') * d == r' - r;
    if q > q' {
      MulAtLeast(q - q', d);
    } else if q < q' {
      MulAtLeast(q' - q, d);
    }
  }

  /** Python's `x << k`. */
  function Shl(x: nat, k: nat): nat
  {
    x * Pow2(k)
  }

  /** Python's `x >> k`. */
  function Shr(x: nat, k: nat): nat
  {
    if k == 0 then x else Shr(x / 2, k - 1)
  }

  /** Python's `x & (2**k - 1)`: the `k` low bits of `x`. */
  function Low(x: nat, k: nat): (r: nat)
    ensures r < Pow2(k)
  {
    if k == 0 then 0 else 2 * Low(x / 2, k - 1) + x % 2
  }

  /** Python's `x & 0xFF`. */
  function LowByte(x: nat): Byte
  {
    Pow2Is256();
    Low(x, 8)
  }

  /** Python's `x | y` on non-negative integers. */
  function BitOr(x: nat, y: nat): nat
    decreases x + y
  {
    if x == 0 then y
    else if y == 0 then x
    else 2 * BitOr(x / 2, y / 2) + (if x % 2 == 1 || y % 2 == 1 then 1 else 0)
  }

  /** The shift and the mask are division and remainder by a power of two. */
  lemma {:induction false} ShrLowDivMod(x: nat, k: nat)
    ensures x == Shr(x, k) * Pow2(k) + Low(x, k)
  {
    if k > 0 {
      ShrLowDivMod(x / 2, k - 1);
      MulTwice(Shr(x, k), Pow2(k - 1));
    }
  }

  lemma ShrLowAsDivMod(x: nat, k: nat)
    ensures Shr(x, k) == x / Pow2(k) && Low(x, k) == x % Pow2(k)
  {
    ShrLowDivMod(x, k);
    DivModUnique(x, Pow2(k), Shr(x, k), Low(x, k));
  }

  /** A number below `2^k` is its own `k` low bits. */
  lemma {:induction false} LowSmall(n: nat, k: nat)
    requires n < Pow2(k)
    ensures Low(n, k) == n
  {
    if k > 0 {
      LowSmall(n / 2, k - 1);
    }
  }

  /** Shifting `a` left by `k` bits and adding `n < 2^k`: shifting right recovers `a`, masking recovers `n`. */
  lemma {:induction false} ShlShr(a: nat, k: nat, n: nat)
    requires n < Pow2(k)
    ensures Shr(Shl(a, k) + n, k) == a
    ensures Low(Shl(a, k) + n, k) == n
  {
    if k > 0 {
      var y := a * Pow2(k - 1);
      MulTwice(a, Pow2(k - 1));
      assert (Shl(a, k) + n) / 2 == y + n / 2;
      ShlShr(a, k - 1, n / 2);
    }
  }

  /** A left shift by `k` leaves the `k` low bits zero. */
  lemma ShlLow(a: nat, k: nat)
    ensures Low(Shl(a, k), k) == 0
  {
    ShlShr(a, k, 0);
    assert Shl(a, k) + 0 == Shl(a, k);
  }

  /** The low `k1 + k2` bits of `x` are the low `k1` bits of `x >> k2` above the low `k2` bits. */
  lemma {:induction false} LowSplit(x: nat, k1: nat, k2: nat)
    ensures Low(x, k1 + k2) == Low(Shr(x, k2), k1) * Pow2(k2) + Low(x, k2)
  {
    if k2 > 0 {
      var a, p := Low(Shr(x / 2, k2 - 1), k1), Pow2(k2 - 1);
      LowSplit(x / 2, k1, k2 - 1);
      assert Low(x, k1 + k2) == 2 * Low(x / 2, k1 + (k2 - 1)) + x % 2;
      MulTwice(a, p);
    }
  }

  /** The `k` low bits of `x`, most significant first. */
  function Bits(x: nat, k: nat): (bs: seq<bool>)
    ensures |bs| == k
  {
    if k == 0 then [] else Bits(x / 2, k - 1) + [x % 2 == 1]
  }

  /** The number a bit sequence denotes, most significant first. */
  function Val(bs: seq<bool>): (v: nat)
    ensures v < Pow2(|bs|)
  {
    if bs == [] then 0 else 2 * Val(bs[..|bs| - 1]) + (if bs[|bs| - 1] then 1 else 0)
  }

  function Zeros(k: nat): (z: seq<bool>)
    ensures |z| == k && forall i :: 0 <= i < k ==> !z[i]
  {
    seq(k, _ => false)
  }

  lemma {:induction false} BitsSplit(x: nat, k1: nat, k2: nat)
    ensures Bits(x, k1 + k2) == Bits(Shr(x, k2), k1) + Bits(x, k2)
  {
    if k2 > 0 {
      BitsSplit(x / 2, k1, k2 - 1);
      assert Bits(x, k1 + k2) == Bits(x / 2, k1 + k2 - 1) + [x % 2 == 1];
    }
  }

  /** Only the `k` low bits of `x` matter to `Bits(x, k)`. */
  lemma {:induction false} BitsLow(x: nat, k: nat)
    ensures Bits(x, k) == Bits(Low(x, k), k)
  {
    if k > 0 {
      var y := Low(x, k);
      assert y / 2 == Low(x / 2, k - 1) && y % 2 == x % 2;
      BitsLow(x / 2, k - 1);
    }
  }

  lemma {:induction false} ValBits(x: nat, k: nat)
    ensures Val(Bits(x, k)) == Low(x, k)
  {
    if k > 0 {
      assert Bits(x, k)[..k - 1] == Bits(x / 2, k - 1);
      ValBits(x / 2, k - 1);
    }
  }

  lemma {:induction false} BitsVal(bs: seq<bool>)
    ensures Bits(Val(bs), |bs|) == bs
  {
    if bs != [] {
      var n := |bs|;
      var v := Val(bs);
      assert v / 2 == Val(bs[..n - 1]) && (v % 2 == 1) == bs[n - 1];
      BitsVal(bs[..n - 1]);
    }
  }

  lemma {:induction false} ValZeros(k: nat)
    ensures Val(Zeros(k)) == 0
  {
    if k > 0 {
      assert Zeros(k)[..k - 1] == Zeros(k - 1);
      ValZeros(k - 1);
    }
  }

  /** Shifting left by `j` appends `j` zero bits. */
  lemma {:induction false} BitsShl(a: nat, k: nat, j: nat)
    ensures Bits(Shl(a, j), k + j) == Bits(a, k) + Zeros(j)
  {
    if j > 0 {
      var y := a * Pow2(j - 1);
      MulTwice(a, Pow2(j - 1));
      BitsShl(a, k, j - 1);
      assert Bits(2 * y, k + j) == Bits(y, k + j - 1) + [false];
      assert Zeros(j) == Zeros(j - 1) + [false];
    } else {
      assert Bits(a, k) + Zeros(0) == Bits(a, k);
    }
  }

  /**
   * OR-ing `n` into a number whose low `k` bits are zero leaves the low `k`
   * bits equal to those of `n`; when `n` fits in `k` bits the OR is an addition.
   */
  lemma {:induction false} OrLow(x: nat, k: nat, n: nat)
    requires Low(x, k) == 0
    ensures Low(BitOr(x, n), k) == Low(n, k)
    ensures n < Pow2(k) ==> BitOr(x, n) == x + n
  {
    if k > 0 && x != 0 && n != 0 {
      var y, z := BitOr(x / 2, n / 2), BitOr(x, n);
      assert x % 2 == 0 && Low(x / 2, k - 1) == 0;
      assert z == 2 * y + n % 2;
      assert z / 2 == y && z % 2 == n % 2;
      OrLow(x / 2, k - 1, n / 2);
      assert Low(z, k) == 2 * Low(z / 2, k - 1) + z % 2;
      assert Low(n, k) == 2 * Low(n / 2, k - 1) + n % 2;
      if n < Pow2(k) {
        assert n / 2 < Pow2(k - 1);
      }
    } else if x != 0 {
      LowSmall(0, k);
    }
  }

  /** The bit stream of a list: each number's `bits` low bits, in order. */
  function Stream(lst: seq<nat>, bits: nat): (s: seq<bool>)
    ensures |s| == |lst| * bits
  {
    if lst == [] then [] else Bits(lst[0], bits) + Stream(lst[1..], bits)
  }

  /** Zero bits appended to a stream of `n` bits to reach a whole number of bytes. */
  function PadTo8(n: nat): nat
  {
    (n + 7) / 8 * 8 - n
  }

  /** A bit stream as bytes, eight bits per byte, the last one zero-padded. */
  function BytesOf(s: seq<bool>): (r: seq<Byte>)
    ensures |r| == (|s| + 7) / 8
    decreases |s|
  {
    if s == [] then []
    else if |s| < 8 then
      Pow2Is256();
      [Val(s + Zeros(8 - |s|))]
    else
      Pow2Is256();
      [Val(s[..8])] + BytesOf(s[8..])
  }

  /** The bits of a byte sequence, eight per byte. */
  function Unbytes(r: seq<Byte>): (s: seq<bool>)
    ensures |s| == 8 * |r|
  {
    if r == [] then [] else Bits(r[0], 8) + Unbytes(r[1..])
  }

  /** Consecutive `b`-bit groups of a stream, each read as a number; a short tail is dropped. */
  function Chunks(s: seq<bool>, b: nat): (r: seq<nat>)
    requires b > 0
    ensures forall j :: 0 <= j < |r| ==> r[j] < Pow2(b)
    decreases |s|
  {
    if |s| < b then [] else [Val(s[..b])] + Chunks(s[b..], b)
  }

  /** The numbers of a list reduced to their low `b` bits. */
  function LowBits(lst: seq<nat>, b: nat): (r: seq<nat>)
    ensures |r| == |lst|
    ensures forall j :: 0 <= j < |lst| ==> r[j] == Low(lst[j], b)
  {
    if lst == [] then [] else [Low(lst[0], b)] + LowBits(lst[1..], b)
  }

  function ZeroValues(k: nat): (r: seq<nat>)
    ensures |r| == k && forall j :: 0 <= j < k ==> r[j] == 0
  {
    seq(k, _ => 0)
  }

  /** Reading back the bytes of a stream gives the stream and then the padding zeros. */
  lemma {:induction false} UnbytesBytesOf(s: seq<bool>)
    ensures Unbytes(BytesOf(s)) == s + Zeros(PadTo8(|s|))
    decreases |s|
  {
    Pow2Is256();
    if s == [] {
    } else if |s| < 8 {
      BitsVal(s + Zeros(8 - |s|));
      assert PadTo8(|s|) == 8 - |s|;
    } else {
      BitsVal(s[..8]);
      UnbytesBytesOf(s[8..]);
      assert PadTo8(|s| - 8) == PadTo8(|s|);
      calc {
        Unbytes(BytesOf(s));
        Bits(Val(s[..8]), 8) + Unbytes(BytesOf(s[8..]));
        s[..8] + (s[8..] + Zeros(PadTo8(|s|)));
        { assert s[..8] + s[8..] == s; }
        s + Zeros(PadTo8(|s|));
      }
    }
  }

  lemma {:induction false} ChunksAppend(a: seq<bool>, c: seq<bool>, b: nat)
    requires b > 0 && |a| % b == 0
    ensures Chunks(a + c, b) == Chunks(a, b) + Chunks(c, b)
    decreases |a|
  {
    if a != [] {
      assert |a| >= b;
      assert (a + c)[..b] == a[..b];
      assert (a + c)[b..] == a[b..] + c;
      DivModUnique(|a| - b, b, |a| / b - 1, 0);
      ChunksAppend(a[b..], c, b);
    } else {
      assert a + c == c;
    }
  }

  /** Cutting a list's stream back into `b`-bit groups gives each number's low bits. */
  lemma {:induction false} ChunksStream(lst: seq<nat>, b: nat, tail: seq<bool>)
    requires b > 0
    ensures Chunks(Stream(lst, b) + tail, b) == LowBits(lst, b) + Chunks(tail, b)
  {
    if lst != [] {
      var s := Stream(lst, b) + tail;
      assert s[..b] == Bits(lst[0], b);
      assert s[b..] == Stream(lst[1..], b) + tail;
      ValBits(lst[0], b);
      ChunksStream(lst[1..], b, tail);
    } else {
      assert Stream(lst, b) + tail == tail;
    }
  }

  /** `k` zero bits cut into `b`-bit groups are `k / b` zero values. */
  lemma {:induction false} ChunksZeros(k: nat, b: nat)
    requires b > 0
    ensures Chunks(Zeros(k), b) == ZeroValues(k / b)
    decreases k
  {
    if k >= b {
      assert Zeros(k)[..b] == Zeros(b);
      assert Zeros(k)[b..] == Zeros(k - b);
      ValZeros(b);
      ChunksZeros(k - b, b);
      DivModUnique(k, b, (k - b) / b + 1, (k - b) % b);
      assert ZeroValues(k / b) == [0] + ZeroValues((k - b) / b);
    } else {
      DivModUnique(k, b, 0, k);
    }
  }
}
