/**
 * MSB-first bit packing of integer lists into bytes and back: `encode_bits`
 * (`lst_to_bin` in the older encoder), `decode_bits` and `decode_int`.
 * `Pack` and `Unpack` are the reference meanings the loops are proved against.
 */
module Packing {
  import opened Wrappers
  import opened PyRuntime
  import opened BitStream

  /** What packing `lst` at `bits` bits per number should give: its bit stream, zero-padded to whole bytes. */
  function Pack(lst: seq<nat>, bits: nat): (r: seq<Byte>)
    ensures |r| == (|lst| * bits + 7) / 8
  {
    BytesOf(Stream(lst, bits))
  }

  /**
   * The inputs for which the accumulator loop produces `Pack`: every number
   * fits in `bits` bits, or `bits` is a whole number of bytes (then the
   * accumulator is flushed before each number and excess high bits are cut off).
   */
  predicate PackExact(lst: seq<nat>, bits: nat)
  {
    bits % 8 == 0 || forall j :: 0 <= j < |lst| ==> lst[j] < Pow2(bits)
  }

  lemma BytesOfCons(x: seq<bool>, y: seq<bool>)
    requires |x| == 8
    ensures BytesOf(x + y) == [Val(x)] + BytesOf(y)
  {
    assert (x + y)[..8] == x;
    assert (x + y)[8..] == y;
  }

  /** OR-ing `n` into a left-shifted accumulator leaves `n`'s bits at the bottom. */
  lemma OrLowBits(acc: nat, b: nat, n: nat)
    ensures Bits(BitOr(Shl(acc, b), n), b) == Bits(n, b)
  {
    var y := BitOr(Shl(acc, b), n);
    ShlLow(acc, b);
    OrLow(Shl(acc, b), b, n);
    BitsLow(y, b);
    BitsLow(n, b);
  }

  /** ... and, when `n` fits in `b` bits, the accumulator's bits above them. */
  lemma OrHighBits(acc: nat, bc: nat, b: nat, n: nat)
    requires n < Pow2(b)
    ensures Shr(BitOr(Shl(acc, b), n), b) == acc
  {
    ShlLow(acc, b);
    OrLow(Shl(acc, b), b, n);
    ShlShr(acc, b, n);
  }

  lemma BitsSplitAt(x: nat, k1: nat, k2: nat, k: nat)
    requires k == k1 + k2
    ensures Bits(x, k) == Bits(Shr(x, k2), k1) + Bits(x, k2)
  {
    BitsSplit(x, k1, k2);
  }

  /** Appending `n` to an accumulator holding `bc` pending bits appends `n`'s bits to the pending ones. */
  lemma AccumulateStep(acc: nat, bc: nat, n: nat, b: nat, y: nat, bc': nat)
    requires n < Pow2(b) || bc == 0
    requires y == BitOr(Shl(acc, b), n) && bc' == bc + b
    ensures Bits(y, bc') == Bits(acc, bc) + Bits(n, b)
  {
    BitsSplitAt(y, bc, b, bc');
    OrLowBits(acc, b, n);
    if bc > 0 {
      OrHighBits(acc, bc, b, n);
    } else {
      assert Bits(Shr(y, b), bc) == [] == Bits(acc, bc);
    }
  }

  /** Emitting the top byte of the pending bits. */
  lemma EmitStep(acc: nat, bc: nat, rest: seq<bool>)
    ensures BytesOf(Bits(acc, bc + 8) + rest) == [Low(Shr(acc, bc), 8)] + BytesOf(Bits(acc, bc) + rest)
  {
    BitsSplit(acc, 8, bc);
    var hi := Bits(Shr(acc, bc), 8);
    assert Bits(acc, bc + 8) + rest == hi + (Bits(acc, bc) + rest);
    BytesOfCons(hi, Bits(acc, bc) + rest);
    ValBits(Shr(acc, bc), 8);
  }

  lemma WholeBytes(n: nat)
    requires n < 8 && n % 8 == 0
    ensures n == 0
  {
  }

  /** The zero-padded last byte. */
  lemma FinalStep(acc: nat, bc: nat)
    requires 0 < bc < 8
    ensures BytesOf(Bits(acc, bc)) == [Low(Shl(acc, 8 - bc), 8)]
  {
    var s := Bits(acc, bc);
    var z := Shl(acc, 8 - bc);
    BitsShl(acc, bc, 8 - bc);
    assert s + Zeros(8 - bc) == Bits(z, 8);
    ValBits(z, 8);
    assert BytesOf(s) == [Val(s + Zeros(8 - bc))];
  }

  /**
   * The loop's invariant: the bytes emitted so far, followed by the packing of
   * the bits still pending in the accumulator and of the numbers not yet read,
   * make up the whole packing.
   */
  ghost predicate Pending(target: seq<Byte>, r: seq<Byte>, acc: nat, bc: nat, rest: seq<bool>)
  {
    target == r + BytesOf(Bits(acc, bc) + rest)
  }

  lemma PackingStarts(lst: seq<nat>, bits: nat)
    ensures Pending(Pack(lst, bits), [], 0, 0, Stream(lst[0..], bits))
  {
    assert lst[0..] == lst;
    assert Bits(0, 0) + Stream(lst[0..], bits) == Stream(lst, bits);
  }

  lemma PendingAccumulate(target: seq<Byte>, r: seq<Byte>, acc: nat, bc: nat, acc': nat, bc': nat, lst: seq<nat>, i: nat, bits: nat)
    requires i < |lst| && (lst[i] < Pow2(bits) || bc == 0)
    requires acc' == BitOr(Shl(acc, bits), lst[i]) && bc' == bc + bits
    requires Pending(target, r, acc, bc, Stream(lst[i..], bits))
    ensures Pending(target, r, acc', bc', Stream(lst[i + 1..], bits))
  {
    var n, rest := lst[i], Stream(lst[i + 1..], bits);
    StreamCons(lst, i, bits);
    AccumulateStep(acc, bc, n, bits, acc', bc');
    ConcatAssoc(Bits(acc, bc), Bits(n, bits), rest);
  }

  lemma PendingEmit(target: seq<Byte>, r: seq<Byte>, acc: nat, bc: nat, rest: seq<bool>)
    requires bc >= 8
    requires Pending(target, r, acc, bc, rest)
    ensures Pending(target, r + [LowByte(Shr(acc, bc - 8))], acc, bc - 8, rest)
  {
    EmitStep(acc, bc - 8, rest);
  }

  lemma PendingFinal(target: seq<Byte>, r: seq<Byte>, acc: nat, bc: nat, lst: seq<nat>, bits: nat)
    requires 0 < bc < 8
    requires Pending(target, r, acc, bc, Stream(lst[|lst|..], bits))
    ensures target == r + [LowByte(Shl(acc, 8 - bc))]
  {
    assert Bits(acc, bc) + Stream(lst[|lst|..], bits) == Bits(acc, bc);
    FinalStep(acc, bc);
  }

  lemma PendingDone(target: seq<Byte>, r: seq<Byte>, acc: nat, lst: seq<nat>, bits: nat)
    requires Pending(target, r, acc, 0, Stream(lst[|lst|..], bits))
    ensures target == r
  {
    assert Bits(acc, 0) + Stream(lst[|lst|..], bits) == [];
  }

  lemma ConcatAssoc<T>(a: seq<T>, b: seq<T>, c: seq<T>)
    ensures a + (b + c) == (a + b) + c
  {
  }

  lemma MulSucc(i: int, b: int)
    ensures (i + 1) * b == i * b + b
  {
  }

  lemma StreamCons(lst: seq<nat>, i: nat, bits: nat)
    requires i < |lst|
    ensures Stream(lst[i..], bits) == Bits(lst[i], bits) + Stream(lst[i + 1..], bits)
  {
    assert lst[i..][1..] == lst[i + 1..];
  }

  lemma ByteCount(n: nat, k: nat, bc: nat)
    requires bc < 8 && n == 8 * k + bc
    ensures (n + 7) / 8 == if bc > 0 then k + 1 else k
  {
    if bc > 0 {
      DivModUnique(n + 7, 8, k + 1, bc - 1);
    } else {
      DivModUnique(n + 7, 8, k, 7);
    }
  }

  /**
   * `encode_bits(lst, bits)`: shift each number into an unbounded accumulator,
   * emit a byte whenever eight bits are pending, then zero-pad what is left.
   */
  method EncodeBits(lst: seq<nat>, bits: nat) returns (r: seq<Byte>)
    ensures |r| == (|lst| * bits + 7) / 8
    ensures PackExact(lst, bits) ==> r == Pack(lst, bits)
  {
    var accumulator: nat := 0;
    var bitCount: nat := 0;
    r := [];
    ghost var total := 0;
    ghost var exact := PackExact(lst, bits);
    ghost var target := Pack(lst, bits);
    PackingStarts(lst, bits);
    for i := 0 to |lst|
      invariant bitCount < 8
      invariant total == i * bits
      invariant 8 * |r| + bitCount == total
      invariant bits % 8 == 0 ==> bitCount == 0
      invariant exact ==> Pending(target, r, accumulator, bitCount, Stream(lst[i..], bits))
    {
      var number := lst[i];
      ghost var rest := Stream(lst[i + 1..], bits);
      ghost var acc0, bc0 := accumulator, bitCount;
      accumulator := BitOr(Shl(accumulator, bits), number);
      bitCount := bitCount + bits;
      if exact {
        PendingAccumulate(target, r, acc0, bc0, accumulator, bitCount, lst, i, bits);
      }
      total := total + bits;
      MulSucc(i, bits);
      while bitCount >= 8
        invariant 8 * |r| + bitCount == total
        invariant bits % 8 == 0 ==> bitCount % 8 == 0
        invariant exact ==> Pending(target, r, accumulator, bitCount, rest)
      {
        if exact {
          PendingEmit(target, r, accumulator, bitCount, rest);
        }
        ModStep(bitCount, 8);
        bitCount := bitCount - 8;
        r := r + [LowByte(Shr(accumulator, bitCount))];
      }
      if bits % 8 == 0 {
        WholeBytes(bitCount);
      }
    }
    ByteCount(total, |r|, bitCount);
    if bitCount > 0 {
      if exact {
        PendingFinal(target, r, accumulator, bitCount, lst, bits);
      }
      r := r + [LowByte(Shl(accumulator, 8 - bitCount))];
    } else if exact {
      PendingDone(target, r, accumulator, lst, bits);
    }
  }

  /** A single number packed at 16 bits is its two low bytes, high byte first. */
  lemma PackSingle16(x: nat)
    ensures Pack([x], 16) == [Low(Shr(x, 8), 8), Low(x, 8)]
  {
    var hi, lo := Bits(Shr(x, 8), 8), Bits(x, 8);
    BitsSplit(x, 8, 8);
    assert Stream([x], 16) == hi + lo by {
      assert Stream([x], 16) == Bits(x, 16) + Stream([], 16);
    }
    TwoBytes(hi, lo);
    ValBits(Shr(x, 8), 8);
    ValBits(x, 8);
    assert Pack([x], 16) == BytesOf(hi + lo);
  }

  lemma TwoBytes(hi: seq<bool>, lo: seq<bool>)
    requires |hi| == 8 && |lo| == 8
    ensures BytesOf(hi + lo) == [Val(hi), Val(lo)]
  {
    BytesOfCons(hi, lo);
    assert lo == lo + [];
    BytesOfCons(lo, []);
  }

  /** A single number packed at 8 bits is its low byte. */
  lemma PackSingle8(x: nat)
    ensures Pack([x], 8) == [Low(x, 8)]
  {
    assert Stream([x], 8) == Bits(x, 8) + [];
    BytesOfCons(Bits(x, 8), []);
    ValBits(x, 8);
  }

  /** `decode_int(s)`: `(s[0] << 8) | s[1]`, raising IndexError on fewer than two bytes. */
  function DecodeInt(s: seq<Byte>): (r: Result<nat, PyError>)
    ensures r.Success? <==> |s| >= 2
    ensures r.Success? ==> r.value == 256 * (s[0] as int) + s[1] as int
  {
    match PyIndex(s, 0)
    case Failure(e) => Failure(e)
    case Success(hi) =>
      match PyIndex(s, 1)
      case Failure(e) => Failure(e)
      case Success(lo) =>
        Pow2Is256();
        ShlLow(hi, 8);
        OrLow(Shl(hi, 8), 8, lo);
        Success(BitOr(Shl(hi, 8), lo))
  }

  /** `decode_int` inverts the 16-bit header packing, up to the 16-bit truncation. */
  lemma DecodeIntPack(x: nat, tail: seq<Byte>)
    ensures DecodeInt(Pack([x], 16) + tail) == Success(Low(x, 16))
  {
    var s := Pack([x], 16) + tail;
    var hi, lo := Low(Shr(x, 8), 8), Low(x, 8);
    PackSingle16(x);
    assert s[0] == hi && s[1] == lo;
    LowSplit(x, 8, 8);
    Pow2Is256();
    assert Low(x, 16) == hi * 256 + lo;
    var d := DecodeInt(s);
    assert d.Success? && d.value == 256 * hi + lo;
    assert d.value == Low(x, 16);
    assert d == Success(Low(x, 16));
  }

  /** The bit widths `decode_bits` accepts: those whose fragments tile a byte exactly. */
  predicate DividesByte(b: nat)
  {
    b > 0 && 8 % b == 0
  }

  /** The `b`-bit fragments of byte `x` found at positions `i`, `i - b`, … down to `b`, as the inner loop reads them. */
  function Frags(x: nat, b: nat, i: nat): (r: seq<nat>)
    requires b > 0
    ensures forall j :: 0 <= j < |r| ==> r[j] < Pow2(b)
    decreases i
  {
    if i < b then [] else [Low(Shr(x, i - b), b)] + Frags(x, b, i - b)
  }

  /** What `decode_bits(s, b)` yields for a width that tiles a byte. */
  function Unpack(s: seq<Byte>, b: nat): (r: seq<nat>)
    requires b > 0
  {
    if |s| == 0 then [] else Frags(s[0], b, 8) + Unpack(s[1..], b)
  }

  /** The outcome of `decode_bits(s, bits)`, raised exceptions included. */
  function DecodeBitsOutcome(s: seq<Byte>, bits: nat): (r: Result<seq<nat>, PyError>)
  {
    if |s| == 0 then Success([])
    else if bits == 0 then Failure(ZeroRangeStep)
    else if 8 % bits != 0 then Failure(NegativeShiftCount)
    else Success(Unpack(s, bits))
  }

  lemma {:induction false} UnpackSnoc(s: seq<Byte>, x: Byte, b: nat)
    requires b > 0
    ensures Unpack(s + [x], b) == Unpack(s, b) + Frags(x, b, 8)
  {
    if s != [] {
      assert (s + [x])[1..] == s[1..] + [x];
      UnpackSnoc(s[1..], x, b);
    } else {
      assert ([] + [x])[1..] == [];
    }
  }

  lemma ModStep(i: int, b: int)
    requires i >= b > 0
    ensures (i - b) % b == i % b
  {
    DivModUnique(i - b, b, i / b - 1, i % b);
  }

  /**
   * `decode_bits(s, bits)`: split each byte into `bits`-bit fragments, most
   * significant first.  Python raises on `range(8, 0, 0)` and on a negative
   * shift, which happens for every width that does not divide 8.
   */
  method DecodeBits(s: seq<Byte>, bits: nat) returns (r: Result<seq<nat>, PyError>)
    ensures r == DecodeBitsOutcome(s, bits)
  {
    var result: seq<nat> := [];
    var totalBits: nat := 0;
    var value: nat := 0;
    for k := 0 to |s|
      invariant totalBits == 0 && value == 0
      invariant k > 0 ==> DividesByte(bits)
      invariant k == 0 ==> result == []
      invariant DividesByte(bits) ==> result == Unpack(s[..k], bits)
    {
      var byte := s[k];
      if bits == 0 {
        return Failure(ZeroRangeStep);
      }
      var i: int := 8;
      while i > 0
        invariant 0 <= i <= 8
        invariant i % bits == 8 % bits
        invariant totalBits == 0 && value == 0
        invariant DividesByte(bits) ==> result + Frags(byte, bits, i) == Unpack(s[..k], bits) + Frags(byte, bits, 8)
      {
        if i < bits {
          ShortTail(i, bits);
          return Failure(NegativeShiftCount);
        }
        var shift := i - bits;
        var fragment := Low(Shr(byte, shift), bits);  // `& mask`
        FragsStep(result, byte, bits, i);
        OrIntoZero(bits, fragment);
        value := BitOr(Shl(value, bits), fragment);
        totalBits := totalBits + bits;
        if totalBits >= bits {
          result := result + [value];
          value := 0;
          totalBits := 0;
        }
        ModStep(i, bits);
        i := i - bits;
      }
      ZeroMod(bits);
      UnpackSnoc(s[..k], byte, bits);
      assert s[..k + 1] == s[..k] + [byte];
    }
    if totalBits > 0 {
      // unreachable: every fragment completes a value and resets the count
      assert false;
    }
    assert s[..|s|] == s;
    return Success(result);
  }

  lemma ShortTail(i: int, b: int)
    requires 0 < i < b && i % b == 8 % b
    ensures 8 % b != 0
  {
    DivModUnique(i, b, 0, i);
  }

  lemma ZeroMod(b: int)
    requires b > 0
    ensures 0 % b == 0
  {
  }

  lemma FragsStep(result: seq<nat>, x: nat, b: nat, i: nat)
    requires 0 < b <= i
    ensures result + Frags(x, b, i) == (result + [Low(Shr(x, i - b), b)]) + Frags(x, b, i - b)
  {
    ConcatAssoc(result, [Low(Shr(x, i - b), b)], Frags(x, b, i - b));
  }

  /** `(0 << b) | f` is `f`. */
  lemma OrIntoZero(b: nat, f: nat)
    ensures BitOr(Shl(0, b), f) == f
  {
  }

  lemma {:induction false} FragsChunks(x: nat, b: nat, i: nat)
    requires b > 0 && i % b == 0
    ensures Frags(x, b, i) == Chunks(Bits(x, i), b)
    decreases i
  {
    if i >= b {
      ModStep(i, b);
      BitsSplit(x, b, i - b);
      var hi := Bits(Shr(x, i - b), b);
      var lo := Bits(x, i - b);
      assert (hi + lo)[..b] == hi;
      assert (hi + lo)[b..] == lo;
      ValBits(Shr(x, i - b), b);
      FragsChunks(x, b, i - b);
    } else {
      assert i == 0;
    }
  }

  /** Unpacking bytes is cutting their bit stream into `b`-bit groups. */
  lemma {:induction false} UnpackChunks(s: seq<Byte>, b: nat)
    requires DividesByte(b)
    ensures Unpack(s, b) == Chunks(Unbytes(s), b)
  {
    if s != [] {
      FragsChunks(s[0], b, 8);
      ChunksAppend(Bits(s[0], 8), Unbytes(s[1..]), b);
      UnpackChunks(s[1..], b);
    }
  }

  /** How many whole `b`-bit zero values the padding of an `n`-bit stream spells. */
  function PadValues(n: nat, b: nat): nat
    requires b > 0
  {
    PadTo8(n) / b
  }

  /** The bits of packed numbers, cut back into `b`-bit groups, are the numbers and the padding's zero values. */
  lemma ChunksPack(lst: seq<nat>, b: nat)
    requires b > 0 && forall j :: 0 <= j < |lst| ==> lst[j] < Pow2(b)
    ensures Chunks(Unbytes(Pack(lst, b)), b) == lst + ZeroValues(PadValues(|lst| * b, b))
  {
    var st := Stream(lst, b);
    UnbytesBytesOf(st);
    ChunksStream(lst, b, Zeros(PadTo8(|st|)));
    ChunksZeros(PadTo8(|st|), b);
    forall j | 0 <= j < |lst| {
      LowSmall(lst[j], b);
    }
    assert LowBits(lst, b) == lst;
  }

  /**
   * Round trip: unpacking the packing of numbers that fit in `b` bits gives
   * them back, followed by the zero values the padding bits spell.
   */
  lemma UnpackPack(lst: seq<nat>, b: nat)
    requires DividesByte(b)
    requires forall j :: 0 <= j < |lst| ==> lst[j] < Pow2(b)
    ensures Unpack(Pack(lst, b), b) == lst + ZeroValues(PadValues(|lst| * b, b))
  {
    UnpackChunks(Pack(lst, b), b);
    ChunksPack(lst, b);
  }
}
