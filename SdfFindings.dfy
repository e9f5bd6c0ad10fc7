/**
 * Four places where the channel codec of `src/tools/sdf-compression` does
 * not give back what it was given, each shown on the code as written and
 * then corrected:
 *
 *  - the encoder writes the channel minimum in the header but stores the
 *    pixels as they are, while the decoder adds the minimum to every pixel;
 *  - the diagonal predictor is tried from pixel `2 * width + 1`, whose far
 *    sample has index -1: Python reads that from the end of the list, the
 *    channel's last pixel in the encoder but the last pixel rebuilt so far
 *    in the decoder;
 *  - the decoder reads `(w * h) // 4` bytes of codes where the encoder
 *    writes `ceil(w * h / 4)`;
 *  - a channel whose range exceeds 255 gets a 16-bit dist width in its
 *    header, but its dists are packed at 8 bits, and `decode_bits` cannot
 *    read 16-bit numbers at all.
 *
 * The corrected codec subtracts the minimum before predicting, tries the
 * diagonal from `2 * (width + 1)`, reads `ceil(w * h / 4)` bytes of codes
 * and drops the padding codes of the last byte, and packs and reads the
 * dists at the width the header announces.
 */
module SdfFindings {
  import opened Wrappers
  import opened PyRuntime
  import opened BitStream
  import opened Packing
  import opened SdfCompress
  import opened SdfDecompress
  import opened SdfRoundTrip

  /*
   * The codec as written.
   */

  /** A flat channel of 5s comes back as 10s: the minimum 5 is added to pixels it was never taken from. */
  lemma MinAddedTwice()
    ensures var block := EncodedChannelWith([5, 5, 5, 5], 2, 2, 5, 5, 0, 2 * 2 + 1);
      DecodeChannel(block, 0) == Success(([10, 10, 10, 10], |block|))
  {
    var sdf: seq<nat> := [5, 5, 5, 5];
    var block := EncodedChannelWith(sdf, 2, 2, 5, 5, 0, 5);
    FlatFives();
    ChannelRoundTrip([], sdf, 2, 2, 5, [], 5, 5, |block|);
    NoPrefixNoTail(block);
  }

  /** The channel 5, 5, 5, 5 of 2 by 2: its extremes, its codes, and its pixels raised by its minimum. */
  lemma FlatFives()
    ensures Min([5, 5, 5, 5]) == 5 && Max([5, 5, 5, 5]) == 5
    ensures DiagonalsInRange(MapSdf([5, 5, 5, 5], 2, 0, 5), 2)
    ensures AddMin([5, 5, 5, 5], 5) == [10, 10, 10, 10]
  {
    var sdf: seq<nat> := [5, 5, 5, 5];
    Constant(sdf, 5);
  }

  lemma Constant(s: seq<nat>, c: nat)
    requires s != [] && forall j :: 0 <= j < |s| ==> s[j] == c
    ensures Min(s) == c && Max(s) == c
  {
  }

  lemma NoPrefixNoTail(block: seq<Byte>)
    ensures [] + block + [] == block
  {
  }

  /**
   * The channel 0, 3, 0, 3 one pixel wide: its last pixel gets the diagonal
   * code, predicted by the encoder from pixels 1 and 3 (index -1), but the
   * decoder rebuilds it from pixels 1 and 2, the last it has, giving 4.
   */
  lemma DiagonalReadsLastPixel()
    ensures var block := EncodedChannelWith([0, 3, 0, 3], 1, 4, 0, 3, 0, 2 * 1 + 1);
      DecodeChannel(block, 0) == Success(([0, 3, 0, 4], |block|))
  {
    var sdf: seq<nat> := [0, 3, 0, 3];
    var vecs: seq<nat> := [0, 0, 0, 3];
    var dists: seq<nat> := [0, 3, 0];
    var block := EncodedChannelWith(sdf, 1, 4, 0, 3, 0, 3);
    ZeroThreeCodes();
    assert DistBits(0, 3) == 8;
    ChannelLayout(sdf, 1, 4, 0, 3, 0, 3);
    EncodedChannelLength(sdf, 1, 4, 0, 3, 0, 3);
    DiagonalExpands();
    BlockDecodes([], block, [], BlockHeader(0, 8, 1, 4), vecs, dists, [0, 3, 0, 4], |block|);
    NoPrefixNoTail(block);
  }

  /** The codes and dists of the channel 0, 3, 0, 3 one pixel wide, the diagonal tried from pixel 3. */
  lemma ZeroThreeCodes()
    ensures MapSdf([0, 3, 0, 3], 1, 0, 3) == [0, 0, 0, 3]
    ensures FilterDists([0, 3, 0, 3], [0, 0, 0, 3]) == [0, 3, 0]
    ensures CountZeros([0, 0, 0, 3]) == 3
    ensures Writable(BlockHeader(0, 8, 1, 4), [0, 0, 0, 3], [0, 3, 0])
  {
    var sdf: seq<nat> := [0, 3, 0, 3];
    var vecs: seq<nat> := [0, 0, 0, 3];
    assert PredictWith(sdf, 2, 1, 0, 3) == 0 by {
      assert !UpFits(sdf, 2, 1, 0) && !LeftFits(sdf, 2, 0);
    }
    assert DiagonalFits(sdf, 3, 1, 0, 3) by {
      assert Sample(sdf, 3 - 2) == 3 && Sample(sdf, 3 - 4) == 3;
    }
    assert vecs[..0] == [] && vecs[..1] == [0] && vecs[..2] == [0, 0] && vecs[..3] == [0, 0, 0];
    assert [0, 0, 0][..2] == [0, 0] && [0, 0][..1] == [0] && [0][..0] == [];
    assert Rank(vecs, 0) == 0 && Rank(vecs, 1) == 1 && Rank(vecs, 2) == 2 && CountZeros(vecs) == 3;
  }

  /** `expand_sdf` of the codes 0, 0, 0, 3 and the dists 0, 3, 0 with width 1: the last pixel is the root of 2·3² − 0². */
  lemma DiagonalExpands()
    ensures ExpandOutcome(0, 1, [0, 0, 0, 3], [0, 3, 0]) == Success([0, 3, 0, 4])
  {
    var vecs: seq<nat> := [0, 0, 0, 3];
    var dists: seq<nat> := [0, 3, 0];
    assert vecs[..0] == [];
    ExpandSteps(1, vecs, dists, 0, [], [0]);
    assert [] + [0] == [0];
    ExpandSteps(1, vecs, dists, 1, [0], [3]);
    assert [0] + [3] == [0, 3];
    ExpandSteps(1, vecs, dists, 2, [0, 3], [0]);
    assert [0, 3] + [0] == [0, 3, 0];
    DiagonalOfLastPixel();
    ExpandSteps(1, vecs, dists, 3, [0, 3, 0], [4]);
    assert [0, 3, 0] + [4] == [0, 3, 0, 4];
    assert vecs[..4] == vecs;
    assert AddMin([0, 3, 0, 4], 0) == [0, 3, 0, 4];
  }

  /** The decoder's diagonal for pixel 3 of 0, 3, 0: near sample 3 at index 1, far sample 0 at index -1. */
  lemma DiagonalOfLastPixel()
    ensures Predicted([0, 3, 0], 3 - 2, 3 - 4, 0) == Success(4)
  {
    var done: seq<nat> := [0, 3, 0];
    assert PyIndex(done, 1) == Success(3) && PyIndex(done, -1) == Success(0);
    assert 2 * Sq(3) - Sq(0) + 0 == 18;
    RootOf18();
    assert Root(18) == Success(4);
  }

  lemma RootOf18()
    ensures FloorSqrt(18) == 4
  {
    assert Sq(4) <= 18 < Sq(4 + 1);
    RootBetween(18, 4);
  }

  /** The integer square root of `n` is the `d` whose square and next square bracket `n`. */
  lemma RootBetween(n: nat, d: nat)
    requires Sq(d) <= n < Sq(d + 1)
    ensures FloorSqrt(n) == d
  {
    var r := FloorSqrt(n);
    if r < d {
      SqMono(r + 1, d);
    } else if r > d {
      SqMono(d + 1, r);
    }
  }

  /** Four 2-bit codes per byte. */
  lemma {:induction false} CodesLength(s: seq<Byte>)
    ensures |Unpack(s, 2)| == 4 * |s|
  {
    if |s| > 0 {
      CodesLength(s[1..]);
      assert |Frags(s[0], 2, 8)| == 4;
    }
  }

  /**
   * When `w * h` is not a multiple of four, `(w * h) // 4` bytes hold fewer
   * codes than pixels, so no block decodes: `vdt_decompress` raises whatever
   * the bytes.
   */
  lemma FlooredCodesNeverDecode(data: seq<Byte>, offset: nat)
    requires ReadHeader(data, offset).Success?
    requires Area(ReadHeader(data, offset).value.width, ReadHeader(data, offset).value.height) % 4 != 0
    ensures DecodeChannel(data, offset).Failure?
  {
    var hd := ReadHeader(data, offset).value;
    var n := Area(hd.width, hd.height);
    var distStart := offset + 7 + n / 4;
    var slice := PySlice(data, offset + 7, distStart);
    CodesRead(data, offset, hd, offset + 7, distStart);
    var vecs := DecodeBitsOutcome(slice, 2).value;
    CodesLength(slice);
    assert |vecs| < n;
    CodesStep(data, offset, hd, vecs, distStart, distStart + CountZeros(vecs));
    HeaderStep(data, offset, hd);
  }

  /**
   * A channel whose range exceeds 255 never decodes: the header announces
   * 16-bit dists, the encoder still writes one byte per dist, and
   * `decode_bits` at 16 bits shifts by `8 - 16`, which raises.  The first
   * pixel always has code 0, so the dists are never empty.
   */
  lemma SixteenBitDistsFail(prefix: seq<Byte>, sdf: seq<nat>, width: nat, height: nat, minDist: nat, maxDist: nat,
                            maxError: int, diagFrom: nat, tail: seq<Byte>)
    requires sdf != [] && width >= 1 && |sdf| == Area(width, height) && |sdf| % 4 == 0
    requires width < 65536 && height < 65536 && diagFrom >= width + 1
    requires minDist < 65536 && maxDist - minDist > 255
    ensures DecodeChannel(prefix + EncodedChannelWith(sdf, width, height, minDist, maxDist, maxError, diagFrom) + tail, |prefix|)
         == Failure(NegativeShiftCount)
  {
    var vecs := MapSdf(sdf, width, maxError, diagFrom);
    WideBlock(sdf, width, height, minDist, maxDist, maxError, diagFrom);
    RaisesAt(prefix, Pack(vecs, 2), Pack(FilterDists(sdf, vecs), 8), tail, BlockHeader(minDist, 16, width, height), vecs);
  }

  /** A block with a 16-bit dist width, a multiple of four codes and at least one dist byte raises wherever it sits. */
  lemma RaisesAt(prefix: seq<Byte>, c: seq<Byte>, d: seq<Byte>, tail: seq<Byte>, hd: BlockHeader, vecs: seq<nat>)
    requires hd.minDist < 65536 && hd.distBits == 16 && hd.width < 65536 && hd.height < 65536
    requires |vecs| % 4 == 0 && forall j :: 0 <= j < |vecs| ==> vecs[j] <= 3
    requires c == Pack(vecs, 2) && |c| == Area(hd.width, hd.height) / 4 && |d| == CountZeros(vecs) >= 1
    ensures DecodeChannel(prefix + (Header(hd.minDist, 16, hd.width, hd.height) + c + d) + tail, |prefix|)
         == Failure(NegativeShiftCount)
  {
    var h := Header(hd.minDist, 16, hd.width, hd.height);
    HeaderLayout(hd.minDist, 16, hd.width, hd.height);
    var distStart := |prefix| + 7 + |c|;
    BlockSlices(prefix, h, c, d, tail, distStart, distStart + |d|);
    RaisesInStream(prefix + (h + c + d) + tail, |prefix|, hd, vecs, distStart, distStart + |d|);
  }

  /** The block written for a channel whose range exceeds 255: a 16-bit dist width, the codes, and at least one dist byte. */
  lemma WideBlock(sdf: seq<nat>, width: nat, height: nat, minDist: nat, maxDist: nat, maxError: int, diagFrom: nat)
    requires sdf != [] && width >= 1 && |sdf| == Area(width, height) && |sdf| % 4 == 0
    requires diagFrom >= width + 1 && maxDist - minDist > 255
    ensures var vecs := MapSdf(sdf, width, maxError, diagFrom);
      && EncodedChannelWith(sdf, width, height, minDist, maxDist, maxError, diagFrom)
         == Header(minDist, 16, width, height) + Pack(vecs, 2) + Pack(FilterDists(sdf, vecs), 8)
      && |Header(minDist, 16, width, height)| == 7
      && |Pack(vecs, 2)| == Area(width, height) / 4
      && |Pack(FilterDists(sdf, vecs), 8)| == CountZeros(vecs) >= 1
  {
    ChannelLayout(sdf, width, height, minDist, maxDist, maxError, diagFrom);
    HeaderLayout(minDist, 16, width, height);
    QuarterCeil(|sdf|);
    FirstCodeZero(sdf, width, maxError, diagFrom);
  }

  /** The first pixel is always stored whole, so there is at least one dist. */
  lemma FirstCodeZero(sdf: seq<nat>, width: nat, maxError: int, diagFrom: nat)
    requires sdf != [] && width >= 1 && diagFrom >= width + 1
    ensures CountZeros(MapSdf(sdf, width, maxError, diagFrom)) >= 1
  {
    var vecs := MapSdf(sdf, width, maxError, diagFrom);
    assert vecs[0] == 0 && Rank(vecs, 0) < |FilterDists(sdf, vecs)|;
  }

  /** A block whose header announces 16-bit dists, and whose codes read with a 0 among them, raises. */
  lemma RaisesInStream(data: seq<Byte>, offset: nat, hd: BlockHeader, vecs: seq<nat>, distStart: nat, distEnd: nat)
    requires hd.minDist < 65536 && hd.distBits == 16 && hd.width < 65536 && hd.height < 65536
    requires |vecs| % 4 == 0 && forall j :: 0 <= j < |vecs| ==> vecs[j] <= 3
    requires distStart == offset + 7 + Area(hd.width, hd.height) / 4 && distEnd == distStart + CountZeros(vecs)
    requires offset + 7 <= |data| && data[offset..offset + 7] == Header(hd.minDist, 16, hd.width, hd.height)
    requires PySlice(data, offset + 7, distStart) == Pack(vecs, 2)
    requires distStart < distEnd <= |data|
    ensures DecodeChannel(data, offset) == Failure(NegativeShiftCount)
  {
    HeaderRead(data, offset, hd);
    CodesAt(data, offset + 7, distStart, vecs);
    CodesStep(data, offset, hd, vecs, distStart, distEnd);
    HeaderStep(data, offset, hd);
    DistsRaise(data, distStart, distEnd, hd, vecs);
  }

  /** Bytes read at a width that does not tile a byte raise, and so does the block. */
  lemma DistsRaise(data: seq<Byte>, distStart: nat, distEnd: nat, hd: BlockHeader, vecs: seq<nat>)
    requires distStart < distEnd <= |data| && hd.distBits == 16
    ensures DecodeRest(data, distStart, distEnd, hd, vecs) == Failure(NegativeShiftCount)
  {
    assert |PySlice(data, distStart, distEnd)| > 0;
  }

  /*
   * The codec corrected.
   */

  /** Every pixel lowered by `m`. */
  function SubMin(s: seq<nat>, m: nat): (r: seq<nat>)
    requires forall j :: 0 <= j < |s| ==> s[j] >= m
    ensures |r| == |s| && forall j :: 0 <= j < |s| ==> r[j] + m == s[j]
  {
    seq(|s|, j requires 0 <= j < |s| => s[j] - m)
  }

  /**
   * The block the corrected encoder writes: the pixels less the minimum are
   * predicted and stored, the diagonal is tried once both of its samples
   * exist, and the dists are packed at the width the header announces.
   */
  function EncodedChannelCorrected(sdf: seq<nat>, width: nat, height: nat, maxError: int): seq<Byte>
    requires sdf != []
  {
    var bits := DistBits(Min(sdf), Max(sdf));
    var (vecs, dists) := VdtCalcWith(SubMin(sdf, Min(sdf)), width, maxError, 2 * (width + 1));
    Header(Min(sdf), bits, width, height) + Pack(vecs, 2) + Pack(dists, bits)
  }

  /** The codes read, cut to the number of pixels: a Python `vecs[:n]`. */
  function Truncated(codes: Result<seq<nat>, PyError>, n: nat): Result<seq<nat>, PyError>
  {
    match codes
    case Failure(e) => Failure(e)
    case Success(v) => Success(if |v| <= n then v else v[..n])
  }

  /**
   * The corrected `vdt_decompress`: `ceil(w * h / 4)` bytes of codes, of
   * which the first `w * h` are kept, then the dists and pixels as before.
   */
  function DecodeChannelCorrected(data: seq<Byte>, offset: nat): Result<(seq<nat>, nat), PyError>
  {
    match ReadHeader(data, offset)
    case Failure(e) => Failure(e)
    case Success(hd) => DecodeBodyCorrected(data, offset, hd)
  }

  /** The corrected block after its header: `ceil(w * h / 4)` bytes of codes cut to `w * h`, then the rest. */
  function DecodeBodyCorrected(data: seq<Byte>, offset: nat, hd: BlockHeader): Result<(seq<nat>, nat), PyError>
  {
    var distStart := CodesEnd(offset, hd);
    DistsAfter(data, distStart, hd, CodesCut(data, offset + 7, distStart, Area(hd.width, hd.height)))
  }

  /** The codes, or their error; then the dists from `distStart`, `ceil(zeros * dist_bits / 8)` bytes of them. */
  function DistsAfter(data: seq<Byte>, distStart: nat, hd: BlockHeader, codes: Result<seq<nat>, PyError>): Result<(seq<nat>, nat), PyError>
  {
    match codes
    case Failure(e) => Failure(e)
    case Success(vecs) => DistsRest(data, distStart, distStart + DistBytes(CountZeros(vecs), hd.distBits), hd, vecs)
  }

  /** The number of bytes `n` numbers of `bits` bits fill once packed. */
  function DistBytes(n: nat, bits: nat): nat
  {
    (n * bits + 7) / 8
  }

  /** The corrected block after its codes: the dists read at `dist_bits`, then the rebuilt, reshaped pixels. */
  function DistsRest(data: seq<Byte>, distStart: nat, distEnd: nat, hd: BlockHeader, vecs: seq<nat>): Result<(seq<nat>, nat), PyError>
  {
    match DecodeBitsCorrected(PySlice(data, distStart, distEnd), hd.distBits)
    case Failure(e) => Failure(e)
    case Success(dists) => Reshaped(ExpandOutcome(hd.minDist, hd.width, vecs, dists), hd, distEnd)
  }

  /**
   * The corrected `decode_bits`: the bytes read as one stream of bits, most
   * significant first, cut into `bits`-bit numbers, so that a number may
   * span several bytes; a short tail is dropped.
   */
  function DecodeBitsCorrected(s: seq<Byte>, bits: nat): Result<seq<nat>, PyError>
  {
    if |s| == 0 then Success([])
    else if bits == 0 then Failure(ZeroRangeStep)
    else Success(Chunks(Unbytes(s), bits))
  }

  /** At a width that tiles a byte the corrected `decode_bits` is the one as written. */
  lemma DecodeBitsAgrees(s: seq<Byte>, bits: nat)
    requires DividesByte(bits)
    ensures DecodeBitsCorrected(s, bits) == DecodeBitsOutcome(s, bits)
  {
    UnpackChunks(s, bits);
  }

  /**
   * Round trip of the corrected `decode_bits` at any width: numbers that fit
   * in `b` bits, packed, read back, followed by the zero values the padding
   * bits spell.
   */
  lemma DecodeBitsPack(lst: seq<nat>, b: nat)
    requires b > 0 && forall j :: 0 <= j < |lst| ==> lst[j] < Pow2(b)
    ensures DecodeBitsCorrected(Pack(lst, b), b) == Success(lst + ZeroValues(PadValues(|lst| * b, b)))
  {
    if lst == [] {
      assert lst + ZeroValues(PadValues(0, b)) == [];
    } else {
      ChunksPack(lst, b);
    }
  }

  /** Numbers packed at a width that fills whole bytes read back through the corrected `decode_bits` exactly. */
  lemma PackedReadCorrected(lst: seq<nat>, b: nat)
    requires b > 0 && (|lst| * b) % 8 == 0
    requires forall j :: 0 <= j < |lst| ==> lst[j] < Pow2(b)
    ensures DecodeBitsCorrected(Pack(lst, b), b) == Success(lst)
  {
    var m := |lst| * b;
    WholeBytesPad(m);
    DecodeBitsPack(lst, b);
    assert PadValues(m, b) == 0;
    assert lst + ZeroValues(0) == lst;
  }

  /** Numbers packed at a whole number of bytes each somewhere in a stream read back from there. */
  lemma DistsAt(data: seq<Byte>, lo: nat, hi: nat, lst: seq<nat>, b: nat)
    requires b > 0 && b % 8 == 0 && forall j :: 0 <= j < |lst| ==> lst[j] < Pow2(b)
    requires PySlice(data, lo, hi) == Pack(lst, b)
    ensures DecodeBitsCorrected(PySlice(data, lo, hi), b) == Success(lst)
  {
    ByteMultiple(|lst|, b);
    PackedReadCorrected(lst, b);
  }

  lemma ByteMultiple(n: nat, b: nat)
    requires b % 8 == 0
    ensures (n * b) % 8 == 0
  {
    assert n * b == 8 * (n * (b / 8));
  }

  /** Where the corrected decoder takes the codes of the block at `offset` to end. */
  function CodesEnd(offset: nat, hd: BlockHeader): nat
  {
    offset + 7 + (Area(hd.width, hd.height) + 3) / 4
  }

  /** The codes between `lo` and `hi`, cut to `n`. */
  function CodesCut(data: seq<Byte>, lo: nat, hi: nat, n: nat): Result<seq<nat>, PyError>
  {
    Truncated(DecodeBitsOutcome(PySlice(data, lo, hi), 2), n)
  }

  /**
   * On blocks of a multiple of four pixels whose dists are bytes the
   * corrected decoder is the one as written.
   */
  lemma CorrectedDecoderAgrees(data: seq<Byte>, offset: nat)
    requires ReadHeader(data, offset).Success? && ReadHeader(data, offset).value.distBits == 8
    requires Area(ReadHeader(data, offset).value.width, ReadHeader(data, offset).value.height) % 4 == 0
    ensures DecodeChannelCorrected(data, offset) == DecodeChannel(data, offset)
  {
    var hd := ReadHeader(data, offset).value;
    var n := Area(hd.width, hd.height);
    var hi := CodesEnd(offset, hd);
    assert hi == offset + 7 + n / 4;
    HeaderStep(data, offset, hd);
    CorrectedHeaderStep(data, offset, hd);
    CodesRead(data, offset, hd, offset + 7, hi);
    CorrectedCodesRead(data, offset, hd);
    CutNothing(data, offset + 7, hi, n);
    var vecs := DecodeBitsOutcome(PySlice(data, offset + 7, hi), 2).value;
    RestAgrees(data, hi, hd, vecs);
  }

  /** With byte-wide dists the corrected decoder reads one byte per 0 code, as written. */
  lemma RestAgrees(data: seq<Byte>, distStart: nat, hd: BlockHeader, vecs: seq<nat>)
    requires hd.distBits == 8
    ensures DistsAfter(data, distStart, hd, Success(vecs)) == AfterCodes(data, distStart, hd, Success(vecs))
  {
    var distEnd := distStart + CountZeros(vecs);
    assert DistBytes(CountZeros(vecs), 8) == CountZeros(vecs);
    CorrectedCodesThen(data, distStart, distEnd, hd, Success(vecs), vecs);
    CodesThen(data, distStart, distEnd, hd, Success(vecs), vecs);
    DistsAgree(data, distStart, distEnd, hd, vecs);
  }

  lemma DistsAgree(data: seq<Byte>, distStart: nat, distEnd: nat, hd: BlockHeader, vecs: seq<nat>)
    requires hd.distBits == 8
    ensures DistsRest(data, distStart, distEnd, hd, vecs) == DecodeRest(data, distStart, distEnd, hd, vecs)
  {
    DecodeBitsAgrees(PySlice(data, distStart, distEnd), 8);
  }

  /** Cutting to `n` codes changes nothing when the bytes hold at most `n` of them. */
  lemma CutNothing(data: seq<Byte>, lo: nat, hi: nat, n: nat)
    requires lo <= hi && 4 * (hi - lo) <= n
    ensures CodesCut(data, lo, hi, n) == DecodeBitsOutcome(PySlice(data, lo, hi), 2)
  {
    CodesLength(PySlice(data, lo, hi));
  }

  /** Codes packed at 2 bits, however many, read back from `ceil(n / 4)` bytes once cut to their number. */
  lemma CodesPackedCut(vecs: seq<nat>)
    requires forall j :: 0 <= j < |vecs| ==> vecs[j] <= 3
    ensures Truncated(DecodeBitsOutcome(Pack(vecs, 2), 2), |vecs|) == Success(vecs)
  {
    Pow2Is4();
    var packed := Pack(vecs, 2);
    if |packed| > 0 {
      assert DecodeBitsOutcome(packed, 2) == Success(Unpack(packed, 2));
      UnpackPack(vecs, 2);
      CutPadding(vecs, ZeroValues(PadValues(|vecs| * 2, 2)));
    } else {
      assert vecs == [];
    }
  }

  lemma CutPadding(v: seq<nat>, pad: seq<nat>)
    ensures (if |v + pad| <= |v| then v + pad else (v + pad)[..|v|]) == v
  {
    if |pad| == 0 {
      assert v + pad == v;
    } else {
      assert (v + pad)[..|v|] == v;
    }
  }

  /** Where the header, the codes and the dists of a block sit in a longer stream, for any number of codes. */
  lemma CorrectedLayout(data: seq<Byte>, prefix: seq<Byte>, block: seq<Byte>, tail: seq<Byte>,
                        hd: BlockHeader, vecs: seq<nat>, dists: seq<nat>, end: nat)
    requires |vecs| == Area(hd.width, hd.height)
    requires block == Header(hd.minDist, hd.distBits, hd.width, hd.height) + Pack(vecs, 2) + Pack(dists, hd.distBits)
    requires data == prefix + block + tail
    requires end == CodesEnd(|prefix|, hd) + DistBytes(|dists|, hd.distBits)
    ensures |prefix| + 7 <= |data| && data[|prefix|..|prefix| + 7] == Header(hd.minDist, hd.distBits, hd.width, hd.height)
    ensures PySlice(data, |prefix| + 7, CodesEnd(|prefix|, hd)) == Pack(vecs, 2)
    ensures PySlice(data, CodesEnd(|prefix|, hd), end) == Pack(dists, hd.distBits)
  {
    HeaderLayout(hd.minDist, hd.distBits, hd.width, hd.height);
    QuarterCeil(|vecs|);
    BlockSlices(prefix, Header(hd.minDist, hd.distBits, hd.width, hd.height), Pack(vecs, 2), Pack(dists, hd.distBits), tail,
                CodesEnd(|prefix|, hd), end);
  }

  /**
   * A block laid out at `offset` as `CorrectedLayout` says — a header whose
   * dist width is a whole number of bytes, any number of codes packed at 2
   * bits and one dist per 0 code packed at that width — reads back through
   * the corrected decoder as the pixels `expand_sdf` rebuilds.
   */
  lemma CorrectedInStream(data: seq<Byte>, offset: nat, hd: BlockHeader, vecs: seq<nat>, dists: seq<nat>, end: nat)
    requires hd.minDist < 65536 && hd.width < 65536 && hd.height < 65536
    requires 0 < hd.distBits < 256 && hd.distBits % 8 == 0
    requires |vecs| == Area(hd.width, hd.height) && forall j :: 0 <= j < |vecs| ==> vecs[j] <= 3
    requires |dists| == CountZeros(vecs) && forall j :: 0 <= j < |dists| ==> dists[j] < Pow2(hd.distBits)
    requires end == CodesEnd(offset, hd) + DistBytes(|dists|, hd.distBits)
    requires offset + 7 <= |data| && data[offset..offset + 7] == Header(hd.minDist, hd.distBits, hd.width, hd.height)
    requires PySlice(data, offset + 7, CodesEnd(offset, hd)) == Pack(vecs, 2)
    requires PySlice(data, CodesEnd(offset, hd), end) == Pack(dists, hd.distBits)
    ensures DecodeChannelCorrected(data, offset) == Reshaped(ExpandOutcome(hd.minDist, hd.width, vecs, dists), hd, end)
  {
    var distStart := CodesEnd(offset, hd);
    HeaderRead(data, offset, hd);
    CodesCutAt(data, offset + 7, distStart, vecs);
    CorrectedHeaderStep(data, offset, hd);
    CorrectedCodesRead(data, offset, hd);
    DistsAt(data, distStart, end, dists, hd.distBits);
    CorrectedCodesThen(data, distStart, end, hd, Success(vecs), vecs);
    CorrectedDistsStep(data, distStart, end, hd, vecs, dists);
  }

  /** Codes that read are followed, in the corrected decoder, by `ceil(zeros * dist_bits / 8)` bytes of dists. */
  lemma CorrectedCodesThen(data: seq<Byte>, distStart: nat, distEnd: nat, hd: BlockHeader, codes: Result<seq<nat>, PyError>, vecs: seq<nat>)
    requires codes == Success(vecs) && distEnd == distStart + DistBytes(CountZeros(vecs), hd.distBits)
    ensures DistsAfter(data, distStart, hd, codes) == DistsRest(data, distStart, distEnd, hd, vecs)
  {
  }

  /** Once the dists read, the corrected decoder rebuilds the pixels and checks their number. */
  lemma CorrectedDistsStep(data: seq<Byte>, distStart: nat, distEnd: nat, hd: BlockHeader, vecs: seq<nat>, dists: seq<nat>)
    requires DecodeBitsCorrected(PySlice(data, distStart, distEnd), hd.distBits) == Success(dists)
    ensures DistsRest(data, distStart, distEnd, hd, vecs) == Reshaped(ExpandOutcome(hd.minDist, hd.width, vecs, dists), hd, distEnd)
  {
  }

  /** Codes packed at 2 bits somewhere in a stream read back from there, once cut to their number. */
  lemma CodesCutAt(data: seq<Byte>, lo: nat, hi: nat, vecs: seq<nat>)
    requires forall j :: 0 <= j < |vecs| ==> vecs[j] <= 3
    requires PySlice(data, lo, hi) == Pack(vecs, 2)
    ensures CodesCut(data, lo, hi, |vecs|) == Success(vecs)
  {
    CodesPackedCut(vecs);
  }

  /** The corrected decoder reads the codes up to `CodesEnd`, then the dists from there. */
  lemma CorrectedCodesRead(data: seq<Byte>, offset: nat, hd: BlockHeader)
    ensures DecodeBodyCorrected(data, offset, hd)
         == DistsAfter(data, CodesEnd(offset, hd), hd, CodesCut(data, offset + 7, CodesEnd(offset, hd), Area(hd.width, hd.height)))
  {
  }

  lemma CorrectedHeaderStep(data: seq<Byte>, offset: nat, hd: BlockHeader)
    requires ReadHeader(data, offset) == Success(hd)
    ensures DecodeChannelCorrected(data, offset) == DecodeBodyCorrected(data, offset, hd)
  {
  }

  /**
   * The pixels less their minimum fit the dist width the header announces:
   * a byte when the range fits one, 16 bits when the range fits those.
   */
  lemma ShiftedFit(sdf: seq<nat>)
    requires sdf != [] && Max(sdf) - Min(sdf) < 65536
    ensures forall j :: 0 <= j < |sdf| ==> SubMin(sdf, Min(sdf))[j] < Pow2(DistBits(Min(sdf), Max(sdf)))
  {
    Pow2Is256();
    Pow2Is65536();
  }

  /** Either dist width is a whole number of bytes that the header's dist-width byte holds. */
  lemma WholeByteWidth(minDist: nat, maxDist: nat)
    ensures 0 < DistBits(minDist, maxDist) < 256 && DistBits(minDist, maxDist) % 8 == 0
  {
  }

  lemma Pow2Is65536()
    ensures Pow2(16) == 65536
  {
    Pow2Is256();
  }

  /** The codes the corrected encoder writes for `sdf`, with `max_error` 0. */
  function ShiftedCodes(sdf: seq<nat>, width: nat): (vecs: seq<nat>)
    requires sdf != []
    ensures |vecs| == |sdf| && forall j :: 0 <= j < |vecs| ==> vecs[j] <= 3
  {
    MapSdf(SubMin(sdf, Min(sdf)), width, 0, 2 * (width + 1))
  }

  /** The dists the corrected encoder writes for `sdf`, with `max_error` 0. */
  function ShiftedDists(sdf: seq<nat>, width: nat): seq<nat>
    requires sdf != []
  {
    FilterDists(SubMin(sdf, Min(sdf)), ShiftedCodes(sdf, width))
  }

  /**
   * The corrected block: a header with the channel's dist width, the packed
   * codes and one dist per 0 code packed at that width.
   */
  lemma CorrectedBlock(sdf: seq<nat>, width: nat, height: nat, bits: nat)
    requires sdf != [] && bits == DistBits(Min(sdf), Max(sdf))
    ensures EncodedChannelCorrected(sdf, width, height, 0)
         == Header(Min(sdf), bits, width, height) + Pack(ShiftedCodes(sdf, width), 2) + Pack(ShiftedDists(sdf, width), bits)
    ensures |ShiftedDists(sdf, width)| == CountZeros(ShiftedCodes(sdf, width))
  {
  }

  /** The corrected block is seven header bytes, `ceil(n / 4)` bytes of codes and `ceil(zeros * dist_bits / 8)` of dists. */
  lemma CorrectedBlockSize(sdf: seq<nat>, width: nat, height: nat, bits: nat)
    requires sdf != [] && bits == DistBits(Min(sdf), Max(sdf))
    ensures |EncodedChannelCorrected(sdf, width, height, 0)| == 7 + (|sdf| + 3) / 4 + DistBytes(|ShiftedDists(sdf, width)|, bits)
  {
    CorrectedBlock(sdf, width, height, bits);
    HeaderLayout(Min(sdf), bits, width, height);
    PartsSize(Header(Min(sdf), bits, width, height), ShiftedCodes(sdf, width), ShiftedDists(sdf, width), bits);
  }

  lemma PartsSize(h: seq<Byte>, vecs: seq<nat>, dists: seq<nat>, bits: nat)
    requires |h| == 7
    ensures |h + Pack(vecs, 2) + Pack(dists, bits)| == 7 + (|vecs| + 3) / 4 + DistBytes(|dists|, bits)
  {
    QuarterCeil(|vecs|);
  }

  /** Each dist the corrected encoder writes fits the dist width of the header. */
  lemma ShiftedDistsFit(sdf: seq<nat>, width: nat)
    requires sdf != [] && Max(sdf) - Min(sdf) < 65536
    ensures forall j :: 0 <= j < |ShiftedDists(sdf, width)| ==> ShiftedDists(sdf, width)[j] < Pow2(DistBits(Min(sdf), Max(sdf)))
  {
    ShiftedFit(sdf);
    FilterDistsBound(SubMin(sdf, Min(sdf)), ShiftedCodes(sdf, width), Pow2(DistBits(Min(sdf), Max(sdf))));
  }

  /** `expand_sdf` rebuilds the pixels less their minimum, then adds the minimum back: the channel itself. */
  lemma CorrectedExpand(sdf: seq<nat>, width: nat)
    requires sdf != []
    ensures ExpandOutcome(Min(sdf), width, ShiftedCodes(sdf, width), ShiftedDists(sdf, width)) == Success(sdf)
  {
    var m, diagFrom := Min(sdf), 2 * (width + 1);
    var shifted := SubMin(sdf, m);
    GuardedDiagonals(shifted, width, 0);
    ExpandEncoded(shifted, width, diagFrom, m);
    AddSubMin(sdf, m);
  }

  /** With the corrected guard every diagonal code sits where both of its samples exist. */
  lemma GuardedDiagonals(sdf: seq<nat>, width: nat, maxError: int)
    ensures DiagonalsInRange(MapSdf(sdf, width, maxError, 2 * (width + 1)), width)
  {
  }

  /** Lowering every pixel by `m` and raising it again gives the channel back. */
  lemma AddSubMin(s: seq<nat>, m: nat)
    requires forall j :: 0 <= j < |s| ==> s[j] >= m
    ensures AddMin(SubMin(s, m), m) == s
  {
  }

  /**
   * Round trip of one channel through the corrected codec, with `max_error`
   * 0: any channel filling its array, whose minimum and range fit 16 bits,
   * reads back exactly, wherever its block sits in the stream, and the
   * decoder stops right after the block.  Neither a multiple of four pixels
   * nor a condition on the diagonal codes is needed, and ranges above 255
   * travel as 16-bit dists.
   */
  lemma CorrectedChannelRoundTrip(prefix: seq<Byte>, sdf: seq<nat>, width: nat, height: nat, tail: seq<Byte>, end: nat)
    requires sdf != [] && |sdf| == Area(width, height) && width < 65536 && height < 65536
    requires Min(sdf) < 65536 && Max(sdf) - Min(sdf) < 65536
    requires end == |prefix| + |EncodedChannelCorrected(sdf, width, height, 0)|
    ensures DecodeChannelCorrected(prefix + EncodedChannelCorrected(sdf, width, height, 0) + tail, |prefix|) == Success((sdf, end))
  {
    var hd := BlockHeader(Min(sdf), DistBits(Min(sdf), Max(sdf)), width, height);
    CorrectedBlock(sdf, width, height, hd.distBits);
    CorrectedBlockSize(sdf, width, height, hd.distBits);
    ShiftedDistsFit(sdf, width);
    CorrectedExpand(sdf, width);
    var block := EncodedChannelCorrected(sdf, width, height, 0);
    var data := prefix + block + tail;
    assert end == CodesEnd(|prefix|, hd) + DistBytes(|ShiftedDists(sdf, width)|, hd.distBits);
    CorrectedLayout(data, prefix, block, tail, hd, ShiftedCodes(sdf, width), ShiftedDists(sdf, width), end);
    WholeByteWidth(Min(sdf), Max(sdf));
    CorrectedInStream(data, |prefix|, hd, ShiftedCodes(sdf, width), ShiftedDists(sdf, width), end);
  }
}
