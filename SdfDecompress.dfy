/**
 * The SDF channel decoder (`src/tools/sdf-compression/decompress.py`),
 * after the lzma step and before the image is assembled.
 *
 * A channel block is read at an offset: the 7-byte header, `(w * h) // 4`
 * bytes of 2-bit codes, then one byte per 0 code of dists (read at the
 * header's dist width).  `expand_sdf` rebuilds the pixels in order: a 0
 * code takes the next dist, codes 1, 2 and 3 take the integer square root
 * of `2·d1² − d2² (+ 2)` over two earlier rebuilt pixels, and finally the
 * channel minimum is added to every pixel.  Every Python exception is an
 * explicit `Failure`.
 */
module SdfDecompress {
  import opened Wrappers
  import opened PyRuntime
  import opened BitStream
  import opened Packing
  import opened SdfCompress

  /** Squares are monotone on the naturals. */
  lemma SqMono(a: nat, b: nat)
    requires a <= b
    ensures Sq(a) <= Sq(b)
  {
    assert Sq(b) - Sq(a) == (b - a) * (b + a);
  }

  /** The largest root not above `r` of the largest square not above `n`. */
  function SqrtBelow(n: nat, r: nat): (root: nat)
    requires n < Sq(r + 1)
    ensures Sq(root) <= n < Sq(root + 1)
    decreases r
  {
    if Sq(r) <= n then r else SqrtBelow(n, r - 1)
  }

  /** The integer square root: what `int(n ** 0.5)` gives for `n >= 0`. */
  function FloorSqrt(n: nat): (root: nat)
    ensures Sq(root) <= n < Sq(root + 1)
  {
    assert n < Sq(n + 1) by {
      assert Sq(n + 1) == n * n + 2 * n + 1;
    }
    SqrtBelow(n, n)
  }

  /** Only `d` has its square between its own square and the next one. */
  lemma SqrtUnique(r: nat, d: nat)
    requires Sq(r) <= Sq(d) < Sq(r + 1)
    ensures r == d
  {
    if r < d {
      SqMono(r + 1, d);
    } else if r > d {
      SqMono(d + 1, r);
    }
  }

  /** The integer square root of a square is its root. */
  lemma SqrtOfSquare(d: nat)
    ensures FloorSqrt(Sq(d)) == d
  {
    SqrtUnique(FloorSqrt(Sq(d)), d);
  }

  /** `int(x ** 0.5)`: a negative `x` gives a complex number, which `int` refuses. */
  function Root(x: int): (r: Result<nat, PyError>)
    ensures r.Success? <==> x >= 0
    ensures r.Success? ==> Sq(r.value) <= x < Sq(r.value + 1)
  {
    if x < 0 then Failure(NegativeSquareRoot) else Success(FloorSqrt(x))
  }

  /** A pixel predicted from two earlier rebuilt pixels, found by Python indexing into `sdf`. */
  function Predicted(sdf: seq<nat>, near: int, far: int, bias: int): (r: Result<nat, PyError>)
    ensures r.Success? <==> -|sdf| <= near < |sdf| && -|sdf| <= far < |sdf|
                            && 2 * Sq(PyIndex(sdf, near).value) - Sq(PyIndex(sdf, far).value) + bias >= 0
  {
    match PyIndex(sdf, near)
    case Failure(e) => Failure(e)
    case Success(d1) =>
      match PyIndex(sdf, far)
      case Failure(e) => Failure(e)
      case Success(d2) => Root(2 * Sq(d1) - Sq(d2) + bias)
  }

  /**
   * What one turn of `expand_sdf`'s first loop appends for code `v` at
   * position `i`: a dist, a predicted pixel, or nothing for a code above 3.
   */
  function Rebuilt(sdf: seq<nat>, i: nat, v: nat, width: nat, dists: seq<nat>, dIndex: nat): (r: Result<seq<nat>, PyError>)
    ensures r.Success? ==> |r.value| == (if v <= 3 then 1 else 0)
  {
    var x :=
      if v == 0 then PyIndex(dists, dIndex)
      else if v == 1 then Predicted(sdf, i - 1, i - 2, 2)
      else if v == 2 then Predicted(sdf, i - width, i - 2 * width, 2)
      else Predicted(sdf, i - (width + 1), i - 2 * (width + 1), 0);
    if v > 3 then Success([])
    else match x
      case Failure(e) => Failure(e)
      case Success(d) => Success([d])
  }

  /** The pixels `expand_sdf`'s first loop rebuilds from `vecs`, before the minimum is added. */
  function ExpandRaw(width: nat, vecs: seq<nat>, dists: seq<nat>): (r: Result<seq<nat>, PyError>)
    ensures r.Success? ==> |r.value| <= |vecs|
  {
    if |vecs| == 0 then Success([])
    else
      var n := |vecs| - 1;
      match ExpandRaw(width, vecs[..n], dists)
      case Failure(e) => Failure(e)
      case Success(sdf) =>
        match Rebuilt(sdf, n, vecs[n], width, dists, CountZeros(vecs[..n]))
        case Failure(e) => Failure(e)
        case Success(x) => Success(sdf + x)
  }

  /** Every pixel raised by `m`. */
  function AddMin(s: seq<nat>, m: nat): (r: seq<nat>)
    ensures |r| == |s| && forall j :: 0 <= j < |s| ==> r[j] == s[j] + m
  {
    seq(|s|, j requires 0 <= j < |s| => s[j] + m)
  }

  /** What `expand_sdf(min_dist, width, vecs, dists)` returns or raises. */
  function ExpandOutcome(minDist: nat, width: nat, vecs: seq<nat>, dists: seq<nat>): Result<seq<nat>, PyError>
  {
    match ExpandRaw(width, vecs, dists)
    case Failure(e) => Failure(e)
    case Success(raw) => Success(AddMin(raw, minDist))
  }

  lemma ExpandRawLast(width: nat, vecs: seq<nat>, dists: seq<nat>)
    requires vecs != [] && ExpandRaw(width, vecs[..|vecs| - 1], dists).Failure?
    ensures ExpandRaw(width, vecs, dists) == ExpandRaw(width, vecs[..|vecs| - 1], dists)
  {
  }

  /** Once a prefix of the codes fails, the whole expansion fails with the same error. */
  lemma {:induction false} ExpandRawFails(width: nat, vecs: seq<nat>, dists: seq<nat>, k: nat)
    requires k <= |vecs| && ExpandRaw(width, vecs[..k], dists).Failure?
    ensures ExpandRaw(width, vecs, dists) == ExpandRaw(width, vecs[..k], dists)
    decreases |vecs| - k
  {
    if k < |vecs| {
      var n := |vecs| - 1;
      assert vecs[..n][..k] == vecs[..k];
      ExpandRawFails(width, vecs[..n], dists, k);
      ExpandRawLast(width, vecs, dists);
    } else {
      assert vecs[..k] == vecs;
    }
  }

  lemma ExpandStops(width: nat, vecs: seq<nat>, dists: seq<nat>, i: nat, sdf: seq<nat>, e: PyError)
    requires i < |vecs| && ExpandRaw(width, vecs[..i], dists) == Success(sdf)
    requires Rebuilt(sdf, i, vecs[i], width, dists, CountZeros(vecs[..i])) == Failure(e)
    ensures ExpandOutcome(0, width, vecs, dists) == Failure(e)
    ensures forall m :: ExpandOutcome(m, width, vecs, dists) == Failure(e)
  {
    assert vecs[..i + 1][..i] == vecs[..i];
    ExpandRawFails(width, vecs, dists, i + 1);
  }

  lemma ExpandSteps(width: nat, vecs: seq<nat>, dists: seq<nat>, i: nat, sdf: seq<nat>, x: seq<nat>)
    requires i < |vecs| && ExpandRaw(width, vecs[..i], dists) == Success(sdf)
    requires Rebuilt(sdf, i, vecs[i], width, dists, CountZeros(vecs[..i])) == Success(x)
    ensures ExpandRaw(width, vecs[..i + 1], dists) == Success(sdf + x)
    ensures CountZeros(vecs[..i + 1]) == CountZeros(vecs[..i]) + (if vecs[i] == 0 then 1 else 0)
  {
    assert vecs[..i + 1][..i] == vecs[..i];
  }

  /**
   * `expand_sdf(min_dist, width, vecs, dists)`: rebuild the pixels in
   * order, then add `min_dist` to each in place.
   */
  method ExpandSdf(minDist: nat, width: nat, vecs: seq<nat>, dists: seq<nat>) returns (r: Result<seq<nat>, PyError>)
    ensures r == ExpandOutcome(minDist, width, vecs, dists)
  {
    var sdf: seq<nat> := [];
    var dIndex := 0;
    for i := 0 to |vecs|
      invariant ExpandRaw(width, vecs[..i], dists) == Success(sdf)
      invariant dIndex == CountZeros(vecs[..i])
    {
      var v := vecs[i];
      var step: Result<seq<nat>, PyError> := Success([]);
      if v == 0 {
        var d := PyIndex(dists, dIndex);
        step := if d.Success? then Success([d.value]) else Failure(d.error);
      } else if v == 1 {
        var x := Predicted(sdf, i - 1, i - 2, 2);
        step := if x.Success? then Success([x.value]) else Failure(x.error);
      } else if v == 2 {
        var x := Predicted(sdf, i - width, i - 2 * width, 2);
        step := if x.Success? then Success([x.value]) else Failure(x.error);
      } else if v == 3 {
        var x := Predicted(sdf, i - (width + 1), i - 2 * (width + 1), 0);
        step := if x.Success? then Success([x.value]) else Failure(x.error);
      }
      assert step == Rebuilt(sdf, i, v, width, dists, dIndex);
      if step.Failure? {
        ExpandStops(width, vecs, dists, i, sdf, step.error);
        return Failure(step.error);
      }
      ExpandSteps(width, vecs, dists, i, sdf, step.value);
      sdf := sdf + step.value;
      if v == 0 {
        dIndex := dIndex + 1;
      }
    }
    assert vecs[..|vecs|] == vecs;
    ghost var raw := sdf;
    for i := 0 to |sdf|
      invariant |sdf| == |raw|
      invariant forall j :: 0 <= j < i ==> sdf[j] == raw[j] + minDist
      invariant forall j :: i <= j < |sdf| ==> sdf[j] == raw[j]
    {
      sdf := sdf[i := sdf[i] + minDist];
    }
    assert sdf == AddMin(raw, minDist);
    return Success(sdf);
  }

  /** The number of pixels of a `height` by `width` channel. */
  function Area(width: nat, height: nat): (n: nat)
    ensures width >= 1 ==> n >= height
    ensures height >= 1 ==> n >= width
  {
    width * height
  }

  /** The 7-byte header of a block at `offset`: minimum, dist width, width and height. */
  datatype BlockHeader = BlockHeader(minDist: nat, distBits: nat, width: nat, height: nat)

  /** The header fields as `vdt_decompress` reads them, or the error reading them raises. */
  function ReadHeader(data: seq<Byte>, offset: nat): (r: Result<BlockHeader, PyError>)
    ensures r.Success? <==> offset + 7 <= |data|
    ensures r.Success? ==> r.value == BlockHeader(256 * (data[offset] as int) + data[offset + 1] as int, data[offset + 2] as int,
                                                  256 * (data[offset + 3] as int) + data[offset + 4] as int,
                                                  256 * (data[offset + 5] as int) + data[offset + 6] as int)
  {
    match DecodeInt(PySlice(data, offset, offset + 2))
    case Failure(e) => Failure(e)
    case Success(minDist) =>
      match PyIndex(data, offset + 2)
      case Failure(e) => Failure(e)
      case Success(distBits) =>
        match DecodeInt(PySlice(data, offset + 3, offset + 5))
        case Failure(e) => Failure(e)
        case Success(width) =>
          match DecodeInt(PySlice(data, offset + 5, offset + 7))
          case Failure(e) => Failure(e)
          case Success(height) => Success(BlockHeader(minDist, distBits, width, height))
  }

  /**
   * What `vdt_decompress(data, offset)` returns — the channel's pixels,
   * row after row, and the offset just past the block — or raises.
   */
  function DecodeChannel(data: seq<Byte>, offset: nat): Result<(seq<nat>, nat), PyError>
  {
    match ReadHeader(data, offset)
    case Failure(e) => Failure(e)
    case Success(hd) => DecodeBody(data, offset, hd)
  }

  /** The block after its header: `(w * h) // 4` bytes of 2-bit codes, then the rest. */
  function DecodeBody(data: seq<Byte>, offset: nat, hd: BlockHeader): Result<(seq<nat>, nat), PyError>
  {
    var distStart := offset + 7 + Area(hd.width, hd.height) / 4;
    AfterCodes(data, distStart, hd, DecodeBitsOutcome(PySlice(data, offset + 7, distStart), 2))
  }

  /** The codes as `decode_bits` read them, or its error; then the dists from `distStart`, one per 0 code. */
  function AfterCodes(data: seq<Byte>, distStart: nat, hd: BlockHeader, codes: Result<seq<nat>, PyError>): Result<(seq<nat>, nat), PyError>
  {
    match codes
    case Failure(e) => Failure(e)
    case Success(vecs) => DecodeRest(data, distStart, distStart + CountZeros(vecs), hd, vecs)
  }

  /**
   * The block after its codes: the dists between `distStart` and `distEnd`,
   * one per 0 code, then the rebuilt, reshaped pixels.
   */
  function DecodeRest(data: seq<Byte>, distStart: nat, distEnd: nat, hd: BlockHeader, vecs: seq<nat>): Result<(seq<nat>, nat), PyError>
  {
    match DecodeBitsOutcome(PySlice(data, distStart, distEnd), hd.distBits)
    case Failure(e) => Failure(e)
    case Success(dists) => Reshaped(ExpandOutcome(hd.minDist, hd.width, vecs, dists), hd, distEnd)
  }

  /** The rebuilt pixels, refused unless they fill a `height` by `width` array. */
  function Reshaped(pixels: Result<seq<nat>, PyError>, hd: BlockHeader, end: nat): (r: Result<(seq<nat>, nat), PyError>)
    ensures r.Success? <==> pixels.Success? && |pixels.value| == Area(hd.width, hd.height)
    ensures r.Success? ==> r.value == (pixels.value, end)
  {
    match pixels
    case Failure(e) => Failure(e)
    case Success(channel) =>
      if |channel| != Area(hd.width, hd.height) then Failure(ShapeMismatch)
      else Success((channel, end))
  }

  /** A decoded block always holds exactly `width * height` pixels and ends after its header. */
  lemma DecodeChannelShape(data: seq<Byte>, offset: nat)
    requires DecodeChannel(data, offset).Success?
    ensures ReadHeader(data, offset).Success?
    ensures |DecodeChannel(data, offset).value.0|
            == Area(ReadHeader(data, offset).value.width, ReadHeader(data, offset).value.height)
    ensures DecodeChannel(data, offset).value.1 >= offset + 7
  {
  }

  /**
   * `vdt_decompress(data, offset)`: read the header, the codes and the
   * dists one after the other, advancing the offset past each, then rebuild
   * the pixels and check they fill a `height` by `width` array.  The stages
   * after the header are `ReadCodes` and `ReadDists`.
   */
  method VdtDecompress(data: seq<Byte>, offset: nat) returns (r: Result<(seq<nat>, nat), PyError>)
    ensures r == DecodeChannel(data, offset)
  {
    var header := ReadHeader(data, offset);
    if header.Failure? {
      return Failure(header.error);
    }
    r := ReadCodes(data, offset, header.value);
  }

  /** The codes stage of `vdt_decompress`: `decode_bits` at 2 bits, then the offset moves past them. */
  method ReadCodes(data: seq<Byte>, offset: nat, hd: BlockHeader) returns (r: Result<(seq<nat>, nat), PyError>)
    ensures r == DecodeBody(data, offset, hd)
  {
    var off := offset + 7;
    var distStart := off + Area(hd.width, hd.height) / 4;
    var vecs := DecodeBits(PySlice(data, off, distStart), 2);
    CodesRead(data, offset, hd, off, distStart);
    r := ReadDists(data, distStart, hd, vecs.value);
    CodesThen(data, distStart, distStart + CountZeros(vecs.value), hd, vecs, vecs.value);
  }

  /**
   * The dists stage of `vdt_decompress`: `decode_bits` at the header's
   * width, `expand_sdf`, and the check that the pixels fill the array.
   */
  method ReadDists(data: seq<Byte>, offset: nat, hd: BlockHeader, vecs: seq<nat>) returns (r: Result<(seq<nat>, nat), PyError>)
    ensures r == DecodeRest(data, offset, offset + CountZeros(vecs), hd, vecs)
  {
    var distLength := CountZeros(vecs);
    var dists := DecodeBits(PySlice(data, offset, offset + distLength), hd.distBits);
    if dists.Failure? {
      return Failure(dists.error);
    }
    var off := offset + distLength;
    var channel := ExpandSdf(hd.minDist, hd.width, vecs, dists.value);
    if channel.Failure? {
      return Failure(channel.error);
    }
    if |channel.value| != Area(hd.width, hd.height) {
      return Failure(ShapeMismatch);
    }
    return Success((channel.value, off));
  }

  /** Reading the codes never raises: 2 tiles a byte, and an empty slice decodes to no codes. */
  lemma CodesRead(data: seq<Byte>, offset: nat, hd: BlockHeader, lo: nat, hi: nat)
    requires lo == offset + 7 && hi == lo + Area(hd.width, hd.height) / 4
    ensures DecodeBitsOutcome(PySlice(data, lo, hi), 2).Success?
    ensures DecodeBody(data, offset, hd) == AfterCodes(data, hi, hd, DecodeBitsOutcome(PySlice(data, lo, hi), 2))
  {
  }

  /** Codes that read are followed by one dist per 0 code. */
  lemma CodesThen(data: seq<Byte>, distStart: nat, distEnd: nat, hd: BlockHeader, codes: Result<seq<nat>, PyError>, vecs: seq<nat>)
    requires codes == Success(vecs) && distEnd == distStart + CountZeros(vecs)
    ensures AfterCodes(data, distStart, hd, codes) == DecodeRest(data, distStart, distEnd, hd, vecs)
  {
  }

  /** Once the header reads, `vdt_decompress` goes on with the codes. */
  lemma HeaderStep(data: seq<Byte>, offset: nat, hd: BlockHeader)
    requires ReadHeader(data, offset) == Success(hd)
    ensures DecodeChannel(data, offset) == DecodeBody(data, offset, hd)
  {
  }

  /** Once the codes read, `vdt_decompress` goes on with the dists, which start at `distStart`. */
  lemma CodesStep(data: seq<Byte>, offset: nat, hd: BlockHeader, vecs: seq<nat>, distStart: nat, distEnd: nat)
    requires distStart == offset + 7 + Area(hd.width, hd.height) / 4
    requires DecodeBitsOutcome(PySlice(data, offset + 7, distStart), 2) == Success(vecs)
    requires distEnd == distStart + CountZeros(vecs)
    ensures DecodeBody(data, offset, hd) == DecodeRest(data, distStart, distEnd, hd, vecs)
  {
    CodesRead(data, offset, hd, offset + 7, distStart);
  }

  /** Once the dists read, `vdt_decompress` rebuilds the pixels and checks their number. */
  lemma DistsStep(data: seq<Byte>, distStart: nat, distEnd: nat, hd: BlockHeader, vecs: seq<nat>, dists: seq<nat>)
    requires DecodeBitsOutcome(PySlice(data, distStart, distEnd), hd.distBits) == Success(dists)
    ensures DecodeRest(data, distStart, distEnd, hd, vecs) == Reshaped(ExpandOutcome(hd.minDist, hd.width, vecs, dists), hd, distEnd)
  {
  }

  /**
   * A block whose header, codes and dists all read is the pixels
   * `expand_sdf` rebuilds from those codes and dists, refused unless they
   * fill the array, and it ends after its last dist byte.
   */
  lemma ChannelSteps(data: seq<Byte>, offset: nat, hd: BlockHeader, vecs: seq<nat>, dists: seq<nat>, distStart: nat, distEnd: nat)
    requires ReadHeader(data, offset) == Success(hd)
    requires distStart == offset + 7 + Area(hd.width, hd.height) / 4
    requires DecodeBitsOutcome(PySlice(data, offset + 7, distStart), 2) == Success(vecs)
    requires distEnd == distStart + CountZeros(vecs)
    requires DecodeBitsOutcome(PySlice(data, distStart, distEnd), hd.distBits) == Success(dists)
    ensures DecodeChannel(data, offset) == Reshaped(ExpandOutcome(hd.minDist, hd.width, vecs, dists), hd, distEnd)
  {
    HeaderStep(data, offset, hd);
    CodesStep(data, offset, hd, vecs, distStart, distEnd);
    DistsStep(data, distStart, distEnd, hd, vecs, dists);
  }

  /** A reader of blocks: the block at an offset, decoded, and the offset just past it. */
  type BlockReader = nat -> Result<(seq<nat>, nat), PyError>

  /** `count` blocks read back to back by `read` from `offset`, and the offset after the last. */
  function Chain(read: BlockReader, offset: nat, count: nat): Result<(seq<seq<nat>>, nat), PyError>
    decreases count
  {
    if count == 0 then Success(([], offset))
    else
      match read(offset)
      case Failure(e) => Failure(e)
      case Success(first) =>
        match Chain(read, first.1, count - 1)
        case Failure(e) => Failure(e)
        case Success(rest) => Success(([first.0] + rest.0, rest.1))
  }

  /** A chain of `count` reads that succeeds yields exactly `count` blocks. */
  lemma {:induction false} ChainCount(read: BlockReader, offset: nat, count: nat)
    requires Chain(read, offset, count).Success?
    ensures |Chain(read, offset, count).value.0| == count
    decreases count
  {
    if count > 0 {
      var first := read(offset).value;
      ChainCount(read, first.1, count - 1);
    }
  }

  /** The blocks already read, put in front of what the remaining reads yield. */
  function After(done: seq<seq<nat>>, rest: Result<(seq<seq<nat>>, nat), PyError>): Result<(seq<seq<nat>>, nat), PyError>
  {
    match rest
    case Success(v) => Success((done + v.0, v.1))
    case Failure(e) => Failure(e)
  }

  /** The channels of a chain of blocks, without the offset after the last. */
  function Channels(c: Result<(seq<seq<nat>>, nat), PyError>): Result<seq<seq<nat>>, PyError>
  {
    match c
    case Failure(e) => Failure(e)
    case Success(v) => Success(v.0)
  }

  /** A successful read moves its block to the front and leaves one read fewer. */
  lemma ChainStep(read: BlockReader, done: seq<seq<nat>>, offset: nat, left: nat, channel: seq<nat>, next: nat)
    requires left > 0 && read(offset) == Success((channel, next))
    ensures After(done, Chain(read, offset, left)) == After(done + [channel], Chain(read, next, left - 1))
  {
    match Chain(read, next, left - 1)
    case Success(v) =>
      assert done + [channel] + v.0 == done + ([channel] + v.0);
    case Failure(_) =>
  }

  /** A chain is its first read followed by the chain of the remaining reads from where the first stopped. */
  lemma ChainCons(read: BlockReader, offset: nat, count: nat, channel: seq<nat>, next: nat, rest: seq<seq<nat>>, end: nat)
    requires count > 0 && read(offset) == Success((channel, next))
    requires Chain(read, next, count - 1) == Success((rest, end))
    ensures Chain(read, offset, count) == Success(([channel] + rest, end))
  {
  }

  /** A read that raises ends the chain with its error. */
  lemma ChainStop(read: BlockReader, done: seq<seq<nat>>, offset: nat, left: nat, e: PyError)
    requires left > 0 && read(offset) == Failure(e)
    ensures After(done, Chain(read, offset, left)) == Failure(e)
  {
  }

  /** With no reads left, the blocks read so far are the chain's channels. */
  lemma ChainEnd(read: BlockReader, channels: seq<seq<nat>>, count: nat, offset: nat)
    requires After([], Chain(read, 1, count)) == After(channels, Chain(read, offset, 0))
    ensures Channels(Chain(read, 1, count)) == Success(channels)
  {
    assert channels + [] == channels;
    var v := Chain(read, 1, count).value;
    assert [] + v.0 == v.0;
  }

  /** `vdt_decompress` on `data` as a reader of blocks. */
  function BlockAt(data: seq<Byte>): BlockReader
  {
    o => DecodeChannel(data, o)
  }

  /** `count` blocks of `data` decoded back to back from `offset`, and the offset after the last. */
  function DecodeChannels(data: seq<Byte>, offset: nat, count: nat): Result<(seq<seq<nat>>, nat), PyError>
  {
    Chain(BlockAt(data), offset, count)
  }

  /**
   * What `decompress_sdf` decodes once the lzma layer is removed: the
   * channel count from the first byte, then that many blocks from offset 1.
   */
  function DecompressOutcome(data: seq<Byte>): Result<seq<seq<nat>>, PyError>
  {
    match PyIndex(data, 0)
    case Failure(e) => Failure(e)
    case Success(count) => Channels(DecodeChannels(data, 1, count))
  }

  /** A stream that decodes yields as many channels as its first byte says. */
  lemma DecompressCount(data: seq<Byte>)
    requires DecompressOutcome(data).Success?
    ensures |data| > 0 && |DecompressOutcome(data).value| == data[0]
  {
    ChainCount(BlockAt(data), 1, data[0]);
  }

  /**
   * One turn of the loop of `decompress_sdf`: `vdt_decompress(data, offset)`,
   * which `read` names.  The ghost `read` and the `requires` that ties it to
   * `DecodeChannel` have no counterpart in the code: they only keep the
   * proof small, and `DecompressSdf` passes `BlockAt(data)`, for which the
   * `requires` holds by definition.
   */
  method NextBlock(data: seq<Byte>, offset: nat, ghost read: BlockReader) returns (r: Result<(seq<nat>, nat), PyError>)
    requires forall o {:trigger DecodeChannel(data, o)} :: DecodeChannel(data, o) == read(o)
    ensures r == read(offset)
  {
    r := VdtDecompress(data, offset);
  }

  /**
   * The loop of `decompress_sdf`: decode `count` blocks in turn from
   * offset 1, threading the offset.  `read` names `vdt_decompress` on
   * `data` for the proof only; it and its `requires` have no counterpart in
   * the code, which only calls `VdtDecompress`.
   */
  method DecodeBlocks(data: seq<Byte>, count: nat, ghost read: BlockReader) returns (r: Result<seq<seq<nat>>, PyError>)
    requires forall o {:trigger DecodeChannel(data, o)} :: DecodeChannel(data, o) == read(o)
    ensures r == Channels(Chain(read, 1, count))
  {
    var channels: seq<seq<nat>> := [];
    var offset: nat := 1;
    for k := 0 to count
      invariant After([], Chain(read, 1, count)) == After(channels, Chain(read, offset, count - k))
    {
      var decoded := NextBlock(data, offset, read);
      if decoded.Failure? {
        ChainStop(read, channels, offset, count - k, decoded.error);
        return Failure(decoded.error);
      }
      ChainStep(read, channels, offset, count - k, decoded.value.0, decoded.value.1);
      channels := channels + [decoded.value.0];
      offset := decoded.value.1;
    }
    ChainEnd(read, channels, count, offset);
    return Success(channels);
  }

  /** `decompress_sdf` after `lzma.decompress`: the channel count, then that many blocks. */
  method DecompressSdf(data: seq<Byte>) returns (r: Result<seq<seq<nat>>, PyError>)
    ensures r == DecompressOutcome(data)
  {
    if |data| == 0 {
      return Failure(IndexOutOfRange);
    }
    r := DecodeBlocks(data, data[0], BlockAt(data));
  }
}
