/**
 * The SDF channel encoder (`src/tools/sdf-compression/compress.py`).
 *
 * Each pixel of a flattened channel gets a 2-bit "vector" code saying which
 * earlier pixels predict it: 3 the diagonal neighbours, 2 the two pixels
 * above, 1 the two pixels to the left, 0 none (the pixel is then stored
 * verbatim as a "dist").  A prediction from `d1` (near) and `d2` (far) fits
 * when `d0² ≈ 2·d1² − d2² (+ 2)` within `max_error`.  A channel is stored as
 * a 7-byte header (min, dist width, width, height), the packed codes and
 * the packed dists; the whole buffer is a channel-count byte and then each
 * channel's block.
 *
 * Pixel values are mathematical integers here, not NumPy `uint8` scalars.
 * The older encoder (`LegacySdfCompress`) differs only in its diagonal
 * guard, so the predictor takes the first index at which the diagonal is
 * tried as a parameter, `diagFrom`.
 */
module SdfCompress {
  import opened Wrappers
  import opened PyRuntime
  import opened BitStream
  import opened Packing

  function Sq(x: int): int
  {
    x * x
  }

  function Abs(x: int): nat
  {
    if x < 0 then -x else x
  }

  /** The predictors' test: `|d0² − (2·d1² − d2² + bias)| <= maxError`. */
  predicate Within(d0: int, d1: int, d2: int, bias: int, maxError: int)
  {
    Abs(Sq(d0) - (2 * Sq(d1) - Sq(d2) + bias)) <= maxError
  }

  /** Python's `sdf[k]` for an index known to be in range; a negative index counts from the end. */
  function Sample(sdf: seq<nat>, k: int): (d: nat)
    requires -|sdf| <= k < |sdf|
    ensures PyIndex(sdf, k) == Success(d)
  {
    if k >= 0 then sdf[k] else sdf[|sdf| + k]
  }

  /** The diagonal prediction fits at pixel `i`. */
  predicate DiagonalFits(sdf: seq<nat>, i: nat, width: nat, maxError: int, diagFrom: nat)
    requires i < |sdf| && diagFrom >= width + 1
  {
    i >= diagFrom && Within(sdf[i], Sample(sdf, i - (width + 1)), Sample(sdf, i - 2 * (width + 1)), 0, maxError)
  }

  /** The prediction from the two pixels above fits at pixel `i`. */
  predicate UpFits(sdf: seq<nat>, i: nat, width: nat, maxError: int)
    requires i < |sdf|
  {
    i >= 2 * width && Within(sdf[i], sdf[i - width], sdf[i - 2 * width], 2, maxError)
  }

  /** The prediction from the two pixels to the left fits at pixel `i`. */
  predicate LeftFits(sdf: seq<nat>, i: nat, maxError: int)
    requires i < |sdf|
  {
    i >= 2 && Within(sdf[i], sdf[i - 1], sdf[i - 2], 2, maxError)
  }

  /**
   * `predict(sdf, i)` of `predict_func(width, max_error)`, with the diagonal
   * tried from index `diagFrom` on (`2 * width + 1` here).  The guards keep
   * every index within Python's range; only the diagonal's far sample can
   * be negative.
   */
  function PredictWith(sdf: seq<nat>, i: nat, width: nat, maxError: int, diagFrom: nat): (code: nat)
    requires i < |sdf| && diagFrom >= width + 1
    ensures code <= 3
    ensures code == 3 <==> DiagonalFits(sdf, i, width, maxError, diagFrom)
    ensures code == 2 <==> !DiagonalFits(sdf, i, width, maxError, diagFrom) && UpFits(sdf, i, width, maxError)
    ensures code == 1 <==> !DiagonalFits(sdf, i, width, maxError, diagFrom) && !UpFits(sdf, i, width, maxError)
                           && LeftFits(sdf, i, maxError)
    ensures width >= 1 && i < 2 ==> code == 0
  {
    var d02 := Sq(sdf[i]);
    if i >= diagFrom && Abs(d02 - (2 * Sq(Sample(sdf, i - (width + 1))) - Sq(Sample(sdf, i - 2 * (width + 1))))) <= maxError then 3
    else if i >= 2 * width && Abs(d02 - (2 * Sq(sdf[i - width]) - Sq(sdf[i - 2 * width]) + 2)) <= maxError then 2
    else if i >= 2 && Abs(d02 - (2 * Sq(sdf[i - 1]) - Sq(sdf[i - 2]) + 2)) <= maxError then 1
    else 0
  }

  /** `predict_func(width, max_error)`'s predictor. */
  function Predict(sdf: seq<nat>, i: nat, width: nat, maxError: int): (code: nat)
    requires i < |sdf|
    ensures code == PredictWith(sdf, i, width, maxError, 2 * width + 1)
    ensures code == 3 ==> i >= 2 * width + 1
  {
    PredictWith(sdf, i, width, maxError, 2 * width + 1)
  }

  /** `map_sdf(sdf, predictor)`: one code per pixel, in pixel order. */
  function MapSdf(sdf: seq<nat>, width: nat, maxError: int, diagFrom: nat): (vecs: seq<nat>)
    requires diagFrom >= width + 1
    ensures |vecs| == |sdf|
    ensures forall i :: 0 <= i < |sdf| ==> vecs[i] == PredictWith(sdf, i, width, maxError, diagFrom)
    ensures forall i :: 0 <= i < |vecs| ==> vecs[i] <= 3
  {
    seq(|sdf|, i requires 0 <= i < |sdf| => PredictWith(sdf, i, width, maxError, diagFrom))
  }

  /** How many codes are 0, i.e. `vecs.count(0)`. */
  function CountZeros(vecs: seq<nat>): (n: nat)
    ensures n <= |vecs|
  {
    if |vecs| == 0 then 0 else CountZeros(vecs[..|vecs| - 1]) + (if vecs[|vecs| - 1] == 0 then 1 else 0)
  }

  /** How many codes before position `k` are 0: where the dist of a 0 code at `k` is stored. */
  function Rank(vecs: seq<nat>, k: nat): nat
    requires k <= |vecs|
  {
    CountZeros(vecs[..k])
  }

  /** `filter_dists(sdf, vecs)` raises only if a 0 code has no pixel to read. */
  predicate DistsReadable(sdf: seq<nat>, vecs: seq<nat>)
  {
    forall k :: 0 <= k < |vecs| && vecs[k] == 0 ==> k < |sdf|
  }

  /**
   * `filter_dists(sdf, vecs)`: the pixels whose code is 0, in order.  The
   * pixel at a 0 code lands at the position counting the 0 codes before it.
   */
  function FilterDists(sdf: seq<nat>, vecs: seq<nat>): (dists: seq<nat>)
    requires DistsReadable(sdf, vecs)
    ensures |dists| == CountZeros(vecs)
    ensures forall k {:trigger Rank(vecs, k)} :: 0 <= k < |vecs| && vecs[k] == 0 ==>
              Rank(vecs, k) < |dists| && dists[Rank(vecs, k)] == sdf[k]
  {
    if |vecs| == 0 then []
    else
      var n := |vecs| - 1;
      var init := vecs[..n];
      assert forall k :: 0 <= k < n ==> init[..k] == vecs[..k];
      assert forall k :: 0 <= k < n ==> Rank(init, k) == Rank(vecs, k);
      FilterDists(sdf, init) + (if vecs[n] == 0 then [sdf[n]] else [])
  }

  /** `vdt_calc` with the diagonal tried from `diagFrom`: the codes and the dists. */
  function VdtCalcWith(sdf: seq<nat>, width: nat, maxError: int, diagFrom: nat): (r: (seq<nat>, seq<nat>))
    requires diagFrom >= width + 1
    ensures |r.0| == |sdf| && |r.1| == CountZeros(r.0)
    ensures forall k {:trigger Rank(r.0, k)} :: 0 <= k < |sdf| && r.0[k] == 0 ==>
              Rank(r.0, k) < |r.1| && r.1[Rank(r.0, k)] == sdf[k]
  {
    var vecs := MapSdf(sdf, width, maxError, diagFrom);
    (vecs, FilterDists(sdf, vecs))
  }

  /** `16 if max_dist - min_dist > 255 else 8`. */
  function DistBits(minDist: nat, maxDist: nat): (bits: nat)
    ensures bits == 16 <==> maxDist - minDist > 255
    ensures bits == 8 <==> maxDist - minDist <= 255
  {
    if maxDist - minDist > 255 then 16 else 8
  }

  /** The header as `vdt_compress` writes it, through `encode_bits`. */
  function Header(minDist: nat, distBits: nat, width: nat, height: nat): seq<Byte>
  {
    Pack([minDist], 16) + Pack([distBits], 8) + Pack([width], 16) + Pack([height], 16)
  }

  /** The high and the low byte of the 16-bit truncation of `x`. */
  function Hi(x: nat): Byte
  {
    LowByte(Shr(x, 8))
  }

  /** The header is seven bytes: min and the two sizes big-endian on 16 bits, the dist width on 8. */
  lemma HeaderLayout(minDist: nat, distBits: nat, width: nat, height: nat)
    ensures Header(minDist, distBits, width, height)
         == [Hi(minDist), LowByte(minDist), LowByte(distBits), Hi(width), LowByte(width), Hi(height), LowByte(height)]
  {
    PackSingle16(minDist);
    PackSingle8(distBits);
    PackSingle16(width);
    PackSingle16(height);
  }

  /** Below 65536 the two header bytes are the quotient and remainder by 256. */
  lemma HiLo(x: nat)
    requires x < 65536
    ensures Hi(x) == x / 256 && LowByte(x) == x % 256
  {
    Pow2Is256();
    ShrLowAsDivMod(x, 8);
    LowSmall(x / 256, 8);
  }

  /** What `vdt_compress` returns for one channel, with the diagonal tried from `diagFrom`. */
  function EncodedChannelWith(sdf: seq<nat>, width: nat, height: nat, minDist: nat, maxDist: nat,
                              maxError: int, diagFrom: nat): seq<Byte>
    requires diagFrom >= width + 1
  {
    var (vecs, dists) := VdtCalcWith(sdf, width, maxError, diagFrom);
    Header(minDist, DistBits(minDist, maxDist), width, height) + Pack(vecs, 2) + Pack(dists, 8)
  }

  lemma Pow2Is4()
    ensures Pow2(2) == 4
  {
  }

  lemma QuarterCeil(n: nat)
    ensures (n * 2 + 7) / 8 == (n + 3) / 4
  {
  }

  /** A channel's block is seven header bytes, `ceil(n / 4)` bytes of codes and one byte per dist. */
  lemma EncodedChannelLength(sdf: seq<nat>, width: nat, height: nat, minDist: nat, maxDist: nat,
                             maxError: int, diagFrom: nat)
    requires diagFrom >= width + 1
    ensures |EncodedChannelWith(sdf, width, height, minDist, maxDist, maxError, diagFrom)|
         == 7 + (|sdf| + 3) / 4 + CountZeros(MapSdf(sdf, width, maxError, diagFrom))
  {
    var vecs := MapSdf(sdf, width, maxError, diagFrom);
    var header := Header(minDist, DistBits(minDist, maxDist), width, height);
    ChannelLayout(sdf, width, height, minDist, maxDist, maxError, diagFrom);
    HeaderLayout(minDist, DistBits(minDist, maxDist), width, height);
    assert |header| == 7;
    QuarterCeil(|sdf|);
    assert |Pack(vecs, 2)| == (|sdf| + 3) / 4;
    assert |Pack(FilterDists(sdf, vecs), 8)| == CountZeros(vecs);
  }

  /**
   * `vdt_compress` with the diagonal tried from `diagFrom`: extends the
   * result by the header, the codes packed at 2 bits and the dists packed
   * at 8 bits.
   */
  method VdtCompressWith(sdfData: seq<nat>, width: nat, height: nat, minDist: nat, maxDist: nat,
                         maxError: int, diagFrom: nat) returns (result: seq<Byte>)
    requires diagFrom >= width + 1
    ensures result == EncodedChannelWith(sdfData, width, height, minDist, maxDist, maxError, diagFrom)
  {
    result := [];
    var (vecs, dists) := VdtCalcWith(sdfData, width, maxError, diagFrom);
    var distBits := if maxDist - minDist > 255 then 16 else 8;
    var part := EncodeBits([minDist], 16);
    assert result + part == Pack([minDist], 16);
    result := result + part;
    part := EncodeBits([distBits], 8);
    result := result + part;
    part := EncodeBits([width], 16);
    result := result + part;
    part := EncodeBits([height], 16);
    result := result + part;
    assert result == Header(minDist, DistBits(minDist, maxDist), width, height);
    Pow2Is4();
    part := EncodeBits(vecs, 2);
    result := result + part;
    part := EncodeBits(dists, 8);
    result := result + part;
    ChannelLayout(sdfData, width, height, minDist, maxDist, maxError, diagFrom);
  }

  lemma ChannelLayout(sdf: seq<nat>, width: nat, height: nat, minDist: nat, maxDist: nat, maxError: int, diagFrom: nat)
    requires diagFrom >= width + 1
    ensures EncodedChannelWith(sdf, width, height, minDist, maxDist, maxError, diagFrom)
         == Header(minDist, DistBits(minDist, maxDist), width, height)
            + Pack(MapSdf(sdf, width, maxError, diagFrom), 2)
            + Pack(FilterDists(sdf, MapSdf(sdf, width, maxError, diagFrom)), 8)
  {
  }

  /** `vdt_compress(sdf_data, width, height, min_dist, max_dist, max_error)`. */
  method VdtCompress(sdfData: seq<nat>, width: nat, height: nat, minDist: nat, maxDist: nat, maxError: int)
    returns (result: seq<Byte>)
    ensures result == EncodedChannelWith(sdfData, width, height, minDist, maxDist, maxError, 2 * width + 1)
  {
    result := VdtCompressWith(sdfData, width, height, minDist, maxDist, maxError, 2 * width + 1);
  }

  /** The smallest pixel, `np.min`. */
  function Min(s: seq<nat>): (m: nat)
    requires s != []
    ensures forall i :: 0 <= i < |s| ==> m <= s[i]
    ensures exists i :: 0 <= i < |s| && s[i] == m
  {
    if |s| == 1 then s[0]
    else
      var m' := Min(s[..|s| - 1]);
      assert forall i :: 0 <= i < |s| - 1 ==> s[..|s| - 1][i] == s[i];
      if s[|s| - 1] < m' then s[|s| - 1] else m'
  }

  /** The largest pixel, `np.max`. */
  function Max(s: seq<nat>): (m: nat)
    requires s != []
    ensures forall i :: 0 <= i < |s| ==> s[i] <= m
    ensures exists i :: 0 <= i < |s| && s[i] == m
  {
    if |s| == 1 then s[0]
    else
      var m' := Max(s[..|s| - 1]);
      assert forall i :: 0 <= i < |s| - 1 ==> s[..|s| - 1][i] == s[i];
      if s[|s| - 1] > m' then s[|s| - 1] else m'
  }

  /** The first `n` planes exist and none is empty. */
  predicate Encodable(planes: seq<seq<nat>>, n: nat)
  {
    n <= |planes| && forall k :: 0 <= k < n ==> planes[k] != []
  }

  lemma EncodableStep(planes: seq<seq<nat>>, n: nat)
    requires Encodable(planes, n) && n < |planes| && planes[n] != []
    ensures Encodable(planes, n + 1)
  {
  }

  /** The blocks of the first `n` planes, one after the other, each with its own min and max. */
  function Blocks(planes: seq<seq<nat>>, n: nat, width: nat, height: nat, maxError: int, diagFrom: nat): seq<Byte>
    requires Encodable(planes, n) && diagFrom >= width + 1
  {
    if n == 0 then []
    else
      var last := planes[n - 1];
      Blocks(planes, n - 1, width, height, maxError, diagFrom)
        + EncodedChannelWith(last, width, height, Min(last), Max(last), maxError, diagFrom)
  }

  /**
   * The outcome of encoding the first `channelCount` planes: `np.min` of an
   * empty plane raises, and so does asking for a plane that is not there,
   * whichever the loop meets first.
   */
  function ChannelsOutcome(planes: seq<seq<nat>>, channelCount: nat, width: nat, height: nat, maxError: int, diagFrom: nat)
    : (r: Result<seq<Byte>, PyError>)
    requires diagFrom >= width + 1
    ensures r.Success? <==> Encodable(planes, channelCount)
    ensures r == Failure(IndexOutOfRange) <==> channelCount > |planes| && Encodable(planes, |planes|)
  {
    var m := if channelCount <= |planes| then channelCount else |planes|;
    if !Encodable(planes, m) then Failure(EmptyChannel)
    else if channelCount > |planes| then Failure(IndexOutOfRange)
    else Success(Blocks(planes, channelCount, width, height, maxError, diagFrom))
  }

  /** One turn of the channel loop: the plane's min and max, then its `vdt_compress` block. */
  method EncodeChannel(plane: seq<nat>, width: nat, height: nat, maxError: int, diagFrom: nat) returns (block: seq<Byte>)
    requires plane != [] && diagFrom >= width + 1
    ensures block == EncodedChannelWith(plane, width, height, Min(plane), Max(plane), maxError, diagFrom)
  {
    var minDist := Min(plane);
    var maxDist := Max(plane);
    block := VdtCompressWith(plane, width, height, minDist, maxDist, maxError, diagFrom);
  }

  /** The per-channel loop shared by `compress_sdf` and the older `save_sdf`. */
  method EncodeChannelsWith(planes: seq<seq<nat>>, channelCount: nat, width: nat, height: nat, maxError: int, diagFrom: nat)
    returns (r: Result<seq<Byte>, PyError>)
    requires diagFrom >= width + 1
    ensures r == ChannelsOutcome(planes, channelCount, width, height, maxError, diagFrom)
  {
    var data: seq<Byte> := [];
    for c := 0 to channelCount
      invariant Encodable(planes, c)
      invariant data == Blocks(planes, c, width, height, maxError, diagFrom)
    {
      if c >= |planes| {
        MissingPlane(planes, channelCount, width, height, maxError, diagFrom);
        return Failure(IndexOutOfRange);
      }
      var plane := planes[c];
      if plane == [] {
        EmptyPlane(planes, c, channelCount, width, height, maxError, diagFrom);
        return Failure(EmptyChannel);
      }
      EncodableStep(planes, c);
      var block := EncodeChannel(plane, width, height, maxError, diagFrom);
      data := data + block;
    }
    AllPlanes(planes, channelCount, width, height, maxError, diagFrom);
    return Success(data);
  }

  lemma MissingPlane(planes: seq<seq<nat>>, channelCount: nat, width: nat, height: nat, maxError: int, diagFrom: nat)
    requires diagFrom >= width + 1
    requires Encodable(planes, |planes|) && |planes| < channelCount
    ensures ChannelsOutcome(planes, channelCount, width, height, maxError, diagFrom) == Failure(IndexOutOfRange)
  {
  }

  lemma EmptyPlane(planes: seq<seq<nat>>, c: nat, channelCount: nat, width: nat, height: nat, maxError: int, diagFrom: nat)
    requires diagFrom >= width + 1
    requires c < |planes| && c < channelCount && planes[c] == []
    ensures ChannelsOutcome(planes, channelCount, width, height, maxError, diagFrom) == Failure(EmptyChannel)
  {
  }

  lemma AllPlanes(planes: seq<seq<nat>>, channelCount: nat, width: nat, height: nat, maxError: int, diagFrom: nat)
    requires diagFrom >= width + 1
    requires Encodable(planes, channelCount)
    ensures ChannelsOutcome(planes, channelCount, width, height, maxError, diagFrom)
         == Success(Blocks(planes, channelCount, width, height, maxError, diagFrom))
  {
  }

  /** `compress_sdf` before the lzma step: the channel-count byte, then each channel's block. */
  function CompressOutcome(planes: seq<seq<nat>>, channelCount: nat, width: nat, height: nat, maxError: int)
    : (r: Result<seq<Byte>, PyError>)
    ensures channelCount > 255 ==> r == Failure(ByteOutOfRange)
    ensures r.Success? ==> |r.value| >= 1 && r.value[0] == channelCount
  {
    if channelCount > 255 then Failure(ByteOutOfRange)
    else
      var blocks :- ChannelsOutcome(planes, channelCount, width, height, maxError, 2 * width + 1);
      Success([channelCount as Byte] + blocks)
  }

  /**
   * `compress_sdf(sdf, sdf_channels, sdf_width, sdf_height, max_error)` up to
   * the lzma call.  `planes[c]` is `sdf[:,:,c].flatten()`.
   */
  method CompressSdf(planes: seq<seq<nat>>, channelCount: nat, width: nat, height: nat, maxError: int)
    returns (r: Result<seq<Byte>, PyError>)
    ensures r == CompressOutcome(planes, channelCount, width, height, maxError)
  {
    if channelCount > 255 {
      return Failure(ByteOutOfRange);
    }
    var compressed: seq<Byte> := [channelCount as Byte];
    var blocks := EncodeChannelsWith(planes, channelCount, width, height, maxError, 2 * width + 1);
    if blocks.Failure? {
      return Failure(blocks.error);
    }
    compressed := compressed + blocks.value;
    return Success(compressed);
  }
}
