/**
 * What the decoder of `src/tools/sdf-compression/decompress.py` makes of
 * the blocks written by `src/tools/sdf-compression/compress.py`.
 *
 * With `max_error` 0 (the default) every predicted pixel satisfies its
 * prediction exactly, so `expand_sdf` rebuilds it exactly from the pixels
 * before it, provided the diagonal's far sample has a non-negative index.
 * The header, the codes and the dists travel unchanged when the channel
 * has a multiple of four pixels and its values fit a byte.  The decoded
 * channel is then the original one with `min_dist` added to every pixel:
 * the encoder stores the pixels as they are, not less the minimum.
 */
module SdfRoundTrip {
  import opened Wrappers
  import opened PyRuntime
  import opened BitStream
  import opened Packing
  import opened SdfCompress
  import opened SdfDecompress

  /** Every diagonal code sits where both of its samples have non-negative indices. */
  predicate DiagonalsInRange(vecs: seq<nat>, width: nat)
  {
    forall k :: 0 <= k < |vecs| && vecs[k] == 3 ==> k >= 2 * (width + 1)
  }

  /** A prediction that fits with `max_error` 0 gives back the predicted pixel. */
  lemma ExactRoot(d0: nat, d1: nat, d2: nat, bias: int)
    requires Within(d0, d1, d2, bias, 0)
    ensures Root(2 * Sq(d1) - Sq(d2) + bias) == Success(d0)
  {
    assert Sq(d0) == 2 * Sq(d1) - Sq(d2) + bias;
    SqrtOfSquare(d0);
  }

  /**
   * One turn of `expand_sdf` rebuilds pixel `k` exactly from the pixels
   * before it: a 0 code from its dist, the others from their prediction.
   */
  lemma RebuildsPixel(sdf: seq<nat>, k: nat, width: nat, diagFrom: nat, dists: seq<nat>, dIndex: nat)
    requires k < |sdf| && diagFrom >= width + 1
    requires PredictWith(sdf, k, width, 0, diagFrom) == 3 ==> k >= 2 * (width + 1)
    requires PredictWith(sdf, k, width, 0, diagFrom) == 0 ==> dIndex < |dists| && dists[dIndex] == sdf[k]
    ensures Rebuilt(sdf[..k], k, PredictWith(sdf, k, width, 0, diagFrom), width, dists, dIndex) == Success([sdf[k]])
  {
    var v := PredictWith(sdf, k, width, 0, diagFrom);
    var done := sdf[..k];
    if v == 1 {
      ExactRoot(sdf[k], sdf[k - 1], sdf[k - 2], 2);
      assert done[k - 1] == sdf[k - 1] && done[k - 2] == sdf[k - 2];
    } else if v == 2 {
      ExactRoot(sdf[k], sdf[k - width], sdf[k - 2 * width], 2);
      assert done[k - width] == sdf[k - width] && done[k - 2 * width] == sdf[k - 2 * width];
    } else if v == 3 {
      ExactRoot(sdf[k], sdf[k - (width + 1)], sdf[k - 2 * (width + 1)], 0);
      assert done[k - (width + 1)] == sdf[k - (width + 1)] && done[k - 2 * (width + 1)] == sdf[k - 2 * (width + 1)];
    }
  }

  /** Every pixel of `sdf` is what one turn of `expand_sdf` rebuilds for its code from the pixels before it. */
  predicate RebuildsEach(sdf: seq<nat>, width: nat, vecs: seq<nat>, dists: seq<nat>)
    requires |vecs| == |sdf|
  {
    forall i :: 0 <= i < |sdf| ==> Rebuilt(sdf[..i], i, vecs[i], width, dists, Rank(vecs, i)) == Success([sdf[i]])
  }

  /** Codes that rebuild every pixel in turn make `expand_sdf`'s first loop rebuild every prefix. */
  lemma {:induction false} ExpandPrefix(sdf: seq<nat>, width: nat, vecs: seq<nat>, dists: seq<nat>, k: nat)
    requires |vecs| == |sdf| && k <= |sdf|
    requires RebuildsEach(sdf, width, vecs, dists)
    ensures ExpandRaw(width, vecs[..k], dists) == Success(sdf[..k])
    decreases k
  {
    if k > 0 {
      var i := k - 1;
      ExpandPrefix(sdf, width, vecs, dists, i);
      ExpandSteps(width, vecs, dists, i, sdf[..i], [sdf[i]]);
      TakeOneMore(sdf, i);
    }
  }

  lemma TakeOneMore(s: seq<nat>, i: nat)
    requires i < |s|
    ensures s[..i] + [s[i]] == s[..i + 1]
  {
  }

  /** `expand_sdf` of the encoder's codes and dists: the channel with `min_dist` added to every pixel. */
  lemma ExpandEncoded(sdf: seq<nat>, width: nat, diagFrom: nat, minDist: nat)
    requires diagFrom >= width + 1
    requires DiagonalsInRange(MapSdf(sdf, width, 0, diagFrom), width)
    ensures ExpandOutcome(minDist, width, MapSdf(sdf, width, 0, diagFrom), FilterDists(sdf, MapSdf(sdf, width, 0, diagFrom)))
            == Success(AddMin(sdf, minDist))
  {
    var vecs := MapSdf(sdf, width, 0, diagFrom);
    var dists := FilterDists(sdf, vecs);
    forall i | 0 <= i < |sdf|
      ensures Rebuilt(sdf[..i], i, vecs[i], width, dists, Rank(vecs, i)) == Success([sdf[i]])
    {
      assert vecs[i] == 3 ==> i >= 2 * (width + 1);
      RebuildsPixel(sdf, i, width, diagFrom, dists, Rank(vecs, i));
    }
    ExpandPrefix(sdf, width, vecs, dists, |sdf|);
    assert vecs[..|sdf|] == vecs;
    assert sdf[..|sdf|] == sdf;
  }

  /** Every dist the encoder keeps is one of the channel's pixels, so it keeps any bound they share. */
  lemma {:induction false} FilterDistsBound(sdf: seq<nat>, vecs: seq<nat>, bound: nat)
    requires DistsReadable(sdf, vecs)
    requires forall j :: 0 <= j < |sdf| ==> sdf[j] < bound
    ensures forall j :: 0 <= j < |FilterDists(sdf, vecs)| ==> FilterDists(sdf, vecs)[j] < bound
  {
    if |vecs| > 0 {
      var n := |vecs| - 1;
      assert DistsReadable(sdf, vecs[..n]);
      FilterDistsBound(sdf, vecs[..n], bound);
    }
  }

  /** The slice `s[lo:hi]` of a sequence made of three parts, when it is exactly the middle part. */
  lemma MiddleSlice<T>(p: seq<T>, x: seq<T>, t: seq<T>)
    ensures PySlice(p + x + t, |p|, |p| + |x|) == x
  {
    assert (p + x + t)[|p|..|p| + |x|] == x;
  }

  /** `decode_bits` at a width that tiles a byte gives back numbers packed at that width, padding and all. */
  lemma PackedRead(lst: seq<nat>, b: nat)
    requires DividesByte(b) && (|lst| * b) % 8 == 0
    requires forall j :: 0 <= j < |lst| ==> lst[j] < Pow2(b)
    ensures DecodeBitsOutcome(Pack(lst, b), b) == Success(lst)
  {
    var m := |lst| * b;
    WholeBytesPad(m);
    UnpackPack(lst, b);
    assert PadValues(m, b) == 0;
    assert lst + ZeroValues(0) == lst;
    if |lst| == 0 {
      assert |Pack(lst, b)| == 0;
    }
  }

  lemma WholeBytesPad(m: nat)
    requires m % 8 == 0
    ensures PadTo8(m) == 0
  {
  }

  /** The header `vdt_compress` writes reads back field for field, when the 16-bit fields fit. */
  lemma HeaderRead(data: seq<Byte>, offset: nat, hd: BlockHeader)
    requires hd.minDist < 65536 && hd.distBits < 256 && hd.width < 65536 && hd.height < 65536
    requires offset + 7 <= |data| && data[offset..offset + 7] == Header(hd.minDist, hd.distBits, hd.width, hd.height)
    ensures ReadHeader(data, offset) == Success(hd)
  {
    var h := data[offset..offset + 7];
    HeaderFields(h, hd.minDist, hd.distBits, hd.width, hd.height);
    HeaderBytes(data, offset, h);
    assert BlockHeader(256 * (h[0] as int) + h[1] as int, h[2] as int,
                       256 * (h[3] as int) + h[4] as int, 256 * (h[5] as int) + h[6] as int) == hd;
  }

  /** `ReadHeader` in terms of the seven bytes it reads. */
  lemma HeaderBytes(data: seq<Byte>, offset: nat, h: seq<Byte>)
    requires offset + 7 <= |data| && h == data[offset..offset + 7]
    ensures ReadHeader(data, offset) == Success(BlockHeader(256 * (h[0] as int) + h[1] as int, h[2] as int,
                                                            256 * (h[3] as int) + h[4] as int, 256 * (h[5] as int) + h[6] as int))
  {
    assert data[offset] == h[0] && data[offset + 1] == h[1] && data[offset + 2] == h[2];
    assert data[offset + 3] == h[3] && data[offset + 4] == h[4] && data[offset + 5] == h[5] && data[offset + 6] == h[6];
  }

  /** A header is seven bytes long. */
  lemma HeaderLength(hd: BlockHeader)
    requires hd.minDist < 65536 && hd.width < 65536 && hd.height < 65536
    ensures |Header(hd.minDist, 8, hd.width, hd.height)| == 7
  {
    HeaderFields(Header(hd.minDist, 8, hd.width, hd.height), hd.minDist, 8, hd.width, hd.height);
  }

  /** The seven header bytes as big-endian 16-bit and 8-bit numbers. */
  lemma HeaderFields(h: seq<Byte>, minDist: nat, distBits: nat, width: nat, height: nat)
    requires minDist < 65536 && distBits < 256 && width < 65536 && height < 65536
    requires h == Header(minDist, distBits, width, height)
    ensures |h| == 7
    ensures 256 * (h[0] as int) + h[1] as int == minDist && h[2] as int == distBits
    ensures 256 * (h[3] as int) + h[4] as int == width && 256 * (h[5] as int) + h[6] as int == height
  {
    HeaderLayout(minDist, distBits, width, height);
    Field16(minDist);
    Field16(width);
    Field16(height);
    Field8(distBits);
  }

  /** An 8-bit field is its own byte. */
  lemma Field8(x: nat)
    requires x < 256
    ensures LowByte(x) as int == x
  {
    Pow2Is256();
    LowSmall(x, 8);
  }

  /** A 16-bit field read back big-endian from its two bytes. */
  lemma Field16(x: nat)
    requires x < 65536
    ensures 256 * (Hi(x) as int) + LowByte(x) as int == x
  {
    HiLo(x);
  }

  /** Codes packed at 2 bits read back exactly when there is a multiple of four of them. */
  lemma CodesPacked(vecs: seq<nat>)
    requires |vecs| % 4 == 0 && forall j :: 0 <= j < |vecs| ==> vecs[j] <= 3
    ensures DecodeBitsOutcome(Pack(vecs, 2), 2) == Success(vecs)
  {
    Pow2Is4();
    assert (|vecs| * 2) % 8 == 0;
    PackedRead(vecs, 2);
  }

  /** Numbers packed one per byte read back exactly when each fits a byte. */
  lemma BytesPacked(lst: seq<nat>)
    requires forall j :: 0 <= j < |lst| ==> lst[j] < 256
    ensures DecodeBitsOutcome(Pack(lst, 8), 8) == Success(lst)
  {
    Pow2Is256();
    assert (|lst| * 8) % 8 == 0;
    PackedRead(lst, 8);
  }

  /** Codes packed at 2 bits somewhere in a stream read back from there. */
  lemma CodesAt(data: seq<Byte>, lo: nat, hi: nat, vecs: seq<nat>)
    requires |vecs| % 4 == 0 && forall j :: 0 <= j < |vecs| ==> vecs[j] <= 3
    requires PySlice(data, lo, hi) == Pack(vecs, 2)
    ensures DecodeBitsOutcome(PySlice(data, lo, hi), 2) == Success(vecs)
  {
    CodesPacked(vecs);
  }

  /** Numbers packed one per byte somewhere in a stream read back from there. */
  lemma BytesAt(data: seq<Byte>, lo: nat, hi: nat, lst: seq<nat>)
    requires forall j :: 0 <= j < |lst| ==> lst[j] < 256
    requires PySlice(data, lo, hi) == Pack(lst, 8)
    ensures DecodeBitsOutcome(PySlice(data, lo, hi), 8) == Success(lst)
  {
    BytesPacked(lst);
  }

  /** Where the header, the codes and the dists of a block sit once it is embedded in a longer stream. */
  lemma BlockSlices(p: seq<Byte>, h: seq<Byte>, c: seq<Byte>, d: seq<Byte>, t: seq<Byte>, distStart: nat, distEnd: nat)
    requires |h| == 7 && distStart == |p| + 7 + |c| && distEnd == distStart + |d|
    ensures |p + (h + c + d) + t| >= |p| + 7
    ensures (p + (h + c + d) + t)[|p|..|p| + 7] == h
    ensures PySlice(p + (h + c + d) + t, |p| + 7, distStart) == c
    ensures PySlice(p + (h + c + d) + t, distStart, distEnd) == d
  {
    var data := p + (h + c + d) + t;
    assert data == p + h + (c + d + t);
    assert data[|p|..|p| + 7] == h;
    assert data == (p + h) + c + (d + t);
    MiddleSlice(p + h, c, d + t);
    assert data == (p + h + c) + d + t;
    MiddleSlice(p + h + c, d, t);
  }

  /**
   * A block whose header, codes and dists sit at `offset`, `offset + 7` and
   * `distStart`, holding a header whose dist width is 8, a multiple of four
   * codes packed at 2 bits and one byte per 0 code, decodes to the pixels
   * `expand_sdf` rebuilds from those codes and dists.
   */
  lemma BlockInStream(data: seq<Byte>, offset: nat, hd: BlockHeader, vecs: seq<nat>, dists: seq<nat>, distStart: nat, distEnd: nat)
    requires hd.minDist < 65536 && hd.distBits == 8 && hd.width < 65536 && hd.height < 65536
    requires |vecs| % 4 == 0 && forall j :: 0 <= j < |vecs| ==> vecs[j] <= 3
    requires |dists| == CountZeros(vecs) && forall j :: 0 <= j < |dists| ==> dists[j] < 256
    requires distStart == offset + 7 + Area(hd.width, hd.height) / 4 && distEnd == distStart + |dists|
    requires offset + 7 <= |data| && data[offset..offset + 7] == Header(hd.minDist, 8, hd.width, hd.height)
    requires PySlice(data, offset + 7, distStart) == Pack(vecs, 2)
    requires PySlice(data, distStart, distEnd) == Pack(dists, 8)
    ensures DecodeChannel(data, offset) == Reshaped(ExpandOutcome(hd.minDist, hd.width, vecs, dists), hd, distEnd)
  {
    HeaderRead(data, offset, hd);
    CodesAt(data, offset + 7, distStart, vecs);
    BytesAt(data, distStart, distEnd, dists);
    ChannelSteps(data, offset, hd, vecs, dists, distStart, distEnd);
  }

  /** Where the header, the codes and the dists of a block written with 8-bit dists sit in a longer stream. */
  lemma BlockLayout(prefix: seq<Byte>, hd: BlockHeader, vecs: seq<nat>, dists: seq<nat>, tail: seq<Byte>, distStart: nat, distEnd: nat)
    requires hd.minDist < 65536 && hd.width < 65536 && hd.height < 65536
    requires |vecs| == Area(hd.width, hd.height) && |vecs| % 4 == 0
    requires distStart == |prefix| + 7 + Area(hd.width, hd.height) / 4 && distEnd == distStart + |dists|
    ensures var data := prefix + (Header(hd.minDist, 8, hd.width, hd.height) + Pack(vecs, 2) + Pack(dists, 8)) + tail;
            && |prefix| + 7 <= |data| && data[|prefix|..|prefix| + 7] == Header(hd.minDist, 8, hd.width, hd.height)
            && PySlice(data, |prefix| + 7, distStart) == Pack(vecs, 2)
            && PySlice(data, distStart, distEnd) == Pack(dists, 8)
  {
    HeaderLength(hd);
    assert |Pack(vecs, 2)| == Area(hd.width, hd.height) / 4 && |Pack(dists, 8)| == |dists|;
    BlockSlices(prefix, Header(hd.minDist, 8, hd.width, hd.height), Pack(vecs, 2), Pack(dists, 8), tail, distStart, distEnd);
  }

  /**
   * The block `vdt_compress` writes for `hd`, `vecs` and `dists` travels
   * unchanged: the 16-bit header fields fit, the dist width is 8, there is a
   * code per pixel and a multiple of four of them, each code fits 2 bits,
   * there is a dist per 0 code and each dist fits a byte.
   */
  predicate Writable(hd: BlockHeader, vecs: seq<nat>, dists: seq<nat>)
  {
    && hd.minDist < 65536 && hd.distBits == 8 && hd.width < 65536 && hd.height < 65536
    && |vecs| == Area(hd.width, hd.height) && |vecs| % 4 == 0
    && (forall j :: 0 <= j < |vecs| ==> vecs[j] <= 3)
    && |dists| == CountZeros(vecs) && (forall j :: 0 <= j < |dists| ==> dists[j] < 256)
  }

  /**
   * A block made of a header whose dist width is 8, a multiple of four
   * codes packed at 2 bits and one byte per 0 code decodes to the pixels
   * `expand_sdf` rebuilds from those codes and dists, wherever it sits in
   * the stream, and ends after its last dist byte.
   */
  lemma BlockRead(prefix: seq<Byte>, hd: BlockHeader, vecs: seq<nat>, dists: seq<nat>, tail: seq<Byte>, end: nat)
    requires Writable(hd, vecs, dists)
    requires end == |prefix| + 7 + Area(hd.width, hd.height) / 4 + |dists|
    ensures DecodeChannel(prefix + (Header(hd.minDist, 8, hd.width, hd.height) + Pack(vecs, 2) + Pack(dists, 8)) + tail, |prefix|)
         == Reshaped(ExpandOutcome(hd.minDist, hd.width, vecs, dists), hd, end)
  {
    var distStart := |prefix| + 7 + Area(hd.width, hd.height) / 4;
    BlockLayout(prefix, hd, vecs, dists, tail, distStart, end);
    BlockInStream(prefix + (Header(hd.minDist, 8, hd.width, hd.height) + Pack(vecs, 2) + Pack(dists, 8)) + tail, |prefix|, hd, vecs, dists, distStart, end);
  }

  /** A block that `BlockRead` decodes, and whose pixels fill the array, reads back as those pixels. */
  lemma BlockDecodes(prefix: seq<Byte>, block: seq<Byte>, tail: seq<Byte>, hd: BlockHeader, vecs: seq<nat>, dists: seq<nat>,
                     pixels: seq<nat>, end: nat)
    requires Writable(hd, vecs, dists)
    requires block == Header(hd.minDist, 8, hd.width, hd.height) + Pack(vecs, 2) + Pack(dists, 8)
    requires end == |prefix| + 7 + Area(hd.width, hd.height) / 4 + |dists|
    requires ExpandOutcome(hd.minDist, hd.width, vecs, dists) == Success(pixels) && |pixels| == Area(hd.width, hd.height)
    ensures DecodeChannel(prefix + block + tail, |prefix|) == Success((pixels, end))
  {
    BlockRead(prefix, hd, vecs, dists, tail, end);
  }

  /** A channel whose pixels fit a byte: its min fits the header and its dists are written on 8 bits. */
  lemma ByteChannel(sdf: seq<nat>)
    requires sdf != [] && forall j :: 0 <= j < |sdf| ==> sdf[j] < 256
    ensures Min(sdf) < 256 && DistBits(Min(sdf), Max(sdf)) == 8
  {
    var i :| 0 <= i < |sdf| && sdf[i] == Min(sdf);
    var k :| 0 <= k < |sdf| && sdf[k] == Max(sdf);
  }

  /**
   * The block `vdt_compress` writes for a channel whose pixels fit a byte:
   * a header with an 8-bit dist width, the packed codes and the packed
   * dists, all of which travel unchanged.
   */
  lemma ByteChannelBlock(sdf: seq<nat>, width: nat, height: nat, diagFrom: nat, minDist: nat, maxDist: nat)
    requires sdf != [] && forall j :: 0 <= j < |sdf| ==> sdf[j] < 256
    requires |sdf| == Area(width, height) && |sdf| % 4 == 0 && width < 65536 && height < 65536
    requires diagFrom >= width + 1 && minDist == Min(sdf) && maxDist == Max(sdf)
    ensures Writable(BlockHeader(minDist, 8, width, height), MapSdf(sdf, width, 0, diagFrom),
                     FilterDists(sdf, MapSdf(sdf, width, 0, diagFrom)))
    ensures EncodedChannelWith(sdf, width, height, minDist, maxDist, 0, diagFrom)
         == Header(minDist, 8, width, height) + Pack(MapSdf(sdf, width, 0, diagFrom), 2)
            + Pack(FilterDists(sdf, MapSdf(sdf, width, 0, diagFrom)), 8)
    ensures |EncodedChannelWith(sdf, width, height, minDist, maxDist, 0, diagFrom)|
         == 7 + Area(width, height) / 4 + |FilterDists(sdf, MapSdf(sdf, width, 0, diagFrom))|
  {
    ByteChannel(sdf);
    ChannelLayout(sdf, width, height, minDist, maxDist, 0, diagFrom);
    EncodedChannelLength(sdf, width, height, minDist, maxDist, 0, diagFrom);
    FilterDistsBound(sdf, MapSdf(sdf, width, 0, diagFrom), 256);
  }

  /**
   * Round trip of one channel: with `max_error` 0, a channel of a multiple
   * of four pixels that fit a byte, and every diagonal code at a pixel
   * whose far sample exists, `vdt_decompress` reads back from the block
   * `vdt_compress` wrote — wherever it sits in the stream — the channel
   * with its minimum added to every pixel, and stops right after the block.
   */
  lemma ChannelRoundTrip(prefix: seq<Byte>, sdf: seq<nat>, width: nat, height: nat, diagFrom: nat, tail: seq<Byte>,
                         minDist: nat, maxDist: nat, end: nat)
    requires sdf != [] && forall j :: 0 <= j < |sdf| ==> sdf[j] < 256
    requires |sdf| == Area(width, height) && |sdf| % 4 == 0 && width < 65536 && height < 65536
    requires diagFrom >= width + 1 && DiagonalsInRange(MapSdf(sdf, width, 0, diagFrom), width)
    requires minDist == Min(sdf) && maxDist == Max(sdf)
    requires end == |prefix| + |EncodedChannelWith(sdf, width, height, minDist, maxDist, 0, diagFrom)|
    ensures DecodeChannel(prefix + EncodedChannelWith(sdf, width, height, minDist, maxDist, 0, diagFrom) + tail, |prefix|)
         == Success((AddMin(sdf, minDist), end))
  {
    var block := EncodedChannelWith(sdf, width, height, minDist, maxDist, 0, diagFrom);
    var vecs := MapSdf(sdf, width, 0, diagFrom);
    var dists := FilterDists(sdf, vecs);
    var hd := BlockHeader(minDist, 8, width, height);
    ByteChannelBlock(sdf, width, height, diagFrom, minDist, maxDist);
    ExpandEncoded(sdf, width, diagFrom, minDist);
    BlockDecodes(prefix, block, tail, hd, vecs, dists, AddMin(sdf, minDist), end);
  }

  /**
   * What the round trip asks of one channel: it is not empty, its pixels
   * fit a byte, it fills the `height` by `width` array, the array has a
   * multiple of four pixels, and every diagonal code sits where the far
   * sample of the diagonal exists.
   */
  predicate RoundTrips(plane: seq<nat>, width: nat, height: nat, diagFrom: nat)
    requires diagFrom >= width + 1
  {
    && plane != [] && (forall j :: 0 <= j < |plane| ==> plane[j] < 256)
    && |plane| == Area(width, height) && |plane| % 4 == 0
    && DiagonalsInRange(MapSdf(plane, width, 0, diagFrom), width)
  }

  /** A block that decodes to `channel` wherever it sits in a stream, and stops right after itself. */
  ghost predicate DecodesTo(block: seq<Byte>, channel: seq<nat>)
  {
    forall prefix: seq<Byte>, tail: seq<Byte> ::
      DecodeChannel(prefix + block + tail, |prefix|) == Success((channel, |prefix + block|))
  }

  /** Every plane that round-trips has a block that decodes to it with its minimum added. */
  lemma PlaneDecodes(plane: seq<nat>, width: nat, height: nat, diagFrom: nat, minDist: nat, maxDist: nat)
    requires width < 65536 && height < 65536 && diagFrom >= width + 1
    requires RoundTrips(plane, width, height, diagFrom) && minDist == Min(plane) && maxDist == Max(plane)
    ensures DecodesTo(EncodedChannelWith(plane, width, height, minDist, maxDist, 0, diagFrom), AddMin(plane, minDist))
  {
    var block := EncodedChannelWith(plane, width, height, minDist, maxDist, 0, diagFrom);
    forall prefix: seq<Byte>, tail: seq<Byte>
      ensures DecodeChannel(prefix + block + tail, |prefix|) == Success((AddMin(plane, minDist), |prefix + block|))
    {
      ChannelRoundTrip(prefix, plane, width, height, diagFrom, tail, minDist, maxDist, |prefix + block|);
    }
  }

  /** Blocks one after the other. */
  function Flatten(blocks: seq<seq<Byte>>): (r: seq<Byte>)
  {
    if blocks == [] then [] else blocks[0] + Flatten(blocks[1..])
  }

  lemma {:induction false} FlattenSnoc(blocks: seq<seq<Byte>>, block: seq<Byte>)
    ensures Flatten(blocks + [block]) == Flatten(blocks) + block
    decreases |blocks|
  {
    if blocks == [] {
      assert Flatten([block]) == block + Flatten([]);
    } else {
      assert (blocks + [block])[1..] == blocks[1..] + [block];
      FlattenSnoc(blocks[1..], block);
    }
  }

  /**
   * Decoding blocks back to back, each of which decodes to its channel
   * wherever it sits, reads every channel in order and stops right after
   * the last block.
   */
  lemma {:induction false} ChainDecodes(prefix: seq<Byte>, blocks: seq<seq<Byte>>, channels: seq<seq<nat>>, end: nat)
    requires |blocks| == |channels| && forall j :: 0 <= j < |blocks| ==> DecodesTo(blocks[j], channels[j])
    requires end == |prefix + Flatten(blocks)|
    ensures Chain(BlockAt(prefix + Flatten(blocks)), |prefix|, |blocks|) == Success((channels, end))
    decreases |blocks|
  {
    if blocks != [] {
      var first, rest := blocks[0], Flatten(blocks[1..]);
      var data := prefix + Flatten(blocks);
      FirstBlock(prefix, first, rest, channels[0]);
      assert Flatten(blocks) == first + rest;
      Regroup(prefix, first, rest);
      ChainDecodes(prefix + first, blocks[1..], channels[1..], end);
      ChainCons(BlockAt(data), |prefix|, |blocks|, channels[0], |prefix + first|, channels[1..], end);
      assert [channels[0]] + channels[1..] == channels;
    }
  }

  lemma Regroup(a: seq<Byte>, b: seq<Byte>, c: seq<Byte>)
    ensures a + (b + c) == a + b + c
  {
  }

  /** The first of a run of blocks, read where it starts. */
  lemma FirstBlock(prefix: seq<Byte>, first: seq<Byte>, rest: seq<Byte>, channel: seq<nat>)
    requires DecodesTo(first, channel)
    ensures BlockAt(prefix + first + rest)(|prefix|) == Success((channel, |prefix + first|))
  {
    assert DecodeChannel(prefix + first + rest, |prefix|) == Success((channel, |prefix + first|));
  }

  /** The block `compress_sdf` writes for each of the first `n` planes. */
  function EncodedBlocks(planes: seq<seq<nat>>, n: nat, width: nat, height: nat, diagFrom: nat): (r: seq<seq<Byte>>)
    requires Encodable(planes, n) && diagFrom >= width + 1
    ensures |r| == n
    ensures forall j :: 0 <= j < n ==> r[j] == EncodedChannelWith(planes[j], width, height, Min(planes[j]), Max(planes[j]), 0, diagFrom)
  {
    seq(n, j requires 0 <= j < n => EncodedChannelWith(planes[j], width, height, Min(planes[j]), Max(planes[j]), 0, diagFrom))
  }

  /** The first `n` planes, each with its own minimum added to every pixel. */
  function Restored(planes: seq<seq<nat>>, n: nat): (r: seq<seq<nat>>)
    requires Encodable(planes, n)
    ensures |r| == n && forall j :: 0 <= j < n ==> r[j] == AddMin(planes[j], Min(planes[j]))
  {
    seq(n, j requires 0 <= j < n => AddMin(planes[j], Min(planes[j])))
  }

  /** The blocks `compress_sdf` writes for the first `n` planes, one after the other. */
  lemma {:induction false} BlocksFlatten(planes: seq<seq<nat>>, n: nat, width: nat, height: nat, diagFrom: nat, encs: seq<seq<Byte>>)
    requires Encodable(planes, n) && diagFrom >= width + 1 && |encs| == n
    requires forall j :: 0 <= j < n ==> encs[j] == EncodedChannelWith(planes[j], width, height, Min(planes[j]), Max(planes[j]), 0, diagFrom)
    ensures Blocks(planes, n, width, height, 0, diagFrom) == Flatten(encs)
  {
    if n > 0 {
      var init := encs[..n - 1];
      assert Encodable(planes, n - 1);
      BlocksFlatten(planes, n - 1, width, height, diagFrom, init);
      LastSplit(encs);
      FlattenSnoc(init, encs[n - 1]);
    }
  }

  lemma LastSplit(blocks: seq<seq<Byte>>)
    requires blocks != []
    ensures blocks == blocks[..|blocks| - 1] + [blocks[|blocks| - 1]]
  {
  }

  /** What `compress_sdf` writes before lzma: the count byte, then the blocks. */
  lemma Compressed(planes: seq<seq<nat>>, n: nat, width: nat, height: nat)
    requires n <= 255 && Encodable(planes, n)
    ensures CompressOutcome(planes, n, width, height, 0) == Success([n as Byte] + Blocks(planes, n, width, height, 0, 2 * width + 1))
  {
    var diagFrom := 2 * width + 1;
    AllPlanes(planes, n, width, height, 0, diagFrom);
    CountThenBlocks(planes, n, width, height, Blocks(planes, n, width, height, 0, diagFrom));
  }

  /** Channels that encode follow the count byte. */
  lemma CountThenBlocks(planes: seq<seq<nat>>, n: nat, width: nat, height: nat, blocks: seq<Byte>)
    requires n <= 255 && ChannelsOutcome(planes, n, width, height, 0, 2 * width + 1) == Success(blocks)
    ensures CompressOutcome(planes, n, width, height, 0) == Success([n as Byte] + blocks)
  {
  }

  /** `decompress_sdf` reads the count from the first byte, then that many blocks from offset 1. */
  lemma Decompressed(data: seq<Byte>, n: nat)
    requires |data| > 0 && data[0] == n
    ensures DecompressOutcome(data) == Channels(Chain(BlockAt(data), 1, n))
  {
  }

  /**
   * Round trip of the container: with `max_error` 0, when there are at most
   * 255 channels, each plane round-trips and the sizes fit 16 bits, what
   * `compress_sdf` writes (before lzma) decodes with `decompress_sdf` to
   * every channel with its own minimum added to every pixel.
   */
  lemma CompressRoundTrip(planes: seq<seq<nat>>, n: nat, width: nat, height: nat)
    requires n <= 255 && n <= |planes| && width < 65536 && height < 65536
    requires forall j :: 0 <= j < n ==> RoundTrips(planes[j], width, height, 2 * width + 1)
    ensures CompressOutcome(planes, n, width, height, 0).Success?
    ensures DecompressOutcome(CompressOutcome(planes, n, width, height, 0).value) == Success(Restored(planes, n))
  {
    var diagFrom := 2 * width + 1;
    assert Encodable(planes, n);
    var encs := EncodedBlocks(planes, n, width, height, diagFrom);
    var channels := Restored(planes, n);
    BlocksFlatten(planes, n, width, height, diagFrom, encs);
    Compressed(planes, n, width, height);
    forall j | 0 <= j < n
      ensures DecodesTo(encs[j], channels[j])
    {
      PlaneDecodes(planes[j], width, height, diagFrom, Min(planes[j]), Max(planes[j]));
    }
    var data := [n as Byte] + Flatten(encs);
    ChainDecodes([n as Byte], encs, channels, |data|);
    Decompressed(data, n);
  }
}
