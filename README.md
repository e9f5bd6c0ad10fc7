# MSDF text rendering and SDF channel codec — a Dafny model

This project models the core of a small font anti-aliasing research
repository. The repository draws text on a WebGL canvas from a
multi-channel signed-distance-field (MSDF) font atlas. It also ships a
Python codec that compresses the distance-field images. The model has
two halves.

**The distance-field codec** (`src/tools/sdf-compression/compress.py`,
`src/tools/sdf-compression/decompress.py` and the older
`src/sdf-compression/compress.py`):

- Each channel is flattened row by row. Each pixel gets a 2-bit
  prediction code:
  - 3: diagonal, from the pixels `width + 1` and `2 * (width + 1)` back;
  - 2: from the two pixels above;
  - 1: from the two pixels to the left;
  - 0: stored as is.
- A block is written per channel: a 7-byte header (minimum, dist width,
  width, height; 16-bit fields big-endian), the codes packed four to a
  byte, then one dist per 0 code.
- `compress_sdf` puts a channel-count byte in front of the blocks.
  `decompress_sdf` reads the blocks back one after another and rebuilds
  each pixel with the integer square root.

The model covers:

- The bit packer (`encode_bits`/`lst_to_bin`) is proved against a
  bit-stream specification: each number's low bits, most significant
  first, zero-padded to whole bytes.
- The bit reader (`decode_bits`) is proved to invert the packer.
  `decode_int` inverts the 16-bit header fields.
- `expand_sdf` and `vdt_decompress` are proved against specification
  functions that model Python's behaviour on integers (see "## Left out"
  for the float square root):
  - negative indices read from the end of the list;
  - slices clamp;
  - `int(x ** 0.5)` of a negative number raises;
  - `reshape` refuses the wrong number of pixels.
- Round trips, on both a single block anywhere in a stream and the
  whole container.
- Defects of the codec as written, four in the current codec and one
  in the older encoder, each shown on a concrete input and then
  corrected. The corrected codec is proved to round-trip (see
  "## Findings").

**The renderer side** (TypeScript):

- The GPU timer query `Query` is a class with the three-state machine
  of `src/Query.ts`. The GPU is abstracted:
  - the begin/end commands the query issues are recorded in a ghost log;
  - what `getQueryParameter` answers is a parameter of each poll.

  The model proves that begins and ends alternate over every call
  sequence, and that after `start`/`finish` exactly one poll returns the
  time.
- `FontAtlas.getGlyph` is the first glyph whose `unicode` equals the
  first code point of the string. JavaScript strings are sequences of
  UTF-16 code units, and `codePointAt(0)` decodes a leading surrogate
  pair.
- `Renderer` is a class. Its `render` method:
  - measures the delta time;
  - lays the text out code point by code point, moving the pen half a
    unit for a space and by the advance of each drawn glyph;
  - issues one draw (its uniforms) per visible glyph;
  - records the frame time, requests the next frame and runs the update
    callback.

  The layout loop is proved against a specification function. Lemmas
  give:
  - the pen position in closed form;
  - one draw per drawn character, in text order;
  - the exact condition under which the frame throws, and what it has
    drawn by then.

The model follows `render` as written (`src/Renderer.ts:68-127`):

- A character whose glyph is missing throws a `TypeError`
  (`getGlyph(char)!` followed by a property read, lines 92-93), which
  ends the frame.
- A glyph without atlas or plane bounds is skipped without moving the
  pen: the `continue` on line 93 comes before the advance on line 117.
- The frame statistics it keeps are `dt`, `fps`, `lastTime` and `ft`,
  set on lines 71-72 and 123-125; it makes no use of `Query`.

Modules:

- `Wrappers`: `Option`, `Result`.
- `PyRuntime`: Python exceptions, indexing, slicing.
- `BitStream`: bits, shifts, masks, byte streams.
- `Packing`: `encode_bits`, `decode_int`, `decode_bits`.
- `SdfCompress`: the current encoder.
- `LegacySdfCompress`: the older encoder.
- `SdfDecompress`: the decoder.
- `SdfRoundTrip`: the round trips.
- `SdfFindings`: the defects and the corrected codec.
- `JsText`: UTF-16 strings.
- `GlyphAtlas`: `FontAtlasMeta`, `FontAtlas`.
- `GpuQuery`: `Query`.
- `Renderer`: `Renderer`.

## Model

| member | source | states |
|---|---|---|
| PyRuntime.PyIndex | src/tools/sdf-compression/decompress.py:28-38 | Python `s[k]` succeeds exactly for `-len(s) <= k < len(s)`; a negative index reads `s[len(s) + k]` |
| PyRuntime.PySlice | src/tools/sdf-compression/decompress.py:70 | `s[lo:hi]` never raises; its length is the clamped bounds' difference, and it is `s[lo..hi]` when in range |
| Packing.Pack | src/tools/sdf-compression/compress.py:54-70 | the packed bytes number `ceil(len * bits / 8)` |
| Packing.EncodeBits | src/tools/sdf-compression/compress.py:54-70 | the accumulator loop gives `ceil(len * bits / 8)` bytes, and exactly the zero-padded bit stream of the numbers when each fits `bits` bits or `bits` is a multiple of 8 |
| Packing.PackSingle16 | src/tools/sdf-compression/compress.py:77 | one number packed at 16 bits is its high byte then its low byte |
| Packing.PackSingle8 | src/tools/sdf-compression/compress.py:78 | one number packed at 8 bits is its low byte |
| Packing.DecodeInt | src/tools/sdf-compression/decompress.py:44-45 | `decode_int` raises exactly on fewer than two bytes, otherwise gives `256 * s[0] + s[1]` |
| Packing.DecodeIntPack | src/tools/sdf-compression/decompress.py:44-45 | `decode_int` reads back a 16-bit packed number (its 16-bit truncation), whatever follows it |
| Packing.Frags | src/tools/sdf-compression/decompress.py:53-62 | every fragment the inner loop extracts from a byte is below `2^bits` |
| Packing.DecodeBits | src/tools/sdf-compression/decompress.py:47-67 | the nested loop yields exactly the specified outcome, raised errors included |
| Packing.UnpackSnoc | src/tools/sdf-compression/decompress.py:52-62 | one more byte appends exactly its fragments |
| Packing.UnpackChunks | src/tools/sdf-compression/decompress.py:47-67 | decoding bytes is cutting their bit stream into `bits`-bit numbers |
| Packing.ChunksPack | src/tools/sdf-compression/decompress.py:47-67 | the bit stream of packed numbers, cut back into groups of their width, is the numbers and then the padding's zero values |
| Packing.UnpackPack | src/tools/sdf-compression/decompress.py:47-67 | `decode_bits` inverts `encode_bits` for numbers that fit, followed by the zero values of the padding |
| SdfCompress.PredictWith | src/tools/sdf-compression/compress.py:25-41 | the code is 3, 2, 1 or 0; 3 exactly when the diagonal fits, 2 exactly when it does not and the vertical fits, 1 exactly when neither does and the horizontal fits; pixels 0 and 1 get 0 |
| SdfCompress.Predict | src/tools/sdf-compression/compress.py:25-41 | the current predictor tries the diagonal from `2 * width + 1`, so a code 3 only occurs from there |
| SdfCompress.MapSdf | src/tools/sdf-compression/compress.py:43-44 | one code per pixel, each the predictor's code for that pixel, each at most 3 |
| SdfCompress.FilterDists | src/tools/sdf-compression/compress.py:46-47 | one dist per 0 code; the dist of the 0 code at pixel `k` is pixel `k`, stored at the number of 0 codes before `k` |
| SdfCompress.VdtCalcWith | src/tools/sdf-compression/compress.py:49-52 | the codes of every pixel and, in order, the pixels coded 0 |
| SdfCompress.DistBits | src/tools/sdf-compression/compress.py:75 | 16 exactly when the channel's range exceeds 255, 8 exactly otherwise |
| SdfCompress.HeaderLayout | src/tools/sdf-compression/compress.py:77-80 | the header is seven bytes: minimum, width and height big-endian on 16 bits, the dist width on 8 |
| SdfCompress.HiLo | src/tools/sdf-compression/compress.py:77 | below 65536 the two header bytes are the quotient and remainder by 256 |
| SdfCompress.EncodedChannelLength | src/tools/sdf-compression/compress.py:72-83 | a block is 7 header bytes, `ceil(n / 4)` bytes of codes and one byte per 0 code, since the dists are always written at 8 bits |
| SdfCompress.ChannelLayout | src/tools/sdf-compression/compress.py:72-83 | a block is its header, its packed codes and its packed dists, in that order |
| SdfCompress.VdtCompressWith | src/tools/sdf-compression/compress.py:72-83 | the block the method builds is the specified block |
| SdfCompress.VdtCompress | src/tools/sdf-compression/compress.py:72-83 | `vdt_compress` builds the specified block with the diagonal from `2 * width + 1` |
| SdfCompress.Min | src/tools/sdf-compression/compress.py:16 | `np.min`: no pixel is smaller, and some pixel equals it |
| SdfCompress.Max | src/tools/sdf-compression/compress.py:17 | `np.max`: no pixel is larger, and some pixel equals it |
| SdfCompress.ChannelsOutcome | src/tools/sdf-compression/compress.py:14-19 | the channel loop succeeds exactly when the first `channelCount` planes exist and none is empty; a missing plane raises IndexError |
| SdfCompress.EncodeChannel | src/tools/sdf-compression/compress.py:15-18 | one turn of the loop gives the plane's block with its own min and max |
| SdfCompress.EncodeChannelsWith | src/tools/sdf-compression/compress.py:14-19 | the loop gives exactly the specified outcome: the blocks back to back, or the first error |
| SdfCompress.MissingPlane | src/tools/sdf-compression/compress.py:15 | asking for more channels than there are planes raises IndexError |
| SdfCompress.EmptyPlane | src/tools/sdf-compression/compress.py:16 | an empty plane among the requested ones makes `np.min` raise |
| SdfCompress.AllPlanes | src/tools/sdf-compression/compress.py:14-19 | when every requested plane exists and is non-empty, the loop gives their blocks back to back |
| SdfCompress.CompressOutcome | src/tools/sdf-compression/compress.py:10-20 | more than 255 channels makes the count byte raise; on success the output starts with the channel count |
| SdfCompress.CompressSdf | src/tools/sdf-compression/compress.py:10-20 | `compress_sdf` before lzma gives exactly the specified outcome |
| LegacySdfCompress.LstToBin | src/sdf-compression/compress.py:48-64 | `lst_to_bin` gives `ceil(len * bits / 8)` bytes, the packed bit stream when the numbers fit |
| LegacySdfCompress.LegacyPredict | src/sdf-compression/compress.py:19-35 | the older predictor's code is at most 3, and 3 exactly when the diagonal tried from `width + 1` fits |
| LegacySdfCompress.LegacyDiagonalReadsAhead | src/sdf-compression/compress.py:22-23 | below `2 * (width + 1)` the far diagonal index is negative and reads a pixel after the current one |
| LegacySdfCompress.LegacyDiagonalExample | src/sdf-compression/compress.py:22-25 | on a flat 2-wide channel the older predictor codes pixel 3 as diagonal, where the current one does not |
| LegacySdfCompress.Mapi | src/sdf-compression/compress.py:37-38 | one code per pixel, each the older predictor's code |
| LegacySdfCompress.CalcVdt | src/sdf-compression/compress.py:43-46 | the older codes and, in order, the pixels coded 0 |
| LegacySdfCompress.VdtCompress | src/sdf-compression/compress.py:66-77 | the older `vdt_compress` builds the same block layout with the older predictor |
| LegacySdfCompress.SaveSdf | src/sdf-compression/compress.py:7-14 | `save_sdf` without the write: the blocks of the planes back to back, no count byte, or the first error |
| SdfDecompress.FloorSqrt | src/tools/sdf-compression/decompress.py:30 | the integer square root: its square is at most `n`, the next square exceeds `n` |
| SdfDecompress.SqrtUnique | src/tools/sdf-compression/decompress.py:30 | only one number has its square at most `n` and the next square above `n` |
| SdfDecompress.SqrtOfSquare | src/tools/sdf-compression/decompress.py:30 | the root of a perfect square is its root |
| SdfDecompress.Root | src/tools/sdf-compression/decompress.py:30-38 | `int(x ** 0.5)` succeeds exactly for `x >= 0`, giving the integer square root |
| SdfDecompress.Predicted | src/tools/sdf-compression/decompress.py:27-38 | a predicted pixel succeeds exactly when both sample indices are valid Python indices and the radicand is non-negative |
| SdfDecompress.Rebuilt | src/tools/sdf-compression/decompress.py:23-38 | one turn appends one pixel for a code up to 3 and nothing for any other code |
| SdfDecompress.ExpandRaw | src/tools/sdf-compression/decompress.py:20-38 | the first loop rebuilds at most one pixel per code |
| SdfDecompress.AddMin | src/tools/sdf-compression/decompress.py:40-41 | the second loop raises every pixel by `min_dist` and keeps their number |
| SdfDecompress.ExpandRawFails | src/tools/sdf-compression/decompress.py:23-38 | once a prefix of the codes raises, the whole expansion raises the same error |
| SdfDecompress.ExpandStops | src/tools/sdf-compression/decompress.py:20-42 | an error in one turn is the outcome of `expand_sdf`, whatever the minimum |
| SdfDecompress.ExpandSteps | src/tools/sdf-compression/decompress.py:23-38 | one more code extends the rebuilt prefix by that turn's pixel and the dist index by one for a 0 code |
| SdfDecompress.ExpandSdf | src/tools/sdf-compression/decompress.py:20-42 | the two loops give exactly the specified outcome, raised errors included |
| SdfDecompress.ReadHeader | src/tools/sdf-compression/decompress.py:70-80 | the header reads exactly when seven bytes remain, as big-endian 16-bit minimum, width and height around the 8-bit dist width |
| SdfDecompress.Reshaped | src/tools/sdf-compression/decompress.py:92 | `reshape((h, w))` succeeds exactly when the pixels number `w * h` |
| SdfDecompress.DecodeChannelShape | src/tools/sdf-compression/decompress.py:69-94 | a decoded block holds exactly `width * height` pixels and ends after its header |
| SdfDecompress.VdtDecompress | src/tools/sdf-compression/decompress.py:69-94 | `vdt_decompress` gives exactly the specified outcome: pixels and the next offset, or the error |
| SdfDecompress.ReadCodes | src/tools/sdf-compression/decompress.py:82-84 | the codes stage reads `(w * h) // 4` bytes, then goes on from there |
| SdfDecompress.ReadDists | src/tools/sdf-compression/decompress.py:86-94 | the dists stage reads one dist per 0 code, then rebuilds and reshapes |
| SdfDecompress.CodesRead | src/tools/sdf-compression/decompress.py:82-83 | reading the codes never raises |
| SdfDecompress.ChannelSteps | src/tools/sdf-compression/decompress.py:69-94 | when the header, codes and dists read, the block decodes to the reshaped expansion of those codes and dists |
| SdfDecompress.ChainCount | src/tools/sdf-compression/decompress.py:12-15 | a run of `count` reads that succeeds yields exactly `count` channels |
| SdfDecompress.ChainCons | src/tools/sdf-compression/decompress.py:12-15 | the run of reads is the first read followed by the run from where it stopped |
| SdfDecompress.ChainStop | src/tools/sdf-compression/decompress.py:13 | a read that raises ends the run with its error |
| SdfDecompress.DecompressCount | src/tools/sdf-compression/decompress.py:9-15 | a stream that decodes is non-empty and yields as many channels as its first byte says |
| SdfDecompress.NextBlock | src/tools/sdf-compression/decompress.py:13 | one turn of the loop is `vdt_decompress` at the current offset |
| SdfDecompress.DecodeBlocks | src/tools/sdf-compression/decompress.py:10-15 | the channel loop gives exactly the run of `count` reads from offset 1 |
| SdfDecompress.DecompressSdf | src/tools/sdf-compression/decompress.py:6-16 | `decompress_sdf` after lzma gives exactly the specified outcome |
| SdfRoundTrip.ExactRoot | src/tools/sdf-compression/decompress.py:30-38 | a prediction that fits with `max_error` 0 rebuilds the predicted pixel exactly |
| SdfRoundTrip.RebuildsPixel | src/tools/sdf-compression/decompress.py:23-38 | the decoder's turn for a pixel's code, from the pixels before it, gives that pixel back |
| SdfRoundTrip.ExpandPrefix | src/tools/sdf-compression/decompress.py:20-38 | codes that rebuild each pixel in turn make the first loop rebuild every prefix |
| SdfRoundTrip.ExpandEncoded | src/tools/sdf-compression/decompress.py:20-42 | `expand_sdf` of the encoder's codes and dists is the channel with `min_dist` added to every pixel |
| SdfRoundTrip.FilterDistsBound | src/tools/sdf-compression/compress.py:46-47 | every kept dist is a pixel of the channel, so it keeps any bound the pixels share |
| SdfRoundTrip.PackedRead | src/tools/sdf-compression/decompress.py:47-67 | `decode_bits` gives back numbers packed at a width that tiles a byte, when they fill whole bytes |
| SdfRoundTrip.HeaderRead | src/tools/sdf-compression/decompress.py:69-80 | the header `vdt_compress` writes reads back field for field when the fields fit 16 bits |
| SdfRoundTrip.HeaderFields | src/tools/sdf-compression/compress.py:77-80 | the seven header bytes are the fields big-endian |
| SdfRoundTrip.CodesPacked | src/tools/sdf-compression/decompress.py:83 | 2-bit codes read back exactly when there is a multiple of four of them |
| SdfRoundTrip.BytesPacked | src/tools/sdf-compression/decompress.py:88 | dists read back at 8 bits exactly when each fits a byte |
| SdfRoundTrip.BlockSlices | src/tools/sdf-compression/decompress.py:69-89 | inside a longer stream, the block's header, codes and dists sit at the offsets the decoder slices |
| SdfRoundTrip.BlockRead | src/tools/sdf-compression/decompress.py:69-94 | a writable block anywhere in a stream decodes to the expansion of its codes and dists, ending right after it |
| SdfRoundTrip.ByteChannel | src/tools/sdf-compression/compress.py:75 | a channel of byte pixels has a minimum below 256 and 8-bit dists |
| SdfRoundTrip.ChannelRoundTrip | src/tools/sdf-compression/decompress.py:69-94 | with `max_error` 0, byte pixels, a multiple of four pixels and every diagonal in range, a block decodes, anywhere in a stream, to the channel with its minimum added, ending right after it |
| SdfRoundTrip.PlaneDecodes | src/tools/sdf-compression/decompress.py:69-94 | every plane that round-trips has a block that decodes to it, with its minimum added, wherever it sits |
| SdfRoundTrip.ChainDecodes | src/tools/sdf-compression/decompress.py:12-15 | blocks that each decode where they sit decode back to back to their channels |
| SdfRoundTrip.EncodedBlocks | src/tools/sdf-compression/compress.py:14-19 | the block written for each plane, with its own min and max |
| SdfRoundTrip.Restored | src/tools/sdf-compression/decompress.py:40-41 | each plane with its own minimum added to every pixel |
| SdfRoundTrip.BlocksFlatten | src/tools/sdf-compression/compress.py:14-19 | the channel loop's output is the planes' blocks back to back |
| SdfRoundTrip.Compressed | src/tools/sdf-compression/compress.py:10-20 | `compress_sdf` before lzma writes the count byte, then the blocks |
| SdfRoundTrip.Decompressed | src/tools/sdf-compression/decompress.py:9-15 | `decompress_sdf` reads the count from the first byte, then that many blocks from offset 1 |
| SdfRoundTrip.CompressRoundTrip | src/tools/sdf-compression/decompress.py:6-16 | with `max_error` 0 and at most 255 round-tripping planes, `decompress_sdf` of what `compress_sdf` wrote gives every channel with its own minimum added |
| SdfFindings.MinAddedTwice | src/tools/sdf-compression/decompress.py:40-41 | a 2-by-2 channel of 5s decodes to 10s |
| SdfFindings.FlatFives | src/tools/sdf-compression/compress.py:16-17 | the flat channel of 5s has minimum and maximum 5, in-range diagonals, and raised by its minimum is all 10s |
| SdfFindings.DiagonalReadsLastPixel | src/tools/sdf-compression/decompress.py:35-38 | the 1-wide channel 0, 3, 0, 3 decodes to 0, 3, 0, 4 |
| SdfFindings.ZeroThreeCodes | src/tools/sdf-compression/compress.py:28-31 | the encoder codes pixel 3 of 0, 3, 0, 3 as diagonal, reading its far sample at index -1 (the last pixel, 3) |
| SdfFindings.DiagonalExpands | src/tools/sdf-compression/decompress.py:20-42 | the decoder rebuilds that pixel as 4 from the codes and dists |
| SdfFindings.DiagonalOfLastPixel | src/tools/sdf-compression/decompress.py:36-38 | the decoder's far sample at index -1 is the last pixel rebuilt so far (0), giving the root of 18 |
| SdfFindings.CodesLength | src/tools/sdf-compression/decompress.py:47-67 | `decode_bits` at 2 bits gives four codes per byte |
| SdfFindings.FlooredCodesNeverDecode | src/tools/sdf-compression/decompress.py:82-84 | a block whose pixel count is not a multiple of four never decodes, whatever follows its header |
| SdfFindings.SixteenBitDistsFail | src/tools/sdf-compression/compress.py:75-82 | a non-empty channel of a multiple of four pixels whose range exceeds 255 never decodes, wherever its block sits: `vdt_decompress` raises the negative-shift `ValueError` |
| SdfFindings.RaisesAt | src/tools/sdf-compression/decompress.py:86-88 | a block with a 16-bit dist width, whole codes and at least one dist byte raises wherever it sits in the stream |
| SdfFindings.WideBlock | src/tools/sdf-compression/compress.py:75-82 | the block of a channel whose range exceeds 255 announces 16-bit dists but holds one byte per dist, and at least one |
| SdfFindings.FirstCodeZero | src/tools/sdf-compression/compress.py:36-40 | the first pixel is always coded 0, so a non-empty channel has at least one dist |
| SdfFindings.RaisesInStream | src/tools/sdf-compression/decompress.py:69-88 | once header and codes read, a 16-bit dist width and a non-empty dist slice make `vdt_decompress` raise |
| SdfFindings.DistsRaise | src/tools/sdf-compression/decompress.py:53-56 | `decode_bits` of non-empty bytes at 16 bits raises, since the first shift is `8 - 16` |
| SdfFindings.SubMin | src/tools/sdf-compression/compress.py:16 | the corrected encoder's pixels less the minimum, each pixel recovered by adding it back |
| SdfFindings.CorrectedDecoderAgrees | src/tools/sdf-compression/decompress.py:82-89 | on a multiple of four pixels with an 8-bit dist width the corrected decoder is the decoder as written |
| SdfFindings.RestAgrees | src/tools/sdf-compression/decompress.py:86-89 | with an 8-bit dist width the corrected decoder reads one byte per 0 code, as written |
| SdfFindings.DistsAgree | src/tools/sdf-compression/decompress.py:88 | with an 8-bit dist width the corrected dist reading is `decode_bits` as written |
| SdfFindings.DecodeBitsAgrees | src/tools/sdf-compression/decompress.py:47-67 | at a width that divides 8 the corrected `decode_bits`, which reads across byte boundaries, is `decode_bits` as written |
| SdfFindings.DecodeBitsPack | src/tools/sdf-compression/decompress.py:47-67 | the corrected `decode_bits` inverts `encode_bits` at every width, padding values aside |
| SdfFindings.PackedReadCorrected | src/tools/sdf-compression/decompress.py:47-67 | numbers packed at a width filling whole bytes, such as 16, read back exactly |
| SdfFindings.DistsAt | src/tools/sdf-compression/decompress.py:88 | dists packed at 8 or 16 bits anywhere in a stream read back exactly from their slice |
| SdfFindings.CorrectedCodesThen | src/tools/sdf-compression/decompress.py:86-89 | after the codes the corrected decoder reads `ceil(zeros * dist_bits / 8)` bytes of dists |
| SdfFindings.CorrectedDistsStep | src/tools/sdf-compression/decompress.py:88-94 | once the dists read, the corrected decoder rebuilds, reshapes and ends after them |
| SdfFindings.CodesPackedCut | src/tools/sdf-compression/decompress.py:83 | codes packed at 2 bits, however many, read back once cut to their number |
| SdfFindings.CorrectedHeaderStep | src/tools/sdf-compression/decompress.py:69-80 | once the header reads, the corrected decoder goes on with the codes |
| SdfFindings.CorrectedLayout | src/tools/sdf-compression/decompress.py:69-89 | in a stream, the corrected block's header, codes and dists sit where the corrected decoder reads them |
| SdfFindings.CorrectedInStream | src/tools/sdf-compression/decompress.py:69-94 | the corrected decoder reads `ceil(n / 4)` bytes of codes, then the dists at the header's whole-byte width, and rebuilds and reshapes |
| SdfFindings.ShiftedFit | src/tools/sdf-compression/compress.py:75 | when the range fits 16 bits, every pixel less the minimum fits the dist width the header announces |
| SdfFindings.WholeByteWidth | src/tools/sdf-compression/compress.py:75 | both dist widths are whole bytes that the header's dist-width byte holds |
| SdfFindings.CorrectedBlock | src/tools/sdf-compression/compress.py:72-83 | the corrected block is the header, the codes at 2 bits and the dists at the header's width, one dist per 0 code |
| SdfFindings.CorrectedBlockSize | src/tools/sdf-compression/compress.py:72-83 | the corrected block is `7 + ceil(n / 4) + ceil(zeros * dist_bits / 8)` bytes |
| SdfFindings.PartsSize | src/tools/sdf-compression/compress.py:77-82 | header, codes and dists packed one after another take `7 + ceil(n / 4) + ceil(dists * bits / 8)` bytes |
| SdfFindings.ShiftedDistsFit | src/tools/sdf-compression/compress.py:75-82 | every dist the corrected encoder writes fits the announced dist width |
| SdfFindings.GuardedDiagonals | src/tools/sdf-compression/compress.py:28-29 | with the diagonal tried from `2 * (width + 1)`, no diagonal code reads a negative index |
| SdfFindings.CorrectedExpand | src/tools/sdf-compression/decompress.py:20-42 | `expand_sdf` of the corrected codes and dists with the minimum gives the channel itself |
| SdfFindings.AddSubMin | src/tools/sdf-compression/decompress.py:40-41 | adding back the subtracted minimum gives the channel |
| SdfFindings.CorrectedChannelRoundTrip | src/tools/sdf-compression/decompress.py:69-94 | with `max_error` 0, any non-empty channel whose minimum and range fit 16 bits decodes from its corrected block, anywhere in a stream, to itself, ending right after it; ranges above 255 travel as 16-bit dists |
| JsText.CodePointAt0 | src/font-atlas/FontAtlas.ts:19 | `codePointAt(0)` is undefined exactly for the empty string, otherwise below 0x110000, and the first unit unless a surrogate pair starts the string |
| JsText.CodePointOfUtf16 | src/font-atlas/FontAtlas.ts:19 | `codePointAt(0)` of a string starting with the UTF-16 encoding of a scalar value is that value |
| JsText.CodePoints | src/Renderer.ts:86 | `for..of` yields one- or two-unit strings, two exactly for a surrogate pair, which concatenate back to the text |
| JsText.CodePointsOfUtf16 | src/Renderer.ts:86 | the iterator yields an encoded code point whole, then goes on with the rest |
| GlyphAtlas.FindFirst | src/font-atlas/FontAtlas.ts:20 | `find` gives the first matching glyph, and nothing exactly when none matches |
| GlyphAtlas.FontAtlas.constructor | src/font-atlas/FontAtlas.ts:9-10 | the atlas keeps the description it was given |
| GlyphAtlas.GetGlyphFirst | src/font-atlas/FontAtlas.ts:18-21 | `getGlyph` gives the first glyph whose `unicode` is the string's first code point, and undefined exactly when there is none |
| GlyphAtlas.EmptyHasNoGlyph | src/font-atlas/FontAtlas.ts:19-20 | the empty string has no glyph |
| GlyphAtlas.FirstCodePointDecides | src/font-atlas/FontAtlas.ts:19 | only the first code point matters to `getGlyph` |
| GlyphAtlas.GlyphFound | src/font-atlas/FontAtlas.ts:18-21 | a glyph listed for a code point is found for its encoding: the first one listed |
| GlyphAtlas.FindAtFirstIndex | src/font-atlas/FontAtlas.ts:20 | `find` stops at the first index whose `unicode` matches, and finds nothing when there is none |
| GpuQuery.StepKeeps | src/Query.ts:20-42 | every call keeps the invariant: commands alternate, and a begin is unmatched exactly while running |
| GpuQuery.RunKeeps | src/Query.ts:20-42 | any sequence of calls keeps the invariant |
| GpuQuery.Alternates | src/Query.ts:20-32 | over any call sequence on a new query, begins and ends alternate starting with a begin, the begins ahead by one exactly while running |
| GpuQuery.FirstAvailable | src/Query.ts:37-38 | the first poll that finds the result available: every earlier poll did not |
| GpuQuery.PollsWhilePending | src/Query.ts:34-35 | polls of an idle query return nothing, change nothing and issue nothing |
| GpuQuery.PollsWhileFinished | src/Query.ts:34-42 | polls of a finished query return nothing until the result is available, then return it once and go back to Pending |
| GpuQuery.StartFinishPolls | src/Query.ts:20-42 | after `start` and `finish` on an idle query, one begin and one end are issued and exactly the first available poll returns the time |
| GpuQuery.Query.constructor | src/Query.ts:14-18 | a new query is Pending and has issued nothing |
| GpuQuery.Query.Start | src/Query.ts:20-25 | from Pending: Running and one begin issued; otherwise nothing changes |
| GpuQuery.Query.Finish | src/Query.ts:27-32 | from Running: Finished and one end issued; otherwise nothing changes |
| GpuQuery.Query.Poll | src/Query.ts:34-42 | returns the time exactly when Finished and available, then Pending; otherwise undefined and unchanged |
| Renderer.GlyphDraw | src/Renderer.ts:95-116 | a glyph's draw: the glyph size, the offset `[pen, 0]`, the plane bounds as given and the atlas bounds divided by the atlas size |
| Renderer.LayoutStep | src/Renderer.ts:86-121 | the layout of one more character is one more iteration |
| Renderer.SpaceStep | src/Renderer.ts:87-90 | a space moves the pen by half the font width and draws nothing |
| Renderer.GlyphStep | src/Renderer.ts:92-120 | a found visible glyph is drawn at the pen and moves it by its advance; a glyph without bounds is skipped |
| Renderer.AdvanceEffect | src/Renderer.ts:86-121 | one iteration throws exactly on a missing glyph, moves the pen by its gap and adds one draw exactly for a drawn character |
| Renderer.PenUnitsSum | src/Renderer.ts:85-121 | the pen moves half a unit per space plus the advances of the drawn glyphs |
| Renderer.LayoutThrows | src/Renderer.ts:92-93 | the layout throws exactly when some character's glyph is missing |
| Renderer.LayoutTotals | src/Renderer.ts:85-121 | without a throw the pen ends at the font width times half the spaces plus the advances, with one draw per drawn character |
| Renderer.PenAtClosed | src/Renderer.ts:85-121 | where the pen ends, in closed form |
| Renderer.LayoutPen | src/Renderer.ts:85-121 | the layout's pen and draw count in terms of the characters' gaps |
| Renderer.ThrowStops | src/Renderer.ts:92 | once a glyph is missing, later characters change nothing |
| Renderer.DrawsGrow | src/Renderer.ts:86-121 | the draws of a prefix of the text are a prefix of its draws |
| Renderer.DrawOfCharacter | src/Renderer.ts:109-120 | each drawn character reached gets its own draw, numbered by the drawn characters before it, at the pen they left |
| Renderer.DrawAfterPrefix | src/Renderer.ts:109-120 | a drawn character reached without a throw adds its draw right after those before it |
| Renderer.ThrowKeepsEarlierDraws | src/Renderer.ts:92-93 | a frame that throws has issued exactly the draws of the characters before the first missing one |
| Renderer.Renderer.constructor | src/Renderer.ts:14-39 | font size 128, the default text, zero timings, no subscription, nothing drawn |
| Renderer.Renderer.OnUpdate | src/Renderer.ts:64-66 | the callback replaces any earlier one and nothing else changes |
| Renderer.Renderer.DrawText | src/Renderer.ts:85-121 | the loop issues exactly the layout's draws and completes exactly when the layout does not throw |
| Renderer.Renderer.Render | src/Renderer.ts:68-128 | `dt` is the time since the last completed frame; the frame issues the layout's draws; it throws exactly when a glyph is missing, and otherwise records its time, requests one frame and runs the registered callback |

## Left out

- lzma compression and decompression of the container: the model works on the bytes before `lzma.compress` and after `lzma.decompress`.
- numpy and PIL:
  - images are given as planes of natural numbers, flattened row by row;
  - `np.array(..., dtype=np.uint8)` wrap-around of decoded pixels is not modelled; pixels are unbounded;
  - `Image.merge` and the `channel_map` mode lookup are not modelled; the decoder returns the channels.
- File I/O, command-line handling, size reporting and `print`.
- `max_error` other than 0 in the round trips: a non-zero error makes the codec lossy, and no round trip is claimed for it.
- SdfRoundTrip.ChannelRoundTrip: proved only for `max_error` 0, pixels below 256, a multiple of four pixels and diagonals whose far sample exists. The findings below show that the codec as written fails outside these conditions.
- SdfRoundTrip.CompressRoundTrip: proved only for `max_error` 0 and planes meeting the conditions of ChannelRoundTrip.
- SdfFindings.CorrectedChannelRoundTrip: proved for one block with `max_error` 0, a minimum and a range that fit 16 bits. The whole-container round trip is not restated for the corrected codec.
- SdfDecompress.Root: the model takes the exact integer square root. Python's `int(x ** 0.5)` goes through a float, which can differ from the floor root at or above 2^52 and raises `OverflowError` beyond the float range. Pixels that fit a byte keep every radicand far below 2^52.
- The encoder's NumPy arithmetic is not modelled (`compress.py:15` flattens a `uint8` array, and lines 27-38 square and subtract its elements). The model squares and subtracts unbounded integers. Under NumPy's `uint8` arithmetic the squares and differences wrap modulo 256. For example, a pixel 16 whose near and far diagonal samples are both 0 gets code 3, because 16² wraps to 0 = 2·0² − 0², and the integer decoder rebuilds it as 0. A pixel 0 whose near sample is 0 and far sample is 16 also gets code 3, because 2·0² − 16² wraps to 0, and the integer decoder then takes the root of −256 and raises. SdfRoundTrip.ChannelRoundTrip, SdfRoundTrip.CompressRoundTrip and SdfFindings.CorrectedChannelRoundTrip hold for integer arithmetic only.
- Packing.EncodeBits: the output is specified exactly only when every number fits `bits` bits or `bits` is a multiple of 8; otherwise only its length is. An oversized number then spills into earlier bytes through the OR.
- LegacySdfCompress.LstToBin: the same limit as Packing.EncodeBits.
- WebGL and twgl:
  - shader programs, buffers, viewport, clear and texture upload are left out;
  - a draw call is the uniforms it is issued with, without the atlas texture.
- `requestAnimationFrame`/`cancelAnimationFrame`, `performance.now`, and the `fps` and `ft` statistics (floating-point quotient and clock). `Renderer.start`, `stop` and `initialize` are left out with them; a requested frame is only counted.
- Renderer.Renderer.Render: requires a non-zero canvas and atlas size, where JavaScript would compute with Infinity or NaN.
- GlyphAtlas.FontAtlas.constructor: the texture creation and its asynchronous load are not modelled.
- GpuQuery.Query.constructor: the `createQuery` object and `getExtension` are not modelled. A missing timer extension, which makes `start` throw on `null`, is not modelled either.
- The update callback is an identity; what it does when run is outside the model.
- JavaScript numbers are modelled as exact reals, with no rounding. Glyph `unicode` values are compared as reals with the code point.

## Findings

| source | as written | input that shows it | evidently intended | confidence | as-written member | corrected member |
|---|---|---|---|---|---|---|
| src/tools/sdf-compression/compress.py:72-83 | `vdt_compress` writes `min_dist` into the header but stores the pixels unchanged, while `expand_sdf` (decompress.py:40-41) adds `min_dist` to every pixel | a 2-by-2 channel of 5s decodes to 10s | subtract the minimum from the pixels before predicting, so decoding gives the channel back | high, not executed | SdfFindings.MinAddedTwice | SdfFindings.CorrectedChannelRoundTrip |
| src/tools/sdf-compression/compress.py:28-29 | the diagonal is tried from `i >= 2 * width + 1`, where its far sample `i - 2 * (width + 1)` is -1. Python reads index -1 as the channel's last pixel in the encoder, but as the last pixel rebuilt so far in the decoder | the 1-wide channel 0, 3, 0, 3 decodes to 0, 3, 0, 4 | try the diagonal from `2 * (width + 1)` | high, not executed | SdfFindings.DiagonalReadsLastPixel | SdfFindings.GuardedDiagonals |
| src/sdf-compression/compress.py:22-23 | the older encoder tries the diagonal from `i >= width + 1`, so every far sample below `2 * (width + 1)` has a negative index | a flat 2-wide channel: pixel 3 is coded diagonal through index -3 | try the diagonal from `2 * (width + 1)` | high, not executed | LegacySdfCompress.LegacyDiagonalExample | SdfFindings.GuardedDiagonals |
| src/tools/sdf-compression/compress.py:75-82 | `dist_bits` is 16 when the range exceeds 255 and is written into the header, but the dists are always packed at 8 bits; and `decode_bits` (decompress.py:53-56) at 16 bits shifts by `8 - 16` and raises | any non-empty channel of a multiple of four pixels with range above 255, such as 2 by 2 of 0, 0, 0, 256: `vdt_decompress` raises `ValueError` | pack the dists at `dist_bits`, read `ceil(zeros * dist_bits / 8)` bytes of them, and read the bits across byte boundaries | high, not executed | SdfFindings.SixteenBitDistsFail | SdfFindings.CorrectedChannelRoundTrip |
| src/tools/sdf-compression/decompress.py:82 | `vec_length = (width * height) // 4` rounds down, while the encoder writes `ceil(width * height / 4)` bytes of codes | any channel whose pixel count is not a multiple of 4, such as 1 by 1, never decodes | read `ceil(w * h / 4)` bytes and keep the first `w * h` codes | high, not executed | SdfFindings.FlooredCodesNeverDecode | SdfFindings.CorrectedChannelRoundTrip |
