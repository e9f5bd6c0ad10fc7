/**
 * The older SDF encoder (`src/sdf-compression/compress.py`).  It writes the
 * same per-channel block as the current one, but tries the diagonal
 * predictor from index `width + 1` instead of `2 * width + 1`, and its
 * `save_sdf` concatenates the blocks with no channel-count byte and no
 * compression step.  Everything it shares with the current encoder is
 * taken from `SdfCompress` and `Packing`, with the guard as a parameter.
 */
module LegacySdfCompress {
  import opened Wrappers
  import opened PyRuntime
  import opened BitStream
  import opened Packing
  import opened SdfCompress

  /** `lst_to_bin(lst, bits)`: the same accumulator loop as `encode_bits`. */
  method LstToBin(lst: seq<nat>, bits: nat) returns (r: seq<Byte>)
    ensures |r| == (|lst| * bits + 7) / 8
    ensures PackExact(lst, bits) ==> r == Pack(lst, bits)
  {
    r := EncodeBits(lst, bits);
  }

  /** `_predict(width, max_error)`'s predictor: the diagonal is tried from `width + 1` on. */
  function LegacyPredict(sdf: seq<nat>, i: nat, width: nat, maxError: int): (code: nat)
    requires i < |sdf|
    ensures code <= 3
    ensures code == 3 <==> DiagonalFits(sdf, i, width, maxError, width + 1)
    ensures width >= 1 && i < 2 ==> code == 0
  {
    PredictWith(sdf, i, width, maxError, width + 1)
  }

  /**
   * Below `2 * (width + 1)` the diagonal's far sample `i - 2 * (width + 1)`
   * is negative, so Python reads a pixel counted from the end of the
   * channel, one that comes after pixel `i` whenever the channel holds more
   * than `2 * (width + 1)` pixels.
   */
  lemma LegacyDiagonalReadsAhead(sdf: seq<nat>, i: nat, width: nat)
    requires width + 1 <= i < 2 * (width + 1) && i < |sdf|
    ensures -(width + 1) <= i - 2 * (width + 1) < 0
    ensures Sample(sdf, i - 2 * (width + 1)) == sdf[|sdf| + i - 2 * (width + 1)]
    ensures |sdf| > 2 * (width + 1) ==> |sdf| + i - 2 * (width + 1) > i
  {
  }

  /**
   * On a flat 2-pixel-wide channel the older predictor codes pixel 3 as a
   * diagonal, reading pixel 1 through the index `-3`, where the current
   * predictor finds no prediction at all.
   */
  lemma LegacyDiagonalExample()
    ensures LegacyPredict([0, 0, 0, 0], 3, 2, 0) == 3
    ensures Predict([0, 0, 0, 0], 3, 2, 0) == 0
  {
    assert Sample([0, 0, 0, 0], -3) == 0;
    assert Within(0, 0, 0, 0, 0);
    assert !Within(0, 0, 0, 2, 0);
  }

  /** `mapi(sdf, _predict(width, max_error))`: one code per pixel. */
  function Mapi(sdf: seq<nat>, width: nat, maxError: int): (vecs: seq<nat>)
    ensures |vecs| == |sdf|
    ensures forall i :: 0 <= i < |sdf| ==> vecs[i] == LegacyPredict(sdf, i, width, maxError)
  {
    MapSdf(sdf, width, maxError, width + 1)
  }

  /** `_calc_vdt(sdf, width, max_error)`: the codes and, in order, the pixels coded 0. */
  function CalcVdt(sdf: seq<nat>, width: nat, maxError: int): (r: (seq<nat>, seq<nat>))
    ensures r.0 == Mapi(sdf, width, maxError)
    ensures |r.1| == CountZeros(r.0)
    ensures forall k {:trigger Rank(r.0, k)} :: 0 <= k < |sdf| && r.0[k] == 0 ==>
              Rank(r.0, k) < |r.1| && r.1[Rank(r.0, k)] == sdf[k]
  {
    VdtCalcWith(sdf, width, maxError, width + 1)
  }

  /** `vdt_compress` of the older encoder: the same block layout, the older predictor. */
  method VdtCompress(sdfData: seq<nat>, width: nat, height: nat, minDist: nat, maxDist: nat, maxError: int)
    returns (result: seq<Byte>)
    ensures result == EncodedChannelWith(sdfData, width, height, minDist, maxDist, maxError, width + 1)
  {
    result := VdtCompressWith(sdfData, width, height, minDist, maxDist, maxError, width + 1);
  }

  /**
   * `save_sdf` without the file write: the blocks of the first
   * `channelCount` planes, back to back, with no channel-count byte.
   */
  method SaveSdf(planes: seq<seq<nat>>, channelCount: nat, width: nat, height: nat, maxError: int)
    returns (r: Result<seq<Byte>, PyError>)
    ensures r == ChannelsOutcome(planes, channelCount, width, height, maxError, width + 1)
    ensures r.Success? ==> r.value == Blocks(planes, channelCount, width, height, maxError, width + 1)
  {
    r := EncodeChannelsWith(planes, channelCount, width, height, maxError, width + 1);
  }
}
