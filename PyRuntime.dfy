/**
 * The few pieces of Python's runtime semantics that the SDF codec depends on:
 * the exceptions it can raise, negative list indexing and clamped slicing.
 */
module PyRuntime {
  import opened Wrappers

  /** The exceptions the codec's Python code can raise on bad or unexpected input. */
  datatype PyError =
    | IndexOutOfRange       // IndexError from `s[k]`
    | ZeroRangeStep         // ValueError from `range(8, 0, 0)`
    | NegativeShiftCount    // ValueError from `x >> k` with k < 0
    | NegativeSquareRoot    // TypeError from `int((negative) ** 0.5)`, a complex number
    | ShapeMismatch         // ValueError from `reshape` when the sizes differ
    | EmptyChannel          // ValueError from `np.min` of an empty array
    | ByteOutOfRange        // ValueError from `bytearray.append` of a value outside 0..255

  /** Python's `s[k]`: a negative index counts from the end, anything further out raises. */
  function PyIndex<T>(s: seq<T>, k: int): (r: Result<T, PyError>)
    ensures r.Success? <==> -|s| <= k < |s|
    ensures 0 <= k < |s| ==> r == Success(s[k])
    ensures -|s| <= k < 0 ==> r == Success(s[|s| + k])
  {
    if 0 <= k < |s| then Success(s[k])
    else if -|s| <= k < 0 then Success(s[|s| + k])
    else Failure(IndexOutOfRange)
  }

  /** Python's `s[lo:hi]` for non-negative bounds: both are clamped to the length, never raises. */
  function PySlice<T>(s: seq<T>, lo: nat, hi: nat): (r: seq<T>)
    ensures |r| == if lo <= hi && lo <= |s| then (if hi <= |s| then hi else |s|) - lo else 0
    ensures hi <= |s| && lo <= hi ==> r == s[lo..hi]
  {
    var l := if lo <= |s| then lo else |s|;
    var h := if hi <= |s| then hi else |s|;
    if l <= h then s[l..h] else []
  }
}
