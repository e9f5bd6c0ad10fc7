/**
 * JavaScript strings as the glyph lookup and the text layout see them: a
 * sequence of UTF-16 code units, read one Unicode code point at a time
 * (`String.prototype.codePointAt` and the `for..of` string iterator).
 */
module JsText {
  import opened Wrappers

  /** One UTF-16 code unit. */
  newtype CodeUnit = x: int | 0 <= x < 0x1_0000

  /** A JavaScript string. */
  type JsString = seq<CodeUnit>

  /** The string `' '`. */
  const Space: JsString := [0x20]

  predicate IsHighSurrogate(u: CodeUnit) {
    0xD800 <= u <= 0xDBFF
  }

  predicate IsLowSurrogate(u: CodeUnit) {
    0xDC00 <= u <= 0xDFFF
  }

  /** A Unicode scalar value: a code point that is not a surrogate. */
  predicate IsScalar(cp: int) {
    0 <= cp < 0x11_0000 && !(0xD800 <= cp <= 0xDFFF)
  }

  /** Whether `s` starts with a high surrogate followed by a low one, which together name one code point. */
  predicate StartsWithPair(s: JsString) {
    |s| >= 2 && IsHighSurrogate(s[0]) && IsLowSurrogate(s[1])
  }

  /**
   * `s.codePointAt(0)`: undefined for the empty string; the code point of a
   * leading surrogate pair; otherwise the first code unit itself (a lone
   * surrogate included).
   */
  function CodePointAt0(s: JsString): (r: Option<int>)
    ensures r.None? <==> |s| == 0
    ensures r.Some? ==> 0 <= r.value < 0x11_0000
    ensures r.Some? && !StartsWithPair(s) ==> r.value == s[0] as int
  {
    if |s| == 0 then None
    else if StartsWithPair(s) then
      Some(0x1_0000 + (s[0] as int - 0xD800) * 0x400 + (s[1] as int - 0xDC00))
    else Some(s[0] as int)
  }

  /** The UTF-16 encoding of a Unicode scalar value: one code unit, or a surrogate pair above U+FFFF. */
  function Utf16(cp: int): (r: JsString)
    requires IsScalar(cp)
    ensures 1 <= |r| <= 2
  {
    if cp < 0x1_0000 then [cp as CodeUnit]
    else
      var v := cp - 0x1_0000;
      [(0xD800 + v / 0x400) as CodeUnit, (0xDC00 + v % 0x400) as CodeUnit]
  }

  /** Reading the first code point back from a string that starts with the encoding of `cp` gives `cp`. */
  lemma CodePointOfUtf16(cp: int, rest: JsString)
    requires IsScalar(cp)
    ensures CodePointAt0(Utf16(cp) + rest) == Some(cp)
    ensures StartsWithPair(Utf16(cp) + rest) <==> |Utf16(cp)| == 2
  {
    var s := Utf16(cp) + rest;
    if cp >= 0x1_0000 {
      var v := cp - 0x1_0000;
      assert s[0] as int == 0xD800 + v / 0x400 && s[1] as int == 0xDC00 + v % 0x400;
      assert v == v / 0x400 * 0x400 + v % 0x400;
    } else {
      assert s[0] as int == cp;
    }
  }

  /** Concatenation of a sequence of strings. */
  function Concat(parts: seq<JsString>): JsString {
    if |parts| == 0 then [] else parts[0] + Concat(parts[1..])
  }

  /**
   * The strings the `for..of` iterator yields for `s`: one per code point, a
   * surrogate pair as a two-unit string and any other unit (a lone surrogate
   * included) on its own.
   */
  function CodePoints(s: JsString): (r: seq<JsString>)
    ensures Concat(r) == s
    ensures forall i :: 0 <= i < |r| ==> 1 <= |r[i]| <= 2 && (|r[i]| == 2 <==> StartsWithPair(r[i]))
    decreases |s|
  {
    if |s| == 0 then []
    else
      var n := if StartsWithPair(s) then 2 else 1;
      assert s[..n] + s[n..] == s;
      [s[..n]] + CodePoints(s[n..])
  }

  /** The iterator yields the encoding of a leading code point whole, then goes on with the rest. */
  lemma CodePointsOfUtf16(cp: int, rest: JsString)
    requires IsScalar(cp)
    ensures CodePoints(Utf16(cp) + rest) == [Utf16(cp)] + CodePoints(rest)
  {
    var s := Utf16(cp) + rest;
    CodePointOfUtf16(cp, rest);
    var n := |Utf16(cp)|;
    assert s[..n] == Utf16(cp) && s[n..] == rest;
  }
}
