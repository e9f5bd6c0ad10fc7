/**
 * The font atlas description (src/font-atlas/FontAtlasMeta.ts) and the glyph
 * lookup of src/font-atlas/FontAtlas.ts. JavaScript numbers are `real`s.
 */
module GlyphAtlas {
  import opened Wrappers
  import opened JsText

  /** A rectangle as the atlas JSON gives it. */
  datatype Rect = Rect(left: real, right: real, top: real, bottom: real)

  /** One glyph of the atlas; either rectangle may be absent (a space has neither). */
  datatype GlyphMeta = GlyphMeta(unicode: real, advance: real, planeBounds: Option<Rect>, atlasBounds: Option<Rect>)

  /** The atlas image: its kind, distance range in pixels, font size, pixel size and y origin. */
  datatype AtlasInfo = AtlasInfo(kind: string, distanceRange: real, size: real, width: real, height: real, yOrigin: string)

  datatype FontAtlasMeta = FontAtlasMeta(atlas: AtlasInfo, glyphs: seq<GlyphMeta>)

  /** `glyph.unicode === unicode`: a JavaScript `undefined` equals no number. */
  predicate Matches(g: GlyphMeta, cp: Option<int>) {
    cp.Some? && g.unicode == cp.value as real
  }

  /** `Array.prototype.find` over the glyph table: the first glyph matching `cp`, if any. */
  function Find(glyphs: seq<GlyphMeta>, cp: Option<int>): Option<GlyphMeta> {
    if |glyphs| == 0 then None
    else if Matches(glyphs[0], cp) then Some(glyphs[0])
    else Find(glyphs[1..], cp)
  }

  /** `Find` gives the first matching glyph, and nothing exactly when no glyph matches. */
  lemma {:induction false} FindFirst(glyphs: seq<GlyphMeta>, cp: Option<int>)
    ensures var r := Find(glyphs, cp);
      && (r.None? <==> forall i :: 0 <= i < |glyphs| ==> !Matches(glyphs[i], cp))
      && (r.Some? ==> exists i :: (0 <= i < |glyphs| && glyphs[i] == r.value && Matches(glyphs[i], cp)
            && forall j :: 0 <= j < i ==> !Matches(glyphs[j], cp)))
  {
    if |glyphs| > 0 && !Matches(glyphs[0], cp) {
      var tail := glyphs[1..];
      FindFirst(tail, cp);
      if Find(tail, cp).Some? {
        var i :| 0 <= i < |tail| && tail[i] == Find(tail, cp).value && Matches(tail[i], cp)
          && forall j :: 0 <= j < i ==> !Matches(tail[j], cp);
        assert glyphs[i + 1] == tail[i];
        forall j | 0 <= j < i + 1 ensures !Matches(glyphs[j], cp) {
          if j > 0 { assert glyphs[j] == tail[j - 1]; }
        }
      } else {
        forall i | 0 <= i < |glyphs| ensures !Matches(glyphs[i], cp) {
          if i > 0 { assert glyphs[i] == tail[i - 1]; }
        }
      }
    } else if |glyphs| > 0 {
      assert glyphs[0] == Find(glyphs, cp).value;
    }
  }

  /** The atlas of one font: its description, fixed when the atlas is built. The texture is not modelled. */
  class FontAtlas {
    const meta: FontAtlasMeta

    constructor (json: FontAtlasMeta)
      ensures meta == json
    {
      meta := json;
    }

    /** `getGlyph`: the glyph whose `unicode` is the first code point of `character`, if any. */
    function GetGlyph(character: JsString): Option<GlyphMeta> {
      Find(meta.glyphs, CodePointAt0(character))
    }
  }

  /**
   * `getGlyph` gives the first glyph of the table whose `unicode` is the first
   * code point of `character`, and undefined exactly when there is none.
   */
  lemma GetGlyphFirst(atlas: FontAtlas, character: JsString)
    ensures var r := atlas.GetGlyph(character);
      var cp, glyphs := CodePointAt0(character), atlas.meta.glyphs;
      && (r.None? <==> forall i :: 0 <= i < |glyphs| ==> !Matches(glyphs[i], cp))
      && (r.Some? ==> exists i :: (0 <= i < |glyphs| && glyphs[i] == r.value && Matches(glyphs[i], cp)
            && forall j :: 0 <= j < i ==> !Matches(glyphs[j], cp)))
  {
    FindFirst(atlas.meta.glyphs, CodePointAt0(character));
  }

  /** The empty string has no code point, so no glyph. */
  lemma EmptyHasNoGlyph(atlas: FontAtlas)
    ensures atlas.GetGlyph([]) == None
  {
    assert CodePointAt0([]) == None;
    FindFirst(atlas.meta.glyphs, None);
  }

  /** Only the first code point matters: whatever follows it, the glyph is that of the code point alone. */
  lemma FirstCodePointDecides(atlas: FontAtlas, cp: int, rest: JsString)
    requires IsScalar(cp)
    ensures atlas.GetGlyph(Utf16(cp) + rest) == atlas.GetGlyph(Utf16(cp))
  {
    CodePointOfUtf16(cp, rest);
    CodePointOfUtf16(cp, []);
    assert Utf16(cp) + [] == Utf16(cp);
  }

  /** A glyph listed for `cp` is found for the encoding of `cp`: the first one listed, at `FirstIndex`. */
  lemma GlyphFound(atlas: FontAtlas, cp: int, rest: JsString, k: nat)
    requires IsScalar(cp) && k < |atlas.meta.glyphs| && atlas.meta.glyphs[k].unicode == cp as real
    ensures FirstIndex(atlas.meta.glyphs, cp as real) <= k
    ensures atlas.GetGlyph(Utf16(cp) + rest) == Some(atlas.meta.glyphs[FirstIndex(atlas.meta.glyphs, cp as real)])
  {
    CodePointOfUtf16(cp, rest);
    assert Matches(atlas.meta.glyphs[k], Some(cp));
    FindAtFirstIndex(atlas.meta.glyphs, cp);
  }

  /** The index of the first glyph whose `unicode` is `u`, or the table's length. */
  function FirstIndex(glyphs: seq<GlyphMeta>, u: real): nat {
    if |glyphs| == 0 then 0
    else if glyphs[0].unicode == u then 0
    else 1 + FirstIndex(glyphs[1..], u)
  }

  /** `Find` stops at `FirstIndex`. */
  lemma {:induction false} FindAtFirstIndex(glyphs: seq<GlyphMeta>, cp: int)
    ensures FirstIndex(glyphs, cp as real) <= |glyphs|
    ensures FirstIndex(glyphs, cp as real) < |glyphs| ==> Find(glyphs, Some(cp)) == Some(glyphs[FirstIndex(glyphs, cp as real)])
    ensures FirstIndex(glyphs, cp as real) == |glyphs| ==> Find(glyphs, Some(cp)) == None
    ensures forall k :: 0 <= k < |glyphs| && glyphs[k].unicode == cp as real ==> FirstIndex(glyphs, cp as real) <= k
  {
    if |glyphs| > 0 && glyphs[0].unicode != cp as real {
      FindAtFirstIndex(glyphs[1..], cp);
      forall k | 0 <= k < |glyphs| && glyphs[k].unicode == cp as real ensures FirstIndex(glyphs, cp as real) <= k {
        assert k > 0 && glyphs[k] == glyphs[1..][k - 1];
      }
    }
  }
}
