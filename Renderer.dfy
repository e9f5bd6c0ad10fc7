/**
 * The text renderer of src/Renderer.ts: each frame lays the text out glyph by
 * glyph, moving a pen offset along the line and issuing one draw call per
 * visible glyph, then keeps the frame timing and runs the update callback.
 * WebGL is abstracted: a draw call is the uniforms it is issued with.
 */
module Renderer {
  import opened Wrappers
  import opened JsText
  import opened GlyphAtlas

  datatype Vec2 = Vec2(x: real, y: real)
  datatype Vec4 = Vec4(x: real, y: real, z: real, w: real)

  /** The uniforms of one glyph's draw call; the atlas texture, the same for every glyph, is left out. */
  datatype Draw = Draw(size: Vec2, offset: Vec2, plane: Vec4, screenPxRange: real, bounds: Vec4)

  /** The layout after some characters: the pen offset, the draws issued, and whether a missing glyph threw. */
  datatype Layout = Layout(offset: real, draws: seq<Draw>, threw: bool)

  /** The atlas pixel size divides the atlas bounds; JavaScript would give Infinity or NaN for a zero size. */
  predicate SizedAtlas(info: AtlasInfo) {
    info.width != 0.0 && info.height != 0.0
  }

  /** A glyph with both rectangles: the only kind that is drawn. */
  predicate Visible(g: GlyphMeta) {
    g.atlasBounds.Some? && g.planeBounds.Some?
  }

  /**
   * The draw call of glyph `g` with the pen at `offset`: the glyph size, the
   * offset `[offset, 0]`, the plane rectangle as given (left, bottom, right,
   * top), the atlas distance range, and the atlas rectangle as fractions of
   * the atlas size.
   */
  function GlyphDraw(info: AtlasInfo, g: GlyphMeta, offset: real, fontSizeW: real, fontSizeH: real): (d: Draw)
    requires SizedAtlas(info) && Visible(g)
    ensures d.offset == Vec2(offset, 0.0) && d.size == Vec2(fontSizeW, fontSizeH)
    ensures var a := g.atlasBounds.value;
      d.bounds.x * info.width == a.left && d.bounds.y * info.height == a.bottom
      && d.bounds.z * info.width == a.right && d.bounds.w * info.height == a.top
    ensures var a := g.atlasBounds.value;
      0.0 <= a.left <= a.right <= info.width ==> 0.0 <= d.bounds.x <= d.bounds.z <= 1.0
  {
    var a := g.atlasBounds.value;
    var p := g.planeBounds.value;
    Draw(Vec2(fontSizeW, fontSizeH), Vec2(offset, 0.0), Vec4(p.left, p.bottom, p.right, p.top),
         info.distanceRange,
         Vec4(a.left / info.width, a.bottom / info.height, a.right / info.width, a.top / info.height))
  }

  /** A non-space character whose glyph is missing: `getGlyph` gives undefined and reading its bounds throws. */
  predicate Missing(atlas: FontAtlas, ch: JsString) {
    ch != Space && atlas.GetGlyph(ch).None?
  }

  /** A non-space character whose glyph is present and visible: it is drawn. */
  predicate Drawn(atlas: FontAtlas, ch: JsString) {
    ch != Space && atlas.GetGlyph(ch).Some? && Visible(atlas.GetGlyph(ch).value)
  }

  /** One iteration of the layout loop. */
  function Advance(atlas: FontAtlas, l: Layout, ch: JsString, fontSizeW: real, fontSizeH: real): Layout
    requires SizedAtlas(atlas.meta.atlas)
  {
    if l.threw then l
    else if ch == Space then l.(offset := l.offset + fontSizeW * 0.5)
    else match atlas.GetGlyph(ch)
      case None => l.(threw := true)
      case Some(g) =>
        if !Visible(g) then l
        else Layout(l.offset + fontSizeW * g.advance,
                    l.draws + [GlyphDraw(atlas.meta.atlas, g, l.offset, fontSizeW, fontSizeH)], false)
  }

  /** The layout loop over the characters (code points) `chars`, the pen starting at 0. */
  function LayOut(atlas: FontAtlas, chars: seq<JsString>, fontSizeW: real, fontSizeH: real): Layout
    requires SizedAtlas(atlas.meta.atlas)
  {
    if |chars| == 0 then Layout(0.0, [], false)
    else Advance(atlas, LayOut(atlas, chars[..|chars| - 1], fontSizeW, fontSizeH), chars[|chars| - 1], fontSizeW, fontSizeH)
  }

  /** The number of spaces in `chars`. */
  function Spaces(chars: seq<JsString>): nat {
    if |chars| == 0 then 0 else Spaces(chars[..|chars| - 1]) + if chars[|chars| - 1] == Space then 1 else 0
  }

  /** The number of drawn characters in `chars`. */
  function DrawnCount(atlas: FontAtlas, chars: seq<JsString>): nat {
    if |chars| == 0 then 0 else DrawnCount(atlas, chars[..|chars| - 1]) + if Drawn(atlas, chars[|chars| - 1]) then 1 else 0
  }

  /** The sum of the advances of the drawn characters in `chars`. */
  function DrawnAdvance(atlas: FontAtlas, chars: seq<JsString>): real {
    if |chars| == 0 then 0.0
    else
      var ch := chars[|chars| - 1];
      DrawnAdvance(atlas, chars[..|chars| - 1]) + if Drawn(atlas, ch) then atlas.GetGlyph(ch).value.advance else 0.0
  }

  /** Whether some character of `chars` is missing from the atlas. */
  predicate AnyMissing(atlas: FontAtlas, chars: seq<JsString>) {
    exists i :: 0 <= i < |chars| && Missing(atlas, chars[i])
  }

  lemma TakeOneMore<T>(s: seq<T>, i: nat)
    requires i < |s|
    ensures s[..i + 1][..i] == s[..i] && s[..i + 1][i] == s[i]
  {
  }

  /** The layout of one more character is one more iteration. */
  lemma LayoutStep(atlas: FontAtlas, chars: seq<JsString>, i: nat, fontSizeW: real, fontSizeH: real)
    requires SizedAtlas(atlas.meta.atlas) && i < |chars|
    ensures LayOut(atlas, chars[..i + 1], fontSizeW, fontSizeH)
      == Advance(atlas, LayOut(atlas, chars[..i], fontSizeW, fontSizeH), chars[i], fontSizeW, fontSizeH)
  {
    TakeOneMore(chars, i);
  }

  /** A space, reached without a throw, moves the pen half a unit and draws nothing. */
  lemma SpaceStep(atlas: FontAtlas, chars: seq<JsString>, i: nat, fontSizeW: real, fontSizeH: real, pen: real)
    requires SizedAtlas(atlas.meta.atlas) && i < |chars| && chars[i] == Space
    requires !LayOut(atlas, chars[..i], fontSizeW, fontSizeH).threw && pen == LayOut(atlas, chars[..i], fontSizeW, fontSizeH).offset
    ensures LayOut(atlas, chars[..i + 1], fontSizeW, fontSizeH)
      == LayOut(atlas, chars[..i], fontSizeW, fontSizeH).(offset := pen + fontSizeW * 0.5)
  {
    LayoutStep(atlas, chars, i, fontSizeW, fontSizeH);
  }

  /**
   * A character whose glyph `g` is found, reached without a throw, is drawn at
   * the pen and moves it by its advance when `g` is visible, and is skipped otherwise.
   */
  lemma GlyphStep(atlas: FontAtlas, chars: seq<JsString>, i: nat, g: GlyphMeta, fontSizeW: real, fontSizeH: real, pen: real)
    requires SizedAtlas(atlas.meta.atlas) && i < |chars| && chars[i] != Space && atlas.GetGlyph(chars[i]) == Some(g)
    requires !LayOut(atlas, chars[..i], fontSizeW, fontSizeH).threw && pen == LayOut(atlas, chars[..i], fontSizeW, fontSizeH).offset
    ensures var before := LayOut(atlas, chars[..i], fontSizeW, fontSizeH);
      LayOut(atlas, chars[..i + 1], fontSizeW, fontSizeH)
      == if Visible(g) then Layout(pen + fontSizeW * g.advance, before.draws + [GlyphDraw(atlas.meta.atlas, g, pen, fontSizeW, fontSizeH)], false)
         else before
  {
    LayoutStep(atlas, chars, i, fontSizeW, fontSizeH);
    AdvanceGlyph(atlas, LayOut(atlas, chars[..i], fontSizeW, fontSizeH), chars[i], g, fontSizeW, fontSizeH, pen);
  }

  lemma AdvanceGlyph(atlas: FontAtlas, l: Layout, ch: JsString, g: GlyphMeta, fontSizeW: real, fontSizeH: real, pen: real)
    requires SizedAtlas(atlas.meta.atlas) && ch != Space && atlas.GetGlyph(ch) == Some(g)
    requires !l.threw && pen == l.offset
    ensures Advance(atlas, l, ch, fontSizeW, fontSizeH)
      == if Visible(g) then Layout(pen + fontSizeW * g.advance, l.draws + [GlyphDraw(atlas.meta.atlas, g, pen, fontSizeW, fontSizeH)], false)
         else l
  {
  }

  /** How far one character moves the pen, in units of fontSizeW: half for a space, the advance of a drawn glyph. */
  function Gap(atlas: FontAtlas, ch: JsString): real {
    if ch == Space then 0.5 else if Drawn(atlas, ch) then atlas.GetGlyph(ch).value.advance else 0.0
  }

  /** What one iteration does to the throw flag, the pen (at `pen` before it) and the number of draws. */
  lemma AdvanceEffect(atlas: FontAtlas, l: Layout, ch: JsString, fontSizeW: real, fontSizeH: real, pen: real)
    requires SizedAtlas(atlas.meta.atlas) && pen == l.offset
    ensures var l' := Advance(atlas, l, ch, fontSizeW, fontSizeH);
      && (l'.threw <==> l.threw || Missing(atlas, ch))
      && (!l'.threw ==> l'.offset == pen + fontSizeW * Gap(atlas, ch))
      && (!l'.threw ==> |l'.draws| == |l.draws| + if Drawn(atlas, ch) then 1 else 0)
  {
  }

  /** How far the characters `chars` move the pen, in units of fontSizeW. */
  function PenUnits(atlas: FontAtlas, chars: seq<JsString>): real {
    if |chars| == 0 then 0.0 else PenUnits(atlas, chars[..|chars| - 1]) + Gap(atlas, chars[|chars| - 1])
  }

  /** The pen moves half a unit per space and the advance of each drawn glyph. */
  lemma {:induction false} PenUnitsSum(atlas: FontAtlas, chars: seq<JsString>)
    ensures PenUnits(atlas, chars) == 0.5 * Spaces(chars) as real + DrawnAdvance(atlas, chars)
  {
    if |chars| > 0 {
      PenUnitsSum(atlas, chars[..|chars| - 1]);
    }
  }

  /** A layout throws exactly when some character's glyph is missing. */
  lemma {:induction false} LayoutThrows(atlas: FontAtlas, chars: seq<JsString>, fontSizeW: real, fontSizeH: real)
    requires SizedAtlas(atlas.meta.atlas)
    ensures LayOut(atlas, chars, fontSizeW, fontSizeH).threw <==> AnyMissing(atlas, chars)
  {
    if |chars| > 0 {
      var init := chars[..|chars| - 1];
      var ch := chars[|chars| - 1];
      var l := LayOut(atlas, init, fontSizeW, fontSizeH);
      LayoutThrows(atlas, init, fontSizeW, fontSizeH);
      AdvanceEffect(atlas, l, ch, fontSizeW, fontSizeH, l.offset);
      if AnyMissing(atlas, init) {
        var i :| 0 <= i < |init| && Missing(atlas, init[i]);
        assert chars[i] == init[i];
      }
      if AnyMissing(atlas, chars) && !Missing(atlas, ch) {
        var i :| 0 <= i < |chars| && Missing(atlas, chars[i]);
        assert init[i] == chars[i];
      }
    }
  }

  /**
   * A layout that does not throw ends with the pen at fontSizeW times half
   * the number of spaces plus the drawn glyphs' advances, and has issued one
   * draw per drawn character.
   */
  lemma LayoutTotals(atlas: FontAtlas, chars: seq<JsString>, fontSizeW: real, fontSizeH: real)
    requires SizedAtlas(atlas.meta.atlas)
    ensures var l := LayOut(atlas, chars, fontSizeW, fontSizeH);
      && (!l.threw ==> l.offset == fontSizeW * (0.5 * Spaces(chars) as real + DrawnAdvance(atlas, chars)))
      && (!l.threw ==> |l.draws| == DrawnCount(atlas, chars))
  {
    LayoutPen(atlas, chars, fontSizeW, fontSizeH);
    PenAtClosed(atlas, chars, fontSizeW);
  }

  /** Where the pen ends, in closed form. */
  lemma PenAtClosed(atlas: FontAtlas, chars: seq<JsString>, fontSizeW: real)
    ensures PenAt(atlas, chars, fontSizeW) == fontSizeW * (0.5 * Spaces(chars) as real + DrawnAdvance(atlas, chars))
  {
    PenAtScales(atlas, chars, fontSizeW);
    PenUnitsSum(atlas, chars);
    Times(fontSizeW, PenUnits(atlas, chars), 0.5 * Spaces(chars) as real + DrawnAdvance(atlas, chars));
  }

  /** The pen and the draw count, in terms of `PenAt`. */
  lemma {:induction false} LayoutPen(atlas: FontAtlas, chars: seq<JsString>, fontSizeW: real, fontSizeH: real)
    requires SizedAtlas(atlas.meta.atlas)
    ensures var l := LayOut(atlas, chars, fontSizeW, fontSizeH);
      && (!l.threw ==> l.offset == PenAt(atlas, chars, fontSizeW))
      && (!l.threw ==> |l.draws| == DrawnCount(atlas, chars))
  {
    if |chars| > 0 {
      var init := chars[..|chars| - 1];
      var l := LayOut(atlas, init, fontSizeW, fontSizeH);
      LayoutPen(atlas, init, fontSizeW, fontSizeH);
      if !l.threw {
        AdvanceEffect(atlas, l, chars[|chars| - 1], fontSizeW, fontSizeH, PenAt(atlas, init, fontSizeW));
      } else {
        AdvanceEffect(atlas, l, chars[|chars| - 1], fontSizeW, fontSizeH, l.offset);
      }
    }
  }

  /** Where the characters `chars` leave the pen, moving it by fontSizeW times each gap in turn. */
  function PenAt(atlas: FontAtlas, chars: seq<JsString>, fontSizeW: real): real {
    if |chars| == 0 then 0.0 else PenAt(atlas, chars[..|chars| - 1], fontSizeW) + fontSizeW * Gap(atlas, chars[|chars| - 1])
  }

  /** Moving the pen gap by gap is moving it by the sum of the gaps. */
  lemma {:induction false} PenAtScales(atlas: FontAtlas, chars: seq<JsString>, fontSizeW: real)
    ensures PenAt(atlas, chars, fontSizeW) == fontSizeW * PenUnits(atlas, chars)
  {
    if |chars| > 0 {
      var init := chars[..|chars| - 1];
      PenAtScales(atlas, init, fontSizeW);
      Scale(fontSizeW, PenAt(atlas, init, fontSizeW), PenUnits(atlas, init), PenAt(atlas, chars, fontSizeW),
            Gap(atlas, chars[|chars| - 1]), PenUnits(atlas, chars));
    } else {
      Times(fontSizeW, PenUnits(atlas, chars), 0.0);
    }
  }

  lemma Times(x: real, a: real, b: real)
    requires a == b
    ensures x * a == x * b
  {
  }

  /** Moving the pen by `g` units after `b` units moves it by `b + g` units. */
  lemma Scale(x: real, a: real, b: real, c: real, g: real, s: real)
    requires a == x * b && c == a + x * g && s == b + g
    ensures c == x * s
  {
  }

  /** Once a glyph is missing the loop has thrown: the later characters change nothing. */
  lemma {:induction false} ThrowStops(atlas: FontAtlas, chars: seq<JsString>, k: nat, fontSizeW: real, fontSizeH: real)
    requires SizedAtlas(atlas.meta.atlas)
    requires k <= |chars| && LayOut(atlas, chars[..k], fontSizeW, fontSizeH).threw
    ensures LayOut(atlas, chars, fontSizeW, fontSizeH) == LayOut(atlas, chars[..k], fontSizeW, fontSizeH)
    decreases |chars|
  {
    if k < |chars| {
      var init := chars[..|chars| - 1];
      assert init[..k] == chars[..k];
      ThrowStops(atlas, init, k, fontSizeW, fontSizeH);
    } else {
      assert chars[..k] == chars;
    }
  }

  /** The draws of a prefix of the text are a prefix of the draws of the text. */
  lemma {:induction false} DrawsGrow(atlas: FontAtlas, chars: seq<JsString>, k: nat, fontSizeW: real, fontSizeH: real)
    requires SizedAtlas(atlas.meta.atlas) && k <= |chars|
    ensures var before := LayOut(atlas, chars[..k], fontSizeW, fontSizeH).draws;
      before <= LayOut(atlas, chars, fontSizeW, fontSizeH).draws
    decreases |chars|
  {
    if k < |chars| {
      var init := chars[..|chars| - 1];
      assert init[..k] == chars[..k];
      DrawsGrow(atlas, init, k, fontSizeW, fontSizeH);
    } else {
      assert chars[..k] == chars;
    }
  }

  /**
   * Each drawn character that is reached gets its own draw, in text order: the
   * draw numbered by the drawn characters before it, issued with the pen where
   * the characters before it left it.
   */
  lemma DrawOfCharacter(atlas: FontAtlas, before: seq<JsString>, ch: JsString, after: seq<JsString>, fontSizeW: real, fontSizeH: real)
    requires SizedAtlas(atlas.meta.atlas)
    requires Drawn(atlas, ch) && !AnyMissing(atlas, before)
    ensures var l := LayOut(atlas, before + [ch] + after, fontSizeW, fontSizeH);
      && DrawnCount(atlas, before) < |l.draws|
      && l.draws[DrawnCount(atlas, before)]
         == GlyphDraw(atlas.meta.atlas, atlas.GetGlyph(ch).value,
                      fontSizeW * (0.5 * Spaces(before) as real + DrawnAdvance(atlas, before)), fontSizeW, fontSizeH)
  {
    var chars := before + [ch] + after;
    assert chars[..|before|] == before && chars[|before|] == ch;
    LayoutThrows(atlas, before, fontSizeW, fontSizeH);
    LayoutTotals(atlas, before, fontSizeW, fontSizeH);
    DrawAfterPrefix(atlas, chars, |before|, fontSizeW, fontSizeH);
  }

  /** A drawn character reached without a throw adds its draw right after those of the characters before it. */
  lemma DrawAfterPrefix(atlas: FontAtlas, chars: seq<JsString>, j: nat, fontSizeW: real, fontSizeH: real)
    requires SizedAtlas(atlas.meta.atlas)
    requires j < |chars| && Drawn(atlas, chars[j]) && !LayOut(atlas, chars[..j], fontSizeW, fontSizeH).threw
    ensures var pre, l := LayOut(atlas, chars[..j], fontSizeW, fontSizeH), LayOut(atlas, chars, fontSizeW, fontSizeH);
      && |pre.draws| < |l.draws|
      && l.draws[|pre.draws|] == GlyphDraw(atlas.meta.atlas, atlas.GetGlyph(chars[j]).value, pre.offset, fontSizeW, fontSizeH)
  {
    var pre := LayOut(atlas, chars[..j], fontSizeW, fontSizeH);
    var mid := LayOut(atlas, chars[..j + 1], fontSizeW, fontSizeH);
    var g := atlas.GetGlyph(chars[j]).value;
    LayoutStep(atlas, chars, j, fontSizeW, fontSizeH);
    assert mid.draws == pre.draws + [GlyphDraw(atlas.meta.atlas, g, pre.offset, fontSizeW, fontSizeH)];
    DrawsGrow(atlas, chars, j + 1, fontSizeW, fontSizeH);
    assert mid.draws[|pre.draws|] == GlyphDraw(atlas.meta.atlas, g, pre.offset, fontSizeW, fontSizeH);
  }

  /**
   * A layout that throws has issued exactly the draws of the characters
   * before the first missing one.
   */
  lemma ThrowKeepsEarlierDraws(atlas: FontAtlas, before: seq<JsString>, ch: JsString, after: seq<JsString>, fontSizeW: real, fontSizeH: real)
    requires SizedAtlas(atlas.meta.atlas)
    requires Missing(atlas, ch) && !AnyMissing(atlas, before)
    ensures LayOut(atlas, before + [ch] + after, fontSizeW, fontSizeH).threw
    ensures LayOut(atlas, before + [ch] + after, fontSizeW, fontSizeH).draws == LayOut(atlas, before, fontSizeW, fontSizeH).draws
  {
    var chars := before + [ch] + after;
    var k := |before|;
    assert chars[..k] == before && chars[k] == ch;
    LayoutThrows(atlas, before, fontSizeW, fontSizeH);
    LayoutStep(atlas, chars, k, fontSizeW, fontSizeH);
    ThrowStops(atlas, chars, k + 1, fontSizeW, fontSizeH);
  }

  /** An error a frame can throw. */
  datatype JsError = TypeError

  /** A registered update callback, known by its identity. */
  type Callback = nat

  /** The text shown before any other is set: 'abcdefghijklmopq 1234567890'. */
  const DefaultText: JsString := [
    0x61, 0x62, 0x63, 0x64, 0x65, 0x66, 0x67, 0x68, 0x69, 0x6A, 0x6B, 0x6C, 0x6D, 0x6F, 0x70, 0x71,
    0x20, 0x31, 0x32, 0x33, 0x34, 0x35, 0x36, 0x37, 0x38, 0x39, 0x30]

  /**
   * The renderer: the canvas size, the text properties, the frame statistics
   * and the update subscription; and (ghost) the draw calls issued, the frames
   * requested and the callbacks run so far.
   */
  class Renderer {
    const atlas: FontAtlas
    var canvasWidth: real
    var canvasHeight: real
    var fontSize: real
    var text: JsString
    var dt: real
    var lastTime: real
    var onUpdateSubscription: Option<Callback>
    ghost var draws: seq<Draw>
    ghost var frameRequests: nat
    ghost var callbacks: seq<Callback>

    constructor (atlas: FontAtlas, canvasWidth: real, canvasHeight: real)
      ensures this.atlas == atlas && this.canvasWidth == canvasWidth && this.canvasHeight == canvasHeight
      ensures fontSize == 128.0 && text == DefaultText
      ensures dt == 0.0 && lastTime == 0.0 && onUpdateSubscription == None
      ensures draws == [] && frameRequests == 0 && callbacks == []
    {
      this.atlas := atlas;
      this.canvasWidth := canvasWidth;
      this.canvasHeight := canvasHeight;
      fontSize := 128.0;
      text := DefaultText;
      dt := 0.0;
      lastTime := 0.0;
      onUpdateSubscription := None;
      draws := [];
      frameRequests := 0;
      callbacks := [];
    }

    /** `onUpdate`: the callback replaces any earlier one. */
    method OnUpdate(cb: Callback)
      modifies this
      ensures onUpdateSubscription == Some(cb)
      ensures canvasWidth == old(canvasWidth) && canvasHeight == old(canvasHeight)
      ensures fontSize == old(fontSize) && text == old(text) && dt == old(dt) && lastTime == old(lastTime)
      ensures draws == old(draws) && frameRequests == old(frameRequests) && callbacks == old(callbacks)
    {
      onUpdateSubscription := Some(cb);
    }

    /** The layout of the current text at the current font and canvas size. */
    ghost function FrameLayout(): Layout
      reads this`text, this`fontSize, this`canvasWidth, this`canvasHeight
      requires canvasWidth != 0.0 && canvasHeight != 0.0 && SizedAtlas(atlas.meta.atlas)
    {
      LayOut(atlas, CodePoints(text), fontSize / canvasWidth, fontSize / canvasHeight)
    }

    /**
     * The layout loop of `render` over the characters `chars`: issues the draw
     * of every visible glyph; answers false when a missing glyph throws.
     */
    method DrawText(chars: seq<JsString>, fontSizeW: real, fontSizeH: real) returns (completed: bool)
      requires SizedAtlas(atlas.meta.atlas)
      modifies this`draws
      ensures draws == old(draws) + LayOut(atlas, chars, fontSizeW, fontSizeH).draws
      ensures completed == !LayOut(atlas, chars, fontSizeW, fontSizeH).threw
    {
      var offset := 0.0;
      var i := 0;
      while i < |chars|
        invariant 0 <= i <= |chars|
        invariant !LayOut(atlas, chars[..i], fontSizeW, fontSizeH).threw
        invariant offset == LayOut(atlas, chars[..i], fontSizeW, fontSizeH).offset
        invariant draws == old(draws) + LayOut(atlas, chars[..i], fontSizeW, fontSizeH).draws
      {
        var ch := chars[i];
        if ch == Space {
          SpaceStep(atlas, chars, i, fontSizeW, fontSizeH, offset);
          offset := offset + fontSizeW * 0.5;
        } else {
          var glyph := atlas.GetGlyph(ch);
          if glyph.None? {
            LayoutStep(atlas, chars, i, fontSizeW, fontSizeH);
            ThrowStops(atlas, chars, i + 1, fontSizeW, fontSizeH);
            assert chars[..|chars|] == chars;
            return false;
          }
          var g := glyph.value;
          GlyphStep(atlas, chars, i, g, fontSizeW, fontSizeH, offset);
          if Visible(g) {
            draws := draws + [GlyphDraw(atlas.meta.atlas, g, offset, fontSizeW, fontSizeH)];
            offset := offset + fontSizeW * g.advance;
          }
        }
        i := i + 1;
      }
      assert chars[..i] == chars;
      return true;
    }

    /**
     * `render`: one frame. The delta time is measured from the last completed
     * frame; the text is laid out; a missing glyph throws, leaving the last
     * time, the next frame and the callback undone; otherwise the frame ends
     * by recording its time, requesting the next frame and running the
     * callback, if one is registered.
     */
    method Render(time: real) returns (r: Result<(), JsError>)
      requires canvasWidth != 0.0 && canvasHeight != 0.0 && SizedAtlas(atlas.meta.atlas)
      modifies this
      ensures dt == time - old(lastTime)
      ensures draws == old(draws) + old(FrameLayout()).draws
      ensures r.Failure? <==> old(FrameLayout()).threw
      ensures r.Success? ==> lastTime == time && frameRequests == old(frameRequests) + 1
      ensures r.Success? ==> callbacks == old(callbacks) + if onUpdateSubscription.Some? then [onUpdateSubscription.value] else []
      ensures r.Failure? ==> lastTime == old(lastTime) && frameRequests == old(frameRequests) && callbacks == old(callbacks)
      ensures canvasWidth == old(canvasWidth) && canvasHeight == old(canvasHeight)
      ensures fontSize == old(fontSize) && text == old(text) && onUpdateSubscription == old(onUpdateSubscription)
    {
      dt := time - lastTime;
      var fontSizeW := fontSize / canvasWidth;
      var fontSizeH := fontSize / canvasHeight;
      var completed := DrawText(CodePoints(text), fontSizeW, fontSizeH);
      if !completed {
        return Failure(TypeError);
      }
      lastTime := time;
      frameRequests := frameRequests + 1;
      if onUpdateSubscription.Some? {
        callbacks := callbacks + [onUpdateSubscription.value];
      }
      return Success(());
    }
  }
}
