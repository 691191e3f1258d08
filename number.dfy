/** The number actor of tdnumber.c (TDNumber): a label that shows the
    decimal digits of an integer value by drawing one textured rectangle
    per digit from a pre-built atlas of the ten digit glyphs. */
module NumberLabel {
  import opened Atlas
  import opened Pixels
  import opened Canvas
  import opened Decimal

  /** One call of cogl_texture_rectangle made by paint: the screen corners
      in 16.16 fixed point and the texture rectangle of the glyph. */
  datatype Quad = Quad(x1: int, y1: int, x2: int, y2: int,
                       tx1: int, ty1: int, tx2: int, ty2: int)

  /** An integer pixel count in 16.16 fixed point. */
  function ToFixed(n: int): int { n * FIXED_ONE }

  /** The metrics-table entry for digit character `c`. */
  function GlyphBox(boxes: seq<Box>, c: char): Box
    requires |boxes| == GLYPH_COUNT && IsDigit(c)
  {
    boxes[DigitValue(c)]
  }

  /** The sum of the advances of the digits `ds`, taken left to right. */
  function Advances(boxes: seq<Box>, ds: string): int
    requires |boxes| == GLYPH_COUNT && AllDigits(ds)
    decreases |ds|
  {
    if ds == [] then 0
    else Advances(boxes, ds[..|ds| - 1]) + GlyphBox(boxes, ds[|ds| - 1]).advance
  }

  /** How far below the top of the label the bottom of a glyph lies. */
  function GlyphBottom(b: Box, maxAscent: int): int
  {
    b.height + maxAscent - b.yOff
  }

  /** The largest glyph bottom over the digits `ds`, starting from 0. */
  function MaxBottom(boxes: seq<Box>, maxAscent: int, ds: string): int
    requires |boxes| == GLYPH_COUNT && AllDigits(ds)
    decreases |ds|
  {
    if ds == [] then 0
    else
      var m := MaxBottom(boxes, maxAscent, ds[..|ds| - 1]);
      var h := GlyphBottom(GlyphBox(boxes, ds[|ds| - 1]), maxAscent);
      if m < h then h else m
  }

  /** The rectangle for glyph box `b` with its left edge at `x`: the glyph's
      ascent is aligned on the label's largest ascent. */
  function GlyphQuad(b: Box, maxAscent: int, x: int): Quad
  {
    Quad(ToFixed(x), ToFixed(maxAscent - b.yOff),
         ToFixed(x + b.width), ToFixed(b.height + maxAscent - b.yOff),
         b.tx1, b.ty1, b.tx2, b.ty2)
  }

  /** The rectangles paint draws for the digits `ds`, left to right. */
  function Quads(boxes: seq<Box>, maxAscent: int, ds: string): (qs: seq<Quad>)
    requires |boxes| == GLYPH_COUNT && AllDigits(ds)
    ensures |qs| == |ds|
    decreases |ds|
  {
    if ds == [] then []
    else
      var pre := ds[..|ds| - 1];
      Quads(boxes, maxAscent, pre)
        + [GlyphQuad(GlyphBox(boxes, ds[|ds| - 1]), maxAscent, Advances(boxes, pre))]
  }

  /** One more digit of a prefix of `ds`: the width, the largest bottom and
      the quads grow by that digit's glyph. */
  lemma LayoutStep(boxes: seq<Box>, maxAscent: int, ds: string, i: int)
    requires |boxes| == GLYPH_COUNT && AllDigits(ds) && 0 <= i < |ds|
    ensures AllDigits(ds[..i]) && AllDigits(ds[..i + 1])
    ensures var b := GlyphBox(boxes, ds[i]);
            && Advances(boxes, ds[..i + 1]) == Advances(boxes, ds[..i]) + b.advance
            && MaxBottom(boxes, maxAscent, ds[..i + 1])
               == (var m := MaxBottom(boxes, maxAscent, ds[..i]);
                   if m < GlyphBottom(b, maxAscent) then GlyphBottom(b, maxAscent) else m)
            && Quads(boxes, maxAscent, ds[..i + 1])
               == Quads(boxes, maxAscent, ds[..i]) + [GlyphQuad(b, maxAscent, Advances(boxes, ds[..i]))]
  {
    assert ds[..i + 1][..i] == ds[..i] && ds[..i + 1][i] == ds[i];
  }

  // ---------------------------------------------------------------------
  // Properties of the layout functions.

  /** The width of two strings of digits side by side is the sum of their
      widths. */
  lemma {:induction false} AdvancesAppend(boxes: seq<Box>, a: string, b: string)
    requires |boxes| == GLYPH_COUNT && AllDigits(a) && AllDigits(b)
    ensures AllDigits(a + b)
    ensures Advances(boxes, a + b) == Advances(boxes, a) + Advances(boxes, b)
    decreases |b|
  {
    if b == [] {
      assert a + b == a;
    } else {
      var b' := b[..|b| - 1];
      assert (a + b)[..|a + b| - 1] == a + b';
      assert (a + b)[|a + b| - 1] == b[|b| - 1];
      AdvancesAppend(boxes, a, b');
    }
  }

  /** Quad `i` is digit `i`'s glyph placed at the running sum of the
      advances of the digits before it. */
  lemma {:induction false} QuadAt(boxes: seq<Box>, maxAscent: int, ds: string, i: int)
    requires |boxes| == GLYPH_COUNT && AllDigits(ds) && 0 <= i < |ds|
    ensures Quads(boxes, maxAscent, ds)[i]
         == GlyphQuad(GlyphBox(boxes, ds[i]), maxAscent, Advances(boxes, ds[..i]))
    decreases |ds|
  {
    var pre := ds[..|ds| - 1];
    if i < |ds| - 1 {
      QuadAt(boxes, maxAscent, pre, i);
      assert pre[..i] == ds[..i];
    }
  }

  /** What each quad covers: x2 - x1 is the glyph's width, y1 is the
      largest ascent less the glyph's own, y2 - y1 is the glyph's height,
      and the texture rectangle is the glyph's. */
  lemma QuadShape(boxes: seq<Box>, maxAscent: int, ds: string, i: int)
    requires |boxes| == GLYPH_COUNT && AllDigits(ds) && 0 <= i < |ds|
    ensures var q := Quads(boxes, maxAscent, ds)[i];
            var b := boxes[DigitValue(ds[i])];
            && q.x1 == ToFixed(Advances(boxes, ds[..i]))
            && q.x2 - q.x1 == ToFixed(b.width)
            && q.y1 == ToFixed(maxAscent - b.yOff)
            && q.y2 - q.y1 == ToFixed(b.height)
            && q.tx1 == b.tx1 && q.ty1 == b.ty1 && q.tx2 == b.tx2 && q.ty2 == b.ty2
  {
    QuadAt(boxes, maxAscent, ds, i);
  }

  /** The x cursor advances by exactly one glyph advance from each quad to
      the next. */
  lemma QuadsAdvance(boxes: seq<Box>, maxAscent: int, ds: string, i: int)
    requires |boxes| == GLYPH_COUNT && AllDigits(ds) && 0 <= i < |ds| - 1
    ensures Quads(boxes, maxAscent, ds)[i + 1].x1
         == Quads(boxes, maxAscent, ds)[i].x1 + ToFixed(GlyphBox(boxes, ds[i]).advance)
  {
    QuadAt(boxes, maxAscent, ds, i);
    QuadAt(boxes, maxAscent, ds, i + 1);
    LayoutStep(boxes, maxAscent, ds, i);
  }

  /** The preferred width is where the cursor stands after the last quad:
      the last quad's left edge plus the last glyph's advance. */
  lemma WidthEndsAfterLastQuad(boxes: seq<Box>, maxAscent: int, ds: string)
    requires |boxes| == GLYPH_COUNT && AllDigits(ds) && ds != []
    ensures Quads(boxes, maxAscent, ds)[|ds| - 1].x1
            + ToFixed(GlyphBox(boxes, ds[|ds| - 1]).advance)
         == ToFixed(Advances(boxes, ds))
  {
    QuadAt(boxes, maxAscent, ds, |ds| - 1);
  }

  /** The height is at least 0, at least every digit's glyph bottom, and
      is 0 or one of those bottoms. */
  lemma {:induction false} MaxBottomIsMaximum(boxes: seq<Box>, maxAscent: int, ds: string)
    requires |boxes| == GLYPH_COUNT && AllDigits(ds)
    ensures MaxBottom(boxes, maxAscent, ds) >= 0
    ensures forall k :: 0 <= k < |ds| ==>
              MaxBottom(boxes, maxAscent, ds) >= GlyphBottom(GlyphBox(boxes, ds[k]), maxAscent)
    ensures MaxBottom(boxes, maxAscent, ds) == 0
         || exists k :: 0 <= k < |ds| &&
              MaxBottom(boxes, maxAscent, ds) == GlyphBottom(GlyphBox(boxes, ds[k]), maxAscent)
    decreases |ds|
  {
    if ds != [] {
      var pre := ds[..|ds| - 1];
      MaxBottomIsMaximum(boxes, maxAscent, pre);
      assert forall k :: 0 <= k < |pre| ==> pre[k] == ds[k];
    }
  }

  // ---------------------------------------------------------------------
  // The actor.

  class Number {
    /** The value shown. */
    var value: int
    /** The 16-character buffer holding the digits as a C string. */
    var digits: array<char>
    /** The metrics table, one entry per digit glyph. */
    var boxes: seq<Box>
    /** The largest glyph ascent plus half the padding. */
    var maxAscent: int
    /** Whether the atlas texture handle is valid. */
    var texValid: bool
    /** How many relayouts the actor has queued. */
    var relayouts: nat
    /** How many times the atlas texture reference has been dropped. */
    var unrefs: nat

    /** The actor's invariant: the buffer holds the numeral of |value|. */
    ghost predicate Valid()
      reads this, digits
    {
      && digits.Length == BUF_SIZE && |boxes| == GLYPH_COUNT && IsInt32(value)
      && NUL in digits[..] && CString(digits[..]) == NatDigits(Abs(value))
    }

    /** The digit string shown. */
    function Digits(): (s: string)
      reads this, digits
      requires Valid()
      ensures 1 <= |s| <= 10 && AllDigits(s) && s == NatDigits(Abs(value))
    {
      Int32Fits(value);
      CString(digits[..])
    }

    /** td_number_init: the value 0 shown as "0", the metrics table and the
        largest ascent from the glyph extents, the drawn canvas `canvas`
        (of row stride `stride`) converted to straight-alpha RGBA, and the
        texture handle valid exactly when `uploaded` (the outcome of the
        upload, which is not modelled). */
    constructor (extents: seq<Extents>, canvas: array<byte>, stride: int, uploaded: bool)
      requires |extents| == GLYPH_COUNT
      requires stride >= ROW_BYTES && canvas.Length == 256 * stride
      modifies canvas
      ensures Valid() && fresh(digits)
      ensures value == 0 && Digits() == "0"
      ensures boxes == Boxes(extents, GLYPH_COUNT)
      ensures maxAscent == MaxYOff(extents) + GAP / 2
      ensures Unpremultiplied(old(canvas[..]), canvas[..], stride)
      ensures texValid == uploaded && relayouts == 0 && unrefs == 0
    {
      var buf := new char[BUF_SIZE](_ => NUL);
      buf[0] := '0';
      buf[1] := NUL;
      var bs, ascent := PackGlyphs(extents);
      UnpremultiplyCanvas(canvas, stride);
      value := 0;
      digits := buf;
      boxes := bs;
      maxAscent := ascent;
      texValid := uploaded;
      relayouts := 0;
      unrefs := 0;
      FirstNul(buf[..], 1);
      assert buf[..1] == NatDigits(0);
    }

    /** td_number_set_value: a new value is stored, formatted into the
        buffer, filtered down to its digits and a relayout is queued; the
        current value changes nothing. */
    method SetValue(v: int)
      requires Valid() && IsInt32(v)
      modifies this, digits
      ensures Valid() && value == v && Digits() == NatDigits(Abs(v))
      ensures digits == old(digits) && boxes == old(boxes) && maxAscent == old(maxAscent)
      ensures texValid == old(texValid) && unrefs == old(unrefs)
      ensures old(value) == v ==> digits[..] == old(digits[..]) && relayouts == old(relayouts)
      ensures old(value) != v ==>
                digits[..] == Filtered(Formatted(old(digits[..]), FormatInt(v)))
                && relayouts == old(relayouts) + 1
    {
      if value != v {
        ChangeValue(v);
      }
    }

    /** The body of td_number_set_value for a value different from the
        current one. */
    method ChangeValue(v: int)
      requires Valid() && IsInt32(v)
      modifies this, digits
      ensures Valid() && value == v
      ensures digits == old(digits) && boxes == old(boxes) && maxAscent == old(maxAscent)
      ensures texValid == old(texValid) && unrefs == old(unrefs)
      ensures digits[..] == Filtered(Formatted(old(digits[..]), FormatInt(v)))
      ensures relayouts == old(relayouts) + 1
    {
      value := v;
      FormatDigits(digits, v);
      assert CString(digits[..]) == NatDigits(Abs(value));
      relayouts := relayouts + 1;
    }

    /** td_number_get_value. */
    method GetValue() returns (v: int)
      ensures v == value
    {
      v := value;
    }

    /** td_number_paint: nothing without a texture, otherwise one quad per
        digit, left to right, with the x cursor advancing by the glyph's
        advance. */
    method Paint() returns (quads: seq<Quad>)
      requires Valid()
      ensures quads == if texValid then Quads(boxes, maxAscent, Digits()) else []
    {
      quads := [];
      if !texValid {
        return;
      }
      ghost var ds := Digits();
      var xpos := 0;
      var i := 0;
      while digits[i] != NUL
        invariant 0 <= i <= |ds|
        decreases |ds| - i
        invariant xpos == Advances(boxes, ds[..i])
        invariant quads == Quads(boxes, maxAscent, ds[..i])
      {
        CStringAt(digits[..], i);
        LayoutStep(boxes, maxAscent, ds, i);
        var box := boxes[digits[i] as int - '0' as int];
        assert box == GlyphBox(boxes, ds[i]);
        var quad := Quad(ToFixed(xpos), ToFixed(maxAscent - box.yOff),
                         ToFixed(xpos + box.width),
                         ToFixed(box.height + maxAscent - box.yOff),
                         box.tx1, box.ty1, box.tx2, box.ty2);
        assert quad == GlyphQuad(box, maxAscent, xpos);
        quads := quads + [quad];
        xpos := xpos + box.advance;
        i := i + 1;
      }
      CStringAt(digits[..], i);
      assert ds[..i] == ds;
    }

    /** td_number_get_preferred_width: the sum of the digits' advances. */
    method PreferredWidth() returns (width: int)
      requires Valid()
      ensures width == Advances(boxes, Digits())
    {
      ghost var ds := Digits();
      width := 0;
      var i := 0;
      while digits[i] != NUL
        invariant 0 <= i <= |ds|
        decreases |ds| - i
        invariant width == Advances(boxes, ds[..i])
      {
        CStringAt(digits[..], i);
        LayoutStep(boxes, maxAscent, ds, i);
        width := width + boxes[digits[i] as int - '0' as int].advance;
        i := i + 1;
      }
      CStringAt(digits[..], i);
      assert ds[..i] == ds;
    }

    /** td_number_get_preferred_height: the largest glyph bottom over the
        digits, starting from 0. */
    method PreferredHeight() returns (height: int)
      requires Valid()
      ensures height == MaxBottom(boxes, maxAscent, Digits())
    {
      ghost var ds := Digits();
      height := 0;
      var i := 0;
      while digits[i] != NUL
        invariant 0 <= i <= |ds|
        decreases |ds| - i
        invariant height == MaxBottom(boxes, maxAscent, ds[..i])
      {
        CStringAt(digits[..], i);
        LayoutStep(boxes, maxAscent, ds, i);
        var box := boxes[digits[i] as int - '0' as int];
        var boxHeight := box.height + maxAscent - box.yOff;
        if height < boxHeight {
          height := boxHeight;
        }
        i := i + 1;
      }
      CStringAt(digits[..], i);
      assert ds[..i] == ds;
    }

    /** td_number_dispose: a valid texture is released once and the handle
        becomes invalid; disposing again releases nothing. */
    method Dispose()
      requires Valid()
      modifies this
      ensures Valid() && !texValid
      ensures unrefs == if old(texValid) then old(unrefs) + 1 else old(unrefs)
      ensures value == old(value) && digits == old(digits) && boxes == old(boxes)
      ensures maxAscent == old(maxAscent) && relayouts == old(relayouts)
    {
      if texValid {
        unrefs := unrefs + 1;
        texValid := false;
      }
    }
  }

  /** td_number_get_value after td_number_set_value returns the value set,
      whether or not it was already the current one. */
  method SetThenGet(n: Number, v: int) returns (r: int)
    requires n.Valid() && IsInt32(v)
    modifies n, n.digits
    ensures r == v
  {
    n.SetValue(v);
    r := n.GetValue();
  }
}
