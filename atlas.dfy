/** Glyph metrics and shelf packing for the digit atlas built by the
    number actor's initialiser (tdnumber.c, td_number_init).

    Each of the ten digit glyphs is measured by the text backend; the
    measurement arrives here as integer `Extents`. From it the initialiser
    derives a `Box` (padded size, advance, ascent and texture rectangle)
    and places the box on a square canvas by shelf packing: boxes go left
    to right on the current row, and a box that would cross the right edge
    starts a new row below. */
module Atlas {

  /** Side length, in pixels, of the square atlas canvas. */
  const TEX_SIZE: int := 256
  /** Padding added to each glyph's ink box (half of it on each side). */
  const GAP: int := 8
  /** The atlas holds the ten digits '0' to '9'. */
  const GLYPH_COUNT: int := 10

  /** Text extents of one glyph as reported by the rasterisation backend,
      truncated to integers. */
  datatype Extents = Extents(width: int, height: int, xAdvance: int, yBearing: int)

  /** 1.0 in the 16.16 fixed-point format of texture coordinates. */
  const FIXED_ONE: int := 65536

  /** One entry of the metrics table: the glyph's texture rectangle in
      16.16 fixed-point normalised coordinates and its layout metrics in
      pixels. */
  datatype Box = Box(tx1: int, ty1: int, tx2: int, ty2: int,
                     width: int, height: int, advance: int, yOff: int)

  /** The packing state between two glyphs. */
  datatype Cursor = Cursor(x: int, y: int, rowHeight: int)

  /** A pixel position on the canvas. */
  datatype Pos = Pos(x: int, y: int)

  /** Cairo's extents are never negative, so every padded box is at least
      GAP pixels wide and high. */
  ghost predicate WellFormed(es: seq<Extents>)
  {
    forall k :: 0 <= k < |es| ==> es[k].width >= 0 && es[k].height >= 0
  }

  function BoxWidth(e: Extents): int { e.width + GAP }

  function BoxHeight(e: Extents): int { e.height + GAP }

  /** Where a box of width `w` is placed from cursor `c`: at the cursor, or
      at the left edge one row height further down when it would cross the
      right edge of the canvas. */
  function Origin(c: Cursor, w: int): Pos
  {
    if c.x + w > TEX_SIZE then Pos(0, c.y + c.rowHeight) else Pos(c.x, c.y)
  }

  /** The cursor after placing the box of glyph `e`. The row height is the
      tallest box so far; it is not reset when a new row starts. */
  function Step(c: Cursor, e: Extents): Cursor
  {
    var p := Origin(c, BoxWidth(e));
    Cursor(p.x + BoxWidth(e), p.y,
           if BoxHeight(e) > c.rowHeight then BoxHeight(e) else c.rowHeight)
  }

  /** The cursor after the glyphs `es` have been placed in order. */
  function CursorAfter(es: seq<Extents>): Cursor
    decreases |es|
  {
    if es == [] then Cursor(0, 0, 0)
    else Step(CursorAfter(es[..|es| - 1]), es[|es| - 1])
  }

  /** The canvas position of glyph `i`. */
  function Placement(es: seq<Extents>, i: int): Pos
    requires 0 <= i < |es|
  {
    Origin(CursorAfter(es[..i]), BoxWidth(es[i]))
  }

  /** A pixel distance as a fraction of the canvas side, in 16.16 fixed
      point: the fixed-point quotient of `px` and TEX_SIZE, which is exact
      because TEX_SIZE divides FIXED_ONE (FIXED_ONE / TEX_SIZE == 256). */
  function TexCoord(px: int): (t: int)
    ensures t * TEX_SIZE == px * FIXED_ONE
  {
    px * 256
  }

  /** The metrics-table entry for glyph `e` placed at `p`. */
  function MakeBox(e: Extents, p: Pos): Box
  {
    var tx1 := TexCoord(p.x);
    var ty1 := TexCoord(p.y);
    Box(tx1, ty1, tx1 + TexCoord(BoxWidth(e)), ty1 + TexCoord(BoxHeight(e)),
        BoxWidth(e), BoxHeight(e), e.xAdvance + 2, -e.yBearing)
  }

  /** The first `n` entries of the metrics table the initialiser builds
      for the glyphs `es`. */
  function Boxes(es: seq<Extents>, n: int): (bs: seq<Box>)
    requires 0 <= n <= |es|
    ensures |bs| == n
  {
    if n == 0 then [] else Boxes(es, n - 1) + [MakeBox(es[n - 1], Placement(es, n - 1))]
  }

  /** Entry `i` of the table is glyph `i`'s box at its placement. */
  lemma {:induction false} BoxAt(es: seq<Extents>, n: int, i: int)
    requires 0 <= i < n <= |es|
    ensures Boxes(es, n)[i] == MakeBox(es[i], Placement(es, i))
  {
    if i < n - 1 {
      BoxAt(es, n - 1, i);
    }
  }

  /** The largest ascent (negated y bearing) of the glyphs, starting from 0. */
  function MaxYOff(es: seq<Extents>): int
    decreases |es|
  {
    if es == [] then 0
    else
      var m := MaxYOff(es[..|es| - 1]);
      var y := -es[|es| - 1].yBearing;
      if y > m then y else m
  }

  /** How the packing state and the largest ascent grow by one glyph. */
  lemma PrefixStep(es: seq<Extents>, i: int)
    requires 0 <= i < |es|
    ensures CursorAfter(es[..i + 1]) == Step(CursorAfter(es[..i]), es[i])
    ensures var y := -es[i].yBearing;
            MaxYOff(es[..i + 1]) == if y > MaxYOff(es[..i]) then y else MaxYOff(es[..i])
  {
    assert es[..i + 1][..i] == es[..i];
  }

  /** The metric and packing loop of the initialiser. */
  method PackGlyphs(extents: seq<Extents>) returns (boxes: seq<Box>, maxAscent: int)
    requires |extents| == GLYPH_COUNT
    ensures boxes == Boxes(extents, GLYPH_COUNT)
    ensures maxAscent == MaxYOff(extents) + GAP / 2
  {
    var xpos, ypos, rowHeight := 0, 0, 0;
    maxAscent := 0;
    boxes := [];
    var i := 0;
    while i < GLYPH_COUNT
      invariant 0 <= i <= GLYPH_COUNT
      invariant Cursor(xpos, ypos, rowHeight) == CursorAfter(extents[..i])
      invariant maxAscent == MaxYOff(extents[..i])
      invariant boxes == Boxes(extents, i)
    {
      var e := extents[i];
      var width := e.width + GAP;
      var height := e.height + GAP;
      var advance := e.xAdvance + 2;
      var yOff := -e.yBearing;
      ghost var placed := Placement(extents, i);
      assert placed == Origin(Cursor(xpos, ypos, rowHeight), width);
      if yOff > maxAscent {
        maxAscent := yOff;
      }
      if xpos + width > TEX_SIZE {
        xpos := 0;
        ypos := ypos + rowHeight;
      }
      var tx1 := TexCoord(xpos);
      var tx2 := tx1 + TexCoord(width);
      var ty1 := TexCoord(ypos);
      var ty2 := ty1 + TexCoord(height);
      assert placed == Pos(xpos, ypos);
      assert Box(tx1, ty1, tx2, ty2, width, height, advance, yOff) == MakeBox(e, placed);
      boxes := boxes + [Box(tx1, ty1, tx2, ty2, width, height, advance, yOff)];
      if height > rowHeight {
        rowHeight := height;
      }
      xpos := xpos + width;
      PrefixStep(extents, i);
      i := i + 1;
    }
    assert extents[..GLYPH_COUNT] == extents;
    maxAscent := maxAscent + GAP / 2;
  }

  /** The packing invariant after `i` glyphs: every placed box lies either
      on the cursor's row, left of the cursor, or entirely above that row;
      and the row height covers every box placed so far. */
  ghost predicate Packed(es: seq<Extents>, i: int, c: Cursor)
    requires 0 <= i <= |es|
  {
    && c.x >= 0 && c.y >= 0 && c.rowHeight >= 0
    && (forall k :: 0 <= k < i ==> BoxHeight(es[k]) <= c.rowHeight)
    && (forall k :: 0 <= k < i ==>
          var p := Placement(es, k);
          (p.y == c.y && p.x + BoxWidth(es[k]) <= c.x) || p.y + BoxHeight(es[k]) <= c.y)
  }

  lemma {:induction false} PackingInvariant(es: seq<Extents>, i: int)
    requires WellFormed(es) && 0 <= i <= |es|
    ensures Packed(es, i, CursorAfter(es[..i]))
  {
    if i > 0 {
      PackingInvariant(es, i - 1);
      assert es[..i][..i - 1] == es[..i - 1];
      var c := CursorAfter(es[..i - 1]);
      assert CursorAfter(es[..i]) == Step(c, es[i - 1]);
      assert Placement(es, i - 1) == Origin(c, BoxWidth(es[i - 1]));
    }
  }

  /** Two boxes of the given positions and sizes share no pixel. */
  predicate Disjoint(p: Pos, w: int, h: int, q: Pos, w': int, h': int)
  {
    p.x + w <= q.x || q.x + w' <= p.x || p.y + h <= q.y || q.y + h' <= p.y
  }

  /** Packed boxes never overlap. */
  lemma NoOverlap(es: seq<Extents>, i: int, j: int)
    requires WellFormed(es) && 0 <= i < |es| && 0 <= j < |es| && i != j
    ensures Disjoint(Placement(es, i), BoxWidth(es[i]), BoxHeight(es[i]),
                     Placement(es, j), BoxWidth(es[j]), BoxHeight(es[j]))
  {
    if i < j {
      PackingInvariant(es, j);
    } else {
      PackingInvariant(es, i);
    }
  }

  /** The texture rectangles recorded in the table never overlap either. */
  lemma TexRectsDisjoint(es: seq<Extents>, i: int, j: int)
    requires WellFormed(es) && 0 <= i < |es| && 0 <= j < |es| && i != j
    ensures var a, b := Boxes(es, |es|)[i], Boxes(es, |es|)[j];
            a.tx2 <= b.tx1 || b.tx2 <= a.tx1 || a.ty2 <= b.ty1 || b.ty2 <= a.ty1
  {
    NoOverlap(es, i, j);
    BoxAt(es, |es|, i);
    BoxAt(es, |es|, j);
  }

  /** The row height is the tallest box placed so far (0 before any), not
      the tallest box of the current row. */
  lemma {:induction false} RowHeightIsTallest(es: seq<Extents>, i: int)
    requires 0 <= i <= |es|
    ensures var h := CursorAfter(es[..i]).rowHeight;
            && h >= 0
            && (forall k :: 0 <= k < i ==> BoxHeight(es[k]) <= h)
            && (h == 0 || exists k :: 0 <= k < i && BoxHeight(es[k]) == h)
  {
    if i > 0 {
      RowHeightIsTallest(es, i - 1);
      assert es[..i][..i - 1] == es[..i - 1];
    }
  }

  lemma {:induction false} CursorYMonotone(es: seq<Extents>, i: int, j: int)
    requires 0 <= i <= j <= |es|
    ensures CursorAfter(es[..i]).y <= CursorAfter(es[..j]).y
  {
    if i < j {
      CursorYMonotone(es, i, j - 1);
      assert es[..j][..j - 1] == es[..j - 1];
      RowHeightIsTallest(es, j - 1);
    }
  }

  /** The packing cursor never moves up: later glyphs are never placed
      above earlier ones. */
  lemma YNeverDecreases(es: seq<Extents>, i: int, j: int)
    requires 0 <= i <= j < |es|
    ensures Placement(es, i).y <= Placement(es, j).y
  {
    if i < j {
      assert es[..i + 1][..i] == es[..i];
      CursorYMonotone(es, i + 1, j);
      RowHeightIsTallest(es, j);
    }
  }

  /** A box no wider than the canvas lies within it horizontally. */
  lemma FitsHorizontally(es: seq<Extents>, i: int)
    requires WellFormed(es) && 0 <= i < |es| && BoxWidth(es[i]) <= TEX_SIZE
    ensures 0 <= Placement(es, i).x && Placement(es, i).x + BoxWidth(es[i]) <= TEX_SIZE
    ensures 0 <= Placement(es, i).y
  {
    PackingInvariant(es, i);
  }

  /** The texture rectangle of such a box lies within [0, 1] horizontally
      and at or below 0 vertically, and is never empty. */
  lemma TexRectInRange(es: seq<Extents>, i: int)
    requires WellFormed(es) && 0 <= i < |es| && BoxWidth(es[i]) <= TEX_SIZE
    ensures var b := Boxes(es, |es|)[i]; 0 <= b.tx1 < b.tx2 <= FIXED_ONE && 0 <= b.ty1 < b.ty2
  {
    FitsHorizontally(es, i);
    BoxAt(es, |es|, i);
  }

  /** Every glyph's texture rectangle is non-empty, whatever its width. */
  lemma TexRectNonEmpty(es: seq<Extents>, i: int)
    requires WellFormed(es) && 0 <= i < |es|
    ensures var b := Boxes(es, |es|)[i]; b.tx1 < b.tx2 && b.ty1 < b.ty2
  {
    BoxAt(es, |es|, i);
  }

  /** The wrap rule: glyph `i + 1` starts a new row, one row height below
      glyph `i`, exactly when it would cross the right edge after glyph `i`. */
  lemma WrapRule(es: seq<Extents>, i: int)
    requires 0 <= i < |es| - 1
    ensures var p, q := Placement(es, i), Placement(es, i + 1);
            var h := CursorAfter(es[..i + 1]).rowHeight;
            if p.x + BoxWidth(es[i]) + BoxWidth(es[i + 1]) > TEX_SIZE
            then q == Pos(0, p.y + h)
            else q == Pos(p.x + BoxWidth(es[i]), p.y)
  {
    assert es[..i + 1][..i] == es[..i];
  }

  /** There is no check against the bottom of the canvas: three glyphs wider
      than half the canvas take three rows, and the third one ends below it. */
  lemma NoVerticalBound()
    ensures var es := [Extents(200, 100, 0, 0), Extents(200, 100, 0, 0), Extents(200, 100, 0, 0)];
            Placement(es, 2).y + BoxHeight(es[2]) > TEX_SIZE
  {
    var es := [Extents(200, 100, 0, 0), Extents(200, 100, 0, 0), Extents(200, 100, 0, 0)];
    assert es[..1][..0] == [];
    assert CursorAfter(es[..1]) == Cursor(208, 0, 108);
    assert es[..2][..1] == es[..1];
    assert CursorAfter(es[..2]) == Cursor(208, 108, 108);
  }

  /** The largest ascent is at least 0 and every glyph's ascent, and it is
      0 or the ascent of some glyph. */
  lemma {:induction false} MaxYOffIsMaximum(es: seq<Extents>)
    ensures MaxYOff(es) >= 0
    ensures forall k :: 0 <= k < |es| ==> -es[k].yBearing <= MaxYOff(es)
    ensures MaxYOff(es) == 0 || exists k :: 0 <= k < |es| && -es[k].yBearing == MaxYOff(es)
  {
    if es != [] {
      var init := es[..|es| - 1];
      MaxYOffIsMaximum(init);
      assert forall k :: 0 <= k < |init| ==> init[k] == es[k];
    }
  }
}
