# tractordodge digit label and corner layout, modelled in Dafny

tractordodge is a small Clutter game. The repository defines two Clutter
actors: `TDNumber`, which draws an integer from a texture atlas of the ten
digit glyphs, and `TDCornerLayout`, a container that holds a single child in
its top-right corner. The game loop in tractordodge.c does not use either of
them yet. This project models both actors and proves what they promise.

- `atlas.dfy` (module `Atlas`): the metric and shelf-packing loop of
  `td_number_init`. Each glyph's integer text extents become a padded box, an
  advance, an ascent and a texture rectangle in 16.16 fixed point. Boxes go
  left to right and wrap to a new row when they would cross the 256-pixel
  edge. The row height is never reset. The largest ascent is accumulated and
  then padded by `GAP / 2`. Lemmas cover non-overlap, the wrap rule, the
  row-height rule, monotone rows, the missing bottom check and the ascent
  maximum.
- `pixels.dfy` (modules `Pixels` and `Canvas`): the in-place conversion of the
  premultiplied ARGB32 canvas to straight-alpha RGBA8888. Rows go from last
  to first, walking over the stride padding. Pixels in each row go from last
  to first; a zero-alpha pixel becomes four zero bytes, and otherwise each
  colour is `c * 255 / a`, stored into a byte. The four methods keep the
  source's `array` and pointer walk. They are proved against the pointwise
  specification `Converted` of the whole canvas.
- `decimal.dfy` (module `Decimal`): the digit buffer of `set_value`. It
  covers `g_snprintf (digits, 16, "%i", value)` as a character loop, and the
  two-pointer do-while filter that keeps only digits and the terminator.
  Lemmas show that the buffer then holds the numeral of `|value|`, that a
  32-bit value never needs more than 10 digits and that the numeral reads
  back as the number.
- `number.dfy` (module `NumberLabel`): class `Number`, the actor with its
  fields `value`, `digits` (a 16-character array), `boxes`, `maxAscent` and
  the texture-handle flag. Its methods are init, set/get value, paint,
  preferred width and height, and dispose. Each loop over the digit string
  is proved against a recursive specification function (`Quads`,
  `Advances`, `MaxBottom`). Every `boxes[c - '0']` access is proved in range
  from the class invariant. The changed-value branch of set_value is the
  method `ChangeValue`, and its two buffer steps are `Decimal.FormatDigits`.
- `corner.dfy` (module `Corner`): class `CornerLayout` with its one child
  slot, plus the parts of a child `Actor` it touches: visibility, parent,
  natural size and allocation.

`row_height` is never reset when packing wraps to a new row
(tdnumber.c:134-138, 165-166), so each row is as tall as the tallest glyph
placed so far (`Atlas.Step`, `Atlas.RowHeightIsTallest`).

## Model

| member | source | states |
|---|---|---|
| Atlas.BoxWidth | tdnumber.c:126 | A glyph's padded width: its extent width plus GAP. |
| Atlas.BoxHeight | tdnumber.c:127 | A glyph's padded height: its extent height plus GAP. |
| Atlas.Origin | tdnumber.c:134-138 | Where a box of width `w` goes from the cursor: at the cursor, or at `x = 0` one row height lower when `x + w` would pass 256. |
| Atlas.Step | tdnumber.c:134-168 | The cursor after one glyph: just right of the placed box on its row, with the row height the larger of the old row height and the box height. |
| Atlas.CursorAfter | tdnumber.c:118-168 | The loop's `(xpos, ypos, row_height)` after the first `i` glyphs: `(0, 0, 0)` for none, then one `Step` per glyph in table order. |
| Atlas.Placement | tdnumber.c:134-146 | The packed position of glyph `i`: `Origin` of the cursor left by the earlier glyphs, for glyph `i`'s padded width. This is the `(xpos, ypos)` its texture rectangle is taken from. |
| Atlas.TexCoord | tdnumber.c:140-150 | A pixel distance as a 16.16 fraction of the 256-pixel side. The quotient is exact: `t * 256 == px * 65536`. |
| Atlas.MakeBox | tdnumber.c:126-150 | The table entry of a glyph placed at `p`: width and height plus GAP, advance plus 2, `y_off = -y_bearing`, and the texture rectangle from `p` spanning the padded size. |
| Atlas.Boxes | tdnumber.c:118-150 | The first `n` table entries, `n` of them, each `MakeBox` of its glyph at its packed placement. |
| Atlas.MaxYOff | tdnumber.c:129-132 | The running maximum of `-y_bearing` over the glyphs, starting from 0. |
| Atlas.PackGlyphs | tdnumber.c:118-171 | The loop builds exactly the metrics table `Boxes(extents, 10)`. `maxAscent` is the largest `-y_bearing` (from 0) plus `GAP / 2`. |
| Atlas.BoxAt | tdnumber.c:122-150 | Entry `i` is glyph `i`'s box: width/height plus GAP, advance plus 2, `y_off = -y_bearing`. Its texture rectangle starts at the glyph's packed position and spans its size, each divided by 256 in 16.16 fixed point. |
| Atlas.PackingInvariant | tdnumber.c:134-168 | After `i` glyphs, each placed box is either on the cursor's row and left of the cursor, or entirely above that row. The row height covers every box so far. |
| Atlas.NoOverlap | tdnumber.c:134-168 | Two distinct glyphs' packed boxes share no pixel, given non-negative extents. |
| Atlas.TexRectsDisjoint | tdnumber.c:140-150 | Two distinct glyphs' texture rectangles in the table do not overlap, given non-negative extents. |
| Atlas.RowHeightIsTallest | tdnumber.c:165-166 | The row height is at least 0 and at least every box placed so far. It is 0 or one of those heights, so it is never reset on a wrap. |
| Atlas.CursorYMonotone | tdnumber.c:134-138 | The cursor's `ypos` never decreases as glyphs are placed. |
| Atlas.YNeverDecreases | tdnumber.c:134-138 | A later glyph is never placed above an earlier one. |
| Atlas.WrapRule | tdnumber.c:134-168 | The next glyph wraps to `x = 0` and `y + row_height` exactly when it would cross the 256-pixel edge. Otherwise it sits directly right of the previous glyph on the same row. |
| Atlas.FitsHorizontally | tdnumber.c:134-138 | A glyph no wider than the canvas lies within `[0, 256]` horizontally, at `y >= 0`, given non-negative extents. |
| Atlas.TexRectInRange | tdnumber.c:140-150 | Such a glyph's texture rectangle is non-empty, `0 <= tx1 < tx2 <= 1.0` and `0 <= ty1 < ty2` in 16.16 fixed point, given non-negative extents. |
| Atlas.TexRectNonEmpty | tdnumber.c:140-150 | Every glyph's texture rectangle is non-empty, `tx1 < tx2` and `ty1 < ty2`, whatever its width, given non-negative extents. |
| Atlas.NoVerticalBound | tdnumber.c:134-138 | Nothing checks the bottom edge: three 200-pixel-wide glyphs take three rows, and the third ends below the canvas. |
| Atlas.MaxYOffIsMaximum | tdnumber.c:106-132 | The accumulated ascent is at least 0 and at least every glyph's `y_off`, and it is 0 or one of them. |
| Pixels.StoreByte | tdnumber.c:192-194 | The store into a `guchar` keeps the value modulo 256, so a value in `0..255` is stored unchanged. |
| Pixels.Unpremultiply | tdnumber.c:192-194 | One colour channel: `c * 255 / alpha` by truncating integer division, stored into a byte. |
| Pixels.Converted | tdnumber.c:179-196 | Byte `j` of row `r` once converted: among the row's pixel bytes, that byte of the conversion of the pixel containing it; in the stride padding, the original byte. |
| Pixels.ConvertPixel | tdnumber.c:185-196 | One pixel gives four bytes with alpha kept in the last one. |
| Pixels.ConvertPixelChannels | tdnumber.c:186-196 | Alpha is preserved and zero alpha gives four zero bytes. Otherwise, with channels at most alpha, the bytes are exactly `R*255/a, G*255/a, B*255/a` by integer division. |
| Pixels.NoWrap | tdnumber.c:192-194 | A premultiplied channel no larger than alpha gives at most 255, so the byte store does not wrap. |
| Pixels.RoundTrip | tdnumber.c:186-196 | After the model's truncating premultiply (`c * a / 255`), unpremultiplying never overshoots and loses less than `255/a + 1`. It is exact at alpha 255. A rounding premultiply, such as the rasteriser's, can overshoot: 128 at alpha 1 becomes 1 and comes back as 255. |
| Pixels.ConvertedPixel | tdnumber.c:181-196 | In the converted canvas, byte `c` of pixel `col` of row `r` is byte `c` of the conversion of that pixel's original B, G, R, A bytes. |
| Pixels.PaddingKept | tdnumber.c:179-183 | The stride padding after each row's 1024 pixel bytes is left as it was. |
| Pixels.RowInCanvas | tdnumber.c:179-181 | Each of the 256 rows of `stride` bytes lies inside the `256 * stride`-byte canvas. |
| Canvas.UnpremultiplyCanvas | tdnumber.c:178-198 | The nested stride-walking loop leaves every byte of every row as `Converted` says: each pixel converted once, padding untouched. |
| Canvas.UnpremultiplyRowAbove | tdnumber.c:179-197 | One turn of the row loop: from the start of row `r`, the pointer skips the padding of row `r - 1` and converts its pixels, then stands at the start of row `r - 1`. Rows from `r - 1` on are then converted and the bytes before are unchanged. |
| Canvas.UnpremultiplyRow | tdnumber.c:183-197 | The 256 pixels of one row are converted, last to first, and no other byte changes. |
| Canvas.UnpremultiplyPixel | tdnumber.c:185-196 | One pixel's four bytes are rewritten as its conversion and no other byte changes. |
| Decimal.IsDigit | tdnumber.c:269 | A character is kept by the filter when it lies between `'0'` and `'9'`. |
| Decimal.DigitValue | tdnumber.c:235 | `c - '0'` of a digit character is in `0..9`, and the digit character of that index is `c`. |
| Decimal.NatDigits | tdnumber.c:264 | The numeral of a natural number is non-empty, made of digits only, and has no leading zero unless the number is 0. |
| Decimal.FormatInt | tdnumber.c:264 | The `"%i"` text of `v`: a minus sign and the numeral of `-v` for negative `v`, otherwise the numeral of `v`. |
| Decimal.Formatted | tdnumber.c:264 | The buffer after `g_snprintf`: the first `min(|t|, |buf| - 1)` characters of the text, a NUL, then the rest of the buffer as it was. It has the buffer's length. |
| Decimal.KeepDigits | tdnumber.c:267-271 | The decimal digits of a string, in order. The result is no longer than the string and holds digits only. |
| Decimal.Filtered | tdnumber.c:267-271 | The buffer after the digit filter: the digits of its string, a NUL, then the rest of the buffer as it was. It has the buffer's length. |
| Decimal.CString | tdnumber.c:233 | The string a buffer holds ends at the first NUL and contains none. |
| Decimal.FormatInto | tdnumber.c:264 | `g_snprintf (digits, 16, "%i", v)`: at most 15 characters of the formatted value, a NUL, and the rest of the buffer unchanged. |
| Decimal.FormattedString | tdnumber.c:264 | When the formatted text fits, the buffer's string is exactly that text. |
| Decimal.FilterDigits | tdnumber.c:267-271 | The two-pointer do-while moves the digits of the buffer's string to the front and writes its NUL after them. The rest of the buffer is unchanged. |
| Decimal.FilteredString | tdnumber.c:267-271 | After the filter, the buffer's string is the digits of the old string, in order. |
| Decimal.SignStripped | tdnumber.c:264-271 | Filtering `"%i"` of `v` leaves exactly the numeral of `|v|`: only the minus sign is dropped. |
| Decimal.Int32Fits | tdnumber.c:72 | A 32-bit `int` has at most 10 digits, so `"%i"` needs at most 11 characters and always fits the 16-byte buffer. |
| Decimal.FormatDigits | tdnumber.c:264-271 | Formatting `"%i"` of a 32-bit value into the 16-character buffer and then filtering leaves `Filtered(Formatted(old buffer, "%i" text))`, whose string is the numeral of `|v|`. |
| Decimal.DigitsOfValue | tdnumber.c:264-271 | Formatting and then filtering a 32-bit value leaves the numeral of its magnitude as the buffer's string. |
| Decimal.ParseNatDigits | tdnumber.c:264 | The numeral produced for `n` reads back as `n`. |
| NumberLabel.ToFixed | tdnumber.c:238-244 | An integer pixel count in 16.16 fixed point: `n * 65536`. |
| NumberLabel.GlyphBox | tdnumber.c:235 | The table entry of a digit character: entry `c - '0'`, the lookup `priv->boxes + *p - '0'` also made at tdnumber.c:310 and 332. |
| NumberLabel.GlyphBottom | tdnumber.c:333 | `box_height`: a glyph's bottom edge below the label's top, its height plus `max_ascent` minus its `y_off`. |
| NumberLabel.Advances | tdnumber.c:308-310 | The sum of the digits' glyph advances, taken left to right. |
| NumberLabel.MaxBottom | tdnumber.c:329-336 | The running maximum, from 0, of the digits' `height + max_ascent - y_off`. |
| NumberLabel.GlyphQuad | tdnumber.c:237-245 | The rectangle of one glyph with its left edge at `x`: screen corners `(x, max_ascent - y_off)` and `(x + width, height + max_ascent - y_off)` in 16.16 fixed point, and the glyph's texture rectangle. |
| NumberLabel.Quads | tdnumber.c:233-248 | The rectangles paint draws, one per digit, each `GlyphQuad` at the sum of the earlier advances. There are as many as digits. |
| NumberLabel.AdvancesAppend | tdnumber.c:308-310 | The width of two digit strings side by side is the sum of their widths. |
| NumberLabel.QuadAt | tdnumber.c:233-248 | Quad `i` is digit `i`'s glyph with its left edge at the sum of the advances of the earlier digits. |
| NumberLabel.QuadShape | tdnumber.c:235-245 | Each quad's edges follow from its glyph: `x1` is the running sum of advances and `x2 - x1` the glyph width. `y1` is `max_ascent - y_off` and `y2 - y1` the glyph height. The texture coordinates are the glyph's. |
| NumberLabel.QuadsAdvance | tdnumber.c:247 | The x cursor moves by exactly the glyph's advance from one quad to the next. |
| NumberLabel.WidthEndsAfterLastQuad | tdnumber.c:298-317 | The preferred width is the last quad's left edge plus the last glyph's advance. |
| NumberLabel.MaxBottomIsMaximum | tdnumber.c:326-336 | The preferred height is at least 0 and at least every digit's `height + max_ascent - y_off`. It is 0 or one of those values. |
| NumberLabel.Number.Digits | tdnumber.c:264-271 | Under the actor invariant, the digit string has 1 to 10 characters, all digits, and is the numeral of `|value|`. |
| NumberLabel.Number.constructor | tdnumber.c:90-211 | Init: value 0, digits `"0"`, the metrics table and padded ascent from the extents, the whole canvas converted. The texture is valid exactly when the upload succeeded. |
| NumberLabel.Number.SetValue | tdnumber.c:251-275 | A new value is stored, the buffer is formatted then filtered, and exactly one relayout is queued. The current value changes neither the value, the buffer nor the relayout count. Either way the digits are the numeral of `|v|`. |
| NumberLabel.Number.ChangeValue | tdnumber.c:261-274 | With a value different from the current one: the value is stored, the buffer becomes `Filtered(Formatted(...))` of its `"%i"` text, one relayout is queued, and the invariant holds. |
| NumberLabel.Number.GetValue | tdnumber.c:277-283 | Returns the stored value. |
| NumberLabel.SetThenGet | tdnumber.c:261-282 | `get_value` after `set_value (v)` returns `v`. |
| NumberLabel.Number.Paint | tdnumber.c:219-249 | Without a valid texture nothing is drawn. Otherwise exactly `Quads` of the digit string: one quad per digit, left to right. |
| NumberLabel.Number.PreferredWidth | tdnumber.c:298-317 | The sum of the digits' advances, left to right. |
| NumberLabel.Number.PreferredHeight | tdnumber.c:319-343 | The largest `height + max_ascent - y_off` over the digits, starting from 0. |
| NumberLabel.Number.Dispose | tdnumber.c:285-296 | A valid texture is released once and the handle becomes invalid. A second dispose releases nothing. |
| Corner.ChildBox | tdcornerlayout.c:137-140 | The child's box has its natural width and height, top edge 0, and its right edge on the container's right edge. |
| Corner.CornerLayout.constructor | tdcornerlayout.c:170-176 | The child slot starts empty. |
| Corner.CornerLayout.Add | tdcornerlayout.c:48-67 | An empty slot takes the actor, parents it and queues one relayout. A full slot only warns: the existing child and the actor are unchanged. |
| Corner.CornerLayout.Remove | tdcornerlayout.c:69-81 | Removing the child empties the slot and unparents it. Removing any other actor changes nothing. |
| Corner.CornerLayout.Foreach | tdcornerlayout.c:83-92 | The callback runs exactly once, on the child, when there is one, and never otherwise. |
| Corner.CornerLayout.Dispose | tdcornerlayout.c:102-112 | Afterwards the slot is empty and the former child is unparented. Its visibility, allocation and natural size are unchanged. |
| Corner.CornerLayout.Allocate | tdcornerlayout.c:114-144 | The container keeps its own box. The child, if any, gets `ChildBox` of that box at its natural size, and nothing else about it changes. |
| Corner.CornerLayout.Paint | tdcornerlayout.c:146-154 | The child is painted exactly when it exists and is visible. |
| Corner.AddThenRemove | tdcornerlayout.c:55-80 | Adding to an empty layout and removing the same actor leaves it empty, with the actor unparented and one relayout queued. |

## Left out

- Cairo rasterisation (tdnumber.c:108-117, 124, 152-163, 173, 175-176, 210). The glyph extents are integer inputs to the constructor. The drawn pixels are an arbitrary initial canvas passed in, with its stride. The inputs are Cairo's extents already truncated to `int`. The source truncates `extents.width + GAP`, `extents.height + GAP`, `extents.x_advance + 2` and `-extents.y_bearing` (tdnumber.c:126-129). Truncating after adding a positive constant equals adding it after truncating only for non-negative width, height and advance, which Cairo reports for these glyphs. Negation commutes with truncation toward zero, so `y_off` is exact.
- Cogl calls. The texture upload (tdnumber.c:201-208) is a constructor parameter saying whether it produced a valid handle. `cogl_texture_rectangle` (tdnumber.c:237-245) is modelled as the returned quad sequence. `cogl_color` is left out. `cogl_texture_unref` (tdnumber.c:293) is a counter.
- `CFX_QDIV` and `CLUTTER_INT_TO_FIXED` are not visible here. They are modelled as exact 16.16 fixed point: `x * 65536`, and `x * 65536 / 256`, which is exact because 256 divides 65536. 32-bit overflow of these products is not modelled.
- Integer width. Sums of advances, heights and cursor positions are unbounded integers. Overflow cannot happen for realistic glyph metrics but is not excluded by the model.
- `CLUTTER_UNITS_FROM_DEVICE` (tdnumber.c:312-316, 338-342): the preferred sizes are returned in device pixels. The optional out-pointers and the `for_height`/`for_width` arguments are left out.
- `clutter_actor_queue_relayout`, `clutter_actor_set_parent`/`unparent`, `clutter_actor_allocate`, `clutter_actor_paint` and `g_warning` become counters, the `parent` field, the `allocation` field and the returned painted actor. Their own effects inside Clutter are not modelled, and neither is the `origin_changed` flag. In particular `clutter_actor_set_parent` refuses an actor that already has a parent, but `Corner.CornerLayout.Add` parents the actor unconditionally. So adding an actor that another layout holds breaks that other layout's `Valid()`.
- GObject boilerplate: type registration, class_init, private-struct macros, `g_return_if_fail`, parent-class dispose chaining, `td_number_new` and `td_corner_layout_new`. The headers tdnumber.h and tdcornerlayout.h only declare these.
- tractordodge.c (the game loop, stage setup, model loading, random tractor spawning and timelines) is not part of this model.
- Canvas.UnpremultiplyCanvas: the ARGB32 word is read as a little-endian host would lay it out (B, G, R, A in memory). A big-endian host is not modelled. The body of the row loop, the inner pixel loop and the per-pixel body are written as the helper methods `Canvas.UnpremultiplyRowAbove`, `Canvas.UnpremultiplyRow` and `Canvas.UnpremultiplyPixel`.
- Decimal.FormatInto: models only the `"%i"` conversion of `g_snprintf`, as the digits of the magnitude after an optional minus sign.
- NumberLabel.Number.SetValue: requires a value in the 32-bit `int` range, which is the type of the C parameter.
