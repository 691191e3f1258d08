/** Conversion of the atlas canvas from the rasteriser's premultiplied
    ARGB32 format to the straight-alpha RGBA8888 layout the texture upload
    expects (tdnumber.c, td_number_init, the loop after drawing).

    An ARGB32 pixel is one native 32-bit word with alpha in the top byte.
    This model takes a little-endian host, so the four bytes of a pixel in
    memory are B, G, R, A; the conversion rewrites them as R, G, B, A with
    each colour channel divided by alpha. Each row of the canvas occupies
    `stride` bytes, of which the first TEX_SIZE * 4 hold pixels. */
module Pixels {
  import opened Atlas

  newtype byte = b: int | 0 <= b < 256

  /** Bytes of pixel data in one canvas row. */
  const ROW_BYTES: int := TEX_SIZE * 4

  /** A store of a non-negative int into an unsigned char: the value
      modulo 256. */
  function StoreByte(x: int): (b: byte)
    ensures 0 <= x < 256 ==> b as int == x
  {
    (x % 256) as byte
  }

  /** One straight channel from a premultiplied one: channel * 255 / alpha by
      integer division, stored into a byte. */
  function Unpremultiply(c: byte, alpha: byte): byte
    requires alpha != 0
  {
    StoreByte(c as int * 255 / alpha as int)
  }

  /** One pixel: the four bytes B, G, R, A in memory become R, G, B, A; a
      fully transparent pixel becomes four zero bytes. Alpha is kept. */
  function ConvertPixel(b: byte, g: byte, r: byte, alpha: byte): (q: seq<byte>)
    ensures |q| == 4 && q[3] == alpha
  {
    if alpha == 0 then [0, 0, 0, 0]
    else [Unpremultiply(r, alpha), Unpremultiply(g, alpha), Unpremultiply(b, alpha), alpha]
  }

  /** Straight alpha to premultiplied, with truncating division: the
      reference inverse of Unpremultiply. */
  function Premultiply(c: byte, alpha: byte): (r: byte)
    ensures r <= alpha
  {
    assert c as int * alpha as int <= 255 * alpha as int;
    (c as int * alpha as int / 255) as byte
  }

  lemma MulNonneg(a: int, b: int)
    requires a >= 0 && b >= 0
    ensures a * b >= 0
  {
  }

  /** Where row `row` starts in a canvas whose rows are `stride` bytes
      apart: `row` strides from the first byte. */
  function RowStart(stride: int, row: nat): int
  {
    if row == 0 then 0 else RowStart(stride, row - 1) + stride
  }

  /** A later row starts at least one stride further on. */
  lemma {:induction false} RowStartMono(stride: int, row: nat, r: nat)
    requires stride >= 0 && row < r
    ensures RowStart(stride, row) + stride <= RowStart(stride, r)
    decreases r
  {
    if r > row + 1 {
      RowStartMono(stride, row, r - 1);
    }
  }

  /** `rows` rows take `rows * stride` bytes. */
  lemma {:induction false} RowsSize(stride: int, rows: nat)
    ensures RowStart(stride, rows) == rows * stride
  {
    if rows > 0 {
      RowsSize(stride, rows - 1);
    }
  }

  /** Row `row` of a canvas of TEX_SIZE rows lies inside the canvas. */
  lemma RowInCanvas(stride: int, row: nat)
    requires 0 <= row < TEX_SIZE && stride >= 0
    ensures 0 <= RowStart(stride, row) && RowStart(stride, row) + stride <= 256 * stride
  {
    if row > 0 {
      RowStartMono(stride, 0, row);
    }
    RowStartMono(stride, row, TEX_SIZE);
    RowsSize(stride, TEX_SIZE);
  }

  /** The row above the one starting at `p > 0` starts one stride
      earlier, inside the canvas. */
  lemma RowAbove(stride: int, row: nat, p: int)
    requires stride >= 0 && row <= TEX_SIZE && p == RowStart(stride, row) && p > 0
    ensures row > 0 && RowStart(stride, row - 1) == p - stride
    ensures 0 <= p - stride && p <= 256 * stride
  {
    RowInCanvas(stride, row - 1);
  }

  /** The position of byte `j` of row `row` in a canvas whose rows are
      `stride` bytes apart; the rest of that row lies inside the canvas. */
  function Offset(stride: int, row: int, j: int): (k: int)
    requires 0 <= row < TEX_SIZE && 0 <= j < stride
    ensures 0 <= k && k + (stride - j) <= 256 * stride
  {
    RowInCanvas(stride, row);
    RowStart(stride, row) + j
  }

  /** The converted pixel whose four bytes start at `base`. */
  function PixelAt(s: seq<byte>, base: int): (q: seq<byte>)
    requires 0 <= base && base + 4 <= |s|
    ensures |q| == 4
  {
    ConvertPixel(s[base], s[base + 1], s[base + 2], s[base + 3])
  }

  /** Byte `k` of the canvas `s` once the pixels of the row at `start` are
      converted, for `k` among those pixels. */
  function RowByte(s: seq<byte>, start: int, k: int): byte
    requires 0 <= start <= k && start + ROW_BYTES <= |s| && k < start + ROW_BYTES
  {
    PixelAt(s, k - (k - start) % 4)[(k - start) % 4]
  }

  /** Byte `j` of row `row` of the canvas `s` once converted: among the
      row's pixels, as RowByte says; in the padding after them, the byte as
      it was. */
  function Converted(s: seq<byte>, stride: int, row: int, j: int): byte
    requires stride >= ROW_BYTES && |s| == 256 * stride
    requires 0 <= row < TEX_SIZE && 0 <= j < stride
  {
    if j < ROW_BYTES then RowByte(s, Offset(stride, row, 0), Offset(stride, row, j))
    else s[Offset(stride, row, j)]
  }

  /** The four bytes of pixel `col` of row `row` of the converted canvas
      are the converted original pixel. */
  lemma ConvertedPixel(s: seq<byte>, stride: int, row: int, col: int, c: int)
    requires stride >= ROW_BYTES && |s| == 256 * stride
    requires 0 <= row < TEX_SIZE && 0 <= col < TEX_SIZE && 0 <= c < 4
    ensures var base := Offset(stride, row, 4 * col);
            Converted(s, stride, row, 4 * col + c)
            == ConvertPixel(s[base], s[base + 1], s[base + 2], s[base + 3])[c]
  {
    var start := Offset(stride, row, 0);
    var k := Offset(stride, row, 4 * col + c);
    assert k - start == 4 * col + c;
    assert (k - start) % 4 == c;
  }

  /** A converted row depends only on that row's bytes. */
  lemma RowByteAgrees(a: seq<byte>, b: seq<byte>, start: int, k: int)
    requires 0 <= start <= k && start + ROW_BYTES <= |a| && start + ROW_BYTES <= |b| && k < start + ROW_BYTES
    requires forall i | start <= i < start + ROW_BYTES :: a[i] == b[i]
    ensures RowByte(a, start, k) == RowByte(b, start, k)
  {
    var base := k - (k - start) % 4;
    assert a[base] == b[base] && a[base + 1] == b[base + 1];
    assert a[base + 2] == b[base + 2] && a[base + 3] == b[base + 3];
  }

  /** The stride padding after each row's pixels is kept. */
  lemma PaddingKept(s: seq<byte>, stride: int, row: int, j: int)
    requires stride >= ROW_BYTES && |s| == 256 * stride
    requires 0 <= row < TEX_SIZE && ROW_BYTES <= j < stride
    ensures Converted(s, stride, row, j) == s[Offset(stride, row, j)]
  {
  }

  /** Alpha is preserved, a transparent pixel becomes zero, and otherwise
      each channel is channel * 255 / alpha, which fits a byte without
      wrapping whenever the premultiplied channel is at most alpha. */
  lemma ConvertPixelChannels(b: byte, g: byte, r: byte, alpha: byte)
    ensures var q := ConvertPixel(b, g, r, alpha);
            && q[3] == alpha
            && (alpha == 0 ==> q == [0, 0, 0, 0])
            && (alpha != 0 && b <= alpha && g <= alpha && r <= alpha ==>
                  && q[0] as int == r as int * 255 / alpha as int
                  && q[1] as int == g as int * 255 / alpha as int
                  && q[2] as int == b as int * 255 / alpha as int)
  {
    if alpha != 0 && b <= alpha && g <= alpha && r <= alpha {
      NoWrap(b, alpha);
      NoWrap(g, alpha);
      NoWrap(r, alpha);
    }
  }

  /** A quotient of at most 255 * a by a is at most 255. */
  lemma QuotientAtMost255(n: int, a: int)
    requires a > 0 && 0 <= n <= 255 * a
    ensures 0 <= n / a <= 255
  {
    var q := n / a;
    if q > 255 {
      MulAtLeast(a, q, 256);
    }
  }

  /** Multiplying by a factor of at least m gives at least m times. */
  lemma MulAtLeast(a: int, q: int, m: int)
    requires a >= 0 && q >= m
    ensures a * q >= a * m
  {
    MulNonneg(a, q - m);
    assert a * (q - m) == a * q - a * m;
  }

  /** A premultiplied channel no larger than alpha unpremultiplies to at
      most 255, so the store into a byte does not wrap. */
  lemma NoWrap(c: byte, alpha: byte)
    requires alpha != 0 && c <= alpha
    ensures c as int * 255 / alpha as int <= 255
    ensures Unpremultiply(c, alpha) as int == c as int * 255 / alpha as int
  {
    var a, n := alpha as int, c as int * 255;
    QuotientAtMost255(n, a);
  }

  /** Premultiplying and then unpremultiplying never overshoots the straight
      channel, loses less than 255 / alpha + 1, and is exact at full opacity. */
  lemma RoundTrip(c: byte, alpha: byte)
    requires alpha != 0
    ensures var u := Unpremultiply(Premultiply(c, alpha), alpha);
            && u <= c
            && (c as int - u as int) * alpha as int < 255 + alpha as int
            && (alpha == 255 ==> u == c)
  {
    var a := alpha as int;
    var pm := Premultiply(c, alpha);
    var q := pm as int;
    NoWrap(pm, alpha);
    var u := q * 255 / a;
    // 255 q <= c a < 255 q + 255 and a u <= 255 q < a u + a
    assert 255 * q <= c as int * a < 255 * q + 255;
    assert a * u <= 255 * q < a * u + a;
    if u > c as int {
      MulNonneg(a, u - c as int - 1);
      assert false;
    }
    assert (c as int - u) * a == c as int * a - a * u;
  }

  /** `after` is `before` with the pixel at `p` converted and every other
      byte kept. */
  ghost predicate PixelConverted(before: seq<byte>, after: seq<byte>, p: int)
    requires 0 <= p && p + 4 <= |before|
  {
    && |after| == |before|
    && (forall k | p <= k < p + 4 :: after[k] == PixelAt(before, p)[k - p])
    && (forall k {:trigger after[k]} | 0 <= k < |after| && !(p <= k < p + 4) :: after[k] == before[k])
  }

  /** `after` is `orig` with the pixels of the row at `start` converted from
      byte `p` to the end of the row's pixels, and every other byte kept. */
  ghost predicate RowConvertedFrom(orig: seq<byte>, after: seq<byte>, start: int, p: int)
    requires 0 <= start <= p <= start + ROW_BYTES <= |orig|
  {
    && |after| == |orig|
    && (forall k | p <= k < start + ROW_BYTES :: after[k] == RowByte(orig, start, k))
    && (forall k {:trigger after[k]} | 0 <= k < |after| && !(p <= k < start + ROW_BYTES) :: after[k] == orig[k])
  }

  /** `after` is the canvas `orig` with rows `row` to the last converted and
      the bytes before row `row` kept. */
  ghost predicate RowsConvertedFrom(orig: seq<byte>, after: seq<byte>, stride: int, row: nat)
    requires stride >= ROW_BYTES && |orig| == 256 * stride && row <= TEX_SIZE
  {
    && |after| == |orig|
    && (forall r, j {:trigger Converted(orig, stride, r, j)} | row <= r < TEX_SIZE && 0 <= j < stride ::
          after[Offset(stride, r, j)] == Converted(orig, stride, r, j))
    && (forall k {:trigger after[k]} | 0 <= k < RowStart(stride, row) && k < |orig| :: after[k] == orig[k])
  }

  /** `after` is the whole canvas `orig` converted. */
  ghost predicate Unpremultiplied(orig: seq<byte>, after: seq<byte>, stride: int)
    requires stride >= ROW_BYTES && |orig| == 256 * stride
  {
    && |after| == |orig|
    && forall row, j {:trigger Converted(orig, stride, row, j)} | 0 <= row < TEX_SIZE && 0 <= j < stride ::
         after[Offset(stride, row, j)] == Converted(orig, stride, row, j)
  }

  /** Once the first row is converted, the whole canvas is. */
  lemma AllRows(orig: seq<byte>, after: seq<byte>, stride: int, row: nat)
    requires stride >= ROW_BYTES && |orig| == 256 * stride && row <= TEX_SIZE
    requires RowStart(stride, row) <= 0
    requires RowsConvertedFrom(orig, after, stride, row)
    ensures Unpremultiplied(orig, after, stride)
  {
    if row > 0 {
      RowStartMono(stride, 0, row);
    }
  }

  /** Byte `k` of a row lies in the pixel at `p` when `p` is a pixel
      boundary of that row and `k` is one of the pixel's four bytes. */
  lemma SamePixel(start: int, p: int, k: int)
    requires (p - start) % 4 == 0 && p <= k < p + 4
    ensures (k - start) % 4 == k - p
  {
  }

  /** One more pixel converted, the one just in front of byte `next`, where
      the converted part of the row begins. */
  lemma PixelStep(orig: seq<byte>, before: seq<byte>, after: seq<byte>, start: int, next: int)
    requires 0 <= start && start + 4 <= next <= start + ROW_BYTES <= |orig| && (next - start) % 4 == 0
    requires RowConvertedFrom(orig, before, start, next)
    requires PixelConverted(before, after, next - 4)
    ensures RowConvertedFrom(orig, after, start, next - 4)
  {
    var p := next - 4;
    assert before[p] == orig[p] && before[p + 1] == orig[p + 1];
    assert before[p + 2] == orig[p + 2] && before[p + 3] == orig[p + 3];
    assert PixelAt(before, p) == PixelAt(orig, p);
    forall k | p <= k < next
      ensures after[k] == RowByte(orig, start, k)
    {
      SamePixel(start, p, k);
    }
  }

  /** Byte `j` of the row just converted: `after` holds the conversion of
      the row's bytes of `before`, which are those of `orig`. */
  lemma ThisRow(orig: seq<byte>, before: seq<byte>, after: seq<byte>, stride: int, row: nat, j: int)
    requires stride >= ROW_BYTES && |orig| == 256 * stride && row < TEX_SIZE && 0 <= j < stride
    requires |before| == |orig|
    requires forall i | Offset(stride, row, 0) <= i < Offset(stride, row, 0) + stride :: before[i] == orig[i]
    requires RowConvertedFrom(before, after, Offset(stride, row, 0), Offset(stride, row, 0))
    ensures after[Offset(stride, row, j)] == Converted(orig, stride, row, j)
  {
    var start, k := Offset(stride, row, 0), Offset(stride, row, j);
    if j < ROW_BYTES {
      RowByteAgrees(before, orig, start, k);
    } else {
      assert after[k] == before[k];
    }
  }

  /** One more row converted, the one just above row `above`, where the
      converted part of the canvas begins. */
  lemma RowStep(orig: seq<byte>, before: seq<byte>, after: seq<byte>, stride: int, above: nat, start: int)
    requires stride >= ROW_BYTES && |orig| == 256 * stride && 0 < above <= TEX_SIZE
    requires start == RowStart(stride, above - 1) && 0 <= start && start + stride <= |orig|
    requires RowsConvertedFrom(orig, before, stride, above)
    requires RowConvertedFrom(before, after, start, start)
    ensures RowsConvertedFrom(orig, after, stride, above - 1)
  {
    var row := above - 1;
    assert RowStart(stride, above) == start + stride;
    assert Offset(stride, row, 0) == start;
    forall r, j | row <= r < TEX_SIZE && 0 <= j < stride
      ensures after[Offset(stride, r, j)] == Converted(orig, stride, r, j)
    {
      if r == row {
        ThisRow(orig, before, after, stride, row, j);
      } else {
        RowStartMono(stride, row, r);
        var k := Offset(stride, r, j);
        assert after[k] == before[k];
      }
    }
  }
}

module Canvas {
  import opened Atlas
  import opened Pixels

  /** The conversion loop: rows from the last to the first, and in each row
      the padding skipped and then the pixels converted by
      UnpremultiplyRow. The canvas holds TEX_SIZE rows of `stride` bytes
      each; the size is written `256 * stride` with the literal so that it
      stays linear arithmetic for the verifier. */
  method UnpremultiplyCanvas(data: array<byte>, stride: int)
    requires stride >= ROW_BYTES && data.Length == 256 * stride
    modifies data
    ensures Unpremultiplied(old(data[..]), data[..], stride)
  {
    ghost var orig := data[..];
    var p := 256 * stride;
    ghost var row: nat := TEX_SIZE;
    RowsSize(stride, TEX_SIZE);
    while p > 0
      invariant row <= TEX_SIZE && p == RowStart(stride, row)
      invariant RowsConvertedFrom(orig, data[..], stride, row)
    {
      p := UnpremultiplyRowAbove(data, stride, orig, row, p);
      row := row - 1;
    }
    AllRows(orig, data[..], stride, row);
  }

  /** One turn of the row loop: `p` is where row `row` starts, and the row
      above it has its padding skipped and its pixels converted. Returns
      where that row starts. */
  method UnpremultiplyRowAbove(data: array<byte>, stride: int, ghost orig: seq<byte>, ghost row: nat, p: int)
    returns (q: int)
    requires stride >= ROW_BYTES && data.Length == 256 * stride && |orig| == data.Length
    requires row <= TEX_SIZE && p == RowStart(stride, row) && p > 0
    requires RowsConvertedFrom(orig, data[..], stride, row)
    modifies data
    ensures row > 0 && q == RowStart(stride, row - 1)
    ensures RowsConvertedFrom(orig, data[..], stride, row - 1)
  {
    ghost var before := data[..];
    RowAbove(stride, row, p);
    q := p - (stride - ROW_BYTES);
    var start := q - ROW_BYTES;
    UnpremultiplyRow(data, start);
    RowStep(orig, before, data[..], stride, row, start);
    q := start;
  }

  /** The pixels of the row at `start`, from the last to the first. */
  method UnpremultiplyRow(data: array<byte>, start: int)
    requires 0 <= start && start + ROW_BYTES <= data.Length
    modifies data
    ensures RowConvertedFrom(old(data[..]), data[..], start, start)
  {
    ghost var orig := data[..];
    var p := start + ROW_BYTES;
    var i := 0;
    while i < TEX_SIZE
      invariant 0 <= i <= TEX_SIZE && p == start + ROW_BYTES - 4 * i
      invariant RowConvertedFrom(orig, data[..], start, p)
    {
      ghost var before := data[..];
      ghost var next := p;
      p := p - 4;
      UnpremultiplyPixel(data, p);
      PixelStep(orig, before, data[..], start, next);
      i := i + 1;
    }
  }

  /** The body of the pixel loop: the pixel at `p` read as B, G, R, A and
      rewritten as R, G, B, A with the colours divided by alpha, or cleared
      when alpha is 0. */
  method UnpremultiplyPixel(data: array<byte>, p: int)
    requires 0 <= p && p + 4 <= data.Length
    modifies data
    ensures PixelConverted(old(data[..]), data[..], p)
  {
    var b0, b1, b2, alpha := data[p], data[p + 1], data[p + 2], data[p + 3];
    if alpha == 0 {
      data[p], data[p + 1], data[p + 2], data[p + 3] := 0, 0, 0, 0;
    } else {
      data[p] := Unpremultiply(b2, alpha);
      data[p + 1] := Unpremultiply(b1, alpha);
      data[p + 2] := Unpremultiply(b0, alpha);
      data[p + 3] := alpha;
    }
  }
}
