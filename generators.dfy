/**
 * `generate_color_image` and `generate_color_imagea`: freshly allocated RGBA
 * buffers (four bytes per pixel, rows of `width * 4` bytes) filled in place.
 */
module Generators {
  import opened PackedColor
  import opened PixelBuffer

  /** Byte `c` (0 red, 1 green, 2 blue, 3 alpha) of an RGBA pixel. */
  function ChannelByte(c: nat, r: byte, g: byte, b: byte, a: byte): byte
    requires c < 4
  {
    if c == 0 then r else if c == 1 then g else if c == 2 then b else a
  }

  /**
   * The border test of the bordered fill. The far edges use `- margin - 1`,
   * so they reach one row and one column further than the near edges: the
   * pixels left opaque are those at least `margin` from the near edges and
   * more than `margin` from the far ones.
   */
  predicate InBorder(x: int, y: int, width: int, height: int, margin: int): (b: bool)
    ensures !b <==> margin <= x && x + margin + 1 < width && margin <= y && y + margin + 1 < height
  {
    y < margin || y >= height - margin - 1 || x < margin || x >= width - margin - 1
  }

  function BorderAlpha(x: int, y: int, width: int, height: int, margin: int): byte {
    if InBorder(x, y, width, height, margin) then 0x00 else 0xFF
  }

  /** A row of `width` pixels, all `r, g, b, a`. */
  function UniformRow(width: nat, r: byte, g: byte, b: byte, a: byte): seq<byte> {
    seq(4 * width, i => ChannelByte(i % 4, r, g, b, a))
  }

  /** Row `y` of the bordered image: pixels `r, g, b` with the alpha the border test gives them. */
  function BorderedRow(width: nat, height: nat, margin: int, y: int, r: byte, g: byte, b: byte): seq<byte> {
    seq(4 * width, i => ChannelByte(i % 4, r, g, b, BorderAlpha(i / 4, y, width, height, margin)))
  }

  /** The solid image: every pixel `r, g, b, 0xFF`. */
  function SolidImage(width: nat, height: nat, r: byte, g: byte, b: byte): seq<seq<byte>> {
    seq(height, y => UniformRow(width, r, g, b, 0xFF))
  }

  /** The bordered image: every pixel `r, g, b` with the alpha the border test gives it. */
  function BorderedImage(width: nat, height: nat, margin: int, r: byte, g: byte, b: byte): seq<seq<byte>> {
    seq(height, y => BorderedRow(width, height, margin, y, r, g, b))
  }

  /** Both generated images hold `height` rows of `width` four-byte pixels. */
  lemma ImagesCover(width: nat, height: nat, margin: int, r: byte, g: byte, b: byte)
    ensures Covers(SolidImage(width, height, r, g, b), width, height)
    ensures Covers(BorderedImage(width, height, margin, r, g, b), width, height)
    ensures forall y :: 0 <= y < height ==> SolidImage(width, height, r, g, b)[y] == UniformRow(width, r, g, b, 0xFF)
  {
  }

  /** Pixel `x` of a uniform row is `r, g, b, a`. */
  lemma UniformRowAt(width: nat, r: byte, g: byte, b: byte, a: byte, x: nat)
    requires x < width
    ensures var row := UniformRow(width, r, g, b, a);
      |row| == 4 * width && row[4 * x] == r && row[4 * x + 1] == g && row[4 * x + 2] == b && row[4 * x + 3] == a
  {
    ByteOfPixel(x, 4 * x);
    ByteOfPixel(x, 4 * x + 1);
    ByteOfPixel(x, 4 * x + 2);
    ByteOfPixel(x, 4 * x + 3);
  }

  /** Pixel `x` of row `y` of the solid image is exactly `r, g, b, 0xFF`. */
  lemma SolidPixel(width: nat, height: nat, r: byte, g: byte, b: byte, x: nat, y: nat)
    requires x < width && y < height
    ensures var img := SolidImage(width, height, r, g, b);
      |img| == height && |img[y]| == 4 * width &&
      img[y][4 * x .. 4 * x + 4] == [r, g, b, 0xFF]
  {
    var row := SolidImage(width, height, r, g, b)[y];
    assert row[4 * x] == r && row[4 * x + 1] == g && row[4 * x + 2] == b && row[4 * x + 3] == 0xFF;
  }

  /**
   * Pixel `x` of row `y` of the bordered image is `r, g, b` followed by
   * `0x00` when the pixel is in the border and `0xFF` when it is not.
   */
  lemma BorderedPixel(width: nat, height: nat, margin: int, r: byte, g: byte, b: byte, x: nat, y: nat)
    requires x < width && y < height
    ensures var img := BorderedImage(width, height, margin, r, g, b);
      |img| == height && |img[y]| == 4 * width &&
      img[y][4 * x .. 4 * x + 4] ==
        [r, g, b, if InBorder(x, y, width, height, margin) then 0x00 else 0xFF]
  {
    var row := BorderedImage(width, height, margin, r, g, b)[y];
    assert (4 * x + 3) / 4 == x;
    assert row[4 * x] == r && row[4 * x + 1] == g && row[4 * x + 2] == b;
  }

  /** The bordered image differs from the solid one in alpha bytes only. */
  lemma BorderedDiffersOnlyInAlpha(width: nat, height: nat, margin: int, r: byte, g: byte, b: byte)
    ensures var s, t := SolidImage(width, height, r, g, b), BorderedImage(width, height, margin, r, g, b);
      |s| == |t| == height &&
      forall y, i :: 0 <= y < height && 0 <= i < 4 * width ==>
        |s[y]| == |t[y]| == 4 * width &&
        (i % 4 != 3 ==> s[y][i] == t[y][i]) &&
        (i % 4 == 3 ==> t[y][i] == BorderAlpha(i / 4, y, width, height, margin) && s[y][i] == 0xFF)
  {
  }

  /**
   * The asymmetry of the border: the top band is the `margin` rows
   * `0 .. margin - 1`, the bottom band the `margin + 1` rows
   * `height - margin - 1 .. height - 1`; likewise for columns.
   */
  lemma BorderBands(x: int, y: int, width: int, height: int, margin: int)
    ensures InBorder(x, y, width, height, margin) <==>
      y < margin || height - 1 - y <= margin || x < margin || width - 1 - x <= margin
  {
  }

  /**
   * A 4 x 4 image with margin 1: only pixel (1, 1) is opaque. In particular
   * pixel (2, 2) lies in the far border band and is transparent.
   */
  lemma FourByFourMarginOne(r: byte, g: byte, b: byte)
    ensures forall x, y :: 0 <= x < 4 && 0 <= y < 4 ==>
      (BorderAlpha(x, y, 4, 4, 1) == 0xFF <==> x == 1 && y == 1)
    ensures BorderedImage(4, 4, 1, r, g, b)[2][8 .. 12] == [r, g, b, 0x00]
    ensures BorderedImage(4, 4, 1, r, g, b)[0][0 .. 4] == [r, g, b, 0x00]
  {
    BorderedPixel(4, 4, 1, r, g, b, 2, 2);
    BorderedPixel(4, 4, 1, r, g, b, 0, 0);
  }

  /** Allocates `height` distinct fresh rows of `rowbytes` bytes (the first loop of both generators). */
  method AllocateRows(height: nat, rowbytes: nat) returns (rows: array<array?<byte>>)
    ensures fresh(rows) && RowIndirect(rows, height, rowbytes)
    ensures forall y :: 0 <= y < height ==> fresh(rows[y])
  {
    rows := new array?<byte>[height];
    var y := 0;
    while y < height
      invariant 0 <= y <= height
      invariant forall k :: 0 <= k < y ==> rows[k] != null && fresh(rows[k]) && rows[k].Length == rowbytes
      invariant forall k, k' :: 0 <= k < k' < y ==> rows[k] != rows[k']
    {
      rows[y] := new byte[rowbytes];
      y := y + 1;
    }
  }

  /** The inner loop of the solid fill and of the bordered fill on a border row. */
  method FillUniformRow(row: array<byte>, width: nat, r: byte, g: byte, b: byte, a: byte)
    requires row.Length == 4 * width
    modifies row
    ensures row[..] == UniformRow(width, r, g, b, a)
  {
    var x := 0;
    while x < width
      invariant 0 <= x <= width
      invariant forall i :: 0 <= i < 4 * x ==> row[i] == ChannelByte(i % 4, r, g, b, a)
    {
      row[x * 4] := r;
      row[x * 4 + 1] := g;
      row[x * 4 + 2] := b;
      row[x * 4 + 3] := a;
      forall i | 4 * x <= i < 4 * x + 4
        ensures i % 4 == i - 4 * x
      {
        ByteOfPixel(x, i);
      }
      x := x + 1;
    }
  }

  /** Byte `i` of a row belongs to pixel `i / 4`, channel `i % 4`. */
  lemma ByteOfPixel(x: nat, i: int)
    requires 4 * x <= i < 4 * x + 4
    ensures i / 4 == x && i % 4 == i - 4 * x
  {
  }

  /** The inner loop of the bordered fill on a row outside the top and bottom bands. */
  method FillBorderedRow(row: array<byte>, width: nat, height: nat, margin: int, y: int, r: byte, g: byte, b: byte)
    requires row.Length == 4 * width
    requires !(y < margin || y >= height - margin - 1)
    modifies row
    ensures row[..] == BorderedRow(width, height, margin, y, r, g, b)
  {
    var x := 0;
    while x < width
      invariant 0 <= x <= width
      invariant forall i :: 0 <= i < 4 * x ==>
        row[i] == ChannelByte(i % 4, r, g, b, BorderAlpha(i / 4, y, width, height, margin))
    {
      row[x * 4] := r;
      row[x * 4 + 1] := g;
      row[x * 4 + 2] := b;
      if x < margin || x >= width - margin - 1 {
        row[x * 4 + 3] := 0x00;
      } else {
        row[x * 4 + 3] := 0xFF;
      }
      forall i | 4 * x <= i < 4 * x + 4
        ensures i / 4 == x && i % 4 == i - 4 * x
      {
        ByteOfPixel(x, i);
      }
      x := x + 1;
    }
  }

  /** On a row of the top or bottom band every pixel is transparent. */
  lemma BandRowIsTransparent(width: nat, height: nat, margin: int, y: int, r: byte, g: byte, b: byte)
    requires y < margin || y >= height - margin - 1
    ensures BorderedRow(width, height, margin, y, r, g, b) == UniformRow(width, r, g, b, 0x00)
  {
  }

  /** `generate_color_image`: every pixel of every row set to `r, g, b, 0xFF`. */
  method GenerateColorImage(width: nat, height: nat, r: byte, g: byte, b: byte)
    returns (rows: array<array?<byte>>)
    ensures fresh(rows) && RowIndirect(rows, height, 4 * width)
    ensures forall y :: 0 <= y < height ==> fresh(rows[y])
    ensures Snapshot(rows, width, height) == SolidImage(width, height, r, g, b)
  {
    var rowbytes := width * 4;
    rows := AllocateRows(height, rowbytes);
    ghost var index := rows[..];
    var y := 0;
    while y < height
      invariant 0 <= y <= height
      invariant rows[..] == index
      invariant forall k :: 0 <= k < height ==> fresh(rows[k]) && rows[k].Length == rowbytes
      invariant forall k :: 0 <= k < y ==> rows[k][..] == UniformRow(width, r, g, b, 0xFF)
    {
      FillUniformRow(rows[y], width, r, g, b, 0xFF);
      y := y + 1;
    }
  }

  /**
   * `generate_color_imagea`: every pixel `r, g, b`; alpha `0x00` on whole
   * rows that pass the row test and, on the other rows, on the pixels that
   * pass the column test; `0xFF` everywhere else.
   */
  method GenerateColorImageA(width: nat, height: nat, margin: int, r: byte, g: byte, b: byte)
    returns (rows: array<array?<byte>>)
    ensures fresh(rows) && RowIndirect(rows, height, 4 * width)
    ensures forall y :: 0 <= y < height ==> fresh(rows[y])
    ensures Snapshot(rows, width, height) == BorderedImage(width, height, margin, r, g, b)
  {
    var rowbytes := width * 4;
    rows := AllocateRows(height, rowbytes);
    ghost var index := rows[..];
    var y := 0;
    while y < height
      invariant 0 <= y <= height
      invariant rows[..] == index
      invariant forall k :: 0 <= k < height ==> fresh(rows[k]) && rows[k].Length == rowbytes
      invariant forall k :: 0 <= k < y ==> rows[k][..] == BorderedRow(width, height, margin, k, r, g, b)
    {
      if y < margin || y >= height - margin - 1 {
        FillUniformRow(rows[y], width, r, g, b, 0x00);
        BandRowIsTransparent(width, height, margin, y, r, g, b);
      } else {
        FillBorderedRow(rows[y], width, height, margin, y, r, g, b);
      }
      y := y + 1;
    }
  }
}
