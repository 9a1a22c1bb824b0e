/**
 * What the PPM writers make of the generated images: the solid image is
 * `width * height` copies of its colour, and the bordered image, whose
 * border lives only in the alpha bytes, is written exactly like the solid
 * one, since neither PPM variant stores alpha.
 */
module ImageFiles {
  import opened PackedColor
  import opened Generators
  import opened PpmFormat

  /** Every pixel of a solid row reads back as the row's colour. */
  lemma SolidRowPixels(width: nat, r: byte, g: byte, b: byte)
    ensures forall x :: 0 <= x < width ==> RowPixels(UniformRow(width, r, g, b, 0xFF), width)[x] == Rgb(r, g, b)
  {
    var row := UniformRow(width, r, g, b, 0xFF);
    forall x | 0 <= x < width
      ensures RowPixels(row, width)[x] == Rgb(r, g, b)
    {
      RowPixelsAt(row, width, x);
      UniformRowAt(width, r, g, b, 0xFF, x);
    }
  }

  /** Rows that are all uniform rows of one colour give a pixel list of that colour only. */
  lemma {:induction false} UniformPixels(img: seq<seq<byte>>, width: nat, n: nat, r: byte, g: byte, b: byte)
    requires Covers(img, width, n)
    requires forall y :: 0 <= y < n ==> img[y] == UniformRow(width, r, g, b, 0xFF)
    ensures forall k :: 0 <= k < |Pixels(img, width, n)| ==> Pixels(img, width, n)[k] == Rgb(r, g, b)
    decreases n
  {
    if n > 0 {
      UniformPixels(img, width, n - 1, r, g, b);
      PixelsLast(img, width, n);
      SolidRowPixels(width, r, g, b);
    }
  }

  /** The pixel list of the solid image is `width * height` copies of `r, g, b`. */
  lemma SolidPixels(width: nat, height: nat, r: byte, g: byte, b: byte)
    ensures Covers(SolidImage(width, height, r, g, b), width, height)
    ensures |Pixels(SolidImage(width, height, r, g, b), width, height)| == width * height
    ensures forall k :: 0 <= k < |Pixels(SolidImage(width, height, r, g, b), width, height)| ==>
      Pixels(SolidImage(width, height, r, g, b), width, height)[k] == Rgb(r, g, b)
  {
    var img := SolidImage(width, height, r, g, b);
    ImagesCover(width, height, 0, r, g, b);
    PixelsLength(img, width, height);
    UniformPixels(img, width, height, r, g, b);
  }

  /** The bordered image agrees with the solid one on every colour byte. */
  lemma BorderedColoursAreSolid(width: nat, height: nat, margin: int, r: byte, g: byte, b: byte)
    ensures var s, t := SolidImage(width, height, r, g, b), BorderedImage(width, height, margin, r, g, b);
      Covers(s, width, height) && Covers(t, width, height) && SameRgbBytes(s, t, width, height)
  {
    var s, t := SolidImage(width, height, r, g, b), BorderedImage(width, height, margin, r, g, b);
    BorderedDiffersOnlyInAlpha(width, height, margin, r, g, b);
    ImagesCover(width, height, margin, r, g, b);
    forall y | 0 <= y < height
      ensures SameRgbRow(s[y], t[y], width)
    {
      forall x | 0 <= x < width
        ensures s[y][4 * x] == t[y][4 * x] && s[y][4 * x + 1] == t[y][4 * x + 1] && s[y][4 * x + 2] == t[y][4 * x + 2]
      {
        ByteOfPixel(x, 4 * x);
        ByteOfPixel(x, 4 * x + 1);
        ByteOfPixel(x, 4 * x + 2);
      }
    }
  }

  /**
   * Writing the bordered image gives, in both formats, exactly the file
   * written for the solid image of the same size and colour: the border
   * does not survive.
   */
  lemma BorderedWritesLikeSolid(width: nat, height: nat, margin: int, r: byte, g: byte, b: byte)
    ensures var s, t := SolidImage(width, height, r, g, b), BorderedImage(width, height, margin, r, g, b);
      Covers(s, width, height) && Covers(t, width, height) &&
      P3Document(t, width, height) == P3Document(s, width, height) &&
      P6Document(t, width, height) == P6Document(s, width, height)
  {
    var s, t := SolidImage(width, height, r, g, b), BorderedImage(width, height, margin, r, g, b);
    BorderedColoursAreSolid(width, height, margin, r, g, b);
    DocumentsIgnoreAlpha(s, t, width, height);
  }
}
