/**
 * The exact output of the two Netpbm PPM writers, as functions of the image
 * they read: `P3` (plain, decimal text) and `P6` (raw bytes). Both walk the
 * rows in order and, in each row, the pixels in order.
 */
module PpmFormat {
  import opened Decimal
  import opened PackedColor

  /** The channel maximum both writers print in the header. */
  const MaxVal: nat := 255

  /** `"P<magic>\n%d %d\n%d\n"` with the width, the height and 255. */
  function Header(magic: char, w: int, h: int): (s: string)
    requires magic as int < 256
    ensures IsLatin1(s)
  {
    DecimalIsLatin1(w);
    DecimalIsLatin1(h);
    DecimalIsLatin1(MaxVal);
    ['P', magic, '\n'] + IntToDecimal(w) + " " + IntToDecimal(h) + "\n" + IntToDecimal(MaxVal) + "\n"
  }

  /** `%d` prints only a minus sign and digits. */
  lemma DecimalIsLatin1(i: int)
    ensures IsLatin1(IntToDecimal(i))
  {
    var n := if i < 0 then -i else i;
    var s := IntToDecimal(i);
    if i < 0 {
      assert forall k :: 1 <= k < |s| ==> s[k] == NatToDecimal(n)[k - 1];
    }
  }

  /** Characters all below 256, so that each one is written as one byte. */
  predicate IsLatin1(s: string) {
    forall i :: 0 <= i < |s| ==> s[i] as int < 256
  }

  /** The bytes of a string whose characters are all below 256. */
  function AsciiBytes(s: string): (bs: seq<byte>)
    requires IsLatin1(s)
    ensures |bs| == |s| && forall i :: 0 <= i < |s| ==> bs[i] as int == s[i] as int
  {
    seq(|s|, i requires 0 <= i < |s| => s[i] as int as byte)
  }

  /** The characters whose codes are the given bytes. */
  function Latin1(bs: seq<byte>): (s: string)
    ensures |s| == |bs| && forall i :: 0 <= i < |bs| ==> s[i] as int == bs[i] as int
  {
    seq(|bs|, i requires 0 <= i < |bs| => bs[i] as int as char)
  }

  lemma Latin1OfAscii(s: string, rest: seq<byte>)
    requires IsLatin1(s)
    ensures Latin1(AsciiBytes(s) + rest) == s + Latin1(rest)
  {
  }

  /** The colours of the first `n` pixels of a row, in order. */
  function RowPixels(row: seq<byte>, n: int): (ps: seq<Rgb>)
    requires 4 * n <= |row|
    ensures |ps| == if n < 0 then 0 else n
    decreases n
  {
    if n <= 0 then [] else RowPixels(row, n - 1) + [PixelRgb(row, n - 1)]
  }

  /** The colours of the first `w` pixels of the first `h` rows, row after row. */
  function Pixels(img: seq<seq<byte>>, w: int, h: int): seq<Rgb>
    requires Covers(img, w, h)
    decreases h
  {
    if h <= 0 then [] else Pixels(img, w, h - 1) + RowPixels(img[h - 1], w)
  }

  // ---------------------------------------------------------------- P3

  /** `"%d %d %d\n"` of one colour. */
  function Spaced(vs: seq<nat>): string
    decreases |vs|
  {
    if |vs| == 0 then "" else if |vs| == 1 then NatToDecimal(vs[0]) else NatToDecimal(vs[0]) + " " + Spaced(vs[1..])
  }

  function RgbLine(c: Rgb): string {
    Spaced([c.r as nat, c.g as nat, c.b as nat]) + "\n"
  }

  /** The line of a colour, written out: `"%d %d %d\n"`. */
  lemma RgbLineText(c: Rgb)
    ensures RgbLine(c) == NatToDecimal(c.r as nat) + " " + NatToDecimal(c.g as nat) + " " + NatToDecimal(c.b as nat) + "\n"
  {
    var vs := [c.r as nat, c.g as nat, c.b as nat];
    assert vs[1..][1..] == [c.b as nat];
    assert Spaced(vs[1..]) == NatToDecimal(c.g as nat) + " " + NatToDecimal(c.b as nat);
  }

  /** A pixel's line is three numerals of one to three digits, two spaces and a newline. */
  lemma RgbLineLength(c: Rgb)
    ensures 6 <= |RgbLine(c)| <= 12
  {
    RgbLineText(c);
    ByteDecimalLength(c.r as nat);
    ByteDecimalLength(c.g as nat);
    ByteDecimalLength(c.b as nat);
  }

  /** The lines of the first `n` pixels of a row. */
  function P3Pixels(row: seq<byte>, n: int): string
    requires 4 * n <= |row|
    decreases n
  {
    if n <= 0 then "" else P3Pixels(row, n - 1) + RgbLine(PixelRgb(row, n - 1))
  }

  /** The first `n` rows, each its `w` lines followed by an empty line. */
  function P3Rows(img: seq<seq<byte>>, w: int, n: int): string
    requires Covers(img, w, n)
    decreases n
  {
    if n <= 0 then "" else P3Rows(img, w, n - 1) + P3Pixels(img[n - 1], w) + "\n"
  }

  /** Everything `write_ppm_p3_file` writes. */
  function P3Document(img: seq<seq<byte>>, w: int, h: int): string
    requires Covers(img, w, h)
  {
    Header('3', w, h) + P3Rows(img, w, h)
  }

  // ---------------------------------------------------------------- P6

  function RgbBytes(c: Rgb): seq<byte> {
    [c.r, c.g, c.b]
  }

  /** The three channel bytes of the first `n` pixels of a row. */
  function P6Pixels(row: seq<byte>, n: int): seq<byte>
    requires 4 * n <= |row|
    decreases n
  {
    if n <= 0 then [] else P6Pixels(row, n - 1) + RgbBytes(PixelRgb(row, n - 1))
  }

  /** The first `n` rows, with nothing between them. */
  function P6Rows(img: seq<seq<byte>>, w: int, n: int): seq<byte>
    requires Covers(img, w, n)
    decreases n
  {
    if n <= 0 then [] else P6Rows(img, w, n - 1) + P6Pixels(img[n - 1], w)
  }

  /** Everything `write_ppm_p6_file` writes: the header's characters as bytes, then the raw triples. */
  function P6Document(img: seq<seq<byte>>, w: int, h: int): seq<byte>
    requires Covers(img, w, h)
  {
    AsciiBytes(Header('6', w, h)) + P6Rows(img, w, h)
  }

  // ---------------------------------------------------------- properties

  /** The header literally: `P3` and `P6` followed by the decimal width, height and 255. */
  lemma HeaderText(magic: char, w: int, h: int)
    requires magic as int < 256
    ensures Header(magic, w, h) == ['P', magic, '\n'] + IntToDecimal(w) + " " + IntToDecimal(h) + "\n255\n"
  {
    assert NatToDecimal(255) == NatToDecimal(25) + ['5'];
    assert NatToDecimal(25) == NatToDecimal(2) + ['5'];
  }

  /** Pixel `x` of a row's pixel list is that pixel's colour. */
  lemma {:induction false} RowPixelsAt(row: seq<byte>, n: int, x: nat)
    requires 4 * n <= |row| && x < n
    ensures RowPixels(row, n)[x] == PixelRgb(row, x)
    decreases n
  {
    if x < n - 1 {
      RowPixelsAt(row, n - 1, x);
    }
  }

  lemma MulStep(a: int, w: int)
    ensures w * a + w == w * (a + 1)
  {
  }

  lemma MulComm(a: int, b: int)
    ensures a * b == b * a
  {
  }

  lemma MulMono(w: nat, a: nat, b: nat)
    requires a <= b
    ensures w * a <= w * b
  {
    assert w * b == w * a + w * (b - a);
  }

  /** Row-major indexing: pixel `x` of row `y` comes after all of rows `0 .. y - 1`, before row `y + 1`. */
  lemma RowMajorBounds(x: nat, y: nat, w: nat, h: nat)
    requires x < w && y < h
    ensures w * y <= y * w + x < w * (y + 1) <= w * h
  {
    MulComm(y, w);
    MulStep(y, w);
    MulMono(w, y + 1, h);
  }

  /** A `w` by `h` image has `w * h` pixels. */
  lemma {:induction false} PixelsLength(img: seq<seq<byte>>, w: nat, h: nat)
    requires Covers(img, w, h)
    ensures |Pixels(img, w, h)| == w * h
    decreases h
  {
    if h > 0 {
      PixelsLength(img, w, h - 1);
      assert |Pixels(img, w, h)| == |Pixels(img, w, h - 1)| + w;
      MulStep(h - 1, w);
    }
  }

  /**
   * Entry `y * w + x` of the pixel list (row-major order) is the colour of
   * pixel `x` of row `y`: bytes `4x`, `4x + 1`, `4x + 2` of that row.
   */
  lemma {:induction false} PixelsAt(img: seq<seq<byte>>, w: nat, h: nat, x: nat, y: nat)
    requires Covers(img, w, h) && x < w && y < h
    ensures |Pixels(img, w, h)| == w * h && y * w + x < w * h && 4 * x + 4 <= |img[y]|
    ensures Pixels(img, w, h)[y * w + x] == Rgb(img[y][4 * x], img[y][4 * x + 1], img[y][4 * x + 2])
    decreases h
  {
    PixelsLength(img, w, h);
    RowMajorBounds(x, y, w, h);
    CoversRow(img, w, h, y);
    if y == h - 1 {
      PixelsLength(img, w, h - 1);
      RowPixelsAt(img[y], w, x);
    } else {
      PixelsAt(img, w, h - 1, x, y);
    }
  }

  /** The raw triples of a list of colours, one after the other. */
  function Raw(ps: seq<Rgb>): (bs: seq<byte>)
    ensures |bs| == 3 * |ps|
  {
    if ps == [] then [] else Raw(ps[..|ps| - 1]) + RgbBytes(ps[|ps| - 1])
  }

  lemma {:induction false} RawAppend(ps: seq<Rgb>, qs: seq<Rgb>)
    ensures Raw(ps + qs) == Raw(ps) + Raw(qs)
    decreases |qs|
  {
    if qs != [] {
      var init, last := qs[..|qs| - 1], qs[|qs| - 1];
      assert (ps + qs)[..|ps + qs| - 1] == ps + init;
      RawAppend(ps, init);
      calc {
        Raw(ps + qs);
        Raw(ps + init) + RgbBytes(last);
        (Raw(ps) + Raw(init)) + RgbBytes(last);
        Raw(ps) + (Raw(init) + RgbBytes(last));
        Raw(ps) + Raw(qs);
      }
    } else {
      assert ps + qs == ps;
    }
  }

  lemma {:induction false} P6PixelsAreRaw(row: seq<byte>, n: int)
    requires 4 * n <= |row|
    ensures P6Pixels(row, n) == Raw(RowPixels(row, n))
    decreases n
  {
    if n > 0 {
      P6PixelsAreRaw(row, n - 1);
      var ps := RowPixels(row, n);
      assert ps[..|ps| - 1] == RowPixels(row, n - 1);
    }
  }

  /** An image that covers `h` rows covers every shorter prefix of them, and row `y` itself. */
  lemma CoversRow(img: seq<seq<byte>>, w: int, h: int, y: int)
    requires Covers(img, w, h) && 0 <= y < h
    ensures Covers(img, w, y + 1) && 4 * w <= |img[y]|
  {
  }

  /** The last row's bytes after those of the rows before it. */
  lemma P6RowsLast(img: seq<seq<byte>>, w: int, h: int)
    requires Covers(img, w, h) && h > 0
    ensures Covers(img, w, h - 1) && 4 * w <= |img[h - 1]|
    ensures P6Rows(img, w, h) == P6Rows(img, w, h - 1) + P6Pixels(img[h - 1], w)
    ensures Pixels(img, w, h) == Pixels(img, w, h - 1) + RowPixels(img[h - 1], w)
  {
  }

  /** The body of a P6 file is the raw triples of the pixel list, in row-major order. */
  lemma {:induction false} P6RowsAreRaw(img: seq<seq<byte>>, w: int, h: int)
    requires Covers(img, w, h)
    ensures P6Rows(img, w, h) == Raw(Pixels(img, w, h))
    decreases h
  {
    if h > 0 {
      P6RowsLast(img, w, h);
      P6RowsAreRaw(img, w, h - 1);
      P6PixelsAreRaw(img[h - 1], w);
      RawAppend(Pixels(img, w, h - 1), RowPixels(img[h - 1], w));
    }
  }

  /** A P6 file is its header and then exactly `3 * w * h` bytes. */
  lemma P6Length(img: seq<seq<byte>>, w: nat, h: nat)
    requires Covers(img, w, h)
    ensures |P6Document(img, w, h)| == |Header('6', w, h)| + 3 * (w * h)
  {
    P6RowsAreRaw(img, w, h);
    PixelsLength(img, w, h);
  }

  /** Two rows agree on the first three bytes of each of their first `n` pixels. */
  ghost predicate SameRgbRow(row: seq<byte>, row': seq<byte>, n: int)
    requires 4 * n <= |row| && 4 * n <= |row'|
  {
    forall x :: 0 <= x < n ==>
      row[4 * x] == row'[4 * x] && row[4 * x + 1] == row'[4 * x + 1] && row[4 * x + 2] == row'[4 * x + 2]
  }

  /** Two images agree on every colour byte of their first `h` rows of `w` pixels. */
  ghost predicate SameRgbBytes(img: seq<seq<byte>>, img': seq<seq<byte>>, w: int, h: int)
    requires Covers(img, w, h) && Covers(img', w, h)
  {
    forall y :: 0 <= y < h ==> SameRgbRow(img[y], img'[y], w)
  }

  /** Agreement on `h` rows is agreement on the first `h - 1` rows and on row `h - 1`. */
  lemma SameRgbBytesLast(img: seq<seq<byte>>, img': seq<seq<byte>>, w: int, h: int)
    requires Covers(img, w, h) && Covers(img', w, h) && SameRgbBytes(img, img', w, h) && h > 0
    ensures Covers(img, w, h - 1) && Covers(img', w, h - 1) && SameRgbBytes(img, img', w, h - 1)
    ensures 4 * w <= |img[h - 1]| && 4 * w <= |img'[h - 1]| && SameRgbRow(img[h - 1], img'[h - 1], w)
  {
  }

  /** Agreement on `n` pixels is agreement on the first `n - 1` and the same colour for pixel `n - 1`. */
  lemma SameRgbRowLast(row: seq<byte>, row': seq<byte>, n: int)
    requires 4 * n <= |row| && 4 * n <= |row'| && SameRgbRow(row, row', n) && n > 0
    ensures SameRgbRow(row, row', n - 1) && PixelRgb(row, n - 1) == PixelRgb(row', n - 1)
  {
    AlphaByteIgnored(row, row', n - 1);
  }

  lemma PixelsLast(img: seq<seq<byte>>, w: int, h: int)
    requires Covers(img, w, h) && h > 0
    ensures Covers(img, w, h - 1) && 4 * w <= |img[h - 1]|
    ensures Pixels(img, w, h) == Pixels(img, w, h - 1) + RowPixels(img[h - 1], w)
  {
  }

  lemma {:induction false} RowPixelsIgnoreAlpha(row: seq<byte>, row': seq<byte>, n: int)
    requires 4 * n <= |row| && 4 * n <= |row'| && SameRgbRow(row, row', n)
    ensures RowPixels(row, n) == RowPixels(row', n)
    decreases n
  {
    if n > 0 {
      SameRgbRowLast(row, row', n);
      RowPixelsIgnoreAlpha(row, row', n - 1);
    }
  }

  lemma {:induction false} PixelsIgnoreAlpha(img: seq<seq<byte>>, img': seq<seq<byte>>, w: int, h: int)
    requires Covers(img, w, h) && Covers(img', w, h) && SameRgbBytes(img, img', w, h)
    ensures Pixels(img, w, h) == Pixels(img', w, h)
    decreases h
  {
    if h > 0 {
      SameRgbBytesLast(img, img', w, h);
      PixelsLast(img, w, h);
      PixelsLast(img', w, h);
      PixelsIgnoreAlpha(img, img', w, h - 1);
      RowPixelsIgnoreAlpha(img[h - 1], img'[h - 1], w);
    }
  }

  lemma {:induction false} RowTextIgnoresAlpha(row: seq<byte>, row': seq<byte>, n: int)
    requires 4 * n <= |row| && 4 * n <= |row'| && SameRgbRow(row, row', n)
    ensures P3Pixels(row, n) == P3Pixels(row', n)
    decreases n
  {
    if n > 0 {
      SameRgbRowLast(row, row', n);
      RowTextIgnoresAlpha(row, row', n - 1);
    }
  }

  lemma {:induction false} P3RowsIgnoreAlpha(img: seq<seq<byte>>, img': seq<seq<byte>>, w: int, h: int)
    requires Covers(img, w, h) && Covers(img', w, h) && SameRgbBytes(img, img', w, h)
    ensures P3Rows(img, w, h) == P3Rows(img', w, h)
    decreases h
  {
    if h > 0 {
      SameRgbBytesLast(img, img', w, h);
      P3RowsIgnoreAlpha(img, img', w, h - 1);
      RowTextIgnoresAlpha(img[h - 1], img'[h - 1], w);
    }
  }

  /**
   * Neither file depends on the fourth byte of any pixel, nor on the bytes
   * of a row past `4 * w`: images that agree on the colour bytes give
   * identical files.
   */
  lemma DocumentsIgnoreAlpha(img: seq<seq<byte>>, img': seq<seq<byte>>, w: int, h: int)
    requires Covers(img, w, h) && Covers(img', w, h) && SameRgbBytes(img, img', w, h)
    ensures P3Document(img, w, h) == P3Document(img', w, h)
    ensures P6Document(img, w, h) == P6Document(img', w, h)
  {
    P3RowsIgnoreAlpha(img, img', w, h);
    PixelsIgnoreAlpha(img, img', w, h);
    P6RowsAreRaw(img, w, h);
    P6RowsAreRaw(img', w, h);
  }

  /**
   * With no column (`w <= 0`) no pixel is read: the P3 body is one empty
   * line per row, whatever the rows hold, and the P6 body is empty.
   */
  lemma {:induction false} NoColumnsRows(img: seq<seq<byte>>, w: int, h: int)
    requires w <= 0 && Covers(img, w, h)
    ensures P3Rows(img, w, h) == seq(if h < 0 then 0 else h, _ => '\n')
    ensures P6Rows(img, w, h) == []
    decreases h
  {
    if h > 0 {
      NoColumnsRows(img, w, h - 1);
      assert seq(h, _ => '\n') == seq(h - 1, _ => '\n') + "\n";
    }
  }
}
