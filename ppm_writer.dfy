/**
 * `write_ppm_p3_file` and `write_ppm_p6_file`. Opening the destination is
 * the input `openOk` (whether `fopen` succeeded); what the writer sends to
 * the file is the output `out`, built by appending in the order of the
 * writes.
 */
module PpmWriter {
  import opened Decimal
  import opened PackedColor
  import opened PixelBuffer
  import opened PpmFormat

  /** One more pixel's line, computed from the word as the writer loads it. */
  lemma P3PixelsStep(row: seq<byte>, x: nat)
    requires 4 * x + 4 <= |row|
    ensures P3Pixels(row, x + 1) == P3Pixels(row, x) + RgbLine(Unpack(WordAt(row, x * 4)))
  {
    assert Unpack(WordAt(row, x * 4)) == PixelRgb(row, x);
  }

  /**
   * The inner loop of `write_ppm_p3_file`: one `"R G B\n"` line per pixel of
   * row `y`, whose bytes are `row`. As in the C loop, `data[y]` is read
   * only for a pixel, so with no column the buffer may be null.
   */
  method P3RowLines(data: array?<array?<byte>>, y: int, width: int, ghost row: seq<byte>)
    returns (text: string)
    requires 4 * width <= |row|
    requires width > 0 ==> data != null && 0 <= y < data.Length && data[y] != null && data[y][..] == row
    ensures text == P3Pixels(row, width)
  {
    text := "";
    var x := 0;
    while x < width
      invariant 0 <= x && (x <= width || x == 0)
      invariant text == P3Pixels(row, x)
    {
      var packed := WordAt(data[y][..], x * 4);
      var c := Unpack(packed);
      P3PixelsStep(row, x);
      text := text + RgbLine(c);
      x := x + 1;
    }
  }

  /** One more row: its lines and the empty line after them. */
  lemma P3RowsStep(img: seq<seq<byte>>, w: int, y: nat, lines: string)
    requires Covers(img, w, y + 1) && lines == P3Pixels(img[y], w)
    ensures P3Rows(img, w, y + 1) == P3Rows(img, w, y) + (lines + "\n")
  {
  }

  /** The outer loop of `write_ppm_p3_file`: every row's lines, each row followed by an empty line. */
  method P3Body(data: array?<array?<byte>>, width: int, height: nat, ghost img: seq<seq<byte>>)
    returns (text: string)
    requires Covers(img, width, height)
    requires width > 0 ==>
      data != null && height <= data.Length &&
      forall k :: 0 <= k < height ==> data[k] != null && data[k][..] == img[k]
    ensures text == P3Rows(img, width, height)
  {
    text := "";
    var y := 0;
    while y < height
      invariant 0 <= y <= height
      invariant Covers(img, width, y) && text == P3Rows(img, width, y)
    {
      CoversRow(img, width, height, y);
      var line := P3RowLines(data, y, width, img[y]);
      P3RowsStep(img, width, y, line);
      text := text + (line + "\n");
      y := y + 1;
    }
  }

  /**
   * `write_ppm_p3_file`: returns false and writes nothing when the file did
   * not open; otherwise writes the header and, row by row, one `"R G B\n"`
   * line per pixel and an empty line after each row, and returns true.
   * `rowbytes` is accepted and not used.
   */
  method WritePpmP3File(openOk: bool, data: array?<array?<byte>>, rowbytes: int, width: int, height: int)
    returns (ok: bool, out: string)
    requires openOk ==> Readable(data, width, height)
    ensures ok == openOk
    ensures !openOk ==> out == []
    ensures openOk ==> out == P3Document(Snapshot(data, width, height), width, height)
  {
    if !openOk {
      return false, [];
    }
    var header := Header('3', width, height);
    if height <= 0 {
      out := header;
      assert P3Rows(Snapshot(data, width, height), width, height) == "";
    } else {
      ghost var img := Snapshot(data, width, height);
      var body := P3Body(data, width, height, img);
      out := header + body;
      assert img == Snapshot(data, width, height);
    }
    ok := true;
  }

  /** One more pixel's three bytes, taken from the word as the writer loads it. */
  lemma P6PixelsStep(row: seq<byte>, x: nat)
    requires 4 * x + 4 <= |row|
    ensures var c := Unpack(WordAt(row, x * 4));
      P6Pixels(row, x + 1) == P6Pixels(row, x) + [c.r, c.g, c.b]
  {
    assert Unpack(WordAt(row, x * 4)) == PixelRgb(row, x);
  }

  /**
   * The inner loop of `write_ppm_p6_file`: the three channel bytes of each
   * pixel of row `y`, whose bytes are `row`; `data[y]` is reached only for a
   * pixel.
   */
  method P6RowBytes(data: array?<array?<byte>>, y: int, width: int, ghost row: seq<byte>)
    returns (raw: seq<byte>)
    requires 4 * width <= |row|
    requires width > 0 ==> data != null && 0 <= y < data.Length && data[y] != null && data[y][..] == row
    ensures raw == P6Pixels(row, width)
  {
    raw := [];
    var x := 0;
    while x < width
      invariant 0 <= x && (x <= width || x == 0)
      invariant raw == P6Pixels(row, x)
    {
      var packed := WordAt(data[y][..], x * 4);
      var c := Unpack(packed);
      P6PixelsStep(row, x);
      raw := raw + [c.r, c.g, c.b];
      x := x + 1;
    }
  }

  /** One more row's bytes. */
  lemma P6RowsStep(img: seq<seq<byte>>, w: int, y: nat, bytes: seq<byte>)
    requires Covers(img, w, y + 1) && bytes == P6Pixels(img[y], w)
    ensures P6Rows(img, w, y + 1) == P6Rows(img, w, y) + bytes
  {
  }

  /** The outer loop of `write_ppm_p6_file`: every row's bytes, with nothing between rows. */
  method P6Body(data: array?<array?<byte>>, width: int, height: nat, ghost img: seq<seq<byte>>)
    returns (raw: seq<byte>)
    requires Covers(img, width, height)
    requires width > 0 ==>
      data != null && height <= data.Length &&
      forall k :: 0 <= k < height ==> data[k] != null && data[k][..] == img[k]
    ensures raw == P6Rows(img, width, height)
  {
    raw := [];
    var y := 0;
    while y < height
      invariant 0 <= y <= height
      invariant Covers(img, width, y) && raw == P6Rows(img, width, y)
    {
      CoversRow(img, width, height, y);
      var bytes := P6RowBytes(data, y, width, img[y]);
      P6RowsStep(img, width, y, bytes);
      raw := raw + bytes;
      y := y + 1;
    }
  }

  /**
   * `write_ppm_p6_file`: returns false and writes nothing when the file did
   * not open; otherwise writes the header and then three raw bytes per
   * pixel, row by row with nothing between rows, and returns true.
   * `rowbytes` is accepted and not used.
   */
  method WritePpmP6File(openOk: bool, data: array?<array?<byte>>, rowbytes: int, width: int, height: int)
    returns (ok: bool, out: seq<byte>)
    requires openOk ==> Readable(data, width, height)
    ensures ok == openOk
    ensures !openOk ==> out == []
    ensures openOk ==> out == P6Document(Snapshot(data, width, height), width, height)
  {
    if !openOk {
      return false, [];
    }
    var header := AsciiBytes(Header('6', width, height));
    if height <= 0 {
      out := header;
      assert P6Rows(Snapshot(data, width, height), width, height) == [];
    } else {
      ghost var img := Snapshot(data, width, height);
      var body := P6Body(data, width, height, img);
      out := header + body;
      assert img == Snapshot(data, width, height);
    }
    ok := true;
  }

  /**
   * Neither writer looks at the buffer when there is no column: a null
   * index with `width` 0 and `height` 3 is a valid argument, and the P3
   * file is the header and three empty lines while the P6 file is the
   * header alone.
   */
  lemma NullBufferNoColumns()
    ensures Readable(null, 0, 3)
    ensures P3Document(Snapshot(null, 0, 3), 0, 3) == "P3\n0 3\n255\n\n\n\n"
    ensures P6Document(Snapshot(null, 0, 3), 0, 3) == AsciiBytes("P6\n0 3\n255\n")
  {
    var img := Snapshot(null, 0, 3);
    NoColumnsRows(img, 0, 3);
    HeaderText('3', 0, 3);
    HeaderText('6', 0, 3);
    assert P3Rows(img, 0, 3) == "\n\n\n";
  }
}
