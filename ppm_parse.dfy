/**
 * Readers for exactly the PPM layout the two writers produce, and the
 * round trips: reading a written P3 or P6 file gives back its width, its
 * height and its pixel colours in row-major order. Since both files read
 * back to the same list, the two writers emit the same colour sequence.
 */
module PpmParse {
  import opened Wrappers
  import opened Decimal
  import opened PackedColor
  import opened PpmFormat

  /** `rest` is what remains of `s` after a prefix has been consumed. */
  predicate IsSuffix(rest: string, s: string) {
    |rest| <= |s| && rest == s[|s| - |rest|..]
  }

  /** A decimal number followed by the separator `sep`. */
  function ReadNatThen(s: string, sep: char): (r: Option<(nat, string)>)
    ensures r.Some? ==> IsSuffix(r.value.1, s)
  {
    match ReadNat(s)
    case None => None
    case Some((n, t)) =>
      assert t == s[DigitRun(s)..];
      if |t| > 0 && t[0] == sep then Some((n, t[1..])) else None
  }

  /** A channel value (at most 255) followed by `sep`. */
  function ReadChannelThen(s: string, sep: char): (r: Option<(byte, string)>)
    ensures r.Some? ==> IsSuffix(r.value.1, s)
  {
    match ReadNatThen(s, sep)
    case None => None
    case Some((n, t)) => if n < 256 then Some((n as byte, t)) else None
  }

  /** One `"R G B\n"` line. */
  function ParseLine(s: string): Option<(Rgb, string)> {
    match ReadChannelThen(s, ' ')
    case None => None
    case Some((r, s1)) =>
      match ReadChannelThen(s1, ' ')
      case None => None
      case Some((g, s2)) =>
        match ReadChannelThen(s2, '\n')
        case None => None
        case Some((b, s3)) => Some((Rgb(r, g, b), s3))
  }

  /** `n` items read one after the other by `item`. */
  function ParseMany<T>(item: string -> Option<(T, string)>, s: string, n: int): Option<(seq<T>, string)>
    decreases n
  {
    if n <= 0 then Some(([], s))
    else
      match ParseMany(item, s, n - 1)
      case None => None
      case Some((xs, t)) =>
        match item(t)
        case None => None
        case Some((x, u)) => Some((xs + [x], u))
  }

  /** One row: `w` lines, then the empty line that closes the row. */
  function ParseRow(s: string, w: int): Option<(seq<Rgb>, string)> {
    match ParseMany(ParseLine, s, w)
    case None => None
    case Some((ps, u)) => if |u| > 0 && u[0] == '\n' then Some((ps, u[1..])) else None
  }

  /** The rows one after the other. */
  function Flatten(rows: seq<seq<Rgb>>): seq<Rgb>
    decreases |rows|
  {
    if rows == [] then [] else Flatten(rows[..|rows| - 1]) + rows[|rows| - 1]
  }

  /** `ParseRow` for a fixed width, as a reader of one item. */
  function RowReader(w: int): string -> Option<(seq<Rgb>, string)> {
    s => ParseRow(s, w)
  }

  /** `"P<magic>\n<w> <h>\n255\n"`. */
  function ParseHeader(magic: char, s: string): (r: Option<(nat, nat, string)>)
    ensures r.Some? ==> IsSuffix(r.value.2, s)
  {
    var tag := ['P', magic, '\n'];
    if |s| < 3 || s[..3] != tag then None
    else
      var s0 := s[3..];
      match ReadNatThen(s0, ' ')
      case None => None
      case Some((w, s1)) =>
        match ReadNatThen(s1, '\n')
        case None => None
        case Some((h, s2)) =>
          match ReadNatThen(s2, '\n')
          case None => None
          case Some((m, s3)) => if m == MaxVal then Some((w, h, s3)) else None
  }

  /** A whole P3 file: the header, `h` rows of `w` lines, and nothing after. */
  function ParseP3(s: string): Option<(nat, nat, seq<Rgb>)> {
    match ParseHeader('3', s)
    case None => None
    case Some((w, h, t)) =>
      match ParseMany(RowReader(w), t, h)
      case None => None
      case Some((rows, u)) => if u == [] then Some((w, h, Flatten(rows))) else None
  }

  /** Consecutive triples of bytes as colours. */
  function Triples(bs: seq<byte>): seq<Rgb>
    decreases |bs|
  {
    if |bs| < 3 then [] else Triples(bs[..|bs| - 3]) + [Rgb(bs[|bs| - 3], bs[|bs| - 2], bs[|bs| - 1])]
  }

  /** A whole P6 file: the header, then exactly `3 * w * h` bytes. */
  function ParseP6(bs: seq<byte>): Option<(nat, nat, seq<Rgb>)> {
    match ParseHeader('6', Latin1(bs))
    case None => None
    case Some((w, h, t)) =>
      var body := bs[|bs| - |t|..];
      if |body| == 3 * (w * h) then Some((w, h, Triples(body))) else None
  }

  // ---------------------------------------------------------- round trips

  lemma ReadNatThenOfDecimal(n: nat, sep: char, rest: string)
    requires !IsDigit(sep)
    ensures ReadNatThen(NatToDecimal(n) + [sep] + rest, sep) == Some((n, rest))
  {
    assert NatToDecimal(n) + [sep] + rest == NatToDecimal(n) + ([sep] + rest);
    ReadNatOfDecimal(n, [sep] + rest);
  }

  lemma ReadChannelThenOfDecimal(v: byte, sep: char, rest: string)
    requires !IsDigit(sep)
    ensures ReadChannelThen(NatToDecimal(v as nat) + [sep] + rest, sep) == Some((v, rest))
  {
    ReadNatThenOfDecimal(v as nat, sep, rest);
  }

  lemma ParseLineOfRgbLine(c: Rgb, rest: string)
    ensures ParseLine(RgbLine(c) + rest) == Some((c, rest))
  {
    var dr, dg, db := NatToDecimal(c.r as nat), NatToDecimal(c.g as nat), NatToDecimal(c.b as nat);
    var s2 := db + "\n" + rest;
    var s1 := dg + " " + s2;
    RgbLineText(c);
    assert RgbLine(c) + rest == dr + " " + s1;
    ReadChannelThenOfDecimal(c.r, ' ', s1);
    ReadChannelThenOfDecimal(c.g, ' ', s2);
    ReadChannelThenOfDecimal(c.b, '\n', rest);
  }

  lemma Assoc<T>(a: seq<T>, b: seq<T>, c: seq<T>)
    ensures a + b + c == a + (b + c)
  {
  }

  // The round trip of the pixel text is proved in two layers: a lemma
  // about `ParseMany` for any item reader and any strings that each read
  // back as one item, and identities that split the writer's text into
  // such strings.

  /** The strings one after the other. */
  function Concat(ts: seq<string>): string
    decreases |ts|
  {
    if ts == [] then "" else Concat(ts[..|ts| - 1]) + ts[|ts| - 1]
  }

  lemma InitLast<T>(s: seq<T>)
    requires s != []
    ensures s[..|s| - 1] + [s[|s| - 1]] == s
  {
  }

  /** One more item read after `n - 1` of them. */
  lemma ParseManyStep<T>(item: string -> Option<(T, string)>, s: string, n: int, xs: seq<T>, t: string, x: T, u: string)
    requires n > 0
    requires ParseMany(item, s, n - 1) == Some((xs, t)) && item(t) == Some((x, u))
    ensures ParseMany(item, s, n) == Some((xs + [x], u))
  {
  }

  /** Strings that each read back as one item read back, one after the other, as all of those items. */
  lemma {:induction false} ParseManyOfConcat<T>(item: string -> Option<(T, string)>, parts: seq<string>, xs: seq<T>, rest: string)
    requires |parts| == |xs|
    requires forall i, r :: 0 <= i < |parts| ==> item(parts[i] + r) == Some((xs[i], r))
    ensures ParseMany(item, Concat(parts) + rest, |parts|) == Some((xs, rest))
    decreases |parts|
  {
    if parts != [] {
      var k := |parts| - 1;
      var init := parts[..k];
      Assoc(Concat(init), parts[k], rest);
      assert forall i, r :: 0 <= i < |init| ==> item(init[i] + r) == Some((xs[..k][i], r));
      ParseManyOfConcat(item, init, xs[..k], parts[k] + rest);
      assert item(parts[k] + rest) == Some((xs[k], rest));
      ParseManyStep(item, Concat(parts) + rest, |parts|, xs[..k], parts[k] + rest, xs[k], rest);
      InitLast(xs);
    } else {
      assert Concat(parts) + rest == rest;
    }
  }

  /** The lines a row's pixels are written as. */
  function PixelLines(row: seq<byte>, n: nat): (ls: seq<string>)
    requires 4 * n <= |row|
    ensures |ls| == n
    decreases n
  {
    if n == 0 then [] else PixelLines(row, n - 1) + [RgbLine(PixelRgb(row, n - 1))]
  }

  lemma {:induction false} PixelLinesAt(row: seq<byte>, n: nat, x: nat)
    requires 4 * n <= |row| && x < n
    ensures PixelLines(row, n)[x] == RgbLine(PixelRgb(row, x))
    decreases n
  {
    if x < n - 1 {
      PixelLinesAt(row, n - 1, x);
    }
  }

  lemma {:induction false} P3PixelsIsConcat(row: seq<byte>, n: nat)
    requires 4 * n <= |row|
    ensures P3Pixels(row, n) == Concat(PixelLines(row, n))
    decreases n
  {
    if n > 0 {
      P3PixelsIsConcat(row, n - 1);
      assert PixelLines(row, n)[..n - 1] == PixelLines(row, n - 1);
    }
  }

  /** The text of each row: its lines and the empty line after them. */
  function RowTexts(img: seq<seq<byte>>, w: int, n: nat): (ts: seq<string>)
    requires Covers(img, w, n)
    ensures |ts| == n
    decreases n
  {
    if n == 0 then [] else RowTexts(img, w, n - 1) + [P3Pixels(img[n - 1], w) + "\n"]
  }

  /** The colours of each row. */
  function RowColours(img: seq<seq<byte>>, w: int, n: nat): (rs: seq<seq<Rgb>>)
    requires Covers(img, w, n)
    ensures |rs| == n
    decreases n
  {
    if n == 0 then [] else RowColours(img, w, n - 1) + [RowPixels(img[n - 1], w)]
  }

  lemma {:induction false} RowsAt(img: seq<seq<byte>>, w: int, n: nat, y: nat)
    requires Covers(img, w, n) && y < n
    ensures RowTexts(img, w, n)[y] == P3Pixels(img[y], w) + "\n"
    ensures RowColours(img, w, n)[y] == RowPixels(img[y], w)
    decreases n
  {
    if y < n - 1 {
      RowsAt(img, w, n - 1, y);
    }
  }

  lemma {:induction false} P3RowsIsConcat(img: seq<seq<byte>>, w: int, n: nat)
    requires Covers(img, w, n)
    ensures P3Rows(img, w, n) == Concat(RowTexts(img, w, n))
    ensures Pixels(img, w, n) == Flatten(RowColours(img, w, n))
    decreases n
  {
    if n > 0 {
      P3RowsIsConcat(img, w, n - 1);
      assert RowTexts(img, w, n)[..n - 1] == RowTexts(img, w, n - 1);
      assert RowColours(img, w, n)[..n - 1] == RowColours(img, w, n - 1);
      Assoc(P3Rows(img, w, n - 1), P3Pixels(img[n - 1], w), "\n");
    }
  }

  /** The lines of a row's first `n` pixels read back as their colours. */
  lemma ParseLinesOfP3Pixels(row: seq<byte>, n: nat, rest: string)
    requires 4 * n <= |row|
    ensures ParseMany(ParseLine, P3Pixels(row, n) + rest, n) == Some((RowPixels(row, n), rest))
  {
    var lines := PixelLines(row, n);
    var cs := RowPixels(row, n);
    forall i, r | 0 <= i < |lines|
      ensures ParseLine(lines[i] + r) == Some((cs[i], r))
    {
      PixelLinesAt(row, n, i);
      RowPixelsAt(row, n, i);
      ParseLineOfRgbLine(PixelRgb(row, i), r);
    }
    ParseManyOfConcat(ParseLine, lines, cs, rest);
    P3PixelsIsConcat(row, n);
  }

  /** Lines followed by an empty line read back as one row. */
  lemma ParseRowOfLines(text: string, w: nat, ps: seq<Rgb>, rest: string)
    requires ParseMany(ParseLine, text + ("\n" + rest), w) == Some((ps, "\n" + rest))
    ensures RowReader(w)(text + "\n" + rest) == Some((ps, rest))
  {
    Assoc(text, "\n", rest);
    assert ("\n" + rest)[1..] == rest;
  }

  /** A row's text, with its closing empty line, reads back as the row's colours. */
  lemma ParseRowOfP3Pixels(row: seq<byte>, w: nat, rest: string)
    requires 4 * w <= |row|
    ensures RowReader(w)(P3Pixels(row, w) + "\n" + rest) == Some((RowPixels(row, w), rest))
  {
    ParseLinesOfP3Pixels(row, w, "\n" + rest);
    ParseRowOfLines(P3Pixels(row, w), w, RowPixels(row, w), rest);
  }

  /** The text of the first `n` rows reads back as their colours, row after row. */
  lemma ParseRowsOfP3Rows(img: seq<seq<byte>>, w: nat, n: nat, rest: string)
    requires Covers(img, w, n)
    ensures ParseMany(RowReader(w), P3Rows(img, w, n) + rest, n) == Some((RowColours(img, w, n), rest))
  {
    var texts := RowTexts(img, w, n);
    var rows := RowColours(img, w, n);
    forall i, r | 0 <= i < |texts|
      ensures RowReader(w)(texts[i] + r) == Some((rows[i], r))
    {
      RowsAt(img, w, n, i);
      ParseRowOfP3Pixels(img[i], w, r);
    }
    ParseManyOfConcat(RowReader(w), texts, rows, rest);
    P3RowsIsConcat(img, w, n);
  }

  /** The header read field by field. */
  lemma ParseHeaderOfFields(magic: char, s: string, s0: string, s1: string, s2: string, s3: string, w: nat, h: nat)
    requires |s| >= 3 && s[..3] == ['P', magic, '\n'] && s[3..] == s0
    requires ReadNatThen(s0, ' ') == Some((w, s1))
    requires ReadNatThen(s1, '\n') == Some((h, s2))
    requires ReadNatThen(s2, '\n') == Some((MaxVal, s3))
    ensures ParseHeader(magic, s) == Some((w, h, s3))
  {
  }

  lemma EmptyRest<T>(a: seq<T>)
    ensures a + [] == a
  {
  }

  lemma PrefixSplit<T>(a: seq<T>, b: seq<T>)
    ensures (a + b)[..|a|] == a && (a + b)[|a|..] == b
  {
  }

  lemma TrailerText()
    ensures "\n255\n" == "\n" + (NatToDecimal(MaxVal) + "\n")
  {
    assert NatToDecimal(255) == NatToDecimal(25) + ['5'];
    assert NatToDecimal(25) == NatToDecimal(2) + ['5'];
  }

  /** A header followed by `rest`, regrouped field by field as the reader consumes it. */
  lemma HeaderFields(magic: char, w: nat, h: nat, rest: string)
    requires magic as int < 256
    ensures Header(magic, w, h) + rest
         == ['P', magic, '\n'] + ((NatToDecimal(w) + " ") + ((NatToDecimal(h) + "\n") + ((NatToDecimal(MaxVal) + "\n") + rest)))
  {
    HeaderText(magic, w, h);
    TrailerText();
    var t, dw, dh, dm := ['P', magic, '\n'], NatToDecimal(w), NatToDecimal(h), NatToDecimal(MaxVal);
    var s2 := (dm + "\n") + rest;
    var s1 := (dh + "\n") + s2;
    var q := (t + dw) + " ";
    Assoc(q + dh, "\n255\n", rest);
    Assoc("\n", dm + "\n", rest);
    Assoc(q, dh, "\n" + s2);
    Assoc(dh, "\n", s2);
    Assoc(t + dw, " ", s1);
    Assoc(t, dw, " " + s1);
    Assoc(dw, " ", s1);
  }

  lemma ParseHeaderOfHeader(magic: char, w: nat, h: nat, rest: string)
    requires magic as int < 256
    ensures ParseHeader(magic, Header(magic, w, h) + rest) == Some((w, h, rest))
  {
    var s2 := NatToDecimal(MaxVal) + "\n" + rest;
    var s1 := NatToDecimal(h) + "\n" + s2;
    var s0 := NatToDecimal(w) + " " + s1;
    HeaderFields(magic, w, h, rest);
    PrefixSplit(['P', magic, '\n'], s0);
    ReadNatThenOfDecimal(w, ' ', s1);
    ReadNatThenOfDecimal(h, '\n', s2);
    ReadNatThenOfDecimal(MaxVal, '\n', rest);
    ParseHeaderOfFields(magic, Header(magic, w, h) + rest, s0, s1, s2, rest, w, h);
  }

  /** A P3 file read as its header and then its rows. */
  lemma ParseP3OfParts(s: string, w: nat, h: nat, t: string, rows: seq<seq<Rgb>>)
    requires ParseHeader('3', s) == Some((w, h, t))
    requires ParseMany(RowReader(w), t, h) == Some((rows, []))
    ensures ParseP3(s) == Some((w, h, Flatten(rows)))
  {
  }

  /** Reading a written P3 file gives its width, height and row-major pixel colours. */
  lemma ParseP3OfP3Document(img: seq<seq<byte>>, w: nat, h: nat)
    requires Covers(img, w, h)
    ensures ParseP3(P3Document(img, w, h)) == Some((w, h, Pixels(img, w, h)))
  {
    var body := P3Rows(img, w, h);
    EmptyRest(body);
    ParseHeaderOfHeader('3', w, h, body);
    ParseRowsOfP3Rows(img, w, h, []);
    P3RowsIsConcat(img, w, h);
    ParseP3OfParts(P3Document(img, w, h), w, h, body, RowColours(img, w, h));
  }

  lemma {:induction false} TriplesOfRaw(ps: seq<Rgb>)
    ensures Triples(Raw(ps)) == ps
    decreases |ps|
  {
    if ps != [] {
      var init := ps[..|ps| - 1];
      var bs := Raw(ps);
      assert bs[..|bs| - 3] == Raw(init);
      TriplesOfRaw(init);
    }
  }

  /** Reading a written P6 file gives its width, height and row-major pixel colours. */
  lemma ParseP6OfP6Document(img: seq<seq<byte>>, w: nat, h: nat)
    requires Covers(img, w, h)
    ensures ParseP6(P6Document(img, w, h)) == Some((w, h, Pixels(img, w, h)))
  {
    var header := Header('6', w, h);
    var body := P6Rows(img, w, h);
    var doc := P6Document(img, w, h);
    assert doc == AsciiBytes(header) + body;
    Latin1OfAscii(header, body);
    ParseHeaderOfHeader('6', w, h, Latin1(body));
    assert ParseHeader('6', Latin1(doc)) == Some((w, h, Latin1(body)));
    assert doc[|doc| - |body|..] == body;
    P6Length(img, w, h);
    assert |body| == 3 * (w * h);
    P6RowsAreRaw(img, w, h);
    TriplesOfRaw(Pixels(img, w, h));
    assert Triples(body) == Pixels(img, w, h);
  }

  /** The P3 and the P6 file of one image carry the same colours in the same order. */
  lemma P3AndP6Agree(img: seq<seq<byte>>, w: nat, h: nat)
    requires Covers(img, w, h)
    ensures ParseP3(P3Document(img, w, h)).Some?
    ensures ParseP3(P3Document(img, w, h)) == ParseP6(P6Document(img, w, h))
  {
    ParseP3OfP3Document(img, w, h);
    ParseP6OfP6Document(img, w, h);
  }
}
