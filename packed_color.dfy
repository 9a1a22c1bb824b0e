/**
 * The PPM writers read each pixel as a packed 32-bit colour word and pull
 * the red, green and blue channels out of it with masks and shifts. This
 * module models that reinterpretation byte by byte.
 */
module PackedColor {
  /** An `unsigned char`. */
  newtype byte = b: int | 0 <= b < 256

  /** One colour triple, as both PPM formats store it. */
  datatype Rgb = Rgb(r: byte, g: byte, b: byte)

  /** An `unsigned int`, taken to be 32 bits wide. */
  type uint32 = w: int | 0 <= w < 0x1_0000_0000

  /** The `unsigned int` whose little-endian bytes are `b0, b1, b2, b3`. */
  function LoadLE32(b0: byte, b1: byte, b2: byte, b3: byte): uint32 {
    b0 as int + 0x100 * b1 as int + 0x1_0000 * b2 as int + 0x100_0000 * b3 as int
  }

  /** `v & 0xFF`: for an unsigned operand, the remainder modulo 256. */
  function Mask8(v: uint32): byte {
    (v % 0x100) as byte
  }

  /** `v >> k` for the two shifts the writers use: for an unsigned operand, division by `2^k`. */
  function Shr(v: uint32, k: nat): uint32
    requires k == 8 || k == 16
  {
    if k == 8 then v / 0x100 else v / 0x1_0000
  }

  /** A word is its four bytes, least significant first. */
  lemma WordBytes(w: uint32)
    ensures w / 0x100_0000 < 0x100
    ensures w == LoadLE32(Mask8(w), Mask8(Shr(w, 8)), Mask8(Shr(w, 16)), (w / 0x100_0000) as byte)
  {
    var q0 := w / 0x100;
    var q1 := q0 / 0x100;
    var q2 := q1 / 0x100;
    assert w == w % 0x100 + 0x100 * q0;
    assert q0 == q0 % 0x100 + 0x100 * q1;
    assert q1 == q1 % 0x100 + 0x100 * q2;
    assert w / 0x1_0000 == q1;
    assert w / 0x100_0000 == q2;
  }

  /** `packed_color & 0xFF`, `packed_color >> 8 & 0xFF`, `packed_color >> 16 & 0xFF`. */
  function Unpack(word: uint32): Rgb {
    Rgb(Mask8(word), Mask8(Shr(word, 8)), Mask8(Shr(word, 16)))
  }

  /**
   * Unpacking keeps exactly the three low bytes of the word: with its top
   * byte put back above them they make the word again.
   */
  lemma UnpackRepack(word: uint32)
    ensures word / 0x100_0000 < 0x100
    ensures var c := Unpack(word); LoadLE32(c.r, c.g, c.b, (word / 0x100_0000) as byte) == word
  {
    WordBytes(word);
  }

  /** The bytes of a little-endian word come back out of it by division and remainder. */
  lemma LoadBytes(b0: byte, b1: byte, b2: byte, b3: byte)
    ensures var w := LoadLE32(b0, b1, b2, b3);
      w % 0x100 == b0 as int && w / 0x100 % 0x100 == b1 as int &&
      w / 0x1_0000 % 0x100 == b2 as int && w / 0x100_0000 == b3 as int
  {
    var w := LoadLE32(b0, b1, b2, b3);
    assert w == b0 as int + 0x100 * (b1 as int + 0x100 * (b2 as int + 0x100 * b3 as int));
    assert w / 0x100 == b1 as int + 0x100 * (b2 as int + 0x100 * b3 as int);
    assert w / 0x1_0000 == b2 as int + 0x100 * b3 as int;
    assert w / 0x100_0000 == b3 as int;
  }

  /** Unpacking a little-endian word gives back its three low bytes, in order. */
  lemma UnpackLoad(b0: byte, b1: byte, b2: byte, b3: byte)
    ensures Unpack(LoadLE32(b0, b1, b2, b3)) == Rgb(b0, b1, b2)
  {
    LoadBytes(b0, b1, b2, b3);
  }

  /** `*(unsigned int *)(row + offset)`: the little-endian word at a byte offset of a row. */
  function WordAt(row: seq<byte>, offset: nat): uint32
    requires offset + 4 <= |row|
  {
    LoadLE32(row[offset], row[offset + 1], row[offset + 2], row[offset + 3])
  }

  /**
   * Byte `offset + k` of the row is digit `k`, in base 256, of the word
   * loaded at `offset` (little-endian): the lowest digit is the first byte.
   */
  lemma WordAtBytes(row: seq<byte>, offset: nat)
    requires offset + 4 <= |row|
    ensures var w := WordAt(row, offset);
      w % 0x100 == row[offset] as int && w / 0x100 % 0x100 == row[offset + 1] as int &&
      w / 0x1_0000 % 0x100 == row[offset + 2] as int && w / 0x100_0000 == row[offset + 3] as int
  {
    LoadBytes(row[offset], row[offset + 1], row[offset + 2], row[offset + 3]);
  }

  /**
   * The colour of pixel `x` of a row: the word at byte offset `x * 4`,
   * unpacked. It is the first three bytes of the pixel, in order; the
   * fourth byte (alpha) does not take part.
   */
  function PixelRgb(row: seq<byte>, x: nat): (c: Rgb)
    requires 4 * x + 4 <= |row|
    ensures c == Rgb(row[4 * x], row[4 * x + 1], row[4 * x + 2])
  {
    UnpackLoad(row[4 * x], row[4 * x + 1], row[4 * x + 2], row[4 * x + 3]);
    Unpack(LoadLE32(row[4 * x], row[4 * x + 1], row[4 * x + 2], row[4 * x + 3]))
  }

  /** Two rows that agree on the first three bytes of pixel `x` give it the same colour. */
  lemma AlphaByteIgnored(row: seq<byte>, row': seq<byte>, x: nat)
    requires 4 * x + 4 <= |row| && 4 * x + 4 <= |row'|
    requires row[4 * x] == row'[4 * x] && row[4 * x + 1] == row'[4 * x + 1] && row[4 * x + 2] == row'[4 * x + 2]
    ensures PixelRgb(row, x) == PixelRgb(row', x)
  {
  }

  /** An image (a list of rows) holds `w` pixels of four bytes in each of its first `h` rows. */
  predicate Covers(img: seq<seq<byte>>, w: int, h: int) {
    h <= |img| && forall y :: 0 <= y < h ==> 4 * w <= |img[y]|
  }
}
