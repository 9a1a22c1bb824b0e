/**
 * The part of `read_png_file` that runs before any codec state exists: the
 * first eight bytes of the input are read and compared with the PNG file
 * signature (section 5.2 of the PNG Specification, ISO/IEC 15948). On a
 * short read or a mismatch the file is closed and the function gives up.
 */
module PngRead {
  import opened PackedColor

  /** `cmp_number`: how many bytes are read and compared. */
  const SignatureLength: nat := 8

  /** The eight-byte PNG file signature: `\x89 P N G \r \n \x1a \n`. */
  const PngSignature: seq<byte> := [137, 80, 78, 71, 13, 10, 26, 10]

  /** How the prefix of the input ends the check. */
  datatype Prefix =
    | ShortRead     // `fread` delivered fewer than eight bytes
    | NotPng        // eight bytes, but not the signature
    | SignatureOk   // the signature: decoding goes on

  /**
   * The outcome for an input whose bytes are `contents`: its first eight
   * bytes are read; fewer than eight is a short read, and otherwise they
   * are compared with the signature.
   */
  function ClassifyPrefix(contents: seq<byte>): (p: Prefix)
    ensures p == ShortRead <==> |contents| < |PngSignature|
    ensures p == SignatureOk <==> PngSignature <= contents
  {
    if |contents| < SignatureLength then ShortRead
    else if contents[..SignatureLength] != PngSignature then NotPng
    else SignatureOk
  }

  /** Every input that starts with the signature is accepted, whatever follows it. */
  lemma SignatureThenAnything(rest: seq<byte>)
    ensures ClassifyPrefix(PngSignature + rest) == SignatureOk
  {
    assert (PngSignature + rest)[..SignatureLength] == PngSignature;
  }

  /**
   * Changing any one of the first eight bytes of an accepted input makes
   * it rejected as not a PNG file.
   */
  lemma OneWrongByte(contents: seq<byte>, i: nat, v: byte)
    requires ClassifyPrefix(contents) == SignatureOk && i < SignatureLength && v != contents[i]
    ensures ClassifyPrefix(contents[i := v]) == NotPng
  {
    assert contents[i := v][..SignatureLength][i] == v;
  }

  /**
   * Netpbm files are never taken for PNG: both PPM variants start with the
   * byte of `'P'`, where the signature has `0x89`.
   */
  lemma PpmIsNotPng(contents: seq<byte>)
    requires |contents| >= SignatureLength && contents[0] == 'P' as int as byte
    ensures ClassifyPrefix(contents) == NotPng
  {
    assert contents[..SignatureLength][0] != PngSignature[0];
  }

  /**
   * An input file opened for binary reading (`FILE *` from `fopen(name,
   * "rb")`): its whole contents, the read position and whether it is still
   * open.
   */
  class InputFile {
    const contents: seq<byte>
    var pos: nat
    var isOpen: bool

    ghost predicate Valid()
      reads this
    {
      pos <= |contents|
    }

    /** A file just opened: positioned at its first byte. */
    constructor Open(contents: seq<byte>)
      ensures this.contents == contents && pos == 0 && isOpen && Valid()
    {
      this.contents := contents;
      pos := 0;
      isOpen := true;
    }

    /**
     * `fread(buf, 1, n, fp)`: delivers the next `n` bytes, or all that
     * remain when fewer than `n` are left, and advances past them.
     */
    method Read(n: nat) returns (got: seq<byte>)
      requires Valid() && isOpen
      modifies this
      ensures Valid() && isOpen && old(pos) <= pos
      ensures |got| == if old(pos) + n <= |contents| then n else |contents| - old(pos)
      ensures got == contents[old(pos) .. pos]
    {
      var end := if pos + n <= |contents| then pos + n else |contents|;
      got := contents[pos .. end];
      pos := end;
    }

    /** `fclose(fp)`: the file is closed and its position stays where it was. */
    method Close()
      requires isOpen
      modifies this
      ensures !isOpen && pos == old(pos)
    {
      isOpen := false;
    }
  }

  /**
   * The signature check of `read_png_file` on a freshly opened file.
   * `proceeds` is false exactly when the function returns NULL here; the
   * file is then closed. When it is true the file is still open, positioned
   * just past the signature, and decoding continues.
   */
  method ReadPngFilePrefix(f: InputFile) returns (header: seq<byte>, proceeds: bool)
    requires f.Valid() && f.isOpen && f.pos == 0
    modifies f
    ensures proceeds <==> ClassifyPrefix(f.contents) == SignatureOk
    ensures f.Valid() && f.isOpen == proceeds
    ensures proceeds ==> header == PngSignature && f.pos == SignatureLength
    ensures header == f.contents[..f.pos]
  {
    header := f.Read(SignatureLength);
    if |header| != SignatureLength {
      f.Close();
      return header, false;
    }
    if header != PngSignature {
      f.Close();
      return header, false;
    }
    proceeds := true;
  }
}
