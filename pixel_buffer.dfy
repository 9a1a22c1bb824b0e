/**
 * The row-indirect pixel buffer (`png_bytepp`): an index array whose slots
 * point at independently allocated byte rows, and its release.
 */
module PixelBuffer {
  import opened PackedColor

  /** The index together with every row slot below `height` that is not null. */
  function Footprint(data: array?<array?<byte>>, height: int): set<object?>
    reads data
  {
    if data == null then {}
    else {data as object?} + set y | 0 <= y < data.Length && y < height :: data[y] as object?
  }

  /**
   * What the PPM writers need of their argument: when there is a pixel to
   * read (`width > 0` and `height > 0`), an index of at least `height`
   * slots whose first `height` rows exist and hold at least `4 * width`
   * bytes each. With no pixel to read, neither the index nor a row is
   * dereferenced, so either may be null.
   */
  ghost predicate Readable(data: array?<array?<byte>>, width: int, height: int)
    reads data
  {
    width > 0 && height > 0 ==>
      data != null && height <= data.Length &&
      forall y :: 0 <= y < height ==> data[y] != null && 4 * width <= data[y].Length
  }

  /**
   * The bytes of the first `height` rows, as values. When `width <= 0` the
   * writers read no byte of any row, and each row contributes nothing.
   */
  ghost function Snapshot(data: array?<array?<byte>>, width: int, height: int): (img: seq<seq<byte>>)
    requires Readable(data, width, height)
    reads data, Footprint(data, height)
    ensures |img| == if height < 0 then 0 else height
    ensures forall y :: 0 <= y < height ==> img[y] == if width > 0 then data[y][..] else []
    ensures Covers(img, width, height)
    decreases height
  {
    if height <= 0 then []
    else Snapshot(data, width, height - 1) + [if width > 0 then data[height - 1][..] else []]
  }

  /**
   * A buffer as the generators hand it out: exactly `height` row slots, each
   * holding its own row of `rowbytes` bytes (no two slots share a row).
   */
  ghost predicate RowIndirect(data: array<array?<byte>>, height: nat, rowbytes: nat)
    reads data
  {
    data.Length == height &&
    (forall y :: 0 <= y < height ==> data[y] != null && data[y].Length == rowbytes) &&
    (forall y, y' :: 0 <= y < y' < height ==> data[y] != data[y'])
  }

  /**
   * `free_image_data`: releases rows `0 .. height - 1` in order, nulling each
   * slot, then releases the index. `visited` is the order in which the row
   * indices are handled and `released` the order of the blocks handed to
   * `free`. With `height <= 0` no slot is read or written (the index may
   * then be null, as it is after a failed decode).
   */
  method FreeImageData(data: array?<array?<byte>>, height: int)
    returns (ghost visited: seq<int>, ghost released: seq<object?>)
    requires height > 0 ==> data != null && height <= data.Length
    modifies data
    ensures |visited| == (if height < 0 then 0 else height)
    ensures forall i :: 0 <= i < |visited| ==> visited[i] == i
    ensures |released| == |visited| + 1 && released[|visited|] == data
    ensures forall i :: 0 <= i < |visited| ==> released[i] == old(data[i])
    ensures data != null ==> forall y :: 0 <= y < data.Length ==>
      data[y] == if y < height then null else old(data[y])
  {
    visited, released := [], [];
    var y := 0;
    while y < height
      invariant 0 <= y && (y <= height || y == 0)
      invariant |visited| == y && forall i :: 0 <= i < y ==> visited[i] == i
      invariant |released| == y && forall i :: 0 <= i < y ==> released[i] == old(data[i])
      invariant data != null ==> forall k :: 0 <= k < data.Length ==>
        data[k] == if k < y then null else old(data[k])
    {
      visited := visited + [y];
      released := released + [data[y]];
      data[y] := null;
      y := y + 1;
    }
    released := released + [data];
  }
}
