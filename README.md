# libpng_usage host-side core, modelled in Dafny

`lib-libpng.cpp` wraps a PNG codec with host-side byte handling. This project
models that handling and proves what it produces:

- **Synthetic images.** `generate_color_image` and `generate_color_imagea` allocate a
  row-indirect RGBA buffer (`png_bytepp`: an index array of `height` slots, each holding a row of
  `width * 4` bytes) and fill it in place. The bordered variant clears alpha inside a
  border whose test is `y < margin || y >= height - margin - 1` (and likewise for `x`).
  The test is reproduced as written: the far band is one row (column) wider than the near one.
- **PPM writers.** `write_ppm_p3_file` and `write_ppm_p6_file` write Netpbm PPM.
  - They read each pixel as a little-endian 32-bit word at byte offset `x * sizeof(unsigned int)`, that is `x * 4`.
  - `& 0xFF`, `>> 8 & 0xFF` and `>> 16 & 0xFF` pull the channels out.
  - P3 prints them as decimal lines; P6 writes them as raw bytes.
  - The result of `fopen` is the input `openOk`. What is written is the output sequence `out`.
- **Buffer release.** `free_image_data` nulls every row slot below `height`, then frees the index.
- **PNG signature check.** `read_png_file` reads eight bytes and compares them with the PNG file
  signature `137 80 78 71 13 10 26 10` (section 5.2 of the PNG Specification,
  ISO/IEC 15948). On a short read or a mismatch it closes the file and returns NULL.
  The file is a small class (`InputFile`) with a read position and an open flag.

Each writer method is proved against a specification function of the bytes it reads
(`P3Document`, `P6Document`). Those functions are then tied to independent partners:

- readers (`ParseP3`, `ParseP6`) that give back the width, the height and the row-major
  pixel colours;
- a flat byte-level description of every pixel;
- alpha-independence.

Each generator is proved against a value description of the image (`SolidImage`,
`BorderedImage`). Those are stated pixel by pixel and connected to the writers.

Files: `wrappers.dfy` (Option), `decimal.dfy` (`%d`), `packed_color.dfy` (bytes, words,
channel extraction), `pixel_buffer.dfy` (the row-indirect buffer and its release),
`generators.dfy`, `ppm_format.dfy` (the exact file contents), `ppm_parse.dfy` (readers and
round trips), `ppm_writer.dfy` (the two writers), `image_files.dfy` (generated images as
written), `png_read.dfy` (the signature check).

With margin 1, a 4 x 4 bordered image has only pixel (1, 1) opaque. Pixel (2, 2) is
transparent because `2 >= 4 - 1 - 1`. `Generators.FourByFourMarginOne` states it.

The writers index the row buffer only inside the pixel loop. So with `width <= 0` neither the
index nor any row is read, and both may be null: `write_ppm_p3_file(name, NULL, 0, 0, 3)`
writes `"P3\n0 3\n255\n"` and three empty lines. The model's writers take such buffers too
(`PpmWriter.NullBufferNoColumns`).

## Model

| member | source | states |
|---|---|---|
| Generators.AllocateRows | lib-libpng.cpp:380-384 | a fresh index of exactly `height` slots, each a fresh row of `rowbytes` bytes, no two slots sharing a row |
| Generators.FillUniformRow | lib-libpng.cpp:390-397 | after the inner loop the row is `width` pixels of `r, g, b, a` |
| Generators.GenerateColorImage | lib-libpng.cpp:375-401 | returns a fresh buffer of `height` distinct fresh rows of `4 * width` bytes whose contents are the solid image |
| Generators.SolidPixel | lib-libpng.cpp:386-398 | the solid image has `height` rows of `4 * width` bytes, and bytes `4x .. 4x + 3` of row `y` are exactly `r, g, b, 0xFF` |
| Generators.FillBorderedRow | lib-libpng.cpp:431-442 | on a row outside the top and bottom bands, each pixel gets `r, g, b` and alpha `0x00` exactly when the column test holds, else `0xFF` |
| Generators.BandRowIsTransparent | lib-libpng.cpp:418-428 | a row that passes the row test is entirely `r, g, b, 0x00`, matching the border description for every column |
| Generators.GenerateColorImageA | lib-libpng.cpp:403-447 | returns a fresh buffer of `height` distinct fresh rows of `4 * width` bytes whose contents are the bordered image |
| Generators.BorderedPixel | lib-libpng.cpp:414-444 | bytes `4x .. 4x + 3` of row `y` are `r, g, b` and then `0x00` if the pixel passes the border test, `0xFF` if not |
| Generators.BorderedDiffersOnlyInAlpha | lib-libpng.cpp:414-444 | the bordered and solid images have the same shape and agree on every byte except the alpha bytes, which are the border alpha and `0xFF` |
| Generators.InBorder | lib-libpng.cpp:418-438 | a pixel is outside the border (opaque) exactly when it lies at least `margin` from the near edges and more than `margin` from the far edges |
| Generators.BorderBands | lib-libpng.cpp:418-438 | a pixel is in the border iff it lies within `margin` of the near edges or within `margin + 1` of the far edges: the asymmetry, both directions |
| Generators.FourByFourMarginOne | lib-libpng.cpp:418-441 | in a 4 x 4 image with margin 1 only pixel (1, 1) is opaque; pixel (2, 2) is transparent |
| PackedColor.WordAtBytes | lib-libpng.cpp:49 | the word loaded at a byte offset has, from least to most significant, the four bytes at that offset as its base-256 digits |
| PackedColor.UnpackRepack | lib-libpng.cpp:51 | the three masked and shifted channels are the three low bytes of the word: with its top byte they rebuild it |
| PackedColor.UnpackLoad | lib-libpng.cpp:49-51 | masking and shifting a little-endian word gives back its first three bytes, in order |
| PackedColor.PixelRgb | lib-libpng.cpp:49-51 | the colour read at byte offset `x * 4` is bytes `4x`, `4x + 1`, `4x + 2` of the row |
| PackedColor.AlphaByteIgnored | lib-libpng.cpp:82-85 | rows agreeing on the three colour bytes of a pixel give it the same colour, whatever the fourth byte |
| PixelBuffer.FreeImageData | lib-libpng.cpp:20-28 | visits row indices `0 .. height - 1` once each, in order, frees each old row and then the index, and leaves exactly the slots below `height` null; with `height <= 0` no slot is touched |
| Decimal.NatToDecimal | lib-libpng.cpp:51 | `%d` of a non-negative value is a non-empty string of digits without a leading zero |
| Decimal.IntToDecimalValue | lib-libpng.cpp:43 | `%d` of any integer is a signed numeral whose value is that integer, starting with a minus sign exactly when the integer is negative |
| Decimal.DecValueOfDecimal | lib-libpng.cpp:51 | the numeral printed for `n` denotes `n` |
| Decimal.ByteDecimalLength | lib-libpng.cpp:51 | a channel value prints as one to three digits |
| Decimal.ReadNatOfDecimal | lib-libpng.cpp:51 | reading the numeral of `n`, followed by anything that does not start with a digit, gives back `n` and the rest |
| PpmFormat.Header | lib-libpng.cpp:43 | the header has only characters below 256, so it can be written as bytes |
| PpmFormat.HeaderText | lib-libpng.cpp:43 | the header is `"P3\n"` or `"P6\n"`, the decimal width, a space, the decimal height, then `"\n255\n"` |
| PpmFormat.RgbLineText | lib-libpng.cpp:51 | one pixel's P3 line is `"R G B\n"` in decimal |
| PpmFormat.RgbLineLength | lib-libpng.cpp:51 | one pixel's P3 line takes 6 to 12 characters |
| PpmFormat.NoColumnsRows | lib-libpng.cpp:44-54 | with `w <= 0` the P3 body is one empty line per row and the P6 body is empty, whatever the rows hold |
| PpmFormat.PixelsLength | lib-libpng.cpp:44-52 | a `w` by `h` image has `w * h` pixels |
| PpmFormat.PixelsAt | lib-libpng.cpp:44-52 | entry `y * w + x` of the pixel list is pixel `x` of row `y`: row-major order |
| PpmFormat.P6RowsAreRaw | lib-libpng.cpp:77-87 | the P6 body is the three colour bytes of every pixel in row-major order with nothing between rows |
| PpmFormat.P6Length | lib-libpng.cpp:76-87 | a P6 file is its header followed by exactly `3 * w * h` bytes |
| PpmFormat.P3RowsIgnoreAlpha | lib-libpng.cpp:44-54 | the P3 body depends only on the colour bytes of the pixels it reads |
| PpmFormat.DocumentsIgnoreAlpha | lib-libpng.cpp:49-85 | images agreeing on all colour bytes give identical P3 and P6 files: byte `4x + 3` never reaches either output |
| PpmParse.ParseLineOfRgbLine | lib-libpng.cpp:51 | reading one written `"R G B\n"` line gives back the colour and the rest of the text |
| PpmParse.ParseHeaderOfHeader | lib-libpng.cpp:43 | reading a written header gives back the width, the height and the rest |
| PpmParse.ParseRowsOfP3Rows | lib-libpng.cpp:44-54 | reading `n` written rows, each `w` lines and an empty line, gives back their colours row by row |
| PpmParse.ParseP3OfP3Document | lib-libpng.cpp:43-54 | reading a written P3 file gives back the width, the height and the row-major colour list |
| PpmParse.TriplesOfRaw | lib-libpng.cpp:85 | cutting raw bytes into triples gives back the colours they were written from |
| PpmParse.ParseP6OfP6Document | lib-libpng.cpp:76-87 | reading a written P6 file gives back the width, the height and the row-major colour list |
| PpmParse.P3AndP6Agree | lib-libpng.cpp:43-87 | the P3 and P6 files of one image read back to the same width, height and colours: P6 holds the sequence P3 prints in decimal |
| PpmWriter.P3PixelsStep | lib-libpng.cpp:49-51 | the line computed from the loaded word extends the row text by that pixel's line |
| PpmWriter.P3RowLines | lib-libpng.cpp:46-52 | the inner loop emits exactly the lines of the row's first `width` pixels |
| PpmWriter.P3Body | lib-libpng.cpp:44-54 | the outer loop emits exactly the P3 rows of the image, each followed by an empty line |
| PpmWriter.WritePpmP3File | lib-libpng.cpp:30-61 | returns false and writes nothing when the file did not open; otherwise returns true having written exactly the P3 document of the buffer's bytes; rows are needed only when `width > 0` |
| PpmWriter.P6PixelsStep | lib-libpng.cpp:82-85 | the three bytes computed from the loaded word extend the row bytes by that pixel's triple |
| PpmWriter.P6RowBytes | lib-libpng.cpp:79-86 | the inner loop emits exactly the triples of the row's first `width` pixels |
| PpmWriter.P6Body | lib-libpng.cpp:77-87 | the outer loop emits exactly the rows' triples, with nothing between rows |
| PpmWriter.WritePpmP6File | lib-libpng.cpp:63-94 | returns false and writes nothing when the file did not open; otherwise returns true having written exactly the P6 document of the buffer's bytes; rows are needed only when `width > 0` |
| PpmWriter.NullBufferNoColumns | lib-libpng.cpp:43-54 | a null buffer with width 0 and height 3 is accepted; the P3 file is the header and three empty lines, and the P6 file is the header alone |
| ImageFiles.SolidPixels | lib-libpng.cpp:386-398 | the solid image's pixel list has `width * height` entries, all `r, g, b` |
| ImageFiles.BorderedColoursAreSolid | lib-libpng.cpp:414-444 | the bordered image agrees with the solid one on every colour byte |
| ImageFiles.BorderedWritesLikeSolid | lib-libpng.cpp:403-447 | the bordered image is written to P3 and to P6 exactly as the solid image of the same size and colour: the border does not survive |
| PngRead.ClassifyPrefix | lib-libpng.cpp:110-131 | a short read is exactly an input under eight bytes; the input is accepted exactly when it starts with the signature |
| PngRead.SignatureThenAnything | lib-libpng.cpp:122 | any input starting with the signature is accepted |
| PngRead.OneWrongByte | lib-libpng.cpp:122 | changing any one of the first eight bytes of an accepted input makes it rejected as not PNG |
| PngRead.PpmIsNotPng | lib-libpng.cpp:122 | an input of eight or more bytes starting with `'P'` (as PPM files do) is rejected as not PNG |
| PngRead.InputFile.Open | lib-libpng.cpp:103 | a file just opened is open and positioned at its first byte |
| PngRead.InputFile.Read | lib-libpng.cpp:111 | `fread` delivers the next `n` bytes, or all that remain, and advances past them |
| PngRead.InputFile.Close | lib-libpng.cpp:116 | `fclose` leaves the file closed |
| PngRead.ReadPngFilePrefix | lib-libpng.cpp:110-131 | returns NULL, with the file closed, exactly when the input is not accepted; otherwise the file stays open just past the eight signature bytes |

## Left out

- The libpng codec is not part of this model. That covers the remainder of `read_png_file`
  after line 131 and all of `write_png_file`: structure creation, header parsing, row decoding
  and encoding, and the `setjmp`/`longjmp` recovery. Its behaviour lives in a library that is
  not shown.
- `png_sig_cmp` is modelled by what the PNG Specification says it checks: the eight bytes
  equal the signature. Its return value is not modelled.
- PngRead.ReadPngFilePrefix: takes a file that is already open. A failed `fopen` calls
  `abort_`, which ends the process; process termination is not modelled.
- `abort_`, `printf` and every `stderr` message are output plumbing and carry no state the
  model needs.
- Real file I/O is not modelled. Whether `fopen` succeeds is an input flag, and what is written
  is an output sequence; `fclose` on the written file has no observable effect here.
- `malloc` failure (including a NULL from `malloc(0)`) is not modelled: the source never
  checks for it.
- Generators.GenerateColorImage: takes `width` and `height` as natural numbers. Negative values
  are not modelled. In C, `sizeof(png_bytep) * height` is computed in `size_t`, so a negative
  height wraps to a huge allocation size. The `int` product `width * 4` can also overflow.
- Generators.GenerateColorImageA: the same restriction to natural `width` and `height`.
  `margin` is an unbounded integer in the model. In C, `height - margin - 1` and
  `width - margin - 1` overflow `int` (undefined behaviour) for margins near `INT_MIN`; such
  margins are not modelled.
- PpmWriter.WritePpmP3File: assumes a four-byte little-endian `unsigned int`. The byte offset
  `x * sizeof(unsigned int)` is computed in `size_t`; the model's offsets are unbounded, which
  differs only if `size_t` is 32 bits and `x >= 2^30`, where the C offset wraps.
- PpmWriter.WritePpmP6File: the same assumptions as `WritePpmP3File`.
- PixelBuffer.FreeImageData: the release of memory itself is not modelled (Dafny has no
  `free`). The ghost sequence `released` records the blocks handed to `free`, in order.
- On a short read `read_png_file` leaves the rest of its `header` array uninitialised. The
  model returns only the bytes that were read.
- `test.cpp`, the command-line driver, is glue with no logic of its own and is not part of this model.
