# PNG reader and writer for 8-bit RGB images

This project models `png.py` in Dafny. The file holds one class, `PNG`, which handles a
subset of the PNG format (ISO/IEC 15948): 8-bit RGB, non-interlaced images.

- **Reading.** The class checks the 8-byte signature (`valid_png`) and takes the seven
  IHDR fields from the 13 bytes after the first `IHDR` tag (`read_header`).
- **Chunk walk.** `read_chunks` walks the chunks from offset 33 and collects the IDAT
  payloads until IEND, then joins and decompresses them.
- **Rows.** It cuts the decompressed stream into scanlines of `1 + 3 * width` bytes and
  undoes filter types 0 to 4 (`inverse_filter`). Each row is appended to `img` as RGB
  triplets and becomes the `upper_row` of the next scanline.
- **Writing.** `save_rgb` zeroes two of the three channels of every pixel in place, lays
  the rows out as filter-type-0 scanlines, and frames signature, IHDR, IDAT and IEND with
  CRCs computed by `cal_crc`.

The Dafny modules follow that structure:

- `Bytes` holds bytes, 32-bit values, big-endian conversion and the errors that can be
  raised.
- `Header` holds the IHDR payload: how it is written, how it is parsed, and how
  `read_header` finds and slices it.
- `Chunks` holds chunk framing and the chunk walk, as a function over the bytes after the
  cursor.
- `Filters` holds the reconstruction of one scanline: a spec function `Defilter`, generic
  in the predictor, together with the filtering of section 9.2 of the PNG specification
  as an independent reference.
- `Image` holds the row loop as a function (`DecodeRows`) and an equivalent
  characterization (`DecodesAll`), plus channel zeroing and the writer's scanline buffer.
- `Png` holds the class. Its methods have the source's loops: a cursor loop for the walk,
  loops over an array for filter types 1, 3 and 4, a row loop appending to `img`, and the
  zeroing loops that update `img` in place. Each is proved against the spec functions.

zlib's compressor and decompressor and `zlib.crc32` are function-valued parameters
(`deflate`, `inflate`, `crc32`). File input and output are replaced by the `data` field
and by `SaveRgb`'s returned bytes.

The model follows the code where it is more lenient than the PNG specification:

- An unknown filter type yields a row of zeros and is not an error.
- A non-IDAT chunk whose length runs past the end of the data ends the walk without an
  error.
- CRCs are never checked.
- The number of rows is not compared with `height`.
- `img` is appended to and never cleared.
- `read_header` uses the first `IHDR` anywhere in the data. When no `IHDR` is present,
  `find` returns -1 and the bytes from offset 3 are read.

## Model

| member | source | states |
|---|---|---|
| Bytes.BigEndian | png.py:45-46 | `int.from_bytes(s, 'big')`; U32AtIsBigEndian ties the four-byte reading to it |
| Bytes.Be32 | png.py:156 | `to_bytes(4, 'big')` writes four bytes, which U32At reads back to the value (Be32Decodes) and which are the only four bytes reading to it (U32AtEncodes) |
| Bytes.U32At | png.py:65 | the chunk-length reading; U32AtIsBigEndian shows it is `int.from_bytes` of the four bytes |
| Bytes.U32AtIsBigEndian | png.py:45-46 | reading four bytes at an offset is `int.from_bytes(..., 'big')` of those bytes |
| Bytes.Be32Decodes | png.py:156 | reading back the four bytes `to_bytes(4, 'big')` writes gives the value |
| Bytes.U32AtEncodes | png.py:45-46 | re-encoding any four bytes read big-endian gives the same bytes |
| Header.IhdrBytes | png.py:156-159 | the IHDR payload the writer builds is 13 bytes long |
| Header.ParseIhdr | png.py:45-51 | the seven fields of a full payload; ParseIhdrBytes and IhdrBytesOfParse show it inverts the writer's payload in both directions |
| Header.ParseIhdrBytes | png.py:45-51 | parsing the written payload gives back all seven fields, for widths and heights below 2^32 and other fields below 256 |
| Header.IhdrBytesOfParse | png.py:45-51 | every 13-byte payload parses to fields that fit, and writing them gives the same 13 bytes |
| Header.FindFrom | png.py:41 | `find` returns the lowest index at or after the start where the tag occurs, or -1 when there is none |
| Header.PySlice | png.py:43 | a Python slice is the exact slice when the bounds are in range, the tail from `lo` when only `hi` is past the end, and empty when `lo` is past the end |
| Header.IhdrSlice | png.py:41-43 | `read_header` takes at most 13 payload bytes |
| Header.HeaderRead | png.py:45-51 | width and height are the big-endian values of the bytes present; each one-byte field whose byte is present gets that byte, in order, and each from the first missing byte on keeps its old value; a full payload gives the parsed fields |
| Header.IhdrSliceAt12 | png.py:41-43 | with `IHDR` at offset 12 and no `I` before it, the payload is bytes 16 to 29 |
| Chunks.Join | png.py:83 | `b''.join` of the IDAT pieces; InflatedWalk and SavedStreamInflates use it for the stream that is decompressed |
| Chunks.CalCrc | png.py:194-198 | the checksum is taken over the tag followed by the data; Container applies it to every chunk the writer emits |
| Chunks.Walk | png.py:62-81 | the chunk loop over the bytes after the cursor; WalkExtends, WalkOneFrame, WalkCollectsIdat and the error lemmas state what it collects and when it raises |
| Chunks.WalkFrom | png.py:60-62 | the walk from a cursor, empty once the cursor is at or past the end; CollectIdat is proved against it |
| Chunks.WalkExtends | png.py:62-81 | the walk only appends to the IDAT data collected so far, and fails only with the incomplete-chunk, non-ASCII-tag or incomplete-IDAT error |
| Chunks.Frame | png.py:160-164 | a chunk takes 12 bytes plus its data |
| Chunks.FrameFields | png.py:65-68 | the walk reads back a frame's length, tag and data, and finds what follows the CRC |
| Chunks.WalkOneFrame | png.py:62-81 | one non-IEND chunk appends its data when it is an IDAT chunk and the walk moves past its CRC |
| Chunks.WalkSkipsFrames | png.py:62-81 | a run of well-formed non-IEND chunks contributes exactly their IDAT data, in order |
| Chunks.WalkCollectsIdat | png.py:60-81 | chunks followed by IEND give exactly their IDAT data in file order, whatever bytes follow IEND |
| Chunks.WalkOneIdat | png.py:60-81 | after 33 bytes, one IDAT chunk and an IEND chunk give that IDAT's data |
| Chunks.WalkStopsAtIend | png.py:80-81 | the walk stops after IEND even when bytes remain |
| Chunks.WalkIncompleteChunk | png.py:63-64 | fewer than 8 bytes left for a chunk raises |
| Chunks.WalkIncompleteIdat | png.py:71-73 | an IDAT whose declared length runs past the end raises |
| Chunks.WalkOverrunSkipped | png.py:76-79 | a non-IDAT chunk that runs past the end ends the walk without error, keeping the IDAT data so far |
| Filters.At | png.py:115 | the byte three positions back is 0 before position 3 |
| Filters.Paeth | png.py:135-139 | the Paeth predictor; PaethNearest and PaethPickUnique characterize it |
| Filters.PaethNearest | png.py:135-139 | Paeth returns one of the three neighbours, nearest to `left + up - upper_left`, ties going to left, then up |
| Filters.PaethPickUnique | png.py:135-139 | that characterization determines the result: any byte meeting it is Paeth's |
| Filters.Predictor | png.py:113-140 | the Sub, Up and Paeth predictions are one of the three neighbours, and the Average prediction lies between left and up |
| Filters.PredictorOf | png.py:113-140 | Predictor lifted to the function value Defilter takes, agreeing with it on every input |
| Filters.PredictAt | png.py:115-134 | the prediction at a position from the byte three back, the byte above and the byte above-left, 0 before position 3; PredictAtPrefix shows it reads only earlier reconstructed bytes |
| Filters.Defilter | png.py:113-140 | reconstruction keeps the row's length |
| Filters.Zeros | png.py:105 | `[0] * n` has n zero bytes |
| Filters.Defiltered | png.py:98-141 | the result has the row's length; type 0 returns the row; any type above 4 returns zeros |
| Filters.DefilterReconstructs | png.py:113-140 | every reconstructed byte is the filtered byte plus its prediction from earlier bytes, modulo 256 |
| Filters.ReconstructsUnique | png.py:113-140 | that property determines the reconstruction |
| Filters.Filter | png.py:113-140 | the reference filter of section 9.2 of the PNG specification keeps the length |
| Filters.DefilterUndoesFilter | png.py:113-140 | reconstruction recovers any row from its filtering |
| Filters.FilterUndoesDefilter | png.py:113-140 | filtering the reconstruction recovers the filtered row |
| Filters.AddMod | png.py:116 | the byte sum modulo 256; ModArithmetic shows it is Python's `(a + b) % 256` |
| Filters.ModArithmetic | png.py:116 | the if-then-else byte sum and difference are `% 256` of the sum and difference |
| Image.Triplets | png.py:94 | the cutting of a row's bytes into triplets; FlattenTriplets, TripletsUniform and TripletsFlatten show it loses nothing and inverts flattening |
| Image.FlattenTriplets | png.py:94-96 | the bytes of a row's triplets are the decoded row, which becomes `upper_row` |
| Image.TripletsUniform | png.py:94 | `3 * width` bytes make `width` triplets of 3 bytes |
| Image.TripletsFlatten | png.py:94 | cutting a row of 3-byte pixels' bytes into triplets gives the row back |
| Image.FlattenSnoc | png.py:174 | extending the scanline by a pixel appends that pixel's bytes |
| Image.DecodeRows | png.py:85-96 | the row loop as a function; DecodeRowsCount, DecodeRowsUniform, DecodeRowsChain and DecodesAllUnique state its rows and when it raises |
| Image.DecodeRowsCount | png.py:88-91 | as many rows as complete scanlines, and a raise exactly when bytes are left over |
| Image.DecodeRowsUniform | png.py:94 | every row has `width` RGB triplets |
| Image.OffsetIsProduct | png.py:88 | scanline k starts at `k * (1 + 3 * width)` |
| Image.Scanline | png.py:91-92 | a scanline is `1 + 3 * width` bytes |
| Image.DecodeRowsChain | png.py:85-96 | row k is scanline k reconstructed under row k-1's bytes, and under the initial `upper_row` for row 0 |
| Image.DecodesPrefixSnoc | png.py:89-96 | appending the next complete scanline's row extends a decoded prefix |
| Image.DecodesPrefixStep | png.py:89-96 | one pass of the row loop extends the prefix and sets `upper_row` to the decoded bytes |
| Image.DecodeRowsDecodesAll | png.py:85-96 | the row function meets the loop's characterization |
| Image.DecodesPrefixAgree | png.py:85-96 | two decoded prefixes agree as far as both go |
| Image.DecodesAllLength | png.py:88-91 | the characterization fixes the number of rows |
| Image.DecodesAllAgree | png.py:85-96 | the characterization fixes the rows |
| Image.DecodesAllUnique | png.py:85-96 | any rows meeting the characterization are the rows the function computes, with a raise exactly when bytes are left after the last row |
| Image.ZeroPixel | png.py:170-173 | channels `opt % 3` and `(opt + 1) % 3` become 0 and every other channel is kept, so channel `(opt + 2) % 3` is unchanged |
| Image.ZeroRow | png.py:171-173 | every pixel of the row is zeroed |
| Image.ZeroGrid | png.py:168-173 | every row of the image is zeroed |
| Image.ZeroGridIdempotent | png.py:168-173 | zeroing twice is zeroing once, so pixels shared between rows end the same |
| Image.Scanlines | png.py:166-175 | the writer's buffer; ScanlinesSnoc, DecodeScanlines and ZeroGridDecodes state its layout and that it decodes back |
| Image.ScanlinesSnoc | png.py:175 | each row adds a 0 byte and its pixel bytes to the buffer |
| Image.DecodeScanlines | png.py:85-96 | decoding the writer's buffer of `width`-pixel rows gives those rows back, with no partial scanline |
| Image.ZeroGridDecodes | png.py:166-175 | the buffer of a zeroed image decodes to the zeroed image |
| Png.Inflated | png.py:59-84 | the walk followed by decompression; InflatedWalk and SavedStreamInflates state when it gives the stream |
| Png.Container | png.py:153-188 | the file is signature + IHDR + IDAT + IEND, of length 45 + 12 + the IDAT data |
| Png.PNG.constructor | png.py:9-20 | no data, all header fields 0, no rows |
| Png.PNG.ValidPng | png.py:33-37 | true exactly when the data starts with the 8 signature bytes |
| Png.PNG.ReadHeader | png.py:39-51 | the fields become what the IHDR slice gives, and the method raises exactly when fewer than 13 bytes are there |
| Png.PNG.CollectIdat | png.py:59-81 | the cursor loop ends with the walk's result from offset 33 |
| Png.PNG.InverseFilter | png.py:98-141 | the row returned is the reconstruction for the filter type |
| Png.PNG.SubRow | png.py:113-116 | the in-place loop computes the type-1 reconstruction |
| Png.PNG.AverageRow | png.py:123-127 | the in-place loop computes the type-3 reconstruction |
| Png.PNG.PaethRow | png.py:130-140 | the in-place loop computes the type-4 reconstruction |
| Png.PNG.PaethPredictor | png.py:135-139 | the inline predictor returns one of the three neighbours, nearest to `left + up - upper_left`, ties going to left, then up |
| Png.PaethPredicts | png.py:135-140 | any byte meeting that characterization is the type-4 prediction |
| Png.PNG.ReadChunks | png.py:53-96 | a walk or decompression error raises with `img` unchanged; otherwise the decoded rows are appended, with a raise exactly when a partial scanline is left |
| Png.PNG.AppendRows | png.py:85-96 | the rows appended meet the characterization under a zero first `upper_row`, with a raise exactly when bytes are left over |
| Png.PNG.SaveRgb | png.py:143-192 | `img` is zeroed in place and the file is the container of the header fields and the compressed scanline buffer |
| Png.PNG.ZeroAndLayOut | png.py:166-175 | every row is zeroed and the buffer is the zeroed image's scanlines |
| Png.PNG.ZeroRowInPlace | png.py:168-175 | one row is zeroed, the others are untouched, and its scanline is 0 followed by its pixel bytes |
| Png.SavedHeaderReadsBack | png.py:33-51 | a saved file passes `valid_png` and `read_header` gets back the fields it was written from |
| Png.IhdrAfterSignature | png.py:41-43 | after the signature and an IHDR length field of 13, the payload found is the chunk's data |
| Png.SavedIdatReadsBack | png.py:177-188 | the walk over a saved file collects exactly its one IDAT payload |
| Png.SavedStreamInflates | png.py:83-84 | when the decompressor undoes the compressor, the saved IDAT data decompresses to the scanline buffer |
| Png.SaveThenLoad | png.py:143-188 | under that assumption, loading a saved image gives back the zeroed image, complete |
| Png.InflatedWalk | png.py:83-84 | a successful walk and decompression give the decompressed stream |
| Png.WalkFromShort | png.py:63-64 | fewer than 8 bytes at the cursor raises |
| Png.WalkFromStep | png.py:65-81 | one pass of the cursor loop: the error raised, or the walk that remains from the next cursor |
| Png.DefilterStep | png.py:113-140 | one pass of a filter loop appends the filtered byte plus the prediction, modulo 256 |
| Png.UpReconstructs | png.py:119-120 | the type-2 comprehension is the reconstruction with the up predictor |

## Left out

- zlib compression and decompression are the parameters `deflate` and `inflate`.
  `SaveThenLoad` assumes `inflate` undoes `deflate` on the scanline buffer. The code calls
  `compressobj().compress` without `flush()`, and real zlib does not guarantee that for
  that output.
- `zlib.crc32` is the parameter `crc32`. The model checks only which bytes it is applied
  to, not the checksum itself.
- File input and output are left out: `load_file`, the `info` string, and the `open` and
  `write` in `save_rgb`. `data` is a field, and `SaveRgb` returns the bytes it would
  write.
- The chunk tag is not decoded as ASCII. A tag with a byte of 128 or more raises
  `NonAsciiTag`, which stands for the UnicodeDecodeError. Tags are compared as bytes.
- Python's bytes-versus-list distinction is left out. Rows of filter type 0 come back as
  bytes slices, so assigning to their pixels in `save_rgb` would raise TypeError. In the
  model every pixel is a byte sequence that can be updated.
- Png.PNG.SaveRgb: requires header fields that `to_bytes` can write and a compressed size
  below 2^32. The OverflowError for values out of range is not modelled.
- Png.PNG.SaveRgb: requires every pixel to have the two channels it zeroes. The
  IndexError for shorter pixels is not modelled.
- Png.PNG.InverseFilter: requires `upper_row` to be at least as long as the row for types
  2 to 4. The IndexError for a shorter one is not modelled, and it cannot occur from
  `read_chunks`.
- Pixel aliasing in `save_rgb` is not modelled: `img` is a sequence of values. Zeroing is
  idempotent (`Image.ZeroGridIdempotent`), so a pixel object shared between positions
  ends the same.
- Integer fields are `nat`, as Python's integers are unbounded. Bytes read from the data
  are 0..255 by type.
