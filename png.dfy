/** The PNG class of png.py: a reader for 8-bit RGB, non-interlaced files that
    fills `img` with rows of `[r, g, b]` pixels, and a writer that zeroes two
    colour channels and saves the image with filter type 0 throughout. The zlib
    compressor and decompressor and the CRC-32 function are parameters. */
module Png {
  import opened Bytes
  import opened Header
  import opened Chunks
  import opened Filters
  import opened Image

  /** How a method of the class ends: normally, or by raising. */
  datatype Outcome = Done | Raised(error: Error)

  /** The decompressed IDAT stream of `data`, or the error that stops read_chunks
      before its row loop (png.py:59-84). */
  function Inflated(data: seq<byte>, inflate: seq<byte> -> Option<seq<byte>>): Result<seq<byte>>
  {
    match WalkFrom(data, WalkStart, [])
    case Err(e) => Err(e)
    case Ok(parts) =>
      match inflate(Join(parts))
      case None => Err(DecompressFailed)
      case Some(raw) => Ok(raw)
  }

  /** The bytes save_rgb writes (png.py:153-188): the signature, then the IHDR, IDAT
      and IEND chunks, each with its CRC over tag and data. */
  function Container(h: Ihdr, idat: seq<byte>, crc32: seq<byte> -> u32): (file: seq<byte>)
    requires Fits(h) && |idat| < 0x1_0000_0000
    ensures |file| == 8 + 25 + (12 + |idat|) + 12
  {
    Signature
      + Frame(Framed(crc32, IhdrTag, IhdrBytes(h)))
      + Frame(Framed(crc32, IdatTag, idat))
      + Frame(Framed(crc32, IendTag, []))
  }

  class PNG {
    var data: seq<byte>
    var width: nat
    var height: nat
    var bitDepth: nat
    var colorType: nat
    var compress: nat
    var filter: nat
    var interlace: nat
    var img: Grid

    /** png.py:9-20: no data, all header fields 0, no rows. */
    constructor ()
      ensures data == [] && img == []
      ensures width == 0 && height == 0 && bitDepth == 0 && colorType == 0
      ensures compress == 0 && filter == 0 && interlace == 0
    {
      data := [];
      width, height := 0, 0;
      bitDepth, colorType, compress, filter, interlace := 0, 0, 0, 0, 0;
      img := [];
    }

    /** The header fields as an IHDR record. */
    function Fields(): Ihdr
      reads this
    {
      Ihdr(width, height, bitDepth, colorType, compress, filter, interlace)
    }

    /** valid_png (png.py:33-37): the data starts with the 8-byte signature. */
    function ValidPng(): (r: bool)
      reads this
      ensures r <==> |data| >= 8 && data[..8] == Signature
    {
      Signature == if |data| >= 8 then data[..8] else data
    }

    /** read_header (png.py:39-51): the 13 bytes after the first `IHDR` in the data
        become the header fields, in order; when fewer than 13 are there, the fields
        up to the missing byte are assigned and the method raises. */
    method ReadHeader() returns (outcome: Outcome)
      modifies this`width, this`height, this`bitDepth, this`colorType
      modifies this`compress, this`filter, this`interlace
      ensures Fields() == HeaderRead(old(Fields()), IhdrSlice(data))
      ensures outcome == if |IhdrSlice(data)| == 13 then Done else Raised(HeaderTooShort)
    {
      var s := IhdrSlice(data);
      width := BigEndian(PySlice(s, 0, 4));
      height := BigEndian(PySlice(s, 4, 8));
      if |s| <= 8 {
        return Raised(HeaderTooShort);
      }
      bitDepth := s[8];
      if |s| <= 9 {
        return Raised(HeaderTooShort);
      }
      colorType := s[9];
      if |s| <= 10 {
        return Raised(HeaderTooShort);
      }
      compress := s[10];
      if |s| <= 11 {
        return Raised(HeaderTooShort);
      }
      filter := s[11];
      if |s| <= 12 {
        return Raised(HeaderTooShort);
      }
      interlace := s[12];
      return Done;
    }

    /** The chunk walk of read_chunks (png.py:59-81): from offset 33, collect the
        data of every IDAT chunk until IEND or the end of the data. */
    method CollectIdat() returns (r: Result<seq<seq<byte>>>)
      ensures r == WalkFrom(data, WalkStart, [])
    {
      ghost var walked := WalkFrom(data, WalkStart, []);
      var idat: seq<seq<byte>> := [];
      var position: int := WalkStart;
      while position < |data|
        invariant position >= 0 && WalkFrom(data, position, idat) == walked
        decreases |data| - position
      {
        if position + 8 > |data| {
          WalkFromShort(data, position, idat);
          return Err(IncompleteChunk);
        }
        ghost var start := position;
        var length := U32At(data, position);
        position := position + 4;
        var tag := data[position..position + 4];
        WalkFromStep(data, start, idat, length, tag);
        if !IsAscii(tag) {
          return Err(NonAsciiTag);
        }
        position := position + 4;
        if tag == IdatTag {
          if position + length > |data| {
            return Err(IncompleteIdat);
          }
          idat := idat + [data[position..position + length]];
          position := position + length;
        } else {
          position := position + length;
        }
        position := position + 4;
        if tag == IendTag {
          return Ok(idat);
        }
      }
      return Ok(idat);
    }

    /** inverse_filter (png.py:98-141). Types 2 to 4 read `upper[i]` for every
        position `i` of the row, so `upper` must be at least as long. */
    static method InverseFilter(current: seq<byte>, upper: seq<byte>, filterType: byte) returns (r: seq<byte>)
      requires 2 <= filterType <= 4 ==> |upper| >= |current|
      ensures r == Defiltered(current, upper, filterType)
    {
      var n := |current|;
      if filterType == 0 {
        r := current;
      } else if filterType == 1 {
        r := SubRow(current, upper);
      } else if filterType == 2 {
        r := seq(n, i requires 0 <= i < n => ((current[i] as int + upper[i] as int) % 256) as byte);
        UpReconstructs(current, upper, r);
      } else if filterType == 3 {
        r := AverageRow(current, upper);
      } else if filterType == 4 {
        r := PaethRow(current, upper);
      } else {
        r := seq(n, _ => 0);
      }
    }

    /** Filter type 1 (png.py:113-116): add the reconstructed byte three positions back. */
    static method SubRow(current: seq<byte>, upper: seq<byte>) returns (r: seq<byte>)
      ensures r == Defilter(current, upper, PredictorOf(1))
    {
      var n := |current|;
      var rec := new byte[n](_ => 0);
      var i := 0;
      while i < n
        invariant 0 <= i <= n
        invariant rec[..i] == Defilter(current[..i], upper, PredictorOf(1))
      {
        var left := if i >= 3 then rec[i - 3] else 0;
        ghost var prev := rec[..i];
        DefilterStep(current, upper, PredictorOf(1), i, prev, left, At(upper, i), At(upper, i - 3));
        assert PredictorOf(1)(left, At(upper, i), At(upper, i - 3)) == left;
        ModArithmetic(current[i], left);
        rec[i] := (current[i] as int + left) % 256;
        assert rec[..i] == prev && rec[i] == AddMod(current[i], left);
        assert rec[..i + 1] == rec[..i] + [rec[i]];
        i := i + 1;
      }
      assert current[..n] == current;
      return rec[..];
    }

    /** Filter type 3 (png.py:123-127): add the floor of the mean of the reconstructed
        byte three positions back and the byte above. */
    static method AverageRow(current: seq<byte>, upper: seq<byte>) returns (r: seq<byte>)
      requires |upper| >= |current|
      ensures r == Defilter(current, upper, PredictorOf(3))
    {
      var n := |current|;
      var rec := new byte[n](_ => 0);
      var i := 0;
      while i < n
        invariant 0 <= i <= n
        invariant rec[..i] == Defilter(current[..i], upper, PredictorOf(3))
      {
        var left := if i >= 3 then rec[i - 3] else 0;
        var up := upper[i];
        ghost var prev := rec[..i];
        DefilterStep(current, upper, PredictorOf(3), i, prev, left, up, At(upper, i - 3));
        assert PredictorOf(3)(left, up, At(upper, i - 3)) == (left as int + up) / 2;
        ModArithmetic(current[i], (left as int + up) / 2);
        ghost var next := prev + [AddMod(current[i], (left as int + up) / 2)];
        assert Defilter(current[..i + 1], upper, PredictorOf(3)) == next;
        rec[i] := (current[i] as int + (left as int + up) / 2) % 256;
        assert rec[..i] == prev;
        assert rec[i] == AddMod(current[i], (left as int + up) / 2);
        assert rec[..i + 1] == rec[..i] + [rec[i]];
        i := i + 1;
      }
      assert current[..n] == current;
      return rec[..];
    }

    /** Filter type 4 (png.py:130-140): add the Paeth predictor of the reconstructed
        byte three positions back, the byte above and the byte above-left. */
    static method PaethRow(current: seq<byte>, upper: seq<byte>) returns (r: seq<byte>)
      requires |upper| >= |current|
      ensures r == Defilter(current, upper, PredictorOf(4))
    {
      var n := |current|;
      var rec := new byte[n](_ => 0);
      var i := 0;
      while i < n
        invariant 0 <= i <= n
        invariant rec[..i] == Defilter(current[..i], upper, PredictorOf(4))
      {
        var left := if i >= 3 then rec[i - 3] else 0;
        var up := upper[i];
        var upperLeft := if i >= 3 then upper[i - 3] else 0;
        ghost var prev := rec[..i];
        DefilterStep(current, upper, PredictorOf(4), i, prev, left, up, upperLeft);
        var predictor := PaethPredictor(left, up, upperLeft);
        PaethPredicts(left, up, upperLeft, predictor);
        ModArithmetic(current[i], predictor);
        ghost var next := prev + [AddMod(current[i], predictor)];
        assert Defilter(current[..i + 1], upper, PredictorOf(4)) == next;
        rec[i] := (current[i] as int + predictor) % 256;
        assert rec[..i] == prev;
        assert rec[i] == AddMod(current[i], predictor);
        assert rec[..i + 1] == rec[..i] + [rec[i]];
        i := i + 1;
      }
      assert current[..n] == current;
      return rec[..];
    }

    /** The predictor of filter type 4 (png.py:135-139): of the byte to the left, the
        byte above and the byte above-left, the one nearest to their estimate, ties
        going to left, then up. */
    static method PaethPredictor(left: byte, up: byte, upperLeft: byte) returns (predictor: byte)
      ensures PaethPick(left, up, upperLeft, predictor)
    {
      var p := left as int + up - upperLeft;
      var pa, pb, pc := Abs(p - left), Abs(p - up), Abs(p - upperLeft);
      predictor := if pa <= pb && pa <= pc then left else if pb <= pc then up else upperLeft;
    }

    /** read_chunks (png.py:53-96): walk the chunks, decompress the IDAT data, and
        append one row per complete scanline to `img`; a trailing partial scanline
        raises after the complete rows before it have been appended. */
    method ReadChunks(inflate: seq<byte> -> Option<seq<byte>>) returns (outcome: Outcome)
      modifies this`img
      ensures Inflated(data, inflate).Err? ==>
        outcome == Raised(Inflated(data, inflate).error) && img == old(img)
      ensures Inflated(data, inflate).Ok? ==>
        var d := DecodeRows(Inflated(data, inflate).value, width, Zeros(3 * width));
        && img == old(img) + d.rows
        && outcome == if d.truncated then Raised(TruncatedScanline) else Done
    {
      var walked := CollectIdat();
      if walked.Err? {
        return Raised(walked.error);
      }
      var binaryIdat := Join(walked.value);
      var inflated := inflate(binaryIdat);
      if inflated.None? {
        return Raised(DecompressFailed);
      }
      ghost var rows;
      outcome, rows := AppendRows(inflated.value);
      DecodesAllUnique(inflated.value, width, Zeros(3 * width), rows);
    }

    /** The row loop of read_chunks (png.py:85-96) over the decompressed stream `raw`:
        `rows` are the rows it appends, which meet the characterization DecodesAll
        with a zero first `upper_row`. */
    method AppendRows(raw: seq<byte>) returns (outcome: Outcome, ghost rows: Grid)
      modifies this`img
      ensures img == old(img) + rows
      ensures DecodesAll(raw, width, Zeros(3 * width), rows)
      ensures outcome == if Offset(|rows|, 1 + 3 * width) != |raw| then Raised(TruncatedScanline) else Done
    {
      var w := width;
      var rowLength := 1 + 3 * w;
      var upper := Zeros(3 * w);
      ghost var first := upper;
      rows := [];
      var i := 0;
      while i < |raw|
        invariant i == Offset(|rows|, rowLength) <= |raw|
        invariant img == old(img) + rows
        invariant DecodesPrefix(raw, w, first, rows)
        invariant upper == Above(rows, first, |rows|) && |upper| == 3 * w
        decreases |raw| - i
      {
        if i + rowLength > |raw| {
          return Raised(TruncatedScanline), rows;
        }
        var filterType := raw[i];
        var currentRow := raw[i + 1..i + rowLength];
        var decodedRow := InverseFilter(currentRow, upper, filterType);
        var rowPixel := Triplets(decodedRow);
        DecodesPrefixStep(raw, rowLength, w, first, rows, |rows|, upper, decodedRow);
        img := img + [rowPixel];
        rows := rows + [rowPixel];
        upper := decodedRow;
        i := i + rowLength;
      }
      return Done, rows;
    }

    /** save_rgb (png.py:143-192): zero channels `rgbOption % 3` and
        `(rgbOption + 1) % 3` of every pixel in place, and return the file bytes:
        signature, IHDR from the header fields, one IDAT holding the compressed
        type-0 scanlines, and IEND. The header fields must fit the bytes `to_bytes`
        writes them to, and every pixel must have the two channels. */
    method SaveRgb(rgbOption: int, deflate: seq<byte> -> seq<byte>, crc32: seq<byte> -> u32)
      returns (file: seq<byte>)
      requires Fits(Fields())
      requires GridChannelsExist(img, rgbOption)
      requires |deflate(Scanlines(ZeroGrid(img, rgbOption)))| < 0x1_0000_0000
      modifies this`img
      ensures img == ZeroGrid(old(img), rgbOption)
      ensures file == Container(Fields(), deflate(Scanlines(img)), crc32)
    {
      var rawFile := Signature;
      var ihdrData := Be32(width) + Be32(height) +
        [bitDepth as byte, colorType as byte, compress as byte, filter as byte, interlace as byte];
      assert ihdrData == IhdrBytes(Fields());
      rawFile := rawFile + Be32(|ihdrData|) + IhdrTag + ihdrData + Be32(CalCrc(crc32, IhdrTag, ihdrData));
      assert rawFile == Signature + Frame(Framed(crc32, IhdrTag, IhdrBytes(Fields())));

      var scanlines := ZeroAndLayOut(rgbOption);
      var compressedIdat := deflate(scanlines);
      var idatFrame := Be32(|compressedIdat|) + IdatTag + compressedIdat + Be32(CalCrc(crc32, IdatTag, compressedIdat));
      assert idatFrame == Frame(Framed(crc32, IdatTag, compressedIdat));
      rawFile := rawFile + idatFrame;
      var iendFrame := Be32(0) + IendTag + Be32(CalCrc(crc32, IendTag, []));
      assert iendFrame == Frame(Framed(crc32, IendTag, []));
      rawFile := rawFile + iendFrame;
      file := rawFile;
    }

    /** The scanline loop of save_rgb (png.py:166-175): every pixel of every row gets
        its two channels zeroed in place and is appended to the row's scanline after
        a filter-type byte 0; the scanlines are appended one after another. */
    method ZeroAndLayOut(rgbOption: int) returns (scanlines: seq<byte>)
      requires GridChannelsExist(img, rgbOption)
      modifies this`img
      ensures img == ZeroGrid(old(img), rgbOption)
      ensures scanlines == Scanlines(img)
    {
      scanlines := [];
      var r := 0;
      while r < |img|
        invariant 0 <= r <= |img| == |old(img)|
        invariant forall j :: 0 <= j < r ==> img[j] == ZeroRow(old(img)[j], rgbOption)
        invariant forall j :: r <= j < |img| ==> img[j] == old(img)[j]
        invariant scanlines == Scanlines(img[..r])
      {
        var scanline := ZeroRowInPlace(r, rgbOption);
        ScanlinesSnoc(img[..r], img[r]);
        assert img[..r + 1] == img[..r] + [img[r]];
        scanlines := scanlines + scanline;
        r := r + 1;
      }
      assert img[..r] == img;
    }

    /** One row of the scanline loop: zero the pixels of row `r` in place and return
        its scanline. */
    method ZeroRowInPlace(r: nat, rgbOption: int) returns (scanline: seq<byte>)
      requires r < |img|
      requires forall k :: 0 <= k < |img[r]| ==> ChannelsExist(img[r][k], rgbOption)
      modifies this`img
      ensures |img| == |old(img)|
      ensures img == old(img)[r := ZeroRow(old(img)[r], rgbOption)]
      ensures scanline == [0] + Flatten(img[r])
    {
      var row := img[r];
      scanline := [0];
      var zeroChannel := [rgbOption % 3, (rgbOption + 1) % 3];
      var k := 0;
      while k < |row|
        invariant 0 <= k <= |row| && |img| == |old(img)|
        invariant img == old(img)[r := img[r]] && |img[r]| == |row|
        invariant forall q :: 0 <= q < k ==> img[r][q] == ZeroPixel(row[q], rgbOption)
        invariant forall q :: k <= q < |row| ==> img[r][q] == row[q]
        invariant scanline == [0] + Flatten(img[r][..k])
      {
        var pixel := img[r][k];
        pixel := pixel[zeroChannel[0] := 0];
        pixel := pixel[zeroChannel[1] := 0];
        img := img[r := img[r][k := pixel]];
        FlattenSnoc(img[r][..k], pixel);
        assert img[r][..k + 1] == img[r][..k] + [pixel];
        scanline := scanline + pixel;
        k := k + 1;
      }
      assert img[r] == ZeroRow(row, rgbOption);
      assert img[r][..k] == img[r];
    }
  }

  /** The file save_rgb writes passes valid_png, and read_header finds in it the
      header fields it was written from, whatever the fields were before. */
  lemma SavedHeaderReadsBack(f: Ihdr, h: Ihdr, idat: seq<byte>, crc32: seq<byte> -> u32)
    requires Fits(h) && |idat| < 0x1_0000_0000
    ensures Container(h, idat, crc32)[..8] == Signature
    ensures HeaderRead(f, IhdrSlice(Container(h, idat, crc32))) == h
  {
    var ihdr := Framed(crc32, IhdrTag, IhdrBytes(h));
    var tail := Frame(Framed(crc32, IdatTag, idat)) + Frame(Framed(crc32, IendTag, []));
    var file := Container(h, idat, crc32);
    assert file == Signature + (Frame(ihdr) + tail);
    FrameFields(ihdr, tail);
    IhdrAfterSignature(file, Frame(ihdr) + tail, IhdrBytes(h));
    ParseIhdrBytes(h);
  }

  /** read_header on data that starts with the signature and an IHDR chunk with the
      13-byte payload `body` takes that payload: no `I` occurs before the tag. */
  lemma IhdrAfterSignature(data: seq<byte>, rest: seq<byte>, body: seq<byte>)
    requires |body| == 13 && data == Signature + rest && |rest| >= 21
    requires U32At(rest, 0) == 13 && rest[4..8] == IhdrTag && rest[8..21] == body
    ensures data[..8] == Signature
    ensures IhdrSlice(data) == body
  {
    assert data[12..16] == rest[4..8] && data[16..29] == rest[8..21];
    forall j | 0 <= j < 12 ensures data[j] != 0x49 {
      if j >= 8 {
        assert data[j] == rest[j - 8];
      }
    }
    IhdrSliceAt12(data);
  }

  /** The walk over the file save_rgb writes collects exactly its one IDAT payload. */
  lemma SavedIdatReadsBack(h: Ihdr, idat: seq<byte>, crc32: seq<byte> -> u32)
    requires Fits(h) && |idat| < 0x1_0000_0000
    ensures WalkFrom(Container(h, idat, crc32), WalkStart, []) == Ok([idat])
  {
    var head := Signature + Frame(Framed(crc32, IhdrTag, IhdrBytes(h)));
    WalkOneIdat(head, Framed(crc32, IdatTag, idat), Framed(crc32, IendTag, []));
  }

  /** Saving and loading again: when the decompressor undoes the compressor on the
      scanline buffer, the saved file's IDAT data decompresses to that buffer, and its
      row loop gives back the zeroed image, complete and without a partial scanline. */
  lemma SaveThenLoad(g: Grid, opt: int, h: Ihdr, deflate: seq<byte> -> seq<byte>,
                     inflate: seq<byte> -> Option<seq<byte>>, crc32: seq<byte> -> u32)
    requires GridChannelsExist(g, opt)
    requires forall i :: 0 <= i < |g| ==> Uniform(g[i], h.width)
    requires Fits(h) && |deflate(Scanlines(ZeroGrid(g, opt)))| < 0x1_0000_0000
    requires inflate(deflate(Scanlines(ZeroGrid(g, opt)))) == Some(Scanlines(ZeroGrid(g, opt)))
    ensures Inflated(Container(h, deflate(Scanlines(ZeroGrid(g, opt))), crc32), inflate)
      == Ok(Scanlines(ZeroGrid(g, opt)))
    ensures DecodeRows(Scanlines(ZeroGrid(g, opt)), h.width, Zeros(3 * h.width))
      == Decoded(ZeroGrid(g, opt), false)
  {
    SavedStreamInflates(h, Scanlines(ZeroGrid(g, opt)), deflate, inflate, crc32);
    ZeroGridDecodes(g, opt, h.width);
  }

  /** When the decompressor undoes the compressor on `raw`, the IDAT data of the file
      saved with the compressed `raw` decompresses to `raw`. */
  lemma SavedStreamInflates(h: Ihdr, raw: seq<byte>, deflate: seq<byte> -> seq<byte>,
                            inflate: seq<byte> -> Option<seq<byte>>, crc32: seq<byte> -> u32)
    requires Fits(h) && |deflate(raw)| < 0x1_0000_0000 && inflate(deflate(raw)) == Some(raw)
    ensures Inflated(Container(h, deflate(raw), crc32), inflate) == Ok(raw)
  {
    var idat := deflate(raw);
    SavedIdatReadsBack(h, idat, crc32);
    assert Join([idat]) == idat + Join([]);
    assert Join([idat]) == idat;
    InflatedWalk(Container(h, idat, crc32), [idat], inflate, raw);
  }

  /** The decompressed stream of data whose walk succeeds and whose joined IDAT data
      decompresses. */
  lemma InflatedWalk(data: seq<byte>, parts: seq<seq<byte>>, inflate: seq<byte> -> Option<seq<byte>>, raw: seq<byte>)
    requires WalkFrom(data, WalkStart, []) == Ok(parts) && inflate(Join(parts)) == Some(raw)
    ensures Inflated(data, inflate) == Ok(raw)
  {
  }

  /** The walk at offset `pos` of the whole data raises when fewer than eight bytes
      are left there. */
  lemma WalkFromShort(data: seq<byte>, pos: nat, acc: seq<seq<byte>>)
    requires pos < |data| < pos + 8
    ensures WalkFrom(data, pos, acc) == Err(IncompleteChunk)
  {
  }

  /** One step of the walk at offset `pos` of the whole data, given the chunk's
      `length` and `tag` read there. */
  lemma WalkFromStep(data: seq<byte>, pos: nat, acc: seq<seq<byte>>, length: nat, tag: seq<byte>)
    requires pos + 8 <= |data| && length == U32At(data, pos) && tag == data[pos + 4..pos + 8]
    ensures !IsAscii(tag) ==> WalkFrom(data, pos, acc) == Err(NonAsciiTag)
    ensures IsAscii(tag) && tag == IdatTag && pos + 8 + length > |data| ==>
      WalkFrom(data, pos, acc) == Err(IncompleteIdat)
    ensures IsAscii(tag) && tag == IdatTag && pos + 8 + length <= |data| ==>
      WalkFrom(data, pos, acc) == WalkFrom(data, pos + 8 + length + 4, acc + [data[pos + 8..pos + 8 + length]])
    ensures IsAscii(tag) && tag == IendTag ==> WalkFrom(data, pos, acc) == Ok(acc)
    ensures IsAscii(tag) && tag != IdatTag && tag != IendTag ==>
      WalkFrom(data, pos, acc) == WalkFrom(data, pos + 8 + length + 4, acc)
  {
    var rest := data[pos..];
    assert U32At(rest, 0) == U32At(data, pos);
    assert rest[4..8] == data[pos + 4..pos + 8];
    if pos + 8 + length <= |data| {
      assert rest[8..8 + length] == data[pos + 8..pos + 8 + length];
    }
    if pos + 8 + length + 4 < |data| {
      assert rest[8 + length + 4..] == data[pos + 8 + length + 4..];
    }
  }

  /** One step of a Defilter loop: with the first `i` reconstructed bytes `prev` and
      the neighbours read from them and from `upper`, the first `i + 1` reconstructed
      bytes extend `prev` by the filtered byte plus the prediction, modulo 256. */
  lemma DefilterStep(cur: seq<byte>, upper: seq<byte>, pred: Predict, i: nat,
                     prev: seq<byte>, left: byte, up: byte, upLeft: byte)
    requires i < |cur| && prev == Defilter(cur[..i], upper, pred)
    requires left == At(prev, i - 3) && up == At(upper, i) && upLeft == At(upper, i - 3)
    ensures Defilter(cur[..i + 1], upper, pred) == prev + [AddMod(cur[i], pred(left, up, upLeft))]
  {
    assert cur[..i + 1][..i] == cur[..i];
  }

  /** A Paeth pick is the prediction of filter type 4. */
  lemma PaethPredicts(left: byte, up: byte, upLeft: byte, predictor: byte)
    requires PaethPick(left, up, upLeft, predictor)
    ensures PredictorOf(4)(left, up, upLeft) == predictor
  {
    PaethPickUnique(left, up, upLeft, predictor);
  }

  /** The comprehension of type 2 is Defilter with the Up predictor. */
  lemma UpReconstructs(cur: seq<byte>, upper: seq<byte>, r: seq<byte>)
    requires |upper| >= |cur| && |r| == |cur|
    requires forall i :: 0 <= i < |cur| ==> r[i] == (cur[i] as int + upper[i]) % 256
    ensures r == Defilter(cur, upper, PredictorOf(2))
  {
    forall i | 0 <= i < |cur|
      ensures r[i] == AddMod(cur[i], PredictAt(PredictorOf(2), r, upper, i))
    {
      ModArithmetic(cur[i], upper[i]);
    }
    ReconstructsUnique(r, cur, upper, PredictorOf(2));
  }
}
