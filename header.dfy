/** The IHDR payload: the 13 bytes that give the image's width, height and
    format fields (section 11.2.2 of the PNG specification, ISO/IEC 15948),
    and how the reader finds them in a file. */
module Header {
  import opened Bytes

  /** The seven IHDR fields, in payload order. */
  datatype Ihdr = Ihdr(
    width: nat, height: nat,
    bitDepth: nat, colorType: nat, compression: nat, filter: nat, interlace: nat)

  /** The ASCII type tag `IHDR`. */
  const IhdrTag: seq<byte> := [0x49, 0x48, 0x44, 0x52]

  /** Fields that `to_bytes` can write: 4 bytes for width and height, 1 byte for the rest. */
  predicate Fits(h: Ihdr)
  {
    h.width < 0x1_0000_0000 && h.height < 0x1_0000_0000 &&
    h.bitDepth < 256 && h.colorType < 256 && h.compression < 256 &&
    h.filter < 256 && h.interlace < 256
  }

  /** The payload the writer builds (png.py:156-159). */
  function IhdrBytes(h: Ihdr): (b: seq<byte>)
    requires Fits(h)
    ensures |b| == 13
  {
    Be32(h.width) + Be32(h.height) +
    [h.bitDepth as byte, h.colorType as byte, h.compression as byte, h.filter as byte, h.interlace as byte]
  }

  /** The fields the reader extracts from a full 13-byte payload (png.py:45-51). */
  function ParseIhdr(b: seq<byte>): Ihdr
    requires |b| == 13
  {
    Ihdr(U32At(b, 0), U32At(b, 4), b[8], b[9], b[10], b[11], b[12])
  }

  /** Parsing the written payload gives back every field. */
  lemma ParseIhdrBytes(h: Ihdr)
    requires Fits(h)
    ensures ParseIhdr(IhdrBytes(h)) == h
  {
    var b := IhdrBytes(h);
    assert b[..4] == Be32(h.width);
    assert b[4..8] == Be32(h.height);
    Be32Decodes(h.width);
    Be32Decodes(h.height);
    assert U32At(b, 4) == U32At(b[4..8], 0);
  }

  /** Every 13-byte payload parses to fields that fit, and writing them back gives the same bytes. */
  lemma IhdrBytesOfParse(b: seq<byte>)
    requires |b| == 13
    ensures Fits(ParseIhdr(b)) && IhdrBytes(ParseIhdr(b)) == b
  {
    U32AtEncodes(b, 0);
    U32AtEncodes(b, 4);
    assert b == b[..4] + b[4..8] + b[8..];
  }

  /** `pat` occurs in `data` at offset `j`. */
  predicate OccursAt(data: seq<byte>, pat: seq<byte>, j: nat)
  {
    j + |pat| <= |data| && data[j..j + |pat|] == pat
  }

  /** `data.find(pat, k)`: the lowest index at or after `k` where `pat` occurs, or -1. */
  function FindFrom(data: seq<byte>, pat: seq<byte>, k: nat): (r: int)
    decreases |data| - k
    ensures r == -1 || (k <= r && OccursAt(data, pat, r))
    ensures forall j: nat :: k <= j && (r == -1 || j < r) ==> !OccursAt(data, pat, j)
  {
    if k + |pat| > |data| then -1
    else if data[k..k + |pat|] == pat then k
    else FindFrom(data, pat, k + 1)
  }

  /** Python's clamping slice `s[lo:hi]` for `0 <= lo <= hi`. */
  function PySlice(s: seq<byte>, lo: nat, hi: nat): (r: seq<byte>)
    requires lo <= hi
    ensures |r| <= hi - lo
    ensures hi <= |s| ==> r == s[lo..hi]
    ensures lo < |s| < hi ==> r == s[lo..]
    ensures |s| <= lo ==> r == []
  {
    if lo >= |s| then [] else if hi <= |s| then s[lo..hi] else s[lo..]
  }

  /** The bytes read_header takes as the IHDR payload: the 13 bytes after the first
      occurrence of `IHDR`, clamped at the end of the data (png.py:41-43). */
  function IhdrSlice(data: seq<byte>): (r: seq<byte>)
    ensures |r| <= 13
  {
    var start := FindFrom(data, IhdrTag, 0);
    PySlice(data, start + 4, start + 4 + 13)
  }

  /** The header fields after read_header's assignments (png.py:45-51) from the
      payload `s`, starting from the fields `f`: width and height are the big-endian
      values of whatever of their 4 bytes are present, and the one-byte fields are
      assigned in order until the first missing byte raises. */
  function HeaderRead(f: Ihdr, s: seq<byte>): (r: Ihdr)
    requires |s| <= 13
    ensures |s| == 13 ==> r == ParseIhdr(s)
    ensures r.width == BigEndian(PySlice(s, 0, 4)) && r.height == BigEndian(PySlice(s, 4, 8))
    ensures |s| <= 8 ==> r.bitDepth == f.bitDepth
    ensures |s| <= 9 ==> r.colorType == f.colorType
    ensures |s| <= 10 ==> r.compression == f.compression
    ensures |s| <= 11 ==> r.filter == f.filter
    ensures |s| <= 12 ==> r.interlace == f.interlace
    ensures |s| > 8 ==> r.bitDepth == s[8]
    ensures |s| > 9 ==> r.colorType == s[9]
    ensures |s| > 10 ==> r.compression == s[10]
    ensures |s| > 11 ==> r.filter == s[11]
    ensures |s| > 12 ==> r.interlace == s[12]
  {
    if |s| == 13 then
      U32AtIsBigEndian(s, 0);
      U32AtIsBigEndian(s, 4);
      ParseIhdr(s)
    else
      Ihdr(BigEndian(PySlice(s, 0, 4)), BigEndian(PySlice(s, 4, 8)),
        if |s| > 8 then s[8] else f.bitDepth,
        if |s| > 9 then s[9] else f.colorType,
        if |s| > 10 then s[10] else f.compression,
        if |s| > 11 then s[11] else f.filter,
        f.interlace)
  }

  /** When the first `IHDR` tag is at offset 12 and 13 bytes follow it, the slice is those 13 bytes. */
  lemma IhdrSliceAt12(data: seq<byte>)
    requires |data| >= 29 && data[12..16] == IhdrTag
    requires forall j :: 0 <= j < 12 ==> data[j] != 0x49
    ensures IhdrSlice(data) == data[16..29]
  {
    assert OccursAt(data, IhdrTag, 12);
    forall j: nat | j < 12
      ensures !OccursAt(data, IhdrTag, j)
    {
      assert data[j..j + 4][0] == data[j];
    }
  }
}
