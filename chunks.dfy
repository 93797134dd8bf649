/** Chunk framing (section 5.3 of the PNG specification, ISO/IEC 15948) and the
    reader's walk over the chunks that follow IHDR. */
module Chunks {
  import opened Bytes

  /** The 8-byte PNG signature (section 5.2). */
  const Signature: seq<byte> := [0x89, 0x50, 0x4E, 0x47, 0x0D, 0x0A, 0x1A, 0x0A]

  /** The ASCII type tags `IDAT` and `IEND`. */
  const IdatTag: seq<byte> := [0x49, 0x44, 0x41, 0x54]
  const IendTag: seq<byte> := [0x49, 0x45, 0x4E, 0x44]

  /** Where the reader's walk starts: the signature (8 bytes) plus an IHDR chunk
      of 4 + 4 + 13 + 4 bytes. */
  const WalkStart: nat := 33

  predicate IsAscii(s: seq<byte>)
  {
    forall i :: 0 <= i < |s| ==> s[i] < 128
  }

  /** One chunk as it sits in a file: type tag, data, and the CRC field. */
  datatype Chunk = Chunk(tag: seq<byte>, body: seq<byte>, crc: u32)

  /** A chunk the reader can take apart: a 4-byte ASCII tag and a length that fits 4 bytes. */
  predicate WellFormed(c: Chunk)
  {
    |c.tag| == 4 && IsAscii(c.tag) && |c.body| < 0x1_0000_0000
  }

  predicate AllWellFormed(cs: seq<Chunk>)
  {
    forall k :: 0 <= k < |cs| ==> WellFormed(cs[k])
  }

  /** A chunk's bytes: 4-byte big-endian length, tag, data, 4-byte big-endian CRC. */
  function Frame(c: Chunk): (b: seq<byte>)
    requires WellFormed(c)
    ensures |b| == 12 + |c.body|
  {
    Be32(|c.body|) + c.tag + c.body + Be32(c.crc)
  }

  function Frames(cs: seq<Chunk>): seq<byte>
    requires AllWellFormed(cs)
  {
    if cs == [] then [] else Frame(cs[0]) + Frames(cs[1..])
  }

  /** The data of the IDAT chunks among `cs`, in order. */
  function IdatBodies(cs: seq<Chunk>): seq<seq<byte>>
  {
    if cs == [] then []
    else IdatPiece(cs[0]) + IdatBodies(cs[1..])
  }

  /** What the walk appends for one chunk: its data if it is an IDAT, nothing otherwise. */
  function IdatPiece(c: Chunk): seq<seq<byte>>
  {
    if c.tag == IdatTag then [c.body] else []
  }

  /** `b''.join(parts)`. */
  function Join(parts: seq<seq<byte>>): seq<byte>
  {
    if parts == [] then [] else parts[0] + Join(parts[1..])
  }

  /** `cal_crc`: the checksum of tag followed by data; `crc32` stands for `zlib.crc32`. */
  function CalCrc(crc32: seq<byte> -> u32, tag: seq<byte>, data: seq<byte>): u32
  {
    crc32(tag + data)
  }

  /** The chunk the writer emits for `tag` and `data`, with its CRC. */
  function Framed(crc32: seq<byte> -> u32, tag: seq<byte>, data: seq<byte>): Chunk
  {
    Chunk(tag, data, CalCrc(crc32, tag, data))
  }

  /** The chunk walk of read_chunks (png.py:62-81) over `rest`, the bytes from the
      cursor to the end of the data, with the IDAT data collected so far in `acc`.
      A chunk whose length and CRC reach the end of the data (for a non-IDAT chunk:
      reach or pass it) ends the walk without error, as the cursor then stands at or
      beyond the end. */
  function Walk(rest: seq<byte>, acc: seq<seq<byte>>): Result<seq<seq<byte>>>
  {
    if rest == [] then Ok(acc)
    else if |rest| < 8 then Err(IncompleteChunk)
    else
      var length := U32At(rest, 0);
      var tag := rest[4..8];
      if !IsAscii(tag) then Err(NonAsciiTag)
      else if tag == IdatTag && 8 + length > |rest| then Err(IncompleteIdat)
      else
        var acc' := if tag == IdatTag then acc + [rest[8..8 + length]] else acc;
        if tag == IendTag || 8 + length + 4 >= |rest| then Ok(acc')
        else Walk(rest[8 + length + 4..], acc')
  }

  /** The walk from cursor `pos` of `data`; a cursor at or past the end finds nothing. */
  function WalkFrom(data: seq<byte>, pos: nat, acc: seq<seq<byte>>): Result<seq<seq<byte>>>
  {
    if pos < |data| then Walk(data[pos..], acc) else Ok(acc)
  }

  /** The walk only appends to the IDAT data it is given, and fails only with the
      three errors of the chunk loop (png.py:63-64, 67 and 72-73). */
  lemma {:induction false} WalkExtends(rest: seq<byte>, acc: seq<seq<byte>>)
    ensures Walk(rest, acc).Ok? ==> acc <= Walk(rest, acc).value
    ensures Walk(rest, acc).Err? ==>
      Walk(rest, acc).error == IncompleteChunk || Walk(rest, acc).error == NonAsciiTag ||
      Walk(rest, acc).error == IncompleteIdat
    decreases |rest|
  {
    if |rest| >= 8 {
      var length := U32At(rest, 0);
      var tag := rest[4..8];
      if IsAscii(tag) && !(tag == IdatTag && 8 + length > |rest|) {
        var acc' := if tag == IdatTag then acc + [rest[8..8 + length]] else acc;
        if !(tag == IendTag || 8 + length + 4 >= |rest|) {
          WalkExtends(rest[8 + length + 4..], acc');
          assert acc <= acc';
        }
      }
    }
  }

  /** The length, tag and data fields of a frame, read back from the bytes it starts. */
  lemma FrameFields(c: Chunk, tail: seq<byte>)
    requires WellFormed(c)
    ensures U32At(Frame(c) + tail, 0) == |c.body|
    ensures (Frame(c) + tail)[4..8] == c.tag
    ensures (Frame(c) + tail)[8..8 + |c.body|] == c.body
    ensures (Frame(c) + tail)[12 + |c.body|..] == tail
  {
    var n := |c.body|;
    var s := Frame(c) + tail;
    assert s == Be32(n) + (c.tag + (c.body + (Be32(c.crc) + tail)));
    assert s[4..] == c.tag + (c.body + (Be32(c.crc) + tail));
    assert s[8..] == c.body + (Be32(c.crc) + tail);
    assert s[4..8] == s[4..][..4];
    assert s[8..8 + n] == s[8..][..n];
    assert s[12 + n..] == s[8..][n + 4..];
    assert U32At(s, 0) == U32At(Be32(n), 0);
    Be32Decodes(n);
  }

  /** The walk over one well-formed chunk that is not IEND moves past the whole frame,
      CRC included, and collects the data exactly when the chunk is an IDAT. */
  lemma WalkOneFrame(c: Chunk, tail: seq<byte>, acc: seq<seq<byte>>)
    requires WellFormed(c) && c.tag != IendTag
    ensures Walk(Frame(c) + tail, acc) == Walk(tail, acc + IdatPiece(c))
  {
    FrameFields(c, tail);
    assert acc + [] == acc;
    if tail == [] {
      assert Walk(tail, acc + IdatPiece(c)) == Ok(acc + IdatPiece(c));
    }
  }

  /** Walking over IEND-free well-formed chunks continues right after them, having
      appended their IDAT data in order. */
  lemma {:induction false} WalkSkipsFrames(cs: seq<Chunk>, tail: seq<byte>, acc: seq<seq<byte>>)
    requires AllWellFormed(cs) && NoIend(cs)
    ensures Walk(Frames(cs) + tail, acc) == Walk(tail, acc + IdatBodies(cs))
  {
    if cs == [] {
      assert acc + IdatBodies(cs) == acc;
      assert Frames(cs) + tail == tail;
    } else {
      WalkFirstFrame(cs, tail, acc);
      WalkSkipsFrames(cs[1..], tail, acc + IdatPiece(cs[0]));
    }
  }

  predicate NoIend(cs: seq<Chunk>)
  {
    forall k :: 0 <= k < |cs| ==> cs[k].tag != IendTag
  }

  /** One step of WalkSkipsFrames: the first frame is walked over and the rest of the
      list keeps its preconditions. */
  lemma WalkFirstFrame(cs: seq<Chunk>, tail: seq<byte>, acc: seq<seq<byte>>)
    requires AllWellFormed(cs) && NoIend(cs) && cs != []
    ensures AllWellFormed(cs[1..]) && NoIend(cs[1..])
    ensures Walk(Frames(cs) + tail, acc) == Walk(Frames(cs[1..]) + tail, acc + IdatPiece(cs[0]))
    ensures acc + IdatBodies(cs) == acc + IdatPiece(cs[0]) + IdatBodies(cs[1..])
  {
    var c, rest := cs[0], cs[1..];
    assert AllWellFormed(rest) by {
      forall k | 0 <= k < |rest| ensures WellFormed(rest[k]) { assert rest[k] == cs[k + 1]; }
    }
    assert NoIend(rest) by {
      forall k | 0 <= k < |rest| ensures rest[k].tag != IendTag { assert rest[k] == cs[k + 1]; }
    }
    assert Frames(cs) + tail == Frame(c) + (Frames(rest) + tail);
    WalkOneFrame(c, Frames(rest) + tail, acc);
  }

  /** IDAT collection: over well-formed chunks without IEND, followed by an IEND chunk,
      the walk returns exactly their IDAT data in file order, whatever bytes follow the
      IEND chunk. */
  lemma WalkCollectsIdat(cs: seq<Chunk>, iend: Chunk, trailer: seq<byte>)
    requires AllWellFormed(cs) && NoIend(cs)
    requires WellFormed(iend) && iend.tag == IendTag
    ensures Walk(Frames(cs) + Frame(iend) + trailer, []) == Ok(IdatBodies(cs))
  {
    var f, g := Frames(cs), Frame(iend);
    assert (f + g) + trailer == f + (g + trailer);
    assert [] + IdatBodies(cs) == IdatBodies(cs);
    WalkSkipsFrames(cs, g + trailer, []);
    WalkStopsAtIend(iend, trailer, IdatBodies(cs));
  }

  /** A file whose chunks after the first `WalkStart` bytes are one IDAT chunk and an
      IEND chunk, as the writer lays them out: the walk collects that IDAT's data. */
  lemma WalkOneIdat(head: seq<byte>, c: Chunk, iend: Chunk)
    requires |head| == WalkStart && WellFormed(c) && c.tag == IdatTag
    requires WellFormed(iend) && iend.tag == IendTag
    ensures WalkFrom(head + Frame(c) + Frame(iend), WalkStart, []) == Ok([c.body])
  {
    var data := head + Frame(c) + Frame(iend);
    assert data[WalkStart..] == Frame(c) + Frame(iend);
    WalkOneFrame(c, Frame(iend), []);
    assert [] + IdatPiece(c) == [c.body];
    assert Frame(iend) + [] == Frame(iend);
    WalkStopsAtIend(iend, [], [c.body]);
  }

  /** The walk stops after an IEND chunk, whatever follows it. */
  lemma WalkStopsAtIend(c: Chunk, trailer: seq<byte>, acc: seq<seq<byte>>)
    requires WellFormed(c) && c.tag == IendTag
    ensures Walk(Frame(c) + trailer, acc) == Ok(acc)
  {
    FrameFields(c, trailer);
  }

  /** Walk error: after well-formed IEND-free chunks, 1 to 7 remaining bytes cannot
      hold a length and a type (png.py:63-64). */
  lemma WalkIncompleteChunk(cs: seq<Chunk>, tail: seq<byte>)
    requires AllWellFormed(cs) && NoIend(cs)
    requires 0 < |tail| < 8
    ensures Walk(Frames(cs) + tail, []) == Err(IncompleteChunk)
  {
    WalkSkipsFrames(cs, tail, []);
  }

  /** Walk error: after well-formed IEND-free chunks, an IDAT whose declared length
      runs past the end of the data (png.py:71-73). */
  lemma WalkIncompleteIdat(cs: seq<Chunk>, length: u32, partial: seq<byte>)
    requires AllWellFormed(cs) && NoIend(cs)
    requires |partial| < length
    ensures Walk(Frames(cs) + (Be32(length) + IdatTag + partial), []) == Err(IncompleteIdat)
  {
    WalkSkipsFrames(cs, Be32(length) + IdatTag + partial, []);
    ChunkHeaderFields(length, IdatTag, partial);
  }

  /** No error: after well-formed IEND-free chunks, a non-IDAT chunk whose length and
      CRC reach or pass the end ends the walk with the IDAT data found so far
      (png.py:77-79). */
  lemma WalkOverrunSkipped(cs: seq<Chunk>, length: u32, tag: seq<byte>, partial: seq<byte>)
    requires AllWellFormed(cs) && NoIend(cs)
    requires |tag| == 4 && IsAscii(tag) && tag != IdatTag
    requires |partial| <= length + 4
    ensures Walk(Frames(cs) + (Be32(length) + tag + partial), []) == Ok(IdatBodies(cs))
  {
    var acc := IdatBodies(cs);
    WalkSkipsFrames(cs, Be32(length) + tag + partial, []);
    assert [] + acc == acc;
    ChunkHeaderFields(length, tag, partial);
    assert Walk(Be32(length) + tag + partial, acc) == Ok(acc);
  }

  /** The length and tag read back from an 8-byte chunk header. */
  lemma ChunkHeaderFields(length: u32, tag: seq<byte>, tail: seq<byte>)
    requires |tag| == 4
    ensures U32At(Be32(length) + tag + tail, 0) == length
    ensures (Be32(length) + tag + tail)[4..8] == tag
  {
    var s := Be32(length) + tag + tail;
    assert s[4..8] == s[4..][..4];
    assert U32At(s, 0) == U32At(Be32(length), 0);
    Be32Decodes(length);
  }
}
