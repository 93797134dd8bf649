/** Byte-level vocabulary shared by the PNG reader and writer: bytes, 32-bit
    unsigned values, big-endian conversion, and the errors a decode can end in. */
module Bytes {

  /** One octet of a file or of a decompressed buffer. */
  type byte = x: int | 0 <= x < 256

  /** A value that `int.to_bytes(4, 'big')` accepts. */
  type u32 = x: int | 0 <= x < 0x1_0000_0000

  /** The exceptions the decode path raises, one constructor per raise site. */
  datatype Error =
    | IncompleteChunk     // fewer than 8 bytes left for a chunk's length and type
    | NonAsciiTag         // the 4 type bytes do not decode as ASCII
    | IncompleteIdat      // an IDAT's declared length runs past the end of the data
    | DecompressFailed    // the zlib decompressor rejected the IDAT stream
    | TruncatedScanline   // the last scanline is shorter than 1 + 3 * width bytes
    | HeaderTooShort      // fewer than 13 IHDR payload bytes follow the IHDR tag

  datatype Option<T> = None | Some(value: T)

  datatype Result<T> = Ok(value: T) | Err(error: Error)

  /** `int.from_bytes(s, 'big')`: the unsigned big-endian value of `s`. */
  function BigEndian(s: seq<byte>): nat
  {
    if s == [] then 0 else BigEndian(s[..|s| - 1]) * 256 + s[|s| - 1]
  }

  /** `n.to_bytes(4, 'big')`. */
  function Be32(n: u32): (r: seq<byte>)
    ensures |r| == 4
  {
    [n / 0x100_0000, (n / 0x1_0000) % 256, (n / 0x100) % 256, n % 256]
  }

  /** `int.from_bytes(s[i:i+4], 'big')` when the four bytes are present. */
  function U32At(s: seq<byte>, i: nat): u32
    requires i + 4 <= |s|
  {
    s[i] as int * 0x100_0000 + s[i + 1] as int * 0x1_0000 + s[i + 2] as int * 0x100 + s[i + 3]
  }

  /** The four-byte reading agrees with the general big-endian conversion. */
  lemma U32AtIsBigEndian(s: seq<byte>, i: nat)
    requires i + 4 <= |s|
    ensures U32At(s, i) == BigEndian(s[i..i + 4])
  {
    var t := s[i..i + 4];
    assert t[..3][..2] == t[..2] && t[..2][..1] == t[..1] && t[..1][..0] == [];
    assert BigEndian(t[..1]) == t[0];
    assert BigEndian(t[..2]) == t[0] as int * 0x100 + t[1];
    assert BigEndian(t[..3]) == t[0] as int * 0x1_0000 + t[1] as int * 0x100 + t[2];
  }

  /** Reading back what `to_bytes(4, 'big')` wrote gives the value. */
  lemma Be32Decodes(n: u32)
    ensures U32At(Be32(n), 0) == n
  {
    var q1 := n / 0x100;
    var q2 := q1 / 0x100;
    var q3 := q2 / 0x100;
    assert n == q1 * 0x100 + n % 256;
    assert q1 == q2 * 0x100 + q1 % 256;
    assert q2 == q3 * 0x100 + q2 % 256;
    assert q2 == n / 0x1_0000;
    assert q3 == n / 0x100_0000;
  }

  /** Re-encoding any four bytes read as a big-endian value gives the same bytes. */
  lemma U32AtEncodes(s: seq<byte>, i: nat)
    requires i + 4 <= |s|
    ensures Be32(U32At(s, i)) == s[i..i + 4]
  {
    var n := U32At(s, i);
    assert n / 0x100 == s[i] as int * 0x1_0000 + s[i + 1] as int * 0x100 + s[i + 2];
    assert n / 0x1_0000 == s[i] as int * 0x100 + s[i + 1];
    assert n / 0x100_0000 == s[i];
  }
}
