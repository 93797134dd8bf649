/** Pixel rows and scanlines: how read_chunks cuts the decompressed stream into
    rows of RGB triplets, and how save_rgb zeroes channels and lays the rows out
    as filter-type-0 scanlines. */
module Image {
  import opened Bytes
  import opened Filters

  /** One pixel: `[r, g, b]` once read, though the writer accepts any list of bytes. */
  type Pixel = seq<byte>
  type Row = seq<Pixel>
  type Grid = seq<Row>

  /** `[s[j:j+3] for j in range(0, len(s), 3)]` (png.py:94); the last piece is shorter
      when `|s|` is not a multiple of 3. */
  function Triplets(s: seq<byte>): (r: Row)
    decreases |s|
  {
    if s == [] then []
    else if |s| <= 3 then [s]
    else [s[..3]] + Triplets(s[3..])
  }

  /** The bytes of a row's pixels one after another. */
  function Flatten(row: Row): seq<byte>
  {
    if row == [] then [] else row[0] + Flatten(row[1..])
  }

  /** A row of `n` pixels of three bytes each. */
  predicate Uniform(row: Row, n: nat)
  {
    |row| == n && forall k :: 0 <= k < n ==> |row[k]| == 3
  }

  /** Cutting a byte sequence into triplets loses and reorders nothing. */
  lemma {:induction false} FlattenTriplets(s: seq<byte>)
    ensures Flatten(Triplets(s)) == s
    decreases |s|
  {
    if |s| > 3 {
      FlattenTriplets(s[3..]);
      assert ([s[..3]] + Triplets(s[3..]))[1..] == Triplets(s[3..]);
      assert s == s[..3] + s[3..];
    } else if s != [] {
      assert [s][1..] == [];
    }
  }

  /** A multiple of 3 bytes is cut into that many full pixels. */
  lemma {:induction false} TripletsUniform(s: seq<byte>)
    requires |s| % 3 == 0
    ensures Uniform(Triplets(s), |s| / 3)
    decreases |s|
  {
    if |s| > 3 {
      TripletsUniform(s[3..]);
    }
  }

  /** Pixels of three bytes are recovered from their flattened bytes. */
  lemma {:induction false} TripletsFlatten(row: Row)
    requires forall k :: 0 <= k < |row| ==> |row[k]| == 3
    ensures |Flatten(row)| == 3 * |row|
    ensures Triplets(Flatten(row)) == row
  {
    if row != [] {
      TripletsFlatten(row[1..]);
      var s := Flatten(row);
      assert s[..3] == row[0] && s[3..] == Flatten(row[1..]);
      if |row| == 1 {
        assert Flatten(row[1..]) == [];
        assert s == row[0];
        assert row == [row[0]];
      } else {
        assert row == [row[0]] + row[1..];
      }
    }
  }

  /** Flattening a row extended by one pixel, as `scanline.extend(pixel)` does. */
  lemma {:induction false} FlattenSnoc(row: Row, p: Pixel)
    ensures Flatten(row + [p]) == Flatten(row) + p
  {
    if row == [] {
      assert [p][1..] == [];
    } else {
      assert (row + [p])[1..] == row[1..] + [p];
      FlattenSnoc(row[1..], p);
    }
  }

  /** What the row loop of read_chunks produces: the rows decoded, and whether it
      stopped at a scanline shorter than 1 + 3 * width bytes. */
  datatype Decoded = Decoded(rows: Grid, truncated: bool)

  /** The row loop of read_chunks (png.py:85-96) from `raw` with previous row `upper`:
      each scanline is a filter-type byte and 3 * width filtered bytes; the
      reconstructed bytes, cut into triplets, form a row and become the next row's
      `upper`. */
  function DecodeRows(raw: seq<byte>, width: nat, upper: seq<byte>): Decoded
    decreases |raw|
  {
    var n := 1 + 3 * width;
    if raw == [] then Decoded([], false)
    else if |raw| < n then Decoded([], true)
    else
      var decoded := Defiltered(raw[1..n], upper, raw[0]);
      var tail := DecodeRows(raw[n..], width, decoded);
      Decoded([Triplets(decoded)] + tail.rows, tail.truncated)
  }

  /** One row per complete scanline (the number of rows is the length divided by the
      scanline length, rounded down) and a truncation exactly when the length is not
      a multiple of the scanline length. */
  lemma {:induction false} DecodeRowsCount(raw: seq<byte>, width: nat, upper: seq<byte>)
    ensures var d, n := DecodeRows(raw, width, upper), 1 + 3 * width;
      && Offset(|d.rows|, n) <= |raw| < Offset(|d.rows|, n) + n
      && (d.truncated <==> Offset(|d.rows|, n) != |raw|)
    decreases |raw|
  {
    var n := 1 + 3 * width;
    if |raw| >= n {
      DecodeRowsCount(raw[n..], width, Defiltered(raw[1..n], upper, raw[0]));
    }
  }

  /** Every decoded row holds `width` RGB triplets. */
  lemma {:induction false} DecodeRowsUniform(raw: seq<byte>, width: nat, upper: seq<byte>)
    ensures var d := DecodeRows(raw, width, upper);
      forall k :: 0 <= k < |d.rows| ==> Uniform(d.rows[k], width)
    decreases |raw|
  {
    var n := 1 + 3 * width;
    if |raw| >= n {
      var decoded := Defiltered(raw[1..n], upper, raw[0]);
      DecodeRowsUniform(raw[n..], width, decoded);
      TripletsUniform(decoded);
      var d := DecodeRows(raw, width, upper);
      forall k | 0 <= k < |d.rows| ensures Uniform(d.rows[k], width) {
        if k > 0 {
          assert d.rows[k] == DecodeRows(raw[n..], width, decoded).rows[k - 1];
        }
      }
    }
  }

  /** Where scanline `k` starts when every scanline is `n` bytes long. */
  function Offset(k: nat, n: nat): (r: nat)
  {
    if k == 0 then 0 else Offset(k - 1, n) + n
  }

  lemma {:induction false} OffsetIsProduct(k: nat, n: nat)
    ensures Offset(k, n) == k * n
  {
    if k > 0 {
      OffsetIsProduct(k - 1, n);
    }
  }

  /** Scanline `k` of `raw` when every scanline is `n` bytes long. */
  function Scanline(raw: seq<byte>, n: nat, k: nat): (r: seq<byte>)
    requires Offset(k, n) + n <= |raw|
    ensures |r| == n
  {
    raw[Offset(k, n)..Offset(k, n) + n]
  }

  /** The row read_chunks makes of one scanline under the previous row's bytes. */
  function DecodeRow(scanline: seq<byte>, above: seq<byte>): Row
    requires |scanline| > 0
  {
    Triplets(Defiltered(scanline[1..], above, scanline[0]))
  }

  /** The `upper_row` in force for row `k`: `upper` for the first row, then the
      bytes of the row before. */
  function Above(rows: Grid, upper: seq<byte>, k: nat): seq<byte>
    requires k <= |rows|
  {
    if k == 0 then upper else Flatten(rows[k - 1])
  }

  /** A row is decoded only from a complete scanline. */
  lemma DecodeRowsNonEmpty(raw: seq<byte>, width: nat, upper: seq<byte>)
    requires 0 < |DecodeRows(raw, width, upper).rows|
    ensures |raw| >= 1 + 3 * width
  {
  }

  /** The first row, and the rows after it decoded under the first row's bytes. */
  lemma DecodeRowsFirst(raw: seq<byte>, width: nat, upper: seq<byte>)
    requires |raw| >= 1 + 3 * width
    ensures var n := 1 + 3 * width;
      var decoded := Defiltered(raw[1..n], upper, raw[0]);
      var tail := DecodeRows(raw[n..], width, decoded);
      DecodeRows(raw, width, upper) == Decoded([Triplets(decoded)] + tail.rows, tail.truncated)
  {
  }

  /** Row `k` is scanline `k` of `raw` reconstructed under the previous row's bytes
      (under `upper` for row 0). */
  lemma {:induction false} DecodeRowsChain(raw: seq<byte>, width: nat, upper: seq<byte>, k: nat)
    requires k < |DecodeRows(raw, width, upper).rows|
    ensures Offset(k, 1 + 3 * width) + 1 + 3 * width <= |raw|
    ensures DecodeRows(raw, width, upper).rows[k] ==
      DecodeRow(Scanline(raw, 1 + 3 * width, k), Above(DecodeRows(raw, width, upper).rows, upper, k))
    decreases k
  {
    var n := 1 + 3 * width;
    DecodeRowsNonEmpty(raw, width, upper);
    DecodeRowsFirst(raw, width, upper);
    var decoded := Defiltered(raw[1..n], upper, raw[0]);
    var rows := DecodeRows(raw, width, upper).rows;
    var tail := DecodeRows(raw[n..], width, decoded).rows;
    if k > 0 {
      assert rows[k] == tail[k - 1];
      assert Above(rows, upper, k) == Above(tail, decoded, k - 1) by {
        if k == 1 {
          FlattenTriplets(decoded);
        } else {
          assert rows[k - 1] == tail[k - 2];
        }
      }
      DecodeRowsChain(raw[n..], width, decoded, k - 1);
      ScanlineShift(raw, n, k);
    } else {
      assert Scanline(raw, n, 0) == raw[..n];
      assert rows[0] == Triplets(decoded);
    }
  }

  /** Scanline `k` of `raw` is scanline `k - 1` of what follows the first scanline. */
  lemma ScanlineShift(raw: seq<byte>, n: nat, k: nat)
    requires 0 < k && n <= |raw| && Offset(k - 1, n) + n <= |raw| - n
    ensures Offset(k, n) + n <= |raw|
    ensures Scanline(raw[n..], n, k - 1) == Scanline(raw, n, k)
  {
    var a := Offset(k - 1, n);
    assert Offset(k, n) == a + n;
    assert raw[n..][a..a + n] == raw[a + n..a + n + n];
  }

  /** `rows` are what the row loop makes of the first `|rows|` scanlines of `raw`:
      scanline `k` is complete and row `k` is its reconstruction under the row before
      (under `first` for row 0). */
  predicate DecodesPrefix(raw: seq<byte>, width: nat, first: seq<byte>, rows: Grid)
  {
    forall k :: 0 <= k < |rows| ==>
      Complete(raw, width, k) && RowDecodes(raw, width, first, rows, k)
  }

  /** Scanline `k` lies within `raw`. */
  predicate Complete(raw: seq<byte>, width: nat, k: nat)
  {
    Offset(k, 1 + 3 * width) + 1 + 3 * width <= |raw|
  }

  /** Row `k` is the reconstruction of scanline `k` under the row before. */
  predicate RowDecodes(raw: seq<byte>, width: nat, first: seq<byte>, rows: Grid, k: nat)
    requires k < |rows| && Complete(raw, width, k)
  {
    rows[k] == DecodeRow(Scanline(raw, 1 + 3 * width, k), Above(rows, first, k))
  }

  /** A row loop that has consumed every complete scanline: the bytes left over are
      fewer than a scanline. */
  predicate DecodesAll(raw: seq<byte>, width: nat, first: seq<byte>, rows: Grid)
  {
    DecodesPrefix(raw, width, first, rows) && |raw| < Offset(|rows|, 1 + 3 * width) + 1 + 3 * width
  }

  /** Appending the reconstruction of the next complete scanline extends a prefix. */
  lemma DecodesPrefixSnoc(raw: seq<byte>, width: nat, first: seq<byte>, rows: Grid, row: Row)
    requires DecodesPrefix(raw, width, first, rows)
    requires Offset(|rows|, 1 + 3 * width) + 1 + 3 * width <= |raw|
    requires row == DecodeRow(Scanline(raw, 1 + 3 * width, |rows|), Above(rows, first, |rows|))
    ensures DecodesPrefix(raw, width, first, rows + [row])
  {
    var n, rows' := 1 + 3 * width, rows + [row];
    forall k | 0 <= k < |rows'|
      ensures Complete(raw, width, k) && RowDecodes(raw, width, first, rows', k)
    {
      if k < |rows| {
        assert Complete(raw, width, k) && RowDecodes(raw, width, first, rows, k);
        assert Above(rows', first, k) == Above(rows, first, k);
      }
    }
  }

  /** DecodeRows meets the characterization. */
  lemma DecodeRowsDecodesAll(raw: seq<byte>, width: nat, first: seq<byte>)
    ensures DecodesAll(raw, width, first, DecodeRows(raw, width, first).rows)
  {
    var rows := DecodeRows(raw, width, first).rows;
    forall k | 0 <= k < |rows|
      ensures Complete(raw, width, k) && RowDecodes(raw, width, first, rows, k)
    {
      DecodeRowsChain(raw, width, first, k);
    }
    DecodeRowsCount(raw, width, first);
  }

  /** Two prefixes agree as far as both go. */
  lemma {:induction false} DecodesPrefixAgree(raw: seq<byte>, width: nat, first: seq<byte>, a: Grid, b: Grid, k: nat)
    requires DecodesPrefix(raw, width, first, a) && DecodesPrefix(raw, width, first, b)
    requires k <= |a| && k <= |b|
    ensures a[..k] == b[..k]
  {
    if k > 0 {
      DecodesPrefixAgree(raw, width, first, a, b, k - 1);
      DecodesPrefixRowAgree(raw, width, first, a, b, k - 1);
      assert a[..k] == a[..k - 1] + [a[k - 1]];
      assert b[..k] == b[..k - 1] + [b[k - 1]];
    }
  }

  /** Prefixes that agree before row `j` agree on row `j`. */
  lemma DecodesPrefixRowAgree(raw: seq<byte>, width: nat, first: seq<byte>, a: Grid, b: Grid, j: nat)
    requires DecodesPrefix(raw, width, first, a) && DecodesPrefix(raw, width, first, b)
    requires j < |a| && j < |b| && a[..j] == b[..j]
    ensures a[j] == b[j]
  {
    DecodesPrefixComplete(raw, width, first, a, j);
    assert RowDecodes(raw, width, first, a, j) && RowDecodes(raw, width, first, b, j);
    if j > 0 {
      assert a[j - 1] == a[..j][j - 1] && b[j - 1] == b[..j][j - 1];
    }
  }

  /** Offsets of distinct scanline counts are a whole scanline apart. */
  lemma {:induction false} OffsetGrows(j: nat, k: nat, n: nat)
    requires j < k
    ensures Offset(j, n) + n <= Offset(k, n)
  {
    if j + 1 < k {
      OffsetGrows(j, k - 1, n);
    }
  }

  /** Every scanline behind a prefix's rows is complete. */
  lemma DecodesPrefixComplete(raw: seq<byte>, width: nat, first: seq<byte>, rows: Grid, k: nat)
    requires DecodesPrefix(raw, width, first, rows) && k < |rows|
    ensures Complete(raw, width, k)
  {
  }

  /** The characterization determines the number of rows. */
  lemma DecodesAllLength(raw: seq<byte>, width: nat, first: seq<byte>, a: Grid, b: Grid)
    requires DecodesAll(raw, width, first, a) && DecodesAll(raw, width, first, b)
    ensures |a| == |b|
  {
    var n := 1 + 3 * width;
    if |a| < |b| {
      DecodesPrefixComplete(raw, width, first, b, |b| - 1);
      OffsetGrows(|a|, |b| - 1, n);
    } else if |b| < |a| {
      DecodesPrefixComplete(raw, width, first, a, |a| - 1);
      OffsetGrows(|b|, |a| - 1, n);
    }
  }

  /** The characterization determines the rows. */
  lemma DecodesAllAgree(raw: seq<byte>, width: nat, first: seq<byte>, a: Grid, b: Grid)
    requires DecodesAll(raw, width, first, a) && DecodesAll(raw, width, first, b)
    ensures a == b
  {
    DecodesAllLength(raw, width, first, a, b);
    DecodesPrefixAgree(raw, width, first, a, b, |a|);
    assert a == a[..|a|] && b == b[..|b|];
  }

  /** Whatever satisfies the characterization is what DecodeRows computes, and the
      decoding is truncated exactly when bytes are left after the last row. */
  lemma DecodesAllUnique(raw: seq<byte>, width: nat, first: seq<byte>, rows: Grid)
    requires DecodesAll(raw, width, first, rows)
    ensures DecodeRows(raw, width, first) == Decoded(rows, Offset(|rows|, 1 + 3 * width) != |raw|)
  {
    DecodeRowsDecodesAll(raw, width, first);
    DecodesAllAgree(raw, width, first, rows, DecodeRows(raw, width, first).rows);
    DecodeRowsCount(raw, width, first);
  }

  /** The row made of scanline `k`, read straight from `raw`. */
  lemma ScanlineRow(raw: seq<byte>, n: nat, k: nat, above: seq<byte>)
    requires 0 < n && Offset(k, n) + n <= |raw|
    ensures DecodeRow(Scanline(raw, n, k), above) ==
      Triplets(Defiltered(raw[Offset(k, n) + 1..Offset(k, n) + n], above, raw[Offset(k, n)]))
  {
    var i, s := Offset(k, n), Scanline(raw, n, k);
    assert s[1..] == raw[i + 1..i + n] && s[0] == raw[i];
  }

  /** One pass of the row loop: the next complete scanline `k`, reconstructed under
      the last row's bytes `above`, extends the prefix, and its bytes are the next
      `upper_row`. */
  lemma DecodesPrefixStep(raw: seq<byte>, n: nat, width: nat, first: seq<byte>, rows: Grid,
                          k: nat, above: seq<byte>, decoded: seq<byte>)
    requires n == 1 + 3 * width && k == |rows| && above == Above(rows, first, k)
    requires DecodesPrefix(raw, width, first, rows)
    requires Offset(k, n) + n <= |raw|
    requires decoded == Defiltered(raw[Offset(k, n) + 1..Offset(k, n) + n], above, raw[Offset(k, n)])
    ensures DecodesPrefix(raw, width, first, rows + [Triplets(decoded)])
    ensures Above(rows + [Triplets(decoded)], first, k + 1) == decoded
  {
    ScanlineRow(raw, n, k, above);
    DecodesPrefixSnoc(raw, width, first, rows, Triplets(decoded));
    FlattenTriplets(decoded);
  }

  predicate ChannelsExist(p: Pixel, opt: int)
  {
    opt % 3 < |p| && (opt + 1) % 3 < |p|
  }

  predicate GridChannelsExist(g: Grid, opt: int)
  {
    forall r, k :: 0 <= r < |g| && 0 <= k < |g[r]| ==> ChannelsExist(g[r][k], opt)
  }

  /** A pixel after save_rgb's two assignments (png.py:170-173): channels `opt % 3`
      and `(opt + 1) % 3` are zero, every other channel is kept. */
  function ZeroPixel(p: Pixel, opt: int): (r: Pixel)
    requires ChannelsExist(p, opt)
    ensures |r| == |p|
    ensures forall c :: 0 <= c < |p| ==> r[c] == (if c == opt % 3 || c == (opt + 1) % 3 then 0 else p[c])
    ensures |p| == 3 ==> r[(opt + 2) % 3] == p[(opt + 2) % 3]
  {
    p[opt % 3 := 0][(opt + 1) % 3 := 0]
  }

  function ZeroRow(row: Row, opt: int): (r: Row)
    requires forall k :: 0 <= k < |row| ==> ChannelsExist(row[k], opt)
    ensures |r| == |row| && forall k :: 0 <= k < |row| ==> r[k] == ZeroPixel(row[k], opt)
  {
    seq(|row|, k requires 0 <= k < |row| => ZeroPixel(row[k], opt))
  }

  /** The image after save_rgb: every pixel zeroed in place. */
  function ZeroGrid(g: Grid, opt: int): (r: Grid)
    requires GridChannelsExist(g, opt)
    ensures |r| == |g| && forall i :: 0 <= i < |g| ==> r[i] == ZeroRow(g[i], opt)
  {
    seq(|g|, i requires 0 <= i < |g| => ZeroRow(g[i], opt))
  }

  /** Zeroing twice is zeroing once, so a pixel object that appears at several places
      of the image ends the same as distinct ones would. */
  lemma ZeroGridIdempotent(g: Grid, opt: int)
    requires GridChannelsExist(g, opt)
    ensures GridChannelsExist(ZeroGrid(g, opt), opt)
    ensures ZeroGrid(ZeroGrid(g, opt), opt) == ZeroGrid(g, opt)
  {
    var z := ZeroGrid(g, opt);
    forall i | 0 <= i < |g| ensures ZeroRow(z[i], opt) == z[i] {
      forall k | 0 <= k < |g[i]| ensures ZeroPixel(z[i][k], opt) == z[i][k] {
        var p := z[i][k];
        assert p == ZeroPixel(g[i][k], opt);
      }
    }
  }

  /** Zeroing keeps every row `width` triplets long. */
  lemma ZeroGridUniform(g: Grid, opt: int, width: nat)
    requires GridChannelsExist(g, opt)
    requires forall i :: 0 <= i < |g| ==> Uniform(g[i], width)
    ensures forall i :: 0 <= i < |g| ==> Uniform(ZeroGrid(g, opt)[i], width)
  {
    forall i | 0 <= i < |g| ensures Uniform(ZeroGrid(g, opt)[i], width) {
      assert Uniform(g[i], width);
    }
  }

  /** The scanline buffer save_rgb builds (png.py:167-175): per row a filter-type
      byte 0 followed by the row's pixel bytes. */
  function Scanlines(g: Grid): seq<byte>
  {
    if g == [] then [] else [0] + Flatten(g[0]) + Scanlines(g[1..])
  }

  /** Appending a row appends its scanline, as `scanlines.extend(scanline)` does. */
  lemma {:induction false} ScanlinesSnoc(g: Grid, row: Row)
    ensures Scanlines(g + [row]) == Scanlines(g) + ([0] + Flatten(row))
  {
    if g == [] {
      assert [row][1..] == [];
    } else {
      assert (g + [row])[1..] == g[1..] + [row];
      ScanlinesSnoc(g[1..], row);
    }
  }

  /** Decoding the writer's scanlines gives back the image: every scanline is type 0,
      so each row is its own bytes, whatever the row above. */
  lemma {:induction false} DecodeScanlines(g: Grid, width: nat, upper: seq<byte>)
    requires forall i :: 0 <= i < |g| ==> Uniform(g[i], width)
    ensures DecodeRows(Scanlines(g), width, upper) == Decoded(g, false)
  {
    if g != [] {
      var n := 1 + 3 * width;
      var raw := Scanlines(g);
      var bytes := Flatten(g[0]);
      ScanlinesFirst(g, width);
      var decoded := Defiltered(raw[1..n], upper, raw[0]);
      assert decoded == bytes;
      var tail := DecodeRows(raw[n..], width, decoded);
      DecodeScanlines(g[1..], width, bytes);
      assert tail == Decoded(g[1..], false);
      assert DecodeRows(raw, width, upper) == Decoded([Triplets(decoded)] + tail.rows, tail.truncated);
      assert g == [g[0]] + g[1..];
    }
  }

  /** The scanlines of a zeroed image of `width`-pixel rows decode, under a zero
      first `upper_row`, to that zeroed image without a partial scanline. */
  lemma ZeroGridDecodes(g: Grid, opt: int, width: nat)
    requires GridChannelsExist(g, opt)
    requires forall i :: 0 <= i < |g| ==> Uniform(g[i], width)
    ensures DecodeRows(Scanlines(ZeroGrid(g, opt)), width, Zeros(3 * width)) == Decoded(ZeroGrid(g, opt), false)
  {
    ZeroGridUniform(g, opt, width);
    DecodeScanlines(ZeroGrid(g, opt), width, Zeros(3 * width));
  }

  /** The first scanline of the writer's buffer: filter type 0 and the first row's bytes. */
  lemma ScanlinesFirst(g: Grid, width: nat)
    requires g != [] && Uniform(g[0], width)
    ensures var raw, n := Scanlines(g), 1 + 3 * width;
      && |raw| >= n && raw[0] == 0 && raw[1..n] == Flatten(g[0]) && raw[n..] == Scanlines(g[1..])
      && Triplets(Flatten(g[0])) == g[0]
  {
    var bytes := Flatten(g[0]);
    TripletsFlatten(g[0]);
    assert Scanlines(g) == [0] + (bytes + Scanlines(g[1..]));
  }
}
