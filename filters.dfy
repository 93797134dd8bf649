/** Scanline filtering for filter method 0 (section 9 of the PNG specification,
    ISO/IEC 15948) as the reader undoes it: three bytes per pixel, so the "left"
    byte of position `i` is position `i - 3`. */
module Filters {
  import opened Bytes

  /** `s[i]` where it exists, 0 elsewhere: the reader's `... if i >= 3 else 0`
      for the bytes to the left. */
  function At(s: seq<byte>, i: int): (r: byte)
    ensures 0 <= i < |s| ==> r == s[i]
    ensures !(0 <= i < |s|) ==> r == 0
  {
    if 0 <= i < |s| then s[i] else 0
  }

  function Abs(x: int): nat
  {
    if x < 0 then -x else x
  }

  /** `r` is the neighbour the Paeth predictor picks (section 9.4 of the PNG
      specification): one of the three, nearest to the estimate left + up - upLeft,
      with ties going to left, then to up. */
  predicate PaethPick(left: byte, up: byte, upLeft: byte, r: byte)
  {
    var p := left + up - upLeft;
    && (r == left || r == up || r == upLeft)
    && Abs(p - r) <= Abs(p - left) && Abs(p - r) <= Abs(p - up) && Abs(p - r) <= Abs(p - upLeft)
    && (Abs(p - left) == Abs(p - r) ==> r == left)
    && (Abs(p - left) != Abs(p - r) && Abs(p - up) == Abs(p - r) ==> r == up)
  }

  /** The Paeth predictor (png.py:135-139). */
  function Paeth(left: byte, up: byte, upLeft: byte): byte
  {
    var p := left + up - upLeft;
    var pa, pb, pc := Abs(p - left), Abs(p - up), Abs(p - upLeft);
    if pa <= pb && pa <= pc then left else if pb <= pc then up else upLeft
  }

  /** Paeth returns the Paeth pick. */
  lemma PaethNearest(left: byte, up: byte, upLeft: byte)
    ensures PaethPick(left, up, upLeft, Paeth(left, up, upLeft))
  {
  }

  /** The Paeth pick is unique: any byte that is a Paeth pick is Paeth's result. */
  lemma PaethPickUnique(left: byte, up: byte, upLeft: byte, r: byte)
    requires PaethPick(left, up, upLeft, r)
    ensures r == Paeth(left, up, upLeft)
  {
  }

  /** The value that filter type `ft` (1 Sub, 2 Up, 3 Average, 4 Paeth) predicts
      from the reconstructed byte to the left, the byte above and the byte above-left. */
  function Predictor(ft: byte, left: byte, up: byte, upLeft: byte): (r: byte)
    requires 1 <= ft <= 4
    ensures ft != 3 ==> r == left || r == up || r == upLeft
    ensures ft == 3 ==> if left <= up then left <= r <= up else up <= r <= left
  {
    match ft
    case 1 => left
    case 2 => up
    case 3 => (left + up) / 2
    case 4 => Paeth(left, up, upLeft)
  }

  /** A predictor: from the reconstructed byte to the left, the byte above and the
      byte above-left, the value the filter subtracted. */
  type Predict = (byte, byte, byte) -> byte

  /** Predictor of filter type `ft` lifted to a function value, the form Defilter
      takes, so that one reconstruction serves all four filter types. */
  function PredictorOf(ft: byte): (p: Predict)
    requires 1 <= ft <= 4
    ensures forall left, up, upLeft :: p(left, up, upLeft) == Predictor(ft, left, up, upLeft)
  {
    (left, up, upLeft) => Predictor(ft, left, up, upLeft)
  }

  /** The prediction at position `i` of a row whose reconstructed bytes are `rec`
      (only those before `i` are looked at) under the previous row `upper`. */
  function PredictAt(pred: Predict, rec: seq<byte>, upper: seq<byte>, i: int): byte
  {
    pred(At(rec, i - 3), At(upper, i), At(upper, i - 3))
  }

  /** The bytes a filter with predictor `pred` reconstructs from the filtered row
      `cur`, one position after another, each from the ones before it
      (png.py:113-140). */
  function Defilter(cur: seq<byte>, upper: seq<byte>, pred: Predict): (r: seq<byte>)
    ensures |r| == |cur|
    decreases |cur|
  {
    if cur == [] then []
    else
      var i := |cur| - 1;
      var prev := Defilter(cur[..i], upper, pred);
      prev + [AddMod(cur[i], PredictAt(pred, prev, upper, i))]
  }

  /** `[0] * n`. */
  function Zeros(n: nat): (r: seq<byte>)
    ensures |r| == n && forall i :: 0 <= i < n ==> r[i] == 0
  {
    seq(n, _ => 0)
  }

  /** inverse_filter (png.py:98-141): type 0 returns the row unchanged, types 1 to 4
      reconstruct it with their predictor, and any other type yields a row of zeros.
      (The reader raises IndexError when types 2 to 4 find `upper` shorter than `cur`;
      that never happens in read_chunks and is a precondition of the method.) */
  function Defiltered(cur: seq<byte>, upper: seq<byte>, ft: byte): (r: seq<byte>)
    ensures |r| == |cur|
    ensures ft == 0 ==> r == cur
    ensures ft > 4 ==> r == Zeros(|cur|)
  {
    if ft == 0 then cur
    else if ft <= 4 then Defilter(cur, upper, PredictorOf(ft))
    else Zeros(|cur|)
  }

  /** `rec` is a reconstruction of `cur`: every byte is the filtered byte plus the
      prediction from the bytes of `rec` before it, modulo 256. */
  predicate Reconstructs(rec: seq<byte>, cur: seq<byte>, upper: seq<byte>, pred: Predict)
  {
    |rec| == |cur| &&
    forall i :: 0 <= i < |cur| ==> rec[i] == AddMod(cur[i], PredictAt(pred, rec, upper, i))
  }

  /** The prediction at `i` only looks at bytes before `i`. */
  lemma PredictAtPrefix(pred: Predict, rec: seq<byte>, upper: seq<byte>, i: int, n: nat)
    requires i <= n <= |rec|
    ensures PredictAt(pred, rec[..n], upper, i) == PredictAt(pred, rec, upper, i)
  {
    assert At(rec[..n], i - 3) == At(rec, i - 3);
  }

  /** Defilter computes a reconstruction. */
  lemma {:induction false} DefilterReconstructs(cur: seq<byte>, upper: seq<byte>, pred: Predict)
    ensures Reconstructs(Defilter(cur, upper, pred), cur, upper, pred)
    decreases |cur|
  {
    if cur != [] {
      var n := |cur| - 1;
      var r := Defilter(cur, upper, pred);
      var prev := Defilter(cur[..n], upper, pred);
      DefilterReconstructs(cur[..n], upper, pred);
      assert r[..n] == prev;
      forall i | 0 <= i < |cur|
        ensures r[i] == AddMod(cur[i], PredictAt(pred, r, upper, i))
      {
        PredictAtPrefix(pred, r, upper, i, n);
        if i < n {
          assert cur[..n][i] == cur[i];
        }
      }
    }
  }

  /** A reconstruction is unique: it is the one Defilter computes. */
  lemma {:induction false} ReconstructsUnique(rec: seq<byte>, cur: seq<byte>, upper: seq<byte>, pred: Predict)
    requires Reconstructs(rec, cur, upper, pred)
    ensures rec == Defilter(cur, upper, pred)
    decreases |cur|
  {
    if cur != [] {
      var n := |cur| - 1;
      assert Reconstructs(rec[..n], cur[..n], upper, pred) by {
        forall i | 0 <= i < n
          ensures rec[..n][i] == AddMod(cur[..n][i], PredictAt(pred, rec[..n], upper, i))
        {
          PredictAtPrefix(pred, rec, upper, i, n);
        }
      }
      ReconstructsUnique(rec[..n], cur[..n], upper, pred);
      var prev := Defilter(cur[..n], upper, pred);
      assert Defilter(cur, upper, pred) == prev + [AddMod(cur[n], PredictAt(pred, prev, upper, n))];
      PredictAtPrefix(pred, rec, upper, n, n);
      assert rec[n] == AddMod(cur[n], PredictAt(pred, prev, upper, n));
      assert rec == prev + [rec[n]];
    }
  }

  /** The encoder's side (section 9.2 of the PNG specification): each byte minus the
      prediction from the original bytes, modulo 256. */
  function Filter(rec: seq<byte>, upper: seq<byte>, pred: Predict): (r: seq<byte>)
    ensures |r| == |rec|
  {
    seq(|rec|, i requires 0 <= i < |rec| => SubMod(rec[i], PredictAt(pred, rec, upper, i)))
  }

  /** Reconstruction undoes filtering: the original row comes back. */
  lemma DefilterUndoesFilter(rec: seq<byte>, upper: seq<byte>, pred: Predict)
    ensures Defilter(Filter(rec, upper, pred), upper, pred) == rec
  {
    var cur := Filter(rec, upper, pred);
    assert forall i :: 0 <= i < |rec| ==> rec[i] == AddMod(cur[i], PredictAt(pred, rec, upper, i));
    ReconstructsUnique(rec, cur, upper, pred);
  }

  /** Filtering undoes reconstruction: the filtered row is recovered from Defilter's output. */
  lemma FilterUndoesDefilter(cur: seq<byte>, upper: seq<byte>, pred: Predict)
    ensures Filter(Defilter(cur, upper, pred), upper, pred) == cur
  {
    var rec := Defilter(cur, upper, pred);
    DefilterReconstructs(cur, upper, pred);
    assert forall i :: 0 <= i < |cur| ==> Filter(rec, upper, pred)[i] == cur[i];
  }

  /** `(a + b) % 256` for two bytes. */
  function AddMod(a: byte, b: byte): byte
  {
    if a + b < 256 then a + b else a + b - 256
  }

  /** `(a - b) % 256` for two bytes. */
  function SubMod(a: byte, b: byte): byte
  {
    if a >= b then a - b else a - b + 256
  }

  /** AddMod and SubMod are the byte arithmetic of the reader and of section 9.2 of
      the PNG specification. */
  lemma ModArithmetic(a: byte, b: byte)
    ensures AddMod(a, b) == (a + b) % 256 && SubMod(a, b) == (a - b) % 256
  {
  }
}
