/**
 The inverse cosine transform of the JPEG decoder (userland/img.h): eight rows and then eight
 columns, in whole numbers, with 64-bit sums and 32-bit results.
 */
module Idct {
  newtype int32 = x: int | -0x8000_0000 <= x < 0x8000_0000
  newtype int64 = x: int | -0x8000_0000_0000_0000 <= x < 0x8000_0000_0000_0000

  // Cosines, 4096 to the unit: row u, column x.
  const Table: seq<seq<int>> := [
    [ 2896,  2896,  2896,  2896,  2896,  2896,  2896,  2896],
    [ 4017,  3406,  2276,   799,  -799, -2276, -3406, -4017],
    [ 3784,  1567, -1567, -3784, -3784, -1567,  1567,  3784],
    [ 3406,  -799, -4017, -2276,  2276,  4017,   799, -3406],
    [ 2896, -2896, -2896,  2896,  2896, -2896, -2896,  2896],
    [ 2276, -4017,   799,  3406, -3406,  -799,  4017, -2276],
    [ 1567, -3784,  3784, -1567, -1567,  3784, -3784,  1567],
    [  799, -2276,  3406, -4017,  4017, -3406,  2276,  -799]]

  // The column of the table that weighs eight coefficients for position x.
  function Weights(x: nat): (w: seq<int>)
    requires x < 8
    ensures |w| == 8 && w[0] == 2896 && forall u :: 0 <= u < 8 ==> -4096 <= w[u] <= 4096
  {
    [Table[0][x], Table[1][x], Table[2][x], Table[3][x], Table[4][x], Table[5][x], Table[6][x], Table[7][x]]
  }

  function Dot(a: seq<int>, w: seq<int>, n: nat): (s: int)
    requires n <= |a| && n <= |w|
  {
    if n == 0 then 0 else Dot(a, w, n - 1) + a[n - 1] * w[n - 1]
  }

  function Clamped(p: int): (r: int)
    ensures 0 <= r <= 255 && (0 <= p <= 255 ==> r == p)
  {
    if p < 0 then 0 else if p > 255 then 255 else p
  }

  // ----- what the two passes compute -----

  function Row(blk: seq<int>, y: nat): (r: seq<int>)
    requires |blk| == 64 && y < 8
    ensures |r| == 8
  {
    blk[8 * y..8 * y + 8]
  }

  // Eight rows at position x: exactly, 4096 times too large; and as the first pass leaves them.
  function ExactColumn(blk: seq<int>, x: nat): (c: seq<int>)
    requires |blk| == 64 && x < 8
    ensures |c| == 8
  {
    seq(8, v requires 0 <= v < 8 => Dot(Row(blk, v), Weights(x), 8))
  }

  // Shifting to the right rounds down, as division by a power of two does here.
  function RowResult(s: int): (r: int)
    ensures -128 <= 256 * r - s <= 128
  {
    (s + 128) / 256
  }

  function Column(blk: seq<int>, x: nat): (c: seq<int>)
    requires |blk| == 64 && x < 8
    ensures |c| == 8
  {
    seq(8, v requires 0 <= v < 8 => RowResult(ExactColumn(blk, x)[v]))
  }

  function PixelResult(s: int): (p: int)
    ensures -131072 <= 262144 * (p - 128) - s <= 131072
  {
    (s + 131072) / 262144 + 128
  }

  // The pixel before it is clamped.
  function Unclamped(blk: seq<int>, x: nat, y: nat): (p: int)
    requires |blk| == 64 && x < 8 && y < 8
  {
    PixelResult(Dot(Column(blk, x), Weights(y), 8))
  }

  // The double sum itself, 2^26 times too large.
  function Exact(blk: seq<int>, x: nat, y: nat): (s: int)
    requires |blk| == 64 && x < 8 && y < 8
  {
    Dot(ExactColumn(blk, x), Weights(y), 8)
  }

  // ----- rounding -----

  lemma Scaled(d: int, bound: int, w: int)
    requires -bound <= d <= bound && -4096 <= w <= 4096
    ensures -4096 * bound <= d * w <= 4096 * bound
  {
    Least(bound - d, 4096 - w);
    Least(bound - d, 4096 + w);
    Least(bound + d, 4096 - w);
    Least(bound + d, 4096 + w);
  }

  lemma Least(x: int, y: int)
    requires x >= 0 && y >= 0
    ensures x * y >= 0
  {
  }

  lemma {:induction false} DotBound(a: seq<int>, w: seq<int>, n: nat, bound: int)
    requires n <= |a| && n <= |w|
    requires forall k :: 0 <= k < n ==> -bound <= a[k] <= bound && -4096 <= w[k] <= 4096
    ensures -4096 * bound * n <= Dot(a, w, n) <= 4096 * bound * n
  {
    if n > 0 {
      DotBound(a, w, n - 1, bound);
      Scaled(a[n - 1], bound, w[n - 1]);
      OneMore(4096 * bound, n);
    }
  }

  lemma OneMore(m: int, n: nat)
    requires n > 0
    ensures m * n == m * (n - 1) + m && -m * n == -m * (n - 1) - m
  {
  }

  // Sums of values each within 128/256 of the exact ones.
  lemma {:induction false} DotClose(a: seq<int>, b: seq<int>, w: seq<int>, n: nat)
    requires n <= |a| && n <= |b| && n <= |w|
    requires forall k :: 0 <= k < n ==> -128 <= 256 * a[k] - b[k] <= 128 && -4096 <= w[k] <= 4096
    ensures -524288 * n <= 256 * Dot(a, w, n) - Dot(b, w, n) <= 524288 * n
  {
    if n > 0 {
      DotClose(a, b, w, n - 1);
      Scaled(256 * a[n - 1] - b[n - 1], 128, w[n - 1]);
      assert (256 * a[n - 1] - b[n - 1]) * w[n - 1] == 256 * (a[n - 1] * w[n - 1]) - b[n - 1] * w[n - 1];
    }
  }

  // Both roundings together cost less than 0.57 of a pixel value, on every block.
  lemma RoundingIsSmall(blk: seq<int>, x: nat, y: nat)
    requires |blk| == 64 && x < 8 && y < 8
    ensures -0x240_0000 <= 0x400_0000 * (Unclamped(blk, x, y) - 128) - Exact(blk, x, y) <= 0x240_0000
  {
    hide Dot, RowResult, PixelResult, Weights;
    DotClose(Column(blk, x), ExactColumn(blk, x), Weights(y), 8);
  }

  // ----- a flat block -----

  lemma {:induction false} DotFirst(a: seq<int>, w: seq<int>, n: nat)
    requires 0 < n <= |a| && n <= |w| && forall k :: 0 < k < n ==> a[k] == 0
    ensures Dot(a, w, n) == a[0] * w[0]
  {
    if n > 1 {
      DotFirst(a, w, n - 1);
    } else {
      assert Dot(a, w, 0) == 0;
    }
  }

  predicate OnlyDc(blk: seq<int>) {
    |blk| == 64 && forall k :: 0 < k < 64 ==> blk[k] == 0
  }

  lemma FlatRows(blk: seq<int>, x: nat, v: nat)
    requires OnlyDc(blk) && x < 8 && v < 8
    ensures ExactColumn(blk, x)[v] == if v == 0 then 2896 * blk[0] else 0
  {
    hide Weights;
    var r := Row(blk, v);
    assert forall k :: 0 <= k < 8 ==> r[k] == blk[8 * v + k];
    DotFirst(r, Weights(x), 8);
  }

  lemma FlatPixels(blk: seq<int>, x: nat, y: nat)
    requires OnlyDc(blk) && x < 8 && y < 8
    ensures Unclamped(blk, x, y) == PixelResult(2896 * RowResult(2896 * blk[0]))
    ensures Exact(blk, x, y) == 2896 * 2896 * blk[0]
  {
    hide Weights, Dot, RowResult, PixelResult;
    forall v | 0 <= v < 8
      ensures ExactColumn(blk, x)[v] == if v == 0 then 2896 * blk[0] else 0
    {
      FlatRows(blk, x, v);
    }
    assert RowResult(0) == 0;
    DotFirst(Column(blk, x), Weights(y), 8);
    DotFirst(ExactColumn(blk, x), Weights(y), 8);
  }

  function ClampedReal(p: real): (r: real) {
    if p < 0.0 then 0.0 else if p > 255.0 then 255.0 else p
  }

  // A block with nothing but d in its corner comes out as 64 equal pixels, within one of 128 + d/8
  // clamped to a byte; whatever d a quantised coefficient can be.
  lemma FlatBlock(blk: seq<int>, x: nat, y: nat)
    requires OnlyDc(blk) && x < 8 && y < 8 && -2047 * 255 <= blk[0] <= 2047 * 255
    ensures Clamped(Unclamped(blk, x, y)) == Clamped(Unclamped(blk, 0, 0))
    ensures -1.0 <= Clamped(Unclamped(blk, x, y)) as real - ClampedReal(128.0 + blk[0] as real / 8.0) <= 1.0
  {
    hide Unclamped, Exact, PixelResult, RowResult;
    FlatPixels(blk, x, y);
    FlatPixels(blk, 0, 0);
    RoundingIsSmall(blk, x, y);
  }

  // ----- in machine integers -----

  function Ints(a: seq<int32>): (r: seq<int>)
    ensures |r| == |a| && forall k :: 0 <= k < |a| ==> r[k] == a[k] as int
  {
    seq(|a|, k requires 0 <= k < |a| => a[k] as int)
  }

  // The largest a coefficient can be, and what a row makes of that.
  const CoefficientMax: int := 2047 * 255
  const RowMax: int := 66_814_209

  predicate Within(a: seq<int>, bound: int) {
    forall k :: 0 <= k < |a| ==> -bound <= a[k] <= bound
  }

  lemma RowBound(blk: seq<int>, x: nat)
    requires |blk| == 64 && x < 8 && Within(blk, CoefficientMax)
    ensures Within(Column(blk, x), RowMax)
  {
    hide Weights, Dot, RowResult;
    forall v | 0 <= v < 8
      ensures -RowMax <= Column(blk, x)[v] <= RowMax
    {
      DotBound(Row(blk, v), Weights(x), 8, CoefficientMax);
    }
  }

  // The loop at the heart of both passes: no product and no sum leaves 64 bits.
  method WeighedSum(a: seq<int32>, x: nat) returns (s: int64)
    requires |a| == 8 && x < 8 && Within(Ints(a), RowMax)
    ensures s as int == Dot(Ints(a), Weights(x), 8)
  {
    hide Weights, Dot;
    s := 0;
    var w := Weights(x);
    DotNone(Ints(a), w);
    for u := 0 to 8
      invariant s as int == Dot(Ints(a), w, u)
      invariant -4096 * RowMax * u <= s as int <= 4096 * RowMax * u
    {
      Scaled(a[u] as int, RowMax, w[u]);
      DotStep(Ints(a), w, u);
      DotBound(Ints(a), w, u + 1, RowMax);
      s := s + a[u] as int64 * w[u] as int64;
    }
  }

  lemma DotNone(a: seq<int>, w: seq<int>)
    ensures Dot(a, w, 0) == 0
  {
  }

  lemma DotStep(a: seq<int>, w: seq<int>, n: nat)
    requires n < |a| && n < |w|
    ensures Dot(a, w, n + 1) == Dot(a, w, n) + a[n] * w[n]
  {
  }

  // idct8x8: every row result and every unclamped pixel fits 32 bits; the pixels come to stand at
  // (oy, ox) of the plane and nothing else changes.
  method Transform(blk: seq<int32>, plane: array2<int>, oy: nat, ox: nat)
    requires |blk| == 64 && Within(Ints(blk), CoefficientMax)
    requires oy + 8 <= plane.Length0 && ox + 8 <= plane.Length1
    modifies plane
    ensures forall y, x :: 0 <= y < plane.Length0 && 0 <= x < plane.Length1 ==>
              plane[y, x] == if oy <= y < oy + 8 && ox <= x < ox + 8
                             then Clamped(Unclamped(Ints(blk), x - ox, y - oy)) else old(plane[y, x])
  {
    hide Unclamped, Clamped, Column;
    var tmp := Rows(blk);
    for x := 0 to 8
      modifies plane
      invariant forall j, i :: 0 <= j < plane.Length0 && 0 <= i < plane.Length1 ==>
                  plane[j, i] == if oy <= j < oy + 8 && ox <= i < ox + x
                                 then Clamped(Unclamped(Ints(blk), i - ox, j - oy)) else old(plane[j, i])
    {
      for y := 0 to 8
        modifies plane
        invariant forall j, i :: 0 <= j < plane.Length0 && 0 <= i < plane.Length1 ==>
                    plane[j, i] == if (oy <= j < oy + 8 && ox <= i < ox + x) || (oy <= j < oy + y && i == ox + x)
                                   then Clamped(Unclamped(Ints(blk), i - ox, j - oy)) else old(plane[j, i])
      {
        var p := OnePixel(blk, tmp, x, y);
        plane[oy + y, ox + x] := Clamped(p as int);
      }
    }
  }

  // The first pass.
  method Rows(blk: seq<int32>) returns (tmp: seq<int32>)
    requires |blk| == 64 && Within(Ints(blk), CoefficientMax)
    ensures |tmp| == 64 && forall y, x :: 0 <= y < 8 && 0 <= x < 8 ==> tmp[8 * y + x] as int == Column(Ints(blk), x)[y]
  {
    hide Column, RowResult, Dot;
    tmp := [];
    for y := 0 to 8
      invariant |tmp| == 8 * y
      invariant forall j, x :: 0 <= j < y && 0 <= x < 8 ==> tmp[8 * j + x] as int == Column(Ints(blk), x)[j]
    {
      for x := 0 to 8
        invariant |tmp| == 8 * y + x
        invariant forall j, i :: 0 <= j < 8 && 0 <= i < 8 && 8 * j + i < |tmp| ==> tmp[8 * j + i] as int == Column(Ints(blk), i)[j]
      {
        var t := OneRow(blk, x, y);
        tmp := tmp + [t];
      }
    }
  }

  method OneRow(blk: seq<int32>, x: nat, y: nat) returns (t: int32)
    requires |blk| == 64 && Within(Ints(blk), CoefficientMax) && x < 8 && y < 8
    ensures t as int == Column(Ints(blk), x)[y]
  {
    hide Weights, Dot, RowResult;
    var r := blk[8 * y..8 * y + 8];
    assert Ints(r) == Row(Ints(blk), y);
    var s := WeighedSum(r, x);
    RowBound(Ints(blk), x);
    assert -RowMax <= Column(Ints(blk), x)[y] <= RowMax;
    t := RowResult(s as int) as int32;
  }

  method OnePixel(blk: seq<int32>, tmp: seq<int32>, x: nat, y: nat) returns (p: int32)
    requires |blk| == 64 && Within(Ints(blk), CoefficientMax) && x < 8 && y < 8
    requires |tmp| == 64 && forall y, x :: 0 <= y < 8 && 0 <= x < 8 ==> tmp[8 * y + x] as int == Column(Ints(blk), x)[y]
    ensures p as int == Unclamped(Ints(blk), x, y)
  {
    hide Weights, Dot, PixelResult, Column;
    var c := [tmp[x], tmp[8 + x], tmp[16 + x], tmp[24 + x], tmp[32 + x], tmp[40 + x], tmp[48 + x], tmp[56 + x]];
    assert Ints(c) == Column(Ints(blk), x);
    RowBound(Ints(blk), x);
    var s := WeighedSum(c, y);
    DotBound(Ints(c), Weights(y), 8, RowMax);
    p := PixelResult(s as int) as int32;
  }
}
