/**
 The inverse transform undoes the forward one: 8x8 pixels, transformed with the same cosines
 (section A.3.3 of ITU-T T.81), quantised, and decoded by the two passes of userland/img.h, come out
 within three and a half quantiser steps and one level of what they were.
 */
module IdctInverts {
  import opened Idct

  // ----- sums -----

  function Abs(x: int): (r: nat)
    ensures r == x || r == -x
  {
    if x < 0 then -x else x
  }

  function AbsSum(w: seq<int>, n: nat): (s: nat)
    requires n <= |w|
  {
    if n == 0 then 0 else AbsSum(w, n - 1) + Abs(w[n - 1])
  }

  lemma AbsProduct(x: int, w: int, bound: int)
    requires -bound <= x <= bound
    ensures -bound * Abs(w) <= x * w <= bound * Abs(w)
  {
    Least(bound - x, Abs(w));
    Least(bound + x, Abs(w));
  }

  lemma {:induction false} DotWithin(a: seq<int>, w: seq<int>, n: nat, bound: int)
    requires n <= |a| && n <= |w| && Within(a, bound)
    ensures -bound * AbsSum(w, n) <= Dot(a, w, n) <= bound * AbsSum(w, n)
  {
    if n > 0 {
      hide Abs;
      DotWithin(a, w, n - 1, bound);
      AbsProduct(a[n - 1], w[n - 1], bound);
      Shares(bound, AbsSum(w, n - 1), Abs(w[n - 1]));
    }
  }

  lemma Shares(m: int, x: int, y: int)
    ensures m * (x + y) == m * x + m * y && -m * (x + y) == -m * x + -m * y
  {
  }

  // c is m times a, and b.
  predicate Combines(c: seq<int>, m: int, a: seq<int>, b: seq<int>) {
    |a| == |b| == |c| && forall k :: 0 <= k < |c| ==> c[k] == m * a[k] + b[k]
  }

  lemma {:induction false} DotLinear(c: seq<int>, m: int, a: seq<int>, b: seq<int>, w: seq<int>, n: nat)
    requires Combines(c, m, a, b) && n <= |c| && n <= |w|
    ensures Dot(c, w, n) == m * Dot(a, w, n) + Dot(b, w, n)
  {
    hide Dot;
    if n == 0 {
      DotNone(a, w);
      DotNone(b, w);
      DotNone(c, w);
    } else {
      DotLinear(c, m, a, b, w, n - 1);
      var k := n - 1;
      DotStep(a, w, k);
      DotStep(b, w, k);
      DotStep(c, w, k);
      assert c[k] == m * a[k] + b[k];
      OneTerm(m, a[k], b[k], w[k], Dot(a, w, k), Dot(b, w, k));
    }
  }

  lemma OneTerm(m: int, x: int, y: int, w: int, s: int, t: int)
    ensures m * s + t + (m * x + y) * w == m * (s + x * w) + (t + y * w)
  {
  }

  lemma {:induction false} DotCommutes(a: seq<int>, w: seq<int>, n: nat)
    requires n <= |a| && n <= |w|
    ensures Dot(a, w, n) == Dot(w, a, n)
  {
    if n > 0 {
      DotCommutes(a, w, n - 1);
    }
  }

  // ----- eight values forward and back -----

  function Cosines(u: nat): (w: seq<int>)
    requires u < 8
    ensures |w| == 8
  {
    Table[u]
  }

  // The first n of eight values, transformed.
  function ForwardOf(f: seq<int>, n: nat): (r: seq<int>)
    requires |f| == 8 && n <= 8
    ensures |r| == 8
  {
    seq(8, u requires 0 <= u < 8 => Dot(f, Cosines(u), n))
  }

  function Forward(f: seq<int>): (r: seq<int>)
    requires |f| == 8
    ensures |r| == 8
  {
    ForwardOf(f, 8)
  }

  // How two positions' weights overlap.
  function Overlaps(x: nat): (g: seq<int>)
    requires x < 8
    ensures |g| == 8
  {
    seq(8, z requires 0 <= z < 8 => Dot(Weights(z), Weights(x), 8))
  }

  lemma WeightsAreCosines(u: nat, x: nat)
    requires u < 8 && x < 8
    ensures Weights(x)[u] == Cosines(u)[x]
  {
  }

  lemma {:induction false} BackOf(f: seq<int>, x: nat, n: nat)
    requires |f| == 8 && x < 8 && n <= 8
    ensures Dot(ForwardOf(f, n), Weights(x), 8) == Dot(f, Overlaps(x), n)
  {
    hide Weights, Cosines, Dot;
    var w := Weights(x);
    if n == 0 {
      var zeros := ForwardOf(f, 0);
      forall u | 0 <= u < 8
        ensures zeros[u] == 0
      {
        DotNone(f, Cosines(u));
      }
      DotWithin(zeros, w, 8, 0);
      DotNone(f, Overlaps(x));
    } else {
      var k := n - 1;
      BackOf(f, x, k);
      var c, a, b := ForwardOf(f, n), Weights(k), ForwardOf(f, k);
      forall u | 0 <= u < 8
        ensures c[u] == f[k] * a[u] + b[u]
      {
        DotStep(f, Cosines(u), k);
        WeightsAreCosines(u, k);
      }
      DotLinear(c, f[k], a, b, w, 8);
      DotStep(f, Overlaps(x), k);
    }
  }

  // Weights of different positions cancel, but for the rounding of the table.
  function Unit(x: nat): (e: seq<int>)
    requires x < 8
    ensures |e| == 8 && forall z :: 0 <= z < 8 ==> e[z] == if z == x then 1 else 0
  {
    seq(8, z requires 0 <= z < 8 => if z == x then 1 else 0)
  }

  function Excess(x: nat): (e: seq<int>)
    requires x < 8
    ensures |e| == 8
  {
    seq(8, z requires 0 <= z < 8 => Overlaps(x)[z] - 0x400_0000 * Unit(x)[z])
  }

  lemma DotUnrolls(a: seq<int>, w: seq<int>)
    requires |a| == 8 && |w| == 8
    ensures Dot(a, w, 8)
         == a[0] * w[0] + a[1] * w[1] + a[2] * w[2] + a[3] * w[3] + a[4] * w[4] + a[5] * w[5] + a[6] * w[6] + a[7] * w[7]
  {
    hide Dot;
    DotNone(a, w);
    DotStep(a, w, 0);
    DotStep(a, w, 1);
    DotStep(a, w, 2);
    DotStep(a, w, 3);
    DotStep(a, w, 4);
    DotStep(a, w, 5);
    DotStep(a, w, 6);
    DotStep(a, w, 7);
  }

  lemma AbsSumUnrolls(w: seq<int>)
    requires |w| == 8
    ensures AbsSum(w, 8) == Abs(w[0]) + Abs(w[1]) + Abs(w[2]) + Abs(w[3]) + Abs(w[4]) + Abs(w[5]) + Abs(w[6]) + Abs(w[7])
  {
    hide Abs, AbsSum;
    AbsSumNone(w);
    AbsSumStep(w, 0);
    AbsSumStep(w, 1);
    AbsSumStep(w, 2);
    AbsSumStep(w, 3);
    AbsSumStep(w, 4);
    AbsSumStep(w, 5);
    AbsSumStep(w, 6);
    AbsSumStep(w, 7);
  }

  lemma AbsSumNone(w: seq<int>)
    ensures AbsSum(w, 0) == 0
  {
  }

  lemma AbsSumStep(w: seq<int>, n: nat)
    requires n < |w|
    ensures AbsSum(w, n + 1) == AbsSum(w, n) + Abs(w[n])
  {
  }

  const WeightSum: int := 21641
  const ExcessSum: int := 17558

  lemma WeightsAdd(x: nat)
    requires x < 8
    ensures AbsSum(Weights(x), 8) == WeightSum
  {
    hide AbsSum;
    AbsSumUnrolls(Weights(x));
  }

  lemma CosinesAdd(u: nat)
    requires u < 8
    ensures AbsSum(Cosines(u), 8) <= 0x8000
  {
    hide AbsSum;
    AbsSumUnrolls(Cosines(u));
  }

  lemma OverlapIsSmall(x: nat, z: nat)
    requires x < 8 && z < 8
    ensures Abs(Dot(Weights(z), Weights(x), 8) - if x == z then 0x400_0000 else 0)
         <= if x == z then 5385 else if x == 7 - z then 7925 else 708
  {
    hide Dot, Weights;
    if x < 4 {
      OverlapLow(x, z);
    } else if z < 4 {
      DotCommutes(Weights(z), Weights(x), 8);
      OverlapLow(z, x);
    } else {
      OverlapHigh(x, z);
    }
  }

  lemma OverlapLow(x: nat, z: nat)
    requires x < 4 && z < 8
    ensures Abs(Dot(Weights(z), Weights(x), 8) - if x == z then 0x400_0000 else 0)
         <= if x == z then 5385 else if x == 7 - z then 7925 else 708
  {
    hide Dot;
    DotUnrolls(Weights(z), Weights(x));
  }

  lemma OverlapHigh(x: nat, z: nat)
    requires 4 <= x < 8 && 4 <= z < 8
    ensures Abs(Dot(Weights(z), Weights(x), 8) - if x == z then 0x400_0000 else 0) <= if x == z then 5385 else 708
  {
    hide Dot;
    DotUnrolls(Weights(z), Weights(x));
  }

  lemma ExcessIsSmall(x: nat)
    requires x < 8
    ensures AbsSum(Excess(x), 8) <= ExcessSum
  {
    hide AbsSum, Dot, Weights, Abs;
    var e := Excess(x);
    AbsSumUnrolls(e);
    forall z | 0 <= z < 8
      ensures Abs(e[z]) <= if x == z then 5385 else if x == 7 - z then 7925 else 708
    {
      OverlapIsSmall(x, z);
      ExcessAt(x, z);
    }
  }

  lemma ExcessAt(x: nat, z: nat)
    requires x < 8 && z < 8
    ensures Excess(x)[z] == Dot(Weights(z), Weights(x), 8) - if x == z then 0x400_0000 else 0
  {
    hide Dot, Weights;
    var e := Unit(x)[z];
    assert Excess(x)[z] == Overlaps(x)[z] - 0x400_0000 * e;
    assert 0x400_0000 * e == if x == z then 0x400_0000 else 0;
  }

  // Eight values, forward and back, come out 2^26 times as large, and but for the table's rounding
  // the same.
  lemma ForwardAndBack(f: seq<int>, x: nat, bound: int)
    requires |f| == 8 && x < 8 && Within(f, bound)
    ensures -ExcessSum * bound <= Dot(Forward(f), Weights(x), 8) - 0x400_0000 * f[x] <= ExcessSum * bound
  {
    hide Dot, AbsSum, Weights, ForwardOf, Overlaps;
    BackOf(f, x, 8);
    var g, u, e := Overlaps(x), Unit(x), Excess(x);
    DotCommutes(f, g, 8);
    DotCommutes(f, e, 8);
    assert Combines(g, 0x400_0000, u, e);
    DotLinear(g, 0x400_0000, u, e, f, 8);
    DotUnit(u, f, x, 8);
    DotWithin(f, e, 8, bound);
    ExcessIsSmall(x);
    Least(bound, ExcessSum - AbsSum(e, 8));
  }

  lemma {:induction false} DotUnit(u: seq<int>, f: seq<int>, x: nat, n: nat)
    requires x < |u| && n <= |u| == |f| && forall z :: 0 <= z < |u| ==> u[z] == if z == x then 1 else 0
    ensures Dot(u, f, n) == if x < n then f[x] else 0
  {
    if n > 0 {
      DotUnit(u, f, x, n - 1);
    }
  }

  // ----- a block forward -----

  // Column x of a block.
  function Down(f: seq<int>, x: nat): (c: seq<int>)
    requires |f| == 64 && x < 8
    ensures |c| == 8
  {
    seq(8, y requires 0 <= y < 8 => f[8 * y + x])
  }

  // Columns transformed: row v.
  function HalfWay(f: seq<int>, v: nat): (r: seq<int>)
    requires |f| == 64 && v < 8
    ensures |r| == 8
  {
    seq(8, x requires 0 <= x < 8 => Forward(Down(f, x))[v])
  }

  // Columns and then rows: the coefficients, 2^26 times too large.
  function Coefficients(f: seq<int>): (c: seq<int>)
    requires |f| == 64
    ensures |c| == 64
  {
    seq(64, k requires 0 <= k < 64 => Forward(HalfWay(f, k / 8))[k % 8])
  }

  lemma CoefficientRow(f: seq<int>, v: nat)
    requires |f| == 64 && v < 8
    ensures Row(Coefficients(f), v) == Forward(HalfWay(f, v))
  {
    hide Forward, HalfWay;
    var c, r := Coefficients(f), Row(Coefficients(f), v);
    forall u | 0 <= u < 8
      ensures r[u] == Forward(HalfWay(f, v))[u]
    {
      assert r[u] == c[8 * v + u] && (8 * v + u) / 8 == v && (8 * v + u) % 8 == u;
    }
  }

  const PixelMax: int := 128

  lemma HalfWayBound(f: seq<int>, v: nat)
    requires |f| == 64 && v < 8 && Within(f, PixelMax)
    ensures Within(HalfWay(f, v), 0x40_0000)
  {
    hide Dot, AbsSum, Cosines;
    var h := HalfWay(f, v);
    forall x | 0 <= x < 8
      ensures -0x40_0000 <= h[x] <= 0x40_0000
    {
      DotWithin(Down(f, x), Cosines(v), 8, PixelMax);
      CosinesAdd(v);
    }
  }

  // What the first pass makes of the coefficients of f.
  lemma FirstPassBack(f: seq<int>, x: nat, v: nat)
    requires |f| == 64 && x < 8 && v < 8 && Within(f, PixelMax)
    ensures var d := ExactColumn(Coefficients(f), x)[v] - 0x400_0000 * Forward(Down(f, x))[v];
            -ExcessSum * 0x40_0000 <= d <= ExcessSum * 0x40_0000
  {
    hide Dot, Coefficients, Weights, Forward;
    CoefficientRow(f, v);
    HalfWayBound(f, v);
    ForwardAndBack(HalfWay(f, v), x, 0x40_0000);
  }

  function Rest(c: seq<int>, m: int, a: seq<int>): (b: seq<int>)
    requires |a| == |c|
    ensures Combines(c, m, a, b)
  {
    seq(|c|, k requires 0 <= k < |c| => c[k] - m * a[k])
  }

  // How far the exact double sum of the exact coefficients is from the pixel.
  const TableError: int := ExcessSum * 0x40_0000 * WeightSum + 0x400_0000 * ExcessSum * PixelMax

  lemma ExactBack(f: seq<int>, x: nat, y: nat)
    requires |f| == 64 && x < 8 && y < 8 && Within(f, PixelMax)
    ensures -TableError <= Exact(Coefficients(f), x, y) - 0x10_0000_0000_0000 * f[8 * y + x] <= TableError
  {
    hide Dot, Coefficients, Weights, Forward, ExactColumn, AbsSum;
    var c, a := ExactColumn(Coefficients(f), x), Forward(Down(f, x));
    var b := Rest(c, 0x400_0000, a);
    forall v | 0 <= v < 8
      ensures -ExcessSum * 0x40_0000 <= b[v] <= ExcessSum * 0x40_0000
    {
      FirstPassBack(f, x, v);
    }
    DotLinear(c, 0x400_0000, a, b, Weights(y), 8);
    DotWithin(b, Weights(y), 8, ExcessSum * 0x40_0000);
    WeightsAdd(y);
    assert Within(Down(f, x), PixelMax);
    ForwardAndBack(Down(f, x), y, PixelMax);
  }

  // ----- quantised, and decoded -----

  // Each coefficient rounded to a whole number of quantiser steps, none of them larger than q.
  predicate Quantised(blk: seq<int>, f: seq<int>, q: nat)
    requires |f| == 64
  {
    |blk| == 64 && Within(Rest(Coefficients(f), 0x400_0000, blk), 0x200_0000 * q)
  }

  lemma ExactLinear(c: seq<int>, m: int, a: seq<int>, b: seq<int>, x: nat, y: nat)
    requires |c| == 64 && Combines(c, m, a, b) && x < 8 && y < 8
    ensures Exact(c, x, y) == m * Exact(a, x, y) + Exact(b, x, y)
  {
    hide Dot, Weights;
    var c', a', b' := ExactColumn(c, x), ExactColumn(a, x), ExactColumn(b, x);
    forall v | 0 <= v < 8
      ensures c'[v] == m * a'[v] + b'[v]
    {
      RowsCombine(c, m, a, b, v);
      DotLinear(Row(c, v), m, Row(a, v), Row(b, v), Weights(x), 8);
    }
    DotLinear(c', m, a', b', Weights(y), 8);
  }

  lemma RowsCombine(c: seq<int>, m: int, a: seq<int>, b: seq<int>, v: nat)
    requires |c| == 64 && Combines(c, m, a, b) && v < 8
    ensures Combines(Row(c, v), m, Row(a, v), Row(b, v))
  {
  }

  lemma ExactWithin(b: seq<int>, bound: int, x: nat, y: nat)
    requires |b| == 64 && Within(b, bound) && x < 8 && y < 8
    ensures -bound * WeightSum * WeightSum <= Exact(b, x, y) <= bound * WeightSum * WeightSum
  {
    hide Dot, Weights, AbsSum;
    var c := ExactColumn(b, x);
    forall v | 0 <= v < 8
      ensures -bound * WeightSum <= c[v] <= bound * WeightSum
    {
      assert Within(Row(b, v), bound);
      DotWithin(Row(b, v), Weights(x), 8, bound);
      WeightsAdd(x);
    }
    DotWithin(c, Weights(y), 8, bound * WeightSum);
    WeightsAdd(y);
  }

  // Coding and decoding a block moves no pixel by more than 3.5 q + 1.
  lemma DecodedIsClose(f: seq<int>, blk: seq<int>, q: nat, x: nat, y: nat)
    requires |f| == 64 && (forall k :: 0 <= k < 64 ==> -128 <= f[k] <= 127) && Quantised(blk, f, q) && x < 8 && y < 8
    ensures var d := Clamped(Unclamped(blk, x, y)) - (128 + f[8 * y + x]);
            -(7 * q + 2) <= 2 * d <= 7 * q + 2
  {
    hide Exact, Unclamped, Coefficients;
    var c := Coefficients(f);
    var b := Rest(c, 0x400_0000, blk);
    ExactLinear(c, 0x400_0000, blk, b, x, y);
    ExactWithin(b, 0x200_0000 * q, x, y);
    ExactBack(f, x, y);
    RoundingIsSmall(blk, x, y);
  }

  // ----- a coder -----

  // The nearest whole number of steps to a coefficient.
  function Rounded(c: int, step: nat): (r: int)
    requires step > 0
    ensures -0x200_0000 * step <= c - 0x400_0000 * (step * r) <= 0x200_0000 * step
  {
    var unit := 0x400_0000 * step;
    var r := (c + 0x200_0000 * step) / unit;
    assert c + 0x200_0000 * step == unit * r + (c + 0x200_0000 * step) % unit;
    assert unit * r == 0x400_0000 * (step * r);
    r
  }

  // The coefficients as a decoder sees them: rounded, and multiplied by their steps again.
  function Coded(f: seq<int>, steps: seq<nat>): (blk: seq<int>)
    requires |f| == 64 && |steps| == 64 && forall k :: 0 <= k < 64 ==> steps[k] > 0
    ensures |blk| == 64
  {
    seq(64, k requires 0 <= k < 64 => steps[k] * Rounded(Coefficients(f)[k], steps[k]))
  }

  lemma CodedIsQuantised(f: seq<int>, steps: seq<nat>, q: nat)
    requires |f| == 64 && |steps| == 64 && forall k :: 0 <= k < 64 ==> 0 < steps[k] <= q
    ensures Quantised(Coded(f, steps), f, q)
  {
    hide Coefficients, Rounded;
    var blk := Coded(f, steps);
    forall k | 0 <= k < 64
      ensures var d := Coefficients(f)[k] - 0x400_0000 * blk[k]; -0x200_0000 * q <= d <= 0x200_0000 * q
    {
      assert blk[k] == steps[k] * Rounded(Coefficients(f)[k], steps[k]);
    }
  }

  // For every block of pixels and every quantiser table.
  lemma CodedAndDecoded(f: seq<int>, steps: seq<nat>, q: nat, x: nat, y: nat)
    requires |f| == 64 && (forall k :: 0 <= k < 64 ==> -128 <= f[k] <= 127) && x < 8 && y < 8
    requires |steps| == 64 && forall k :: 0 <= k < 64 ==> 0 < steps[k] <= q
    ensures var d := Clamped(Unclamped(Coded(f, steps), x, y)) - (128 + f[8 * y + x]);
            -(7 * q + 2) <= 2 * d <= 7 * q + 2
  {
    hide Quantised, Coded, Unclamped;
    CodedIsQuantised(f, steps, q);
    DecodedIsClose(f, Coded(f, steps), q, x, y);
  }
}
