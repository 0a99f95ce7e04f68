/**
 The table of the inverse cosine transform (userland/img.h) is the cosine table: row u at column x
 is the cosine of u (2x + 1) / 16 half turns, 4096 to the unit and rounded to the nearest, and row 0
 is the square root of a half.  Cosines are spoken of through their multiple-angle rule alone.
 */
module IdctCosines {
  import opened Idct

  // The cosine of twice the angle whose cosine is c / unit; unit * unit to the unit.
  function Twice(c: int, unit: int): (d: int) {
    2 * c * c - unit * unit
  }

  // Of 2^n times the angle.
  function Doubled(n: nat, c: int, unit: int): (d: int) {
    if n == 0 then c else Doubled(n - 1, Twice(c, unit), unit * unit)
  }

  // Within half a unit of t / 4096 lies a cosine of which 2^n times the angle is an odd number of
  // right angles.
  predicate RoundsRightAngle(n: nat, t: int) {
    var low, high := Doubled(n, 2 * t - 1, 8192), Doubled(n, 2 * t + 1, 8192);
    low < 0 < high || high < 0 < low
  }

  // The rows of odd number hold cosines of odd sixteenths of a half turn, rows 2 and 6 of odd
  // eighths, and rows 0 and 4 of odd quarters.
  function Order(u: nat): (n: nat) {
    if u % 2 == 1 then 3 else if u % 4 == 2 then 2 else 1
  }

  lemma Rounds799()
    ensures RoundsRightAngle(3, 799) && RoundsRightAngle(3, -799)
  {
  }

  lemma Rounds2276()
    ensures RoundsRightAngle(3, 2276) && RoundsRightAngle(3, -2276)
  {
  }

  lemma Rounds3406()
    ensures RoundsRightAngle(3, 3406) && RoundsRightAngle(3, -3406)
  {
  }

  lemma Rounds4017()
    ensures RoundsRightAngle(3, 4017) && RoundsRightAngle(3, -4017)
  {
  }

  lemma Rounds1567()
    ensures RoundsRightAngle(2, 1567) && RoundsRightAngle(2, -1567)
  {
  }

  lemma Rounds3784()
    ensures RoundsRightAngle(2, 3784) && RoundsRightAngle(2, -3784)
  {
  }

  lemma Rounds2896()
    ensures RoundsRightAngle(1, 2896) && RoundsRightAngle(1, -2896)
  {
  }

  // Every entry is such a cosine, correctly rounded.
  lemma EntriesAreRounded(u: nat, x: nat)
    requires u < 8 && x < 8
    ensures RoundsRightAngle(Order(u), Table[u][x])
  {
    hide RoundsRightAngle;
    Rounds799();
    Rounds2276();
    Rounds3406();
    Rounds4017();
    Rounds1567();
    Rounds3784();
    Rounds2896();
  }

  // The cosine of u times the angle of column x, as the table has it; of none and eight times it,
  // as they must be.
  function Cosine(u: nat, x: nat): (c: int)
    requires u <= 8 && x < 8
  {
    if u == 0 then 4096 else if u == 8 then 0 else Table[u][x]
  }

  // Which cosine: row u is that of u times the angle of row 1, whose angles grow from column to
  // column between none and two right angles.  (Twice the product of two cosines is the cosine of the
  // sum plus that of the difference.)
  lemma RowsAreMultiples(u: nat, x: nat)
    requires 1 <= u < 8 && x < 8
    ensures -8192 < 2 * Table[1][x] * Table[u][x] - 4096 * (Cosine(u + 1, x) + Cosine(u - 1, x)) < 8192
  {
  }

  lemma AnglesGrow(x: nat, x': nat)
    requires x < x' < 8
    ensures -4096 < Table[1][x'] < Table[1][x] < 4096
    ensures Table[1][x] == -Table[1][7 - x]
  {
  }

  // ----- one coefficient is one wave -----

  predicate OnlyAt(a: seq<int>, k: nat) {
    k < |a| && forall i :: 0 <= i < |a| && i != k ==> a[i] == 0
  }

  lemma {:induction false} DotOnly(a: seq<int>, w: seq<int>, n: nat, k: nat)
    requires n <= |a| && n <= |w| && OnlyAt(a, k)
    ensures Dot(a, w, n) == if k < n then a[k] * w[k] else 0
  {
    if n > 0 {
      DotOnly(a, w, n - 1, k);
    }
  }

  lemma WeightIs(u: nat, x: nat)
    requires u < 8 && x < 8
    ensures Weights(x)[u] == Table[u][x]
  {
  }

  // A block whose only coefficient stands at column u of row v is a wave of u half turns across and v
  // down: the product of the two cosines, but for rounding.
  lemma OneWave(blk: seq<int>, u: nat, v: nat, x: nat, y: nat)
    requires |blk| == 64 && u < 8 && v < 8 && x < 8 && y < 8 && OnlyAt(blk, 8 * v + u)
    ensures Exact(blk, x, y) == blk[8 * v + u] * Table[u][x] * Table[v][y]
    ensures -0x240_0000 <= 0x400_0000 * (Unclamped(blk, x, y) - 128) - blk[8 * v + u] * Table[u][x] * Table[v][y] <= 0x240_0000
  {
    hide Dot, Weights, Unclamped;
    var c := ExactColumn(blk, x);
    forall j | 0 <= j < 8
      ensures c[j] == if j == v then blk[8 * v + u] * Table[u][x] else 0
    {
      OneRowOfIt(blk, u, v, x, j);
    }
    DotOnly(c, Weights(y), 8, v);
    WeightIs(v, y);
    RoundingIsSmall(blk, x, y);
  }

  lemma OneRowOfIt(blk: seq<int>, u: nat, v: nat, x: nat, j: nat)
    requires |blk| == 64 && u < 8 && v < 8 && x < 8 && j < 8 && OnlyAt(blk, 8 * v + u)
    ensures Dot(Row(blk, j), Weights(x), 8) == if j == v then blk[8 * v + u] * Table[u][x] else 0
  {
    hide Dot, Weights;
    var r := Row(blk, j);
    assert forall i :: 0 <= i < 8 ==> r[i] == blk[8 * j + i];
    assert OnlyAt(r, u);
    DotOnly(r, Weights(x), 8, u);
    WeightIs(u, x);
  }
}
