/**
 Stripping the paper off an icon (tools/mkicons.py): near-white is flood filled inward from the
 border and made transparent.
 */
module FloodFill {
  const NEAR_WHITE := 244

  datatype Pixel = Pixel(x: int, y: int)

  predicate Inside(size: nat, p: Pixel) {
    0 <= p.x < size && 0 <= p.y < size
  }

  function Index(size: nat, p: Pixel): (n: int) {
    p.y * size + p.x
  }

  lemma RowGap(a: int, b: int, size: nat)
    requires a < b
    ensures a * size + size <= b * size
  {
    assert (a + 1) * size <= b * size;
  }

  lemma IndexBound(size: nat, p: Pixel)
    requires Inside(size, p)
    ensures 0 <= Index(size, p) < size * size
  {
    RowGap(p.y, size, size);
  }

  lemma IndexInjective(size: nat, p: Pixel, q: Pixel)
    requires Inside(size, p) && Inside(size, q) && Index(size, p) == Index(size, q)
    ensures p == q
  {
    if p.y < q.y {
      RowGap(p.y, q.y, size);
    } else if q.y < p.y {
      RowGap(q.y, p.y, size);
    }
  }

  // The pixels that are white: a grid of truth values, one for each pixel.
  type Grid = seq<bool>

  predicate WhiteAt(white: Grid, size: nat, p: Pixel) {
    Inside(size, p) && 0 <= Index(size, p) < |white| && white[Index(size, p)]
  }

  predicate Border(size: nat, p: Pixel) {
    p.x == 0 || p.x == size - 1 || p.y == 0 || p.y == size - 1
  }

  predicate Beside(p: Pixel, q: Pixel) {
    q == Pixel(p.x + 1, p.y) || q == Pixel(p.x - 1, p.y) || q == Pixel(p.x, p.y + 1) || q == Pixel(p.x, p.y - 1)
  }

  // White pixels, each beside the next, from the border to p.
  predicate Path(white: Grid, size: nat, path: seq<Pixel>, p: Pixel) {
    && |path| > 0 && Border(size, path[0]) && path[|path| - 1] == p
    && (forall i :: 0 <= i < |path| ==> WhiteAt(white, size, path[i]))
    && (forall i :: 0 < i < |path| ==> Beside(path[i - 1], path[i]))
  }

  ghost predicate Paper(white: Grid, size: nat, p: Pixel) {
    exists path :: Path(white, size, path, p)
  }

  lemma PaperSpreads(white: Grid, size: nat, p: Pixel, q: Pixel)
    requires Paper(white, size, p) && Beside(p, q) && WhiteAt(white, size, q)
    ensures Paper(white, size, q)
  {
    var path :| Path(white, size, path, p);
    assert Path(white, size, path + [q], q);
  }

  lemma PaperAtBorder(white: Grid, size: nat, p: Pixel)
    requires Border(size, p) && WhiteAt(white, size, p)
    ensures Paper(white, size, p)
  {
    assert Path(white, size, [p], p);
  }

  // A set of pixels that has the white border and, with every pixel, its white neighbours, has
  // all the paper.
  lemma {:induction false} PaperIsCaught(white: Grid, size: nat, caught: Pixel -> bool, path: seq<Pixel>, p: Pixel)
    requires Path(white, size, path, p)
    requires forall q :: Border(size, q) && WhiteAt(white, size, q) ==> caught(q)
    requires forall q, r :: caught(q) && Beside(q, r) && WhiteAt(white, size, r) ==> caught(r)
    ensures caught(p)
    decreases |path|
  {
    if |path| > 1 {
      var q := path[|path| - 2];
      assert Path(white, size, path[..|path| - 1], q);
      PaperIsCaught(white, size, caught, path[..|path| - 1], q);
      assert Beside(path[|path| - 2], path[|path| - 1]);
    }
  }

  // ----- the work in progress -----

  predicate Caught(seen: Grid, size: nat, p: Pixel) {
    WhiteAt(seen, size, p)
  }

  // Everything caught is paper, everything waiting is paper if it is white, and whatever paper
  // still has to be caught is waiting.
  ghost predicate Progress(white: Grid, size: nat, seen: Grid, stack: seq<Pixel>) {
    && |seen| == |white| == size * size
    && (forall p :: p in stack && WhiteAt(white, size, p) ==> Paper(white, size, p))
    && (forall p :: Caught(seen, size, p) ==> WhiteAt(white, size, p) && Paper(white, size, p))
    && (forall p :: Border(size, p) && WhiteAt(white, size, p) ==> Caught(seen, size, p) || p in stack)
    && (forall p, q :: Caught(seen, size, p) && Beside(p, q) && WhiteAt(white, size, q) ==> Caught(seen, size, q) || q in stack)
  }

  lemma AllCaught(white: Grid, size: nat, seen: Grid, p: Pixel)
    requires Progress(white, size, seen, [])
    ensures Caught(seen, size, p) <==> Paper(white, size, p)
  {
    hide Path, WhiteAt, Beside, Border;
    if Paper(white, size, p) {
      var path :| Path(white, size, path, p);
      PaperIsCaught(white, size, q => Caught(seen, size, q), path, p);
    }
  }

  // A pixel that is outside, caught already or not white can be dropped.
  lemma Dropped(white: Grid, size: nat, seen: Grid, stack: seq<Pixel>)
    requires stack != [] && Progress(white, size, seen, stack)
    requires var p := stack[|stack| - 1]; Caught(seen, size, p) || !WhiteAt(white, size, p)
    ensures Progress(white, size, seen, stack[..|stack| - 1])
  {
    var p, rest := stack[|stack| - 1], stack[..|stack| - 1];
    assert forall q :: q in stack <==> q in rest || q == p;
    hide Paper, WhiteAt, Beside, Border;
    hide Caught;
  }

  function Neighbours(p: Pixel): (ns: seq<Pixel>) {
    [Pixel(p.x + 1, p.y), Pixel(p.x - 1, p.y), Pixel(p.x, p.y + 1), Pixel(p.x, p.y - 1)]
  }

  lemma CaughtUpdate(seen: Grid, size: nat, p: Pixel, q: Pixel)
    requires |seen| == size * size && Inside(size, p) && 0 <= Index(size, p) < |seen|
    ensures Caught(seen[Index(size, p) := true], size, q) <==> q == p || Caught(seen, size, q)
  {
    if Inside(size, q) && Index(size, q) == Index(size, p) {
      IndexInjective(size, p, q);
    }
  }

  // A white pixel is caught, and its neighbours wait.
  lemma Marked(white: Grid, size: nat, seen: Grid, stack: seq<Pixel>)
    requires stack != [] && Progress(white, size, seen, stack)
    requires WhiteAt(white, size, stack[|stack| - 1])
    ensures var p := stack[|stack| - 1];
            && 0 <= Index(size, p) < |seen|
            && Progress(white, size, seen[Index(size, p) := true], stack[..|stack| - 1] + Neighbours(p))
  {
    var p, rest := stack[|stack| - 1], stack[..|stack| - 1];
    var seen', stack' := seen[Index(size, p) := true], rest + Neighbours(p);
    assert forall q :: q in stack <==> q in rest || q == p;
    assert forall q :: q in stack' <==> q in rest || q in Neighbours(p);
    forall q: Pixel
      ensures q in Neighbours(p) <==> Beside(p, q)
      ensures Caught(seen', size, q) <==> q == p || Caught(seen, size, q)
      ensures Beside(p, q) && WhiteAt(white, size, q) ==> Paper(white, size, q)
    {
      CaughtUpdate(seen, size, p, q);
      if Beside(p, q) && WhiteAt(white, size, q) {
        PaperSpreads(white, size, p, q);
      }
    }
    hide Paper, WhiteAt, Beside, Border, Caught, Neighbours;
  }

  function Unseen(seen: Grid): (n: nat) {
    if seen == [] then 0 else Unseen(seen[1..]) + if seen[0] then 0 else 1
  }

  lemma {:induction false} UnseenUpdate(seen: Grid, i: nat)
    requires i < |seen| && !seen[i]
    ensures Unseen(seen[i := true]) == Unseen(seen) - 1
  {
    if i == 0 {
      assert seen[0 := true][1..] == seen[1..];
    } else {
      UnseenUpdate(seen[1..], i - 1);
      assert seen[i := true][1..] == seen[1..][i - 1 := true];
    }
  }

  // ----- the fill -----

  predicate WhitePixel(px: seq<int>, n: nat)
    requires 4 * n + 3 < |px|
  {
    px[4 * n] >= NEAR_WHITE && px[4 * n + 1] >= NEAR_WHITE && px[4 * n + 2] >= NEAR_WHITE
  }

  function Whites(px: seq<int>, count: nat): (g: Grid)
    requires |px| == 4 * count
    ensures |g| == count && forall n :: 0 <= n < count ==> g[n] == WhitePixel(px, n)
  {
    seq(count, n requires 0 <= n < count => WhitePixel(px, n))
  }

  // The picture with the alpha of every pixel that was seen set to 0.
  predicate Cleared(px: seq<int>, was: seq<int>, seen: Grid)
    requires |px| == |was| == 4 * |seen|
  {
    forall i :: 0 <= i < |px| ==> px[i] == if i % 4 == 3 && seen[i / 4] then 0 else was[i]
  }

  lemma StillWhite(px: seq<int>, was: seq<int>, seen: Grid, n: nat)
    requires |px| == |was| == 4 * |seen| && Cleared(px, was, seen) && n < |seen|
    ensures WhitePixel(px, n) == WhitePixel(was, n)
  {
    assert (4 * n) % 4 == 0 && (4 * n + 1) % 4 == 1 && (4 * n + 2) % 4 == 2;
  }

  lemma ClearedOneMore(px: seq<int>, was: seq<int>, seen: Grid, n: nat)
    requires |px| == |was| == 4 * |seen| && Cleared(px, was, seen) && n < |seen|
    ensures Cleared(px[4 * n + 3 := 0], was, seen[n := true])
  {
    var px', seen' := px[4 * n + 3 := 0], seen[n := true];
    forall i | 0 <= i < |px|
      ensures px'[i] == if i % 4 == 3 && seen'[i / 4] then 0 else was[i]
    {
      assert i % 4 == 3 && i / 4 == n <==> i == 4 * n + 3;
    }
  }

  // The whole border, corners twice.
  method BorderPixels(size: nat) returns (stack: seq<Pixel>)
    ensures forall p :: Inside(size, p) && Border(size, p) ==> p in stack
    ensures forall p :: p in stack ==> Border(size, p)
  {
    stack := [];
    var x := 0;
    while x < size
      invariant 0 <= x <= size && |stack| == 2 * x
      invariant forall a :: 0 <= a < x ==> stack[2 * a] == Pixel(a, 0) && stack[2 * a + 1] == Pixel(a, size - 1)
      invariant forall k :: 0 <= k < |stack| ==> Border(size, stack[k])
    {
      stack := stack + [Pixel(x, 0), Pixel(x, size - 1)];
      x := x + 1;
    }
    ghost var rows := stack;
    var y := 0;
    while y < size
      invariant 0 <= y <= size && |stack| == 2 * size + 2 * y && rows == stack[..2 * size]
      invariant forall b :: 0 <= b < y ==>
        stack[2 * size + 2 * b] == Pixel(0, b) && stack[2 * size + 2 * b + 1] == Pixel(size - 1, b)
      invariant forall k :: 0 <= k < |stack| ==> Border(size, stack[k])
    {
      stack := stack + [Pixel(0, y), Pixel(size - 1, y)];
      y := y + 1;
    }
    forall p | Inside(size, p) && Border(size, p)
      ensures p in stack
    {
      assert rows[2 * p.x] == stack[2 * p.x] && rows[2 * p.x + 1] == stack[2 * p.x + 1];
      assert stack[2 * size + 2 * p.y] == Pixel(0, p.y) && stack[2 * size + 2 * p.y + 1] == Pixel(size - 1, p.y);
    }
  }

  // The flood fill of strip_background: exactly the near-white pixels joined to the border by
  // near-white ones become transparent, and nothing else changes.
  method StripPaper(px: array<int>, size: nat) returns (seen: array<bool>)
    requires px.Length == 4 * (size * size)
    modifies px
    ensures fresh(seen) && seen.Length == size * size
    ensures forall p :: Inside(size, p) ==>
      (Caught(seen[..], size, p) <==> Paper(Whites(old(px[..]), size * size), size, p))
    ensures Cleared(px[..], old(px[..]), seen[..])
  {
    ghost var was := px[..];
    ghost var white := Whites(was, size * size);
    seen := new bool[size * size](_ => false);
    var stack := BorderPixels(size);
    AtTheStart(white, size, seen[..], stack);
    assert Cleared(px[..], was, seen[..]);
    hide Progress, Cleared, Paper, WhiteAt, Border;
    while stack != []
      invariant Progress(white, size, seen[..], stack)
      invariant Cleared(px[..], was, seen[..])
      decreases Unseen(seen[..]), |stack|
    {
      stack := Visit(px, seen, size, stack, white, was);
    }
    forall p | Inside(size, p)
      ensures Caught(seen[..], size, p) <==> Paper(white, size, p)
    {
      AllCaught(white, size, seen[..], p);
    }
  }

  // One pixel off the stack.
  method Visit(px: array<int>, seen: array<bool>, size: nat, stack: seq<Pixel>, ghost white: Grid, ghost was: seq<int>)
      returns (stack': seq<Pixel>)
    requires stack != [] && seen.Length == size * size && px.Length == |was| == 4 * (size * size)
    requires white == Whites(was, size * size)
    requires Progress(white, size, seen[..], stack) && Cleared(px[..], was, seen[..])
    modifies px, seen
    ensures Progress(white, size, seen[..], stack') && Cleared(px[..], was, seen[..])
    ensures Unseen(seen[..]) < old(Unseen(seen[..])) || (Unseen(seen[..]) == old(Unseen(seen[..])) && |stack'| < |stack|)
  {
    hide Progress, Cleared, Paper, Border, Unseen, WhitePixel, Path;
    var p := stack[|stack| - 1];
    stack' := stack[..|stack| - 1];
    if p.x < 0 || p.y < 0 || p.x >= size || p.y >= size {
      Dropped(white, size, seen[..], stack);
      return;
    }
    var n := p.y * size + p.x;
    IndexBound(size, p);
    if seen[n] {
      Dropped(white, size, seen[..], stack);
      return;
    }
    StillWhite(px[..], was, seen[..], n);
    var isWhite := px[4 * n] >= NEAR_WHITE && px[4 * n + 1] >= NEAR_WHITE && px[4 * n + 2] >= NEAR_WHITE;
    WhiteBytes(px[..], n);
    if !isWhite {
      Dropped(white, size, seen[..], stack);
      return;
    }
    ghost var s, q := seen[..], px[..];
    Marked(white, size, s, stack);
    UnseenUpdate(s, n);
    ClearedOneMore(q, was, s, n);
    seen[n] := true;
    px[4 * n + 3] := 0;
    assert seen[..] == s[n := true];
    assert px[..] == q[4 * n + 3 := 0];
    stack' := stack' + Neighbours(p);
  }

  lemma WhiteBytes(px: seq<int>, n: nat)
    requires 4 * n + 3 < |px|
    ensures WhitePixel(px, n) == (px[4 * n] >= NEAR_WHITE && px[4 * n + 1] >= NEAR_WHITE && px[4 * n + 2] >= NEAR_WHITE)
  {
  }

  lemma AtTheStart(white: Grid, size: nat, seen: Grid, stack: seq<Pixel>)
    requires |seen| == |white| == size * size && forall i :: 0 <= i < |seen| ==> !seen[i]
    requires forall p :: Inside(size, p) && Border(size, p) ==> p in stack
    requires forall p :: p in stack ==> Border(size, p)
    ensures Progress(white, size, seen, stack)
  {
    forall p | p in stack && WhiteAt(white, size, p)
      ensures Paper(white, size, p)
    {
      PaperAtBorder(white, size, p);
    }
    assert forall p :: !Caught(seen, size, p);
    hide Paper, Beside, Border;
  }
}
