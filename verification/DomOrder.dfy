/**
 Document order.  The parser only ever adds below the path of open elements, so the nodes it
 makes are numbered in the order of a walk through the tree, each before its children.
 */
module DomOrder {
  import opened DomTree

  function Range(a: nat, b: nat): (r: seq<nat>)
    requires a <= b
    ensures |r| == b - a && forall i :: 0 <= i < b - a ==> r[i] == a + i
  {
    seq(b - a, i => a + i)
  }

  // Children have higher numbers than their parents.
  predicate Downward(kids: Kids) {
    forall p, j :: 0 <= p < |kids| && 0 <= j < |kids[p]| ==> p < kids[p][j] < |kids|
  }

  // The pre-order walk from node i.
  ghost function Walk(kids: Kids, i: nat): (w: seq<nat>)
    requires Downward(kids) && i < |kids|
    decreases |kids| - i, 1, 0
  {
    [i] + WalkAll(kids, i, kids[i])
  }

  ghost function WalkAll(kids: Kids, p: nat, l: seq<nat>): (w: seq<nat>)
    requires Downward(kids) && p < |kids| && forall j :: 0 <= j < |l| ==> p < l[j] < |kids|
    decreases |kids| - p, 0, |l|
  {
    if l == [] then [] else Walk(kids, l[0]) + WalkAll(kids, p, l[1..])
  }

  // ends[p] is one past the last node below p: the children of p fill up the numbers from p + 1
  // to there, one subtree behind the other.
  predicate Fills(l: seq<nat>, ends: seq<nat>, from: nat, to: nat) {
    if l == [] then from == to
    else l[0] == from && from < |ends| && from < ends[from] && Fills(l[1..], ends, ends[from], to)
  }

  predicate Nested(kids: Kids, ends: seq<nat>) {
    && |ends| == |kids| && |kids| > 0 && ends[0] == |kids|
    && (forall p :: 0 <= p < |kids| ==> p < ends[p] <= |kids| && Fills(kids[p], ends, p + 1, ends[p]))
  }

  lemma {:induction false} FillsBounds(l: seq<nat>, ends: seq<nat>, from: nat, to: nat)
    requires Fills(l, ends, from, to)
    ensures from <= to && forall j :: 0 <= j < |l| ==> from <= l[j] < to && l[j] < |ends|
    decreases |l|
  {
    if l != [] {
      FillsBounds(l[1..], ends, ends[from], to);
      assert forall j :: 0 < j < |l| ==> l[j] == l[1..][j - 1];
    }
  }

  lemma NestedIsDownward(kids: Kids, ends: seq<nat>)
    requires Nested(kids, ends)
    ensures Downward(kids)
  {
    forall p, j | 0 <= p < |kids| && 0 <= j < |kids[p]|
      ensures p < kids[p][j] < |kids|
    {
      FillsBounds(kids[p], ends, p + 1, ends[p]);
    }
  }

  lemma {:induction false} WalkIsRange(kids: Kids, ends: seq<nat>, i: nat)
    requires Nested(kids, ends) && Downward(kids) && i < |kids|
    ensures Walk(kids, i) == Range(i, ends[i])
    decreases |kids| - i, 1, 0
  {
    WalkAllIsRange(kids, ends, i, kids[i], i + 1, ends[i]);
    assert [i] + Range(i + 1, ends[i]) == Range(i, ends[i]);
  }

  lemma {:induction false} WalkAllIsRange(kids: Kids, ends: seq<nat>, p: nat, l: seq<nat>, from: nat, to: nat)
    requires Nested(kids, ends) && Downward(kids) && p < |kids| && p < from <= to <= |kids| && Fills(l, ends, from, to)
    ensures forall j :: 0 <= j < |l| ==> p < l[j] < |kids|
    ensures WalkAll(kids, p, l) == Range(from, to)
    decreases |kids| - p, 0, |l|
  {
    FillsBounds(l, ends, from, to);
    if l != [] {
      FillsBounds(l[1..], ends, ends[from], to);
      WalkIsRange(kids, ends, l[0]);
      WalkAllIsRange(kids, ends, p, l[1..], ends[from], to);
      assert Range(from, ends[from]) + Range(ends[from], to) == Range(from, to);
    }
  }

  // The walk through the whole document visits the nodes in the order of their numbers.
  ghost predicate InDocumentOrder(kids: Kids) {
    |kids| > 0 && Downward(kids) && Walk(kids, 0) == Range(0, |kids|)
  }

  lemma DocumentOrder(kids: Kids, ends: seq<nat>)
    requires Nested(kids, ends)
    ensures InDocumentOrder(kids)
  {
    NestedIsDownward(kids, ends);
    WalkIsRange(kids, ends, 0);
  }

  // ----- the open elements -----

  // The stack is the path from the root along last children, and each element on it is still
  // growing.
  predicate OnRightEdge(kids: Kids, ends: seq<nat>, stack: seq<nat>) {
    && |ends| == |kids| && |stack| > 0 && stack[0] == 0
    && (forall d :: 0 <= d < |stack| ==> stack[d] < |kids| && ends[stack[d]] == |kids|)
    && (forall d :: 0 < d < |stack| ==> stack[d - 1] < stack[d])
    && (forall d :: 0 <= d < |stack| - 1 ==> Continues(kids, stack, d))
  }

  // The next open element is the last child of this one.
  predicate Continues(kids: Kids, stack: seq<nat>, d: nat)
    requires d + 1 < |stack| && stack[d] < |kids|
  {
    kids[stack[d]] != [] && LastOf(kids[stack[d]]) == stack[d + 1]
  }

  lemma PoppedEdge(kids: Kids, ends: seq<nat>, stack: seq<nat>, d: nat)
    requires OnRightEdge(kids, ends, stack) && 0 < d <= |stack|
    ensures OnRightEdge(kids, ends, stack[..d])
  {
    forall i | 0 <= i < d - 1
      ensures Continues(kids, stack[..d], i)
    {
      assert Continues(kids, stack, i);
    }
  }

  // ----- one more node, under the top of the stack -----

  function GrownEnds(ends: seq<nat>, stack: seq<nat>): (r: seq<nat>)
    ensures |r| == |ends| + 1
    ensures forall i :: 0 <= i < |ends| ==> r[i] == if i in stack then |ends| + 1 else ends[i]
    ensures r[|ends|] == |ends| + 1
  {
    seq(|ends|, i requires 0 <= i < |ends| => if i in stack then |ends| + 1 else ends[i]) + [|ends| + 1]
  }

  function GrownKids(kids: Kids, p: nat): (r: Kids)
    requires p < |kids|
  {
    (kids + [[]])[p := kids[p] + [|kids|]]
  }

  // A list that stays away from the open elements fills what it filled.
  lemma {:induction false} FillsStill(l: seq<nat>, ends: seq<nat>, stack: seq<nat>, from: nat, to: nat)
    requires Fills(l, ends, from, to) && forall j :: 0 <= j < |l| ==> l[j] !in stack
    ensures Fills(l, GrownEnds(ends, stack), from, to)
    decreases |l|
  {
    if l != [] {
      assert l[0] == from;
      forall j | 0 <= j < |l[1..]|
        ensures l[1..][j] !in stack
      {
        assert l[1..][j] == l[j + 1];
      }
      FillsStill(l[1..], ends, stack, ends[from], to);
    }
  }

  lemma {:induction false} FillsMore(l: seq<nat>, ends: seq<nat>, from: nat, n: nat)
    requires Fills(l, ends, from, n) && n + 1 == |ends| && ends[n] == n + 1
    ensures Fills(l + [n], ends, from, n + 1)
    decreases |l|
  {
    if l == [] {
      assert (l + [n])[1..] == [];
    } else {
      FillsMore(l[1..], ends, ends[from], n);
      assert (l + [n])[1..] == l[1..] + [n];
    }
  }

  // A list whose last node is open, and no other.
  lemma {:induction false} FillsOpen(l: seq<nat>, ends: seq<nat>, stack: seq<nat>, from: nat)
    requires l != [] && Fills(l, ends, from, |ends|) && LastOf(l) in stack
    requires forall j :: 0 <= j < |l| - 1 ==> l[j] !in stack
    ensures Fills(l, GrownEnds(ends, stack), from, |ends| + 1)
    decreases |l|
  {
    var ends' := GrownEnds(ends, stack);
    if |l| == 1 {
      assert Fills(l[1..], ends', ends'[from], |ends| + 1);
    } else {
      assert l[0] == from;
      forall j | 0 <= j < |l[1..]| - 1
        ensures l[1..][j] !in stack
      {
        assert l[1..][j] == l[j + 1];
      }
      FillsOpen(l[1..], ends, stack, ends[from]);
    }
  }

  // An open element is the last child of another open one.
  lemma OpenChild(t: Tree, ends: seq<nat>, stack: seq<nat>, q: nat, j: nat)
    requires Represents(t.nodes, t.kids) && Downward(t.kids) && OnRightEdge(t.kids, ends, stack)
    requires q < |t.kids| && j < |t.kids[q]| && t.kids[q][j] in stack
    ensures q in stack && q < stack[|stack| - 1] && j == |t.kids[q]| - 1
  {
    var c := t.kids[q][j];
    assert q < c;
    var d :| 0 <= d < |stack| && stack[d] == c;
    assert d > 0 && Continues(t.kids, stack, d - 1);
    var o := stack[d - 1];
    assert Lists(t.nodes, q, t.kids[q]) && Lists(t.nodes, o, t.kids[o]);
    assert t.kids[o][|t.kids[o]| - 1] == c;
    assert t.nodes[c].parent == q == o;
    TopIsHighest(stack, d);
  }

  lemma {:induction false} TopIsHighest(stack: seq<nat>, d: nat)
    requires d < |stack| && forall i :: 0 < i < |stack| ==> stack[i - 1] < stack[i]
    ensures stack[d] <= stack[|stack| - 1]
    decreases |stack| - d
  {
    if d < |stack| - 1 {
      TopIsHighest(stack, d + 1);
    }
  }

  lemma GrownFills(t: Tree, ends: seq<nat>, stack: seq<nat>, q: nat)
    requires Represents(t.nodes, t.kids) && Nested(t.kids, ends) && OnRightEdge(t.kids, ends, stack) && q < |t.kids|
    ensures var p := stack[|stack| - 1];
            Fills(GrownKids(t.kids, p)[q], GrownEnds(ends, stack), q + 1, GrownEnds(ends, stack)[q])
  {
    hide Fills, Represents, GrownEnds, Downward;
    var p, l, n := stack[|stack| - 1], t.kids[q], |t.kids|;
    NestedIsDownward(t.kids, ends);
    assert Fills(l, ends, q + 1, ends[q]);
    hide Nested;
    OpenChildren(t, ends, stack, q);
    if q == p {
      FillsStill(l, ends, stack, q + 1, n);
      FillsMore(l, GrownEnds(ends, stack), q + 1, n);
    } else if q in stack {
      LastChildIsOpen(t.kids, ends, stack, q);
      FillsOpen(l, ends, stack, q + 1);
    } else {
      FillsStill(l, ends, stack, q + 1, ends[q]);
    }
  }

  // Which children of q are open: the last one, when q is open itself and not the top.
  lemma OpenChildren(t: Tree, ends: seq<nat>, stack: seq<nat>, q: nat)
    requires Represents(t.nodes, t.kids) && Downward(t.kids) && OnRightEdge(t.kids, ends, stack) && q < |t.kids|
    ensures var l := t.kids[q];
            && (q !in stack || q == stack[|stack| - 1] ==> forall j :: 0 <= j < |l| ==> l[j] !in stack)
            && (forall j :: 0 <= j < |l| - 1 ==> l[j] !in stack)
  {
    hide Represents, Downward, OnRightEdge;
    forall j | 0 <= j < |t.kids[q]| && t.kids[q][j] in stack
      ensures q in stack && q < stack[|stack| - 1] && j == |t.kids[q]| - 1
    {
      OpenChild(t, ends, stack, q, j);
    }
  }

  lemma LastChildIsOpen(kids: Kids, ends: seq<nat>, stack: seq<nat>, q: nat)
    requires OnRightEdge(kids, ends, stack) && q < |kids| && q in stack && q != stack[|stack| - 1]
    ensures kids[q] != [] && LastOf(kids[q]) in stack && ends[q] == |ends|
  {
    var d :| 0 <= d < |stack| && stack[d] == q;
    assert Continues(kids, stack, d);
  }

  lemma GrownNested(t: Tree, ends: seq<nat>, stack: seq<nat>)
    requires Represents(t.nodes, t.kids) && Nested(t.kids, ends) && OnRightEdge(t.kids, ends, stack)
    ensures Nested(GrownKids(t.kids, stack[|stack| - 1]), GrownEnds(ends, stack))
  {
    var kids', ends' := GrownKids(t.kids, stack[|stack| - 1]), GrownEnds(ends, stack);
    assert stack[0] in stack;
    forall q | 0 <= q < |kids'|
      ensures q < ends'[q] <= |kids'| && Fills(kids'[q], ends', q + 1, ends'[q])
    {
      if q < |t.kids| {
        GrownFills(t, ends, stack, q);
        assert q < ends[q];
      }
    }
  }

  lemma GrownEdge(kids: Kids, ends: seq<nat>, stack: seq<nat>)
    requires OnRightEdge(kids, ends, stack)
    ensures var kids' := GrownKids(kids, stack[|stack| - 1]);
            && OnRightEdge(kids', GrownEnds(ends, stack), stack)
            && OnRightEdge(kids', GrownEnds(ends, stack), stack + [|kids|])
  {
    var top := |stack| - 1;
    var kids', ends', more := GrownKids(kids, stack[top]), GrownEnds(ends, stack), stack + [|kids|];
    forall d | 0 <= d < |stack|
      ensures stack[d] < |kids'| && ends'[stack[d]] == |kids'|
    {
      assert stack[d] in stack;
    }
    forall d | 0 <= d < top
      ensures Continues(kids', stack, d)
    {
      ContinuesStill(kids, stack, d);
    }
    assert kids'[stack[top]] == kids[stack[top]] + [|kids|];
    hide GrownKids, GrownEnds;
    assert OnRightEdge(kids', ends', stack);
    LongerEdge(kids', ends', stack, |kids|);
  }

  lemma ContinuesStill(kids: Kids, stack: seq<nat>, d: nat)
    requires d + 1 < |stack| && (forall i :: 0 <= i < |stack| ==> stack[i] < |kids|) && Continues(kids, stack, d)
    requires forall i :: 0 < i < |stack| ==> stack[i - 1] < stack[i]
    ensures Continues(GrownKids(kids, stack[|stack| - 1]), stack, d)
  {
    TopIsHighest(stack, d + 1);
    assert stack[d] < stack[d + 1];
  }

  // One more open element, the last child of the top.
  lemma LongerEdge(kids: Kids, ends: seq<nat>, stack: seq<nat>, n: nat)
    requires OnRightEdge(kids, ends, stack) && n < |kids| && ends[n] == |kids| && stack[|stack| - 1] < n
    requires kids[stack[|stack| - 1]] != [] && LastOf(kids[stack[|stack| - 1]]) == n
    ensures OnRightEdge(kids, ends, stack + [n])
  {
    var more := stack + [n];
    forall d | 0 <= d < |more| - 1
      ensures Continues(kids, more, d)
    {
      assert d < |stack| - 1 ==> Continues(kids, stack, d);
    }
  }
}
