/**
 The text of a subtree (userland/dom.h): what textContent reads, with the source of drawings left out and
 cut off where the buffer ends.
 */
module DomText {
  import opened CssNames
  import opened DomTree
  import opened DomOrder
  import opened DomSoup

  predicate IsSvg(n: Node) {
    n.kind == Elem && SameName(n.tag, "svg")
  }

  // ----- by the tree -----

  ghost function TextOf(h: string, ns: Nodes, kids: Kids, i: nat): (s: string)
    requires Downward(kids) && |kids| == |ns| && i < |ns|
    decreases |kids| - i, 1, 0
  {
    if ns[i].kind == Text then Piece(h, ns[i].text) else TextOfAll(h, ns, kids, i, kids[i])
  }

  ghost function TextOfAll(h: string, ns: Nodes, kids: Kids, p: nat, l: seq<nat>): (s: string)
    requires Downward(kids) && |kids| == |ns| && p < |kids| && forall j :: 0 <= j < |l| ==> p < l[j] < |kids|
    decreases |kids| - p, 0, |l|
  {
    if l == [] then [] else
      (if IsSvg(ns[l[0]]) then [] else TextOf(h, ns, kids, l[0])) + TextOfAll(h, ns, kids, p, l[1..])
  }

  // ----- by the numbers -----

  // The text slices of the nodes from i up to `stop`, in the order of their numbers, the subtrees of
  // drawings stepped over.
  function Shown(h: string, ns: Nodes, ends: seq<nat>, i: nat, stop: nat): (s: string)
    requires |ends| == |ns| && stop <= |ns| && forall k :: 0 <= k < |ends| ==> k < ends[k]
    decreases stop - i
  {
    if i >= stop then []
    else if IsSvg(ns[i]) then Shown(h, ns, ends, ends[i], stop)
    else if ns[i].kind == Text then Piece(h, ns[i].text) + Shown(h, ns, ends, ends[i], stop)
    else Shown(h, ns, ends, i + 1, stop)
  }

  lemma ShownSvg(h: string, ns: Nodes, ends: seq<nat>, i: nat, stop: nat)
    requires |ends| == |ns| && i < stop <= |ns| && (forall k :: 0 <= k < |ends| ==> k < ends[k]) && IsSvg(ns[i])
    ensures Shown(h, ns, ends, i, stop) == Shown(h, ns, ends, ends[i], stop)
  {
    hide IsSvg;
  }

  // What the list fills, read by its numbers.
  lemma {:induction false} ShownList(h: string, ns: Nodes, kids: Kids, ends: seq<nat>, p: nat, l: seq<nat>, from: nat, mid: nat, stop: nat)
    requires Nested(kids, ends) && Downward(kids) && |kids| == |ns| && p < |kids|
    requires p < from <= mid <= stop <= |kids| && Fills(l, ends, from, mid)
    ensures forall j :: 0 <= j < |l| ==> p < l[j] < |kids|
    ensures Shown(h, ns, ends, from, stop) == TextOfAll(h, ns, kids, p, l) + Shown(h, ns, ends, mid, stop)
    decreases |kids| - p, 0, |l|
  {
    hide IsSvg, Nested, Downward, Shown, TextOfAll, TextOf;
    FillsBounds(l, ends, from, mid);
    EndsInside(kids, ends, p);
    if l == [] {
      TextOfNone(h, ns, kids, p);
    } else {
      FillsBounds(l[1..], ends, ends[from], mid);
      ShownList(h, ns, kids, ends, p, l[1..], ends[from], mid, stop);
      TextOfCons(h, ns, kids, p, l);
      var rest, more := Shown(h, ns, ends, mid, stop), TextOfAll(h, ns, kids, p, l[1..]);
      if IsSvg(ns[from]) {
        ShownSvg(h, ns, ends, from, stop);
        assert [] + more == more;
      } else {
        ShownNode(h, ns, kids, ends, from, stop);
        var one := TextOf(h, ns, kids, from);
        assert one + (more + rest) == one + more + rest;
      }
    }
  }

  lemma {:induction false} ShownNode(h: string, ns: Nodes, kids: Kids, ends: seq<nat>, i: nat, stop: nat)
    requires Nested(kids, ends) && Downward(kids) && |kids| == |ns| && i < |kids| && ends[i] <= stop <= |kids| && !IsSvg(ns[i])
    ensures Shown(h, ns, ends, i, stop) == TextOf(h, ns, kids, i) + Shown(h, ns, ends, ends[i], stop)
    decreases |kids| - i, 1, 0
  {
    hide IsSvg, Piece, Downward, Nested, TextOfAll;
    EndsInside(kids, ends, i);
    if ns[i].kind == Elem {
      ShownList(h, ns, kids, ends, i, kids[i], i + 1, ends[i], stop);
    }
  }

  // In a parsed document the text of an element is that of the nodes numbered after it up to its end.
  lemma TextIsShown(h: string, ns: Nodes, kids: Kids, ends: seq<nat>, i: nat)
    requires Nested(kids, ends) && |kids| == |ns| && i < |kids| && ns[i].kind == Elem
    ensures Downward(kids) && TextOf(h, ns, kids, i) == Shown(h, ns, ends, i + 1, ends[i])
  {
    hide Shown, TextOfAll, Nested, Downward;
    NestedIsDownward(kids, ends);
    EndsInside(kids, ends, i);
    ShownList(h, ns, kids, ends, i, kids[i], i + 1, ends[i], ends[i]);
    ShownNothing(h, ns, ends, ends[i]);
  }

  lemma EndsInside(kids: Kids, ends: seq<nat>, i: nat)
    requires Nested(kids, ends) && i < |kids|
    ensures |ends| == |kids| && i < ends[i] <= |kids| && Fills(kids[i], ends, i + 1, ends[i])
    ensures forall k :: 0 <= k < |ends| ==> k < ends[k]
  {
  }

  lemma ShownNothing(h: string, ns: Nodes, ends: seq<nat>, i: nat)
    requires |ends| == |ns| && i <= |ns| && forall k :: 0 <= k < |ends| ==> k < ends[k]
    ensures Shown(h, ns, ends, i, i) == []
  {
  }

  // ----- into a buffer -----

  function First(x: string, k: nat): (r: string) {
    if |x| <= k then x else x[..k]
  }

  // How much may be in the buffer: all but one of max bytes, or what is there already.
  function Limit(out: string, max: int): (k: nat) {
    if |out| > max - 1 then |out| else max - 1
  }

  // As much of s behind out as a buffer of max bytes takes.
  function Room(out: string, s: string, max: int): (r: string) {
    First(out + s, Limit(out, max))
  }

  lemma FirstInTwo(x: string, b: string, k: nat)
    ensures First(First(x, k) + b, k) == First(x + b, k)
  {
    if |x| > k {
      assert (x[..k] + b)[..k] == x[..k] && (x + b)[..k] == x[..k];
    }
  }

  lemma RoomInTwo(out: string, a: string, b: string, max: int)
    ensures Room(Room(out, a, max), b, max) == Room(out, a + b, max)
  {
    hide First;
    FirstInTwo(out + a, b, Limit(out, max));
    SameLimit(out, a, max);
    assert out + a + b == out + (a + b);
  }

  lemma SameLimit(out: string, a: string, max: int)
    ensures Limit(Room(out, a, max), max) == Limit(out, max)
  {
  }

  lemma RoomForNothing(out: string, max: int)
    ensures Room(out, [], max) == out
  {
  }

  // dom_text_into: the text of the subtree, as far as the buffer goes.
  method TextInto(h: string, ns: Nodes, ghost kids: Kids, node: nat, out: string, max: int) returns (r: string)
    requires Represents(ns, kids) && Downward(kids) && node < |ns|
    ensures r == Room(out, TextOf(h, ns, kids, node), max)
    decreases |ns| - node
  {
    hide Room, IsSvg, Piece, TextOfAll, Lists;
    if ns[node].kind == Text {
      r := CopyText(out, Piece(h, ns[node].text), max);
      return;
    }
    r := out;
    ghost var l := kids[node];
    KidLinks(ns, kids, node);
    var c := ns[node].first;
    ghost var j := 0;
    assert l[0..] == l;
    while c >= 0
      invariant 0 <= j <= |l| && c == if j < |l| then l[j] else -1
      invariant Room(out, TextOfAll(h, ns, kids, node, l), max) == Room(r, TextOfAll(h, ns, kids, node, l[j..]), max)
      decreases |l| - j
    {
      TextOfCons(h, ns, kids, node, l[j..]);
      assert l[j..][0] == l[j] && l[j..][1..] == l[j + 1..];
      if !IsSvg(ns[c]) {
        ghost var was := r;
        r := TextInto(h, ns, kids, c, r, max);
        RoomInTwo(was, TextOf(h, ns, kids, c), TextOfAll(h, ns, kids, node, l[j + 1..]), max);
      } else {
        assert [] + TextOfAll(h, ns, kids, node, l[j + 1..]) == TextOfAll(h, ns, kids, node, l[j + 1..]);
      }
      c := ns[c].next;
      j := j + 1;
    }
    assert l[j..] == [];
    TextOfNone(h, ns, kids, node);
    RoomForNothing(r, max);
  }

  lemma KidLinks(ns: Nodes, kids: Kids, p: nat)
    requires Represents(ns, kids) && p < |ns|
    ensures |kids| == |ns| && ns[p].first == FirstOf(kids[p])
    ensures forall j :: 0 <= j < |kids[p]| ==> kids[p][j] < |ns| && ns[kids[p][j]].next == After(kids[p], j)
  {
    assert Lists(ns, p, kids[p]);
  }

  lemma TextOfCons(h: string, ns: Nodes, kids: Kids, p: nat, l: seq<nat>)
    requires Downward(kids) && |kids| == |ns| && p < |kids| && l != [] && forall j :: 0 <= j < |l| ==> p < l[j] < |kids|
    ensures TextOfAll(h, ns, kids, p, l)
         == (if IsSvg(ns[l[0]]) then [] else TextOf(h, ns, kids, l[0])) + TextOfAll(h, ns, kids, p, l[1..])
  {
    hide IsSvg, TextOf;
  }

  lemma TextOfNone(h: string, ns: Nodes, kids: Kids, p: nat)
    requires Downward(kids) && |kids| == |ns| && p < |kids|
    ensures TextOfAll(h, ns, kids, p, []) == []
  {
  }

  method CopyText(out: string, s: string, max: int) returns (r: string)
    ensures r == Room(out, s, max)
  {
    r := out;
    var i := 0;
    while i < |s| && |r| < max - 1
      invariant 0 <= i <= |s| && r == out + s[..i] && (i > 0 ==> |r| <= max - 1)
    {
      assert s[..i + 1] == s[..i] + [s[i]];
      r := r + [s[i]];
      i := i + 1;
    }
    assert s[..|s|] == s;
  }
}
