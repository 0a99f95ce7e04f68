/**
 The node array of the document (userland/dom.h) and the operations that change it in place.
 */
module Dom {
  import opened DomTree
  import opened DomEdit

  const BLANK := Node(Elem, [], Slice(0, 0), Slice(0, 0), -1, -1, -1, -1)

  class Document {
    const nodes: array<Node>
    var n: nat
    ghost var kids: Kids

    ghost predicate Valid()
      reads this, nodes
    {
      nodes.Length == DOM_MAX_NODES && n <= DOM_MAX_NODES && Sound(View())
    }

    ghost function View(): (t: Tree)
      requires n <= nodes.Length
      reads this, nodes
    {
      Tree(nodes[..n], kids)
    }

    constructor ()
      ensures Valid() && View() == Tree([], []) && fresh(nodes)
    {
      nodes := new Node[DOM_MAX_NODES](_ => BLANK);
      n, kids := 0, [];
      new;
      assert Ranked([], []);
      assert nodes[..0] == [];
    }

    // Make c the last child of p.
    method LinkLast(p: nat, c: nat)
      requires p < n <= nodes.Length && c < n && nodes[p].last < n
      modifies nodes
      ensures nodes[..n] == LinkedLast(old(nodes[..n]), p, c)
    {
      ghost var was := nodes[..n];
      var l := nodes[p].last;
      if l >= 0 {
        nodes[l] := nodes[l].(next := c);
        assert nodes[..n] == was[l := was[l].(next := c)];
      } else {
        nodes[p] := nodes[p].(first := c);
        assert nodes[..n] == was[p := was[p].(first := c)];
      }
      ghost var mid := nodes[..n];
      nodes[p] := nodes[p].(last := c);
      assert nodes[..n] == mid[p := mid[p].(last := c)];
    }

    // dom_add, with what the caller fills in at once
    method Add(parent: int, node: Node) returns (i: int)
      requires Valid() && parent < n
      modifies this, nodes
      ensures Valid()
      ensures old(n) == DOM_MAX_NODES ==> i == -1 && View() == old(View())
      ensures old(n) < DOM_MAX_NODES ==> i == old(n) && View() == AddedTo(old(View()), parent, node)
    {
      if n >= DOM_MAX_NODES {
        return -1;
      }
      ghost var t := View();
      AddIsSound(t, parent, node);
      if parent >= 0 {
        LastIsInside(t, parent);
        assert t.nodes[parent] == nodes[parent];
      }
      hide Sound, LinkedLast;
      i := n;
      nodes[i] := node.(parent := parent, first := -1, last := -1, next := -1);
      n := n + 1;
      assert nodes[..n] == t.nodes + [nodes[i]];
      if parent >= 0 {
        LinkLast(parent, i);
        kids := (kids + [[]])[parent := kids[parent] + [i]];
      } else {
        kids := kids + [[]];
      }
    }

    // The node before x among the children of p.
    method FindBefore(p: nat, x: nat) returns (prev: int)
      requires Valid() && p < n && |kids| == n
      ensures prev == Before(kids[p], x)
    {
      hide Valid, Before, View;
      ghost var l := kids[p];
      ChildLinks(p);
      prev := -1;
      var c := nodes[p].first;
      ghost var j := 0;
      while c >= 0 && c != x
        invariant 0 <= j <= |l| && c == (if j < |l| then l[j] else -1)
        invariant prev == (if j == 0 then -1 else l[j - 1]) && x !in l[..j]
        decreases |l| - j
      {
        assert l[..j + 1] == l[..j] + [l[j]];
        prev := c;
        c := nodes[c].next;
        j := j + 1;
      }
      FoundBefore(l, x, j);
    }

    lemma ChildLinks(p: nat)
      requires Valid() && p < n
      ensures |kids| == n <= nodes.Length && nodes[p].first == FirstOf(kids[p])
      ensures forall j :: 0 <= j < |kids[p]| ==> kids[p][j] < n && nodes[kids[p][j]].next == After(kids[p], j)
    {
      var t := View();
      assert Lists(t.nodes, p, t.kids[p]);
      assert t.nodes[p] == nodes[p];
      forall j | 0 <= j < |kids[p]|
        ensures kids[p][j] < n && nodes[kids[p][j]].next == After(kids[p], j)
      {
        assert t.nodes[t.kids[p][j]].next == After(t.kids[p], j);
      }
    }

    // dom_detach: the links and lists of Detached; the document is sound exactly when the node loosens.
    method Detach(x: int)
      requires Valid() && x < n
      modifies this, nodes
      ensures n == old(n) && View() == Detached(old(View()), x)
      ensures Valid() <==> x <= 0 || Loosens(old(View()), x)
    {
      ghost var t := View();
      DetachIsSound(t, x);
      if x <= 0 {
        return;
      }
      var p := nodes[x].parent;
      assert t.nodes[x] == nodes[x];
      if p < 0 {
        return;
      }
      BeforeIsInside(t.nodes, t.kids, p, x);
      var prev := FindBefore(p, x);
      hide Represents, Acyclic, Before, Without;
      Unlink(x, prev);
      if Listed(t.nodes, t.kids, x) {
        kids := kids[p := Without(kids[p], x)];
      }
    }

    method Unlink(x: nat, prev: int)
      requires x < n <= nodes.Length && 0 <= nodes[x].parent < n && prev < n
      modifies nodes
      ensures nodes[..n] == Unlinked(old(nodes[..n]), x, prev)
    {
      var p := nodes[x].parent;
      ghost var was := nodes[..n];
      if prev >= 0 {
        nodes[prev] := nodes[prev].(next := nodes[x].next);
        assert nodes[..n] == was[prev := was[prev].(next := was[x].next)];
      } else {
        nodes[p] := nodes[p].(first := nodes[x].next);
        assert nodes[..n] == was[p := was[p].(first := was[x].next)];
      }
      ghost var a := nodes[..n];
      if nodes[p].last == x {
        nodes[p] := nodes[p].(last := prev);
        assert nodes[..n] == a[p := a[p].(last := prev)];
      }
      ghost var b := nodes[..n];
      nodes[x] := nodes[x].(parent := -1, next := -1);
      assert nodes[..n] == b[x := b[x].(parent := -1, next := -1)];
    }

    // dom_append: the links and lists of AppendedTo; the document is sound exactly when the node relinks
    // and is not put below itself.
    method AppendChild(p: int, c: int)
      requires Valid() && p < n && c < n
      modifies this, nodes
      ensures n == old(n)
      ensures p < 0 || c < 0 || p == c ==> Valid() && View() == old(View())
      ensures p >= 0 && c >= 0 && p != c ==>
        && View() == AppendedTo(old(View()), p, c)
        && (Valid() <==> Relinks(old(View()), p, c) && !IsAbove(old(View()).nodes, old(View()).kids, c, p))
    {
      if p < 0 || c < 0 || p == c {
        return;
      }
      ghost var t := View();
      AppendedSound(t, p, c);
      DetachedLast(t, c, p);
      hide Detached, IsAbove, Linked, Represents, Acyclic, Relinks, Loosens, Inside, WithLast;
      Detach(c);
      ghost var d := View();
      assert d.nodes[p] == nodes[p];
      Link(p, c);
      kids := kids[p := WithLast(kids[p], c)];
    }

    method Link(p: nat, c: nat)
      requires p < n <= nodes.Length && c < n && p != c && nodes[p].last < n
      modifies nodes
      ensures nodes[..n] == Linked(old(nodes[..n]), p, c)
    {
      ghost var was := nodes[..n];
      nodes[c] := nodes[c].(parent := p, next := -1);
      assert nodes[..n] == was[c := was[c].(parent := p, next := -1)];
      LinkLast(p, c);
    }

    // dom_clear_children
    method ClearChildren(x: int)
      requires Valid() && x < n
      modifies this, nodes
      ensures Valid() && n == old(n)
      ensures View() == if x < 0 then old(View()) else Cleared(old(View()), x)
    {
      if x < 0 {
        return;
      }
      ghost var t := View();
      ClearIsSound(t, x);
      hide Represents, Acyclic, Inside;
      nodes[x] := nodes[x].(first := -1, last := -1);
      kids := kids[x := []];
      assert nodes[..n] == t.nodes[x := t.nodes[x].(first := -1, last := -1)];
    }
  }

  lemma FoundBefore(l: seq<nat>, x: nat, j: nat)
    requires j <= |l| && x !in l[..j] && (j < |l| ==> l[j] == x)
    ensures Before(l, x) == if j == 0 then -1 else l[j - 1]
  {
    hide Before;
    BeforeAt(l, x);
    if j < |l| {
      var k := IndexOf(l, x);
      assert forall i :: 0 <= i < j ==> l[..j][i] == l[i];
      assert forall i :: 0 <= i < k ==> l[..k][i] == l[i];
    } else {
      assert l[..j] == l;
    }
  }
}
