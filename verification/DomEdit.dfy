/**
 What scripts do to the document tree (userland/dom.h): nodes made, moved, taken out and their children
 cleared.  Clearing leaves the children naming a parent that does not list them, and moving such a node
 can break the links; here it is said exactly when.
 */
module DomEdit {
  import opened DomTree

  // ----- dom_detach -----

  // A node whose parent no longer lists it, detached all the same: the links still represent a
  // forest exactly when it has no next sibling left over.
  lemma DetachUnlisted(ns: Nodes, kids: Kids, x: nat)
    requires Represents(ns, kids) && x < |ns| && 0 <= ns[x].parent < |ns| && Unlisted(kids, x)
    requires -1 <= ns[x].next
    ensures var prev := Before(kids[ns[x].parent], x);
            && prev < |ns|
            && ((exists kids' :: Represents(Unlinked(ns, x, prev), kids')) <==> ns[x].next == -1)
  {
    var p := ns[x].parent;
    var l := kids[p];
    assert Lists(ns, p, l) && x !in l;
    BeforeAt(l, x);
    var prev := Before(l, x);
    hide Before;
    var ns' := Unlinked(ns, x, prev);
    if ns[x].next == -1 {
      forall q | 0 <= q < |ns|
        ensures Lists(ns', q, kids[q])
      {
        assert Lists(ns, q, kids[q]);
        UnlistedUnchanged(ns, kids, x, prev, q);
      }
      assert Represents(ns', kids);
    } else {
      forall kids': Kids
        ensures !Represents(ns', kids')
      {
        if p < |kids'| {
          BrokenList(ns', p, kids'[p]);
        }
      }
    }
  }

  lemma UnlistedUnchanged(ns: Nodes, kids: Kids, x: nat, prev: int, q: nat)
    requires Represents(ns, kids) && x < |ns| && 0 <= ns[x].parent < |ns| && prev == LastOf(kids[ns[x].parent]) < |ns|
    requires Unlisted(kids, x) && ns[x].next == -1 && q < |ns|
    ensures Lists(Unlinked(ns, x, prev), q, kids[q])
  {
    var p := ns[x].parent;
    assert Lists(ns, p, kids[p]) && Lists(ns, q, kids[q]);
    var ns', l := Unlinked(ns, x, prev), kids[q];
    if prev >= 0 {
      var j := |kids[p]| - 1;
      assert ns[kids[p][j]].next == After(kids[p], j) == -1;
    }
    forall j | 0 <= j < |l|
      ensures ns'[l[j]].parent == ns[l[j]].parent && ns'[l[j]].next == ns[l[j]].next
    {
      assert l[j] in l;
    }
    ListsSame(ns, ns', q, l);
  }

  // A last child with a next sibling, or a first child without a last one: no list looks like that.
  lemma BrokenList(ns: Nodes, p: nat, l: seq<nat>)
    requires p < |ns| && ns[p].last < |ns|
    requires if ns[p].last >= 0 then ns[ns[p].last].next >= 0 else ns[p].first >= 0
    ensures !Lists(ns, p, l)
  {
    if l != [] {
      assert After(l, |l| - 1) == -1;
    }
  }

  // A root with two children, cleared, and then the first child detached: the root has a first child
  // and no last one.
  lemma ClearedThenDetached(root: Node, a: Node, b: Node)
    requires root.first == root.last == -1
    requires a == a.(parent := 0, first := -1, last := -1, next := 2)
    requires b == b.(parent := 0, first := -1, last := -1, next := -1)
    ensures Represents([root, a, b], [[], [], []])
    ensures var ns := Unlinked([root, a, b], 1, -1);
            ns[0].first == 2 && ns[0].last == -1 && !(exists kids :: Represents(ns, kids))
  {
    DetachUnlisted([root, a, b], [[], [], []], 1);
  }

  // The links after dom_detach of a node that has a parent, whether that lists it or not.
  function Loosened(t: Tree, x: nat): (ns: Nodes)
    requires Represents(t.nodes, t.kids) && x < |t.nodes| && 0 <= t.nodes[x].parent < |t.nodes|
    ensures |ns| == |t.nodes|
  {
    var p := t.nodes[x].parent;
    BeforeIsInside(t.nodes, t.kids, p, x);
    Unlinked(t.nodes, x, Before(t.kids[p], x))
  }

  // The links of the code, and the lists they are to represent.
  function Detached(t: Tree, x: int): (r: Tree)
    requires Represents(t.nodes, t.kids) && Inside(t.nodes) && x < |t.nodes|
    ensures |r.nodes| == |t.nodes| == |r.kids|
  {
    if x <= 0 || t.nodes[x].parent < 0 then t
    else if !Listed(t.nodes, t.kids, x) then Tree(Loosened(t, x), t.kids)
    else
      var p := t.nodes[x].parent;
      Tree(Loosened(t, x), t.kids[p := Without(t.kids[p], x)])
  }

  // Its parent lists it, or it has none, or no sibling is left over in it.
  predicate Loosens(t: Tree, x: nat)
    requires |t.kids| == |t.nodes| && x < |t.nodes|
  {
    Listed(t.nodes, t.kids, x) || t.nodes[x].parent < 0 || t.nodes[x].next == -1
  }

  lemma {:induction false} WithoutIsSmaller(l: seq<nat>, x: nat)
    ensures forall y :: y in Without(l, x) ==> y in l
    ensures NoDuplicates(l) ==> x !in Without(l, x)
  {
    if l != [] && l[0] != x {
      WithoutIsSmaller(l[1..], x);
    }
  }

  // Fewer edges need no other ranks.
  lemma RankedWithout(kids: Kids, p: nat, x: nat)
    requires p < |kids| && Acyclic(kids)
    ensures Acyclic(kids[p := Without(kids[p], x)])
  {
    var rank :| Ranked(kids, rank);
    var kids' := kids[p := Without(kids[p], x)];
    WithoutIsSmaller(kids[p], x);
    forall q, j | 0 <= q < |kids'| && 0 <= j < |kids'[q]|
      ensures kids'[q][j] < |kids'| && rank[q] < rank[kids'[q][j]]
    {
      assert kids'[q][j] in kids[q];
    }
    assert Ranked(kids', rank);
  }

  lemma InsideLoosened(t: Tree, x: nat)
    requires Represents(t.nodes, t.kids) && Inside(t.nodes) && x < |t.nodes| && t.nodes[x].parent >= 0
    ensures Inside(Loosened(t, x))
  {
    BeforeIsInside(t.nodes, t.kids, t.nodes[x].parent, x);
  }

  // Detaching a node leaves links that can be read as lists exactly when it loosens; then all is sound.
  lemma DetachIsSound(t: Tree, x: int)
    requires Sound(t) && x < |t.nodes|
    ensures (exists kids' :: Represents(Detached(t, x).nodes, kids')) <==> x <= 0 || Loosens(t, x)
    ensures Sound(Detached(t, x)) <==> x <= 0 || Loosens(t, x)
  {
    if x <= 0 || t.nodes[x].parent < 0 {
      assert Represents(Detached(t, x).nodes, t.kids);
    } else {
      InsideLoosened(t, x);
      if Listed(t.nodes, t.kids, x) {
        NotInOwnList(t, t.nodes[x].parent);
        UnlinkedRepresents(t.nodes, t.kids, x);
        RankedWithout(t.kids, t.nodes[x].parent, x);
        assert Represents(Detached(t, x).nodes, Detached(t, x).kids);
      } else {
        ListedOrFree(t.nodes, t.kids, x);
        DetachUnlisted(t.nodes, t.kids, x);
        hide Represents;
        if t.nodes[x].next == -1 {
          var kids' :| Represents(Detached(t, x).nodes, kids');
          StillLists(t, x);
        }
      }
    }
  }

  lemma StillLists(t: Tree, x: nat)
    requires Represents(t.nodes, t.kids) && x < |t.nodes| && 0 <= t.nodes[x].parent < |t.nodes|
    requires Unlisted(t.kids, x) && t.nodes[x].next == -1
    ensures Represents(Loosened(t, x), t.kids)
  {
    var p := t.nodes[x].parent;
    BeforeAt(t.kids[p], x);
    BeforeIsInside(t.nodes, t.kids, p, x);
    forall q | 0 <= q < |t.nodes|
      ensures Lists(Loosened(t, x), q, t.kids[q])
    {
      UnlistedUnchanged(t.nodes, t.kids, x, LastOf(t.kids[p]), q);
    }
  }

  lemma DetachedIsFree(t: Tree, c: nat)
    requires Sound(t) && 0 < c < |t.nodes|
    ensures Unlisted(Detached(t, c).kids, c)
    ensures forall q, y :: 0 <= q < |t.kids| && y in Detached(t, c).kids[q] ==> y in t.kids[q]
  {
    ListedOrFree(t.nodes, t.kids, c);
    if Listed(t.nodes, t.kids, c) {
      var p := t.nodes[c].parent;
      WithoutIsSmaller(t.kids[p], c);
      assert Lists(t.nodes, p, t.kids[p]);
      hide Without, Loosened;
      forall q | 0 <= q < |t.kids|
        ensures c !in Detached(t, c).kids[q]
      {
        NotElsewhere(t.nodes, t.kids, p, q, c);
      }
    }
  }

  // ----- dom_append -----

  lemma DetachedLast(t: Tree, c: nat, p: nat)
    requires Represents(t.nodes, t.kids) && Inside(t.nodes) && c < |t.nodes| && p < |t.nodes|
    ensures Detached(t, c).nodes[p].last < |t.nodes|
  {
    LastIsInside(t, p);
    if c > 0 && t.nodes[c].parent >= 0 {
      BeforeIsInside(t.nodes, t.kids, t.nodes[c].parent, c);
      UnlinkedLinks(t.nodes, c, Before(t.kids[t.nodes[c].parent], c), p);
      hide Unlinked;
    }
  }

  function Linked(ns: Nodes, p: nat, c: nat): (r: Nodes)
    requires p < |ns| && c < |ns| && p != c && ns[p].last < |ns|
    ensures |r| == |ns|
  {
    LinkedLast(ns[c := ns[c].(parent := p, next := -1)], p, c)
  }

  // What linking does to every link.
  lemma LinkedLinks(ns: Nodes, p: nat, c: nat, y: nat)
    requires p < |ns| && c < |ns| && p != c && ns[p].last < |ns| && y < |ns|
    ensures var z := Linked(ns, p, c)[y];
            && z.parent == (if y == c then p else ns[y].parent)
            && z.next == (if y == ns[p].last then c else if y == c then -1 else ns[y].next)
            && z.first == (if y == p && ns[p].last < 0 then c else ns[y].first)
            && z.last == (if y == p then c else ns[y].last)
  {
  }

  // c at the end of the list, which is cut off behind it if it is there already.
  function WithLast(l: seq<nat>, c: nat): (r: seq<nat>) {
    if c in l then l[..IndexOf(l, c) + 1] else l + [c]
  }

  // The root is never detached: once in a list, it is moved by cutting that list off behind it.
  function AppendedTo(t: Tree, p: nat, c: nat): (r: Tree)
    requires Represents(t.nodes, t.kids) && Inside(t.nodes) && p < |t.nodes| && c < |t.nodes| && p != c
    ensures |r.nodes| == |t.nodes| == |r.kids|
  {
    var d := Detached(t, c);
    DetachedLast(t, c, p);
    Tree(Linked(d.nodes, p, c), d.kids[p := WithLast(d.kids[p], c)])
  }

  // What can be appended so that the links can be read: a node its parent lists; one that has no parent,
  // or no sibling left over, or goes back to the parent it names; and the root, when it is in no list, or
  // in that one and not at its end.
  predicate Relinks(t: Tree, p: nat, c: nat)
    requires |t.kids| == |t.nodes| && c < |t.nodes| && p < |t.nodes|
  {
    if Listed(t.nodes, t.kids, c) then c > 0 || (t.nodes[0].parent == p && t.nodes[p].last != 0)
    else c == 0 || t.nodes[c].parent < 0 || t.nodes[c].next == -1 || t.nodes[c].parent == p
  }

  // Hanging c under p makes no cycle when c is not above p: lift everything below c.
  lemma LiftedRanks(t: Tree, kids: Kids, p: nat, c: nat)
    requires Sound(t) && |kids| == |t.kids| && p < |t.nodes| && c < |t.nodes| && !IsAbove(t.nodes, t.kids, c, p)
    requires Unlisted(kids, c) && forall q, y :: 0 <= q < |kids| && y in kids[q] ==> y in t.kids[q]
    ensures Acyclic(kids[p := kids[p] + [c]])
  {
    var rank :| Ranked(t.kids, rank);
    var lift: nat := rank[p] + 1;
    var rank': seq<nat> := seq(|rank|, i requires 0 <= i < |rank| =>
      rank[i] + if IsAbove(t.nodes, t.kids, c, i) then lift else 0);
    var kids' := kids[p := kids[p] + [c]];
    assert Up(t.nodes, t.kids, c, 0) == c;
    assert IsAbove(t.nodes, t.kids, c, c);
    forall q, j | 0 <= q < |kids'| && 0 <= j < |kids'[q]|
      ensures kids'[q][j] < |kids'| && rank'[q] < rank'[kids'[q][j]]
    {
      var y := kids'[q][j];
      if q == p && j == |kids[p]| {
        assert y == c;
      } else {
        assert y in kids[q] && y in t.kids[q] && y != c;
        assert Lists(t.nodes, q, t.kids[q]);
        AboveChild(t.nodes, t.kids, c, q, y);
        var o :| 0 <= o < |t.kids[q]| && t.kids[q][o] == y;
        assert rank[q] < rank[t.kids[q][o]];
      }
    }
    assert Ranked(kids', rank');
  }

  lemma {:induction false} WithoutKeeps(l: seq<nat>, x: nat, y: nat)
    requires y in l && y != x
    ensures y in Without(l, x)
  {
    if l[0] != y && l[0] != x {
      WithoutKeeps(l[1..], x, y);
    }
  }

  // Detaching c takes no other node out of its list.
  lemma DetachedKeeps(t: Tree, c: nat, q: nat, y: nat)
    requires Represents(t.nodes, t.kids) && Inside(t.nodes) && c < |t.nodes| && q < |t.kids| && y in t.kids[q] && y != c
    ensures y in Detached(t, c).kids[q]
  {
    if c > 0 && Listed(t.nodes, t.kids, c) && q == t.nodes[c].parent {
      WithoutKeeps(t.kids[q], c, y);
    }
  }

  // Below c every rank is at least that of c.
  lemma {:induction false} RankBelow(t: Tree, kids: Kids, rank: seq<nat>, c: nat, x: nat, k: nat)
    requires Represents(t.nodes, t.kids) && c < |t.nodes| && x < |t.nodes| && |kids| == |t.kids| && Ranked(kids, rank)
    requires forall q, y :: 0 <= q < |kids| && y in t.kids[q] && y != c ==> y in kids[q]
    requires Up(t.nodes, t.kids, x, k) == c
    ensures rank[c] <= rank[x]
    decreases k
  {
    if x != c {
      var q := t.nodes[x].parent;
      RankBelow(t, kids, rank, c, q, k - 1);
      assert x in kids[q];
      var j :| 0 <= j < |kids[q]| && kids[q][j] == x;
      assert rank[q] < rank[kids[q][j]];
    }
  }

  // Lists that keep all nodes but c where they were, and have c under a node below it: a cycle.
  lemma CycleIsMade(t: Tree, kids: Kids, p: nat, c: nat)
    requires Represents(t.nodes, t.kids) && p < |t.nodes| && c < |t.nodes| && |kids| == |t.kids|
    requires forall q, y :: 0 <= q < |kids| && y in t.kids[q] && y != c ==> y in kids[q]
    requires c in kids[p] && IsAbove(t.nodes, t.kids, c, p)
    ensures !Acyclic(kids)
  {
    var k: nat :| Up(t.nodes, t.kids, p, k) == c;
    var j :| 0 <= j < |kids[p]| && kids[p][j] == c;
    hide Represents, Up;
    forall rank
      ensures !Ranked(kids, rank)
    {
      if Ranked(kids, rank) {
        RankBelow(t, kids, rank, c, p, k);
      }
    }
  }

  // Hung up behind the others: no cycle exactly when c is not above p.
  lemma HungUp(t: Tree, kids: Kids, p: nat, c: nat)
    requires Sound(t) && p < |t.nodes| && c < |t.nodes| && |kids| == |t.kids| && Unlisted(kids, c)
    requires forall q, y :: 0 <= q < |kids| && y in kids[q] ==> y in t.kids[q]
    requires forall q, y :: 0 <= q < |kids| && y in t.kids[q] && y != c ==> y in kids[q]
    ensures Acyclic(kids[p := kids[p] + [c]]) <==> !IsAbove(t.nodes, t.kids, c, p)
  {
    hide IsAbove, Acyclic;
    if IsAbove(t.nodes, t.kids, c, p) {
      CycleIsMade(t, kids[p := kids[p] + [c]], p, c);
    } else {
      LiftedRanks(t, kids, p, c);
    }
  }

  // A node in no list may be told anything about its parent and next sibling.
  lemma FreeNodeRetold(ns: Nodes, kids: Kids, p: nat, c: nat)
    requires Represents(ns, kids) && c < |ns| && Unlisted(kids, c)
    ensures Represents(ns[c := ns[c].(parent := p, next := -1)], kids)
  {
    var ns' := ns[c := ns[c].(parent := p, next := -1)];
    forall q | 0 <= q < |ns|
      ensures Lists(ns', q, kids[q])
    {
      assert Lists(ns, q, kids[q]);
      forall j | 0 <= j < |kids[q]|
        ensures kids[q][j] != c
      {
        assert kids[q][j] in kids[q];
      }
    }
  }

  lemma LinkedRepresents(ns: Nodes, kids: Kids, p: nat, c: nat)
    requires Represents(ns, kids) && p < |ns| && c < |ns| && c != p && Unlisted(kids, c) && p !in kids[p]
    ensures ns[p].last < |ns| && Represents(Linked(ns, p, c), kids[p := kids[p] + [c]])
  {
    hide Represents, LinkedLast;
    FreeNodeRetold(ns, kids, p, c);
    LinkedLastRepresents(ns[c := ns[c].(parent := p, next := -1)], kids, p, c);
  }

  // A former child that goes back to its parent: the links end up as if it had not been detached.
  lemma BackHome(t: Tree, c: nat)
    requires Sound(t) && 0 < c < |t.nodes| && Unlisted(t.kids, c) && 0 <= t.nodes[c].parent != c
    ensures var p := t.nodes[c].parent;
            && t.nodes[p].last < |t.nodes| && Loosened(t, c)[p].last < |t.nodes|
            && Linked(Loosened(t, c), p, c) == Linked(t.nodes, p, c)
  {
    var p := t.nodes[c].parent;
    LastIsInside(t, p);
    BeforeAt(t.kids[p], c);
    assert Lists(t.nodes, p, t.kids[p]);
    assert t.nodes[p].last == LastOf(t.kids[p]) != c;
    hide Represents, Acyclic, Before;
  }

  lemma LeftLinks(t: Tree, p: nat, c: nat)
    requires Sound(t) && p < |t.nodes| && 0 < c < |t.nodes| && p != c && Unlisted(t.kids, c)
    requires 0 <= t.nodes[c].parent != p && t.nodes[c].next >= 0
    requires var last := LastOf(t.kids[t.nodes[c].parent]); last < |t.nodes| && (last >= 0 ==> last != t.nodes[p].last && last != c)
    ensures var q, ns' := t.nodes[c].parent, AppendedTo(t, p, c).nodes;
            var last := LastOf(t.kids[q]);
            ns'[q].last == last && if last >= 0 then ns'[last].next >= 0 else ns'[q].first >= 0
  {
    var q := t.nodes[c].parent;
    var last := LastOf(t.kids[q]);
    BeforeAt(t.kids[q], c);
    assert Lists(t.nodes, q, t.kids[q]);
    assert t.nodes[q].last == last && (last >= 0 ==> last in t.kids[q]);
    DetachedLast(t, c, p);
    var d := Loosened(t, c);
    UnlinkedLinks(t.nodes, c, last, p);
    UnlinkedLinks(t.nodes, c, last, q);
    LinkedLinks(d, p, c, q);
    if last >= 0 {
      UnlinkedLinks(t.nodes, c, last, last);
      LinkedLinks(d, p, c, last);
    }
    hide Linked, Unlinked, Represents, Before;
  }

  // A former child that goes elsewhere and leaves a sibling behind: the list of its parent is broken.
  lemma LeftBroken(t: Tree, p: nat, c: nat)
    requires Sound(t) && p < |t.nodes| && 0 < c < |t.nodes| && p != c && Unlisted(t.kids, c)
    requires 0 <= t.nodes[c].parent != p && t.nodes[c].next >= 0
    ensures !(exists kids' :: Represents(AppendedTo(t, p, c).nodes, kids'))
  {
    var q := t.nodes[c].parent;
    var ns' := AppendedTo(t, p, c).nodes;
    assert Lists(t.nodes, q, t.kids[q]) && Lists(t.nodes, p, t.kids[p]);
    BeforeAt(t.kids[q], c);
    var last := LastOf(t.kids[q]);
    if last >= 0 {
      assert last in t.kids[q];
      NotElsewhere(t.nodes, t.kids, q, p, last);
    }
    LeftLinks(t, p, c);
    hide Unlinked, Before, AppendedTo;
    forall kids': Kids
      ensures !Represents(ns', kids')
    {
      if q < |kids'| {
        BrokenList(ns', q, kids'[q]);
      }
    }
  }

  // The root, already in a list: behind another node there is no reading the list it was in.
  lemma RootElsewhere(t: Tree, p: nat, kids': Kids)
    requires Sound(t) && 0 < p < |t.nodes| && Listed(t.nodes, t.kids, 0) && t.nodes[0].parent != p
    ensures !Represents(AppendedTo(t, p, 0).nodes, kids')
  {
    var q := t.nodes[0].parent;
    var l, ns' := t.kids[q], AppendedTo(t, p, 0).nodes;
    assert Lists(t.nodes, q, l) && Lists(t.nodes, p, t.kids[p]);
    var j := IndexOf(l, 0);
    forall i | 0 <= i < j
      ensures ns'[l[i]].next == t.nodes[l[i]].next
    {
      assert l[..j][i] == l[i] && l[i] in l;
      NotElsewhere(t.nodes, t.kids, q, p, l[i]);
    }
    NotInOwnList(t, q);
    RootMoved(t, p);
    hide AppendedTo, Acyclic;
    if Represents(ns', kids') {
      assert Lists(ns', q, kids'[q]);
      SameStart(t.nodes, ns', q, l, kids'[q], j);
    }
  }

  lemma RootMoved(t: Tree, p: nat)
    requires Sound(t) && 0 < p < |t.nodes|
    ensures var ns' := AppendedTo(t, p, 0).nodes;
            ns'[0].parent == p && forall q :: 0 <= q < |ns'| && q != p ==> ns'[q].first == t.nodes[q].first
  {
    LastIsInside(t, p);
  }

  // At the end of the list it is put at the end of: its own next sibling.
  lemma RootAtEnd(t: Tree, p: nat, kids': Kids)
    requires Sound(t) && 0 < p < |t.nodes| && t.nodes[p].last == 0
    ensures !Represents(AppendedTo(t, p, 0).nodes, kids')
  {
    var ns' := AppendedTo(t, p, 0).nodes;
    assert ns'[p].last == 0 && ns'[0].next == 0;
    hide AppendedTo;
    if p < |kids'| {
      BrokenList(ns', p, kids'[p]);
    }
  }

  // Before the end of it: the list is cut off behind the root.
  lemma RootCutsOff(t: Tree, p: nat)
    requires Sound(t) && 0 < p < |t.nodes| && Listed(t.nodes, t.kids, 0) && t.nodes[0].parent == p && t.nodes[p].last != 0
    ensures Represents(AppendedTo(t, p, 0).nodes, AppendedTo(t, p, 0).kids)
  {
    var l, r := t.kids[p], AppendedTo(t, p, 0);
    assert Lists(t.nodes, p, l);
    var j := IndexOf(l, 0);
    assert j < |l| - 1;
    NotInOwnList(t, p);
    hide Linked, Acyclic, Lists, Represents;
    forall q | 0 <= q < |t.nodes|
      ensures Lists(r.nodes, q, r.kids[q])
    {
      if q == p {
        CutOffLists(t, p, j);
      } else {
        OtherLists(t, p, q);
      }
    }
    FromLists(r.nodes, r.kids);
  }

  lemma FromLists(ns: Nodes, kids: Kids)
    requires |kids| == |ns| && forall q :: 0 <= q < |ns| ==> Lists(ns, q, kids[q])
    ensures Represents(ns, kids)
  {
    hide Lists;
  }

  lemma OtherLists(t: Tree, p: nat, q: nat)
    requires Sound(t) && 0 < p < |t.nodes| && 0 in t.kids[p] && q < |t.nodes| && q != p
    ensures Lists(AppendedTo(t, p, 0).nodes, q, t.kids[q])
  {
    var l, ns' := t.kids[q], AppendedTo(t, p, 0).nodes;
    assert Lists(t.nodes, q, l) && Lists(t.nodes, p, t.kids[p]);
    LastIsInside(t, p);
    LinkedLinks(t.nodes, p, 0, q);
    NotElsewhere(t.nodes, t.kids, p, q, 0);
    forall i | 0 <= i < |l|
      ensures ns'[l[i]].parent == t.nodes[l[i]].parent && ns'[l[i]].next == t.nodes[l[i]].next
    {
      assert l[i] in l;
      NotElsewhere(t.nodes, t.kids, q, p, l[i]);
      LinkedLinks(t.nodes, p, 0, l[i]);
    }
    hide Linked;
    ListsSame(t.nodes, ns', q, l);
  }

  lemma CutOffLists(t: Tree, p: nat, j: nat)
    requires Sound(t) && 0 < p < |t.nodes| && j < |t.kids[p]| - 1 && t.kids[p][j] == 0 && p !in t.kids[p]
    ensures Lists(AppendedTo(t, p, 0).nodes, p, t.kids[p][..j + 1])
  {
    var l, ns' := t.kids[p], AppendedTo(t, p, 0).nodes;
    assert Lists(t.nodes, p, l);
    var l' := l[..j + 1];
    LinkedLinks(t.nodes, p, 0, p);
    hide Represents, Acyclic;
    forall i | 0 <= i < |l'|
      ensures LinksLike(ns', l', p, i)
    {
      hide Linked;
      LinkedLinks(t.nodes, p, 0, l[i]);
      assert l'[i] == l[i] && l[i] != l[|l| - 1] && (i < j ==> l[i] != 0 && l'[i + 1] == l[i + 1]);
    }
    assert l[|l| - 1] != p;
    hide AppendedTo, Acyclic;
    FromLinks(ns', p, l');
  }

  lemma InsideAppended(t: Tree, p: nat, c: nat)
    requires Sound(t) && p < |t.nodes| && c < |t.nodes| && p != c
    ensures Inside(AppendedTo(t, p, c).nodes)
  {
    var d := Detached(t, c);
    DetachedLast(t, c, p);
    if c > 0 && t.nodes[c].parent >= 0 {
      InsideLoosened(t, c);
    }
    hide Detached, Represents, Acyclic;
    forall x | 0 <= x < |d.nodes|
      ensures Linked(d.nodes, p, c)[x].parent < |d.nodes| && Linked(d.nodes, p, c)[x].next >= -1
    {
      hide Linked;
      LinkedLinks(d.nodes, p, c, x);
    }
  }

  lemma AppendListed(t: Tree, p: nat, c: nat)
    requires Sound(t) && p < |t.nodes| && 0 < c < |t.nodes| && p != c && Listed(t.nodes, t.kids, c)
    ensures Represents(AppendedTo(t, p, c).nodes, AppendedTo(t, p, c).kids)
    ensures Acyclic(AppendedTo(t, p, c).kids) <==> !IsAbove(t.nodes, t.kids, c, p)
  {
    var d := Detached(t, c);
    DetachIsSound(t, c);
    DetachedIsFree(t, c);
    NotInOwnList(d, p);
    forall q, y | 0 <= q < |t.kids| && y in t.kids[q] && y != c
      ensures y in d.kids[q]
    {
      DetachedKeeps(t, c, q, y);
    }
    hide Detached, IsAbove, Acyclic, Listed, Linked;
    assert c !in d.kids[p];
    LinkedRepresents(d.nodes, d.kids, p, c);
    HungUp(t, d.kids, p, c);
  }

  lemma AppendFree(t: Tree, p: nat, c: nat)
    requires Sound(t) && p < |t.nodes| && c < |t.nodes| && p != c && Unlisted(t.kids, c) && Relinks(t, p, c)
    ensures Represents(AppendedTo(t, p, c).nodes, AppendedTo(t, p, c).kids)
    ensures Acyclic(AppendedTo(t, p, c).kids) <==> !IsAbove(t.nodes, t.kids, c, p)
  {
    ListedOrFree(t.nodes, t.kids, c);
    NotInOwnList(t, p);
    HungUp(t, t.kids, p, c);
    assert c !in t.kids[p];
    hide Linked, IsAbove, Acyclic, Loosened;
    LinkedRepresents(t.nodes, t.kids, p, c);
    if c > 0 && t.nodes[c].parent >= 0 {
      if t.nodes[c].parent == p {
        BackHome(t, c);
      } else {
        StillLists(t, c);
        LinkedRepresents(Loosened(t, c), t.kids, p, c);
      }
    }
  }

  lemma AppendRoot(t: Tree, p: nat)
    requires Sound(t) && 0 < p < |t.nodes| && Listed(t.nodes, t.kids, 0) && Relinks(t, p, 0)
    ensures Represents(AppendedTo(t, p, 0).nodes, AppendedTo(t, p, 0).kids)
    ensures Acyclic(AppendedTo(t, p, 0).kids) && !IsAbove(t.nodes, t.kids, 0, p)
  {
    RootCutsOff(t, p);
    var kids' := AppendedTo(t, p, 0).kids;
    forall q, y | 0 <= q < |kids'| && y in kids'[q]
      ensures y in t.kids[q]
    {
    }
    hide AppendedTo, Represents;
    FewerEdges(t.kids, kids');
    if IsAbove(t.nodes, t.kids, 0, p) {
      CycleIsMade(t, t.kids, p, 0);
      assert false;
    }
  }

  lemma FewerEdges(kids: Kids, kids': Kids)
    requires Acyclic(kids) && |kids| == |kids'| && forall q, y :: 0 <= q < |kids'| && y in kids'[q] ==> y in kids[q]
    ensures Acyclic(kids')
  {
    var rank :| Ranked(kids, rank);
    forall q, j | 0 <= q < |kids'| && 0 <= j < |kids'[q]|
      ensures kids'[q][j] < |kids'| && rank[q] < rank[kids'[q][j]]
    {
      assert kids'[q][j] in kids[q];
    }
    assert Ranked(kids', rank);
  }

  // Appending any node to any other: the links can be read as child lists exactly when it relinks, and
  // then there is no cycle in them exactly when the node was not above its new parent.
  lemma AppendIsSound(t: Tree, p: nat, c: nat)
    requires Sound(t) && p < |t.nodes| && c < |t.nodes| && p != c
    ensures (exists kids' :: Represents(AppendedTo(t, p, c).nodes, kids')) <==> Relinks(t, p, c)
    ensures Relinks(t, p, c) ==> Represents(AppendedTo(t, p, c).nodes, AppendedTo(t, p, c).kids)
    ensures Relinks(t, p, c) ==> (Acyclic(AppendedTo(t, p, c).kids) <==> !IsAbove(t.nodes, t.kids, c, p))
  {
    ListedOrFree(t.nodes, t.kids, c);
    hide AppendedTo, Represents, Acyclic, Unlisted;
    if Listed(t.nodes, t.kids, c) {
      if c > 0 {
        AppendListed(t, p, c);
      } else if Relinks(t, p, c) {
        AppendRoot(t, p);
      } else {
        RootBreaks(t, p);
      }
    } else if Relinks(t, p, c) {
      AppendFree(t, p, c);
    } else {
      LeftBroken(t, p, c);
    }
  }

  lemma RootBreaks(t: Tree, p: nat)
    requires Sound(t) && 0 < p < |t.nodes| && Listed(t.nodes, t.kids, 0) && !Relinks(t, p, 0)
    ensures !(exists kids' :: Represents(AppendedTo(t, p, 0).nodes, kids'))
  {
    hide AppendedTo, Represents, Acyclic;
    forall kids': Kids
      ensures !Represents(AppendedTo(t, p, 0).nodes, kids')
    {
      if t.nodes[0].parent == p {
        RootAtEnd(t, p, kids');
      } else {
        RootElsewhere(t, p, kids');
      }
    }
  }

  // Root 0 with a child 3, whose child 1 was cleared of 2, which still names 1 as its parent and 3 as its
  // next sibling.  Appending 2 to the root, which is not below it, makes 3 the first child of 1 and 1 of 3.
  lemma FormerChildMakesLoop(root: Node, p: Node, a: Node, b: Node)
    requires root == root.(parent := -1, first := 3, last := 3, next := -1)
    requires p == p.(parent := 3, first := -1, last := -1, next := -1)
    requires a == a.(parent := 1, first := -1, last := -1, next := 3)
    requires b == b.(parent := 0, first := 1, last := 1, next := -1)
    ensures var t := Tree([root, p, a, b], [[3], [], [], [1]]);
            && Sound(t)
            && var ns := AppendedTo(t, 0, 2).nodes;
               ns[1].first == 3 && ns[3].first == 1 && !(exists kids' :: Represents(ns, kids'))
  {
    var t := Tree([root, p, a, b], [[3], [], [], [1]]);
    FormerChildLists(t);
    hide AppendedTo, Acyclic, Represents;
    FormerChildLinks(t);
    AppendIsSound(t, 0, 2);
  }

  lemma FormerChildLists(t: Tree)
    requires |t.nodes| == 4 && t.kids == [[3], [], [], [1]]
    requires forall x :: 0 <= x < 4 ==> t.nodes[x].next == if x == 2 then 3 else -1
    requires t.nodes[0].first == t.nodes[0].last == 3 && t.nodes[3].first == t.nodes[3].last == 1
    requires t.nodes[1].first == t.nodes[1].last == t.nodes[2].first == t.nodes[2].last == -1
    requires t.nodes[0].parent == -1 && t.nodes[1].parent == 3 && t.nodes[2].parent == 1 && t.nodes[3].parent == 0
    ensures Sound(t)
  {
    assert Lists(t.nodes, 0, [3]) && Lists(t.nodes, 1, []) && Lists(t.nodes, 2, []) && Lists(t.nodes, 3, [1]);
    var rank: seq<nat> := [0, 2, 0, 1];
    hide Lists;
    assert Ranked(t.kids, rank);
  }

  lemma FormerChildLinks(t: Tree)
    requires Sound(t) && |t.nodes| == 4 && t.kids[1] == [] && t.nodes[2].parent == 1 && t.nodes[2].next == 3
    requires t.nodes[3].first == 1 && t.nodes[1].last == -1 && t.nodes[0].last == 3
    ensures AppendedTo(t, 0, 2).nodes[1].first == 3 && AppendedTo(t, 0, 2).nodes[3].first == 1
  {
    var d := Loosened(t, 2);
    DetachedLast(t, 2, 0);
    UnlinkedLinks(t.nodes, 2, -1, 0);
    UnlinkedLinks(t.nodes, 2, -1, 1);
    UnlinkedLinks(t.nodes, 2, -1, 3);
    LinkedLinks(d, 0, 2, 1);
    LinkedLinks(d, 0, 2, 3);
    hide Linked, Unlinked;
  }

  // ----- dom_clear_children -----

  function Cleared(t: Tree, x: nat): (r: Tree)
    requires |t.kids| == |t.nodes| && x < |t.nodes|
  {
    Tree(t.nodes[x := t.nodes[x].(first := -1, last := -1)], t.kids[x := []])
  }

  lemma ClearIsSound(t: Tree, x: nat)
    requires Sound(t) && x < |t.nodes|
    ensures Sound(Cleared(t, x))
  {
    var r := Cleared(t, x);
    forall q | 0 <= q < |t.nodes|
      ensures Lists(r.nodes, q, r.kids[q])
    {
      assert Lists(t.nodes, q, t.kids[q]);
      if q != x {
        ListsSame(t.nodes, r.nodes, q, t.kids[q]);
      }
    }
    hide Lists;
    FewerEdges(t.kids, r.kids);
  }

  // ----- runs -----

  datatype Step =
    | Create(node: Node)
    | AddUnder(under: nat, node: Node)
    | Append(parent: int, child: int)
    | Detach(child: int)
    | Clear(of: int)

  // Nodes are named by their numbers.
  predicate Names(t: Tree, s: Step) {
    match s
    case Create(_) => true
    case AddUnder(p, _) => p < |t.nodes|
    case Append(p, c) => p < |t.nodes| && c < |t.nodes|
    case Detach(c) => c < |t.nodes|
    case Clear(x) => x < |t.nodes|
  }

  // What the callers have to see to: a node that is moved relinks, and is not put under itself or one of
  // its descendants; a node that is taken out loosens.
  ghost predicate Legal(t: Tree, s: Step)
    requires |t.kids| == |t.nodes| && Names(t, s)
  {
    match s
    case Append(p, c) => p < 0 || c < 0 || p == c || (Relinks(t, p, c) && !IsAbove(t.nodes, t.kids, c, p))
    case Detach(c) => c <= 0 || Loosens(t, c)
    case _ => true
  }

  function StepTo(t: Tree, s: Step): (r: Tree)
    requires Represents(t.nodes, t.kids) && Inside(t.nodes) && Names(t, s)
  {
    match s
    case Create(node) => AddedTo(t, -1, node)
    case AddUnder(p, node) => AddedTo(t, p, node)
    case Append(p, c) => if p < 0 || c < 0 || p == c then t else AppendedTo(t, p, c)
    case Detach(c) => Detached(t, c)
    case Clear(x) => if x < 0 then t else Cleared(t, x)
  }

  // Some child lists make the links a sound document.
  ghost predicate Readable(ns: Nodes) {
    exists kids :: Sound(Tree(ns, kids))
  }

  lemma ReadableAs(t: Tree)
    requires Represents(t.nodes, t.kids) && Inside(t.nodes)
    ensures Readable(t.nodes) <==> Acyclic(t.kids)
  {
    hide Represents, Acyclic;
    if Acyclic(t.kids) {
      assert Sound(Tree(t.nodes, t.kids));
    }
    if Readable(t.nodes) {
      var kids :| Sound(Tree(t.nodes, kids));
      KidsAreUnique(t.nodes, kids, t.kids);
    }
  }

  lemma NotReadable(ns: Nodes)
    requires !(exists kids :: Represents(ns, kids))
    ensures !Readable(ns)
  {
    hide Represents;
    forall kids: Kids
      ensures !Sound(Tree(ns, kids))
    {
      assert !Represents(ns, kids);
    }
  }

  // Every operation, on any nodes: the document is sound after it exactly when it was legal.
  lemma StepIsSound(t: Tree, s: Step)
    requires Sound(t) && Names(t, s)
    ensures Readable(StepTo(t, s).nodes) <==> Legal(t, s)
    ensures Legal(t, s) ==> Sound(StepTo(t, s))
  {
    assert |t.kids| == |t.nodes|;
    hide AppendedTo, AddedTo, Detached, Cleared, Represents, Acyclic, Relinks, Loosens, IsAbove, Inside;
    match s
    case Create(node) =>
      AddIsSound(t, -1, node);
    case AddUnder(p, node) =>
      AddIsSound(t, p, node);
    case Append(p, c) =>
      if p >= 0 && c >= 0 && p != c {
        AppendIsSound(t, p, c);
        InsideAppended(t, p, c);
        if Relinks(t, p, c) {
          ReadableAs(AppendedTo(t, p, c));
        } else {
          NotReadable(AppendedTo(t, p, c).nodes);
        }
      } else {
        assert Sound(Tree(t.nodes, t.kids));
      }
    case Detach(c) =>
      DetachIsSound(t, c);
      if c > 0 && !Loosens(t, c) {
        NotReadable(Detached(t, c).nodes);
      }
    case Clear(x) =>
      if x >= 0 {
        ClearIsSound(t, x);
      }
  }

  // For the lists the code means: sound after appending exactly when that was legal.
  lemma AppendedSound(t: Tree, p: nat, c: nat)
    requires Sound(t) && p < |t.nodes| && c < |t.nodes| && p != c
    ensures Sound(AppendedTo(t, p, c)) <==> Relinks(t, p, c) && !IsAbove(t.nodes, t.kids, c, p)
  {
    AppendIsSound(t, p, c);
    InsideAppended(t, p, c);
    hide AppendedTo, Represents, Acyclic, Relinks, IsAbove, Inside;
  }

  ghost predicate LegalRun(t: Tree, steps: seq<Step>)
    requires Sound(t)
    decreases |steps|
  {
    steps == [] ||
    (Names(t, steps[0]) && Legal(t, steps[0]) &&
     (StepIsSound(t, steps[0]); LegalRun(StepTo(t, steps[0]), steps[1..])))
  }

  ghost function RunTo(t: Tree, steps: seq<Step>): (r: Tree)
    requires Sound(t) && LegalRun(t, steps)
    decreases |steps|
  {
    if steps == [] then t else
      StepIsSound(t, steps[0]);
      RunTo(StepTo(t, steps[0]), steps[1..])
  }

  // Over every such run, from the empty document: the links represent child lists without
  // duplicates, no two lists share a node, and no node is its own descendant.
  lemma {:induction false} RunIsSound(t: Tree, steps: seq<Step>)
    requires Sound(t) && LegalRun(t, steps)
    ensures Sound(RunTo(t, steps))
    decreases |steps|
  {
    hide StepTo, Legal, Represents, Acyclic, Inside;
    if steps != [] {
      StepIsSound(t, steps[0]);
      RunIsSound(StepTo(t, steps[0]), steps[1..]);
    }
  }
}
