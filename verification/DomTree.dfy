/**
 The document tree (userland/dom.h): nodes are indices, each with a parent and a first and last
 child, siblings chained by next.  What the links are to represent is a list of children for
 every node.
 */
module DomTree {
  const DOM_MAX_NODES := 30000

  datatype Kind = Elem | Text

  // A piece of the source text.
  datatype Slice = Slice(start: nat, len: nat)

  datatype Node = Node(kind: Kind, tag: string, attr: Slice, text: Slice, parent: int, first: int, last: int, next: int)

  type Nodes = seq<Node>
  type Kids = seq<seq<nat>>

  // ----- links and lists -----

  function FirstOf(l: seq<nat>): (i: int) {
    if l == [] then -1 else l[0]
  }

  function LastOf(l: seq<nat>): (i: int) {
    if l == [] then -1 else l[|l| - 1]
  }

  function After(l: seq<nat>, j: nat): (i: int) {
    if j + 1 < |l| then l[j + 1] else -1
  }

  predicate NoDuplicates(l: seq<nat>) {
    forall i, j :: 0 <= i < j < |l| ==> l[i] != l[j]
  }

  // Node p has exactly these children, in this order.
  predicate Lists(ns: Nodes, p: nat, l: seq<nat>)
    requires p < |ns|
  {
    && ns[p].first == FirstOf(l) && ns[p].last == LastOf(l) && NoDuplicates(l)
    && (forall j :: 0 <= j < |l| ==> l[j] < |ns| && ns[l[j]].parent == p && ns[l[j]].next == After(l, j))
  }

  predicate Represents(ns: Nodes, kids: Kids) {
    |kids| == |ns| && forall p :: 0 <= p < |ns| ==> Lists(ns, p, kids[p])
  }

  // The node is listed under the parent it names.
  predicate Listed(ns: Nodes, kids: Kids, x: nat)
    requires |kids| == |ns| && x < |ns|
  {
    0 <= ns[x].parent < |ns| && x in kids[ns[x].parent]
  }

  // No child list has room for a node of another parent: lists never share a node.
  lemma ListsAreDisjoint(ns: Nodes, kids: Kids, p: nat, q: nat, x: nat)
    requires Represents(ns, kids) && p < |ns| && q < |ns| && x in kids[p] && x in kids[q]
    ensures p == q
  {
    assert Lists(ns, p, kids[p]) && Lists(ns, q, kids[q]);
  }

  // ----- no node is its own descendant -----

  // Some rank grows from every parent to its children.
  predicate Ranked(kids: Kids, rank: seq<nat>) {
    |rank| == |kids| &&
    forall p, j :: 0 <= p < |kids| && 0 <= j < |kids[p]| ==> kids[p][j] < |kids| && rank[p] < rank[kids[p][j]]
  }

  ghost predicate Acyclic(kids: Kids) {
    exists rank :: Ranked(kids, rank)
  }

  // The k-th node above x, -1 above the top.
  function Up(ns: Nodes, kids: Kids, x: int, k: nat): (a: int)
    requires |kids| == |ns| && x < |ns|
    ensures a < |ns|
    decreases k
  {
    if k == 0 || x < 0 then x
    else if Listed(ns, kids, x) then Up(ns, kids, ns[x].parent, k - 1)
    else -1
  }

  ghost predicate IsAbove(ns: Nodes, kids: Kids, a: nat, x: nat)
    requires |kids| == |ns| && x < |ns|
  {
    exists k: nat :: Up(ns, kids, x, k) == a
  }

  lemma AboveChild(ns: Nodes, kids: Kids, a: nat, p: nat, x: nat)
    requires Represents(ns, kids) && p < |ns| && x in kids[p] && x < |ns|
    ensures IsAbove(ns, kids, a, x) <==> x == a || IsAbove(ns, kids, a, p)
  {
    assert Lists(ns, p, kids[p]) && Listed(ns, kids, x);
    hide Represents, Lists;
    assert Up(ns, kids, x, 0) == x;
    if IsAbove(ns, kids, a, x) {
      var k: nat :| Up(ns, kids, x, k) == a;
      if k > 0 {
        assert Up(ns, kids, p, k - 1) == a;
      }
    }
    if IsAbove(ns, kids, a, p) {
      var k: nat :| Up(ns, kids, p, k) == a;
      assert Up(ns, kids, x, k + 1) == a;
    }
  }

  // ----- the operations on the lists -----

  function Without(l: seq<nat>, x: nat): (r: seq<nat>) {
    if l == [] then [] else if l[0] == x then l[1..] else [l[0]] + Without(l[1..], x)
  }

  // The node before x in the list; the last one when x is not in it.
  function Before(l: seq<nat>, x: nat): (i: int) {
    if l == [] || l[0] == x then -1 else if |l| == 1 || l[1] == x then l[0] else Before(l[1..], x)
  }

  function IndexOf(l: seq<nat>, x: nat): (j: nat)
    requires x in l
    ensures j < |l| && l[j] == x && x !in l[..j]
  {
    if l[0] == x then 0 else 1 + IndexOf(l[1..], x)
  }

  lemma {:induction false} WithoutAt(l: seq<nat>, x: nat)
    requires x in l
    ensures Without(l, x) == l[..IndexOf(l, x)] + l[IndexOf(l, x) + 1..]
  {
    if l[0] != x {
      WithoutAt(l[1..], x);
    }
  }

  lemma {:induction false} BeforeAt(l: seq<nat>, x: nat)
    ensures x in l ==> Before(l, x) == if IndexOf(l, x) == 0 then -1 else l[IndexOf(l, x) - 1]
    ensures x !in l ==> Before(l, x) == LastOf(l)
  {
    if l != [] && l[0] != x {
      BeforeAt(l[1..], x);
    }
  }

  // ----- the operations on the links -----

  // Make c the last child of p.
  function LinkedLast(ns: Nodes, p: nat, c: nat): (r: Nodes)
    requires p < |ns| && c < |ns| && ns[p].last < |ns|
    ensures |r| == |ns|
  {
    var l := ns[p].last;
    var a := if l >= 0 then ns[l := ns[l].(next := c)] else ns[p := ns[p].(first := c)];
    a[p := a[p].(last := c)]
  }

  // dom_add: a new node, the last child of its parent if it has one.
  function Added(ns: Nodes, parent: int, node: Node): (r: Nodes)
    requires parent < |ns| && (parent >= 0 ==> ns[parent].last < |ns|)
    ensures |r| == |ns| + 1
  {
    var a := ns + [node.(parent := parent, first := -1, last := -1, next := -1)];
    if parent < 0 then a else LinkedLast(a, parent, |ns|)
  }

  // dom_detach, once the node before x is known.
  function Unlinked(ns: Nodes, x: nat, prev: int): (r: Nodes)
    requires x < |ns| && 0 <= ns[x].parent < |ns| && prev < |ns|
    ensures |r| == |ns|
  {
    var p := ns[x].parent;
    var a := if prev >= 0 then ns[prev := ns[prev].(next := ns[x].next)] else ns[p := ns[p].(first := ns[x].next)];
    var b := if a[p].last == x then a[p := a[p].(last := prev)] else a;
    b[x := b[x].(parent := -1, next := -1)]
  }

  predicate Unlisted(kids: Kids, x: nat) {
    forall q :: 0 <= q < |kids| ==> x !in kids[q]
  }

  // A list none of whose nodes, and whose owner, have changed in any link that matters.
  lemma ListsSame(ns: Nodes, ns': Nodes, q: nat, l: seq<nat>)
    requires q < |ns| <= |ns'| && Lists(ns, q, l)
    requires ns'[q].first == ns[q].first && ns'[q].last == ns[q].last
    requires forall j :: 0 <= j < |l| ==> l[j] < |ns| && ns'[l[j]].parent == ns[l[j]].parent && ns'[l[j]].next == ns[l[j]].next
    ensures Lists(ns', q, l)
  {
  }

  // A node in no list becomes the last child of p; nothing else moves.
  lemma LinkedLastRepresents(ns: Nodes, kids: Kids, p: nat, c: nat)
    requires Represents(ns, kids) && p < |ns| && c < |ns| && c != p && Unlisted(kids, c) && p !in kids[p]
    requires ns[c].parent == p && ns[c].next == -1
    ensures ns[p].last < |ns| && Represents(LinkedLast(ns, p, c), kids[p := kids[p] + [c]])
  {
    assert Lists(ns, p, kids[p]);
    var ns', kids' := LinkedLast(ns, p, c), kids[p := kids[p] + [c]];
    hide LinkedLast;
    forall q | 0 <= q < |ns|
      ensures Lists(ns', q, kids'[q])
    {
      assert Lists(ns, q, kids[q]) && c !in kids[q];
      if q != p {
        ListElsewhere(ns, p, c, q, kids[q], kids[p]);
      } else {
        ListLonger(ns, p, c, kids[p]);
      }
    }
  }

  // What linking at the end does to every link.
  lemma LastLinks(ns: Nodes, p: nat, c: nat, y: nat)
    requires p < |ns| && c < |ns| && ns[p].last < |ns| && y < |ns|
    ensures var z := LinkedLast(ns, p, c)[y];
            && z.parent == ns[y].parent
            && z.next == (if y == ns[p].last then c else ns[y].next)
            && z.first == (if y == p && ns[p].last < 0 then c else ns[y].first)
            && z.last == (if y == p then c else ns[y].last)
  {
  }

  lemma ListElsewhere(ns: Nodes, p: nat, c: nat, q: nat, l: seq<nat>, lp: seq<nat>)
    requires p < |ns| && c < |ns| && q < |ns| && q != p && ns[p].last < |ns| && Lists(ns, q, l) && Lists(ns, p, lp)
    ensures Lists(LinkedLast(ns, p, c), q, l)
  {
    hide LinkedLast;
    LastLinks(ns, p, c, q);
    forall j | 0 <= j < |l|
      ensures var z := LinkedLast(ns, p, c)[l[j]]; z.parent == ns[l[j]].parent && z.next == ns[l[j]].next
    {
      LastLinks(ns, p, c, l[j]);
      assert ns[p].last >= 0 ==> ns[ns[p].last].parent == p;
    }
    ListsSame(ns, LinkedLast(ns, p, c), q, l);
  }

  lemma ListLonger(ns: Nodes, p: nat, c: nat, l: seq<nat>)
    requires p < |ns| && c < |ns| && c != p && Lists(ns, p, l) && c !in l && p !in l
    requires ns[c].parent == p && ns[c].next == -1
    ensures ns[p].last < |ns| && Lists(LinkedLast(ns, p, c), p, l + [c])
  {
    hide LinkedLast;
    var ns', l' := LinkedLast(ns, p, c), l + [c];
    LastLinks(ns, p, c, p);
    forall j | 0 <= j < |l'|
      ensures LinksLike(ns', l', p, j)
    {
      LastLinks(ns, p, c, l'[j]);
      if j < |l| {
        assert l'[j] == l[j] && (j + 1 < |l| ==> l'[j + 1] == l[j + 1] && l[j] != l[|l| - 1]);
      }
    }
    NoDuplicatesMore(l, c);
    hide NoDuplicates, Lists;
    FromLinks(ns', p, l');
  }

  lemma NoDuplicatesMore(l: seq<nat>, c: nat)
    requires NoDuplicates(l) && c !in l
    ensures NoDuplicates(l + [c])
  {
  }

  // What detaching x does to every link.
  lemma UnlinkedLinks(ns: Nodes, x: nat, prev: int, y: nat)
    requires x < |ns| && 0 <= ns[x].parent < |ns| && prev < |ns| && y < |ns|
    ensures var p, z := ns[x].parent, Unlinked(ns, x, prev)[y];
            && z.parent == (if y == x then -1 else ns[y].parent)
            && z.next == (if y == x then -1 else if y == prev then ns[x].next else ns[y].next)
            && z.first == (if y == p && prev < 0 then ns[x].next else ns[y].first)
            && z.last == (if y == p && ns[p].last == x then prev else ns[y].last)
  {
  }

  predicate LinksLike(ns: Nodes, l: seq<nat>, p: nat, i: nat)
    requires i < |l|
  {
    l[i] < |ns| && ns[l[i]].parent == p && ns[l[i]].next == After(l, i)
  }

  // Taking x out from between a and b.
  lemma ListShrinksAt(ns: Nodes, p: nat, a: seq<nat>, x: nat, b: seq<nat>)
    requires p < |ns| && x < |ns| && Lists(ns, p, a + [x] + b)
    ensures ns[x].parent == p && LastOf(a) < |ns|
    ensures Lists(Unlinked(ns, x, LastOf(a)), p, a + b)
  {
    hide Unlinked;
    var l, l' := a + [x] + b, a + b;
    assert l[|a|] == x;
    assert a != [] ==> l[|a| - 1] == LastOf(a);
    var ns' := Unlinked(ns, x, LastOf(a));
    NoDuplicatesWithout(a, x, b);
    forall i | 0 <= i < |l'|
      ensures LinksLike(ns', l', p, i)
    {
      LinkShrinks(ns, p, a, x, b, i);
    }
    UnlinkedLinks(ns, x, LastOf(a), p);
    hide NoDuplicates;
    assert ns[p].last == LastOf(l) && ns[p].first == FirstOf(l) && ns[x].next == After(l, |a|) == FirstOf(b);
    hide Lists;
    FromLinks(ns', p, l');
  }

  lemma FromLinks(ns: Nodes, p: nat, l: seq<nat>)
    requires p < |ns| && ns[p].first == FirstOf(l) && ns[p].last == LastOf(l) && NoDuplicates(l)
    requires forall i :: 0 <= i < |l| ==> LinksLike(ns, l, p, i)
    ensures Lists(ns, p, l)
  {
    forall j | 0 <= j < |l|
      ensures l[j] < |ns| && ns[l[j]].parent == p && ns[l[j]].next == After(l, j)
    {
      assert LinksLike(ns, l, p, j);
    }
  }

  lemma NoDuplicatesWithout(a: seq<nat>, x: nat, b: seq<nat>)
    requires NoDuplicates(a + [x] + b)
    ensures NoDuplicates(a + b) && x !in a && x !in b
  {
    var l, l' := a + [x] + b, a + b;
    assert l[|a|] == x;
    assert forall i :: 0 <= i < |a| ==> a[i] == l[i];
    assert forall i :: 0 <= i < |b| ==> b[i] == l[|a| + 1 + i];
  }

  lemma LinkShrinks(ns: Nodes, p: nat, a: seq<nat>, x: nat, b: seq<nat>, i: nat)
    requires p < |ns| && x < |ns| && Lists(ns, p, a + [x] + b) && i < |a + b|
    requires ns[x].parent == p && LastOf(a) < |ns|
    ensures LinksLike(Unlinked(ns, x, LastOf(a)), a + b, p, i)
  {
    hide Unlinked;
    var l, l' := a + [x] + b, a + b;
    var o := if i < |a| then i else i + 1;
    assert l[|a|] == x && l[o] == l'[i] && l[o] != x;
    assert LinksLike(ns, l, p, o) && LinksLike(ns, l, p, |a|);
    UnlinkedLinks(ns, x, LastOf(a), l[o]);
    if a != [] {
      assert l[|a| - 1] == LastOf(a);
      assert l[o] == LastOf(a) ==> o == |a| - 1;
    }
    hide Lists, NoDuplicates;
  }

  lemma ListShrinks(ns: Nodes, p: nat, l: seq<nat>, x: nat)
    requires p < |ns| && x < |ns| && Lists(ns, p, l) && x in l && p !in l
    ensures Before(l, x) < |ns| && ns[x].parent == p
    ensures Lists(Unlinked(ns, x, Before(l, x)), p, Without(l, x))
  {
    hide Without, Before, Lists;
    BeforeAt(l, x);
    WithoutAt(l, x);
    var j := IndexOf(l, x);
    assert l[..j] + [x] + l[j + 1..] == l;
    ListShrinksAt(ns, p, l[..j], x, l[j + 1..]);
  }

  // A listed node leaves its list; the others keep their order and nothing else moves.
  lemma UnlinkedRepresents(ns: Nodes, kids: Kids, x: nat)
    requires Represents(ns, kids) && x < |ns| && Listed(ns, kids, x) && ns[x].parent !in kids[ns[x].parent]
    ensures var p := ns[x].parent;
            var prev := Before(kids[p], x);
            && prev < |ns| && Represents(Unlinked(ns, x, prev), kids[p := Without(kids[p], x)])
  {
    var p := ns[x].parent;
    var prev := Before(kids[p], x);
    assert Lists(ns, p, kids[p]);
    ListShrinks(ns, p, kids[p], x);
    BeforeAt(kids[p], x);
    hide Before, Without;
    var ns', kids' := Unlinked(ns, x, prev), kids[p := Without(kids[p], x)];
    forall q | 0 <= q < |ns|
      ensures Lists(ns', q, kids'[q])
    {
      assert Lists(ns, q, kids[q]);
      if q != p {
        UnlinkElsewhere(ns, kids, x, prev, q);
      }
    }
  }

  lemma UnlinkElsewhere(ns: Nodes, kids: Kids, x: nat, prev: int, q: nat)
    requires Represents(ns, kids) && x < |ns| && 0 <= ns[x].parent < |ns| && prev < |ns|
    requires prev >= 0 ==> ns[prev].parent == ns[x].parent
    requires q < |ns| && q != ns[x].parent
    ensures Lists(Unlinked(ns, x, prev), q, kids[q])
  {
    var ns', l := Unlinked(ns, x, prev), kids[q];
    assert Lists(ns, q, l);
    forall j | 0 <= j < |l|
      ensures ns'[l[j]].parent == ns[l[j]].parent && ns'[l[j]].next == ns[l[j]].next
    {
      assert ns[l[j]].parent == q;
    }
    ListsSame(ns, ns', q, l);
  }

  // ----- exactly when a detach is safe -----

  // ----- documents -----

  datatype Tree = Tree(nodes: Nodes, kids: Kids)

  // Parents are nodes, if they are there.
  predicate Inside(ns: Nodes) {
    forall x :: 0 <= x < |ns| ==> ns[x].parent < |ns| && ns[x].next >= -1
  }

  ghost predicate Sound(t: Tree) {
    Represents(t.nodes, t.kids) && Acyclic(t.kids) && Inside(t.nodes)
  }

  lemma ListedOrFree(ns: Nodes, kids: Kids, x: nat)
    requires Represents(ns, kids) && x < |ns|
    ensures Listed(ns, kids, x) <==> !Unlisted(kids, x)
    ensures ns[x].parent < 0 ==> Unlisted(kids, x)
  {
    if !Unlisted(kids, x) {
      var q :| 0 <= q < |kids| && x in kids[q];
      assert Lists(ns, q, kids[q]);
    }
  }

  lemma NotElsewhere(ns: Nodes, kids: Kids, p: nat, q: nat, x: nat)
    requires Represents(ns, kids) && p < |ns| && q < |ns| && x in kids[p]
    ensures q != p ==> x !in kids[q]
  {
    assert Lists(ns, p, kids[p]) && Lists(ns, q, kids[q]);
  }

  // There is one way to read the links.
  lemma {:induction false} SameStart(ns: Nodes, ns': Nodes, q: nat, l: seq<nat>, l': seq<nat>, j: nat)
    requires q < |ns| <= |ns'| && Lists(ns, q, l) && Lists(ns', q, l') && j < |l| && ns'[q].first == ns[q].first
    requires forall i :: 0 <= i < j ==> l[i] < |ns| && ns'[l[i]].next == ns[l[i]].next
    ensures j < |l'| && l'[j] == l[j]
  {
    if j > 0 {
      SameStart(ns, ns', q, l, l', j - 1);
      assert ns[l[j - 1]].next == After(l, j - 1) == l[j];
      assert ns'[l'[j - 1]].next == After(l', j - 1);
    }
  }

  lemma ListIsUnique(ns: Nodes, q: nat, l: seq<nat>, l': seq<nat>)
    requires q < |ns| && Lists(ns, q, l) && Lists(ns, q, l')
    ensures l == l'
  {
    forall j | 0 <= j < |l|
      ensures j < |l'| && l'[j] == l[j]
    {
      SameStart(ns, ns, q, l, l', j);
    }
    forall j | 0 <= j < |l'|
      ensures j < |l| && l[j] == l'[j]
    {
      SameStart(ns, ns, q, l', l, j);
    }
  }

  lemma KidsAreUnique(ns: Nodes, kids: Kids, kids': Kids)
    requires Represents(ns, kids) && Represents(ns, kids')
    ensures kids == kids'
  {
    forall q | 0 <= q < |ns|
      ensures kids[q] == kids'[q]
    {
      assert Lists(ns, q, kids[q]) && Lists(ns, q, kids'[q]);
      ListIsUnique(ns, q, kids[q], kids'[q]);
    }
  }

  lemma LastIsInside(t: Tree, p: nat)
    requires Represents(t.nodes, t.kids) && p < |t.nodes|
    ensures t.nodes[p].last < |t.nodes|
  {
    assert Lists(t.nodes, p, t.kids[p]);
  }

  lemma NotInOwnList(t: Tree, p: nat)
    requires Sound(t) && p < |t.nodes|
    ensures p !in t.kids[p]
  {
    var rank :| Ranked(t.kids, rank);
    forall j | 0 <= j < |t.kids[p]|
      ensures t.kids[p][j] != p
    {
    }
  }

  lemma BeforeIsInside(ns: Nodes, kids: Kids, p: nat, x: nat)
    requires Represents(ns, kids) && p < |ns|
    ensures Before(kids[p], x) < |ns|
  {
    assert Lists(ns, p, kids[p]);
    BeforeAt(kids[p], x);
  }

  // ----- dom_add -----

  // A new node, under its parent or under none.
  function AddedTo(t: Tree, parent: int, node: Node): (r: Tree)
    requires Represents(t.nodes, t.kids) && parent < |t.nodes|
  {
    if parent < 0 then Tree(Added(t.nodes, parent, node), t.kids + [[]]) else
      LastIsInside(t, parent);
      Tree(Added(t.nodes, parent, node), (t.kids + [[]])[parent := t.kids[parent] + [|t.nodes|]])
  }

  lemma NewRank(kids: Kids, parent: int)
    requires Acyclic(kids) && parent < |kids|
    ensures Acyclic(if parent < 0 then kids + [[]] else (kids + [[]])[parent := kids[parent] + [|kids|]])
  {
    var rank :| Ranked(kids, rank);
    var kids' := if parent < 0 then kids + [[]] else (kids + [[]])[parent := kids[parent] + [|kids|]];
    var rank' := rank + [if parent < 0 then 0 else rank[parent] + 1];
    forall q, j | 0 <= q < |kids'| && 0 <= j < |kids'[q]|
      ensures kids'[q][j] < |kids'| && rank'[q] < rank'[kids'[q][j]]
    {
      if j < |kids[q]| {
        assert kids'[q][j] == kids[q][j] && rank[q] < rank[kids[q][j]];
      }
    }
    assert Ranked(kids', rank');
  }

  lemma AddIsSound(t: Tree, parent: int, node: Node)
    requires Sound(t) && parent < |t.nodes|
    ensures Sound(AddedTo(t, parent, node))
  {
    var fresh_ := node.(parent := parent, first := -1, last := -1, next := -1);
    NewRank(t.kids, parent);
    var ns, kids := t.nodes + [fresh_], t.kids + [[]];
    NewNodeRepresents(t, fresh_);
    if parent >= 0 {
      NotInOwnList(t, parent);
      LastIsInside(t, parent);
      InsideAdded(t, parent, fresh_);
      hide Represents, Acyclic, LinkedLast, Inside;
      LinkedLastRepresents(ns, kids, parent, |t.nodes|);
      assert kids[parent] == t.kids[parent];
    }
  }

  lemma NewNodeRepresents(t: Tree, node: Node)
    requires Represents(t.nodes, t.kids) && node.first == node.last == -1
    ensures Represents(t.nodes + [node], t.kids + [[]]) && Unlisted(t.kids + [[]], |t.nodes|)
  {
    var ns, kids := t.nodes + [node], t.kids + [[]];
    forall q | 0 <= q < |ns|
      ensures Lists(ns, q, kids[q]) && |t.nodes| !in kids[q]
    {
      if q < |t.nodes| {
        assert Lists(t.nodes, q, t.kids[q]);
      }
    }
  }

  lemma InsideAdded(t: Tree, parent: nat, node: Node)
    requires Inside(t.nodes) && parent < |t.nodes| && t.nodes[parent].last < |t.nodes|
    requires node.parent == parent && node.next == -1
    ensures Inside(LinkedLast(t.nodes + [node], parent, |t.nodes|))
  {
  }
}
