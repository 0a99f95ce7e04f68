/**
 Looking an element up by its id (userland/dom.h): a scan of the node array, which in a parsed
 document is document order.
 */
module DomFind {
  import opened CssNames
  import opened CssSelector
  import opened DomTree
  import opened DomOrder
  import opened DomSoup
  import opened DomParser
  import DomAttributes

  // The id an element has in its raw attribute text.
  predicate HasId(h: string, n: Node, id: string) {
    n.kind == Elem && DomAttributes.RawOf(Piece(h, n.attr), "id") == Some(id)
  }

  // dom_find_id_from
  method FindId(h: string, ns: Nodes, from: nat, id: string) returns (r: int)
    requires from <= |ns|
    ensures r == -1 || from <= r < |ns|
    ensures r >= 0 ==> HasId(h, ns[r], id)
    ensures forall k :: from <= k < (if r < 0 then |ns| else r) ==> !HasId(h, ns[k], id)
  {
    hide DomAttributes.RawOf;
    var k := from;
    while k < |ns|
      invariant from <= k <= |ns|
      invariant forall j :: from <= j < k ==> !HasId(h, ns[j], id)
    {
      if ns[k].kind == Elem {
        var v := DomAttributes.AttrRaw(Piece(h, ns[k].attr), "id");
        if v == Some(id) {
          return k;
        }
      }
      k := k + 1;
    }
    return -1;
  }

  // The first node of the walk that has the id; -1 when no node on it has.
  predicate FirstOnWalk(h: string, ns: Nodes, walk: seq<nat>, id: string, r: int) {
    && (forall i :: 0 <= i < |walk| ==> walk[i] < |ns|)
    && (r == -1 ==> forall i :: 0 <= i < |walk| ==> !HasId(h, ns[walk[i]], id))
    && (r != -1 ==> exists i :: 0 <= i < |walk| && IsFirst(h, ns, walk, id, i) && walk[i] == r)
  }

  predicate IsFirst(h: string, ns: Nodes, walk: seq<nat>, id: string, i: nat)
    requires i < |walk| && forall k :: 0 <= k < |walk| ==> walk[k] < |ns|
  {
    HasId(h, ns[walk[i]], id) && forall j :: 0 <= j < i ==> !HasId(h, ns[walk[j]], id)
  }

  // In document order the lowest number is the first on the walk.
  lemma LowestIsFirst(h: string, ns: Nodes, kids: Kids, id: string, r: int)
    requires InDocumentOrder(kids) && |kids| == |ns|
    requires r == -1 || (0 <= r < |ns| && HasId(h, ns[r], id))
    requires forall k :: 0 <= k < (if r < 0 then |ns| else r) ==> !HasId(h, ns[k], id)
    ensures FirstOnWalk(h, ns, Walk(kids, 0), id, r)
  {
    var w := Walk(kids, 0);
    hide Walk, HasId;
    assert forall i :: 0 <= i < |w| ==> w[i] == i;
    if r >= 0 {
      assert IsFirst(h, ns, w, id, r);
    }
  }

  // Parse any text at all and look for an id: what is found is the first element in document order
  // that has it.
  method ParseAndFind(h: string, id: string) returns (p: Parser, r: int)
    ensures p.Valid() && p.h == h && InDocumentOrder(p.dom.kids)
    ensures p.dom.n <= p.dom.nodes.Length && FirstOnWalk(h, p.dom.View().nodes, Walk(p.dom.kids, 0), id, r)
  {
    p := new Parser(h);
    p.Parse();
    hide HasId, FirstOnWalk, p.Valid;
    InsideDocument(p);
    var ns := p.dom.nodes[..p.dom.n];
    r := FindId(h, ns, 0, id);
    LowestIsFirst(h, ns, p.dom.kids, id, r);
  }

  lemma InsideDocument(p: Parser)
    requires p.Valid()
    ensures p.dom.n <= p.dom.nodes.Length && |p.dom.kids| == p.dom.n
  {
  }
}
