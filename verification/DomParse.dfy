/**
 The tag-soup parser (userland/dom.h): text until a '<', then a tag, building the document tree
 as it goes.  It never fails: whatever the input, the result is one tree in document order.
 */
module DomParser {
  import opened CssNames
  import opened DomTree
  import opened DomOrder
  import opened DomSoup
  import opened Dom

  // ----- what parsing keeps true -----

  // Text nodes are pieces of the source, none empty, in order, disjoint, and all before mark.
  predicate TextInOrder(ns: Nodes, mark: nat) {
    && (forall a :: 0 <= a < |ns| && ns[a].kind == Text ==> ns[a].text.len > 0 && ns[a].text.start + ns[a].text.len <= mark)
    && (forall a, b :: 0 <= a < b < |ns| && ns[a].kind == Text && ns[b].kind == Text ==>
          ns[a].text.start + ns[a].text.len <= ns[b].text.start)
  }

  function ItemOf(n: Node): (x: Item) {
    Item(n.kind, n.tag, n.attr, n.text, n.parent)
  }

  function Items(ns: Nodes): (l: seq<Item>)
    ensures |l| == |ns| && forall k :: 0 <= k < |ns| ==> l[k] == ItemOf(ns[k])
  {
    seq(|ns|, k requires 0 <= k < |ns| => ItemOf(ns[k]))
  }

  lemma AddedItems(t: Tree, parent: int, node: Node)
    requires Represents(t.nodes, t.kids) && parent < |t.nodes|
    ensures Items(AddedTo(t, parent, node).nodes) == Items(t.nodes) + [ItemOf(node).(parent := parent)]
  {
    if parent >= 0 {
      LastIsInside(t, parent);
    }
    hide Represents;
  }

  // Adding a node leaves what the others say alone.
  lemma AddedContent(t: Tree, parent: int, node: Node)
    requires Represents(t.nodes, t.kids) && parent < |t.nodes|
    ensures var ns := AddedTo(t, parent, node).nodes;
            && |ns| == |t.nodes| + 1
            && (forall a :: 0 <= a < |t.nodes| ==> ns[a].kind == t.nodes[a].kind && ns[a].text == t.nodes[a].text && ns[a].tag == t.nodes[a].tag)
            && ns[|t.nodes|].kind == node.kind && ns[|t.nodes|].text == node.text && ns[|t.nodes|].tag == node.tag
  {
    if parent >= 0 {
      LastIsInside(t, parent);
    }
    hide Represents;
  }

  lemma AddedTextInOrder(t: Tree, parent: int, node: Node, mark: nat, mark': nat)
    requires Represents(t.nodes, t.kids) && parent < |t.nodes| && TextInOrder(t.nodes, mark) && mark <= mark'
    requires node.kind == Text ==> mark <= node.text.start && node.text.len > 0 && node.text.start + node.text.len <= mark'
    ensures TextInOrder(AddedTo(t, parent, node).nodes, mark')
  {
    AddedContent(t, parent, node);
    hide AddedTo, Represents;
  }

  class Parser {
    const h: string
    const dom: Document
    var stack: seq<nat>
    var i: nat
    var textStart: int
    ghost var ends: seq<nat>
    ghost var mark: nat

    ghost predicate Valid()
      reads this, dom, dom.nodes
    {
      && dom.Valid()
      && Nested(dom.kids, ends) && OnRightEdge(dom.kids, ends, stack) && |stack| <= DOM_DEPTH_MAX
      && i <= |h| && mark <= i && textStart >= -1 && (textStart >= 0 ==> mark <= textStart < i)
      && TextInOrder(dom.View().nodes, mark)
    }

    ghost function Said(): (l: seq<Item>)
      reads dom, dom.nodes
    {
      if dom.n <= dom.nodes.Length then Items(dom.nodes[..dom.n]) else []
    }

    // All that the parser knows, as a value.
    ghost function Now(full: bool): (st: State)
      reads this, dom, dom.nodes
    {
      State(Said(), stack, i, textStart, full)
    }

    constructor (h: string)
      ensures Valid() && this.h == h && Now(false) == START
      ensures fresh(dom) && fresh(dom.nodes)
    {
      hide Sound, Nested, OnRightEdge, TextInOrder, AddedTo;
      this.h := h;
      var d := new Document();
      var root := d.Add(-1, BLANK.(tag := "#document"));
      dom := d;
      stack, i, textStart := [0], 0, -1;
      ends, mark := [1], 0;
      new;
      FreshDocument(BLANK.(tag := "#document"));
      AddedItems(Tree([], []), -1, BLANK.(tag := "#document"));
    }

    // A node under the last element of a path that begins with the open ones.
    method AddNode(top: nat, node: Node, ghost path: seq<nat>, ghost mark': nat) returns (e: int)
      requires Valid() && mark <= mark' <= i && (textStart >= 0 ==> mark' <= textStart)
      requires OnRightEdge(dom.kids, ends, path) && Top(path) == top && stack <= path
      requires node.kind == Text ==> mark <= node.text.start && node.text.len > 0 && node.text.start + node.text.len <= mark'
      modifies `ends, `mark, dom, dom.nodes
      ensures Valid() && mark == mark'
      ensures Said() == Put(old(Said()), ItemOf(node).(parent := top))
      ensures e == if |old(Said())| < DOM_MAX_NODES then |old(Said())| else -1
      ensures e >= 0 ==> OnRightEdge(dom.kids, ends, path + [e])
    {
      hide TextInOrder, Nested, Acyclic, OnRightEdge, GrownKids, GrownEnds;
      ghost var t := dom.View();
      EdgeInside(t.kids, ends, stack);
      EdgeInside(t.kids, ends, path);
      hide Represents;
      GrownNested(t, ends, path);
      GrownEdge(t.kids, ends, path);
      PoppedEdge(GrownKids(t.kids, top), GrownEnds(ends, path), path, |stack|);
      assert path[..|stack|] == stack;
      AddedTextInOrder(t, top, node, mark, mark');
      AddedItems(t, top, node);
      LaterMark(t.nodes, mark, mark');
      e := dom.Add(top, node);
      if e >= 0 {
        GrownIsAdded(t, top, node);
        ends := GrownEnds(ends, path);
      }
      mark := mark';
    }

    // Close off whatever text ran up to here.
    method FlushText()
      requires Valid()
      modifies `textStart, `ends, `mark, dom, dom.nodes
      ensures Valid() && textStart == -1 && Now(false) == Flushed(old(Now(false)))
    {
      hide TextInOrder, Nested, OnRightEdge, dom.Valid, dom.View, Items, Put;
      if textStart >= 0 {
        var s: nat := textStart;
        textStart := -1;
        EdgeIsInside(|stack| - 1);
        var _ := AddNode(stack[|stack| - 1], BLANK.(kind := Text, text := Slice(s, i - s)), stack, i);
      }
    }

    // Pop to an open element of this name, if there is one above the root.
    method CloseElement(name: string)
      requires Valid()
      modifies `stack
      ensures Valid() && stack == Closed(Said(), old(stack), name, |old(stack)|)
    {
      hide TextInOrder, Nested, dom.Valid, dom.View, Items;
      var d := |stack| - 1;
      while d > 0
        invariant 0 <= d < |stack| && Valid() && stack == old(stack)
        invariant Closed(Said(), old(stack), name, |stack|) == Closed(Said(), stack, name, d + 1)
        modifies `stack
        decreases d
      {
        EdgeIsInside(d);
        if dom.nodes[stack[d]].tag == name {
          PoppedEdge(dom.kids, ends, stack, d);
          stack := stack[..d];
          return;
        }
        d := d - 1;
      }
    }

    lemma EdgeIsInside(d: int)
      requires Valid() && d < |stack| && (d >= 0 || d == |stack| - 1)
      ensures 0 <= d < |stack| && stack[d] < dom.n <= dom.nodes.Length
      ensures TagOf(Said(), stack[d]) == dom.nodes[stack[d]].tag
    {
    }

    // An unclosed paragraph, list item or table cell ends here.
    method CloseImplied(name: string)
      requires Valid()
      modifies `stack
      ensures Valid() && stack == Implied(Said(), old(stack), name)
    {
      hide TextInOrder, Nested, OnRightEdge, dom.Valid, dom.View, Items, Closes, Implied;
      EdgeIsInside(|stack| - 1);
      while |stack| > 1 && Closes(dom.nodes[stack[|stack| - 1]].tag, name)
        invariant Valid() && |stack| > 0 && stack[|stack| - 1] < dom.nodes.Length
        invariant TagOf(Said(), stack[|stack| - 1]) == dom.nodes[stack[|stack| - 1]].tag
        invariant Implied(Said(), old(stack), name) == Implied(Said(), stack, name)
        modifies `stack
        decreases |stack|
      {
        PoppedEdge(dom.kids, ends, stack, |stack| - 1);
        ImpliedStep(Said(), stack, name);
        stack := stack[..|stack| - 1];
        EdgeIsInside(|stack| - 1);
      }
      ImpliedStep(Said(), stack, name);
    }

    // What is inside an element whose content is not markup.
    method RawText(e: nat, name: string, next: nat)
      requires Valid() && textStart == -1 && i < next <= |h| && OnRightEdge(dom.kids, ends, stack + [e])
      modifies this, dom, dom.nodes
      ensures Valid() && Now(false) == RawRead(h, old(Now(false)), e, name, next)
    {
      hide TextInOrder, Nested, OnRightEdge, dom.Valid, dom.View, Items, Put, EndTag, Seek;
      var k := EndTag(h, next, "</" + name);
      i := k;
      if k > next {
        var _ := AddNode(e, BLANK.(kind := Text, text := Slice(next, k - next)), stack + [e], k);
      }
      i := Past(h, Seek(h, k, '>'));
    }

    // Past the start tag of element e, and into the element unless it has no inside.
    method Enter(e: nat, name: string, attr: Slice, next: nat)
      requires Valid() && textStart == -1 && i < next <= |h| && OnRightEdge(dom.kids, ends, stack + [e])
      modifies this, dom, dom.nodes
      ensures Valid() && Now(false) == Entered(h, old(Now(false)), e, name, attr, next)
    {
      hide TextInOrder, Nested, OnRightEdge, dom.Valid, dom.View, IsVoid, IsRawText, Items, RawRead;
      if IsRawText(name) {
        RawText(e, name, next);
        return;
      }
      var selfClosing := attr.len > 0 && attr.start + attr.len <= |h| && h[attr.start + attr.len - 1] == '/';
      if !IsVoid(name) && !selfClosing && |stack| < DOM_DEPTH_MAX {
        stack := stack + [e];
      }
      i := next;
    }

    // An element that starts here; false when there is no room for it.
    method OpenElement(name: string, attr: Slice, next: nat) returns (ok: bool)
      requires Valid() && textStart == -1 && i < next <= |h|
      modifies this, dom, dom.nodes
      ensures Valid() && Now(!ok) == Opened(h, old(Now(false)), name, attr, next)
    {
      hide TextInOrder, Nested, OnRightEdge, dom.Valid, dom.View, Items, Implied, Entered;
      CloseImplied(name);
      EdgeIsInside(|stack| - 1);
      var e := AddNode(stack[|stack| - 1], BLANK.(tag := name, attr := attr), stack, mark);
      if e < 0 {
        return false;
      }
      Enter(e, name, attr, next);
      return true;
    }

    // One tag, comment or declaration, from its '<' on; false when the document is full.
    method Tag() returns (ok: bool)
      requires Valid() && i < |h| && h[i] == '<'
      modifies this, dom, dom.nodes
      ensures Valid() && Now(!ok) == Stepped(h, old(Now(false)))
    {
      hide TextInOrder, Nested, OnRightEdge, dom.Valid, dom.View, Items, Named, Put, Seek;
      FlushText();
      if i + 3 < |h| && h[i + 1] == '!' && h[i + 2] == '-' && h[i + 3] == '-' {
        i := CommentEnd(h, i + 4);
        return true;
      }
      if i + 1 < |h| && (h[i + 1] == '!' || h[i + 1] == '?') {
        i := Past(h, Seek(h, i, '>'));
        return true;
      }
      var closing := i + 1 < |h| && h[i + 1] == '/';
      ok := NamedTag(closing, if closing then i + 2 else i + 1);
    }

    // A start or end tag, whose name runs from j on.
    method NamedTag(closing: bool, j: nat) returns (ok: bool)
      requires Valid() && textStart == -1 && i < j <= |h|
      modifies this, dom, dom.nodes
      ensures Valid() && Now(!ok) == Named(h, old(Now(false)), closing, j)
    {
      hide TextInOrder, Nested, OnRightEdge, dom.Valid, dom.View, IsSkipped, Items, Closed, Opened, EndTag, Seek, NameEnd, TagEnd;
      var attrStart := NameEnd(h, j, 0);
      var name := Lowered(h[j..attrStart]);
      var k := TagEnd(h, attrStart, '\0');
      var next := Past(h, k);
      if name == [] {
        i := next;
        return true;
      }
      if closing {
        CloseElement(name);
        i := next;
        return true;
      }
      if IsSkipped(name) {
        i := Past(h, Seek(h, EndTag(h, next, "</" + name), '>'));
        return true;
      }
      ok := OpenElement(name, Slice(attrStart, k - attrStart), next);
    }

    // dom_parse: the nodes made are those the value-level parser makes, and linked as one tree in
    // document order.
    method Parse()
      requires Valid() && Now(false) == START
      modifies this, dom, dom.nodes
      ensures Valid() && Said() == Ran(h, START).items && InDocumentOrder(dom.kids)
      ensures dom.n <= dom.nodes.Length && TextInOrder(dom.View().nodes, |h|)
    {
      hide TextInOrder, Nested, OnRightEdge, dom.Valid, dom.View, InDocumentOrder, Items, Tagged, Put;
      var ok := true;
      while ok && i < |h|
        invariant Valid() && Ran(h, START) == Ran(h, Now(!ok))
        decreases if ok then |h| - i + 1 else 0
      {
        if h[i] != '<' {
          if textStart < 0 {
            textStart := i;
          }
          i := i + 1;
        } else {
          ok := Tag();
        }
      }
      if ok {
        FlushText();
      }
      Finished();
    }

    lemma Finished()
      requires Valid()
      ensures InDocumentOrder(dom.kids)
      ensures dom.n <= dom.nodes.Length && TextInOrder(dom.View().nodes, |h|)
    {
      hide TextInOrder, Nested, OnRightEdge, InDocumentOrder;
      LaterMark(dom.View().nodes, mark, |h|);
      DocumentOrder(dom.kids, ends);
    }
  }

  lemma ImpliedStep(items: seq<Item>, stack: seq<nat>, name: string)
    requires stack != []
    ensures Implied(items, stack, name)
         == if |stack| > 1 && Closes(TagOf(items, stack[|stack| - 1]), name) then Implied(items, stack[..|stack| - 1], name) else stack
  {
  }

  // The root alone.
  lemma FreshDocument(node: Node)
    requires node.kind == Elem
    ensures Represents([], [])
    ensures var t := AddedTo(Tree([], []), -1, node);
            Nested(t.kids, [1]) && OnRightEdge(t.kids, [1], [0]) && TextInOrder(t.nodes, 0)
  {
  }

  lemma EdgeInside(kids: Kids, ends: seq<nat>, stack: seq<nat>)
    requires OnRightEdge(kids, ends, stack)
    ensures |stack| > 0 && stack[|stack| - 1] < |kids|
  {
  }

  lemma LaterMark(ns: Nodes, mark: nat, mark': nat)
    requires TextInOrder(ns, mark) && mark <= mark'
    ensures TextInOrder(ns, mark')
  {
  }

  lemma GrownIsAdded(t: Tree, p: nat, node: Node)
    requires Represents(t.nodes, t.kids) && p < |t.nodes|
    ensures AddedTo(t, p, node).kids == GrownKids(t.kids, p)
  {
  }
}
