/**
 Markup written out from a tree parses to that tree: the tag-soup parser of userland/dom.h, with its
 void elements, self-closing tags, raw text and elements that end without saying so, reads back
 every tree that can be written down, with all its end tags or with some of them left out.
 */
module DomRoundTrip {
  import opened CssNames
  import opened DomTree
  import opened DomSoup

  // ----- trees and their markup -----

  datatype Html = Element(tag: string, attr: string, kids: Forest) | Words(text: string)
  datatype Forest = Nil | Cons(head: Html, tail: Forest)

  // An element with nothing inside and no end tag.
  predicate Bare(tag: string, attr: string) {
    IsVoid(tag) || (!IsRawText(tag) && attr != [] && attr[|attr| - 1] == '/')
  }

  function Open(tag: string, attr: string): (s: string) {
    "<" + tag + attr + ">"
  }

  function End(tag: string): (s: string) {
    "</" + tag + ">"
  }

  // Has an end tag, if it is not left how, with other elements before it.
  predicate Container(x: Html) {
    x.Element? && !Bare(x.tag, x.attr) && !IsRawText(x.tag)
  }

  // How many nodes.
  function SizeOne(x: Html): (n: nat) {
    match x
    case Words(_) => 1
    case Element(_, _, kids) => 1 + Size(kids)
  }

  function Size(f: Forest): (n: nat) {
    match f
    case Nil => 0
    case Cons(x, rest) => SizeOne(x) + Size(rest)
  }

  // How the markup is written: which containers go without their end tag, and how the names in start
  // and end tags are spelt.  Nodes are numbered in document order; the first has number n.
  datatype Style = Style(out: set<nat>, starts: map<nat, string>, ends: map<nat, string>)

  // In capitals or not; no other name will do.
  function Spelt(names: map<nat, string>, n: nat, tag: string): (w: string)
    ensures |w| == |tag| && Lowered(w) == Lowered(tag)
  {
    if n in names && Lowered(names[n]) == Lowered(tag) then names[n] else tag
  }

  function RenderOne(x: Html, n: nat, how: Style): (s: string) {
    match x
    case Words(t) => t
    case Element(tag, attr, kids) =>
      var open, end := Open(Spelt(how.starts, n, tag), attr), End(Spelt(how.ends, n, tag));
      if Bare(tag, attr) then open
      else open + (Render(kids, n + 1, how) + (if !IsRawText(tag) && n in how.out then [] else end))
  }

  function Render(f: Forest, n: nat, how: Style): (s: string) {
    match f
    case Nil => []
    case Cons(x, rest) => RenderOne(x, n, how) + Render(rest, n + SizeOne(x), how)
  }

  // The elements that are still open behind the markup, the outermost first.
  function LeftOne(x: Html, n: nat, how: Style): (l: seq<string>) {
    match x
    case Words(_) => []
    case Element(tag, attr, kids) => if Container(x) && n in how.out then [tag] + Left(kids, n + 1, how) else []
  }

  function Left(f: Forest, n: nat, how: Style): (l: seq<string>) {
    match f
    case Nil => []
    case Cons(x, rest) => if rest.Nil? then LeftOne(x, n, how) else Left(rest, n + SizeOne(x), how)
  }

  // These end tags may be left out: whatever is still open when an end tag is written has another
  // name, and whatever is still open when there is more to come is ended by what comes next.
  predicate MayOne(x: Html, n: nat, how: Style) {
    match x
    case Words(_) => true
    case Element(tag, attr, kids) =>
      Container(x) ==> May(kids, n + 1, how) && (n in how.out || tag !in Left(kids, n + 1, how))
  }

  predicate May(f: Forest, n: nat, how: Style) {
    match f
    case Nil => true
    case Cons(x, rest) =>
      && MayOne(x, n, how) && May(rest, n + SizeOne(x), how)
      && (rest.Cons? && LeftOne(x, n, how) != [] ==> rest.head.Element? && AllEnd(LeftOne(x, n, how), rest.head.tag))
  }

  predicate AllEnd(open: seq<string>, now: string) {
    forall k :: 0 <= k < |open| ==> Closes(open[k], now)
  }

  // ----- which trees -----

  predicate TagText(t: string) {
    0 < |t| < DOM_TAG_MAX && Lowered(t) == t && t[0] != '!' && t[0] != '?' && Unbroken(t)
  }

  // Nothing in it ends a name.
  predicate Unbroken(t: string) {
    forall k :: 0 <= k < |t| ==> !IsSpace(t[k]) && t[k] != '>' && t[k] != '/'
  }

  predicate GoodTag(t: string) {
    TagText(t) && !IsSkipped(t)
  }

  // No '>' outside quotes, and every quote closed; inside a quoted value to begin with, if any.
  predicate Balanced(a: string, quote: char) {
    if a == [] then quote == '\0'
    else if quote != '\0' then Balanced(a[1..], if a[0] == quote then '\0' else quote)
    else if a[0] == '"' || a[0] == '\'' then Balanced(a[1..], a[0])
    else a[0] != '>' && Balanced(a[1..], quote)
  }

  predicate GoodAttr(a: string) {
    Balanced(a, '\0') && (a != [] ==> IsSpace(a[0]) || a[0] == '/')
  }

  // The end tag is not to be found before the end.
  predicate Unended(s: string, end: string) {
    var all := s + end;
    forall k :: 0 <= k < |s| ==> !Found(all, k, end)
  }

  predicate Found(s: string, k: nat, end: string) {
    k + |end| <= |s| && Lowered(s[k..k + |end|]) == end
  }

  predicate RawContent(f: Forest, tag: string) {
    f.Nil? || (f.tail.Nil? && f.head.Words? && f.head.text != [] && Unended(f.head.text, "</" + tag))
  }

  predicate GoodOne(x: Html, parent: string) {
    match x
    case Words(t) => t != [] && '<' !in t
    case Element(tag, attr, kids) =>
      && GoodTag(tag) && GoodAttr(attr) && !Closes(parent, tag)
      && (if Bare(tag, attr) then kids.Nil? else if IsRawText(tag) then RawContent(kids, tag) else Good(kids, tag))
  }

  // No text is empty, has markup in it or stands beside another; no element ends its parent.
  predicate Good(f: Forest, parent: string) {
    match f
    case Nil => true
    case Cons(x, rest) => GoodOne(x, parent) && (x.Words? && rest.Cons? ==> rest.head.Element?) && Good(rest, parent)
  }

  function DepthOne(x: Html): (d: nat) {
    match x
    case Words(_) => 0
    case Element(tag, attr, kids) => if Bare(tag, attr) || IsRawText(tag) then 0 else 1 + Depth(kids)
  }

  function Depth(f: Forest): (d: nat) {
    match f
    case Nil => 0
    case Cons(x, rest) => if DepthOne(x) > Depth(rest) then DepthOne(x) else Depth(rest)
  }

  // ----- what a document says -----

  datatype Said = Said(kind: Kind, tag: string, attr: string, text: string, parent: int)

  // The nodes in document order, each with the number of its parent; the first has number n.
  function ToldOne(x: Html, parent: int, n: nat): (l: seq<Said>)
    ensures |l| > 0
  {
    match x
    case Words(t) => [Said.Said(Text, [], [], t, parent)]
    case Element(tag, attr, kids) => [Said.Said(Elem, tag, attr, [], parent)] + Told(kids, n, n + 1)
  }

  function Told(f: Forest, parent: int, n: nat): (l: seq<Said>) {
    match f
    case Nil => []
    case Cons(x, rest) =>
      var one := ToldOne(x, parent, n);
      one + Told(rest, parent, n + |one|)
  }

  function Say(h: string, x: Item): (r: Said) {
    Said.Said(x.kind, x.tag, Piece(h, x.attr), Piece(h, x.text), x.parent)
  }

  function SayAll(h: string, l: seq<Item>): (r: seq<Said>)
    ensures |r| == |l|
  {
    seq(|l|, k requires 0 <= k < |l| => Say(h, l[k]))
  }

  lemma SayMore(h: string, l: seq<Item>, x: Item)
    ensures SayAll(h, l + [x]) == SayAll(h, l) + [Say(h, x)]
  {
  }

  // ----- a text inside another -----

  predicate At(h: string, i: nat, s: string) {
    i + |s| <= |h| && h[i..i + |s|] == s
  }

  lemma AtIndex(h: string, i: nat, s: string)
    requires At(h, i, s)
    ensures i + |s| <= |h| && forall k :: 0 <= k < |s| ==> h[i + k] == s[k]
  {
    var w := h[i..i + |s|];
    assert forall k :: 0 <= k < |s| ==> w[k] == h[i + k];
  }

  lemma AtSplit(h: string, i: nat, a: string, b: string)
    requires At(h, i, a + b)
    ensures At(h, i, a) && At(h, i + |a|, b)
  {
    var w := h[i..i + |a + b|];
    assert w[..|a|] == a && w[|a|..] == b;
    assert h[i..i + |a|] == w[..|a|];
    assert h[i + |a|..i + |a| + |b|] == w[|a|..];
  }

  // Nothing more, or a tag.
  predicate AtTag(h: string, i: nat) {
    i == |h| || (i < |h| && h[i] == '<')
  }

  // ----- how far the parser gets -----

  // From st the parser comes to st', all text flushed, having read up to `to` and told so much.
  predicate Gets(h: string, st: State, st': State, to: nat, told: seq<Said>) {
    && Ran(h, st) == Ran(h, st')
    && st'.i == to && st'.textStart == -1 && !st'.full
    && st.items <= st'.items && SayAll(h, st'.items) == SayAll(h, st.items) + told
  }

  // With the same elements open.
  predicate Reaches(h: string, st: State, st': State, to: nat, told: seq<Said>) {
    Gets(h, st, st', to, told) && st'.stack == st.stack
  }

  // With elements of these names open besides.
  predicate Leaves(h: string, st: State, st': State, to: nat, told: seq<Said>, open: seq<string>) {
    Gets(h, st, st', to, told) && OpenBesides(st.stack, st', open)
  }

  predicate OpenBesides(stack: seq<nat>, st: State, open: seq<string>) {
    && stack <= st.stack && |st.stack| == |stack| + |open|
    && forall k :: 0 <= k < |open| ==> TagOf(st.items, st.stack[|stack| + k]) == open[k]
  }

  lemma RanStep(h: string, st: State)
    requires !st.full && st.i < |h|
    ensures Ran(h, st) == Ran(h, Stepped(h, st))
  {
  }

  // Text that is running when a tag begins, or the end comes, might as well be flushed at once.
  lemma FlushNow(h: string, st: State)
    requires !st.full && AtTag(h, st.i)
    ensures Ran(h, st) == Ran(h, Flushed(st))
  {
    hide Tagged;
  }

  lemma {:induction false} RunChars(h: string, st: State, n: nat)
    requires !st.full && st.textStart >= 0 && st.i + n <= |h| && forall k :: st.i <= k < st.i + n ==> h[k] != '<'
    ensures Ran(h, st) == Ran(h, st.(i := st.i + n))
    decreases n
  {
    hide Tagged, Ran;
    if n > 0 {
      RanStep(h, st);
      RunChars(h, st.(i := st.i + 1), n - 1);
    }
  }

  lemma RunWords(h: string, st: State, t: string) returns (st': State)
    requires !st.full && st.textStart == -1 && At(h, st.i, t) && t != [] && '<' !in t && AtTag(h, st.i + |t|)
    requires |st.items| < DOM_MAX_NODES
    ensures Reaches(h, st, st', st.i + |t|, [Said.Said(Text, [], [], t, Top(st.stack))])
  {
    hide Tagged, Ran, SayAll;
    AtIndex(h, st.i, t);
    forall k | st.i <= k < st.i + |t|
      ensures h[k] != '<'
    {
      assert h[k] == t[k - st.i] && t[k - st.i] in t;
    }
    RanStep(h, st);
    var one := st.(textStart := st.i, i := st.i + 1);
    assert Stepped(h, st) == one;
    RunChars(h, one, |t| - 1);
    var all := one.(i := st.i + |t|);
    FlushNow(h, all);
    st' := Flushed(all);
    var x := Item(Text, [], NONE, Slice(st.i, |t|), Top(st.stack));
    assert st' == st.(i := st.i + |t|, items := st.items + [x]);
    SayMore(h, st.items, x);
  }

  // ----- tags -----

  lemma {:induction false} NameEndAt(h: string, j: nat, t: string, n: nat)
    requires At(h, j, t) && n + |t| < DOM_TAG_MAX
    requires Unbroken(t) && j + |t| < |h| && (IsSpace(h[j + |t|]) || h[j + |t|] == '>' || h[j + |t|] == '/')
    ensures NameEnd(h, j, n) == j + |t|
    decreases |t|
  {
    if t != [] {
      assert t == [t[0]] + t[1..];
      AtSplit(h, j, [t[0]], t[1..]);
      AtIndex(h, j, t);
      NameEndAt(h, j + 1, t[1..], n + 1);
    }
  }

  lemma {:induction false} TagEndAt(h: string, j: nat, a: string, quote: char)
    requires At(h, j, a) && Balanced(a, quote) && j + |a| < |h| && h[j + |a|] == '>'
    ensures TagEnd(h, j, quote) == j + |a|
    decreases |a|
  {
    if a != [] {
      assert a == [a[0]] + a[1..];
      AtSplit(h, j, [a[0]], a[1..]);
      AtIndex(h, j, a);
      TagEndAt(h, j + 1, a[1..], if quote != '\0' then (if a[0] == quote then '\0' else quote)
                                else if a[0] == '"' || a[0] == '\'' then a[0] else quote);
    }
  }

  // A name, in capitals or not.
  predicate AtName(h: string, i: nat, tag: string) {
    i + |tag| <= |h| && Lowered(h[i..i + |tag|]) == tag
  }

  // A start tag, and an end tag, of this name.
  predicate AtOpen(h: string, i: nat, tag: string, attr: string) {
    var j := i + 1 + |tag|;
    j + |attr| < |h| && h[i] == '<' && AtName(h, i + 1, tag) && At(h, j, attr) && h[j + |attr|] == '>'
  }

  predicate AtEnd(h: string, i: nat, tag: string) {
    i + 2 + |tag| < |h| && h[i] == '<' && h[i + 1] == '/' && AtName(h, i + 2, tag) && h[i + 2 + |tag|] == '>'
  }

  lemma OpenSpelt(h: string, i: nat, w: string, tag: string, attr: string)
    requires At(h, i, Open(w, attr)) && Lowered(w) == tag
    ensures AtOpen(h, i, tag, attr)
  {
    hide Lowered;
    assert |w| == |Lowered(w)|;
    assert Open(w, attr) == "<" + (w + (attr + ">"));
    AtSplit(h, i, "<", w + (attr + ">"));
    AtSplit(h, i + 1, w, attr + ">");
    AtSplit(h, i + 1 + |w|, attr, ">");
    AtIndex(h, i, "<");
    AtIndex(h, i + 1 + |w| + |attr|, ">");
  }

  lemma EndSpelt(h: string, i: nat, w: string, tag: string)
    requires At(h, i, End(w)) && Lowered(w) == tag
    ensures AtEnd(h, i, tag)
  {
    hide Lowered;
    assert |w| == |Lowered(w)|;
    assert End(w) == "</" + (w + ">");
    AtSplit(h, i, "</", w + ">");
    AtSplit(h, i + 2, w, ">");
    AtIndex(h, i, "</");
    AtIndex(h, i + 2 + |w|, ">");
  }

  // No character of a name in any spelling ends it, or makes it a declaration or an end tag.
  lemma NameChars(h: string, i: nat, tag: string)
    requires AtName(h, i, tag) && TagText(tag)
    ensures var w := h[i..i + |tag|];
            At(h, i, w) && |w| == |tag| && w[0] != '!' && w[0] != '?' && w[0] != '/' && Unbroken(w)
  {
    var w := h[i..i + |tag|];
    forall k | 0 <= k < |w|
      ensures Lower(w[k]) == tag[k]
    {
      assert Lowered(w)[k] == tag[k];
    }
  }

  // What a tag says, when all its parts are where they should be.
  lemma ScansTag(h: string, j: nat, tag: string, attr: string)
    requires AtName(h, j, tag) && At(h, j + |tag|, attr) && TagText(tag) && GoodAttr(attr)
    requires j + |tag| + |attr| < |h| && h[j + |tag| + |attr|] == '>'
    ensures var e := NameEnd(h, j, 0);
            && e == j + |tag| && Lowered(h[j..e]) == tag && TagEnd(h, e, '\0') == e + |attr|
            && h[j] != '!' && h[j] != '?' && h[j] != '/'
  {
    hide Balanced, NameEnd, TagEnd, Lowered, Unbroken;
    var e := j + |tag|;
    if attr != [] {
      AtIndex(h, e, attr);
      assert h[e + 0] == attr[0];
    }
    assert IsSpace(h[e]) || h[e] == '>' || h[e] == '/';
    NameChars(h, j, tag);
    var w := h[j..e];
    assert |w| == |tag| && h[j] == w[0];
    NameEndAt(h, j, w, 0);
    TagEndAt(h, e, attr, '\0');
  }

  lemma OpenIsNamed(h: string, st: State, tag: string, attr: string)
    requires !st.full && st.textStart == -1 && AtOpen(h, st.i, tag, attr) && TagText(tag) && GoodAttr(attr)
    ensures var e := st.i + 1 + |tag|;
            && e + |attr| + 1 <= |h|
            && (IsSkipped(tag) ==> Ran(h, st) == Ran(h, st.(i := Past(h, Seek(h, EndTag(h, e + |attr| + 1, "</" + tag), '>')))))
            && (!IsSkipped(tag) ==> Ran(h, st) == Ran(h, Opened(h, st, tag, Slice(e, |attr|), e + |attr| + 1)))
  {
    hide Ran, Opened, NameEnd, TagEnd, Balanced, At, IsSkipped, Seek, EndTag, Lowered, AtName, CommentEnd, Closed, GoodAttr;
    RanStep(h, st);
    ScansTag(h, st.i + 1, tag, attr);
  }

  // An end tag for the innermost open element closes it and nothing else.
  lemma EndCloses(h: string, st: State, tag: string)
    requires !st.full && st.textStart == -1 && AtEnd(h, st.i, tag) && GoodTag(tag)
    requires |st.stack| > 1 && TagOf(st.items, Top(st.stack)) == tag
    ensures Ran(h, st) == Ran(h, st.(i := st.i + |End(tag)|, stack := st.stack[..|st.stack| - 1]))
  {
    hide Ran, Closed, AtEnd;
    EndIsNamed(h, st, tag);
    ClosedTop(st.items, st.stack, tag);
  }

  lemma EndIsNamed(h: string, st: State, tag: string)
    requires !st.full && st.textStart == -1 && AtEnd(h, st.i, tag) && GoodTag(tag)
    ensures Ran(h, st) == Ran(h, st.(i := st.i + |End(tag)|, stack := Closed(st.items, st.stack, tag, |st.stack|)))
  {
    hide Ran, NameEnd, TagEnd, Balanced, At, End, IsSkipped, Closed, Lowered, AtName, Opened, CommentEnd, Seek, EndTag, GoodAttr;
    RanStep(h, st);
    AtNothing(h, st.i + 2 + |tag|);
    GoodNothing();
    ScansTag(h, st.i + 2, tag, []);
    EndLength(tag);
  }

  lemma EndLength(tag: string)
    ensures |End(tag)| == |tag| + 3
  {
  }

  lemma AtNothing(h: string, i: nat)
    requires i <= |h|
    ensures At(h, i, [])
  {
  }

  lemma GoodNothing()
    ensures GoodAttr([])
  {
  }

  lemma ClosedTop(items: seq<Item>, stack: seq<nat>, name: string)
    requires |stack| > 1 && TagOf(items, Top(stack)) == name
    ensures Closed(items, stack, name, |stack|) == stack[..|stack| - 1]
  {
  }

  // ----- elements still open -----

  // At the end tag of the element below them they make no difference...
  lemma EndDrops(h: string, st: State, stack: seq<nat>, open: seq<string>, tag: string)
    requires !st.full && st.textStart == -1 && AtEnd(h, st.i, tag) && GoodTag(tag)
    requires |stack| > 1 && TagOf(st.items, Top(stack)) == tag && OpenBesides(stack, st, open) && tag !in open
    ensures Ran(h, st) == Ran(h, st.(stack := stack))
  {
    hide Ran, AtEnd, GoodTag, Closed, Innermost;
    EndIsNamed(h, st, tag);
    EndIsNamed(h, st.(stack := stack), tag);
    EndTagCuts(st.items, st.stack, tag);
    EndTagCuts(st.items, stack, tag);
    BothInnermost(st, stack, open, tag);
  }

  lemma BothInnermost(st: State, stack: seq<nat>, open: seq<string>, tag: string)
    requires |stack| > 1 && TagOf(st.items, Top(stack)) == tag && OpenBesides(stack, st, open) && tag !in open
    ensures var d := |stack| - 1;
            && Innermost(st.items, st.stack, tag, d) && Innermost(st.items, stack, tag, d) && st.stack[..d] == stack[..d]
  {
    forall e | |stack| <= e < |st.stack|
      ensures TagOf(st.items, st.stack[e]) != tag
    {
      assert e == |stack| + (e - |stack|);
      assert open[e - |stack|] in open;
    }
  }

  // ... nor at a start tag that ends them all.
  lemma OpenDrops(h: string, st: State, stack: seq<nat>, open: seq<string>, tag: string, attr: string)
    requires !st.full && st.textStart == -1 && AtOpen(h, st.i, tag, attr) && GoodTag(tag) && GoodAttr(attr)
    requires stack != [] && OpenBesides(stack, st, open) && AllEnd(open, tag)
    ensures Ran(h, st) == Ran(h, st.(stack := stack))
  {
    hide Ran, At, Open, TagText, AtOpen, GoodAttr, Implied, AllEnd, OpenBesides, Entered;
    OpenIsNamed(h, st, tag, attr);
    OpenIsNamed(h, st.(stack := stack), tag, attr);
    ImpliesThrough(st, stack, open, tag);
  }

  lemma {:induction false} ImpliesThrough(st: State, stack: seq<nat>, open: seq<string>, tag: string)
    requires stack != [] && OpenBesides(stack, st, open) && AllEnd(open, tag)
    ensures Implied(st.items, st.stack, tag) == Implied(st.items, stack, tag)
    decreases |open|
  {
    hide Closes;
    var n := |open|;
    if n > 0 {
      var below := st.(stack := st.stack[..|st.stack| - 1]);
      assert Top(st.stack) == st.stack[|stack| + (n - 1)] && Closes(open[n - 1], tag);
      ImpliesThrough(below, stack, open[..n - 1], tag);
    } else {
      assert st.stack == stack;
    }
  }

  // ----- elements -----

  // The new element does not end the one it is in.
  predicate Fits(st: State, parent: string) {
    st.stack != [] && Top(st.stack) < |st.items| && (|st.stack| > 1 ==> TagOf(st.items, Top(st.stack)) == parent)
  }

  function ElementItem(st: State, tag: string, attr: string): (x: Item) {
    Item(Elem, tag, Slice(st.i + 1 + |tag|, |attr|), NONE, Top(st.stack))
  }

  lemma SaysElement(h: string, st: State, tag: string, attr: string)
    requires AtOpen(h, st.i, tag, attr)
    ensures SayAll(h, st.items + [ElementItem(st, tag, attr)])
         == SayAll(h, st.items) + [Said.Said(Elem, tag, attr, [], Top(st.stack))]
  {
    hide SayAll;
    SayMore(h, st.items, ElementItem(st, tag, attr));
  }

  lemma ImpliesNothing(st: State, parent: string, tag: string)
    requires Fits(st, parent) && !Closes(parent, tag)
    ensures Implied(st.items, st.stack, tag) == st.stack
  {
  }

  lemma OpenLength(tag: string, attr: string)
    ensures |Open(tag, attr)| == |tag| + |attr| + 2
  {
  }

  lemma LastOfAttr(h: string, i: nat, tag: string, attr: string)
    requires AtOpen(h, i, tag, attr) && attr != []
    ensures i + 1 + |tag| + |attr| <= |h| && h[i + 1 + |tag| + |attr| - 1] == attr[|attr| - 1]
  {
    AtIndex(h, i + 1 + |tag|, attr);
    assert h[i + 1 + |tag| + (|attr| - 1)] == attr[|attr| - 1];
  }

  // A tag that opens nothing.
  lemma RunBare(h: string, st: State, tag: string, attr: string, parent: string) returns (st': State)
    requires !st.full && st.textStart == -1 && AtOpen(h, st.i, tag, attr) && |st.items| < DOM_MAX_NODES
    requires GoodTag(tag) && GoodAttr(attr) && Bare(tag, attr) && !IsRawText(tag) && Fits(st, parent) && !Closes(parent, tag)
    ensures Reaches(h, st, st', st.i + |Open(tag, attr)|, [Said.Said(Elem, tag, attr, [], Top(st.stack))])
  {
    hide Ran, At, Open, Closes, IsVoid, TagText, GoodAttr, SayAll, Implied, IsRawText, Fits;
    if attr != [] {
      LastOfAttr(h, st.i, tag, attr);
    }
    OpenIsNamed(h, st, tag, attr);
    ImpliesNothing(st, parent, tag);
    OpenLength(tag, attr);
    st' := st.(items := st.items + [ElementItem(st, tag, attr)], i := st.i + |Open(tag, attr)|);
    SaysElement(h, st, tag, attr);
  }

  // The parser inside an element it has just opened.
  function Inside(st: State, tag: string, attr: string): (r: State) {
    st.(items := st.items + [ElementItem(st, tag, attr)], i := st.i + |Open(tag, attr)|, stack := st.stack + [|st.items|])
  }

  lemma GoesInside(h: string, st: State, tag: string, attr: string, parent: string)
    requires !st.full && st.textStart == -1 && AtOpen(h, st.i, tag, attr) && |st.items| < DOM_MAX_NODES
    requires GoodTag(tag) && GoodAttr(attr) && !Bare(tag, attr) && !IsRawText(tag) && Fits(st, parent) && !Closes(parent, tag)
    requires |st.stack| < DOM_DEPTH_MAX
    ensures Ran(h, st) == Ran(h, Inside(st, tag, attr))
  {
    hide Ran, At, Open, Closes, IsVoid, TagText, GoodAttr, Implied, IsRawText, Fits;
    if attr != [] {
      LastOfAttr(h, st.i, tag, attr);
    }
    OpenIsNamed(h, st, tag, attr);
    ImpliesNothing(st, parent, tag);
    OpenLength(tag, attr);
  }

  // From inside the element to behind its end tag.
  lemma ComesOut(h: string, st: State, tag: string, attr: string, inner: State, told: seq<Said>) returns (st': State)
    requires !st.full && st.textStart == -1 && AtOpen(h, st.i, tag, attr) && GoodTag(tag) && st.stack != []
    requires Ran(h, st) == Ran(h, Inside(st, tag, attr))
    requires Reaches(h, Inside(st, tag, attr), inner, inner.i, told) && AtEnd(h, inner.i, tag)
    ensures Reaches(h, st, st', inner.i + |End(tag)|, [Said.Said(Elem, tag, attr, [], Top(st.stack))] + told)
  {
    hide Ran, At, Open, End, GoodTag, SayAll;
    var first := Inside(st, tag, attr);
    assert first.items[|st.items|].tag == tag && inner.items[|st.items|] == first.items[|st.items|];
    assert |inner.stack| > 1 && Top(inner.stack) == |st.items|;
    EndCloses(h, inner, tag);
    assert inner.stack[..|inner.stack| - 1] == st.stack;
    st' := inner.(i := inner.i + |End(tag)|, stack := st.stack);
    SaysElement(h, st, tag, attr);
    var one := [Said.Said(Elem, tag, attr, [], Top(st.stack))];
    assert SayAll(h, st.items) + one + told == SayAll(h, st.items) + (one + told);
  }

  // ----- raw text -----

  // The end is looked for until it is found.
  lemma {:induction false} EndTagAt(h: string, k: nat, d: nat, end: string)
    requires end != [] && Found(h, k + d, end) && forall m :: k <= m < k + d ==> !Found(h, m, end)
    ensures k <= |h| && EndTag(h, k, end) == k + d
    decreases d
  {
    if d > 0 {
      assert !Found(h, k, end);
      EndTagAt(h, k + 1, d - 1, end);
    }
  }

  lemma NotFoundBefore(h: string, k: nat, s: string, end: string, m: nat)
    requires At(h, k, s) && Found(h, k + |s|, end) && Lowered(end) == end && Unended(s, end) && m < |s|
    ensures !Found(h, k + m, end)
  {
    var all := s + end;
    AtIndex(h, k, s);
    assert !Found(all, m, end);
    var w, v := h[k + m..k + m + |end|], all[m..m + |end|];
    var e := h[k + |s|..k + |s| + |end|];
    forall i | 0 <= i < |end|
      ensures Lower(w[i]) == Lower(v[i])
    {
      if m + i < |s| {
        assert w[i] == h[k + (m + i)] && v[i] == s[m + i];
      } else {
        var j := m + i - |s|;
        assert w[i] == e[j] && v[i] == end[j];
        assert Lowered(e)[j] == end[j] && Lowered(end)[j] == end[j];
      }
    }
    assert Lowered(w) == Lowered(v);
  }

  // Where the end tag begins its name is found, and past it the parser goes on.
  lemma EndIsFound(h: string, k: nat, tag: string)
    requires AtEnd(h, k, tag) && TagText(tag)
    ensures Found(h, k, "</" + tag)
    ensures k <= |h| && Past(h, Seek(h, k, '>')) == k + |End(tag)|
  {
    NameChars(h, k + 2, tag);
    var e := k + 2 + |tag|;
    var w := h[k + 2..e];
    forall m | k <= m < e
      ensures h[m] != '>'
    {
      if m >= k + 2 {
        assert h[m] == w[m - k - 2];
      }
    }
    EndName(h, k, tag);
  }

  lemma EndName(h: string, k: nat, tag: string)
    requires AtEnd(h, k, tag)
    ensures Found(h, k, "</" + tag)
  {
    var end := "</" + tag;
    var all, w := h[k..k + |end|], h[k + 2..k + 2 + |tag|];
    forall i | 0 <= i < |end|
      ensures Lower(all[i]) == end[i]
    {
      if i >= 2 {
        assert all[i] == w[i - 2] && Lowered(w)[i - 2] == tag[i - 2];
      }
    }
    assert Lowered(all) == end;
  }

  function RawTold(e: int, content: string): (l: seq<Said>) {
    if content == [] then [] else [Said.Said(Text, [], [], content, e)]
  }

  // From the content to behind the end tag.
  lemma FindsEnd(h: string, next: nat, content: string, tag: string)
    requires At(h, next, content) && AtEnd(h, next + |content|, tag) && TagText(tag) && Unended(content, "</" + tag)
    ensures next <= |h| && EndTag(h, next, "</" + tag) == next + |content|
    ensures Past(h, Seek(h, next + |content|, '>')) == next + |content| + |End(tag)|
  {
    hide EndTag, At, Seek, Unended, AtEnd, End, Found;
    var end := "</" + tag;
    EndIsFound(h, next + |content|, tag);
    LoweredEnd(tag);
    forall m | next <= m < next + |content|
      ensures !Found(h, m, end)
    {
      NotFoundBefore(h, next, content, end, m - next);
    }
    EndTagAt(h, next, |content|, end);
  }

  lemma LoweredEnd(tag: string)
    requires Lowered(tag) == tag
    ensures Lowered("</" + tag) == "</" + tag
  {
    var end := "</" + tag;
    forall i | 0 <= i < |end|
      ensures Lower(end[i]) == end[i]
    {
      assert i >= 2 ==> end[i] == tag[i - 2] && Lowered(tag)[i - 2] == tag[i - 2];
    }
  }

  lemma ReadsRaw(h: string, st: State, e: nat, tag: string, next: nat, content: string) returns (st': State)
    requires !st.full && st.textStart == -1 && next <= |h| && TagText(tag) && |st.items| + |RawTold(e, content)| <= DOM_MAX_NODES
    requires At(h, next, content) && AtEnd(h, next + |content|, tag) && Unended(content, "</" + tag)
    ensures st' == RawRead(h, st, e, tag, next)
    ensures st'.i == next + |content| + |End(tag)| && st.items <= st'.items && st'.stack == st.stack && !st'.full && st'.textStart == -1
    ensures SayAll(h, st'.items) == SayAll(h, st.items) + RawTold(e, content)
  {
    hide EndTag, Unended, SayAll, Seek, AtEnd, TagText, End;
    FindsEnd(h, next, content, tag);
    st' := RawRead(h, st, e, tag, next);
    if content != [] {
      var x := Item(Text, [], NONE, Slice(next, |content|), e);
      SayMore(h, st.items, x);
    }
  }

  lemma RunRaw(h: string, st: State, tag: string, attr: string, content: string, parent: string) returns (st': State)
    requires !st.full && st.textStart == -1 && AtOpen(h, st.i, tag, attr)
    requires At(h, st.i + |Open(tag, attr)|, content) && AtEnd(h, st.i + |Open(tag, attr)| + |content|, tag)
    requires |st.items| + 1 + |RawTold(0, content)| <= DOM_MAX_NODES
    requires GoodTag(tag) && GoodAttr(attr) && IsRawText(tag) && Unended(content, "</" + tag) && Fits(st, parent) && !Closes(parent, tag)
    ensures Reaches(h, st, st', st.i + |Open(tag, attr)| + |content| + |End(tag)|,
                    [Said.Said(Elem, tag, attr, [], Top(st.stack))] + RawTold(|st.items|, content))
  {
    hide Ran, At, Open, End, Closes, TagText, GoodAttr, SayAll, Implied, IsRawText, Fits, Unended, RawRead, AtOpen, AtEnd;
    OpenIsNamed(h, st, tag, attr);
    ImpliesNothing(st, parent, tag);
    OpenLength(tag, attr);
    var e := |st.items|;
    var mid := st.(items := st.items + [ElementItem(st, tag, attr)]);
    st' := ReadsRaw(h, mid, e, tag, st.i + |Open(tag, attr)|, content);
    SaysElement(h, st, tag, attr);
  }

  // ----- the whole tree -----

  lemma VoidIsNotRaw(tag: string)
    ensures !(IsVoid(tag) && IsRawText(tag))
  {
  }

  lemma {:induction false} ToldSize(f: Forest, parent: int, n: nat)
    ensures |Told(f, parent, n)| == Size(f)
    decreases f
  {
    if f.Cons? {
      ToldSizeOne(f.head, parent, n);
      ToldSize(f.tail, parent, n + |ToldOne(f.head, parent, n)|);
    }
  }

  lemma {:induction false} ToldSizeOne(x: Html, parent: int, n: nat)
    ensures |ToldOne(x, parent, n)| == SizeOne(x)
    decreases x
  {
    if x.Element? {
      ToldSize(x.kids, n, n + 1);
    }
  }

  // The place and the open elements allow this much to be read.
  predicate Ready(st: State, parent: string, depth: nat, size: nat) {
    && !st.full && st.textStart == -1 && Fits(st, parent)
    && |st.stack| + depth <= DOM_DEPTH_MAX && |st.items| + size <= DOM_MAX_NODES
  }

  // Text, or an element that is left open, with nothing behind it that could go inside.
  predicate Shut(h: string, i: nat, x: Html, n: nat, how: Style) {
    x.Words? || LeftOne(x, n, how) != [] ==> AtTag(h, i + |RenderOne(x, n, how)|)
  }

  lemma RunOne(h: string, st: State, x: Html, parent: string, how: Style) returns (st': State)
    requires Ready(st, parent, DepthOne(x), SizeOne(x)) && MayOne(x, |st.items|, how)
    requires GoodOne(x, parent) && At(h, st.i, RenderOne(x, |st.items|, how)) && Shut(h, st.i, x, |st.items|, how)
    ensures Leaves(h, st, st', st.i + |RenderOne(x, |st.items|, how)|, ToldOne(x, Top(st.stack), |st.items|), LeftOne(x, |st.items|, how))
    decreases x
  {
    hide Gets, Leaves, Reaches, At, Bare, IsRawText, GoodOne, RenderOne, MayOne, DepthOne;
    if Container(x) {
      st' := RunContainer(h, st, x, parent, how);
    } else {
      st' := RunLeaf(h, st, x, parent, how);
      NothingOpen(h, st, st', st.i + |RenderOne(x, |st.items|, how)|, ToldOne(x, Top(st.stack), |st.items|));
    }
  }

  lemma RunLeaf(h: string, st: State, x: Html, parent: string, how: Style) returns (st': State)
    requires !Container(x) && Ready(st, parent, DepthOne(x), SizeOne(x))
    requires GoodOne(x, parent) && At(h, st.i, RenderOne(x, |st.items|, how)) && Shut(h, st.i, x, |st.items|, how)
    ensures Reaches(h, st, st', st.i + |RenderOne(x, |st.items|, how)|, ToldOne(x, Top(st.stack), |st.items|))
  {
    hide Reaches, At, AtOpen, AtEnd, Open, End, Closes, GoodTag, GoodAttr, IsRawText, IsVoid, Unended, Good, LeftOne;
    match x
    case Words(t) =>
      st' := RunWords(h, st, t);
    case Element(tag, attr, kids) =>
      VoidIsNotRaw(tag);
      ElementParts(h, st.i, x, |st.items|, how);
      if Bare(tag, attr) {
        st' := RunBare(h, st, tag, attr, parent);
        var one := [Said.Said(Elem, tag, attr, [], Top(st.stack))];
        assert one + Told(kids, |st.items|, |st.items| + 1) == one;
      } else {
        RawKids(kids, tag, |st.items|, how);
        st' := RunRaw(h, st, tag, attr, Render(kids, |st.items| + 1, how), parent);
      }
  }

  lemma RawKids(kids: Forest, tag: string, e: nat, how: Style)
    requires RawContent(kids, tag)
    ensures var content := Render(kids, e + 1, how);
            && Unended(content, "</" + tag) && Told(kids, e, e + 1) == RawTold(e, content)
            && |RawTold(0, content)| == Size(kids)
  {
    hide Unended;
    if kids.Nil? {
      UnendedNothing("</" + tag);
    } else {
      var t := kids.head.text;
      assert t + [] == t && Render(kids, e + 1, how) == t;
      var one := ToldOne(kids.head, e, e + 1);
      assert one + [] == one;
    }
  }

  lemma UnendedNothing(end: string)
    ensures Unended([], end)
  {
  }

  lemma RunContainer(h: string, st: State, x: Html, parent: string, how: Style) returns (st': State)
    requires Container(x) && Ready(st, parent, DepthOne(x), SizeOne(x)) && MayOne(x, |st.items|, how)
    requires GoodOne(x, parent) && At(h, st.i, RenderOne(x, |st.items|, how)) && Shut(h, st.i, x, |st.items|, how)
    ensures Leaves(h, st, st', st.i + |RenderOne(x, |st.items|, how)|, ToldOne(x, Top(st.stack), |st.items|), LeftOne(x, |st.items|, how))
    decreases x, 0
  {
    hide Gets, Leaves, Reaches, At, Open, End, Closes, GoodTag, GoodAttr, IsRawText, IsVoid, Good, Bare, May, Left, Render, RenderOne, LeftOne, Ready, Fits, Inside, Ran, AtTag, Told;
    var tag, attr, kids, n := x.tag, x.attr, x.kids, |st.items|;
    ElementParts(h, st.i, x, n, how);
    LeftOfContainer(x, n, how);
    GetsReady(st, x, parent);
    GoesInside(h, st, tag, attr, parent);
    var first := Inside(st, tag, attr);
    var inner := RunForest(h, first, kids, tag, how);
    var told, open := Told(kids, n, n + 1), Left(kids, n + 1, how);
    LeavesThere(h, first, inner, first.i + |Render(kids, n + 1, how)|, told, open);
    if n in how.out {
      st' := inner;
      StaysOpen(h, st, tag, attr, inner, told, open);
    } else {
      st' := GoesOut(h, st, tag, attr, inner, told, open);
      NothingOpen(h, st, st', inner.i + |End(tag)|, [Said.Said(Elem, tag, attr, [], Top(st.stack))] + told);
    }
  }

  lemma GetsReady(st: State, x: Html, parent: string)
    requires Container(x) && Ready(st, parent, DepthOne(x), SizeOne(x))
    ensures !st.full && st.textStart == -1 && Fits(st, parent) && st.stack != []
    ensures |st.items| < DOM_MAX_NODES && |st.stack| < DOM_DEPTH_MAX
    ensures var first := Inside(st, x.tag, x.attr);
            && Ready(first, x.tag, Depth(x.kids), Size(x.kids))
            && |first.items| == |st.items| + 1 && Top(first.stack) == |st.items| && first.i == st.i + |Open(x.tag, x.attr)|
  {
    hide Open, IsVoid, Bare, IsRawText;
  }

  lemma LeavesThere(h: string, st: State, st': State, to: nat, told: seq<Said>, open: seq<string>)
    requires Leaves(h, st, st', to, told, open)
    ensures st'.i == to
  {
  }

  lemma NothingOpen(h: string, st: State, st': State, to: nat, told: seq<Said>)
    requires Reaches(h, st, st', to, told)
    ensures Leaves(h, st, st', to, told, [])
  {
    hide Gets;
  }

  // Whether the end tag is there.
  predicate Ended(x: Html, n: nat, how: Style) {
    x.Element? && !Bare(x.tag, x.attr) && (IsRawText(x.tag) || n !in how.out)
  }

  lemma ElementParts(h: string, i: nat, x: Html, n: nat, how: Style)
    requires x.Element? && GoodTag(x.tag) && At(h, i, RenderOne(x, n, how))
    ensures var open, body, end := |Open(x.tag, x.attr)|, Render(x.kids, n + 1, how), |End(x.tag)|;
            && AtOpen(h, i, x.tag, x.attr)
            && (Bare(x.tag, x.attr) ==> |RenderOne(x, n, how)| == open)
            && (!Bare(x.tag, x.attr) ==> At(h, i + open, body)
                                         && |RenderOne(x, n, how)| == open + |body| + (if Ended(x, n, how) then end else 0))
            && (Ended(x, n, how) ==> AtEnd(h, i + open + |body|, x.tag) && AtTag(h, i + open + |body|))
  {
    hide At, Open, End, Bare, Render, IsRawText, AtOpen;
    var w, v := Spelt(how.starts, n, x.tag), Spelt(how.ends, n, x.tag);
    var open, body, end := Open(w, x.attr), Render(x.kids, n + 1, how), End(v);
    OpenLength(w, x.attr);
    OpenLength(x.tag, x.attr);
    EndLength(v);
    EndLength(x.tag);
    if !Bare(x.tag, x.attr) {
      AtSplit(h, i, open, body + (if Ended(x, n, how) then end else []));
      AtSplit(h, i + |open|, body, if Ended(x, n, how) then end else []);
      if Ended(x, n, how) {
        EndSpelt(h, i + |open| + |body|, v, x.tag);
      }
    }
    OpenSpelt(h, i, w, x.tag, x.attr);
  }

  lemma LeftOfContainer(x: Html, n: nat, how: Style)
    requires Container(x)
    ensures LeftOne(x, n, how) == (if n in how.out then [x.tag] + Left(x.kids, n + 1, how) else [])
    ensures Ended(x, n, how) <==> n !in how.out
  {
    hide Left, Bare;
  }

  // From inside the element to behind the end tag, past all that is still open inside.
  lemma GoesOut(h: string, st: State, tag: string, attr: string, inner: State, told: seq<Said>, open: seq<string>) returns (st': State)
    requires !st.full && st.textStart == -1 && AtOpen(h, st.i, tag, attr) && GoodTag(tag) && st.stack != []
    requires Ran(h, st) == Ran(h, Inside(st, tag, attr))
    requires Leaves(h, Inside(st, tag, attr), inner, inner.i, told, open) && AtEnd(h, inner.i, tag) && tag !in open
    ensures Reaches(h, st, st', inner.i + |End(tag)|, [Said.Said(Elem, tag, attr, [], Top(st.stack))] + told)
  {
    hide Ran, At, Open, End, GoodTag, SayAll;
    var first := Inside(st, tag, attr);
    assert first.items[|st.items|].tag == tag && inner.items[|st.items|] == first.items[|st.items|];
    EndDrops(h, inner, first.stack, open, tag);
    st' := ComesOut(h, st, tag, attr, inner.(stack := first.stack), told);
  }

  lemma StaysOpen(h: string, st: State, tag: string, attr: string, inner: State, told: seq<Said>, open: seq<string>)
    requires !st.full && st.textStart == -1 && AtOpen(h, st.i, tag, attr) && st.stack != []
    requires Ran(h, st) == Ran(h, Inside(st, tag, attr))
    requires Leaves(h, Inside(st, tag, attr), inner, inner.i, told, open)
    ensures Leaves(h, st, inner, inner.i, [Said.Said(Elem, tag, attr, [], Top(st.stack))] + told, [tag] + open)
  {
    hide Ran, At, Open, SayAll;
    var first := Inside(st, tag, attr);
    var all := [tag] + open;
    assert first.items[|st.items|].tag == tag && inner.items[|st.items|] == first.items[|st.items|];
    assert inner.stack[|st.stack|] == first.stack[|st.stack|];
    forall k | 0 <= k < |all|
      ensures TagOf(inner.items, inner.stack[|st.stack| + k]) == all[k]
    {
      assert k > 0 ==> inner.stack[|st.stack| + k] == inner.stack[|first.stack| + (k - 1)] && all[k] == open[k - 1];
    }
    SaysElement(h, st, tag, attr);
    var one := [Said.Said(Elem, tag, attr, [], Top(st.stack))];
    assert SayAll(h, st.items) + one + told == SayAll(h, st.items) + (one + told);
  }

  lemma RunForest(h: string, st: State, f: Forest, parent: string, how: Style) returns (st': State)
    requires Ready(st, parent, Depth(f), Size(f)) && May(f, |st.items|, how)
    requires Good(f, parent) && At(h, st.i, Render(f, |st.items|, how)) && AtTag(h, st.i + |Render(f, |st.items|, how)|)
    ensures Leaves(h, st, st', st.i + |Render(f, |st.items|, how)|, Told(f, Top(st.stack), |st.items|), Left(f, |st.items|, how))
    decreases f, 1
  {
    hide Ran, At, GoodOne, RenderOne, ToldOne, DepthOne, LeftOne, MayOne, AllEnd, Open, SizeOne, AtOpen, SayAll;
    if f.Nil? {
      st' := st;
    } else {
      var x, rest, n := f.head, f.tail, |st.items|;
      var n' := n + SizeOne(x);
      AtSplit(h, st.i, RenderOne(x, n, how), Render(rest, n', how));
      Behind(h, st.i, f, parent, n, how);
      var mid := RunOne(h, st, x, parent, how);
      if rest.Nil? {
        st' := mid;
      } else {
        var next := NextSibling(h, st, mid, f, parent, how);
        st' := RunForest(h, next, rest, parent, how);
      }
    }
  }

  // On to the next of them.
  lemma NextSibling(h: string, st: State, mid: State, f: Forest, parent: string, how: Style) returns (next: State)
    requires f.Cons? && f.tail.Cons? && Ready(st, parent, Depth(f), Size(f)) && May(f, |st.items|, how) && Good(f, parent)
    requires At(h, mid.i, Render(f.tail, |st.items| + SizeOne(f.head), how))
    requires Leaves(h, st, mid, mid.i, ToldOne(f.head, Top(st.stack), |st.items|), LeftOne(f.head, |st.items|, how))
    ensures Reaches(h, st, next, mid.i, ToldOne(f.head, Top(st.stack), |st.items|))
    ensures |next.items| == |st.items| + SizeOne(f.head) && Ready(next, parent, Depth(f.tail), Size(f.tail))
  {
    hide Ran, At, GoodOne, RenderOne, ToldOne, DepthOne, LeftOne, MayOne, AllEnd, Open, SizeOne, AtOpen, SayAll, Render;
    var x, rest, n := f.head, f.tail, |st.items|;
    if rest.head.Element? {
      NextOpens(h, mid.i, rest, n + SizeOne(x), how, parent);
    }
    ToldSizeOne(x, Top(st.stack), n);
    next := Dropped(h, st, mid, ToldOne(x, Top(st.stack), n), LeftOne(x, n, how), rest.head, parent);
    assert |SayAll(h, next.items)| == |next.items|;
  }

  // What follows a text, or an element that is left open, is a tag or nothing.
  lemma Behind(h: string, i: nat, f: Forest, parent: string, n: nat, how: Style)
    requires f.Cons? && Good(f, parent) && May(f, n, how)
    requires At(h, i, Render(f, n, how)) && AtTag(h, i + |Render(f, n, how)|)
    ensures Shut(h, i, f.head, n, how)
  {
    hide At, Good, May, LeftOne, RenderOne, SizeOne;
    var one, r := RenderOne(f.head, n, how), Render(f.tail, n + SizeOne(f.head), how);
    AtSplit(h, i, one, r);
    ElementFollows(f, parent, n, how);
    if f.tail.Cons? && f.tail.head.Element? {
      StartsTag(f.tail, n + SizeOne(f.head), how);
      AtIndex(h, i + |one|, r);
      assert h[i + |one| + 0] == r[0];
    }
  }

  lemma ElementFollows(f: Forest, parent: string, n: nat, how: Style)
    requires f.Cons? && Good(f, parent) && May(f, n, how)
    ensures f.tail.Cons? && (f.head.Words? || LeftOne(f.head, n, how) != []) ==> f.tail.head.Element?
  {
    hide GoodOne, MayOne, LeftOne, AllEnd;
  }

  lemma StartsTag(f: Forest, n: nat, how: Style)
    requires f.Cons? && f.head.Element?
    ensures Render(f, n, how) != [] && Render(f, n, how)[0] == '<'
    ensures Open(Spelt(how.starts, n, f.head.tag), f.head.attr) <= Render(f, n, how)
  {
  }

  // What comes next ends all that was left open.
  lemma Dropped(h: string, st: State, mid: State, told: seq<Said>, open: seq<string>, y: Html, parent: string) returns (st': State)
    requires Leaves(h, st, mid, mid.i, told, open) && GoodOne(y, parent) && st.stack != []
    requires open != [] ==> y.Element? && AllEnd(open, y.tag) && AtOpen(h, mid.i, y.tag, y.attr)
    ensures st' == mid.(stack := st.stack) && Reaches(h, st, st', mid.i, told)
  {
    hide Ran, At, SayAll, AllEnd, Open, GoodTag, GoodAttr, Closes, IsRawText;
    st' := mid.(stack := st.stack);
    if open != [] {
      OpenDrops(h, mid, st.stack, open, y.tag, y.attr);
    } else {
      assert mid.stack == st.stack;
    }
  }

  lemma NextOpens(h: string, i: nat, f: Forest, n: nat, how: Style, parent: string)
    requires At(h, i, Render(f, n, how)) && f.Cons? && f.head.Element? && GoodOne(f.head, parent)
    ensures AtOpen(h, i, f.head.tag, f.head.attr)
  {
    hide Open, At, AtOpen;
    StartsTag(f, n, how);
    var w := Spelt(how.starts, n, f.head.tag);
    var open, r := Open(w, f.head.attr), Render(f, n, how);
    assert r == open + r[|open|..];
    AtSplit(h, i, open, r[|open|..]);
    OpenSpelt(h, i, w, f.head.tag, f.head.attr);
  }

  const ROOT := Said.Said(Elem, "#document", [], [], -1)

  // What was written out parses to what it was written from, whatever end tags were left out.
  lemma ParsesBack(f: Forest, how: Style)
    requires Good(f, "#document") && Depth(f) < DOM_DEPTH_MAX && Size(f) < DOM_MAX_NODES && May(f, 1, how)
    ensures var h := Render(f, 1, how);
            !Ran(h, START).full && SayAll(h, Ran(h, START).items) == [ROOT] + Told(f, 0, 1)
  {
    hide Good, Render, Told, Depth, SayAll, May, Size, Left;
    var h := Render(f, 1, how);
    assert At(h, 0, h);
    var st' := RunForest(h, START, f, "#document", how);
    StartSays(h);
  }

  lemma StartSays(h: string)
    ensures SayAll(h, START.items) == [ROOT]
  {
  }

  // ----- one listing, one tree -----

  lemma {:induction false} ParentsBelow(f: Forest, p: int, n: nat)
    requires p < n
    ensures forall k :: 0 <= k < |Told(f, p, n)| ==> Told(f, p, n)[k].parent >= p
    decreases f
  {
    if f.Cons? {
      var one := ToldOne(f.head, p, n);
      var rest := Told(f.tail, p, n + |one|);
      ParentsBelow(f.tail, p, n + |one|);
      if f.head.Element? {
        ParentsBelow(f.head.kids, n, n + 1);
        assert forall k :: 1 <= k < |one| ==> one[k] == Told(f.head.kids, n, n + 1)[k - 1];
      }
      assert forall k :: 0 <= k < |one| ==> one[k].parent >= p;
      assert Told(f, p, n) == one + rest;
    }
  }

  // Where the listing of the children ends and that of the next siblings begins.
  lemma SameSplit(k: seq<Said>, r: seq<Said>, k': seq<Said>, r': seq<Said>, n: int)
    requires k + r == k' + r'
    requires AllFrom(k, n) && AllFrom(k', n)
    requires (r != [] ==> r[0].parent < n) && (r' != [] ==> r'[0].parent < n)
    ensures k == k' && r == r'
  {
    var all := k + r;
    var all' := k' + r';
    assert |k| < |all| ==> all[|k|] == r[0];
    assert |k'| < |all| ==> all[|k'|] == r'[0];
    assert forall i :: 0 <= i < |k| ==> all[i] == k[i];
    assert forall i :: 0 <= i < |k'| ==> all[i] == k'[i];
    assert all[..|k|] == k && all[|k|..] == r && all'[..|k'|] == k' && all'[|k'|..] == r';
  }

  lemma {:induction false} ToldOnce(f: Forest, g: Forest, p: int, n: nat)
    requires p < n && Told(f, p, n) == Told(g, p, n)
    ensures f == g
    decreases f
  {
    if f.Cons? && g.Cons? {
      SameHeads(f, g, p, n);
      if f.head.Element? {
        ToldOnce(f.head.kids, g.head.kids, n, n + 1);
      }
      ToldOnce(f.tail, g.tail, p, n + |ToldOne(f.head, p, n)|);
    }
  }

  // Two listings that are the same begin with the same node, with the same below it, and go on the
  // same.
  lemma SameHeads(f: Forest, g: Forest, p: int, n: nat)
    requires p < n && f.Cons? && g.Cons? && Told(f, p, n) == Told(g, p, n)
    ensures var x, y := f.head, g.head;
            && (x.Words? <==> y.Words?) && (x.Words? ==> x == y)
            && (x.Element? ==> x.tag == y.tag && x.attr == y.attr && Told(x.kids, n, n + 1) == Told(y.kids, n, n + 1))
            && |ToldOne(x, p, n)| == |ToldOne(y, p, n)|
            && Told(f.tail, p, n + |ToldOne(x, p, n)|) == Told(g.tail, p, n + |ToldOne(x, p, n)|)
  {
    hide Told, ToldOne;
    var x, y := f.head, g.head;
    var a, b := ToldOne(x, p, n), ToldOne(y, p, n);
    ToldStep(f, p, n);
    ToldStep(g, p, n);
    FirstParent(f.tail, p, n + |a|);
    FirstParent(g.tail, p, n + |b|);
    Below(x, p, n);
    Below(y, p, n);
    SameParts(a, Told(f.tail, p, n + |a|), b, Told(g.tail, p, n + |b|), n);
  }

  predicate AllFrom(l: seq<Said>, n: int) {
    forall i :: 0 <= i < |l| ==> l[i].parent >= n
  }

  lemma SameParts(a: seq<Said>, r: seq<Said>, b: seq<Said>, r': seq<Said>, n: int)
    requires a != [] && b != [] && a + r == b + r' && AllFrom(a[1..], n) && AllFrom(b[1..], n)
    requires (r != [] ==> r[0].parent < n) && (r' != [] ==> r'[0].parent < n)
    ensures a == b && r == r'
  {
    var k, k' := a[1..], b[1..];
    assert (a + r)[0] == a[0] && (b + r')[0] == b[0];
    assert (a + r)[1..] == k + r && (b + r')[1..] == k' + r';
    SameSplit(k, r, k', r', n);
    assert a == [a[0]] + k && b == [b[0]] + k';
  }

  lemma ToldStep(f: Forest, p: int, n: nat)
    requires f.Cons?
    ensures Told(f, p, n) == ToldOne(f.head, p, n) + Told(f.tail, p, n + |ToldOne(f.head, p, n)|)
  {
  }

  lemma Below(x: Html, p: int, n: nat)
    requires p < n
    ensures var a := ToldOne(x, p, n);
            && a[1..] == (if x.Words? then [] else Told(x.kids, n, n + 1))
            && AllFrom(a[1..], n)
            && a[0] == if x.Words? then Said.Said(Text, [], [], x.text, p) else Said.Said(Elem, x.tag, x.attr, [], p)
  {
    if x.Element? {
      ParentsBelow(x.kids, n, n + 1);
    }
  }

  lemma FirstParent(f: Forest, p: int, n: nat)
    ensures Told(f, p, n) != [] ==> Told(f, p, n)[0].parent == p
  {
  }

  // Two trees that can be written down have different markup, whatever end tags are left out.
  lemma MarkupIsUnique(f: Forest, a: Style, g: Forest, b: Style)
    requires Good(f, "#document") && Depth(f) < DOM_DEPTH_MAX && Size(f) < DOM_MAX_NODES && May(f, 1, a)
    requires Good(g, "#document") && Depth(g) < DOM_DEPTH_MAX && Size(g) < DOM_MAX_NODES && May(g, 1, b)
    requires Render(f, 1, a) == Render(g, 1, b)
    ensures f == g
  {
    hide Good, Render, Told, Depth, SayAll, Ran, May, Size;
    ParsesBack(f, a);
    ParsesBack(g, b);
    var l, l' := [ROOT] + Told(f, 0, 1), [ROOT] + Told(g, 0, 1);
    assert l[1..] == Told(f, 0, 1) && l'[1..] == Told(g, 0, 1);
    ToldOnce(f, g, 0, 1);
  }

  // ----- with every end tag, and with fewer -----

  const PLAIN := Style({}, map[], map[])

  lemma {:induction false} NoneLeft(f: Forest, n: nat, how: Style)
    requires how.out == {}
    ensures Left(f, n, how) == [] && May(f, n, how)
    decreases f
  {
    if f.Cons? {
      NoneLeftOne(f.head, n, how);
      NoneLeft(f.tail, n + SizeOne(f.head), how);
    }
  }

  lemma {:induction false} NoneLeftOne(x: Html, n: nat, how: Style)
    requires how.out == {}
    ensures LeftOne(x, n, how) == [] && MayOne(x, n, how)
    decreases x
  {
    if x.Element? {
      NoneLeft(x.kids, n + 1, how);
    }
  }

  // Every tree can be written with all its end tags; those that may be left out, and capitals, change
  // nothing.
  lemma StyleIsNothing(f: Forest, how: Style)
    requires Good(f, "#document") && Depth(f) < DOM_DEPTH_MAX && Size(f) < DOM_MAX_NODES && May(f, 1, how)
    ensures var h, h' := Render(f, 1, how), Render(f, 1, PLAIN);
            SayAll(h, Ran(h, START).items) == SayAll(h', Ran(h', START).items)
  {
    hide Good, Render, Told, Depth, SayAll, Ran, May, Size, Left;
    NoneLeft(f, 1, PLAIN);
    ParsesBack(f, how);
    ParsesBack(f, PLAIN);
  }

  // As in <div><b>x</div>y, for any two different elements: y is beside the outer one.
  predicate Soup(outer: Html, inner: Html, y: Html, how: Style) {
    && Container(outer) && Container(inner) && outer.kids == Cons(inner, Nil) && y.Words? && outer.tag != inner.tag
    && how == Style({2}, map[], map[]) && Left(inner.kids, 3, how) == [] && May(inner.kids, 3, how)
  }

  lemma SoupIsRead(outer: Html, inner: Html, y: Html, how: Style)
    requires Soup(outer, inner, y, how)
    ensures var f := Cons(outer, Cons(y, Nil));
            && May(f, 1, how) && Told(f, 0, 1) == ToldOne(outer, 0, 1) + [Said.Said(Text, [], [], y.text, 0)]
  {
    hide Open, End, Bare, IsRawText;
    var kids, rest := Cons(inner, Nil), Cons(y, Nil);
    assert Left(kids, 2, how) == [inner.tag];
    assert MayOne(inner, 2, how) && May(kids, 2, how);
    assert MayOne(outer, 1, how) && LeftOne(outer, 1, how) == [];
    assert MayOne(y, 1 + SizeOne(outer), how) && May(rest, 1 + SizeOne(outer), how);
    assert Told(rest, 0, 1 + |ToldOne(outer, 0, 1)|) == [Said.Said(Text, [], [], y.text, 0)];
  }

  lemma SoupIsWritten(outer: Html, inner: Html, y: Html, how: Style)
    requires Soup(outer, inner, y, how)
    ensures Render(Cons(outer, Cons(y, Nil)), 1, how) == Open(outer.tag, outer.attr) + Open(inner.tag, inner.attr)
                                                         + Render(inner.kids, 3, how) + End(outer.tag) + y.text
  {
    hide Open, End, Bare, IsRawText, May, Left;
    var kids, rest := Cons(inner, Nil), Cons(y, Nil);
    assert Render(kids, 2, how) == Open(inner.tag, inner.attr) + Render(inner.kids, 3, how);
    assert Render(rest, 1 + SizeOne(outer), how) == y.text;
  }

  // ----- what says nothing -----

  // No "-->" begins inside.
  predicate CommentText(c: string) {
    var all := c + "-->";
    forall k :: 0 <= k < |c| ==> !ArrowAt(all, k)
  }

  // A comment is passed over, whatever it says.
  lemma RunComment(h: string, st: State, c: string)
    requires !st.full && st.textStart == -1 && At(h, st.i, "<!--" + (c + "-->")) && CommentText(c)
    ensures Ran(h, st) == Ran(h, st.(i := st.i + 4 + |c| + 3))
  {
    hide Ran, CommentEnd, At, CommentText, Named, Seek;
    var open := "<!--";
    AtSplit(h, st.i, open, c + "-->");
    AtIndex(h, st.i, open);
    assert forall k :: 0 <= k < 4 ==> h[st.i + k] == open[k];
    CommentEndsAt(h, st.i + 4, c);
    RanStep(h, st);
  }

  lemma CommentEndsAt(h: string, i: nat, c: string)
    requires At(h, i, c + "-->") && CommentText(c)
    ensures i <= |h| && CommentEnd(h, i) == i + |c| + 3
  {
    hide CommentEnd;
    var all := c + "-->";
    forall k | i <= k <= i + |c|
      ensures ArrowAt(h, k) <==> ArrowAt(all, k - i)
    {
      SameArrow(h, i, all, k - i);
    }
    CommentGoesTo(h, i, i + |c|);
  }

  lemma SameArrow(h: string, i: nat, s: string, k: nat)
    requires At(h, i, s) && k + 3 <= |s|
    ensures ArrowAt(h, i + k) <==> ArrowAt(s, k)
  {
    AtIndex(h, i, s);
    assert h[i + k] == s[k] && h[i + (k + 1)] == s[k + 1] && h[i + (k + 2)] == s[k + 2];
  }

  // So is a declaration.
  lemma RunDeclaration(h: string, st: State, c: string)
    requires !st.full && st.textStart == -1 && At(h, st.i, "<" + c + ">") && '>' !in c
    requires c != [] && (c[0] == '?' || (c[0] == '!' && !("!--" <= c)))
    ensures Ran(h, st) == Ran(h, st.(i := st.i + |c| + 2))
  {
    hide Ran, Seek, CommentEnd, Named;
    var all := "<" + c + ">";
    AtIndex(h, st.i, all);
    forall k | st.i <= k < st.i + |c| + 1
      ensures h[k] != '>'
    {
      assert h[st.i + (k - st.i)] == all[k - st.i];
      assert k > st.i ==> all[k - st.i] == c[k - st.i - 1] && c[k - st.i - 1] in c;
    }
    assert h[st.i + 0] == all[0] && h[st.i + 1] == all[1] && h[st.i + (|c| + 1)] == all[|c| + 1];
    assert |c| >= 3 ==> h[st.i + 2] == all[2] && h[st.i + 3] == all[3];
    RanStep(h, st);
  }

  // So is a template with all that is in it.
  lemma RunTemplate(h: string, st: State, tag: string, attr: string, content: string)
    requires !st.full && st.textStart == -1 && AtOpen(h, st.i, tag, attr) && TagText(tag) && IsSkipped(tag) && GoodAttr(attr)
    requires At(h, st.i + |Open(tag, attr)|, content) && AtEnd(h, st.i + |Open(tag, attr)| + |content|, tag)
    requires Unended(content, "</" + tag)
    ensures Ran(h, st) == Ran(h, st.(i := st.i + |Open(tag, attr)| + |content| + |End(tag)|))
  {
    hide Ran, At, Open, End, AtOpen, AtEnd, Unended, EndTag, Seek, IsSkipped, TagText, GoodAttr;
    OpenIsNamed(h, st, tag, attr);
    OpenLength(tag, attr);
    FindsEnd(h, st.i + |Open(tag, attr)|, content, tag);
  }
}
