/**
 What the tag-soup parser makes of a text (userland/dom.h), on values: text until a '<', then a
 tag; an element opened, closed, or closed without saying so.
 */
module DomSoup {
  import opened CssNames
  import opened DomTree

  const DOM_TAG_MAX := 24
  const DOM_DEPTH_MAX := 96

  // ----- scanning -----

  // The first c from i on, or the end.
  function Seek(h: string, i: nat, c: char): (j: nat)
    requires i <= |h|
    ensures i <= j <= |h| && (j < |h| ==> h[j] == c) && forall k :: i <= k < j ==> h[k] != c
    decreases |h| - i
  {
    if i < |h| && h[i] != c then Seek(h, i + 1, c) else i
  }

  function Past(h: string, j: nat): (i: nat)
    requires j <= |h|
    ensures j <= i <= |h| && (j < |h| ==> i == j + 1)
  {
    if j < |h| then j + 1 else |h|
  }

  // Where the dashes that end a comment are looked for.
  function CommentStop(h: string, i: nat): (j: nat)
    ensures i <= j
    decreases |h| - i
  {
    if i + 2 < |h| && !(h[i] == '-' && h[i + 1] == '-' && h[i + 2] == '>') then CommentStop(h, i + 1) else i
  }

  function CommentEnd(h: string, i: nat): (r: nat)
    requires i <= |h|
    ensures i <= r <= |h|
  {
    var j := CommentStop(h, i);
    if j + 3 < |h| then j + 3 else |h|
  }

  // A tag name ends at white space, '>' or '/', or when it is DOM_TAG_MAX - 1 long.
  function NameEnd(h: string, j: nat, n: nat): (k: nat)
    requires j <= |h|
    ensures j <= k <= |h|
    decreases |h| - j
  {
    if j < |h| && !IsSpace(h[j]) && h[j] != '>' && h[j] != '/' && n < DOM_TAG_MAX - 1
    then NameEnd(h, j + 1, n + 1) else j
  }

  // A tag ends at the first '>' that is not inside a quoted attribute value.
  function TagEnd(h: string, j: nat, quote: char): (k: nat)
    requires j <= |h|
    ensures j <= k <= |h|
    decreases |h| - j
  {
    if j == |h| then j
    else if quote != '\0' then TagEnd(h, j + 1, if h[j] == quote then '\0' else quote)
    else if h[j] == '"' || h[j] == '\'' then TagEnd(h, j + 1, h[j])
    else if h[j] == '>' then j
    else TagEnd(h, j + 1, quote)
  }

  // The first place from k on where the text says end, in any case; else as far as it could.
  function EndTag(h: string, k: nat, end: string): (r: nat)
    requires k <= |h|
    ensures k <= r <= |h|
    decreases |h| - k
  {
    if k + |end| <= |h| && k < |h| && Lowered(h[k..k + |end|]) != end then EndTag(h, k + 1, end) else k
  }

  // ----- kinds of elements -----

  predicate IsVoid(t: string) {
    t in ["br", "hr", "img", "input", "meta", "link", "source", "area", "base", "col", "embed", "param", "track", "wbr"]
  }

  predicate IsRawText(t: string) {
    t in ["script", "style", "textarea", "title", "svg"]
  }

  predicate IsSkipped(t: string) {
    t == "template"
  }

  // An open element that a new one ends without saying so.
  predicate Closes(open: string, now: string) {
    if open == "p" then now in ["p", "div", "ul", "ol", "table", "blockquote", "pre", "section", "h1", "h2", "h3", "h4"]
    else if open == "li" then now == "li"
    else if open == "dt" || open == "dd" then now == "dt" || now == "dd"
    else if open == "td" || open == "th" then now == "td" || now == "th" || now == "tr"
    else if open == "tr" then now == "tr"
    else open == "option" && now == "option"
  }

  // ----- the parser's state, as a value -----

  // What a node says: everything of it but the links below and beside it.
  datatype Item = Item(kind: Kind, tag: string, attr: Slice, text: Slice, parent: int)

  // The nodes so far, the open elements, the place in the text, the start of the text that is
  // running (-1 for none), and whether an element did not fit.
  datatype State = State(items: seq<Item>, stack: seq<nat>, i: nat, textStart: int, full: bool)

  const NONE := Slice(0, 0)
  const START := State([Item(Elem, "#document", NONE, NONE, -1)], [0], 0, -1, false)

  // What a slice of the source says.
  function Piece(h: string, s: Slice): (r: string) {
    if s.start + s.len <= |h| then h[s.start..s.start + s.len] else []
  }

  function Top(stack: seq<nat>): (p: nat) {
    if stack == [] then 0 else stack[|stack| - 1]
  }

  function TagOf(items: seq<Item>, k: nat): (t: string) {
    if k < |items| then items[k].tag else []
  }

  function Put(items: seq<Item>, x: Item): (r: seq<Item>)
    ensures items <= r
  {
    if |items| >= DOM_MAX_NODES then items else items + [x]
  }

  // The text that ran up to here becomes a node under the innermost open element.
  function Flushed(st: State): (r: State)
    ensures r.i == st.i && r.textStart < 0 && r.stack == st.stack && r.full == st.full
  {
    if st.textStart < 0 then st
    else
      var len := if st.i > st.textStart then st.i - st.textStart else 0;
      st.(textStart := -1, items := Put(st.items, Item(Text, [], NONE, Slice(st.textStart, len), Top(st.stack))))
  }

  // The open elements after an end tag: the innermost of that name and all inside it are gone; the
  // root stays.
  function Closed(items: seq<Item>, stack: seq<nat>, name: string, d: nat): (r: seq<nat>)
    requires d <= |stack|
    ensures r <= stack
  {
    if d <= 1 then stack
    else if TagOf(items, stack[d - 1]) == name then stack[..d - 1]
    else Closed(items, stack, name, d - 1)
  }

  // The open elements after those that the new one ends.
  function Implied(items: seq<Item>, stack: seq<nat>, name: string): (r: seq<nat>)
    ensures r <= stack
    decreases |stack|
  {
    if |stack| > 1 && Closes(TagOf(items, Top(stack)), name) then Implied(items, stack[..|stack| - 1], name) else stack
  }

  // Content that is not markup: one text, up to the end tag.
  function RawRead(h: string, st: State, e: nat, name: string, next: nat): (r: State)
    requires next <= |h|
    ensures next <= r.i <= |h|
  {
    var k := EndTag(h, next, "</" + name);
    st.(items := if k > next then Put(st.items, Item(Text, [], NONE, Slice(next, k - next), e)) else st.items,
        i := Past(h, Seek(h, k, '>')))
  }

  // What comes after the start tag of element e: raw text, nothing, or the inside of the element.
  function Entered(h: string, st: State, e: nat, name: string, attr: Slice, next: nat): (r: State)
    requires next <= |h|
    ensures next <= r.i <= |h|
  {
    if IsRawText(name) then RawRead(h, st, e, name, next)
    else
      var selfClosing := attr.len > 0 && attr.start + attr.len <= |h| && h[attr.start + attr.len - 1] == '/';
      var opens := !IsVoid(name) && !selfClosing && |st.stack| < DOM_DEPTH_MAX;
      st.(i := next, stack := if opens then st.stack + [e] else st.stack)
  }

  // An element that starts here.
  function Opened(h: string, st: State, name: string, attr: Slice, next: nat): (r: State)
    requires next <= |h|
    ensures !r.full ==> next <= r.i <= |h|
  {
    var stack := Implied(st.items, st.stack, name);
    var e := |st.items|;
    if e >= DOM_MAX_NODES then st.(stack := stack, full := true)
    else
      var items := st.items + [Item(Elem, name, attr, NONE, Top(stack))];
      Entered(h, st.(items := items, stack := stack), e, name, attr, next)
  }

  // A tag whose name runs from j on.
  function Named(h: string, st: State, closing: bool, j: nat): (r: State)
    requires st.i < j <= |h|
    ensures !r.full ==> st.i < r.i <= |h|
  {
    var attrStart := NameEnd(h, j, 0);
    var name := Lowered(h[j..attrStart]);
    var k := TagEnd(h, attrStart, '\0');
    var next := Past(h, k);
    if name == [] then st.(i := next)
    else if closing then st.(i := next, stack := Closed(st.items, st.stack, name, |st.stack|))
    else if IsSkipped(name) then st.(i := Past(h, Seek(h, EndTag(h, next, "</" + name), '>')))
    else Opened(h, st, name, Slice(attrStart, k - attrStart), next)
  }

  // One tag, comment or declaration, from its '<' on.
  function Tagged(h: string, st: State): (r: State)
    requires st.i < |h| && h[st.i] == '<'
    ensures !r.full ==> st.i < r.i <= |h|
  {
    var i := st.i;
    if i + 3 < |h| && h[i + 1] == '!' && h[i + 2] == '-' && h[i + 3] == '-' then st.(i := CommentEnd(h, i + 4))
    else if i + 1 < |h| && (h[i + 1] == '!' || h[i + 1] == '?') then st.(i := Past(h, Seek(h, i, '>')))
    else
      var closing := i + 1 < |h| && h[i + 1] == '/';
      Named(h, st, closing, if closing then i + 2 else i + 1)
  }

  function Stepped(h: string, st: State): (r: State)
    requires st.i < |h|
    ensures !r.full ==> st.i < r.i <= |h|
  {
    if h[st.i] != '<' then st.(textStart := if st.textStart < 0 then st.i else st.textStart, i := st.i + 1)
    else Tagged(h, Flushed(st))
  }

  // dom_parse, from a state on to its end.
  function Ran(h: string, st: State): (r: State)
    decreases |h| - st.i, if st.full then 0 else 1
  {
    if st.full then st
    else if st.i >= |h| then Flushed(st)
    else Ran(h, Stepped(h, st))
  }

  // ----- what ends what -----

  // Of the open elements above the root, the innermost of that name.
  predicate Innermost(items: seq<Item>, stack: seq<nat>, name: string, d: nat) {
    1 <= d < |stack| && TagOf(items, stack[d]) == name && NoneAbove(items, stack, name, d + 1)
  }

  predicate NoneAbove(items: seq<Item>, stack: seq<nat>, name: string, d: nat) {
    forall e :: d <= e < |stack| ==> TagOf(items, stack[e]) != name
  }

  // An end tag ends the innermost element of its name with all that is open inside it; without one
  // it does nothing.
  lemma EndTagCuts(items: seq<Item>, stack: seq<nat>, name: string)
    ensures var r := Closed(items, stack, name, |stack|);
            && (forall d: nat :: Innermost(items, stack, name, d) ==> r == stack[..d])
            && (NoneAbove(items, stack, name, 1) ==> r == stack)
  {
    forall d: nat | Innermost(items, stack, name, d)
      ensures Closed(items, stack, name, |stack|) == stack[..d]
    {
      CutsAt(items, stack, name, d, |stack|);
    }
    if NoneAbove(items, stack, name, 1) {
      CutsAt(items, stack, name, 0, |stack|);
    }
  }

  lemma {:induction false} CutsAt(items: seq<Item>, stack: seq<nat>, name: string, d: nat, e: nat)
    requires e <= |stack| && NoneAbove(items, stack, name, d + 1)
    requires if d == 0 then true else d < e && TagOf(items, stack[d]) == name
    ensures Closed(items, stack, name, e) == if d == 0 then stack else stack[..d]
  {
    if e > d + 1 {
      CutsAt(items, stack, name, d, e - 1);
    }
  }

  // A start tag ends as many of the innermost elements as it can, one inside the other, and stops at
  // the first that it cannot.
  lemma {:induction false} ImpliedPops(items: seq<Item>, stack: seq<nat>, name: string)
    ensures var r := Implied(items, stack, name);
            && (stack != [] ==> r != [])
            && (forall e :: |r| <= e < |stack| ==> Closes(TagOf(items, stack[e]), name))
            && (|r| > 1 ==> !Closes(TagOf(items, stack[|r| - 1]), name))
    decreases |stack|
  {
    hide Closes;
    if |stack| > 1 && Closes(TagOf(items, Top(stack)), name) {
      var below := stack[..|stack| - 1];
      ImpliedPops(items, below, name);
      var r := Implied(items, below, name);
      assert forall e :: |r| <= e < |below| ==> below[e] == stack[e];
    }
  }

  // ----- comments -----

  predicate ArrowAt(h: string, j: nat) {
    j + 3 <= |h| && h[j] == '-' && h[j + 1] == '-' && h[j + 2] == '>'
  }

  // A comment goes on behind the first "-->", or to the end if there is none.
  lemma {:induction false} CommentGoesTo(h: string, i: nat, j: nat)
    requires i <= j <= |h| && (forall k :: i <= k < j ==> !ArrowAt(h, k)) && (j < |h| ==> ArrowAt(h, j))
    ensures CommentEnd(h, i) == if j < |h| then j + 3 else |h|
    decreases |h| - i
  {
    if i < j {
      assert !ArrowAt(h, i);
      CommentGoesTo(h, i + 1, j);
    }
  }
}
