/**
 Attributes (userland/dom.h): kept as the raw text between the tag name and the '>', read by
 looking for a name in it, changed by writing it out again.
 */
module DomAttributes {
  import opened CssNames
  import opened CssSelector
  import DomSoup

  datatype Attribute = Attribute(name: string, value: Option<string>)

  // ----- the tokeniser of dom_set_attr -----

  function SkipSpaces(a: string, i: nat, slashes: bool): (j: nat)
    requires i <= |a|
    ensures i <= j <= |a|
    ensures forall k :: i <= k < j ==> IsSpace(a[k]) || (slashes && a[k] == '/')
    ensures j < |a| ==> !IsSpace(a[j]) && !(slashes && a[j] == '/')
    decreases |a| - i
  {
    if i < |a| && (IsSpace(a[i]) || (slashes && a[i] == '/')) then SkipSpaces(a, i + 1, slashes) else i
  }

  predicate EndsName(c: char) {
    IsSpace(c) || c == '=' || c == '>'
  }

  function NameStop(a: string, i: nat): (j: nat)
    requires i <= |a|
    ensures i <= j <= |a| && (forall k :: i <= k < j ==> !EndsName(a[k])) && (j < |a| ==> EndsName(a[j]))
    decreases |a| - i
  {
    if i < |a| && !EndsName(a[i]) then NameStop(a, i + 1) else i
  }

  predicate IsQuote(c: char) {
    c == '"' || c == '\''
  }

  // The end of a value: its closing quote, or white space when it has none.
  function ValueStop(a: string, i: nat, quote: Option<char>): (j: nat)
    requires i <= |a|
    ensures i <= j <= |a|
    ensures forall k :: i <= k < j ==> if quote.Some? then a[k] != quote.value else !IsSpace(a[k])
    ensures j < |a| ==> if quote.Some? then a[j] == quote.value else IsSpace(a[j])
    decreases |a| - i
  {
    if i < |a| && (if quote.Some? then a[i] != quote.value else !IsSpace(a[i])) then ValueStop(a, i + 1, quote) else i
  }

  datatype Token = Token(attribute: Attribute, next: nat)

  // The attribute that starts at i.
  function TokenAt(a: string, i: nat): (t: Token)
    requires i <= |a|
    ensures i <= t.next <= |a|
    ensures i < |a| && a[i] != '>' && !IsSpace(a[i]) ==> i < t.next
  {
    var ne := NameStop(a, i);
    var name := a[i..ne];
    var j := SkipSpaces(a, ne, false);
    if j < |a| && a[j] == '=' then
      var k := SkipSpaces(a, j + 1, false);
      var quote := if k < |a| && IsQuote(a[k]) then Some(a[k]) else None;
      var vs := if quote.Some? then k + 1 else k;
      var ve := ValueStop(a, vs, quote);
      Token(Attribute(name, Some(a[vs..ve])), if quote.Some? && ve < |a| then ve + 1 else ve)
    else Token(Attribute(name, None), j)
  }

  // The attributes from i on, and whether the tokeniser got to the end of them: on a bare '>' it
  // stands still for ever.
  datatype Tokens = Tokens(list: seq<Attribute>, finished: bool)

  function Tokenise(a: string, i: nat): (r: Tokens)
    requires i <= |a|
    decreases |a| - i
  {
    var s := SkipSpaces(a, i, true);
    if s == |a| then Tokens([], true)
    else if a[s] == '>' then Tokens([], false)
    else
      var t := TokenAt(a, s);
      var rest := Tokenise(a, t.next);
      Tokens([t.attribute] + rest.list, rest.finished)
  }

  // Standing still is what happens on '>', and only there.
  lemma StandsStill(a: string, i: nat)
    requires i < |a| && !IsSpace(a[i])
    ensures TokenAt(a, i).next == i <==> a[i] == '>'
  {
  }

  // ----- where it never ends -----

  // Reading the text once, a character at a time: where one is.
  datatype Place = Between | InName | AfterName | BeforeValue | InValue(quote: Option<char>)

  function Onward(p: Place, c: char): (r: Place) {
    match p
    case Between => if IsSpace(c) || c == '/' then Between else if c == '=' then BeforeValue else InName
    case InName => if IsSpace(c) then AfterName else if c == '=' then BeforeValue else InName
    case AfterName =>
      if IsSpace(c) then AfterName else if c == '=' then BeforeValue else if c == '/' then Between else InName
    case BeforeValue => if IsSpace(c) then BeforeValue else InValue(if IsQuote(c) then Some(c) else None)
    case InValue(q) => if (if q.Some? then c == q.value else IsSpace(c)) then Between else p
  }

  // A '>' that is not part of a value.
  predicate Bare(p: Place, c: char) {
    c == '>' && (p == Between || p == InName || p == AfterName)
  }

  // No '>' is met outside a value.
  predicate NoBareBracket(a: string, i: nat, p: Place)
    requires i <= |a|
    decreases |a| - i
  {
    i == |a| || (!Bare(p, a[i]) && NoBareBracket(a, i + 1, Onward(p, a[i])))
  }

  lemma {:induction false} SpacesRun(a: string, i: nat, slashes: bool, p: Place)
    requires i <= |a| && if slashes then p == Between else p == AfterName || p == BeforeValue
    ensures NoBareBracket(a, i, p) == NoBareBracket(a, SkipSpaces(a, i, slashes), p)
    decreases |a| - i
  {
    if i < |a| && (IsSpace(a[i]) || (slashes && a[i] == '/')) {
      SpacesRun(a, i + 1, slashes, p);
    }
  }

  lemma {:induction false} NameRun(a: string, i: nat)
    requires i <= |a|
    ensures NoBareBracket(a, i, InName) == NoBareBracket(a, NameStop(a, i), InName)
    decreases |a| - i
  {
    if i < |a| && !EndsName(a[i]) {
      NameRun(a, i + 1);
    }
  }

  lemma {:induction false} ValueRun(a: string, i: nat, q: Option<char>)
    requires i <= |a|
    ensures var e := ValueStop(a, i, q);
            NoBareBracket(a, i, InValue(q)) == NoBareBracket(a, if e < |a| then e + 1 else e, Between)
    decreases |a| - i
  {
    if i < |a| && (if q.Some? then a[i] != q.value else !IsSpace(a[i])) {
      ValueRun(a, i + 1, q);
    }
  }

  // Where the tokeniser goes on behind the value after an equals sign.
  function BehindValue(a: string, j: nat): (n: nat)
    requires j < |a|
    ensures n <= |a|
  {
    var k := SkipSpaces(a, j + 1, false);
    var quote := if k < |a| && IsQuote(a[k]) then Some(a[k]) else None;
    var ve := ValueStop(a, if quote.Some? then k + 1 else k, quote);
    if quote.Some? && ve < |a| then ve + 1 else ve
  }

  lemma AfterEquals(a: string, j: nat)
    requires j < |a|
    ensures NoBareBracket(a, j + 1, BeforeValue) == NoBareBracket(a, BehindValue(a, j), Between)
  {
    hide SkipSpaces, ValueStop, NoBareBracket;
    SpacesRun(a, j + 1, false, BeforeValue);
    var k := SkipSpaces(a, j + 1, false);
    NothingBare(a, BeforeValue);
    NothingBare(a, Between);
    if k < |a| {
      ValueStarts(a, k);
      if IsQuote(a[k]) {
        ValueRun(a, k + 1, Some(a[k]));
      } else {
        ValueRun(a, k, None);
        EndOfBareValue(a, ValueStop(a, k, None));
      }
    }
  }

  lemma ValueStarts(a: string, k: nat)
    requires k < |a| && !IsSpace(a[k])
    ensures NoBareBracket(a, k, BeforeValue)
         == if IsQuote(a[k]) then NoBareBracket(a, k + 1, InValue(Some(a[k]))) else NoBareBracket(a, k, InValue(None))
  {
  }

  // The white space behind a value without quotes may be read twice.
  lemma EndOfBareValue(a: string, e: nat)
    requires e < |a| ==> IsSpace(a[e])
    ensures e < |a| ==> NoBareBracket(a, e, Between) == NoBareBracket(a, e + 1, Between)
  {
  }

  // Places from which one character leads to the same.
  lemma SamePlace(a: string, i: nat)
    requires i < |a|
    ensures !IsSpace(a[i]) && a[i] != '/' ==> NoBareBracket(a, i, Between) == NoBareBracket(a, i, InName)
    ensures EndsName(a[i]) ==> NoBareBracket(a, i, InName) == NoBareBracket(a, i, AfterName)
    ensures !IsSpace(a[i]) && a[i] != '=' ==> NoBareBracket(a, i, AfterName) == NoBareBracket(a, i, Between)
    ensures a[i] == '=' ==> NoBareBracket(a, i, AfterName) == NoBareBracket(a, i + 1, BeforeValue)
  {
  }

  lemma NothingBare(a: string, p: Place)
    ensures NoBareBracket(a, |a|, p)
  {
  }

  lemma TokenNext(a: string, s: nat)
    requires s <= |a|
    ensures var j := SkipSpaces(a, NameStop(a, s), false);
            TokenAt(a, s).next == if j < |a| && a[j] == '=' then BehindValue(a, j) else j
  {
    hide SkipSpaces, NameStop, ValueStop;
  }

  // One attribute is stepped over.
  lemma TokenRun(a: string, s: nat)
    requires s < |a| && !IsSpace(a[s]) && a[s] != '/' && a[s] != '>'
    ensures NoBareBracket(a, s, Between) == NoBareBracket(a, TokenAt(a, s).next, Between)
  {
    hide SkipSpaces, NameStop, NoBareBracket, TokenAt, BehindValue;
    var ne := NameStop(a, s);
    var j := SkipSpaces(a, ne, false);
    TokenNext(a, s);
    SamePlace(a, s);
    NameRun(a, s);
    NothingBare(a, InName);
    NothingBare(a, AfterName);
    NothingBare(a, Between);
    if ne < |a| {
      SamePlace(a, ne);
      SpacesRun(a, ne, false, AfterName);
      if j < |a| {
        SamePlace(a, j);
        if a[j] == '=' {
          AfterEquals(a, j);
        }
      }
    }
  }

  // The tokeniser gets to the end of a text exactly when no '>' is met outside a value.
  lemma {:induction false} EndsExactly(a: string, i: nat)
    requires i <= |a|
    ensures Tokenise(a, i).finished <==> NoBareBracket(a, i, Between)
    decreases |a| - i
  {
    hide TokenAt, SkipSpaces;
    SpacesRun(a, i, true, Between);
    var s := SkipSpaces(a, i, true);
    if s < |a| && a[s] != '>' {
      TokenRun(a, s);
      EndsExactly(a, TokenAt(a, s).next);
    }
  }

  const MARKUP := "<p a\"b>c\">"

  lemma MarkupIsOneTag()
    ensures DomSoup.NameEnd(MARKUP, 1, 0) == 2 && DomSoup.TagEnd(MARKUP, 2, '\0') == 9
  {
    var h := MARKUP;
    assert DomSoup.TagEnd(h, 8, '"') == 9;
    assert DomSoup.TagEnd(h, 5, '"') == 9;
  }

  lemma MarkupIsBare()
    ensures var a := MARKUP[2..9]; a == " a\"b>c\"" && !NoBareBracket(a, 0, Between)
  {
    var a := MARKUP[2..9];
    assert a == " a\"b>c\"";
    assert !NoBareBracket(a, 4, InName);
    assert !NoBareBracket(a, 2, InName);
  }

  // <p a"b>c">: to the parser the quoted '>' is part of the tag, to the tokeniser the quote is part of
  // a name, so changing an attribute of that element never ends.
  lemma OrdinaryMarkupHangs()
    ensures var e := DomSoup.NameEnd(MARKUP, 1, 0);
            var k := DomSoup.TagEnd(MARKUP, 2, '\0');
            e == 2 && k == 9 && !Tokenise(MARKUP[2..9], 0).finished
  {
    hide Tokenise, NoBareBracket;
    MarkupIsOneTag();
    MarkupIsBare();
    EndsExactly(MARKUP[2..9], 0);
  }

  // ----- writing -----

  function Written(x: Attribute): (s: string) {
    if x.value.None? then x.name else x.name + "=\"" + x.value.value + "\""
  }

  function WrittenAll(l: seq<Attribute>): (s: string) {
    if l == [] then [] else
      var rest := WrittenAll(l[1..]);
      Written(l[0]) + if |l| == 1 then [] else " " + rest
  }

  // A name the tokeniser reads as one: not empty, nothing in it that ends a name, no slash first.
  predicate GoodName(n: string) {
    n != [] && n[0] != '/' && forall k :: 0 <= k < |n| ==> !EndsName(n[k])
  }

  // What the tokeniser can read as an attribute: a good name, or a value without a name.
  predicate Nameable(x: Attribute) {
    GoodName(x.name) || (x.name == [] && x.value.Some?)
  }

  predicate AllNameable(l: seq<Attribute>) {
    forall k :: 0 <= k < |l| ==> Nameable(l[k])
  }

  // No value without a name stands right behind a name without a value.
  predicate Apart(l: seq<Attribute>) {
    forall k :: 0 <= k < |l| - 1 ==> TakesNothing(l[k], l[k + 1])
  }

  predicate TakesNothing(x: Attribute, y: Attribute) {
    y.name == [] ==> x.value.Some?
  }

  predicate QuoteFree(x: Attribute) {
    x.value.Some? ==> '"' !in x.value.value
  }

  predicate AllQuoteFree(l: seq<Attribute>) {
    forall k :: 0 <= k < |l| ==> QuoteFree(l[k])
  }

  // ----- reading what was written -----

  // A value with a double quote in it is cut off there.
  function Cut(v: string): (r: string) {
    if v == [] || v[0] == '"' then [] else [v[0]] + Cut(v[1..])
  }

  lemma {:induction false} CutIs(v: string)
    ensures |Cut(v)| <= |v| && Cut(v) == v[..|Cut(v)|] && '"' !in Cut(v)
    ensures |Cut(v)| < |v| ==> v[|Cut(v)|] == '"'
    ensures Cut(v) == v <==> '"' !in v
  {
    if v != [] && v[0] != '"' {
      CutIs(v[1..]);
      assert v == [v[0]] + v[1..];
    }
  }

  // What comes after an attribute: nothing, or a space and then something else.
  predicate Separated(after: string) {
    after == [] || (|after| > 1 && after[0] == ' ' && !IsSpace(after[1]))
  }

  // It begins with an equals sign.
  predicate Gives(after: string) {
    |after| > 1 && after[1] == '='
  }

  lemma SpacesStopAt(a: string, i: nat, slashes: bool)
    requires i <= |a| && (i < |a| ==> !IsSpace(a[i]) && !(slashes && a[i] == '/'))
    ensures SkipSpaces(a, i, slashes) == i
  {
  }

  lemma ReadsName(before: string, name: string, after: string)
    requires (forall k :: 0 <= k < |name| ==> !EndsName(name[k])) && (after == [] || EndsName(after[0]))
    ensures var a := before + name + after;
            NameStop(a, |before|) == |before| + |name| && a[|before|..|before| + |name|] == name
  {
    hide EndsName;
    var a := before + name + after;
    forall k | |before| <= k < |before| + |name|
      ensures !EndsName(a[k])
    {
      assert a[k] == name[k - |before|];
    }
    assert after != [] ==> a[|before| + |name|] == after[0];
  }

  // A name without a value, unless an equals sign follows: then it has one.
  lemma ReadsBare(before: string, name: string, after: string)
    requires GoodName(name) && Separated(after)
    ensures var t := TokenAt(before + name + after, |before|);
            if Gives(after) then t.attribute.value.Some?
            else t == Token(Attribute(name, None), |before| + |name| + if after == [] then 0 else 1)
  {
    hide NameStop, ValueStop, EndsName;
    assert after != [] ==> EndsName(after[0]) by { SpaceEndsName(); }
    ReadsName(before, name, after);
    var a, e := before + name + after, |before| + |name|;
    if after == [] {
      SpacesStopAt(a, e, false);
    } else {
      assert a[e] == after[0] && a[e + 1] == after[1];
      SpacesStopAt(a, e + 1, false);
    }
  }

  lemma SpaceEndsName()
    ensures EndsName(' ') && EndsName('=')
  {
  }

  // A name, an equals sign, a double quote, n bytes and the closing quote.
  lemma TokenWithValue(a: string, i: nat, e: nat, n: nat)
    requires i <= e && e + 2 + n < |a| && NameStop(a, i) == e
    requires a[e] == '=' && a[e + 1] == '"' && a[e + 2 + n] == '"'
    requires forall k :: e + 2 <= k < e + 2 + n ==> a[k] != '"'
    ensures TokenAt(a, i) == Token(Attribute(a[i..e], Some(a[e + 2..e + 2 + n])), e + 3 + n)
  {
    hide NameStop, ValueStop, SkipSpaces;
    SpacesStopAt(a, e, false);
    SpacesStopAt(a, e + 1, false);
  }

  // v stands in a, quoted, after an equals sign at e.
  predicate Quoted(a: string, e: nat, v: string) {
    && e + |v| + 3 <= |a|
    && a[e] == '=' && a[e + 1] == '"' && a[e + 2..e + 2 + |v|] == v && a[e + 2 + |v|] == '"'
  }

  lemma QuotedStands(front: string, v: string, after: string)
    ensures Quoted(front + ("=\"" + v + "\"" + after), |front|, v)
  {
    var a := front + ("=\"" + v + "\"" + after);
    assert a[|front| + 2..|front| + 2 + |v|] == v;
  }

  lemma QuotedCut(a: string, i: nat, e: nat, v: string)
    requires i <= e && Quoted(a, e, v) && NameStop(a, i) == e
    ensures TokenAt(a, i) == Token(Attribute(a[i..e], Some(Cut(v))), e + 3 + |Cut(v)|)
  {
    hide NameStop, TokenAt, Cut;
    CutIs(v);
    var n := |Cut(v)|;
    var w := a[e + 2..e + 2 + |v|];
    assert w[..n] == a[e + 2..e + 2 + n];
    assert n < |v| ==> w[n] == a[e + 2 + n];
    forall k | e + 2 <= k < e + 2 + n
      ensures a[k] != '"'
    {
      assert a[k] == w[k - (e + 2)] && v[k - (e + 2)] == Cut(v)[k - (e + 2)];
    }
    TokenWithValue(a, i, e, n);
  }

  lemma ReadsValue(before: string, name: string, v: string, after: string)
    requires forall k :: 0 <= k < |name| ==> !EndsName(name[k])
    ensures TokenAt(before + name + ("=\"" + v + "\"" + after), |before|)
         == Token(Attribute(name, Some(Cut(v))), |before| + |name| + 3 + |Cut(v)|)
  {
    hide NameStop, TokenAt, Cut, EndsName, Quoted;
    var rest := "=\"" + v + "\"" + after;
    SpaceEndsName();
    ReadsName(before, name, rest);
    QuotedStands(before + name, v, after);
    QuotedCut(before + name + rest, |before|, |before + name|, v);
  }

  // An attribute starts with something the tokeniser neither skips nor stands still on.
  lemma StartsWell(before: string, x: Attribute, after: string)
    requires Nameable(x)
    ensures var a := before + Written(x) + after;
            |before| < |a| && !IsSpace(a[|before|]) && a[|before|] != '/' && a[|before|] != '>'
  {
    assert (before + Written(x) + after)[|before|] == Written(x)[0];
    assert x.name != [] ==> !EndsName(x.name[0]);
  }

  // What WrittenAll puts behind the first attribute.
  function Behind(l: seq<Attribute>): (after: string)
    requires l != []
  {
    if |l| == 1 then [] else " " + WrittenAll(l[1..])
  }

  lemma BehindSeparated(l: seq<Attribute>)
    requires l != [] && AllNameable(l)
    ensures Separated(Behind(l)) && WrittenAll(l) == Written(l[0]) + Behind(l)
    ensures |l| > 1 ==> (Gives(Behind(l)) <==> l[1].name == [])
    ensures |l| == 1 ==> !Gives(Behind(l))
  {
    hide Written, Nameable;
    if |l| > 1 {
      var w := WrittenAll(l[1..]);
      assert l[1..][0] == l[1] && Nameable(l[1]);
      FirstWritten(l[1]);
      assert w[0] == Written(l[1])[0];
    }
  }

  lemma FirstWritten(x: Attribute)
    requires Nameable(x)
    ensures Written(x) != [] && !IsSpace(Written(x)[0]) && (Written(x)[0] == '=' <==> x.name == [])
  {
    assert x.name != [] ==> !EndsName(x.name[0]);
  }

  // What is read of a written attribute.
  function Read(x: Attribute): (r: Attribute) {
    Attribute(x.name, if x.value.None? then None else Some(Cut(x.value.value)))
  }

  function Before(x: Attribute, r: Tokens): (t: Tokens) {
    Tokens([x] + r.list, r.finished)
  }

  // A name without a value takes the value that follows it.
  predicate Takes(x: Attribute, after: string) {
    x.value.None? && Gives(after)
  }

  // The token at the start of a written attribute.
  lemma ReadsToken(before: string, x: Attribute, after: string)
    requires Nameable(x) && Separated(after)
    ensures var a := before + Written(x) + after;
            var t := TokenAt(a, |before|);
            && (Takes(x, after) ==> t.attribute != x)
            && (!Takes(x, after) ==> t.attribute == Read(x))
            && (!Takes(x, after) && QuoteFree(x) ==>
                  t.next == |before + Written(x)| + if x.value.None? && after != [] then 1 else 0)
  {
    hide TokenAt, EndsName, Cut, Separated;
    if x.value.None? {
      ReadsBare(before, x.name, after);
    } else {
      var v := x.value.value;
      ReadsValue(before, x.name, v, after);
      assert before + Written(x) + after == before + x.name + ("=\"" + v + "\"" + after);
      CutIs(v);
    }
  }

  lemma TokeniseFrom(a: string, i: nat)
    requires i < |a| && !IsSpace(a[i]) && a[i] != '/' && a[i] != '>'
    ensures var t := TokenAt(a, i);
            Tokenise(a, i) == Before(t.attribute, Tokenise(a, t.next))
  {
    hide TokenAt;
    SpacesStopAt(a, i, true);
  }

  lemma SpaceSkipped(a: string, i: nat)
    requires i < |a| && a[i] == ' '
    ensures Tokenise(a, i) == Tokenise(a, i + 1)
  {
    hide TokenAt;
  }

  lemma ReadsOne(before: string, x: Attribute, after: string)
    requires Nameable(x) && Separated(after)
    ensures var a := before + Written(x) + after;
            var n := |before + Written(x)| + if after == [] then 0 else 1;
            && n <= |a|
            && Tokenise(a, |before|).list != []
            && (Takes(x, after) ==> Tokenise(a, |before|).list[0] != x)
            && (!Takes(x, after) ==> Tokenise(a, |before|).list[0] == Read(x))
            && (!Takes(x, after) && QuoteFree(x) ==> Tokenise(a, |before|) == Before(x, Tokenise(a, n)))
  {
    hide TokenAt, Tokenise, Written, Nameable, Read, QuoteFree, Takes;
    var a := before + Written(x) + after;
    ReadsToken(before, x, after);
    StartsWell(before, x, after);
    TokeniseFrom(a, |before|);
    ReadWhole(x);
    if after != [] {
      assert a[|before + Written(x)|] == ' ';
      SpaceSkipped(a, |before + Written(x)|);
    }
  }

  // All before the second attribute, and all from it on.
  function Past(before: string, l: seq<Attribute>): (r: string)
    requires l != []
  {
    before + Written(l[0]) + if |l| == 1 then "" else " "
  }

  lemma PastSplits(before: string, l: seq<Attribute>)
    requires l != []
    ensures before + Written(l[0]) + Behind(l) == Past(before, l) + WrittenAll(l[1..])
  {
    hide Written;
    var w := WrittenAll(l[1..]);
    if |l| == 1 {
      assert w == [];
    } else {
      assert before + Written(l[0]) + (" " + w) == before + Written(l[0]) + " " + w;
    }
  }

  // The first two attributes do not run together.
  predicate FirstApart(l: seq<Attribute>) {
    |l| > 1 ==> TakesNothing(l[0], l[1])
  }

  // One step of reading back: the first attribute, whole or cut, and then the rest.
  lemma ReadsFirst(before: string, l: seq<Attribute>)
    requires l != [] && AllNameable(l)
    ensures var a := before + WrittenAll(l);
            && a == Past(before, l) + WrittenAll(l[1..])
            && Tokenise(a, |before|).list != []
            && (Tokenise(a, |before|).list[0] == l[0] <==> FirstApart(l) && QuoteFree(l[0]))
            && (FirstApart(l) && QuoteFree(l[0]) ==>
                  Tokenise(a, |before|) == Before(l[0], Tokenise(a, |Past(before, l)|)))
  {
    hide Tokenise, Written, Nameable, WrittenAll, Read, QuoteFree, Separated, Before, Past, Behind, Gives;
    var x := l[0];
    BehindSeparated(l);
    assert before + WrittenAll(l) == before + Written(x) + Behind(l);
    PastSplits(before, l);
    PastLength(before, l);
    ReadsOne(before, x, Behind(l));
    ReadWhole(x);
  }

  lemma PastLength(before: string, l: seq<Attribute>)
    requires l != []
    ensures |Past(before, l)| == |before + Written(l[0])| + if Behind(l) == [] then 0 else 1
  {
  }

  lemma ReadWhole(x: Attribute)
    ensures Read(x) == x <==> QuoteFree(x)
  {
    if x.value.Some? {
      CutIs(x.value.value);
    }
  }

  lemma RestOf(l: seq<Attribute>)
    requires l != []
    ensures AllQuoteFree(l) <==> QuoteFree(l[0]) && AllQuoteFree(l[1..])
    ensures Apart(l) <==> FirstApart(l) && Apart(l[1..])
    ensures AllNameable(l) ==> AllNameable(l[1..])
  {
    hide QuoteFree, Nameable, TakesNothing;
    var r := l[1..];
    assert forall k :: 0 <= k < |r| ==> r[k] == l[k + 1];
    if Apart(r) && FirstApart(l) {
      forall k | 0 <= k < |l| - 1
        ensures TakesNothing(l[k], l[k + 1])
      {
        assert k > 0 ==> TakesNothing(r[k - 1], r[k - 1 + 1]);
      }
    }
    if Apart(l) {
      forall k | 0 <= k < |r| - 1
        ensures TakesNothing(r[k], r[k + 1])
      {
        assert TakesNothing(l[k + 1], l[k + 1 + 1]);
      }
    }
  }

  // Reading back what was written gives the list back exactly when no value has a double quote and no
  // value without a name runs together with a name without a value.
  lemma {:induction false} ReadsBack(before: string, l: seq<Attribute>)
    requires AllNameable(l)
    ensures Tokenise(before + WrittenAll(l), |before|) == Tokens(l, true) <==> AllQuoteFree(l) && Apart(l)
    decreases |l|
  {
    hide WrittenAll, Written, Nameable, Read, QuoteFree, AllQuoteFree, Past, AllNameable, Apart, FirstApart, Tokenise;
    if l == [] {
      ReadsNothing(before);
    } else {
      var a := before + WrittenAll(l);
      ReadsFirst(before, l);
      RestOf(l);
      if FirstApart(l) && QuoteFree(l[0]) {
        ReadsBack(Past(before, l), l[1..]);
        var r := Tokenise(a, |Past(before, l)|);
        assert ([l[0]] + r.list)[1..] == r.list;
        assert l == [l[0]] + l[1..];
      }
    }
  }

  lemma ReadsNothing(before: string)
    ensures Tokenise(before + WrittenAll([]), |before|) == Tokens([], true) && AllQuoteFree([]) && Apart([])
  {
    assert before + WrittenAll([]) == before;
  }

  // ----- the names a tokeniser can read -----

  // Every name read is a good one, unless it is empty: a text that starts with its equals sign.
  lemma {:induction false} NamesAreGood(a: string, i: nat)
    requires i <= |a|
    ensures forall x :: x in Tokenise(a, i).list ==> Nameable(x)
    decreases |a| - i
  {
    var s := SkipSpaces(a, i, true);
    if s < |a| && a[s] != '>' {
      var t := TokenAt(a, s);
      NamesAreGood(a, t.next);
      NameIsGood(a, s);
    }
  }

  lemma NameIsGood(a: string, s: nat)
    requires s < |a| && !IsSpace(a[s]) && a[s] != '/' && a[s] != '>'
    ensures Nameable(TokenAt(a, s).attribute)
  {
    var e := NameStop(a, s);
    if a[s] == '=' {
      SpacesStopAt(a, s, false);
    } else {
      assert s < e;
      assert a[s..e][0] == a[s];
    }
  }

  // ----- dom_set_attr -----

  // The list without the attribute of that name, whatever its case.
  function Without(l: seq<Attribute>, name: string): (r: seq<Attribute>)
    ensures forall x :: x in r <==> x in l && !SameName(x.name, name)
  {
    if l == [] then [] else
      (if SameName(l[0].name, name) then [] else [l[0]]) + Without(l[1..], name)
  }

  function Changed(l: seq<Attribute>, name: string, value: Option<string>): (r: seq<Attribute>) {
    Without(l, name) + if value.Some? then [Attribute(name, value)] else []
  }

  const BufSize: nat := 2048

  // One attribute behind the others, as far as the buffer goes.
  function PutText(buf: string, s: string): (r: string)
    ensures |buf| <= BufSize - 2 ==> |r| <= BufSize - 2
    ensures |buf| + |s| <= BufSize - 2 ==> r == buf + s
  {
    if |buf| >= BufSize - 2 then buf
    else if |buf| + |s| <= BufSize - 2 then buf + s
    else buf + s[..BufSize - 2 - |buf|]
  }

  function PutAttribute(buf: string, x: Attribute): (r: string)
    requires |buf| <= BufSize - 2
    ensures |r| <= BufSize - 2
    ensures |Joined(buf, Written(x))| <= BufSize - 2 ==> r == Joined(buf, Written(x))
  {
    var b := PutText(if buf != [] then PutText(buf, " ") else buf, x.name);
    if x.value.None? then b else PutValue(b, x.value.value)
  }

  function PutValue(b: string, v: string): (r: string)
    requires |b| <= BufSize - 2
    ensures |r| <= BufSize - 2
    ensures |b| + |v| + 3 <= BufSize - 2 ==> r == b + "=\"" + v + "\""
  {
    PutText(PutText(if |b| < BufSize - 3 then b + "=\"" else b, v), "\"")
  }

  function Joined(buf: string, s: string): (r: string) {
    if buf == [] then s else buf + " " + s
  }

  lemma {:induction false} WrittenMore(l: seq<Attribute>, x: Attribute)
    requires l != []
    ensures WrittenAll(l + [x]) == WrittenAll(l) + " " + Written(x)
  {
    assert (l + [x])[1..] == l[1..] + [x];
    if |l| > 1 {
      WrittenMore(l[1..], x);
      calc {
        WrittenAll(l + [x]);
        Written(l[0]) + (" " + (WrittenAll(l[1..]) + " " + Written(x)));
        Written(l[0]) + (" " + WrittenAll(l[1..])) + " " + Written(x);
      }
    } else {
      assert l + [x] == [l[0], x];
      assert WrittenAll([x]) == Written(x);
    }
  }

  predicate Visible(l: seq<Attribute>) {
    forall x :: x in l ==> Written(x) != []
  }

  lemma WrittenJoined(l: seq<Attribute>, x: Attribute)
    requires Visible(l)
    ensures WrittenAll(l + [x]) == Joined(WrittenAll(l), Written(x))
  {
    if l == [] {
      assert l + [x] == [x];
    } else {
      WrittenMore(l, x);
      assert l[0] in l;
    }
  }

  lemma {:induction false} WithoutMore(l: seq<Attribute>, x: Attribute, name: string)
    ensures Without(l + [x], name) == Without(l, name) + if SameName(x.name, name) then [] else [x]
  {
    if l == [] {
      assert l + [x] == [x];
    } else {
      assert (l + [x])[1..] == l[1..] + [x];
      WithoutMore(l[1..], x, name);
    }
  }

  // The attributes in the buffer, one after the other, as far as they go.
  function PutAll(l: seq<Attribute>): (buf: string)
    ensures |buf| <= BufSize - 2
  {
    if l == [] then [] else PutAttribute(PutAll(l[..|l| - 1]), l[|l| - 1])
  }

  // All that dom_set_attr leaves in the buffer, for a text with those attributes.
  function Rewritten(l: seq<Attribute>, name: string, value: Option<string>): (buf: string)
    ensures |buf| < BufSize
  {
    var kept := PutAll(Without(l, name));
    if value.None? then kept else
      var whole := (if kept != [] then PutText(kept, " ") else kept) + Written(Attribute(name, value));
      if |whole| < BufSize then whole else whole[..BufSize - 1]
  }

  // dom_set_attr: the text written in place of the old one.
  method SetAttr(a: string, name: string, value: Option<string>) returns (buf: string)
    requires NoBareBracket(a, 0, Between)
    ensures buf == Rewritten(Tokenise(a, 0).list, name, value)
  {
    hide Written, PutAttribute, Without, SkipSpaces, TokenAt, SameName, NoBareBracket, PutText, PutAll;
    EndsExactly(a, 0);
    buf := [];
    var i: nat := 0;
    ghost var done: seq<Attribute> := [];
    PutNothing(name);
    while true
      invariant i <= |a|
      invariant Tokenise(a, 0) == Tokens(done + Tokenise(a, i).list, Tokenise(a, i).finished)
      invariant buf == PutAll(Without(done, name))
      decreases |a| - i
    {
      var s := SkipSpaces(a, i, true);
      if s == |a| {
        assert done + [] == done;
        break;
      }
      var t := TokenAt(a, s);
      ghost var rest := Tokenise(a, t.next).list;
      assert done + ([t.attribute] + rest) == done + [t.attribute] + rest;
      PutOneMore(done, t.attribute, name);
      if !SameName(t.attribute.name, name) {
        buf := PutAttribute(buf, t.attribute);
      }
      done := done + [t.attribute];
      i := t.next;
    }
    if value.Some? {
      var whole := (if buf != [] then PutText(buf, " ") else buf) + Written(Attribute(name, value));
      buf := if |whole| < BufSize then whole else whole[..BufSize - 1];
    }
  }

  lemma PutNothing(name: string)
    ensures PutAll(Without([], name)) == []
  {
  }

  lemma PutOneMore(done: seq<Attribute>, x: Attribute, name: string)
    ensures PutAll(Without(done + [x], name))
         == if SameName(x.name, name) then PutAll(Without(done, name)) else PutAttribute(PutAll(Without(done, name)), x)
  {
    hide SameName, PutAttribute, Without;
    WithoutMore(done, x, name);
    var k := Without(done, name);
    assert k + [] == k && (k + [x])[..|k|] == k;
  }

  lemma {:induction false} PutAllFits(l: seq<Attribute>)
    requires Visible(l) && |WrittenAll(l)| <= BufSize - 2
    ensures PutAll(l) == WrittenAll(l)
    decreases |l|
  {
    hide PutAttribute, Written, WrittenAll;
    if l == [] {
      WrittenNothing();
    } else {
      var k, x := l[..|l| - 1], l[|l| - 1];
      assert l == k + [x];
      WrittenJoined(k, x);
      PutAllFits(k);
    }
  }

  lemma WrittenNothing()
    ensures WrittenAll([]) == []
  {
  }

  // What stays in the buffer is the changed list written out, exactly when that fits.
  lemma RewrittenIsWhole(a: string, name: string, value: Option<string>)
    ensures var l := Tokenise(a, 0).list;
            var whole := WrittenAll(Changed(l, name, value));
            Rewritten(l, name, value) == whole <==> |whole| <= if value.Some? then BufSize - 1 else BufSize - 2
  {
    hide Tokenise, WrittenAll, PutAll, Written, Without, GoodName;
    var l := Tokenise(a, 0).list;
    var k := Without(l, name);
    NamesAreGood(a, 0);
    forall x | x in k
      ensures Written(x) != []
    {
      GoodIsVisible(x);
    }
    if value.None? {
      assert k + [] == k;
      if |WrittenAll(k)| <= BufSize - 2 {
        PutAllFits(k);
      }
    } else {
      var x := Attribute(name, value);
      WrittenJoined(k, x);
      ValueIsWritten(x);
      if |WrittenAll(k + [x])| < BufSize {
        PutAllFits(k);
      }
    }
  }

  lemma ValueIsWritten(x: Attribute)
    requires x.value.Some?
    ensures |Written(x)| >= 3
  {
  }

  lemma GoodIsVisible(x: Attribute)
    requires Nameable(x)
    ensures Written(x) != []
  {
  }

  predicate IsName(n: string) {
    n == [] || GoodName(n)
  }

  lemma KeptNameable(a: string, name: string)
    ensures AllNameable(Without(Tokenise(a, 0).list, name))
  {
    hide Tokenise, Nameable, Without;
    NamesAreGood(a, 0);
    var k := Without(Tokenise(a, 0).list, name);
    forall i | 0 <= i < |k|
      ensures Nameable(k[i])
    {
      assert k[i] in k;
    }
  }

  // What dom_set_attr wrote reads as the old list without that name and the new value at its end,
  // exactly when the name is one that can be read (or there is none), neither the value nor what was
  // kept has a double quote in it, and no value without a name comes to stand behind a bare name.
  lemma SetThenTokenise(a: string, name: string, v: string)
    ensures var kept := Without(Tokenise(a, 0).list, name);
            var wanted := kept + [Attribute(name, Some(v))];
            var written := WrittenAll(Changed(Tokenise(a, 0).list, name, Some(v)));
            Tokenise(written, 0) == Tokens(wanted, true) <==> IsName(name) && '"' !in v && AllQuoteFree(kept) && Apart(wanted)
  {
    hide Tokenise, WrittenAll, GoodName, Without, Apart, AllQuoteFree;
    var x := Attribute(name, Some(v));
    var k := Without(Tokenise(a, 0).list, name);
    var c := k + [x];
    KeptNameable(a, name);
    MoreNameable(k, x);
    MoreQuoteFree(k, x);
    assert "" + WrittenAll(c) == WrittenAll(c) && |""| == 0;
    if Nameable(x) {
      hide Nameable, AllNameable;
      ReadsBack("", c);
    } else {
      NamesAreGood(WrittenAll(c), 0);
      assert x in c;
    }
  }

  lemma MoreNameable(k: seq<Attribute>, x: Attribute)
    requires AllNameable(k)
    ensures Nameable(x) ==> AllNameable(k + [x])
  {
    hide Nameable;
  }

  lemma MoreQuoteFree(k: seq<Attribute>, x: Attribute)
    ensures AllQuoteFree(k + [x]) <==> AllQuoteFree(k) && QuoteFree(x)
  {
    hide QuoteFree;
    var c := k + [x];
    assert c[|k|] == x && forall i :: 0 <= i < |k| ==> c[i] == k[i];
  }

  // Taking an attribute away (no value) leaves the others as they were, under the same conditions.
  lemma RemoveThenTokenise(a: string, name: string)
    ensures var kept := Without(Tokenise(a, 0).list, name);
            var written := WrittenAll(Changed(Tokenise(a, 0).list, name, None));
            Tokenise(written, 0) == Tokens(kept, true) <==> AllQuoteFree(kept) && Apart(kept)
  {
    hide Tokenise, WrittenAll, Without, Apart, AllQuoteFree, AllNameable;
    var k := Without(Tokenise(a, 0).list, name);
    KeptNameable(a, name);
    ReadsBack("", k);
    assert "" + WrittenAll(k) == WrittenAll(k) && k + [] == k;
  }

  // A bare name, an id and a value without a name, in this order.
  const THREE := [Attribute("c", None), Attribute("id", Some("1")), Attribute([], Some("v"))]

  lemma ThreeNameable()
    ensures AllNameable(THREE) && AllQuoteFree(THREE) && Apart(THREE)
  {
  }

  lemma ThreeWithoutId()
    ensures Without(THREE, "id") == [THREE[0], THREE[2]] && !Apart([THREE[0], THREE[2]] + [Attribute("id", Some("y"))])
  {
    hide SameName;
    NotId();
    assert THREE[1..] == [THREE[1], THREE[2]] && THREE[2..] == [THREE[2]] && THREE[3..] == [];
    assert Without(THREE[2..], "id") == [THREE[2]];
    assert Without(THREE[1..], "id") == [THREE[2]];
    var all := [THREE[0], THREE[2]] + [Attribute("id", Some("y"))];
    assert !TakesNothing(all[0], all[0 + 1]);
  }

  lemma NotId()
    ensures !SameName("c", "id") && SameName("id", "id") && !SameName([], "id")
  {
    assert |Lowered("c")| == 1 && |Lowered("id")| == 2 && |Lowered([])| == 0;
  }

  // c id="1" ="v" reads as those three; setting the id writes c ="v" id="y", and c has taken the value.
  lemma RunsTogether()
    ensures Tokenise(WrittenAll(THREE), 0) == Tokens(THREE, true)
    ensures Tokenise(WrittenAll(Changed(THREE, "id", Some("y"))), 0)
         != Tokens(Without(THREE, "id") + [Attribute("id", Some("y"))], true)
  {
    hide Tokenise, WrittenAll, Without, Apart, AllQuoteFree, AllNameable, GoodName, THREE;
    ThreeNameable();
    ThreeWithoutId();
    ReadsBack("", THREE);
    assert "" + WrittenAll(THREE) == WrittenAll(THREE);
    SetThenTokenise(WrittenAll(THREE), "id", "y");
  }

  // ----- dom_attr_raw -----

  // The wanted name, in any case, stands at i.
  predicate Spells(a: string, i: nat, want: string) {
    i + |want| <= |a| && forall k :: 0 <= k < |want| ==> Lower(a[i + k]) == want[k]
  }

  // It stands there as a word, with an equals sign behind it.
  predicate Hit(a: string, i: nat, want: string) {
    && Spells(a, i, want)
    && (i == 0 || IsSpace(a[i - 1]))
    && var j := SkipSpaces(a, i + |want|, false);
       j < |a| && a[j] == '='
  }

  function RawStop(a: string, i: nat, quote: Option<char>): (j: nat)
    requires i <= |a|
    ensures i <= j <= |a|
    ensures forall k :: i <= k < j ==> if quote.Some? then a[k] != quote.value else !IsSpace(a[k]) && a[k] != '>'
    ensures j < |a| ==> if quote.Some? then a[j] == quote.value else IsSpace(a[j]) || a[j] == '>'
    decreases |a| - i
  {
    if i < |a| && (if quote.Some? then a[i] != quote.value else !IsSpace(a[i]) && a[i] != '>')
      then RawStop(a, i + 1, quote) else i
  }

  // The value behind a hit.
  function RawValue(a: string, i: nat, want: string): (v: string)
    requires Hit(a, i, want)
  {
    var j := SkipSpaces(a, SkipSpaces(a, i + |want|, false) + 1, false);
    if j < |a| && IsQuote(a[j]) then a[j + 1..RawStop(a, j + 1, Some(a[j]))]
    else a[j..RawStop(a, j, None)]
  }

  predicate NoHits(a: string, lo: nat, hi: nat, want: string) {
    forall i :: lo <= i < hi ==> !Hit(a, i, want)
  }

  // The first hit from i on, or -1.
  function FirstHit(a: string, i: nat, want: string): (k: int)
    ensures k == -1 || k >= i
    ensures k >= 0 ==> Hit(a, k, want) && NoHits(a, i, k, want)
    ensures k < 0 ==> NoHits(a, i, |a| + 1, want)
    decreases |a| - i
  {
    if i > |a| then -1 else if Hit(a, i, want) then i else FirstHit(a, i + 1, want)
  }

  function RawOf(a: string, want: string): (r: Option<string>) {
    var k := FirstHit(a, 0, want);
    if k < 0 then None else Some(RawValue(a, k, want))
  }

  lemma FirstHitIs(a: string, want: string, i: nat)
    requires Hit(a, i, want) && NoHits(a, 0, i, want)
    ensures FirstHit(a, 0, want) == i
  {
    hide FirstHit, Hit;
    var k := FirstHit(a, 0, want);
    HitIsInside(a, i, want);
  }

  lemma HitIsInside(a: string, i: nat, want: string)
    requires Hit(a, i, want)
    ensures i <= |a|
  {
  }

  // dom_attr_raw: the value behind the first hit.
  method AttrRaw(a: string, want: string) returns (r: Option<string>)
    ensures r == RawOf(a, want)
  {
    hide RawStop, SkipSpaces, FirstHit;
    var i: nat := 0;
    while i + |want| <= |a|
      invariant NoHits(a, 0, i, want)
    {
      if i == 0 || IsSpace(a[i - 1]) {
        var k: nat := 0;
        while k < |want| && Lower(a[i + k]) == want[k]
          invariant k <= |want| && forall m :: 0 <= m < k ==> Lower(a[i + m]) == want[m]
        {
          k := k + 1;
        }
        if k == |want| {
          var j := SkipSpaces(a, i + |want|, false);
          if j < |a| && a[j] == '=' {
            assert Hit(a, i, want);
            FirstHitIs(a, want, i);
            return Some(RawValue(a, i, want));
          }
        }
      }
      i := i + 1;
    }
    return None;
  }

  // A value that holds text looking like the wanted attribute.
  predicate Mentions(v: string, want: string) {
    exists k :: 0 < k < |v| && Hit(v, k, want)
  }

  predicate Misleads(x: Attribute, want: string) {
    x.value.Some? && Mentions(x.value.value, want)
  }

  // A name fit to be looked for: as the readers spell it, in lower case and without quotes.
  predicate Wanted(want: string) {
    GoodName(want) && Lowered(want) == want && '"' !in want
  }

  // Each attribute with a space behind it.
  function Spaced(l: seq<Attribute>): (s: string) {
    if l == [] then [] else Written(l[0]) + " " + Spaced(l[1..])
  }

  lemma {:induction false} SpacedWritten(l: seq<Attribute>, x: Attribute)
    ensures WrittenAll(l + [x]) == Spaced(l) + Written(x)
  {
    if l == [] {
      assert l + [x] == [x];
    } else {
      assert (l + [x])[1..] == l[1..] + [x];
      SpacedWritten(l[1..], x);
      calc {
        WrittenAll(l + [x]);
        Written(l[0]) + (" " + (Spaced(l[1..]) + Written(x)));
        Spaced(l) + Written(x);
      }
    }
  }

  // The word at b is the whole name, or no hit.
  lemma NameIsNoHit(a: string, b: nat, name: string, want: string)
    requires GoodName(name) && Wanted(want) && Lowered(name) != want
    requires b + |name| < |a| && a[b..b + |name|] == name && EndsName(a[b + |name|])
    ensures !Hit(a, b, want)
  {
    hide SkipSpaces, Lowered;
    var n := a[b..b + |name|];
    if |want| > |name| {
      assert !EndsName(want[|name|]) && Lower(a[b + |name|]) == a[b + |name|];
      assert !Spells(a, b, want);
    } else if |want| < |name| {
      assert n[|want|] == a[b + |want|] && !EndsName(name[|want|]);
      SpacesStopAt(a, b + |want|, false);
    } else {
      assert forall k :: 0 <= k < |want| ==> n[k] == a[b + k];
      assert Spells(a, b, want) ==> Lowered(name) == want;
    }
  }

  lemma InsideWordNoHit(a: string, i: nat, want: string)
    requires 0 < i <= |a| && !IsSpace(a[i - 1])
    ensures !Hit(a, i, want)
  {
  }

  lemma QuoteNoHit(a: string, i: nat, want: string)
    requires i < |a| && a[i] == '"' && Wanted(want)
    ensures !Hit(a, i, want)
  {
    assert want[0] != '"' && Lower(a[i]) == '"';
    assert !Spells(a, i, want);
  }

  lemma SpellsShift(a: string, e: nat, v: string, k: nat, want: string)
    requires Quoted(a, e, v) && k <= |v| && Wanted(want)
    ensures Spells(a, e + 2 + k, want) <==> Spells(v, k, want)
  {
    hide GoodName, Lowered;
    var w := a[e + 2..e + 2 + |v|];
    assert forall m :: 0 <= m < |v| ==> w[m] == a[e + 2 + m];
    if k + |want| > |v| {
      var m := |v| - k;
      assert a[e + 2 + k + m] == '"' && Lower('"') == '"' && want[m] != '"';
    }
  }

  lemma HitShift(a: string, e: nat, v: string, k: nat, want: string)
    requires Quoted(a, e, v) && 0 < k < |v| && Wanted(want)
    ensures Hit(a, e + 2 + k, want) <==> Hit(v, k, want)
  {
    hide SkipSpaces, Wanted, Spells;
    SpellsShift(a, e, v, k, want);
    var w := a[e + 2..e + 2 + |v|];
    assert w[k - 1] == a[e + 2 + k - 1];
    if Spells(v, k, want) {
      SpellsFits(v, k, want);
      var j := SkipSpaces(v, k + |want|, false);
      assert j < |v| ==> w[j] == a[e + 2 + j];
    }
  }

  lemma SpellsFits(v: string, k: nat, want: string)
    requires Spells(v, k, want)
    ensures k + |want| <= |v|
  {
  }

  lemma EqualsNoHit(a: string, i: nat, want: string)
    requires i < |a| && a[i] == '=' && Wanted(want)
    ensures !Hit(a, i, want)
  {
    assert !EndsName(want[0]) && Lower(a[i]) == '=';
    assert !Spells(a, i, want);
  }

  // In a quoted value, a hit is a look-alike.
  lemma ValueHits(a: string, e: nat, v: string, want: string)
    requires Quoted(a, e, v) && Wanted(want)
    ensures NoHits(a, e, e + |v| + 4, want) <==> !Mentions(v, want)
  {
    hide Hit, Wanted;
    EqualsNoHit(a, e, want);
    InsideWordNoHit(a, e + 1, want);
    InsideWordNoHit(a, e + 2, want);
    QuoteNoHit(a, e + 2 + |v|, want);
    InsideWordNoHit(a, e + 3 + |v|, want);
    forall k | 0 < k < |v|
      ensures Hit(a, e + 2 + k, want) <==> Hit(v, k, want)
    {
      HitShift(a, e, v, k, want);
    }
    if NoHits(a, e, e + |v| + 4, want) {
      forall k | 0 < k < |v|
        ensures !Hit(v, k, want)
      {
        assert !Hit(a, e + 2 + k, want);
      }
    } else {
      var i :| e <= i < e + |v| + 4 && Hit(a, i, want);
      assert Hit(v, i - (e + 2), want);
    }
  }

  // x stands, written and with a space behind it, at the start of a word.
  predicate StandsAt(a: string, b: nat, x: Attribute) {
    && b + |Written(x)| < |a|
    && a[b..b + |Written(x)|] == Written(x)
    && a[b + |Written(x)|] == ' '
    && (b == 0 || IsSpace(a[b - 1]))
  }

  lemma StandsName(a: string, b: nat, x: Attribute)
    requires StandsAt(a, b, x) && Nameable(x)
    ensures var e := b + |x.name|;
            && b <= e < |a| && a[b..e] == x.name && EndsName(a[e])
            && (forall i :: b <= i < e ==> !IsSpace(a[i]))
            && (x.value.Some? ==> Quoted(a, e, x.value.value))
  {
    hide Quoted;
    var e := b + |x.name|;
    var w := a[b..b + |Written(x)|];
    assert w[..|x.name|] == a[b..e];
    forall i | b <= i < e
      ensures !IsSpace(a[i])
    {
      assert a[i] == w[i - b] == x.name[i - b];
    }
    if x.value.Some? {
      StandsValue(a, b, x);
    }
  }

  lemma StandsValue(a: string, b: nat, x: Attribute)
    requires b + |Written(x)| <= |a| && a[b..b + |Written(x)|] == Written(x) && x.value.Some?
    ensures Quoted(a, b + |x.name|, x.value.value)
  {
    var w := a[b..b + |Written(x)|];
    var e, v, n := b + |x.name|, x.value.value, |x.name|;
    assert w[n] == a[e] && w[n + 1] == a[e + 1] && w[n + 2 + |v|] == a[e + 2 + |v|];
    assert w[n + 2..n + 2 + |v|] == v;
    SliceOfSlice(a, b, b + |Written(x)|, n + 2, n + 2 + |v|);
  }

  lemma SliceOfSlice(a: string, b: nat, c: nat, i: nat, j: nat)
    requires i <= j && b + j <= c <= |a|
    ensures a[b..c][i..j] == a[b + i..b + j]
  {
    var l, r := a[b..c][i..j], a[b + i..b + j];
    assert |l| == |r|;
    forall k | 0 <= k < |l|
      ensures l[k] == r[k]
    {
      assert l[k] == a[b..c][i + k] == a[b + i + k] == r[k];
    }
  }

  lemma QuotedStarts(a: string, e: nat, v: string)
    requires Quoted(a, e, v)
    ensures e < |a| && a[e] == '='
  {
  }

  lemma AttributeHits(a: string, b: nat, x: Attribute, want: string)
    requires StandsAt(a, b, x) && Nameable(x) && Wanted(want) && Lowered(x.name) != want
    ensures NoHits(a, b, b + |Written(x)| + 1, want) <==> !Misleads(x, want)
  {
    hide Hit, Wanted, Quoted, Mentions, EndsName, Lowered;
    StandsName(a, b, x);
    var e := b + |x.name|;
    if x.name != [] {
      NameIsNoHit(a, b, x.name, want);
    } else {
      QuotedStarts(a, e, x.value.value);
      EqualsNoHit(a, b, want);
    }
    forall i | b < i <= e
      ensures !Hit(a, i, want)
    {
      InsideWordNoHit(a, i, want);
    }
    assert NoHits(a, b, e + 1, want);
    if x.value.Some? {
      ValueHits(a, e, x.value.value, want);
    }
  }

  predicate Unlike(l: seq<Attribute>, want: string) {
    forall x :: x in l ==> Nameable(x) && Lowered(x.name) != want
  }

  predicate AnyMisleads(l: seq<Attribute>, want: string) {
    exists x :: x in l && Misleads(x, want)
  }

  predicate SpacedAt(a: string, b: nat, l: seq<Attribute>) {
    && b + |Spaced(l)| <= |a|
    && a[b..b + |Spaced(l)|] == Spaced(l)
    && (b == 0 || IsSpace(a[b - 1]))
  }

  lemma SpacedStep(a: string, b: nat, l: seq<Attribute>)
    requires l != [] && SpacedAt(a, b, l)
    ensures |Spaced(l)| == |Written(l[0])| + 1 + |Spaced(l[1..])|
    ensures StandsAt(a, b, l[0]) && SpacedAt(a, b + |Written(l[0])| + 1, l[1..])
  {
    hide Written, Spaced;
    SpacedCons(l);
    InThree(a, b, Written(l[0]), Spaced(l[1..]));
  }

  lemma SpacedCons(l: seq<Attribute>)
    requires l != []
    ensures Spaced(l) == Written(l[0]) + " " + Spaced(l[1..])
  {
    hide Written;
  }

  lemma InThree(a: string, b: nat, x: string, y: string)
    requires b + |x| + 1 + |y| <= |a| && a[b..b + |x| + 1 + |y|] == x + " " + y
    ensures a[b..b + |x|] == x && a[b + |x|] == ' ' && a[b + |x| + 1..b + |x| + 1 + |y|] == y
  {
    var n := |x|;
    var w := a[b..b + n + 1 + |y|];
    assert w[0..n] == x && w[n] == ' ' && w[n + 1..n + 1 + |y|] == y;
    SliceOfSlice(a, b, b + n + 1 + |y|, 0, n);
    SliceOfSlice(a, b, b + n + 1 + |y|, n + 1, n + 1 + |y|);
    assert w[n] == a[b + n];
  }

  // Among attributes of other names, a hit is a look-alike in a value.
  lemma {:induction false} ListHits(a: string, b: nat, l: seq<Attribute>, want: string)
    requires SpacedAt(a, b, l) && Unlike(l, want) && Wanted(want)
    ensures NoHits(a, b, b + |Spaced(l)|, want) <==> !AnyMisleads(l, want)
    decreases |l|
  {
    hide Hit, Written, Misleads, Wanted, SpacedAt, StandsAt, Nameable, Lowered;
    if l != [] {
      assert l[0] in l;
      SpacedStep(a, b, l);
      var n := b + |Written(l[0])| + 1;
      AttributeHits(a, b, l[0], want);
      ListHits(a, n, l[1..], want);
    }
  }

  // The attribute itself is a hit, and its value is what is read.
  lemma FoundValue(a: string, b: nat, name: string, v: string)
    requires GoodName(name) && '"' !in v
    requires b + |name| <= |a| && a[b..b + |name|] == name && (b == 0 || IsSpace(a[b - 1])) && Quoted(a, b + |name|, v)
    ensures Hit(a, b, Lowered(name)) && RawValue(a, b, Lowered(name)) == v
  {
    hide SkipSpaces, RawStop, GoodName, Spells, Lowered;
    var e := b + |name|;
    SpellsItself(a, b, name);
    SpacesStopAt(a, e, false);
    SpacesStopAt(a, e + 1, false);
  }

  lemma SpellsItself(a: string, b: nat, name: string)
    requires b + |name| <= |a| && a[b..b + |name|] == name
    ensures Spells(a, b, Lowered(name))
  {
    var n := a[b..b + |name|];
    assert forall k :: 0 <= k < |name| ==> n[k] == a[b + k];
  }

  lemma WantedLowered(name: string)
    requires GoodName(name) && '"' !in name
    ensures Wanted(Lowered(name))
  {
    var w := Lowered(name);
    forall k | 0 <= k < |w|
      ensures !EndsName(w[k]) && w[k] != '"' && Lower(w[k]) == w[k]
    {
      assert !EndsName(name[k]) && name[k] in name;
    }
    LoweredTwice(name);
    assert w[0] == Lower(name[0]);
  }

  lemma WrittenStands(front: string, name: string, v: string)
    ensures var a := front + Written(Attribute(name, Some(v)));
            && |front| + |name| <= |a|
            && a[|front|..|front| + |name|] == name
            && Quoted(a, |front| + |name|, v)
  {
    hide Written, Quoted;
    var x := Attribute(name, Some(v));
    var a := front + Written(x);
    assert a[|front|..|a|] == Written(x);
    StandsValue(a, |front|, x);
    NameFirst(x);
    SliceOfSlice(a, |front|, |a|, 0, |name|);
  }

  lemma NameFirst(x: Attribute)
    ensures |x.name| <= |Written(x)| && Written(x)[0..|x.name|] == x.name
  {
  }

  // After dom_set_attr, dom_attr_raw can read the new value; the first thing it comes upon is that
  // value exactly when no other attribute's value holds text that looks like this one.
  lemma SetThenRaw(a: string, name: string, v: string)
    requires GoodName(name) && '"' !in name && '"' !in v
    ensures var kept := Without(Tokenise(a, 0).list, name);
            var text := WrittenAll(Changed(Tokenise(a, 0).list, name, Some(v)));
            var want := Lowered(name);
            var p := |Spaced(kept)|;
            && Hit(text, p, want)
            && RawValue(text, p, want) == v
            && (FirstHit(text, 0, want) == p <==> !AnyMisleads(kept, want))
  {
    hide Hit, Written, Wanted, GoodName, Nameable, Lowered, Tokenise, WrittenAll, Quoted, Spaced, RawValue, AnyMisleads, NoHits, FirstHit;
    var l := Tokenise(a, 0).list;
    var kept := Without(l, name);
    var x := Attribute(name, Some(v));
    var want := Lowered(name);
    var front := Spaced(kept);
    var text := front + Written(x);
    SpacedWritten(kept, x);
    assert text == WrittenAll(Changed(l, name, Some(v)));
    WantedLowered(name);
    WrittenStands(front, name, v);
    SpacedEnds(kept);
    assert front != [] ==> text[|front| - 1] == front[|front| - 1];
    FoundValue(text, |front|, name, v);
    NamesAreGood(a, 0);
    assert Unlike(kept, want);
    assert text[0..0 + |front|] == front;
    ListHits(text, 0, kept, want);
    if NoHits(text, 0, |front|, want) {
      FirstHitIs(text, want, |front|);
    }
  }

  lemma {:induction false} SpacedEnds(l: seq<Attribute>)
    ensures Spaced(l) != [] ==> Spaced(l)[|Spaced(l)| - 1] == ' '
  {
    if l != [] {
      SpacedEnds(l[1..]);
    }
  }

  // A value with a double quote in it reads back as something else.
  lemma QuoteBreaks()
    ensures Tokenise(WrittenAll(Changed([], "t", Some("a\"b"))), 0) != Tokens([Attribute("t", Some("a\"b"))], true)
  {
    hide Tokenise, WrittenAll, Apart;
    var x := Attribute("t", Some("a\"b"));
    assert Changed([], "t", Some("a\"b")) == [x];
    BrokenQuote(x);
    ReadsBack("", [x]);
    assert "" + WrittenAll([x]) == WrittenAll([x]);
  }

  lemma BrokenQuote(x: Attribute)
    requires x == Attribute("t", Some("a\"b"))
    ensures AllNameable([x]) && !AllQuoteFree([x])
  {
    assert x.value.value[1] == '"';
    assert !QuoteFree([x][0]);
  }

  const TOOLTIP := Attribute("title", Some("see id=x"))
  const TOOLTIP_TEXT := "title=\"see id=x\" id=\"y\""

  lemma TooltipWritten()
    ensures WrittenAll(Changed([TOOLTIP], "id", Some("y"))) == TOOLTIP_TEXT
  {
    hide WrittenAll, Written, Without;
    var id := Attribute("id", Some("y"));
    TooltipKept();
    assert Changed([TOOLTIP], "id", Some("y")) == [TOOLTIP] + [id];
    WrittenMore([TOOLTIP], id);
    WrittenAlone(TOOLTIP);
    WrittenTwice();
  }

  lemma TooltipKept()
    ensures Without([TOOLTIP], "id") == [TOOLTIP]
  {
    assert |Lowered("title")| == 5 && |Lowered("id")| == 2;
    assert [TOOLTIP][1..] == [];
  }

  lemma WrittenAlone(x: Attribute)
    ensures WrittenAll([x]) == Written(x)
  {
  }

  lemma WrittenTwice()
    ensures Written(TOOLTIP) + " " + Written(Attribute("id", Some("y"))) == TOOLTIP_TEXT
  {
  }

  lemma TooltipHit()
    ensures Hit(TOOLTIP_TEXT, 11, "id") && RawValue(TOOLTIP_TEXT, 11, "id") == "x\""
  {
    var a := TOOLTIP_TEXT;
    SpacesStopAt(a, 13, false);
    SpacesStopAt(a, 14, false);
    assert Spells(a, 11, "id");
    assert RawStop(a, 14, None) == 16;
  }

  lemma TooltipFirst()
    ensures NoHits(TOOLTIP_TEXT, 0, 11, "id")
  {
    hide SkipSpaces;
    var a := TOOLTIP_TEXT;
    forall i | 0 <= i < 11
      ensures !Hit(a, i, "id")
    {
      if i == 0 {
        assert Lower(a[0 + 0]) != "id"[0];
        assert !Spells(a, 0, "id");
      } else {
        InsideWordNoHit(a, i, "id");
      }
    }
  }

  // A tooltip that quotes another attribute is taken for it: after title="see id=x", setting the id to y
  // and reading it gives x".
  lemma LookAlikeMisleads()
    ensures RawOf(WrittenAll(Changed([TOOLTIP], "id", Some("y"))), "id") == Some("x\"")
  {
    hide Hit, RawValue, WrittenAll, Changed, FirstHit, NoHits, TOOLTIP_TEXT, TOOLTIP;
    TooltipWritten();
    TooltipHit();
    TooltipFirst();
    FirstHitIs(TOOLTIP_TEXT, "id", 11);
  }
}
