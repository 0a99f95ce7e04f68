/**
 How the style sheet engine reads and weighs a compound selector (userland/css.h, section 6.4.3 of
 CSS 2.1): every compound adds so much for each id, class, attribute, pseudo-class and tag it is
 made of, all into one number, and matches the elements that have what it asks for.
 */
module CssSpecificity {
  import opened CssNames
  import opened CssSelector

  const CSS_MAX_CLS := 4

  // What may follow the tag of a compound selector.
  datatype Qualifier =
    | Id(name: string)
    | Class(name: string)
    | Attribute(test: string -> bool)
    | PseudoClass(kind: Pseudo)

  // A compound as far as it has been read, and the weight added so far.
  datatype Compound = Compound(simple: Simple, spec: nat)

  // One turn of css_parse_simple: a later id, attribute or pseudo-class takes the place of an
  // earlier one, and is counted all the same; a class too many or a name of no letters refuses the
  // selector.
  function Qualified(c: Compound, q: Qualifier): (r: Option<Compound>) {
    match q
    case Id(n) => if n == [] then None else Some(Compound(c.simple.(id := n), c.spec + 10000))
    case Class(n) =>
      if |c.simple.classes| >= CSS_MAX_CLS || n == [] then None
      else Some(Compound(c.simple.(classes := c.simple.classes + [n]), c.spec + 100))
    case Attribute(t) => Some(Compound(c.simple.(attribute := t), c.spec + 100))
    case PseudoClass(k) => Some(Compound(c.simple.(pseudo := k), c.spec + 100))
  }

  function QualifiedAll(c: Compound, qs: seq<Qualifier>): (r: Option<Compound>)
    decreases |qs|
  {
    if qs == [] then Some(c) else
      var next := Qualified(c, qs[0]);
      if next.None? then None else QualifiedAll(next.value, qs[1..])
  }

  // css_parse_simple, for a tag (none is written as an empty one) and what follows it.
  function Parsed(tag: string, qs: seq<Qualifier>): (r: Option<Compound>) {
    QualifiedAll(Compound(Simple(tag, [], [], Anything, _ => true), if tag == [] then 0 else 1), qs)
  }

  // ----- what the number is -----

  // How many ids, how many classes, attributes and pseudo-classes, how many tags.
  datatype Counts = Counts(ids: nat, classes: nat, tags: nat)

  function Packed(n: Counts): (spec: nat) {
    10000 * n.ids + 100 * n.classes + n.tags
  }

  function IdsIn(qs: seq<Qualifier>): (n: nat)
    ensures n <= |qs|
  {
    if qs == [] then 0 else (if qs[0].Id? then 1 else 0) + IdsIn(qs[1..])
  }

  lemma {:induction false} WeighsAll(c: Compound, qs: seq<Qualifier>)
    requires QualifiedAll(c, qs).Some?
    ensures QualifiedAll(c, qs).value.spec == c.spec + 10000 * IdsIn(qs) + 100 * (|qs| - IdsIn(qs))
    decreases |qs|
  {
    if qs != [] {
      WeighsAll(Qualified(c, qs[0]).value, qs[1..]);
    }
  }

  // A compound weighs what it has, each id and each other qualifier counted as often as written.
  lemma SpecificityCounts(tag: string, qs: seq<Qualifier>)
    requires Parsed(tag, qs).Some?
    ensures Parsed(tag, qs).value.spec == Packed(Counts(IdsIn(qs), |qs| - IdsIn(qs), if tag == [] then 0 else 1))
  {
    hide QualifiedAll;
    WeighsAll(Compound(Simple(tag, [], [], Anything, _ => true), if tag == [] then 0 else 1), qs);
  }

  // ----- how it compares -----

  // Section 6.4.3: first by ids, then by classes and the like, then by tags.
  predicate LessSpecific(x: Counts, y: Counts) {
    x.ids < y.ids || (x.ids == y.ids && (x.classes < y.classes || (x.classes == y.classes && x.tags < y.tags)))
  }

  const CSS_MAX_PARTS := 4

  // On all selectors whose classes, attributes and pseudo-classes are fewer than n, the one number
  // compares as the three do.  A selector has at most CSS_MAX_PARTS tags.
  ghost predicate PacksBelow(n: nat) {
    forall x: Counts, y: Counts {:trigger Packed(x), Packed(y)} ::
      x.classes < n && y.classes < n && x.tags <= CSS_MAX_PARTS && y.tags <= CSS_MAX_PARTS ==>
        (Packed(x) < Packed(y) <==> LessSpecific(x, y))
  }

  // That is so exactly up to a hundred.
  lemma HundredsPack(n: nat)
    ensures PacksBelow(n) <==> n <= 100
  {
    if n > 100 {
      HundredAttributes(_ => true);
    }
  }

  function Repeated(q: Qualifier, n: nat): (qs: seq<Qualifier>)
    ensures |qs| == n
  {
    if n == 0 then [] else [q] + Repeated(q, n - 1)
  }

  lemma {:induction false} ManyAttributes(c: Compound, test: string -> bool, n: nat)
    ensures QualifiedAll(c, Repeated(Attribute(test), n)).Some? && IdsIn(Repeated(Attribute(test), n)) == 0
    decreases n
  {
    if n > 0 {
      assert Repeated(Attribute(test), n)[1..] == Repeated(Attribute(test), n - 1);
      ManyAttributes(Qualified(c, Attribute(test)).value, test, n - 1);
    }
  }

  // [x][x]...[x], a hundred times, and #a: the second is the more specific, and both weigh the same.
  lemma HundredAttributes(test: string -> bool)
    ensures var many := Repeated(Attribute(test), 100);
            && Parsed([], many).Some? && Parsed([], Ids(1)).Some?
            && Parsed([], many).value.spec == Parsed([], Ids(1)).value.spec == Packed(Counts(0, 100, 0))
            && Packed(Counts(0, 100, 0)) == Packed(Counts(1, 0, 0)) && LessSpecific(Counts(0, 100, 0), Counts(1, 0, 0))
  {
    hide QualifiedAll, Repeated, Ids, IdsIn;
    ManyAttributes(Compound(Simple([], [], [], Anything, _ => true), 0), test, 100);
    SpecificityCounts([], Repeated(Attribute(test), 100));
    RepeatedId(1);
  }

  // ----- many ids -----

  function Ids(n: nat): (qs: seq<Qualifier>)
    ensures |qs| == n
  {
    Repeated(Id("a"), n)
  }

  // #a#a...#a
  lemma {:induction false} ManyIds(c: Compound, n: nat)
    ensures QualifiedAll(c, Ids(n)) ==
            Some(Compound(if n == 0 then c.simple else c.simple.(id := "a"), c.spec + 10000 * n))
    decreases n
  {
    if n > 0 {
      assert Ids(n)[1..] == Ids(n - 1);
      var next := Qualified(c, Id("a")).value;
      ManyIds(next, n - 1);
    }
  }

  // The same id written n times is one id to match, and n to weigh.
  lemma RepeatedId(n: nat)
    requires n > 0
    ensures Parsed([], Ids(n)).Some?
    ensures var c := Parsed([], Ids(n)).value;
            c.simple.tag == [] && c.simple.id == "a" && c.simple.classes == [] && c.simple.pseudo == Anything
            && (forall t :: c.simple.attribute(t)) && c.spec == 10000 * n
  {
    hide QualifiedAll;
    ManyIds(Compound(Simple([], [], [], Anything, _ => true), 0), n);
  }

  // ----- what a compound matches -----

  predicate HasTag(e: Element, tag: string) {
    tag == [] || (e.tag.Some? && SameName(e.tag.value, tag))
  }

  // What one qualifier asks of an element.
  ghost predicate Meets(e: Element, isRoot: bool, q: Qualifier) {
    match q
    case Id(n) => e.id.Some? && SameName(e.id.value, n)
    case Class(n) => e.classes.Some? && exists w: Span :: Stands(e.classes.value, w, n)
    case Attribute(t) => t(e.attributes)
    case PseudoClass(FirstChild) => e.first
    case PseudoClass(LastChild) => e.last
    case PseudoClass(Root) => isRoot
    case PseudoClass(k) => k == Anything
  }

  datatype Sort = OfId | OfClass | OfAttribute | OfPseudo

  function SortOf(q: Qualifier): (k: Sort) {
    match q
    case Id(_) => OfId
    case Class(_) => OfClass
    case Attribute(_) => OfAttribute
    case PseudoClass(_) => OfPseudo
  }

  // One that takes the place of another of this sort is among these.  Classes add up.
  predicate Among(qs: seq<Qualifier>, k: Sort) {
    k != OfClass && exists j :: 0 <= j < |qs| && SortOf(qs[j]) == k
  }

  // A later id, attribute or pseudo-class has taken the place of this one.
  predicate Overruled(qs: seq<Qualifier>, i: nat) {
    i < |qs| && Among(qs[i + 1..], SortOf(qs[i]))
  }

  // All that still stands is met.
  ghost predicate MeetsAll(e: Element, isRoot: bool, qs: seq<Qualifier>) {
    forall i :: 0 <= i < |qs| && !Overruled(qs, i) ==> Meets(e, isRoot, qs[i])
  }

  lemma MeetsMore(e: Element, isRoot: bool, qs: seq<Qualifier>)
    requires qs != []
    ensures MeetsAll(e, isRoot, qs) <==>
            (Among(qs[1..], SortOf(qs[0])) || Meets(e, isRoot, qs[0])) && MeetsAll(e, isRoot, qs[1..])
  {
    hide Meets, Among;
    var rest := qs[1..];
    forall i | 0 <= i < |rest|
      ensures Overruled(rest, i) <==> Overruled(qs, i + 1)
    {
      assert rest[i + 1..] == qs[i + 2..];
    }
    assert Overruled(qs, 0) <==> Among(rest, SortOf(qs[0]));
    if MeetsAll(e, isRoot, qs) {
      forall i | 0 <= i < |rest| && !Overruled(rest, i)
        ensures Meets(e, isRoot, rest[i])
      {
        assert !Overruled(qs, i + 1);
      }
    }
    if (Among(rest, SortOf(qs[0])) || Meets(e, isRoot, qs[0])) && MeetsAll(e, isRoot, rest) {
      forall i | 0 <= i < |qs| && !Overruled(qs, i)
        ensures Meets(e, isRoot, qs[i])
      {
        assert i > 0 ==> !Overruled(rest, i - 1) && rest[i - 1] == qs[i];
      }
    }
  }

  const NOTHING: string -> bool := _ => true

  // What is left of a compound when these come.
  function Kept(p: Simple, qs: seq<Qualifier>): (r: Simple) {
    p.(id := if Among(qs, OfId) then [] else p.id,
       attribute := if Among(qs, OfAttribute) then NOTHING else p.attribute,
       pseudo := if Among(qs, OfPseudo) then Anything else p.pseudo)
  }

  lemma AmongMore(k: Sort, qs: seq<Qualifier>)
    requires qs != []
    ensures Among(qs, k) <==> k != OfClass && (SortOf(qs[0]) == k || Among(qs[1..], k))
  {
    var rest := qs[1..];
    if Among(rest, k) {
      var j :| 0 <= j < |rest| && SortOf(rest[j]) == k;
      assert SortOf(qs[j + 1]) == k;
    }
    if j :| 0 < j < |qs| && SortOf(qs[j]) == k {
      assert SortOf(rest[j - 1]) == k;
    }
  }

  // The first qualifier counts unless it is overruled, and what it takes the place of does not.
  lemma KeptMore(c: Compound, qs: seq<Qualifier>, e: Element, isRoot: bool)
    requires qs != [] && Qualified(c, qs[0]).Some?
    ensures SimpleMatch(Kept(Qualified(c, qs[0]).value.simple, qs[1..]), e, isRoot) <==>
            SimpleMatch(Kept(c.simple, qs), e, isRoot) && (Among(qs[1..], SortOf(qs[0])) || Meets(e, isRoot, qs[0]))
  {
    hide Among, SimpleMatch, Meets;
    var q, rest, p := qs[0], qs[1..], Kept(c.simple, qs);
    var p' := Kept(Qualified(c, q).value.simple, rest);
    AmongMore(OfId, qs);
    AmongMore(OfAttribute, qs);
    AmongMore(OfPseudo, qs);
    NoneOfClass(rest);
    OneMore(p, q, e, isRoot);
    assert p' == if Among(rest, SortOf(q)) then p else With(p, q);
  }

  // A qualifier put where there was none of its sort.
  function With(p: Simple, q: Qualifier): (r: Simple) {
    match q
    case Id(n) => p.(id := n)
    case Class(n) => p.(classes := p.classes + [n])
    case Attribute(t) => p.(attribute := t)
    case PseudoClass(k) => p.(pseudo := k)
  }

  lemma OneMore(p: Simple, q: Qualifier, e: Element, isRoot: bool)
    requires match q
             case Id(n) => p.id == [] && n != []
             case Class(n) => n != []
             case Attribute(_) => p.attribute == NOTHING
             case PseudoClass(_) => p.pseudo == Anything
    ensures SimpleMatch(With(p, q), e, isRoot) <==> SimpleMatch(p, e, isRoot) && Meets(e, isRoot, q)
  {
    hide InList, SameName, Stands, HasClasses;
    match q
    case Class(n) =>
      OneClassMore(p, n, e, isRoot);
      if e.classes.Some? {
        InListFinds(e.classes.value, n);
      }
    case PseudoClass(k) => MeetsPseudo(e, isRoot, k);
    case _ =>
  }

  lemma MeetsPseudo(e: Element, isRoot: bool, k: Pseudo)
    ensures Meets(e, isRoot, PseudoClass(k)) <==>
            k != Never && (k == FirstChild ==> e.first) && (k == LastChild ==> e.last) && (k == Root ==> isRoot)
  {
    match k
    case Anything =>
    case FirstChild =>
    case LastChild =>
    case Root =>
    case Never =>
  }

  lemma NoneOfClass(qs: seq<Qualifier>)
    ensures !Among(qs, OfClass)
  {
  }

  lemma OneClassMore(p: Simple, n: string, e: Element, isRoot: bool)
    ensures SimpleMatch(p.(classes := p.classes + [n]), e, isRoot) <==>
            SimpleMatch(p, e, isRoot) && e.classes.Some? && InList(e.classes.value, n)
  {
    hide InList, SameName;
    var more := p.classes + [n];
    assert more[|p.classes|] == n && forall i :: 0 <= i < |p.classes| ==> more[i] == p.classes[i];
  }

  lemma {:induction false} AllMatch(c: Compound, qs: seq<Qualifier>, e: Element, isRoot: bool)
    requires QualifiedAll(c, qs).Some?
    ensures SimpleMatch(QualifiedAll(c, qs).value.simple, e, isRoot) <==>
            SimpleMatch(Kept(c.simple, qs), e, isRoot) && MeetsAll(e, isRoot, qs)
    decreases |qs|
  {
    hide SimpleMatch, MeetsAll, Meets, Kept, Qualified;
    if qs == [] {
      KeptWhole(c.simple, e, isRoot);
    } else {
      AllMatch(Qualified(c, qs[0]).value, qs[1..], e, isRoot);
      KeptMore(c, qs, e, isRoot);
      MeetsMore(e, isRoot, qs);
    }
  }

  lemma KeptWhole(p: Simple, e: Element, isRoot: bool)
    ensures SimpleMatch(Kept(p, []), e, isRoot) <==> SimpleMatch(p, e, isRoot)
    ensures MeetsAll(e, isRoot, [])
  {
    hide InList, SameName, Meets;
  }

  // A compound matches the elements with its tag, every class that was written, and the last id, the
  // last attribute and the last pseudo-class.
  lemma CompoundMatches(tag: string, qs: seq<Qualifier>, e: Element, isRoot: bool)
    requires Parsed(tag, qs).Some?
    ensures SimpleMatch(Parsed(tag, qs).value.simple, e, isRoot) <==> HasTag(e, tag) && MeetsAll(e, isRoot, qs)
  {
    hide QualifiedAll, MeetsAll, InList, SameName, Among;
    var p := Simple(tag, [], [], Anything, _ => true);
    AllMatch(Compound(p, if tag == [] then 0 else 1), qs, e, isRoot);
  }

  // [a][b] matches an element without the first attribute: an overruled qualifier asks for nothing.
  lemma OverruledIsIgnored(q: Qualifier, q': Qualifier, e: Element, isRoot: bool)
    requires SortOf(q) == SortOf(q') != OfClass && Parsed([], [q, q']).Some? && !Meets(e, isRoot, q) && Meets(e, isRoot, q')
    ensures SimpleMatch(Parsed([], [q, q']).value.simple, e, isRoot)
  {
    hide SimpleMatch, Meets, Parsed;
    var qs := [q, q'];
    CompoundMatches([], qs, e, isRoot);
    assert SortOf(qs[1..][0]) == SortOf(q') && Overruled(qs, 0);
  }
}
