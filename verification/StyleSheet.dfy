/**
 The rule index of the style sheet engine (userland/css.h): every rule is filed in one bucket,
 under the most selective name its subject requires, and an element looks only into the buckets
 of its own names.
 */
module CssIndex {
  import opened CssNames
  import opened CssSelector
  import opened CssCascade

  const CSS_BUCKETS := 512

  function Hash(s: string): (b: nat)
    ensures b < CSS_BUCKETS
  {
    Fnv(s) % CSS_BUCKETS
  }

  lemma HashIgnoresCase(a: string, b: string)
    requires SameName(a, b)
    ensures Hash(a) == Hash(b)
  {
    FnvIgnoresCase(a, b);
    hide Fnv;
  }

  // Where a rule is filed: -1 is the list of rules that any element may match.
  function BucketOf(r: Rule): (b: int)
    ensures -1 <= b < CSS_BUCKETS
  {
    if |r.sel.parts| == 0 then -1 else
      var subject := r.sel.parts[|r.sel.parts| - 1];
      if subject.id != [] then Hash(subject.id)
      else if subject.classes != [] then Hash(subject.classes[0])
      else if subject.tag != [] then Hash(subject.tag)
      else -1
  }

  // The parser cuts every name off at CSS_NAME_MAX - 1 characters.
  predicate ShortNames(r: Rule) {
    forall k, c :: 0 <= k < |r.sel.parts| && 0 <= c < |r.sel.parts[k].classes| ==>
      |r.sel.parts[k].classes[c]| < CSS_NAME_MAX
  }

  // The rules below n that are filed under b, latest first.
  function Members(rules: seq<Rule>, b: int, n: nat): (m: seq<nat>)
    requires n <= |rules|
    ensures forall k :: 0 <= k < |m| ==> m[k] < n
  {
    if n == 0 then []
    else (if BucketOf(rules[n - 1]) == b then [n - 1] else []) + Members(rules, b, n - 1)
  }

  lemma {:induction false} MembersHas(rules: seq<Rule>, b: int, n: nat, i: nat)
    requires i < n <= |rules| && BucketOf(rules[i]) == b
    ensures i in Members(rules, b, n)
  {
    hide BucketOf;
    if i < n - 1 {
      MembersHas(rules, b, n - 1, i);
    }
  }

  lemma {:induction false} MembersOfPrefix(rules: seq<Rule>, r: Rule, b: int, n: nat)
    requires n <= |rules|
    ensures Members(rules + [r], b, n) == Members(rules, b, n)
  {
    hide BucketOf;
    if n > 0 {
      MembersOfPrefix(rules, r, b, n - 1);
    }
  }

  // ----- which rules an element looks at -----

  function Cut(word: string): (w: string) {
    if |word| >= CSS_NAME_MAX then word[..CSS_NAME_MAX - 1] else word
  }

  function OfNames(rules: seq<Rule>, names: seq<string>): (v: seq<nat>)
    ensures forall k :: 0 <= k < |v| ==> v[k] < |rules|
  {
    if names == [] then [] else Members(rules, Hash(Cut(names[0])), |rules|) + OfNames(rules, names[1..])
  }

  function OfName(rules: seq<Rule>, name: Option<string>): (v: seq<nat>)
    ensures forall k :: 0 <= k < |v| ==> v[k] < |rules|
  {
    if name.None? then [] else Members(rules, Hash(name.value), |rules|)
  }

  function Visits(rules: seq<Rule>, e: Element): (v: seq<nat>)
    ensures forall k :: 0 <= k < |v| ==> v[k] < |rules|
  {
    Members(rules, -1, |rules|) + OfName(rules, e.tag) + OfName(rules, e.id)
    + if e.classes.None? then [] else OfNames(rules, Words(e.classes.value, 0))
  }

  lemma {:induction false} OfNamesHas(rules: seq<Rule>, names: seq<string>, i: nat, w: string)
    requires i < |rules| && w in names && BucketOf(rules[i]) == Hash(Cut(w))
    ensures i in OfNames(rules, names)
  {
    hide BucketOf, Hash, Cut, Members;
    if names[0] == w {
      MembersHas(rules, Hash(Cut(w)), |rules|, i);
    } else {
      OfNamesHas(rules, names[1..], i, w);
    }
  }

  lemma ClassFiled(r: Rule, i: nat, rules: seq<Rule>, list: string)
    requires i < |rules| && rules[i] == r && |r.sel.parts| > 0 && ShortNames(r)
    requires var s := r.sel.parts[|r.sel.parts| - 1];
             s.id == [] && s.classes != [] && InList(list, s.classes[0])
    ensures i in OfNames(rules, Words(list, 0))
  {
    var s := r.sel.parts[|r.sel.parts| - 1];
    assert |s.classes[0]| < CSS_NAME_MAX;
    var w :| w in Words(list, 0) && SameName(w, s.classes[0]);
    assert |w| == |Lowered(w)| == |s.classes[0]|;
    HashIgnoresCase(w, s.classes[0]);
    hide Hash, Words;
    OfNamesHas(rules, Words(list, 0), i, w);
  }

  // No rule that matches the last element of the chain is missed.
  lemma VisitsCover(rules: seq<Rule>, chain: seq<Element>)
    requires |chain| > 0 && forall i :: 0 <= i < |rules| ==> ShortNames(rules[i])
    ensures Covers(rules, Visits(rules, chain[|chain| - 1]), chain)
  {
    var e := chain[|chain| - 1];
    forall i | 0 <= i < |rules| && Matches(rules[i], chain)
      ensures i in Visits(rules, e)
    {
      MatchedIsVisited(rules, i, chain);
    }
    hide Visits, Matches;
  }

  lemma MatchedIsVisited(rules: seq<Rule>, i: nat, chain: seq<Element>)
    requires |chain| > 0 && i < |rules| && ShortNames(rules[i]) && Matches(rules[i], chain)
    ensures i in Visits(rules, chain[|chain| - 1])
  {
    var e, r := chain[|chain| - 1], rules[i];
    var s := r.sel.parts[|r.sel.parts| - 1];
    SubjectMatches(r, chain);
    hide Matches, Hash, SameName, InList, Words, ShortNames, Members, OfNames;
    MembersHas(rules, BucketOf(r), |rules|, i);
    if s.id != [] {
      HashIgnoresCase(s.id, e.id.value);
      assert i in OfName(rules, e.id);
    } else if s.classes != [] {
      ClassFiled(r, i, rules, e.classes.value);
    } else if s.tag != [] {
      HashIgnoresCase(s.tag, e.tag.value);
      assert i in OfName(rules, e.tag);
    } else {
      assert i in Members(rules, -1, |rules|);
    }
  }

  lemma SubjectMatches(r: Rule, chain: seq<Element>)
    requires |chain| > 0 && Matches(r, chain)
    ensures var s := r.sel.parts[|r.sel.parts| - 1];
            var e := chain[|chain| - 1];
            && (s.tag != [] ==> e.tag.Some? && SameName(s.tag, e.tag.value))
            && (s.id != [] ==> e.id.Some? && SameName(s.id, e.id.value))
            && (s.classes != [] ==> e.classes.Some? && InList(e.classes.value, s.classes[0]))
  {
    hide InList, SameName;
    var s, e := r.sel.parts[|r.sel.parts| - 1], chain[|chain| - 1];
    assert SimpleMatch(s, e, |chain| - 1 == 0);
    if s.classes != [] {
      var first := s.classes[0];
      assert e.classes.Some? && InList(e.classes.value, first);
    }
    SameNameSymmetric();
  }

  lemma SameNameSymmetric()
    ensures forall a: string, b: string :: SameName(a, b) ==> SameName(b, a)
  {
  }

  // ----- the linked lists -----

  // The indices met from i on, following the links down.
  function ListFrom(next: seq<int>, i: int): (l: seq<nat>)
    requires i < |next| && Descends(next)
    ensures forall k :: 0 <= k < |l| ==> l[k] < |next|
    decreases i + 1
  {
    if i < 0 then [] else [i] + ListFrom(next, next[i])
  }

  predicate Descends(next: seq<int>) {
    forall i :: 0 <= i < |next| ==> next[i] < i
  }

  lemma {:induction false} ListOfPrefix(next: seq<int>, more: int, i: int)
    requires Descends(next) && i < |next| && more < |next|
    ensures Descends(next + [more]) && ListFrom(next + [more], i) == ListFrom(next, i)
    decreases i + 1
  {
    if i >= 0 {
      ListOfPrefix(next, more, next[i]);
    }
  }

  // The heads and links hold, under every bucket, the rules filed there, latest first.
  ghost predicate Indexed(rules: seq<Rule>, heads: seq<int>, univ: int, next: seq<int>) {
    && |heads| == CSS_BUCKETS && |next| == |rules| && Descends(next)
    && univ < |rules| && ListFrom(next, univ) == Members(rules, -1, |rules|)
    && (forall b :: 0 <= b < CSS_BUCKETS ==> heads[b] < |rules|)
    && (forall b :: 0 <= b < CSS_BUCKETS ==> ListFrom(next, heads[b]) == Members(rules, b, |rules|))
  }

  // Filing one more rule in front of a list.
  lemma FiledInList(rules: seq<Rule>, next: seq<int>, r: Rule, head: int, b: int, more: int)
    requires Descends(next) && |next| == |rules| && head < |rules| && more < |rules|
    requires ListFrom(next, head) == Members(rules, b, |rules|)
    ensures Descends(next + [more])
    ensures BucketOf(r) != b ==> ListFrom(next + [more], head) == Members(rules + [r], b, |rules| + 1)
    ensures BucketOf(r) == b && more == head ==> ListFrom(next + [more], |rules|) == Members(rules + [r], b, |rules| + 1)
  {
    hide BucketOf;
    ListOfPrefix(next, more, head);
    MembersOfPrefix(rules, r, b, |rules|);
    var next', rules' := next + [more], rules + [r];
    assert rules'[|rules|] == r && next'[|rules|] == more;
    assert Members(rules', b, |rules| + 1) == (if BucketOf(r) == b then [|rules|] else []) + Members(rules, b, |rules|);
  }

  // Filing keeps the index, whichever bucket the rule goes to.
  lemma FiledIsIndexed(rules: seq<Rule>, heads: seq<int>, univ: int, next: seq<int>, r: Rule)
    requires Indexed(rules, heads, univ, next)
    ensures var n, b := |rules|, BucketOf(r);
            Indexed(rules + [r], if b < 0 then heads else heads[b := n], if b < 0 then n else univ,
                    next + [if b < 0 then univ else heads[b]])
  {
    hide BucketOf, ListFrom, Members, Descends;
    var n, b := |rules|, BucketOf(r);
    var more := if b < 0 then univ else heads[b];
    var heads' := if b < 0 then heads else heads[b := n];
    FiledInList(rules, next, r, univ, -1, more);
    forall c | 0 <= c < CSS_BUCKETS
      ensures heads'[c] < n + 1 && ListFrom(next + [more], heads'[c]) == Members(rules + [r], c, n + 1)
    {
      FiledInList(rules, next, r, heads[c], c, more);
    }
  }

  class StyleSheet {
    var rules: seq<Rule>
    const bhead: array<int>
    var buniv: int
    const bnext: array<int>

    ghost predicate Valid()
      reads this, bhead, bnext
    {
      && bhead.Length == CSS_BUCKETS && bnext.Length == CSS_MAX_RULES && bhead != bnext
      && |rules| <= CSS_MAX_RULES
      && Indexed(rules, bhead[..], buniv, bnext[..|rules|])
      && forall i :: 0 <= i < |rules| ==> ShortNames(rules[i])
    }

    constructor ()
      ensures Valid() && rules == [] && fresh(bhead) && fresh(bnext)
    {
      rules := [];
      bhead := new int[CSS_BUCKETS](_ => -1);
      buniv := -1;
      bnext := new int[CSS_MAX_RULES](_ => -1);
    }

    // The end of css_add_selector: store the rule and file it.
    method AddRule(r: Rule) returns (ok: bool)
      requires Valid() && ShortNames(r)
      modifies this, bhead, bnext
      ensures Valid()
      ensures ok == (|old(rules)| < CSS_MAX_RULES)
      ensures rules == if ok then old(rules) + [r] else old(rules)
    {
      hide Indexed, ShortNames, BucketOf;
      if |rules| >= CSS_MAX_RULES {
        return false;
      }
      FiledIsIndexed(rules, bhead[..], buniv, bnext[..|rules|], r);
      var idx := |rules|;
      var b := BucketOf(r);
      ghost var heads, links := bhead[..], bnext[..idx];
      if b < 0 {
        bnext[idx] := buniv;
        buniv := idx;
      } else {
        bnext[idx] := bhead[b];
        bhead[b] := idx;
        assert bhead[..] == heads[b := idx];
      }
      assert bnext[..idx + 1] == links + [bnext[idx]];
      rules := rules + [r];
      ok := true;
    }

    // Try the rules of one list.
    method TryList(head: int, chain: seq<Element>, st: Running) returns (st': Running)
      requires Valid() && |chain| > 0 && head < |rules|
      ensures Descends(bnext[..|rules|])
      ensures st' == TryAll(st, rules, ListFrom(bnext[..|rules|], head), chain)
    {
      hide TryRule, Members;
      ghost var next := bnext[..|rules|];
      ghost var all := TryAll(st, rules, ListFrom(next, head), chain);
      st' := st;
      var i := head;
      while i >= 0
        invariant i < |rules|
        invariant TryAll(st', rules, ListFrom(next, i), chain) == all
        decreases i + 1
      {
        assert ListFrom(next, i)[1..] == ListFrom(next, next[i]);
        st' := TryRule(st', rules, i, chain);
        i := bnext[i];
      }
    }

    // Try the rules filed under one name.
    method TryName(b: nat, chain: seq<Element>, st: Running) returns (st': Running)
      requires Valid() && |chain| > 0 && b < CSS_BUCKETS
      ensures st' == TryAll(st, rules, Members(rules, b, |rules|), chain)
    {
      assert bhead[..][b] == bhead[b];
      st' := TryList(bhead[b], chain, st);
    }

    // Try the rules filed under each word of the class attribute.
    method TryClasses(list: string, chain: seq<Element>, st: Running) returns (st': Running)
      requires Valid() && |chain| > 0
      ensures st' == TryAll(st, rules, OfNames(rules, Words(list, 0)), chain)
    {
      hide TryAll, Valid, Hash, Members;
      ghost var all := TryAll(st, rules, OfNames(rules, Words(list, 0)), chain);
      st' := st;
      var p := 0;
      while true
        invariant p <= |list| && Valid()
        invariant TryAll(st', rules, OfNames(rules, Words(list, p)), chain) == all
        decreases |list| - p
      {
        var s2 := Skip(list, p, true);
        var e := Skip(list, s2, false);
        if e == s2 {
          break;
        }
        var one := Cut(list[s2..e]);
        ghost var here := Members(rules, Hash(one), |rules|);
        ghost var rest := OfNames(rules, Words(list, e));
        assert Words(list, p)[0] == list[s2..e] && Words(list, p)[1..] == Words(list, e);
        TryAllConcat(st', rules, here, rest, chain);
        st' := TryName(Hash(one), chain, st');
        p := e;
      }
      TryAllOfNothing(st', rules, chain);
    }

    // css_match_chain, into an empty style.
    method MatchChain(chain: seq<Element>) returns (out: Style)
      requires Valid()
      ensures chain == [] ==> out == map[]
      ensures chain != [] ==> out == TryAll(Start(), rules, Visits(rules, chain[|chain| - 1]), chain).out
    {
      hide TryAll, Hash, Members, OfNames, OfName, Start;
      if |chain| == 0 {
        return map[];
      }
      var e := chain[|chain| - 1];
      ghost var univ, tags, ids := Members(rules, -1, |rules|), OfName(rules, e.tag), OfName(rules, e.id);
      ghost var classes := if e.classes.None? then [] else OfNames(rules, Words(e.classes.value, 0));
      var st := TryList(buniv, chain, Start());
      var st2 := TryOptional(e.tag, chain, st);
      TryAllConcat(Start(), rules, univ, tags, chain);
      var st3 := TryOptional(e.id, chain, st2);
      TryAllConcat(Start(), rules, univ + tags, ids, chain);
      var st4 := st3;
      if e.classes.Some? {
        st4 := TryClasses(e.classes.value, chain, st3);
      } else {
        TryAllOfNothing(st3, rules, chain);
      }
      TryAllConcat(Start(), rules, univ + tags + ids, classes, chain);
      out := st4.out;
    }

    method TryOptional(name: Option<string>, chain: seq<Element>, st: Running) returns (st': Running)
      requires Valid() && |chain| > 0
      ensures st' == TryAll(st, rules, OfName(rules, name), chain)
    {
      hide Valid, Hash, Members;
      if name.Some? {
        st' := TryName(Hash(name.value), chain, st);
      } else {
        st' := st;
      }
    }
  }

  lemma TryAllOfNothing(st: Running, rules: seq<Rule>, chain: seq<Element>)
    requires |chain| > 0
    ensures TryAll(st, rules, [], chain) == st
  {
  }

  // The style an element gets out of the buckets: a property with a field of its own has exactly
  // the value of the matching rule that is most important, else most specific, else last, among
  // all the rules there are; the box, width and border groups have whatever that rule sets.
  lemma BucketsDecide(rules: seq<Rule>, chain: seq<Element>, g: Group) returns (top: int)
    requires |chain| > 0 && SmallSpecs(rules) && forall i :: 0 <= i < |rules| ==> ShortNames(rules[i])
    ensures var out := TryAll(Start(), rules, Visits(rules, chain[|chain| - 1]), chain).out;
            && top < |rules|
            && (top < 0 ==> (forall i :: 0 <= i < |rules| ==> !Contends(rules, i, chain, g)) &&
                            (forall s :: s in out ==> GroupOf(s) != g))
            && (top >= 0 ==> Decides(rules, top, chain, g) &&
                             (forall s :: s in rules[top].style && GroupOf(s) == g ==> s in out && out[s] == rules[top].style[s]))
            && (SingleField(g) && top >= 0 ==> Only(g) in rules[top].style && Only(g) in out && out[Only(g)] == rules[top].style[Only(g)])
  {
    hide TryAll, Visits, Matches, RecordSets, ShortNames;
    VisitsCover(rules, chain);
    top := CascadeDecides(rules, Visits(rules, chain[|chain| - 1]), chain, g);
    if top >= 0 && SingleField(g) {
      OnlySlot(rules, top, chain, g);
    }
  }

  // And what else is in a group that shares a weight: exactly the fields some record among those
  // visits sets, each as its last record has it; so that it is what the deciding rule sets and no more
  // exactly when no record sets a field which that rule leaves alone.
  lemma BucketsLeave(rules: seq<Rule>, chain: seq<Element>, g: Group, top: nat)
    requires |chain| > 0 && SmallSpecs(rules) && forall i :: 0 <= i < |rules| ==> ShortNames(rules[i])
    requires top < |rules| && Decides(rules, top, chain, g)
    ensures var visits := Visits(rules, chain[|chain| - 1]);
            var out := TryAll(Start(), rules, visits, chain).out;
            && (forall s :: GroupOf(s) == g ==>
                  (s in out <==> exists k :: 0 <= k < |visits| && RecordSets(rules, visits, chain, s, k)))
            && (forall s, k :: GroupOf(s) == g && 0 <= k < |visits| && LastToSet(rules, visits, chain, s, k) ==>
                  s in out && out[s] == rules[visits[k]].style[s])
            && ((forall s :: s in out && GroupOf(s) == g ==> s in rules[top].style)
                <==> (forall s, k :: GroupOf(s) == g && 0 <= k < |visits| && RecordSets(rules, visits, chain, s, k) ==>
                        s in rules[top].style))
  {
    hide TryAll, Visits, Matches, Record, ShortNames, GroupOf, Decides;
    VisitsCover(rules, chain);
    var visits := Visits(rules, chain[|chain| - 1]);
    OnlyTheWinners(rules, visits, chain, g, top);
    forall s | GroupOf(s) == g
      ensures var out := TryAll(Start(), rules, visits, chain).out;
              && (s in out <==> exists k :: 0 <= k < |visits| && RecordSets(rules, visits, chain, s, k))
              && (forall k :: 0 <= k < |visits| && LastToSet(rules, visits, chain, s, k) ==>
                    s in out && out[s] == rules[visits[k]].style[s])
    {
      RecordsRemain(rules, visits, chain, s);
    }
  }

  // * { margin-left: 1 } and p { padding-top: 2 }
  function TwoRules(): (rules: seq<Rule>) {
    [Rule(Selector([Simple([], [], [], Anything, _ => true)], []), 0, {}, map[MarginLeft := One(1)]),
     Rule(Selector([Simple("p", [], [], Anything, _ => true)], []), 1, {}, map[PadTop := One(2)])]
  }

  lemma TwoRulesVisited(e: Element)
    requires e == Element(Some("p"), None, None, [], false, false)
    ensures Visits(TwoRules(), e) == [0, 1]
  {
    hide Hash;
    var rules := TwoRules();
    assert BucketOf(rules[0]) == -1 && BucketOf(rules[1]) == Hash("p");
    var h := Hash("p");
    assert Members(rules, -1, 0) == [] && Members(rules, h, 0) == [];
    assert Members(rules, -1, 1) == [0] && Members(rules, h, 1) == [];
    assert Members(rules, -1, 2) == [0] && Members(rules, h, 2) == [1];
  }

  lemma TwoRulesContend(e: Element)
    requires e == Element(Some("p"), None, None, [], false, false)
    ensures Contends(TwoRules(), 0, [e], Box) && Contends(TwoRules(), 1, [e], Box)
  {
    var rules := TwoRules();
    assert SimpleMatch(rules[0].sel.parts[0], e, true) && SimpleMatch(rules[1].sel.parts[0], e, true);
    assert MarginLeft in rules[0].style && PadTop in rules[1].style;
  }

  // A paragraph keeps the margin of the first rule, though the second decides the box.
  lemma LoserIsLeftBehind(e: Element)
    requires e == Element(Some("p"), None, None, [], false, false)
    ensures Decides(TwoRules(), 1, [e], Box) && MarginLeft !in TwoRules()[1].style
    ensures MarginLeft in TryAll(Start(), TwoRules(), Visits(TwoRules(), e), [e]).out
  {
    hide TryAll, Visits, Matches, Sets;
    TwoRulesVisited(e);
    TwoRulesContend(e);
    RecordsRemain(TwoRules(), [0, 1], [e], MarginLeft);
    assert RecordSets(TwoRules(), [0, 1], [e], MarginLeft, 0);
  }
}
