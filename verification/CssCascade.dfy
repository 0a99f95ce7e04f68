/**
 The cascade (userland/css.h, section 6.4.1 of CSS 2.1): which rule decides a property.

 The engine keeps, for every group of properties, the packed weight of the rule that set it last,
 and lets a rule through when its own weight is greater.  Rules arrive in any order, some of them
 more than once.
 */
module CssCascade {
  import opened CssNames
  import opened CssSelector
  import CssSpecificity

  const CSS_MAX_RULES := 24000
  const CSS_NAME_MAX := 40

  // What is decided together.  Box, Width and Border have several slots, the others one each.
  datatype Group =
    | Display | Weight | Scale | Align | Color | Bg | Decor | Tcase | Vis
    | Fdir | Cols | Gap | Pos | Grow | Mt | Mb | Box | Width | Border

  datatype Slot =
    | Only(group: Group)
    | MarginLeft | MarginRight | PadTop | PadBottom | PadLeft | PadRight
    | WidthPair | MaxWidthPair
    | BorderTop | BorderBottom | BorderLeft | BorderRight | BorderColor

  function GroupOf(s: Slot): (g: Group) {
    match s
    case Only(g) => g
    case MarginLeft => Box
    case MarginRight => Box
    case PadTop => Box
    case PadBottom => Box
    case PadLeft => Box
    case PadRight => Box
    case WidthPair => Width
    case MaxWidthPair => Width
    case BorderTop => Border
    case BorderBottom => Border
    case BorderLeft => Border
    case BorderRight => Border
    case BorderColor => Border
  }

  // The groups with a single slot.
  predicate SingleField(g: Group) {
    g != Box && g != Width && g != Border
  }

  // The bit that marks a group important: direction and column count share one.
  function ImportantBit(g: Group): (bit: Group) {
    if g == Cols then Fdir else g
  }

  // A width is given in pixels or as a percentage; every other value is one number.
  datatype Value = One(v: int) | Length(px: int, pct: int)

  // What a rule sets, or what an element ends up with: a slot that was not set is not there.
  type Style = map<Slot, Value>

  datatype Rule = Rule(sel: Selector, spec: nat, important: set<Group>, style: Style)

  predicate Sets(r: Rule, g: Group) {
    exists s :: s in r.style && GroupOf(s) == g
  }

  predicate Important(r: Rule, g: Group) {
    ImportantBit(g) in r.important
  }

  predicate Matches(r: Rule, chain: seq<Element>)
    requires |chain| > 0
  {
    r.sel.Valid() && MatchFrom(r.sel, |r.sel.parts| - 1, chain, |chain| - 1)
  }

  // CSS_W
  function PackedWeight(r: Rule, g: Group, i: nat): (w: nat) {
    (r.spec + if Important(r, g) then 1000000 else 0) * 100000 + i
  }

  // ----- the running winner -----

  datatype Running = Running(out: Style, won: map<Group, int>)

  predicate Wins(r: Rule, g: Group, i: nat, won: map<Group, int>) {
    g in won && Sets(r, g) && PackedWeight(r, g, i) > won[g]
  }

  // css_try_rule, for a rule that matches: every group the rule wins takes the slots it sets.
  function Take(st: Running, r: Rule, i: nat): (st': Running) {
    Running(
      map s | s in st.out.Keys + r.style.Keys &&
              (s in st.out || Wins(r, GroupOf(s), i, st.won)) ::
        if s in r.style && Wins(r, GroupOf(s), i, st.won) then r.style[s] else st.out[s],
      map g | g in st.won :: if Wins(r, g, i, st.won) then PackedWeight(r, g, i) else st.won[g])
  }

  function TryRule(st: Running, rules: seq<Rule>, i: nat, chain: seq<Element>): (st': Running)
    requires |chain| > 0 && i < |rules|
  {
    if Matches(rules[i], chain) then Take(st, rules[i], i) else st
  }

  function TryAll(st: Running, rules: seq<Rule>, visits: seq<nat>, chain: seq<Element>): (st': Running)
    requires |chain| > 0 && forall k :: 0 <= k < |visits| ==> visits[k] < |rules|
    decreases |visits|
  {
    if visits == [] then st else TryAll(TryRule(st, rules, visits[0], chain), rules, visits[1..], chain)
  }

  lemma {:induction false} TryAllConcat(st: Running, rules: seq<Rule>, a: seq<nat>, b: seq<nat>, chain: seq<Element>)
    requires |chain| > 0
    requires forall k :: 0 <= k < |a| ==> a[k] < |rules|
    requires forall k :: 0 <= k < |b| ==> b[k] < |rules|
    ensures TryAll(st, rules, a + b, chain) == TryAll(TryAll(st, rules, a, chain), rules, b, chain)
    decreases |a|
  {
    hide TryRule;
    if a == [] {
      assert a + b == b;
    } else {
      assert (a + b)[1..] == a[1..] + b;
      TryAllConcat(TryRule(st, rules, a[0], chain), rules, a[1..], b, chain);
    }
  }

  // ----- one group at a time -----

  // The rule at i has a say in the group.
  predicate Contends(rules: seq<Rule>, i: nat, chain: seq<Element>, g: Group)
    requires |chain| > 0 && i < |rules|
  {
    Matches(rules[i], chain) && Sets(rules[i], g)
  }

  // Nothing has been set in the group yet, or it has the weight of rule top and everything that
  // rule sets in it.
  predicate Holds(st: Running, rules: seq<Rule>, chain: seq<Element>, g: Group, top: int)
    requires |chain| > 0 && top < |rules|
  {
    && g in st.won
    && (top < 0 ==> st.won[g] == -1)
    && (top >= 0 ==> Contends(rules, top, chain, g) && st.won[g] == PackedWeight(rules[top], g, top))
    && HasSlotsOf(st, rules, g, top)
  }

  predicate HasSlotsOf(st: Running, rules: seq<Rule>, g: Group, top: int)
    requires top < |rules|
  {
    top >= 0 ==>
      forall s :: s in rules[top].style && GroupOf(s) == g ==> s in st.out && st.out[s] == rules[top].style[s]
  }

  predicate AtLeast(rules: seq<Rule>, top: int, i: nat, g: Group)
    requires i < |rules| && top < |rules|
  {
    top >= 0 && PackedWeight(rules[top], g, top) >= PackedWeight(rules[i], g, i)
  }

  lemma TakeWon(st: Running, r: Rule, i: nat, g: Group)
    requires g in st.won && Wins(r, g, i, st.won)
    ensures var st' := Take(st, r, i);
            && g in st'.won && st'.won[g] == PackedWeight(r, g, i)
            && (forall s :: s in r.style && GroupOf(s) == g ==> s in st'.out && st'.out[s] == r.style[s])
            && (forall s :: s in st'.out && s !in r.style && GroupOf(s) == g ==> s in st.out && st'.out[s] == st.out[s])
  {
    hide Sets, PackedWeight, GroupOf;
  }

  lemma TakeLost(st: Running, r: Rule, i: nat, g: Group)
    requires g in st.won && !Wins(r, g, i, st.won)
    ensures var st' := Take(st, r, i);
            && g in st'.won && st'.won[g] == st.won[g]
            && (forall s :: s in st.out && GroupOf(s) == g ==> s in st'.out && st'.out[s] == st.out[s])
            && (forall s :: s in st'.out && GroupOf(s) == g ==> s in st.out)
  {
    hide Sets, PackedWeight, GroupOf;
  }

  lemma NewTop(st: Running, rules: seq<Rule>, i: nat, chain: seq<Element>, g: Group, top: int)
    requires |chain| > 0 && i < |rules| && top < |rules| && Holds(st, rules, chain, g, top)
    requires Matches(rules[i], chain) && Wins(rules[i], g, i, st.won)
    ensures Holds(Take(st, rules[i], i), rules, chain, g, i)
  {
    var r := rules[i];
    TakeWon(st, r, i, g);
    hide Take, PackedWeight, Sets, GroupOf, Matches;
  }

  // What the group held, the group still holds.
  predicate SameGroup(a: Running, b: Running, g: Group) {
    && (forall s :: s in a.out && GroupOf(s) == g ==> s in b.out && b.out[s] == a.out[s])
    && (forall s :: s in b.out && GroupOf(s) == g ==> s in a.out)
    && g in a.won && g in b.won && a.won[g] == b.won[g]
  }

  lemma SameGroupHolds(a: Running, b: Running, rules: seq<Rule>, chain: seq<Element>, g: Group, top: int)
    requires |chain| > 0 && top < |rules| && Holds(a, rules, chain, g, top) && SameGroup(a, b, g)
    ensures Holds(b, rules, chain, g, top)
  {
    hide PackedWeight, Sets, GroupOf, Matches;
  }

  lemma OldTop(st: Running, rules: seq<Rule>, i: nat, chain: seq<Element>, g: Group, top: int)
    requires |chain| > 0 && i < |rules| && top < |rules| && Holds(st, rules, chain, g, top)
    requires !Wins(rules[i], g, i, st.won)
    ensures Holds(Take(st, rules[i], i), rules, chain, g, top)
  {
    assert g in st.won;
    TakeLost(st, rules[i], i, g);
    hide Take, GroupOf, Wins, Holds;
    SameGroupHolds(st, Take(st, rules[i], i), rules, chain, g, top);
  }

  // Trying one rule keeps a group in order, under the same rule or under the new one.
  lemma TryKeepsGroup(st: Running, rules: seq<Rule>, i: nat, chain: seq<Element>, g: Group, top: int)
      returns (top': int)
    requires |chain| > 0 && i < |rules| && top < |rules| && Holds(st, rules, chain, g, top)
    ensures top' < |rules| && Holds(TryRule(st, rules, i, chain), rules, chain, g, top')
    ensures Contends(rules, i, chain, g) ==> AtLeast(rules, top', i, g)
    ensures forall j :: 0 <= j < |rules| && AtLeast(rules, top, j, g) ==> AtLeast(rules, top', j, g)
  {
    hide Matches, PackedWeight, Sets, GroupOf, Take, HasSlotsOf;
    var r := rules[i];
    top' := top;
    if Matches(r, chain) {
      if Wins(r, g, i, st.won) {
        NewTop(st, rules, i, chain, g, top);
        top' := i;
      } else {
        OldTop(st, rules, i, chain, g, top);
      }
    }
  }

  // Whatever is visited, in whatever order and however often: the group ends up with the slots of
  // a rule no contender visited outweighs.
  lemma {:induction false} TryAllKeepsGroup(st: Running, rules: seq<Rule>, visits: seq<nat>, chain: seq<Element>,
                                            g: Group, top: int) returns (top': int)
    requires |chain| > 0 && forall k :: 0 <= k < |visits| ==> visits[k] < |rules|
    requires top < |rules| && Holds(st, rules, chain, g, top)
    ensures top' < |rules| && Holds(TryAll(st, rules, visits, chain), rules, chain, g, top')
    ensures forall k :: 0 <= k < |visits| && Contends(rules, visits[k], chain, g) ==> AtLeast(rules, top', visits[k], g)
    ensures forall j :: 0 <= j < |rules| && AtLeast(rules, top, j, g) ==> AtLeast(rules, top', j, g)
    decreases |visits|
  {
    hide Holds, Contends, AtLeast, TryRule;
    top' := top;
    if visits != [] {
      var mid := TryKeepsGroup(st, rules, visits[0], chain, g, top);
      var next := TryRule(st, rules, visits[0], chain);
      top' := TryAllKeepsGroup(next, rules, visits[1..], chain, g, mid);
      forall k | 0 <= k < |visits| && Contends(rules, visits[k], chain, g)
        ensures AtLeast(rules, top', visits[k], g)
      {
        if k > 0 {
          assert visits[k] == visits[1..][k - 1];
        }
      }
    }
  }

  // ----- what is left in a group -----

  // The k-th visit is a record: a rule with a say in the group, heavier than all of those before.
  predicate Record(rules: seq<Rule>, visits: seq<nat>, chain: seq<Element>, g: Group, k: nat)
    requires |chain| > 0 && k < |visits| && forall j :: 0 <= j < |visits| ==> visits[j] < |rules|
  {
    && Contends(rules, visits[k], chain, g)
    && forall j :: 0 <= j < k && Contends(rules, visits[j], chain, g) ==>
         PackedWeight(rules[visits[j]], g, visits[j]) < PackedWeight(rules[visits[k]], g, visits[k])
  }

  predicate RecordSets(rules: seq<Rule>, visits: seq<nat>, chain: seq<Element>, s: Slot, k: nat)
    requires |chain| > 0 && k < |visits| && forall j :: 0 <= j < |visits| ==> visits[j] < |rules|
  {
    Record(rules, visits, chain, GroupOf(s), k) && s in rules[visits[k]].style
  }

  predicate LastToSet(rules: seq<Rule>, visits: seq<nat>, chain: seq<Element>, s: Slot, k: nat)
    requires |chain| > 0 && k < |visits| && forall j :: 0 <= j < |visits| ==> visits[j] < |rules|
  {
    RecordSets(rules, visits, chain, s, k) && forall j :: k < j < |visits| ==> !RecordSets(rules, visits, chain, s, j)
  }

  // The last record among the first n visits that sets the slot.
  function LastRecord(rules: seq<Rule>, visits: seq<nat>, chain: seq<Element>, s: Slot, n: nat): (k: int)
    requires |chain| > 0 && n <= |visits| && forall j :: 0 <= j < |visits| ==> visits[j] < |rules|
    ensures -1 <= k < n
  {
    if n == 0 then -1
    else if RecordSets(rules, visits, chain, s, n - 1) then n - 1
    else LastRecord(rules, visits, chain, s, n - 1)
  }

  lemma {:induction false} LastRecordIs(rules: seq<Rule>, visits: seq<nat>, chain: seq<Element>, s: Slot, n: nat)
    requires |chain| > 0 && n <= |visits| && forall j :: 0 <= j < |visits| ==> visits[j] < |rules|
    ensures var k := LastRecord(rules, visits, chain, s, n);
            && (k >= 0 ==> RecordSets(rules, visits, chain, s, k))
            && (forall j :: k < j < n ==> !RecordSets(rules, visits, chain, s, j))
  {
    hide RecordSets;
    if n > 0 && !RecordSets(rules, visits, chain, s, n - 1) {
      LastRecordIs(rules, visits, chain, s, n - 1);
    }
  }

  // The weight the group has reached is that of the heaviest contender so far.
  predicate Reached(won: int, rules: seq<Rule>, visits: seq<nat>, chain: seq<Element>, g: Group, n: nat)
    requires |chain| > 0 && n <= |visits| && forall j :: 0 <= j < |visits| ==> visits[j] < |rules|
  {
    && (forall j :: 0 <= j < n && Contends(rules, visits[j], chain, g) ==>
          PackedWeight(rules[visits[j]], g, visits[j]) <= won)
    && (won == -1 || exists j :: 0 <= j < n && Contends(rules, visits[j], chain, g)
                       && PackedWeight(rules[visits[j]], g, visits[j]) == won)
  }

  // The slot has the value of the last record that set it, or is not there.
  predicate Keeps(out: Style, rules: seq<Rule>, visits: seq<nat>, chain: seq<Element>, s: Slot, n: nat)
    requires |chain| > 0 && n <= |visits| && forall j :: 0 <= j < |visits| ==> visits[j] < |rules|
  {
    var k := LastRecord(rules, visits, chain, s, n);
    if k < 0 then s !in out
    else s in out && s in rules[visits[k]].style && out[s] == rules[visits[k]].style[s]
  }

  // A rule takes the group exactly when its visit is a record.
  lemma RecordWins(won: map<Group, int>, rules: seq<Rule>, visits: seq<nat>, chain: seq<Element>, g: Group, n: nat)
    requires |chain| > 0 && n < |visits| && forall j :: 0 <= j < |visits| ==> visits[j] < |rules|
    requires g in won && Reached(won[g], rules, visits, chain, g, n)
    ensures var i := visits[n];
            Matches(rules[i], chain) && Wins(rules[i], g, i, won) <==> Record(rules, visits, chain, g, n)
  {
    hide Matches, Sets, PackedWeight;
    if won[g] != -1 {
      var j :| 0 <= j < n && Contends(rules, visits[j], chain, g) && PackedWeight(rules[visits[j]], g, visits[j]) == won[g];
    }
  }

  lemma TryReaches(st: Running, rules: seq<Rule>, visits: seq<nat>, chain: seq<Element>, g: Group, n: nat)
    requires |chain| > 0 && n < |visits| && forall j :: 0 <= j < |visits| ==> visits[j] < |rules|
    requires g in st.won && Reached(st.won[g], rules, visits, chain, g, n)
    ensures var st' := TryRule(st, rules, visits[n], chain);
            g in st'.won && Reached(st'.won[g], rules, visits, chain, g, n + 1)
  {
    hide Matches, Sets, PackedWeight, Take;
    var i := visits[n];
    var r := rules[i];
    if Matches(r, chain) {
      if Wins(r, g, i, st.won) {
        TakeWon(st, r, i, g);
        assert Contends(rules, visits[n], chain, g);
      } else {
        TakeLost(st, r, i, g);
      }
    }
  }

  lemma TryKeeps(st: Running, rules: seq<Rule>, visits: seq<nat>, chain: seq<Element>, s: Slot, n: nat)
    requires |chain| > 0 && n < |visits| && forall j :: 0 <= j < |visits| ==> visits[j] < |rules|
    requires GroupOf(s) in st.won && Reached(st.won[GroupOf(s)], rules, visits, chain, GroupOf(s), n)
    requires Keeps(st.out, rules, visits, chain, s, n)
    ensures Keeps(TryRule(st, rules, visits[n], chain).out, rules, visits, chain, s, n + 1)
  {
    hide Matches, Sets, PackedWeight, Take, Reached, Record, GroupOf;
    var i, g := visits[n], GroupOf(s);
    var r := rules[i];
    RecordWins(st.won, rules, visits, chain, g, n);
    if Matches(r, chain) {
      if Wins(r, g, i, st.won) {
        TakeWon(st, r, i, g);
        TakeKeepsOthers(st, r, i, s);
      } else {
        TakeLost(st, r, i, g);
      }
    }
  }

  lemma TakeKeepsOthers(st: Running, r: Rule, i: nat, s: Slot)
    ensures s !in r.style ==> (s in Take(st, r, i).out <==> s in st.out)
  {
  }

  lemma {:induction false} PrefixKeeps(rules: seq<Rule>, visits: seq<nat>, chain: seq<Element>, s: Slot, n: nat)
    requires |chain| > 0 && n <= |visits| && forall j :: 0 <= j < |visits| ==> visits[j] < |rules|
    ensures var st := TryAll(Start(), rules, visits[..n], chain);
            && GroupOf(s) in st.won && Reached(st.won[GroupOf(s)], rules, visits, chain, GroupOf(s), n)
            && Keeps(st.out, rules, visits, chain, s, n)
  {
    hide Reached, Keeps, TryRule, GroupOf;
    if n == 0 {
      NothingKept(rules, visits, chain, s);
    } else {
      PrefixKeeps(rules, visits, chain, s, n - 1);
      var st := TryAll(Start(), rules, visits[..n - 1], chain);
      assert visits[..n] == visits[..n - 1] + [visits[n - 1]];
      TryAllConcat(Start(), rules, visits[..n - 1], [visits[n - 1]], chain);
      OneVisit(st, rules, visits[n - 1], chain);
      TryReaches(st, rules, visits, chain, GroupOf(s), n - 1);
      TryKeeps(st, rules, visits, chain, s, n - 1);
    }
  }

  lemma OneVisit(st: Running, rules: seq<Rule>, i: nat, chain: seq<Element>)
    requires |chain| > 0 && i < |rules|
    ensures TryAll(st, rules, [i], chain) == TryRule(st, rules, i, chain)
  {
    hide TryRule;
    assert [i][1..] == [];
  }

  lemma NothingKept(rules: seq<Rule>, visits: seq<nat>, chain: seq<Element>, s: Slot)
    requires |chain| > 0 && forall j :: 0 <= j < |visits| ==> visits[j] < |rules|
    ensures var st := TryAll(Start(), rules, visits[..0], chain);
            && GroupOf(s) in st.won && Reached(st.won[GroupOf(s)], rules, visits, chain, GroupOf(s), 0)
            && Keeps(st.out, rules, visits, chain, s, 0)
  {
    EveryGroup(GroupOf(s));
  }

  // Whatever is visited, in whatever order and however often: a field is in the style exactly when
  // some record sets it, and has the value of the last one that does.
  lemma RecordsRemain(rules: seq<Rule>, visits: seq<nat>, chain: seq<Element>, s: Slot)
    requires |chain| > 0 && forall j :: 0 <= j < |visits| ==> visits[j] < |rules|
    ensures var out := TryAll(Start(), rules, visits, chain).out;
            && (s in out <==> exists k :: 0 <= k < |visits| && RecordSets(rules, visits, chain, s, k))
            && (forall k :: 0 <= k < |visits| && LastToSet(rules, visits, chain, s, k) ==>
                  s in out && out[s] == rules[visits[k]].style[s])
  {
    hide TryAll, RecordSets, Reached;
    PrefixKeeps(rules, visits, chain, s, |visits|);
    assert visits[..|visits|] == visits;
    var last := LastRecord(rules, visits, chain, s, |visits|);
    LastRecordIs(rules, visits, chain, s, |visits|);
    if last >= 0 {
      assert RecordSets(rules, visits, chain, s, last);
    }
  }

  // ----- the order that decides -----

  // More important, else more specific, else later (section 6.4.1 of CSS 2.1).
  predicate Outranks(rules: seq<Rule>, i: nat, j: nat, g: Group)
    requires i < |rules| && j < |rules|
  {
    var a, b := rules[i], rules[j];
    if Important(a, g) != Important(b, g) then Important(a, g)
    else if a.spec != b.spec then a.spec > b.spec
    else i > j
  }

  // The rule at j, not important, stays below the important rule at i.
  predicate StaysBelow(rules: seq<Rule>, i: nat, j: nat, g: Group)
    requires i < |rules| && j < |rules|
  {
    Important(rules[i], g) && !Important(rules[j], g) ==>
      rules[j].spec < rules[i].spec + 1000000 || (rules[j].spec == rules[i].spec + 1000000 && j < i)
  }

  // For two rules, comparing packed weights is comparing importance, specificity and position
  // exactly when no specificity reaches across the step that importance makes.
  lemma PackedOrder(rules: seq<Rule>, i: nat, j: nat, g: Group)
    requires i < |rules| && j < |rules| && i != j && |rules| <= CSS_MAX_RULES
    ensures (PackedWeight(rules[i], g, i) > PackedWeight(rules[j], g, j) <==> Outranks(rules, i, j, g))
       <==> StaysBelow(rules, i, j, g) && StaysBelow(rules, j, i, g)
  {
  }

  // ----- the element's style -----

  function Start(): (st: Running) {
    Running(map[], map g | g in AllGroups() :: -1)
  }

  function AllGroups(): (gs: set<Group>) {
    {Display, Weight, Scale, Align, Color, Bg, Decor, Tcase, Vis, Fdir, Cols, Gap, Pos, Grow, Mt, Mb, Box, Width, Border}
  }

  lemma EveryGroup(g: Group)
    ensures g in AllGroups()
  {
    match g
    case Display => case Weight => case Scale => case Align => case Color => case Bg => case Decor =>
    case Tcase => case Vis => case Fdir => case Cols => case Gap => case Pos => case Grow =>
    case Mt => case Mb => case Box => case Width => case Border =>
  }

  // The rule the cascade of section 6.4.1 picks for the group, out of all rules there are.
  predicate Decides(rules: seq<Rule>, top: nat, chain: seq<Element>, g: Group)
    requires |chain| > 0 && top < |rules|
  {
    && Contends(rules, top, chain, g)
    && forall j :: 0 <= j < |rules| && j != top && Contends(rules, j, chain, g) ==> Outranks(rules, top, j, g)
  }

  // Some selection of rules to try, in some order, that leaves no matching rule out.
  predicate Covers(rules: seq<Rule>, visits: seq<nat>, chain: seq<Element>)
    requires |chain| > 0
  {
    && (forall k :: 0 <= k < |visits| ==> visits[k] < |rules|)
    && (forall i :: 0 <= i < |rules| && Matches(rules[i], chain) ==> i in visits)
  }

  predicate SmallSpecs(rules: seq<Rule>) {
    |rules| <= CSS_MAX_RULES && forall i :: 0 <= i < |rules| ==> rules[i].spec < 1000000
  }

  lemma PackedAgrees(rules: seq<Rule>, i: nat, j: nat, g: Group)
    requires i < |rules| && j < |rules| && i != j && SmallSpecs(rules)
    requires PackedWeight(rules[i], g, i) >= PackedWeight(rules[j], g, j)
    ensures Outranks(rules, i, j, g)
  {
    PackedOrder(rules, i, j, g);
    PackedOrder(rules, j, i, g);
  }

  // For every group, over every such selection: with no contender the group stays unset;
  // otherwise one rule decides it, and everything that rule sets is in the style.
  lemma CascadeDecides(rules: seq<Rule>, visits: seq<nat>, chain: seq<Element>, g: Group) returns (top: int)
    requires |chain| > 0 && Covers(rules, visits, chain) && SmallSpecs(rules)
    ensures var out := TryAll(Start(), rules, visits, chain).out;
            && top < |rules|
            && (top < 0 ==> (forall i :: 0 <= i < |rules| ==> !Contends(rules, i, chain, g)) &&
                            (forall s :: s in out ==> GroupOf(s) != g))
            && (top >= 0 ==> Decides(rules, top, chain, g) &&
                             (forall s :: s in rules[top].style && GroupOf(s) == g ==> s in out && out[s] == rules[top].style[s]))
            && (forall s :: GroupOf(s) == g ==>
                  (s in out <==> exists k :: 0 <= k < |visits| && RecordSets(rules, visits, chain, s, k)))
  {
    hide TryAll, Matches, PackedWeight, Outranks, GroupOf, Sets, Record;
    EveryGroup(g);
    assert Holds(Start(), rules, chain, g, -1);
    top := TryAllKeepsGroup(Start(), rules, visits, chain, g, -1);
    forall i | 0 <= i < |rules| && Contends(rules, i, chain, g)
      ensures AtLeast(rules, top, i, g)
    {
      assert i in visits;
    }
    forall s | GroupOf(s) == g
      ensures s in TryAll(Start(), rules, visits, chain).out
         <==> exists k :: 0 <= k < |visits| && RecordSets(rules, visits, chain, s, k)
    {
      RecordsRemain(rules, visits, chain, s);
    }
    if top < 0 {
      NoRecords(rules, visits, chain, g);
    } else {
      forall j | 0 <= j < |rules| && j != top && Contends(rules, j, chain, g)
        ensures Outranks(rules, top, j, g)
      {
        PackedAgrees(rules, top, j, g);
      }
    }
  }

  lemma NoRecords(rules: seq<Rule>, visits: seq<nat>, chain: seq<Element>, g: Group)
    requires |chain| > 0 && forall j :: 0 <= j < |visits| ==> visits[j] < |rules|
    requires forall i :: 0 <= i < |rules| ==> !Contends(rules, i, chain, g)
    ensures forall s, k :: GroupOf(s) == g && 0 <= k < |visits| ==> !RecordSets(rules, visits, chain, s, k)
  {
    hide Contends, GroupOf;
  }

  // The group has the fields of the deciding rule and no others exactly when no record sets a field
  // which that rule leaves alone.
  lemma OnlyTheWinners(rules: seq<Rule>, visits: seq<nat>, chain: seq<Element>, g: Group, top: nat)
    requires |chain| > 0 && Covers(rules, visits, chain) && SmallSpecs(rules)
    requires top < |rules| && Decides(rules, top, chain, g)
    ensures var out := TryAll(Start(), rules, visits, chain).out;
            && (forall s :: s in rules[top].style && GroupOf(s) == g ==> s in out && out[s] == rules[top].style[s])
            && ((forall s :: s in out && GroupOf(s) == g ==> s in rules[top].style)
                <==> (forall s, k :: GroupOf(s) == g && 0 <= k < |visits| && RecordSets(rules, visits, chain, s, k) ==>
                        s in rules[top].style))
  {
    hide TryAll, Matches, Contends, RecordSets, GroupOf, Outranks, Covers;
    var t := CascadeDecides(rules, visits, chain, g);
    assert t >= 0;
    DecidesOnce(rules, t, top, chain, g);
  }

  // A property with a field of its own gets exactly the value of the deciding rule.
  lemma SingleFieldValue(rules: seq<Rule>, visits: seq<nat>, chain: seq<Element>, g: Group)
    requires |chain| > 0 && Covers(rules, visits, chain) && SmallSpecs(rules) && SingleField(g)
    ensures var out := TryAll(Start(), rules, visits, chain).out;
            && (Only(g) !in out <==> forall i :: 0 <= i < |rules| ==> !Contends(rules, i, chain, g))
            && (Only(g) in out ==>
                 exists top :: 0 <= top < |rules| && Decides(rules, top, chain, g)
                   && Only(g) in rules[top].style && out[Only(g)] == rules[top].style[Only(g)])
  {
    hide TryAll, Matches;
    var top := CascadeDecides(rules, visits, chain, g);
    hide Contends, Decides, RecordSets;
    if top >= 0 {
      OnlySlot(rules, top, chain, g);
    }
  }

  lemma OnlySlot(rules: seq<Rule>, top: nat, chain: seq<Element>, g: Group)
    requires |chain| > 0 && top < |rules| && Decides(rules, top, chain, g) && SingleField(g)
    ensures Contends(rules, top, chain, g) && Only(g) in rules[top].style && GroupOf(Only(g)) == g
  {
    var s :| s in rules[top].style && GroupOf(s) == g;
    assert s == Only(g);
  }

  // There is never more than one rule to decide.
  lemma DecidesOnce(rules: seq<Rule>, a: nat, b: nat, chain: seq<Element>, g: Group)
    requires |chain| > 0 && a < |rules| && b < |rules|
    requires Decides(rules, a, chain, g) && Decides(rules, b, chain, g)
    ensures a == b
  {
    hide Matches, Sets;
  }

  // The rule of a selector that is one compound without a tag, which sets a colour.
  function Coloured(qs: seq<CssSpecificity.Qualifier>, important: bool, colour: int): (r: Rule) {
    var c := CssSpecificity.Parsed([], qs);
    Rule(Selector(if c.None? then [] else [c.value.simple], []), if c.None? then 0 else c.value.spec,
         if important then {Color} else {}, map[Only(Color) := One(colour)])
  }

  // #a { color: 1 !important } and #a#a...#a { color: 2 }, an id 101 times.
  function ManyIdsSheet(): (rules: seq<Rule>) {
    [Coloured(CssSpecificity.Ids(1), true, 1), Coloured(CssSpecificity.Ids(101), false, 2)]
  }

  lemma ColouredMatches(n: nat, important: bool, colour: int, e: Element)
    requires n > 0 && e.id == Some("a")
    ensures var r := Coloured(CssSpecificity.Ids(n), important, colour);
            Matches(r, [e]) && r.spec == 10000 * n && Sets(r, Color) && (Important(r, Color) <==> important)
  {
    CssSpecificity.RepeatedId(n);
    hide CssSpecificity.Parsed, CssSpecificity.Ids;
    var r := Coloured(CssSpecificity.Ids(n), important, colour);
    assert SimpleMatch(r.sel.parts[0], e, true);
    assert Only(Color) in r.style && GroupOf(Only(Color)) == Color;
  }

  // An element with that id: the important rule should decide its colour, and the other one does.
  lemma ManyIdsBeatImportant(e: Element, visits: seq<nat>)
    requires e.id == Some("a") && Covers(ManyIdsSheet(), visits, [e])
    ensures Decides(ManyIdsSheet(), 0, [e], Color)
    ensures var out := TryAll(Start(), ManyIdsSheet(), visits, [e]).out;
            Only(Color) in out && out[Only(Color)] == One(2)
  {
    var rules := ManyIdsSheet();
    hide CssSpecificity.Ids, CssSpecificity.Parsed, Matches, TryAll;
    ColouredMatches(1, true, 1, e);
    ColouredMatches(101, false, 2, e);
    hide Sets;
    EveryGroup(Color);
    var top := TryAllKeepsGroup(Start(), rules, visits, [e], Color, -1);
    assert 1 in visits && Contends(rules, 1, [e], Color) && AtLeast(rules, top, 1, Color);
    assert top == 1;
  }

  // For the groups with several slots the fields the deciding rule leaves alone depend on the
  // order: a losing rule seen first leaves its own behind, seen last it leaves nothing.
  lemma LosersDependOnOrder(low: Rule, high: Rule, chain: seq<Element>)
    requires |chain| > 0 && Matches(low, chain) && Matches(high, chain) && low.spec == high.spec
    requires |low.important| == |high.important| == 0
    requires low.style == map[MarginLeft := One(1)] && high.style == map[PadTop := One(2)]
    ensures MarginLeft in TryAll(Start(), [low, high], [0, 1], chain).out
    ensures MarginLeft !in TryAll(Start(), [low, high], [1, 0], chain).out
  {
    hide Matches, TryAll;
    var rules := [low, high];
    assert MarginLeft in low.style && GroupOf(MarginLeft) == Box && Sets(low, Box);
    assert PadTop in high.style && GroupOf(PadTop) == Box && Sets(high, Box);
    hide Sets;
    assert Contends(rules, 0, chain, Box) && Contends(rules, 1, chain, Box);
    RecordsRemain(rules, [0, 1], chain, MarginLeft);
    assert RecordSets(rules, [0, 1], chain, MarginLeft, 0);
    RecordsRemain(rules, [1, 0], chain, MarginLeft);
    assert low.important == {} && high.important == {};
    assert PackedWeight(low, Box, 0) < PackedWeight(high, Box, 1);
    var visits: seq<nat> := [1, 0];
    assert visits[0] == 1 && visits[1] == 0 && !Record(rules, visits, chain, Box, 1);
  }
}
