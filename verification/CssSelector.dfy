/**
 Selectors and how they are matched against a chain of elements, root first (userland/css.h).
 */
module CssSelector {
  import opened CssNames

  datatype Option<T> = None | Some(value: T)

  datatype Pseudo = Anything | FirstChild | LastChild | Root | Never

  datatype Combinator = Descendant | Child

  // One compound selector; an empty name is one that was not given.  The attribute test is any
  // condition on the raw attribute text of an element.
  datatype Simple = Simple(tag: string, id: string, classes: seq<string>, pseudo: Pseudo, attribute: string -> bool)

  datatype Element = Element(tag: Option<string>, id: Option<string>, classes: Option<string>,
                             attributes: string, first: bool, last: bool)

  // combs[i] joins parts[i] to parts[i + 1]; the subject is the last part.
  datatype Selector = Selector(parts: seq<Simple>, combs: seq<Combinator>) {
    predicate Valid() {
      |parts| > 0 && |combs| >= |parts| - 1
    }
  }

  predicate HasClasses(e: Element, classes: seq<string>) {
    forall i :: 0 <= i < |classes| ==> e.classes.Some? && InList(e.classes.value, classes[i])
  }

  // css_simple_match
  predicate SimpleMatch(p: Simple, e: Element, isRoot: bool) {
    && p.pseudo != Never
    && (p.tag != [] ==> e.tag.Some? && SameName(e.tag.value, p.tag))
    && (p.id != [] ==> e.id.Some? && SameName(e.id.value, p.id))
    && HasClasses(e, p.classes)
    && (p.pseudo == FirstChild ==> e.first)
    && (p.pseudo == LastChild ==> e.last)
    && (p.pseudo == Root ==> isRoot)
    && p.attribute(e.attributes)
  }

  // css_match_from: part pi at chain position ei, the earlier parts somewhere above it.  A
  // descendant combinator tries every position above, nearest first.
  predicate MatchFrom(s: Selector, pi: nat, chain: seq<Element>, ei: int)
    requires s.Valid() && pi < |s.parts| && ei < |chain|
    decreases pi, ei + 1, 0
  {
    && ei >= 0
    && SimpleMatch(s.parts[pi], chain[ei], ei == 0)
    && (pi == 0 ||
        if s.combs[pi - 1] == Child
        then MatchFrom(s, pi - 1, chain, ei - 1)
        else MatchAbove(s, pi - 1, chain, ei - 1))
  }

  predicate MatchAbove(s: Selector, pi: nat, chain: seq<Element>, k: int)
    requires s.Valid() && pi < |s.parts| && k < |chain|
    decreases pi, k + 1, 1
  {
    k >= 0 && (MatchFrom(s, pi, chain, k) || MatchAbove(s, pi, chain, k - 1))
  }

  // ----- what a match is -----

  // The parts up to pi at these positions of the chain: each matches where it stands, they go
  // down the chain, and a child stands right below its parent.
  predicate Places(s: Selector, pi: nat, chain: seq<Element>, at: seq<nat>)
    requires s.Valid() && pi < |s.parts|
  {
    && |at| == pi + 1
    && (forall i :: 0 <= i <= pi ==> at[i] < |chain| && SimpleMatch(s.parts[i], chain[at[i]], at[i] == 0))
    && (forall i :: 0 < i <= pi ==> at[i - 1] < at[i])
    && (forall i :: 0 < i <= pi ==> s.combs[i - 1] == Child ==> at[i - 1] + 1 == at[i])
  }

  ghost predicate Placed(s: Selector, pi: nat, chain: seq<Element>, ei: int)
    requires s.Valid() && pi < |s.parts|
  {
    exists at: seq<nat> :: Places(s, pi, chain, at) && at[pi] == ei
  }

  // The backtracking search says yes exactly when the parts can be placed.
  lemma {:induction false} MatchIsPlacement(s: Selector, pi: nat, chain: seq<Element>, ei: int)
    requires s.Valid() && pi < |s.parts| && ei < |chain|
    ensures MatchFrom(s, pi, chain, ei) <==> Placed(s, pi, chain, ei)
    decreases pi, ei + 1, 0
  {
    hide SimpleMatch, MatchAbove;
    if MatchFrom(s, pi, chain, ei) {
      MatchIsSound(s, pi, chain, ei);
    }
    if Placed(s, pi, chain, ei) {
      var at: seq<nat> :| Places(s, pi, chain, at) && at[pi] == ei;
      if pi > 0 {
        assert Placed(s, pi - 1, chain, at[pi - 1]) by {
          assert at[..pi][pi - 1] == at[pi - 1];
        }
        MatchIsPlacement(s, pi - 1, chain, at[pi - 1]);
        AboveFinds(s, pi - 1, chain, ei - 1, at[pi - 1]);
      }
    }
  }

  lemma {:induction false} MatchIsSound(s: Selector, pi: nat, chain: seq<Element>, ei: int)
    requires s.Valid() && pi < |s.parts| && ei < |chain| && MatchFrom(s, pi, chain, ei)
    ensures Placed(s, pi, chain, ei)
    decreases pi, ei + 1, 0
  {
    hide SimpleMatch, MatchAbove;
    if pi == 0 {
      assert Places(s, 0, chain, [ei]);
    } else {
      var k := ei - 1;
      if s.combs[pi - 1] != Child {
        k := FoundAbove(s, pi - 1, chain, ei - 1);
      }
      MatchIsSound(s, pi - 1, chain, k);
      var at: seq<nat> :| Places(s, pi - 1, chain, at) && at[pi - 1] == k;
      assert (at + [ei])[pi] == ei;
    }
  }

  lemma {:induction false} FoundAbove(s: Selector, pi: nat, chain: seq<Element>, k: int) returns (j: int)
    requires s.Valid() && pi < |s.parts| && k < |chain| && MatchAbove(s, pi, chain, k)
    ensures 0 <= j <= k && MatchFrom(s, pi, chain, j)
    decreases k + 1
  {
    hide MatchFrom;
    j := k;
    if !MatchFrom(s, pi, chain, k) {
      j := FoundAbove(s, pi, chain, k - 1);
    }
  }

  lemma {:induction false} AboveFinds(s: Selector, pi: nat, chain: seq<Element>, k: int, j: nat)
    requires s.Valid() && pi < |s.parts| && j <= k < |chain| && MatchFrom(s, pi, chain, j)
    ensures MatchAbove(s, pi, chain, k)
    decreases k
  {
    hide MatchFrom;
    if j < k {
      AboveFinds(s, pi, chain, k - 1, j);
    }
  }
}
