/**
 Names as the style sheet engine compares them (userland/css.h): without regard to case, and
 hashed the same way.
 */
module CssNames {
  import opened Bytes

  function Lower(c: char): (r: char) {
    if 'A' <= c <= 'Z' then (c as int + 32) as char else c
  }

  function Lowered(s: string): (r: string)
    ensures |r| == |s| && forall i :: 0 <= i < |s| ==> r[i] == Lower(s[i])
  {
    seq(|s|, i requires 0 <= i < |s| => Lower(s[i]))
  }

  lemma LoweredTwice(s: string)
    ensures Lowered(Lowered(s)) == Lowered(s)
  {
  }

  predicate IsSpace(c: char) {
    c == ' ' || c == '\t' || c == '\n' || c == '\r' || c == '\U{c}'
  }

  // Equal but for case.
  predicate SameName(a: string, b: string) {
    Lowered(a) == Lowered(b)
  }

  function BytesOf(s: string): (b: seq<Byte>) {
    seq(|s|, i requires 0 <= i < |s| => s[i] as int % 256)
  }

  function Fnv(s: string): (h: nat)
    ensures h < 0x1_0000_0000
  {
    Fnv1a(BytesOf(Lowered(s)), FNV_START) as nat
  }

  lemma FnvIgnoresCase(a: string, b: string)
    requires SameName(a, b)
    ensures Fnv(a) == Fnv(b)
  {
  }

  // ----- the words of a list such as a class attribute -----

  // Where the first character of the wanted kind stands, from i on.
  function Skip(s: string, i: nat, spaces: bool): (j: nat)
    requires i <= |s|
    ensures i <= j <= |s| && (j < |s| ==> IsSpace(s[j]) != spaces)
    ensures forall k :: i <= k < j ==> IsSpace(s[k]) == spaces
    decreases |s| - i
  {
    if i < |s| && IsSpace(s[i]) == spaces then Skip(s, i + 1, spaces) else i
  }

  function Words(s: string, i: nat): (ws: seq<string>)
    requires i <= |s|
    decreases |s| - i
  {
    var a := Skip(s, i, true);
    var b := Skip(s, a, false);
    if b == a then [] else [s[a..b]] + Words(s, b)
  }

  // css_in_list: is the word, not itself empty, one of the list?
  predicate InList(list: string, word: string) {
    word != [] && exists w :: w in Words(list, 0) && SameName(w, word)
  }

  // ----- what the words are -----

  datatype Span = Span(a: nat, b: nat)

  // From a to b runs a word: no space inside, and a space or the end of the list on either side.
  predicate IsWord(s: string, w: Span) {
    && w.a < w.b <= |s| && (forall k :: w.a <= k < w.b ==> !IsSpace(s[k]))
    && (w.a == 0 || IsSpace(s[w.a - 1])) && (w.b == |s| || IsSpace(s[w.b]))
  }

  // The word that runs there is this one.
  predicate Stands(s: string, w: Span, word: string) {
    IsWord(s, w) && SameName(s[w.a..w.b], word)
  }

  // No word goes on across i.
  predicate Between(s: string, i: nat) {
    i <= |s| && (i == 0 || i == |s| || IsSpace(s[i - 1]) || IsSpace(s[i]))
  }

  // Where the words from i on stand.
  function Spans(s: string, i: nat): (l: seq<Span>)
    requires i <= |s|
    ensures forall k :: 0 <= k < |l| ==> i <= l[k].a <= l[k].b <= |s|
    decreases |s| - i
  {
    var a := Skip(s, i, true);
    var b := Skip(s, a, false);
    if b == a then [] else [Span(a, b)] + Spans(s, b)
  }

  lemma {:induction false} WordsOfSpans(s: string, i: nat)
    requires i <= |s|
    ensures var ws, l := Words(s, i), Spans(s, i);
            |ws| == |l| && forall k :: 0 <= k < |l| ==> ws[k] == s[l[k].a..l[k].b]
    decreases |s| - i
  {
    var a := Skip(s, i, true);
    var b := Skip(s, a, false);
    if b > a {
      WordsOfSpans(s, b);
    }
  }

  // The first word from i on.
  lemma FirstWord(s: string, i: nat)
    requires Between(s, i)
    ensures var a := Skip(s, i, true);
            var b := Skip(s, a, false);
            && Between(s, b) && (a < b ==> IsWord(s, Span(a, b)))
            && forall w: Span :: i <= w.a && IsWord(s, w) ==> a < b && (w == Span(a, b) || b < w.a)
  {
    var a := Skip(s, i, true);
    var b := Skip(s, a, false);
    assert a > i ==> IsSpace(s[a - 1]);
    forall w: Span | i <= w.a && IsWord(s, w)
      ensures a < b && (w == Span(a, b) || b < w.a)
    {
      OtherWord(s, i, a, b, w);
    }
  }

  lemma OtherWord(s: string, i: nat, a: nat, b: nat, w: Span)
    requires i <= a <= b <= |s| && i <= w.a && IsWord(s, w)
    requires a < |s| ==> !IsSpace(s[a])
    requires (forall k :: i <= k < a ==> IsSpace(s[k])) && (forall k :: a <= k < b ==> !IsSpace(s[k]))
    requires b < |s| ==> IsSpace(s[b])
    ensures a < b && (w == Span(a, b) || b < w.a)
  {
    assert a <= w.a by {
      assert !IsSpace(s[w.a]);
    }
  }

  predicate AllWords(s: string, l: seq<Span>) {
    forall k :: 0 <= k < |l| ==> IsWord(s, l[k])
  }

  predicate InOrder(l: seq<Span>) {
    forall j, k :: 0 <= j < k < |l| ==> l[j].b < l[k].a
  }

  ghost predicate NoneMissing(s: string, i: nat, l: seq<Span>) {
    forall w: Span :: i <= w.a && IsWord(s, w) ==> w in l
  }

  // The words are exactly these stretches, each once, in order.
  lemma {:induction false} SpansAreWords(s: string, i: nat)
    requires i <= |s| && Between(s, i)
    ensures AllWords(s, Spans(s, i)) && InOrder(Spans(s, i)) && NoneMissing(s, i, Spans(s, i))
    decreases |s| - i
  {
    hide IsWord, IsSpace, Between;
    var a := Skip(s, i, true);
    var b := Skip(s, a, false);
    FirstWord(s, i);
    if b > a {
      hide AllWords, InOrder, NoneMissing;
      SpansAreWords(s, b);
      OneWordMore(s, i, Span(a, b), Spans(s, b));
    }
  }

  lemma OneWordMore(s: string, i: nat, first: Span, rest: seq<Span>)
    requires IsWord(s, first) && AllWords(s, rest) && InOrder(rest) && NoneMissing(s, first.b, rest)
    requires forall k :: 0 <= k < |rest| ==> first.b <= rest[k].a
    requires forall w: Span :: i <= w.a && IsWord(s, w) ==> w == first || first.b < w.a
    ensures AllWords(s, [first] + rest) && InOrder([first] + rest) && NoneMissing(s, i, [first] + rest)
  {
    var l := [first] + rest;
    forall k | 0 <= k < |rest|
      ensures first.b < rest[k].a
    {
      NextWord(s, first, rest[k]);
    }
    hide IsWord;
    assert forall k :: 0 < k < |l| ==> l[k] == rest[k - 1];
  }

  lemma NextWord(s: string, v: Span, w: Span)
    requires IsWord(s, v) && IsWord(s, w) && v.b <= w.a
    ensures v.b < w.a
  {
  }

  // css_in_list finds a word exactly when it stands in the list.
  lemma InListFinds(list: string, word: string)
    ensures InList(list, word) <==> word != [] && exists w: Span :: Stands(list, w, word)
  {
    hide SameName, Words, Spans, IsSpace, IsWord;
    if InList(list, word) {
      var w :| w in Words(list, 0) && SameName(w, word);
      StandsSomewhere(list, w, word);
    }
    if w: Span :| word != [] && Stands(list, w, word) {
      IsListed(list, w);
    }
  }

  lemma StandsSomewhere(list: string, w: string, word: string)
    requires w in Words(list, 0) && SameName(w, word)
    ensures exists v: Span :: Stands(list, v, word)
  {
    hide SameName, Words, Spans, IsSpace, IsWord;
    var l, ws := Spans(list, 0), Words(list, 0);
    WordsOfSpans(list, 0);
    SpansAreWords(list, 0);
    var k :| 0 <= k < |ws| && ws[k] == w;
    assert Stands(list, l[k], word);
  }

  lemma IsListed(list: string, w: Span)
    requires IsWord(list, w)
    ensures w.a <= w.b <= |list| && list[w.a..w.b] in Words(list, 0)
  {
    assert w.a <= w.b <= |list|;
    hide Words, Spans, IsSpace, IsWord;
    var l, ws := Spans(list, 0), Words(list, 0);
    WordsOfSpans(list, 0);
    SpansAreWords(list, 0);
    var k :| 0 <= k < |l| && l[k] == w;
    assert ws[k] in ws;
  }
}
