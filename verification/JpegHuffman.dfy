/**
 Huffman tables of a JPEG file (userland/img.h): the three arrays the decoder is driven by, the
 search through them, and the code they have to agree with, which is the one that Annex C of
 ITU-T T.81 assigns to a list of code lengths.
 */
module JpegHuffman {
  import opened Bytes
  import opened JpegBits

  // counts[l] symbols have a code of l bits, l from 1 to 16; vals lists the symbols in the order
  // of their codes.
  datatype Table = Table(counts: seq<nat>, vals: seq<Byte>) {
    predicate Valid() {
      |counts| == 17 && |vals| == ValPtr(counts, 17) && |vals| <= 256
    }
  }

  // ----- the decoder's arrays -----

  function ValPtr(counts: seq<nat>, l: nat): (k: nat)
    requires |counts| == 17 && l <= 17
  {
    if l <= 1 then 0 else ValPtr(counts, l - 1) + counts[l - 1]
  }

  function MinCode(counts: seq<nat>, l: nat): (c: nat)
    requires |counts| == 17 && l <= 17
  {
    if l <= 1 then 0 else 2 * (MinCode(counts, l - 1) + counts[l - 1])
  }

  function MaxCode(counts: seq<nat>, l: nat): (c: int)
    requires |counts| == 17 && 1 <= l <= 16
  {
    if counts[l] > 0 then MinCode(counts, l) + counts[l] - 1 else -1
  }

  // The length of the code that the bits start with: 17 when there is none of 16 bits or fewer.
  function CodeLength(bits: seq<Bit>, counts: seq<nat>, l: nat): (n: nat)
    requires |counts| == 17 && 1 <= l <= 17
    ensures l <= n <= 17
    decreases 17 - l
  {
    if l > 16 || Value(bits, l) <= MaxCode(counts, l) then l else CodeLength(bits, counts, l + 1)
  }

  // The place in vals that the bits lead to.
  function CodeIndex(bits: seq<Bit>, counts: seq<nat>, l: nat): (i: int)
    requires |counts| == 17 && 1 <= l <= 16
  {
    ValPtr(counts, l) + Value(bits, l) - MinCode(counts, l)
  }

  function Symbol(bits: seq<Bit>, t: Table): (sym: Byte) {
    if |t.counts| != 17 then 0 else
      var l := CodeLength(bits, t.counts, 1);
      if l > 16 then 0 else
        var i := CodeIndex(bits, t.counts, l);
        if 0 <= i < |t.vals| then t.vals[i] else 0
  }

  // What is left after one symbol.
  function AfterSymbol(bits: seq<Bit>, t: Table): (rest: seq<Bit>) {
    if |t.counts| != 17 then [] else Drop(bits, CodeLength(bits, t.counts, 1))
  }

  // ----- whatever the bits, the index is one of a symbol of that length -----

  lemma {:induction false} NotBelowMinCode(bits: seq<Bit>, counts: seq<nat>, l: nat)
    requires |counts| == 17 && 1 <= l <= 16 && l <= CodeLength(bits, counts, 1)
    ensures Value(bits, l) >= MinCode(counts, l)
  {
    if l > 1 {
      NotBelowMinCode(bits, counts, l - 1);
      SearchPasses(bits, counts, 1, l - 1);
    }
  }

  lemma {:induction false} SearchPasses(bits: seq<Bit>, counts: seq<nat>, from: nat, l: nat)
    requires |counts| == 17 && 1 <= from <= l <= 16 && l < CodeLength(bits, counts, from)
    ensures Value(bits, l) > MaxCode(counts, l)
    decreases l - from
  {
    if from < l {
      SearchPasses(bits, counts, from + 1, l);
    }
  }

  lemma {:induction false} SearchStops(bits: seq<Bit>, counts: seq<nat>, from: nat)
    requires |counts| == 17 && 1 <= from <= 16 && CodeLength(bits, counts, from) <= 16
    ensures var l := CodeLength(bits, counts, from);
            Value(bits, l) <= MaxCode(counts, l)
    decreases 17 - from
  {
    if Value(bits, from) > MaxCode(counts, from) {
      SearchStops(bits, counts, from + 1);
    }
  }

  lemma {:induction false} ValPtrGrows(counts: seq<nat>, a: nat, b: nat)
    requires |counts| == 17 && a <= b <= 17
    ensures ValPtr(counts, a) <= ValPtr(counts, b)
    decreases b
  {
    if a < b {
      ValPtrGrows(counts, a, b - 1);
    }
  }

  lemma IndexStaysInside(bits: seq<Bit>, counts: seq<nat>)
    requires |counts| == 17 && CodeLength(bits, counts, 1) <= 16
    ensures var l := CodeLength(bits, counts, 1);
            ValPtr(counts, l) <= CodeIndex(bits, counts, l) < ValPtr(counts, l + 1) <= ValPtr(counts, 17)
  {
    var l := CodeLength(bits, counts, 1);
    NotBelowMinCode(bits, counts, l);
    SearchStops(bits, counts, 1);
    ValPtrGrows(counts, l + 1, 17);
  }

  // ----- Annex C -----

  // The list of code lengths (section C.2, HUFFSIZE).
  function Sizes(counts: seq<nat>, l: nat): (s: seq<nat>)
    requires |counts| == 17 && 1 <= l <= 17
    decreases 17 - l
  {
    if l == 17 then [] else seq(counts[l], _ => l) + Sizes(counts, l + 1)
  }

  predicate Ascending(s: seq<nat>) {
    forall i :: 0 < i < |s| ==> s[i - 1] <= s[i]
  }

  function CodeSizes(counts: seq<nat>): (s: seq<nat>)
    requires |counts| == 17
    ensures Ascending(s) && |s| == ValPtr(counts, 17)
  {
    SizesAscend(counts);
    SizesLength(counts, 1);
    Sizes(counts, 1)
  }

  // The codes (section C.2, HUFFCODE): one more than the one before, shifted to its own length.
  function HuffCode(sizes: seq<nat>, k: nat): (c: nat)
    requires k < |sizes| && Ascending(sizes)
  {
    if k == 0 then 0 else (HuffCode(sizes, k - 1) + 1) * Pow2(sizes[k] - sizes[k - 1])
  }

  lemma {:induction false} SizesInterval(counts: seq<nat>, l: nat, k: nat)
    requires |counts| == 17 && 1 <= l <= 17 && k < |Sizes(counts, l)|
    ensures var s := Sizes(counts, l)[k];
            l <= s <= 16 && ValPtr(counts, s) <= ValPtr(counts, l) + k < ValPtr(counts, s + 1)
    decreases 17 - l
  {
    if k >= counts[l] {
      SizesInterval(counts, l + 1, k - counts[l]);
    }
  }

  lemma {:induction false} SizesLength(counts: seq<nat>, l: nat)
    requires |counts| == 17 && 1 <= l <= 17
    ensures ValPtr(counts, l) + |Sizes(counts, l)| == ValPtr(counts, 17)
    decreases 17 - l
  {
    if l < 17 {
      SizesLength(counts, l + 1);
    }
  }

  lemma SizesAscend(counts: seq<nat>)
    requires |counts| == 17
    ensures Ascending(Sizes(counts, 1))
  {
    hide Sizes, ValPtr;
    var s := Sizes(counts, 1);
    forall i | 0 < i < |s|
      ensures s[i - 1] <= s[i]
    {
      SizesInterval(counts, 1, i - 1);
      SizesInterval(counts, 1, i);
      if s[i] < s[i - 1] {
        ValPtrGrows(counts, s[i] + 1, s[i - 1]);
      }
    }
  }

  lemma {:induction false} MinCodeAcrossGap(counts: seq<nat>, a: nat, b: nat)
    requires |counts| == 17 && 1 <= a <= b <= 17 && ValPtr(counts, a) == ValPtr(counts, b)
    ensures MinCode(counts, b) == MinCode(counts, a) * Pow2(b - a)
    decreases b
  {
    if a < b {
      ValPtrGrows(counts, a, b - 1);
      MinCodeAcrossGap(counts, a, b - 1);
      Doubled(MinCode(counts, a), Pow2(b - 1 - a));
    }
  }

  lemma Doubled(x: nat, p: nat)
    ensures 2 * (x * p) == x * (2 * p) == 2 * x * p
  {
  }

  lemma {:induction false} MinCodeGrows(counts: seq<nat>, l: nat, s: nat)
    requires |counts| == 17 && 1 <= l < s <= 17
    ensures MinCode(counts, s) >= (MinCode(counts, l) + counts[l]) * Pow2(s - l)
    decreases s
  {
    var x := MinCode(counts, l) + counts[l];
    if l + 1 == s {
      assert Pow2(1) == 2 * Pow2(0) == 2;
    } else {
      MinCodeGrows(counts, l, s - 1);
      Doubled(x, Pow2(s - 1 - l));
    }
  }

  // The code of Annex C is the one the decoder's arrays describe.
  lemma {:induction false} CanonicalCode(counts: seq<nat>, k: nat)
    requires |counts| == 17 && k < |CodeSizes(counts)|
    ensures var sizes := CodeSizes(counts);
            && 1 <= sizes[k] <= 16
            && ValPtr(counts, sizes[k]) <= k < ValPtr(counts, sizes[k] + 1)
            && HuffCode(sizes, k) == MinCode(counts, sizes[k]) + k - ValPtr(counts, sizes[k])
  {
    hide *;
    CodeSizesInterval(counts, k);
    var sizes := CodeSizes(counts);
    ValPtrStart(counts);
    if k == 0 {
      MinCodeAcrossGap(counts, 1, sizes[0]);
      FirstCode(sizes);
      assert 0 * Pow2(sizes[0] - 1) == 0;
    } else {
      CanonicalCode(counts, k - 1);
      FollowingCode(sizes, k);
      NextCode(counts, sizes[k - 1], sizes[k], k, HuffCode(sizes, k - 1));
    }
  }

  lemma CodeSizesInterval(counts: seq<nat>, k: nat)
    requires |counts| == 17 && k < |CodeSizes(counts)|
    ensures var s := CodeSizes(counts)[k];
            1 <= s <= 16 && ValPtr(counts, s) <= k < ValPtr(counts, s + 1)
  {
    hide Sizes;
    SizesInterval(counts, 1, k);
    ValPtrStart(counts);
  }

  lemma FirstCode(sizes: seq<nat>)
    requires 0 < |sizes| && Ascending(sizes)
    ensures HuffCode(sizes, 0) == 0
  {
  }

  lemma FollowingCode(sizes: seq<nat>, k: nat)
    requires 0 < k < |sizes| && Ascending(sizes)
    ensures sizes[k - 1] <= sizes[k]
    ensures HuffCode(sizes, k) == (HuffCode(sizes, k - 1) + 1) * Pow2(sizes[k] - sizes[k - 1])
  {
    hide Pow2;
  }

  lemma ValPtrStart(counts: seq<nat>)
    requires |counts| == 17
    ensures ValPtr(counts, 1) == 0 && MinCode(counts, 1) == 0
  {
  }

  lemma NextCode(counts: seq<nat>, a: nat, b: nat, k: nat, code: nat)
    requires |counts| == 17 && 1 <= a <= b <= 16
    requires ValPtr(counts, a) <= k - 1 < ValPtr(counts, a + 1)
    requires ValPtr(counts, b) <= k < ValPtr(counts, b + 1)
    requires code == MinCode(counts, a) + (k - 1) - ValPtr(counts, a)
    ensures (code + 1) * Pow2(b - a) == MinCode(counts, b) + k - ValPtr(counts, b)
  {
    if a == b {
      assert Pow2(0) == 1;
    } else {
      ValPtrGrows(counts, a + 1, b);
      MinCodeAcrossGap(counts, a + 1, b);
      assert MinCode(counts, a + 1) == 2 * (code + 1);
      Doubled(code + 1, Pow2(b - a - 1));
    }
  }

  // ----- decoding inverts coding -----

  // Every code fits its length, as Annex C requires of a table.
  ghost predicate Usable(t: Table) {
    && t.Valid()
    && var sizes := CodeSizes(t.counts);
       forall k :: 0 <= k < |sizes| ==> HuffCode(sizes, k) < Pow2(sizes[k])
  }

  function CodeBits(t: Table, k: nat): (bits: seq<Bit>) {
    if |t.counts| != 17 then [] else
      var sizes := CodeSizes(t.counts);
      if k < |sizes| then BitsOf(HuffCode(sizes, k), sizes[k]) else []
  }

  lemma ProductBelow(a: nat, b: nat, p: nat)
    requires a < b
    ensures a * p + p <= b * p
  {
    assert (a + 1) * p <= b * p;
  }

  lemma ShorterCodesPassed(counts: seq<nat>, code: nat, s: nat, l: nat, high: nat)
    requires |counts| == 17 && 1 <= l < s <= 16 && code >= MinCode(counts, s)
    requires code < high * Pow2(s - l) + Pow2(s - l)
    ensures high > MaxCode(counts, l)
  {
    MinCodeGrows(counts, l, s);
    var x, p := MinCode(counts, l) + counts[l], Pow2(s - l);
    hide MinCode, Pow2;
    if high < x {
      ProductBelow(high, x, p);
    }
  }

  lemma {:induction false} SearchFindsLength(counts: seq<nat>, code: nat, s: nat, rest: seq<Bit>, from: nat)
    requires |counts| == 17 && 1 <= from <= s <= 16 && code < Pow2(s)
    requires MinCode(counts, s) <= code <= MaxCode(counts, s)
    ensures CodeLength(BitsOf(code, s) + rest, counts, from) == s
    decreases s - from
  {
    ValuePrefix(BitsOf(code, s), rest, from);
    if from == s {
      ValueOfAllBits(code, s);
    } else {
      ValueOfBits(code, s, from);
      ShorterCodesPassed(counts, code, s, from, Value(BitsOf(code, s), from));
      SearchFindsLength(counts, code, s, rest, from + 1);
    }
  }

  // A symbol's code, followed by anything, decodes to that symbol and takes exactly its bits.
  lemma DecodesItsCode(t: Table, k: nat, rest: seq<Bit>)
    requires Usable(t) && k < |t.vals|
    ensures var bits := CodeBits(t, k);
            && Symbol(bits + rest, t) == t.vals[k]
            && AfterSymbol(bits + rest, t) == rest
  {
    var counts := t.counts;
    CanonicalCode(counts, k);
    var sizes := CodeSizes(counts);
    var s, code := sizes[k], HuffCode(sizes, k);
    var bits := BitsOf(code, s);
    assert code < Pow2(s);
    hide CodeSizes, HuffCode, BitsOf, Pow2, Value, MinCode;
    SearchFindsLength(counts, code, s, rest, 1);
    ValueOfAllBits(code, s);
    ValuePrefix(bits, rest, s);
    assert CodeIndex(bits + rest, counts, s) == k;
    DropPrefix(bits, rest);
  }

  lemma NextRow(counts: seq<nat>, l: nat)
    requires |counts| == 17 && 1 <= l <= 16
    ensures ValPtr(counts, l + 1) == ValPtr(counts, l) + counts[l]
    ensures MinCode(counts, l + 1) == 2 * (MinCode(counts, l) + counts[l])
    ensures MaxCode(counts, l) == if counts[l] > 0 then MinCode(counts, l) + counts[l] - 1 else -1
  {
  }

  // ----- the code itself -----

  lemma FirstValue(bits: seq<Bit>)
    ensures Value(bits, 1) == BitAt(bits, 0)
  {
    assert Value(bits, 0) == 0;
  }

  lemma CodeIsLonger(bits: seq<Bit>, counts: seq<nat>, l: nat)
    requires |counts| == 17 && 1 <= l <= 16 && Value(bits, l) > MaxCode(counts, l)
    ensures CodeLength(bits, counts, l) == CodeLength(bits, counts, l + 1)
  {
    hide Value, MaxCode;
  }

  // Seventeen bits are too many.
  lemma NoSymbol(bits: seq<Bit>, t: Table)
    requires |t.counts| == 17 && CodeLength(bits, t.counts, 1) == CodeLength(bits, t.counts, 17)
    ensures Symbol(bits, t) == 0 && AfterSymbol(bits, t) == Drop(bits, 17)
  {
    hide Value, MaxCode, Drop;
  }

  lemma CodeEnds(bits: seq<Bit>, t: Table, l: nat)
    requires t.Valid() && |t.counts| == 17 && 1 <= l <= 16 && Value(bits, l) <= MaxCode(t.counts, l)
    requires CodeLength(bits, t.counts, 1) == CodeLength(bits, t.counts, l)
    ensures AfterSymbol(bits, t) == Drop(bits, l) && CodeLength(bits, t.counts, 1) == l
    ensures var i := CodeIndex(bits, t.counts, l); Symbol(bits, t) == if 0 <= i < |t.vals| then t.vals[i] else 0
  {
    hide Value, MaxCode, MinCode, ValPtr, Drop;
    CodeStops(bits, t.counts, l);
  }

  lemma CodeStops(bits: seq<Bit>, counts: seq<nat>, l: nat)
    requires |counts| == 17 && 1 <= l <= 16 && Value(bits, l) <= MaxCode(counts, l)
    ensures CodeLength(bits, counts, l) == l
  {
    hide Value, MaxCode;
  }

  class HuffTable {
    const table: Table
    const mincode: array<int>
    const maxcode: array<int>
    const valptr: array<int>

    ghost predicate Shape() {
      && table.Valid()
      && mincode.Length == 17 && maxcode.Length == 18 && valptr.Length == 17
      && mincode != maxcode && mincode != valptr && maxcode != valptr
    }

    ghost predicate BuiltTo(n: nat)
      requires Shape() && n <= 17
      reads mincode, maxcode, valptr
    {
      && (forall l :: 1 <= l < n ==> mincode[l] == MinCode(table.counts, l))
      && (forall l :: 1 <= l < n ==> maxcode[l] == MaxCode(table.counts, l))
      && (forall l :: 1 <= l < n ==> valptr[l] == ValPtr(table.counts, l))
    }

    ghost predicate Built()
      reads mincode, maxcode, valptr
    {
      Shape() && BuiltTo(17)
    }

    ghost function Arrays(): (a: set<array<int>>) {
      {mincode, maxcode, valptr}
    }

    constructor (t: Table)
      requires t.Valid()
      ensures table == t && Shape() && forall a :: a in Arrays() ==> fresh(a)
    {
      table := t;
      mincode := new int[17];
      maxcode := new int[18];
      valptr := new int[17];
    }

    method Build()
      requires Shape()
      modifies Arrays()
      ensures Built()
    {
      hide MinCode, ValPtr, MaxCode;
      ValPtrStart(table.counts);
      var code, k := 0, 0;
      var l := 1;
      while l <= 16
        invariant 1 <= l <= 17
        invariant code == MinCode(table.counts, l) && k == ValPtr(table.counts, l)
        invariant BuiltTo(l)
      {
        NextRow(table.counts, l);
        valptr[l] := k;
        mincode[l] := code;
        code := code + table.counts[l];
        k := k + table.counts[l];
        maxcode[l] := if table.counts[l] > 0 then code - 1 else -1;
        code := 2 * code;
        l := l + 1;
      }
      maxcode[17] := 0x7FFFFFFF;
    }

    method Decode(b: BitReader) returns (sym: Byte)
      requires Built() && b.Valid()
      modifies b
      ensures b.Valid()
      ensures sym == Symbol(old(b.Remaining()), table)
      ensures b.Remaining() == AfterSymbol(old(b.Remaining()), table)
    {
      hide MinCode, ValPtr, MaxCode, CodeLength, Symbol, AfterSymbol, b.Remaining;
      ghost var bits := b.Remaining();
      FirstValue(bits);
      var code: int := b.Next();
      var l := 1;
      while code > maxcode[l]
        invariant 1 <= l <= 16 && b.Valid()
        invariant code == Value(bits, l) && b.Remaining() == Drop(bits, l)
        invariant CodeLength(bits, table.counts, 1) == CodeLength(bits, table.counts, l)
        decreases 17 - l
      {
        CodeIsLonger(bits, table.counts, l);
        var bit := b.Next();
        code := 2 * code + bit;
        l := l + 1;
        if l > 16 {
          NoSymbol(bits, table);
          return 0;
        }
      }
      CodeEnds(bits, table, l);
      IndexStaysInside(bits, table.counts);
      var i := valptr[l] + code - mincode[l];
      sym := if 0 <= i < 256 then table.vals[i] else 0;
    }
  }
}
