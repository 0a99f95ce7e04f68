/**
 Which characters a font has (tools/fontindex.py, tools/cmap.py): the ranges written into the font
 index, merged, and the format 4 character map that they come from, read by two programs.
 */
module FontCoverage {
  import opened Bytes

  // ----- ranges -----

  datatype Span = Span(lo: int, hi: int)

  predicate Has(spans: seq<Span>, c: int) {
    exists k :: 0 <= k < |spans| && spans[k].lo <= c <= spans[k].hi
  }

  // In order, none empty, and a gap between each and the next.
  predicate Canonical(m: seq<Span>) {
    && (forall k :: 0 <= k < |m| ==> m[k].lo <= m[k].hi)
    && (forall k :: 0 < k < |m| ==> m[k - 1].hi + 1 < m[k].lo)
  }

  predicate SortedByStart(pairs: seq<Span>) {
    && (forall k :: 0 <= k < |pairs| ==> pairs[k].lo <= pairs[k].hi)
    && (forall i, k :: 0 <= i < k < |pairs| ==> pairs[i].lo <= pairs[k].lo)
  }

  lemma HasAppend(a: seq<Span>, s: Span, c: int)
    ensures Has(a + [s], c) <==> Has(a, c) || s.lo <= c <= s.hi
  {
    if Has(a, c) {
      var k :| 0 <= k < |a| && a[k].lo <= c <= a[k].hi;
      assert (a + [s])[k] == a[k];
    }
    if s.lo <= c <= s.hi {
      assert (a + [s])[|a|] == s;
    }
  }

  // The merging loop of coverage: the last range is stretched in place, or a new one begins.
  method Merge(pairs: seq<Span>) returns (merged: seq<Span>)
    requires SortedByStart(pairs)
    ensures Canonical(merged) && forall c :: Has(merged, c) <==> Has(pairs, c)
  {
    hide Has;
    merged := [];
    var i := 0;
    assert pairs[..0] == [];
    while i < |pairs|
      invariant 0 <= i <= |pairs| && Canonical(merged)
      invariant forall c :: Has(merged, c) <==> Has(pairs[..i], c)
      invariant merged != [] && i < |pairs| ==> merged[|merged| - 1].lo <= pairs[i].lo
    {
      var p := pairs[i];
      ghost var was := merged;
      var last := |merged| - 1;
      if last >= 0 && p.lo <= merged[last].hi + 1 {
        merged := merged[last := Span(merged[last].lo, if merged[last].hi > p.hi then merged[last].hi else p.hi)];
        Stretched(was, p);
      } else {
        merged := merged + [p];
        Begun(was, p);
      }
      assert pairs[..i + 1] == pairs[..i] + [p];
      forall c
        ensures Has(merged, c) <==> Has(pairs[..i + 1], c)
      {
        HasAppend(pairs[..i], p, c);
        assert Has(merged, c) <==> Has(was, c) || p.lo <= c <= p.hi;
      }
      i := i + 1;
    }
    assert pairs[..i] == pairs;
  }

  lemma Stretched(m: seq<Span>, p: Span)
    requires Canonical(m) && m != [] && p.lo <= p.hi
    requires var l := m[|m| - 1]; l.lo <= p.lo <= l.hi + 1
    ensures var l := m[|m| - 1];
            var m' := m[|m| - 1 := Span(l.lo, if l.hi > p.hi then l.hi else p.hi)];
            Canonical(m') && forall c :: Has(m', c) <==> Has(m, c) || p.lo <= c <= p.hi
  {
    hide Has, Canonical;
    var k := |m| - 1;
    var l := m[k];
    var s := Span(l.lo, if l.hi > p.hi then l.hi else p.hi);
    var a, m' := m[..k], m[k := s];
    assert m == a + [l] && m' == a + [s];
    LastIsProper(m);
    CanonicalStretched(m, s);
    forall c
      ensures Has(m', c) <==> Has(m, c) || p.lo <= c <= p.hi
    {
      HasAppend(a, l, c);
      HasAppend(a, s, c);
    }
  }

  lemma LastIsProper(m: seq<Span>)
    requires Canonical(m) && m != []
    ensures m[|m| - 1].lo <= m[|m| - 1].hi
  {
  }

  lemma CanonicalStretched(m: seq<Span>, s: Span)
    requires Canonical(m) && m != [] && s.lo == m[|m| - 1].lo <= s.hi
    ensures Canonical(m[|m| - 1 := s])
  {
  }

  lemma Begun(m: seq<Span>, p: Span)
    requires Canonical(m) && p.lo <= p.hi && (m != [] ==> p.lo > m[|m| - 1].hi + 1)
    ensures Canonical(m + [p]) && forall c :: Has(m + [p], c) <==> Has(m, c) || p.lo <= c <= p.hi
  {
    hide Has;
    forall c
      ensures Has(m + [p], c) <==> Has(m, c) || p.lo <= c <= p.hi
    {
      HasAppend(m, p, c);
    }
  }

  // Ranges start where nothing before them reaches.
  lemma {:induction false} CanonicalAscends(m: seq<Span>, i: nat, k: nat)
    requires Canonical(m) && i < k < |m|
    ensures m[i].hi + 1 < m[k].lo
    decreases k - i
  {
    if i + 1 < k {
      CanonicalAscends(m, i, k - 1);
    }
  }

  lemma HasFirst(m: seq<Span>, c: int)
    requires Canonical(m) && m != []
    ensures Has(m, c) <==> m[0].lo <= c <= m[0].hi || Has(m[1..], c)
    ensures Has(m[1..], c) ==> c > m[0].hi + 1
  {
    if Has(m, c) {
      var k :| 0 <= k < |m| && m[k].lo <= c <= m[k].hi;
      if k > 0 {
        assert m[1..][k - 1] == m[k];
      }
    }
    if Has(m[1..], c) {
      var k :| 0 <= k < |m[1..]| && m[1..][k].lo <= c <= m[1..][k].hi;
      assert m[k + 1] == m[1..][k];
      CanonicalAscends(m, 0, k + 1);
    }
  }

  // There is only one such list for a set of characters.
  lemma {:induction false} CanonicalIsUnique(a: seq<Span>, b: seq<Span>)
    requires Canonical(a) && Canonical(b) && forall c :: Has(a, c) <==> Has(b, c)
    ensures a == b
    decreases |a|
  {
    if a == [] {
      if b != [] {
        HasFirst(b, b[0].lo);
      }
    } else if b == [] {
      HasFirst(a, a[0].lo);
    } else {
      SameFirst(a, b);
      SameFirst(b, a);
      forall c
        ensures Has(a[1..], c) <==> Has(b[1..], c)
      {
        HasFirst(a, c);
        HasFirst(b, c);
      }
      CanonicalIsUnique(a[1..], b[1..]);
    }
  }

  lemma SameFirst(a: seq<Span>, b: seq<Span>)
    requires Canonical(a) && Canonical(b) && a != [] && b != [] && forall c :: Has(a, c) ==> Has(b, c)
    requires forall c :: Has(b, c) ==> Has(a, c)
    ensures a[0].lo >= b[0].lo && (a[0].lo == b[0].lo ==> a[0].hi <= b[0].hi)
  {
    HasFirst(a, a[0].lo);
    HasFirst(b, a[0].lo);
    HasFirst(a, b[0].hi + 1);
    HasFirst(b, b[0].hi + 1);
  }

  // ----- the format 4 subtable -----

  // Big-endian, as everything in the file.
  function U16(d: seq<Byte>, at: nat): (v: nat)
    requires at + 2 <= |d|
    ensures v < 0x10000
  {
    var hi: int, lo: int := d[at], d[at + 1];
    256 * hi + lo
  }

  function S16(d: seq<Byte>, at: nat): (v: int)
    requires at + 2 <= |d|
  {
    if U16(d, at) < 0x8000 then U16(d, at) else U16(d, at) - 0x10000
  }

  // A subtable at b of file d: n segments, each with an end, a start, a delta and an offset into
  // the glyph array behind them.
  datatype Subtable = Subtable(d: seq<Byte>, b: nat, n: nat) {
    predicate Valid() {
      b + 16 + 8 * n <= |d|
    }

    function End(s: nat): (c: nat)
      requires Valid() && s < n
    {
      U16(d, b + 14 + 2 * s)
    }

    function Start(s: nat): (c: nat)
      requires Valid() && s < n
    {
      U16(d, b + 16 + 2 * n + 2 * s)
    }

    function Delta(s: nat): (v: int)
      requires Valid() && s < n
    {
      S16(d, b + 16 + 4 * n + 2 * s)
    }

    function Offset(s: nat): (v: nat)
      requires Valid() && s < n
    {
      U16(d, b + 16 + 6 * n + 2 * s)
    }

    predicate Covers(s: nat, c: int)
      requires Valid() && s < n
    {
      Start(s) <= c <= End(s)
    }

    // Where the glyph of c stands when the segment has an offset.
    function GlyphAt(s: nat, c: int): (at: int)
      requires Valid() && s < n
    {
      b + 16 + 6 * n + 2 * s + Offset(s) + 2 * (c - Start(s))
    }

    // No character is in two segments.
    ghost predicate Disjoint()
      requires Valid()
    {
      forall s, r, c :: 0 <= s < n && 0 <= r < n && Covers(s, c) && Covers(r, c) ==> s == r
    }

    // Every glyph the segments point to is in the file.
    ghost predicate OffsetsInRange()
      requires Valid()
    {
      forall s, c :: 0 <= s < n && Covers(s, c) && Offset(s) != 0 ==> GlyphAt(s, c) + 2 <= |d|
    }

    // The glyph that segment s gives to c; 0, the box, past the end of the file.
    function Glyph(s: nat, c: int): (g: nat)
      requires Valid() && s < n && Covers(s, c)
    {
      if Offset(s) == 0 then (c + Delta(s)) % 0x10000
      else if GlyphAt(s, c) + 2 > |d| then 0
      else
        var g := U16(d, GlyphAt(s, c));
        if g == 0 then 0 else (g + Delta(s)) % 0x10000
    }
  }

  // Some segment gives c a glyph that is not the box.
  predicate Drawable(t: Subtable, c: int)
    requires t.Valid()
  {
    exists s :: 0 <= s < t.n && t.Covers(s, c) && t.Glyph(s, c) != 0
  }

  // fmt4 of fontindex.py: the characters, one range each, in the order of the segments.
  method Format4(t: Subtable) returns (pairs: seq<Span>)
    requires t.Valid() && t.OffsetsInRange()
    ensures forall c :: Has(pairs, c) <==> c != 0xFFFF && Drawable(t, c)
    ensures forall k :: 0 <= k < |pairs| ==> pairs[k].lo == pairs[k].hi
  {
    pairs := [];
    var s := 0;
    while s < t.n
      invariant 0 <= s <= t.n
      invariant forall k :: 0 <= k < |pairs| ==> pairs[k].lo == pairs[k].hi
      invariant forall c :: Has(pairs, c) <==> c != 0xFFFF && DrawableBefore(t, s, c)
    {
      pairs := Segment(t, s, pairs);
      s := s + 1;
    }
  }

  predicate DrawableBefore(t: Subtable, n: nat, c: int)
    requires t.Valid() && n <= t.n
  {
    exists s :: 0 <= s < n && t.Covers(s, c) && t.Glyph(s, c) != 0
  }

  method Segment(t: Subtable, s: nat, pairs: seq<Span>) returns (r: seq<Span>)
    requires t.Valid() && t.OffsetsInRange() && s < t.n
    requires forall k :: 0 <= k < |pairs| ==> pairs[k].lo == pairs[k].hi
    requires forall c :: Has(pairs, c) <==> c != 0xFFFF && DrawableBefore(t, s, c)
    ensures forall k :: 0 <= k < |r| ==> r[k].lo == r[k].hi
    ensures forall c :: Has(r, c) <==> c != 0xFFFF && DrawableBefore(t, s + 1, c)
  {
    hide Has, t.Glyph;
    r := pairs;
    var c: int := t.Start(s);
    while c <= t.End(s)
      invariant t.Start(s) <= c
      invariant forall k :: 0 <= k < |r| ==> r[k].lo == r[k].hi
      invariant forall x :: Has(r, x) <==> Has(pairs, x) || (t.Start(s) <= x < c && x != 0xFFFF && t.Covers(s, x) && t.Glyph(s, x) != 0)
      decreases t.End(s) - c + 1
    {
      assert t.Covers(s, c);
      if c != 0xFFFF {
        var g := FindGlyph(t, s, c);
        if g != 0 {
          ghost var was := r;
          r := r + [Span(c, c)];
          forall x
            ensures Has(r, x) <==> Has(was, x) || x == c
          {
            HasAppend(was, Span(c, c), x);
          }
        }
      }
      c := c + 1;
    }
  }

  // The glyph of a character as fmt4 reads it.
  method FindGlyph(t: Subtable, s: nat, c: int) returns (g: nat)
    requires t.Valid() && t.OffsetsInRange() && s < t.n && t.Covers(s, c)
    ensures g == t.Glyph(s, c)
  {
    if t.Offset(s) == 0 {
      g := (c + t.Delta(s)) % 0x10000;
    } else {
      assert t.GlyphAt(s, c) + 2 <= |t.d|;
      g := U16(t.d, t.GlyphAt(s, c));
      if g != 0 {
        g := (g + t.Delta(s)) % 0x10000;
      }
    }
  }

  // gid of cmap.py: the first segment that has the character answers.
  method Gid(t: Subtable, c: int) returns (g: nat)
    requires t.Valid()
    ensures g == GidFrom(t, 0, c)
  {
    var s := 0;
    while s < t.n
      invariant 0 <= s <= t.n && GidFrom(t, 0, c) == GidFrom(t, s, c)
    {
      if c <= t.End(s) && c >= t.Start(s) {
        if t.Offset(s) == 0 {
          return (c + t.Delta(s)) % 0x10000;
        }
        var at := t.GlyphAt(s, c);
        if at + 2 > |t.d| {
          return 0;
        }
        g := U16(t.d, at);
        return if g == 0 then 0 else (g + t.Delta(s)) % 0x10000;
      }
      s := s + 1;
    }
    return 0;
  }

  function GidFrom(t: Subtable, s: nat, c: int): (g: nat)
    requires t.Valid() && s <= t.n
    decreases t.n - s
  {
    if s == t.n then 0 else if t.Covers(s, c) then t.Glyph(s, c) else GidFrom(t, s + 1, c)
  }

  // Where the first segment that has c is.
  lemma {:induction false} GidIsFirst(t: Subtable, from: nat, s: nat, c: int)
    requires t.Valid() && from <= s < t.n && t.Covers(s, c) && forall r :: from <= r < s ==> !t.Covers(r, c)
    ensures GidFrom(t, from, c) == t.Glyph(s, c)
    decreases s - from
  {
    hide t.Glyph, t.Covers;
    if from < s {
      assert !t.Covers(from, c);
      GidIsFirst(t, from + 1, s, c);
    }
  }

  lemma {:induction false} GidOfNone(t: Subtable, from: nat, c: int)
    requires t.Valid() && from <= t.n && forall r :: from <= r < t.n ==> !t.Covers(r, c)
    ensures GidFrom(t, from, c) == 0
    decreases t.n - from
  {
    hide t.Glyph, t.Covers;
    if from < t.n {
      assert !t.Covers(from, c);
      GidOfNone(t, from + 1, c);
    }
  }

  predicate IsFirst(t: Subtable, s: nat, c: int)
    requires t.Valid() && s < t.n
  {
    t.Covers(s, c) && forall r :: 0 <= r < s ==> !t.Covers(r, c)
  }

  // A later segment draws what the first one with the character leaves out.
  predicate Overruled(t: Subtable, c: int)
    requires t.Valid()
  {
    exists s, r :: 0 <= s < r < t.n && IsFirst(t, s, c) && t.Glyph(s, c) == 0 && t.Covers(r, c) && t.Glyph(r, c) != 0
  }

  // The two readings agree on a character exactly when it is not overruled; with disjoint
  // segments, always.
  lemma ReadingsAgree(t: Subtable, c: int)
    requires t.Valid()
    ensures (Drawable(t, c) <==> GidFrom(t, 0, c) != 0) <==> !Overruled(t, c)
    ensures t.Disjoint() ==> (Drawable(t, c) <==> GidFrom(t, 0, c) != 0)
  {
    hide t.Glyph, t.Covers;
    if exists s :: 0 <= s < t.n && t.Covers(s, c) {
      var first := FirstWith(t, c);
      GidIsFirst(t, 0, first, c);
    } else {
      GidOfNone(t, 0, c);
    }
  }

  lemma FirstWith(t: Subtable, c: int) returns (s: nat)
    requires t.Valid() && exists s :: 0 <= s < t.n && t.Covers(s, c)
    ensures s < t.n && IsFirst(t, s, c)
  {
    hide t.Covers;
    s := 0;
    while !t.Covers(s, c)
      invariant s < t.n && forall r :: 0 <= r < s ==> !t.Covers(r, c)
      decreases t.n - s
    {
      assert exists r :: s < r < t.n && t.Covers(r, c);
      s := s + 1;
    }
  }

  // Two segments for the character 5, the first of which gives it the box.
  const OVERRULED := Subtable([0, 4, 0, 32, 0, 0, 0, 4, 0, 0, 0, 0, 0, 0, 0, 5, 0, 5, 0, 0,
                               0, 5, 0, 5, 255, 251, 0, 1, 0, 0, 0, 0], 0, 2)

  lemma OverruledStarts()
    ensures OVERRULED.Valid() && OVERRULED.Start(0) == OVERRULED.Start(1) == 5
  {
  }

  lemma OverruledEnds()
    ensures OVERRULED.Valid() && OVERRULED.End(0) == OVERRULED.End(1) == 5
  {
  }

  lemma OverruledDeltas()
    ensures OVERRULED.Valid() && OVERRULED.Delta(0) == -5 && OVERRULED.Delta(1) == 1
  {
  }

  lemma OverruledOffsets()
    ensures OVERRULED.Valid() && OVERRULED.Offset(0) == OVERRULED.Offset(1) == 0
  {
  }

  lemma SecondDraws(t: Subtable, c: int)
    requires t.Valid() && t.n == 2 && t.Covers(0, c) && t.Covers(1, c)
    requires t.Offset(0) == t.Offset(1) == 0 && (c + t.Delta(0)) % 0x10000 == 0 && (c + t.Delta(1)) % 0x10000 != 0
    ensures Drawable(t, c) && GidFrom(t, 0, c) == 0
  {
    hide t.Covers, t.Offset, t.Delta;
    assert t.Glyph(1, c) != 0;
  }

  lemma OverruledTable()
    ensures OVERRULED.Valid() && Drawable(OVERRULED, 5) && GidFrom(OVERRULED, 0, 5) == 0
  {
    hide Drawable, GidFrom, U16, S16;
    OverruledStarts();
    OverruledEnds();
    OverruledDeltas();
    OverruledOffsets();
    SecondDraws(OVERRULED, 5);
  }

  // ----- the format 12 subtable -----

  function U32(d: seq<Byte>, at: nat): (v: nat)
    requires at + 4 <= |d|
  {
    0x10000 * U16(d, at) + U16(d, at + 2)
  }

  // A subtable of groups, each a range of characters and the glyph of its first.
  datatype Groups = Groups(d: seq<Byte>, b: nat) {
    predicate Valid() {
      b + 16 <= |d| && b + 16 + 12 * Count() <= |d|
    }

    function Count(): (n: nat)
      requires b + 16 <= |d|
    {
      U32(d, b + 12)
    }

    function First(i: nat): (c: nat)
      requires Valid() && i < Count()
    {
      U32(d, b + 16 + 12 * i)
    }

    function Last(i: nat): (c: nat)
      requires Valid() && i < Count()
    {
      U32(d, b + 20 + 12 * i)
    }

    function FirstGlyph(i: nat): (g: nat)
      requires Valid() && i < Count()
    {
      U32(d, b + 24 + 12 * i)
    }

    // Group i gives c a glyph that is not the box: the glyphs of a group follow one another.
    predicate Draws(i: nat, c: int)
      requires Valid() && i < Count()
    {
      First(i) <= c <= Last(i) && FirstGlyph(i) + (c - First(i)) != 0
    }
  }

  predicate DrawnBefore(t: Groups, n: nat, c: int)
    requires t.Valid() && n <= t.Count()
  {
    exists i :: 0 <= i < n && t.Draws(i, c)
  }

  // No range is empty.
  predicate Proper(pairs: seq<Span>) {
    forall k :: 0 <= k < |pairs| ==> pairs[k].lo <= pairs[k].hi
  }

  // fmt12 of fontindex.py: the ranges, without a first character whose glyph is the box.
  method Format12(t: Groups) returns (pairs: seq<Span>)
    requires t.Valid()
    ensures Proper(pairs) && forall c :: Has(pairs, c) <==> DrawnBefore(t, t.Count(), c)
  {
    hide Has, t.First, t.Last, t.FirstGlyph;
    pairs := [];
    NothingHas();
    var i := 0;
    while i < t.Count()
      invariant 0 <= i <= t.Count() && Proper(pairs)
      invariant forall c :: Has(pairs, c) <==> DrawnBefore(t, i, c)
    {
      var lo, hi, g := t.First(i), t.Last(i), t.FirstGlyph(i);
      if g == 0 {
        lo := lo + 1;
      }
      ghost var was := pairs;
      if lo <= hi {
        pairs := pairs + [Span(lo, hi)];
      }
      forall c
        ensures Has(pairs, c) <==> DrawnBefore(t, i + 1, c)
      {
        HasAppend(was, Span(lo, hi), c);
        DrawnStep(t, i, c);
      }
      i := i + 1;
    }
  }

  lemma NothingHas()
    ensures forall c :: !Has([], c)
  {
  }

  lemma DrawnStep(t: Groups, i: nat, c: int)
    requires t.Valid() && i < t.Count()
    ensures DrawnBefore(t, i + 1, c) <==> DrawnBefore(t, i, c) || t.Draws(i, c)
  {
    hide t.Draws;
  }

  // ----- the whole index entry -----

  // Any sorting will do.
  function Inserted(s: Span, sorted: seq<Span>): (r: seq<Span>) {
    if sorted == [] || s.lo <= sorted[0].lo then [s] + sorted else [sorted[0]] + Inserted(s, sorted[1..])
  }

  function Sorted(pairs: seq<Span>): (r: seq<Span>) {
    if pairs == [] then [] else Inserted(pairs[0], Sorted(pairs[1..]))
  }

  lemma HasFront(s: Span, a: seq<Span>, c: int)
    ensures Has([s] + a, c) <==> s.lo <= c <= s.hi || Has(a, c)
  {
    var r := [s] + a;
    if s.lo <= c <= s.hi {
      assert r[0] == s;
    }
    if Has(a, c) {
      var k :| 0 <= k < |a| && a[k].lo <= c <= a[k].hi;
      assert r[k + 1] == a[k];
    }
  }

  lemma {:induction false} InsertedSorts(s: Span, a: seq<Span>)
    requires SortedByStart(a) && s.lo <= s.hi
    ensures SortedByStart(Inserted(s, a))
    ensures forall k :: 0 <= k < |Inserted(s, a)| ==> Inserted(s, a)[k] == s || Inserted(s, a)[k] in a
    decreases |a|
  {
    if a != [] && s.lo > a[0].lo {
      InsertedSorts(s, a[1..]);
      var r := Inserted(s, a[1..]);
      forall k | 0 <= k < |r|
        ensures r[k].lo >= a[0].lo
      {
        if r[k] != s {
          var j :| 0 <= j < |a[1..]| && a[1..][j] == r[k];
          assert a[j + 1] == r[k];
        }
      }
    }
  }

  lemma {:induction false} InsertedHas(s: Span, a: seq<Span>, c: int)
    ensures Has(Inserted(s, a), c) <==> s.lo <= c <= s.hi || Has(a, c)
    decreases |a|
  {
    hide Has;
    if a == [] || s.lo <= a[0].lo {
      HasFront(s, a, c);
    } else {
      InsertedHas(s, a[1..], c);
      HasFront(a[0], Inserted(s, a[1..]), c);
      HasFront(a[0], a[1..], c);
      assert a == [a[0]] + a[1..];
    }
  }

  lemma {:induction false} SortedSorts(pairs: seq<Span>)
    requires Proper(pairs)
    ensures SortedByStart(Sorted(pairs))
    decreases |pairs|
  {
    if pairs != [] {
      SortedSorts(pairs[1..]);
      InsertedSorts(pairs[0], Sorted(pairs[1..]));
    }
  }

  lemma {:induction false} SortedHas(pairs: seq<Span>, c: int)
    ensures Has(Sorted(pairs), c) <==> Has(pairs, c)
    decreases |pairs|
  {
    hide Has;
    if pairs != [] {
      SortedHas(pairs[1..], c);
      InsertedHas(pairs[0], Sorted(pairs[1..]), c);
      HasFront(pairs[0], pairs[1..], c);
      assert pairs == [pairs[0]] + pairs[1..];
    }
  }

  method MergeSorted(pairs: seq<Span>) returns (merged: seq<Span>)
    requires Proper(pairs)
    ensures Canonical(merged) && forall c :: Has(merged, c) <==> Has(pairs, c)
  {
    hide Has, Sorted, SortedByStart, Canonical;
    SortedSorts(pairs);
    merged := Merge(Sorted(pairs));
    forall c
      ensures Has(merged, c) <==> Has(pairs, c)
    {
      SortedHas(pairs, c);
    }
  }

  // coverage, of a font whose map has format 4: a character is in the index exactly when it is not
  // U+FFFF and, unless an earlier segment overrules a later one, gid finds a glyph for it.
  method Coverage4(t: Subtable) returns (merged: seq<Span>)
    requires t.Valid() && t.OffsetsInRange()
    ensures Canonical(merged) && forall c :: Has(merged, c) <==> c != 0xFFFF && Drawable(t, c)
    ensures forall c :: !Overruled(t, c) ==> (Has(merged, c) <==> c != 0xFFFF && GidFrom(t, 0, c) != 0)
    ensures t.Disjoint() ==> forall c :: Has(merged, c) <==> c != 0xFFFF && GidFrom(t, 0, c) != 0
  {
    hide Has, Canonical, Drawable, GidFrom, Overruled, t.Disjoint;
    var pairs := Format4(t);
    merged := MergeSorted(pairs);
    forall c
      ensures (Drawable(t, c) <==> GidFrom(t, 0, c) != 0) <==> !Overruled(t, c)
      ensures t.Disjoint() ==> (Drawable(t, c) <==> GidFrom(t, 0, c) != 0)
    {
      ReadingsAgree(t, c);
    }
  }

  // And of one whose map has format 12: exactly the characters some group draws.
  method Coverage12(t: Groups) returns (merged: seq<Span>)
    requires t.Valid()
    ensures Canonical(merged) && forall c :: Has(merged, c) <==> DrawnBefore(t, t.Count(), c)
  {
    hide Has, Canonical, DrawnBefore;
    var pairs := Format12(t);
    merged := MergeSorted(pairs);
  }
}
