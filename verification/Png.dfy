/**
 The rows of a PNG (userland/img.h): each row was sent as differences from what the bytes around it
 predict, by one of five filters named at its start; section 6 of RFC 2083.
 */
module Png {
  import opened Bytes

  function Wrapped(v: int): (r: Byte)
    ensures r as int % 256 == v % 256
  {
    (v % 256) as Byte
  }

  function Distance(x: int, y: int): (d: nat)
    ensures d == x - y || d == y - x
  {
    if x > y then x - y else y - x
  }

  // The neighbour nearest to left + up - corner; of equals, left before up before corner.
  function Paeth(a: Byte, b: Byte, c: Byte): (r: Byte)
    ensures r == a || r == b || r == c
    ensures var p := a as int + b as int - c as int;
            && Distance(p, r as int) <= Distance(p, a as int)
            && Distance(p, r as int) <= Distance(p, b as int)
            && Distance(p, r as int) <= Distance(p, c as int)
            && (Distance(p, a as int) == Distance(p, r as int) ==> r == a)
            && (r == c && r != b ==> Distance(p, c as int) < Distance(p, b as int))
  {
    var p := a as int + b as int - c as int;
    var pa, pb, pc := Distance(p, a as int), Distance(p, b as int), Distance(p, c as int);
    if pa <= pb && pa <= pc then a else if pb <= pc then b else c
  }

  // What a filter predicts from the byte to the left, the one above and the one above that.
  function Predicted(filter: Byte, a: Byte, b: Byte, c: Byte): (r: Byte)
    ensures filter == 0 || filter > 4 ==> r == 0
  {
    if filter == 1 then a
    else if filter == 2 then b
    else if filter == 3 then ((a as int + b as int) / 2) as Byte
    else if filter == 4 then Paeth(a, b, c)
    else 0
  }

  // ----- the shape of the image -----

  // h rows of so many bytes, a pixel (or the least whole number of bytes) taking up unit of them.
  datatype Shape = Shape(h: nat, stride: nat, unit: nat) {
    predicate Valid() {
      stride > 0 && unit > 0
    }

    function Size(): (n: nat) { h * stride }

    // The filtered rows, each with its filter in front.
    function RawSize(): (n: nat) { h * (stride + 1) }

    // Where the byte at p of the image stands among the filtered ones.
    function RawAt(p: nat): (q: nat)
      requires Valid()
    {
      p + p / stride + 1
    }

    function FilterAt(p: nat): (q: nat)
      requires Valid()
    {
      (p / stride) * (stride + 1)
    }

    lemma Places(y: nat, i: nat)
      requires Valid() && y < h && i < stride
      ensures var p := y * stride + i;
              && p < Size() && p / stride == y && p % stride == i
              && FilterAt(p) == y * (stride + 1) && RawAt(p) == y * (stride + 1) + 1 + i
              && FilterAt(p) < RawAt(p) < RawSize()
    {
      var p := y * stride + i;
      Divides(stride, y, i);
      Grows(y + 1, h, stride);
      Grows(y + 1, h, stride + 1);
    }

    lemma PlaceOf(p: nat)
      requires Valid() && p < Size()
      ensures p / stride < h && FilterAt(p) < RawAt(p) < RawSize()
    {
      var y, i := p / stride, p % stride;
      assert p == y * stride + i;
      assert y < h by {
        if y >= h {
          Grows(h, y, stride);
        }
      }
      Places(y, i);
    }
  }

  lemma Grows(x: nat, y: nat, n: nat)
    requires x <= y
    ensures x * n <= y * n
  {
  }

  lemma Divides(n: nat, y: nat, i: nat)
    requires i < n
    ensures (y * n + i) / n == y && (y * n + i) % n == i
  {
    var p := y * n + i;
    var q := p / n;
    assert p == q * n + p % n;
    assert q >= y by {
      if q < y {
        Grows(q + 1, y, n);
      }
    }
    assert q <= y by {
      if q > y {
        Grows(y + 1, q, n);
      }
    }
  }

  // What stands to the left of p, above it and above that, as far as the image goes.
  function PredictedAt(s: Shape, lines: seq<Byte>, p: nat, filter: Byte): (r: Byte)
    requires s.Valid() && p <= |lines|
  {
    var inside := p % s.stride >= s.unit;
    var a: Byte := if inside && p >= s.unit then lines[p - s.unit] else 0;
    var b: Byte := if p >= s.stride then lines[p - s.stride] else 0;
    var c: Byte := if inside && p >= s.stride + s.unit then lines[p - s.stride - s.unit] else 0;
    Predicted(filter, a, b, c)
  }

  // ----- filtering -----

  function FilteredByte(s: Shape, img: seq<Byte>, filters: seq<Byte>, q: nat): (r: Byte)
    requires s.Valid() && |img| == s.Size() && |filters| == s.h && q < s.RawSize()
  {
    var y, j := q / (s.stride + 1), q % (s.stride + 1);
    assert y < s.h by { RowOf(s, q); }
    if j == 0 then filters[y]
    else
      assert y * s.stride + (j - 1) < |img| by { s.Places(y, j - 1); }
      Wrapped(img[y * s.stride + (j - 1)] as int - PredictedAt(s, img, y * s.stride + (j - 1), filters[y]) as int)
  }

  lemma RowOf(s: Shape, q: nat)
    requires q < s.RawSize()
    ensures q / (s.stride + 1) < s.h
  {
    var n := s.stride + 1;
    assert q == (q / n) * n + q % n;
    assert q / n < s.h by {
      if q / n >= s.h {
        Grows(s.h, q / n, n);
      }
    }
  }

  // Every row filtered by the filter chosen for it.
  function Filtered(s: Shape, img: seq<Byte>, filters: seq<Byte>): (raw: seq<Byte>)
    requires s.Valid() && |img| == s.Size() && |filters| == s.h
    ensures |raw| == s.RawSize()
  {
    seq(s.RawSize(), q requires 0 <= q < s.RawSize() => FilteredByte(s, img, filters, q))
  }

  // ----- unfiltering -----

  // The byte at p is the difference sent for it and the prediction from the bytes before it.
  predicate RestoredAt(s: Shape, raw: seq<Byte>, lines: seq<Byte>, p: nat)
    requires s.Valid() && |raw| >= s.RawSize() && p < s.Size() && p < |lines|
  {
    s.PlaceOf(p);
    lines[p] == Wrapped(raw[s.RawAt(p)] as int + PredictedAt(s, lines, p, raw[s.FilterAt(p)]) as int)
  }

  predicate Restored(s: Shape, raw: seq<Byte>, lines: seq<Byte>)
    requires s.Valid() && |raw| >= s.RawSize()
  {
    |lines| == s.Size() && forall p :: 0 <= p < |lines| ==> RestoredAt(s, raw, lines, p)
  }

  // The prediction looks only at bytes before p.
  lemma PredictedFromBefore(s: Shape, l: seq<Byte>, m: seq<Byte>, p: nat, filter: Byte)
    requires s.Valid() && p <= |l| && p <= |m| && l[..p] == m[..p]
    ensures PredictedAt(s, l, p, filter) == PredictedAt(s, m, p, filter)
  {
    assert forall k :: 0 <= k < p ==> l[k] == l[..p][k] && m[k] == m[..p][k];
  }

  lemma RestoredStep(s: Shape, raw: seq<Byte>, l: seq<Byte>, m: seq<Byte>, p: nat)
    requires s.Valid() && |raw| >= s.RawSize() && p < s.Size() && p < |l| && p < |m| && l[..p] == m[..p]
    requires RestoredAt(s, raw, l, p)
    ensures RestoredAt(s, raw, m, p) <==> m[p] == l[p]
  {
    hide PredictedAt, Wrapped;
    s.PlaceOf(p);
    PredictedFromBefore(s, l, m, p, raw[s.FilterAt(p)]);
  }

  // One image only comes of a filtered one.
  lemma {:induction false} RestoredOnce(s: Shape, raw: seq<Byte>, l: seq<Byte>, m: seq<Byte>, p: nat)
    requires s.Valid() && |raw| >= s.RawSize() && Restored(s, raw, l) && Restored(s, raw, m) && p <= s.Size()
    ensures l[..p] == m[..p]
  {
    hide RestoredAt;
    if p > 0 {
      RestoredOnce(s, raw, l, m, p - 1);
      assert RestoredAt(s, raw, l, p - 1) && RestoredAt(s, raw, m, p - 1);
      RestoredStep(s, raw, l, m, p - 1);
      assert l[..p] == l[..p - 1] + [l[p - 1]] && m[..p] == m[..p - 1] + [m[p - 1]];
    }
  }

  // ----- what each filter restores -----

  function SentAt(s: Shape, raw: seq<Byte>, y: nat, i: nat): (b: Byte)
    requires s.Valid() && |raw| >= s.RawSize() && y < s.h && i < s.stride
  {
    s.Places(y, i);
    raw[y * (s.stride + 1) + 1 + i]
  }

  function RowFilter(s: Shape, raw: seq<Byte>, y: nat): (filter: Byte)
    requires s.Valid() && |raw| >= s.RawSize() && y < s.h
  {
    s.Places(y, 0);
    raw[y * (s.stride + 1)]
  }

  // The byte at column i of row y; nothing beyond the edges.
  function PixelAt(s: Shape, lines: seq<Byte>, y: int, i: int): (b: Byte)
    requires s.Valid() && |lines| == s.Size() && y < s.h && i < s.stride
  {
    if y < 0 || i < 0 then 0 else
      assert y * s.stride + i < |lines| by { s.Places(y, i); }
      lines[y * s.stride + i]
  }

  // The neighbours by row and column.
  lemma NeighboursOf(s: Shape, lines: seq<Byte>, y: nat, i: nat, filter: Byte)
    requires s.Valid() && |lines| == s.Size() && y < s.h && i < s.stride
    ensures y * s.stride + i <= |lines|
    ensures PredictedAt(s, lines, y * s.stride + i, filter) ==
            Predicted(filter, PixelAt(s, lines, y, i - s.unit), PixelAt(s, lines, y - 1, i), PixelAt(s, lines, y - 1, i - s.unit))
  {
    hide Predicted;
    var p := y * s.stride + i;
    s.Places(y, i);
    Grows(0, y, s.stride);
    if y > 0 {
      Grows(1, y, s.stride);
      assert (y - 1) * s.stride == y * s.stride - s.stride;
    }
  }

  lemma RowByFilter(s: Shape, raw: seq<Byte>, lines: seq<Byte>, y: nat, i: nat)
    requires s.Valid() && |raw| >= s.RawSize() && Restored(s, raw, lines) && y < s.h && i < s.stride
    ensures var filter, x, d := RowFilter(s, raw, y), PixelAt(s, lines, y, i), SentAt(s, raw, y, i) as int;
            var left, above, corner := PixelAt(s, lines, y, i - s.unit), PixelAt(s, lines, y - 1, i), PixelAt(s, lines, y - 1, i - s.unit);
            && (filter == 1 ==> x as int == (d + left as int) % 256)
            && (filter == 2 ==> x as int == (d + above as int) % 256)
            && (filter == 3 ==> x as int == (d + (left as int + above as int) / 2) % 256)
            && (filter == 4 ==> x as int == (d + Paeth(left, above, corner) as int) % 256)
            && (filter == 0 || filter > 4 ==> x as int == d)
  {
    hide PredictedAt, Paeth, PixelAt;
    s.Places(y, i);
    var p := y * s.stride + i;
    assert RestoredAt(s, raw, lines, p);
    NeighboursOf(s, lines, y, i, raw[s.FilterAt(p)]);
    PixelIs(s, lines, y, i);
  }

  lemma PixelIs(s: Shape, lines: seq<Byte>, y: nat, i: nat)
    requires s.Valid() && |lines| == s.Size() && y < s.h && i < s.stride
    ensures y * s.stride + i < |lines| && PixelAt(s, lines, y, i) == lines[y * s.stride + i]
  {
    s.Places(y, i);
  }

  lemma PixelOutside(s: Shape, lines: seq<Byte>, y: int, i: int)
    requires s.Valid() && |lines| == s.Size() && y < s.h && i < s.stride && (y < 0 || i < 0)
    ensures PixelAt(s, lines, y, i) == 0
  {
  }

  // The bytes sent at column i and every unit to the left of it.
  function RunningSum(s: Shape, raw: seq<Byte>, y: nat, i: int): (n: nat)
    requires s.Valid() && |raw| >= s.RawSize() && y < s.h && i < s.stride
    decreases if i < 0 then 0 else i + 1
  {
    if i < 0 then 0 else SentAt(s, raw, y, i) as nat + RunningSum(s, raw, y, i - s.unit)
  }

  lemma SumModulo(d: int, n: int)
    ensures (d + n % 256) % 256 == (d + n) % 256
  {
  }

  // A row of filter 1 is restored to running sums.
  lemma {:induction false} SubSums(s: Shape, raw: seq<Byte>, lines: seq<Byte>, y: nat, i: int)
    requires s.Valid() && |raw| >= s.RawSize() && Restored(s, raw, lines) && y < s.h && i < s.stride
    requires RowFilter(s, raw, y) == 1
    ensures PixelAt(s, lines, y, i) as int == RunningSum(s, raw, y, i) % 256
    decreases if i < 0 then 0 else i + 1
  {
    hide RestoredAt, SentAt, PixelAt, Paeth, RowFilter;
    if i >= 0 {
      RowByFilter(s, raw, lines, y, i);
      SubSums(s, raw, lines, y, i - s.unit);
      SumModulo(SentAt(s, raw, y, i) as int, RunningSum(s, raw, y, i - s.unit));
    } else {
      PixelOutside(s, lines, y, i);
    }
  }

  // ----- one undoes the other -----

  lemma WrapsBack(x: Byte, d: Byte, v: Byte)
    ensures d == Wrapped(x as int - v as int) <==> x == Wrapped(d as int + v as int)
  {
  }

  lemma FilteredHead(s: Shape, img: seq<Byte>, filters: seq<Byte>, y: nat)
    requires s.Valid() && |img| == s.Size() && |filters| == s.h && y < s.h
    ensures var q := y * (s.stride + 1);
            q < s.RawSize() && FilteredByte(s, img, filters, q) == filters[y]
  {
    hide PredictedAt, Wrapped;
    Grows(y + 1, s.h, s.stride + 1);
    Divides(s.stride + 1, y, 0);
  }

  lemma FilteredRow(s: Shape, img: seq<Byte>, filters: seq<Byte>, y: nat, i: nat, q: nat, p: nat)
    requires s.Valid() && |img| == s.Size() && |filters| == s.h && y < s.h && i < s.stride
    requires q == y * (s.stride + 1) + (1 + i) && p == y * s.stride + i
    ensures q < s.RawSize() && p < |img|
    ensures FilteredByte(s, img, filters, q) == Wrapped(img[p] as int - PredictedAt(s, img, p, filters[y]) as int)
  {
    hide PredictedAt, Wrapped;
    s.Places(y, i);
    Divides(s.stride + 1, y, 1 + i);
    assert q / (s.stride + 1) == y && q % (s.stride + 1) == 1 + i;
  }

  // A filtered row: its filter, then the differences.
  lemma FilteredAt(s: Shape, img: seq<Byte>, filters: seq<Byte>, p: nat)
    requires s.Valid() && |img| == s.Size() && |filters| == s.h && p < s.Size()
    ensures var raw := Filtered(s, img, filters);
            && p / s.stride < s.h && s.FilterAt(p) < s.RawAt(p) < |raw|
            && raw[s.FilterAt(p)] == filters[p / s.stride]
            && raw[s.RawAt(p)] == Wrapped(img[p] as int - PredictedAt(s, img, p, filters[p / s.stride]) as int)
  {
    hide PredictedAt, Wrapped, FilteredByte;
    s.PlaceOf(p);
    var y, i := p / s.stride, p % s.stride;
    assert p == y * s.stride + i;
    s.Places(y, i);
    FilteredHead(s, img, filters, y);
    FilteredRow(s, img, filters, y, i, s.RawAt(p), p);
  }

  // Filtering an image is what unfiltering undoes.
  lemma FilteredIsRestored(s: Shape, img: seq<Byte>, filters: seq<Byte>)
    requires s.Valid() && |img| == s.Size() && |filters| == s.h
    ensures Restored(s, Filtered(s, img, filters), img)
  {
    var raw := Filtered(s, img, filters);
    hide RestoredAt, Filtered;
    forall p | 0 <= p < |img|
      ensures RestoredAt(s, raw, img, p)
    {
      FilteredByteRestored(s, img, filters, p);
    }
  }

  lemma FilteredByteRestored(s: Shape, img: seq<Byte>, filters: seq<Byte>, p: nat)
    requires s.Valid() && |img| == s.Size() && |filters| == s.h && p < |img|
    ensures RestoredAt(s, Filtered(s, img, filters), img, p)
  {
    hide PredictedAt, Wrapped, Filtered, s.RawAt, s.FilterAt;
    FilteredAt(s, img, filters, p);
    var raw := Filtered(s, img, filters);
    WrapsBack(img[p], raw[s.RawAt(p)], PredictedAt(s, img, p, filters[p / s.stride]));
  }

  // Whatever satisfies the decoder's recurrence on a filtered image is that image.
  lemma UnfilteringInverts(s: Shape, img: seq<Byte>, filters: seq<Byte>, lines: seq<Byte>)
    requires s.Valid() && |img| == s.Size() && |filters| == s.h
    ensures Restored(s, Filtered(s, img, filters), lines) <==> lines == img
  {
    hide Filtered, RestoredAt;
    FilteredIsRestored(s, img, filters);
    var raw := Filtered(s, img, filters);
    if Restored(s, raw, lines) {
      RestoredOnce(s, raw, img, lines, s.Size());
      assert img[..s.Size()] == img && lines[..s.Size()] == lines;
    }
  }

  // The filters the rows were sent with.
  function FiltersOf(s: Shape, raw: seq<Byte>): (f: seq<Byte>)
    requires |raw| == s.RawSize()
    ensures |f| == s.h
  {
    seq(s.h, y requires 0 <= y < s.h => Grows(y + 1, s.h, s.stride + 1); raw[y * (s.stride + 1)])
  }

  // The other way about: filtering what was restored gives the filtered bytes back.
  lemma FilteringInverts(s: Shape, raw: seq<Byte>, lines: seq<Byte>)
    requires s.Valid() && |raw| == s.RawSize() && Restored(s, raw, lines)
    ensures Filtered(s, lines, FiltersOf(s, raw)) == raw
  {
    var f := FiltersOf(s, raw);
    hide FilteredByte, RestoredAt, FiltersOf;
    forall q | 0 <= q < s.RawSize()
      ensures FilteredByte(s, lines, f, q) == raw[q]
    {
      SentBack(s, raw, lines, q);
    }
    assert |Filtered(s, lines, f)| == |raw|;
  }

  lemma SentBack(s: Shape, raw: seq<Byte>, lines: seq<Byte>, q: nat)
    requires s.Valid() && |raw| == s.RawSize() && Restored(s, raw, lines) && q < s.RawSize()
    ensures FilteredByte(s, lines, FiltersOf(s, raw), q) == raw[q]
  {
    hide PredictedAt, Wrapped, FilteredByte;
    var n := s.stride + 1;
    var y, j := q / n, q % n;
    assert q == y * n + j;
    RowOf(s, q);
    var f := FiltersOf(s, raw);
    assert f[y] == raw[y * n];
    if j == 0 {
      FilteredHead(s, lines, f, y);
    } else {
      var p := y * s.stride + (j - 1);
      s.Places(y, j - 1);
      FilteredRow(s, lines, f, y, j - 1, q, p);
      assert RestoredAt(s, raw, lines, p);
      WrapsBack(lines[p], raw[q], PredictedAt(s, lines, p, f[y]));
    }
  }

  // ----- the loop of png_decode -----

  predicate RestoredTo(s: Shape, raw: seq<Byte>, lines: seq<Byte>, n: nat)
    requires s.Valid() && |raw| >= s.RawSize() && |lines| == s.Size()
  {
    n <= |lines| && forall p :: 0 <= p < n ==> RestoredAt(s, raw, lines, p)
  }

  lemma OneMore(s: Shape, raw: seq<Byte>, l: seq<Byte>, m: seq<Byte>, n: nat)
    requires s.Valid() && |raw| >= s.RawSize() && |l| == |m| == s.Size() && n < |l| && l[..n] == m[..n]
    requires RestoredTo(s, raw, l, n) && RestoredAt(s, raw, m, n)
    ensures RestoredTo(s, raw, m, n + 1)
  {
    hide RestoredAt;
    forall p | 0 <= p < n
      ensures RestoredAt(s, raw, m, p)
    {
      assert l[..p] == l[..n][..p] && m[..p] == m[..n][..p];
      assert l[p] == l[..n][p] && m[p] == m[..n][p];
      RestoredStep(s, raw, l, m, p);
    }
  }

  // Where row y begins, among the restored bytes and among those sent.
  predicate AtRow(s: Shape, y: nat, cur: nat, src: nat) {
    cur == y * s.stride && src == y * (s.stride + 1)
  }

  lemma RowPlaces(s: Shape, y: nat, i: nat, cur: nat, src: nat)
    requires s.Valid() && y < s.h && i < s.stride && AtRow(s, y, cur, src)
    ensures cur + i < s.Size() && src + 1 + i < s.RawSize() && (y > 0 ==> s.stride <= cur)
  {
    s.Places(y, i);
    if y > 0 {
      Grows(1, y, s.stride);
    }
  }

  // The prediction at row y, byte i.
  lemma PredictedIn(s: Shape, lines: seq<Byte>, y: nat, i: nat, filter: Byte, cur: nat, src: nat)
    requires s.Valid() && |lines| == s.Size() && y < s.h && i < s.stride && AtRow(s, y, cur, src)
    requires cur + i < |lines| && (y > 0 ==> s.stride <= cur)
    ensures PredictedAt(s, lines, cur + i, filter) ==
            Predicted(filter,
              if i >= s.unit then lines[cur + i - s.unit] else 0,
              if y > 0 then lines[cur + i - s.stride] else 0,
              if y > 0 && i >= s.unit then lines[cur + i - s.stride - s.unit] else 0)
  {
    hide Predicted;
    s.Places(y, i);
  }

  // The byte at row y, column i is restored from the row's filter, the byte sent and those before.
  lemma RestoredIn(s: Shape, raw: seq<Byte>, l: seq<Byte>, m: seq<Byte>, y: nat, i: nat, cur: nat, src: nat)
    requires s.Valid() && |raw| >= s.RawSize() && |l| == |m| == s.Size() && y < s.h && i < s.stride
    requires AtRow(s, y, cur, src) && cur + i < |l| && src + 1 + i < |raw|
    requires l[..cur + i] == m[..cur + i]
    requires m[cur + i] == Wrapped(raw[src + 1 + i] as int + PredictedAt(s, l, cur + i, raw[src]) as int)
    ensures RestoredAt(s, raw, m, cur + i)
  {
    hide PredictedAt, Wrapped;
    s.Places(y, i);
    PredictedFromBefore(s, l, m, cur + i, raw[src]);
  }

  lemma ByteRestored(s: Shape, raw: seq<Byte>, was: seq<Byte>, now: seq<Byte>, y: nat, i: nat, cur: nat, src: nat)
    requires s.Valid() && |raw| >= s.RawSize() && |was| == s.Size() && y < s.h && i < s.stride
    requires AtRow(s, y, cur, src) && cur + i < |was| && src + 1 + i < |raw|
    requires RestoredTo(s, raw, was, cur + i)
    requires now == was[cur + i := Wrapped(raw[src + 1 + i] as int + PredictedAt(s, was, cur + i, raw[src]) as int)]
    ensures RestoredTo(s, raw, now, cur + i + 1)
  {
    hide PredictedAt, Wrapped, RestoredAt, RestoredTo, AtRow;
    assert was[..cur + i] == now[..cur + i];
    RestoredIn(s, raw, was, now, y, i, cur, src);
    OneMore(s, raw, was, now, cur + i);
  }

  // A row restored.
  method UnfilterRow(s: Shape, raw: seq<Byte>, lines: array<Byte>, y: nat, cur: nat, src: nat)
    requires s.Valid() && |raw| >= s.RawSize() && lines.Length == s.Size() && y < s.h && AtRow(s, y, cur, src)
    requires RestoredTo(s, raw, lines[..], cur)
    modifies lines
    ensures RestoredTo(s, raw, lines[..], cur + s.stride)
  {
    hide RestoredAt, RestoredTo, PredictedAt, Predicted, Wrapped, AtRow, s.RawAt, s.FilterAt, s.Size, s.RawSize;
    RowPlaces(s, y, 0, cur, src);
    var filter := raw[src];
    var i: nat := 0;
    while i < s.stride
      invariant i <= s.stride
      invariant RestoredTo(s, raw, lines[..], cur + i)
    {
      RowPlaces(s, y, i, cur, src);
      ghost var was := lines[..];
      PredictedIn(s, was, y, i, filter, cur, src);
      var p := cur + i;
      var a: Byte := if i >= s.unit then lines[p - s.unit] else 0;
      var b: Byte := if y > 0 then lines[p - s.stride] else 0;
      var c: Byte := if y > 0 && i >= s.unit then lines[p - s.stride - s.unit] else 0;
      lines[p] := Wrapped(raw[src + 1 + i] as int + Predicted(filter, a, b, c) as int);
      ByteRestored(s, raw, was, lines[..], y, i, cur, src);
      i := i + 1;
    }
  }

  method Unfilter(s: Shape, raw: seq<Byte>) returns (lines: array<Byte>)
    requires s.Valid() && |raw| >= s.RawSize()
    ensures fresh(lines) && Restored(s, raw, lines[..])
  {
    hide RestoredAt;
    lines := new Byte[s.Size()];
    var y: nat := 0;
    while y < s.h
      invariant y <= s.h
      invariant RestoredTo(s, raw, lines[..], y * s.stride)
    {
      UnfilterRow(s, raw, lines, y, y * s.stride, y * (s.stride + 1));
      y := y + 1;
    }
  }
}
