/**
 The shared name table of the style sheet engine (userland/css.h): names stored once, lowercased,
 in one block of memory, each behind a four byte link to an older name of its hash bucket.
 */
module CssIntern {
  import opened Bytes

  type Name = seq<Byte>

  const CSS_STR_CAP := 1048576
  const CSS_STR_BUCKETS := 4096

  function LowerByte(b: Byte): (r: Byte) {
    if 65 <= b <= 90 then b + 32 else b
  }

  function Lowered(n: Name): (r: Name)
    ensures |r| == |n| && forall i :: 0 <= i < |n| ==> r[i] == LowerByte(n[i])
  {
    seq(|n|, i requires 0 <= i < |n| => LowerByte(n[i]))
  }

  predicate NulFree(n: Name) {
    forall i :: 0 <= i < |n| ==> n[i] != 0
  }

  // The bucket of a lowercased name.
  function Bucket(n: Name): (b: nat)
    ensures b < CSS_STR_BUCKETS
  {
    Fnv1a(n, FNV_START) as nat % CSS_STR_BUCKETS
  }

  // ----- the table as a list of entries, oldest first -----

  datatype Entry = Entry(off: nat, text: Name)

  function End(es: seq<Entry>): (e: nat) {
    if es == [] then 4 else es[|es| - 1].off + |es[|es| - 1].text| + 1
  }

  // Index of the entry with this text, or -1.
  function Find(es: seq<Entry>, t: Name): (k: int)
    ensures -1 <= k < |es|
    ensures k >= 0 ==> es[k].text == t
    ensures k < 0 ==> forall i :: 0 <= i < |es| ==> es[i].text != t
  {
    if es == [] then -1
    else if es[|es| - 1].text == t then |es| - 1
    else Find(es[..|es| - 1], t)
  }

  datatype Interned = Interned(entries: seq<Entry>, off: nat)

  // What css_intern does: 0 for no name, the old offset for an old name, a new entry at the end
  // for a new one, and 0 again when there is no room for it.
  function InternStep(es: seq<Entry>, n: Name): (r: Interned) {
    var t := Lowered(n);
    var k := Find(es, t);
    if n == [] then Interned(es, 0)
    else if k >= 0 then Interned(es, es[k].off)
    else if End(es) + |n| + 8 > CSS_STR_CAP then Interned(es, 0)
    else Interned(es + [Entry(End(es) + 4, t)], End(es) + 4)
  }

  // Entries lie one behind the other, each after its link.
  predicate Laid(es: seq<Entry>) {
    && (|es| > 0 ==> es[0].off == 8)
    && (forall k :: 0 < k < |es| ==> es[k].off == es[k - 1].off + |es[k - 1].text| + 5)
  }

  predicate Ascending(es: seq<Entry>) {
    forall i, k :: 0 <= i < k < |es| ==> es[i].off < es[k].off
  }

  predicate Distinct(es: seq<Entry>) {
    forall i, k :: 0 <= i < k < |es| ==> es[i].text != es[k].text
  }

  predicate Texts(es: seq<Entry>) {
    forall k :: 0 <= k < |es| ==> es[k].text != [] && NulFree(es[k].text)
  }

  ghost predicate Tidy(es: seq<Entry>) {
    Laid(es) && Ascending(es) && Distinct(es) && Texts(es) && End(es) <= CSS_STR_CAP
  }

  lemma StepKeepsTidy(es: seq<Entry>, n: Name)
    requires Tidy(es) && NulFree(n)
    ensures Tidy(InternStep(es, n).entries)
  {
    var t := Lowered(n);
    if n != [] && Find(es, t) < 0 && End(es) + |n| + 8 <= CSS_STR_CAP {
      hide Lowered;
      AppendKeepsTidy(es, Entry(End(es) + 4, t));
    }
  }

  lemma AppendKeepsTidy(es: seq<Entry>, e: Entry)
    requires Tidy(es) && e.off == End(es) + 4 && e.text != [] && NulFree(e.text) && Find(es, e.text) < 0
    requires End(es) + |e.text| + 8 <= CSS_STR_CAP
    ensures Tidy(es + [e])
  {
    hide NulFree, Find, Laid, Ascending, Distinct, Texts;
    StillLaid(es, e);
    StillAscending(es, e);
    StillDistinct(es, e);
    StillTexts(es, e);
  }

  lemma StillLaid(es: seq<Entry>, e: Entry)
    requires Laid(es) && e.off == End(es) + 4
    ensures Laid(es + [e])
  {
  }

  lemma StillAscending(es: seq<Entry>, e: Entry)
    requires Ascending(es) && e.off == End(es) + 4
    ensures Ascending(es + [e])
  {
    var r := es + [e];
    forall i, k | 0 <= i < k < |r|
      ensures r[i].off < r[k].off
    {
      if k == |es| && i < |es| - 1 {
        assert es[i].off < es[|es| - 1].off;
      }
    }
  }

  lemma StillDistinct(es: seq<Entry>, e: Entry)
    requires Distinct(es) && Find(es, e.text) < 0
    ensures Distinct(es + [e])
  {
    hide Find;
    var k := Find(es, e.text);
  }

  lemma StillTexts(es: seq<Entry>, e: Entry)
    requires Texts(es) && e.text != [] && NulFree(e.text)
    ensures Texts(es + [e])
  {
    hide NulFree;
  }

  // ----- every run -----

  // The offsets handed out for a list of names, one after the other.
  function Run(es: seq<Entry>, names: seq<Name>): (r: (seq<Entry>, seq<nat>))
    ensures |r.1| == |names|
    decreases |names|
  {
    if names == [] then (es, []) else
      var s := InternStep(es, names[0]);
      var more := Run(s.entries, names[1..]);
      (more.0, [s.off] + more.1)
  }

  // The offset belongs to an entry with this text.
  ghost predicate Named(es: seq<Entry>, off: nat, t: Name) {
    exists k :: 0 <= k < |es| && es[k] == Entry(off, t)
  }

  lemma StepNames(es: seq<Entry>, n: Name)
    ensures es <= InternStep(es, n).entries
    ensures InternStep(es, n).off != 0 ==> Named(InternStep(es, n).entries, InternStep(es, n).off, Lowered(n))
  {
    var t := Lowered(n);
    var k := Find(es, t);
    var r := InternStep(es, n);
    if n != [] {
      if k >= 0 {
        assert es[k] == Entry(es[k].off, t);
      } else if r.off != 0 {
        assert r.entries[|es|] == Entry(r.off, t);
      }
    }
  }

  lemma NamedGrows(es: seq<Entry>, more: seq<Entry>, off: nat, t: Name)
    requires es <= more && Named(es, off, t)
    ensures Named(more, off, t)
  {
    var k :| 0 <= k < |es| && es[k] == Entry(off, t);
    assert more[k] == es[k];
  }

  // Every offset handed out keeps its name to the end of the run.
  lemma {:induction false} RunNames(es: seq<Entry>, names: seq<Name>)
    requires Tidy(es) && forall i :: 0 <= i < |names| ==> NulFree(names[i])
    ensures var (end, offs) := Run(es, names);
            && es <= end && Tidy(end)
            && forall i :: 0 <= i < |names| && offs[i] != 0 ==> Named(end, offs[i], Lowered(names[i]))
    decreases |names|
  {
    hide InternStep, Tidy, Named, Lowered, NulFree;
    if names != [] {
      var s := InternStep(es, names[0]);
      StepKeepsTidy(es, names[0]);
      StepNames(es, names[0]);
      RunNames(s.entries, names[1..]);
      var (end, offs) := Run(es, names);
      var more := Run(s.entries, names[1..]);
      forall i | 0 <= i < |names| && offs[i] != 0
        ensures Named(end, offs[i], Lowered(names[i]))
      {
        if i == 0 {
          NamedGrows(s.entries, end, s.off, Lowered(names[0]));
        } else {
          assert offs[i] == more.1[i - 1] && names[i] == names[1..][i - 1];
        }
      }
    }
  }

  // Over every run: two names that were given offsets were given the same one exactly when they
  // are equal but for case.
  lemma SameOffsetSameName(names: seq<Name>, i: nat, j: nat)
    requires forall k :: 0 <= k < |names| ==> NulFree(names[k])
    requires i < |names| && j < |names|
    requires var offs := Run([], names).1; offs[i] != 0 && offs[j] != 0
    ensures var offs := Run([], names).1;
            offs[i] == offs[j] <==> Lowered(names[i]) == Lowered(names[j])
  {
    hide *;
    EmptyIsTidy();
    RunNames([], names);
    var (end, offs) := Run([], names);
    NamedOnce(end, offs[i], Lowered(names[i]), offs[j], Lowered(names[j]));
  }

  lemma EmptyIsTidy()
    ensures Tidy([])
  {
  }

  lemma NamedOnce(es: seq<Entry>, off: nat, t: Name, off': nat, t': Name)
    requires Tidy(es) && Named(es, off, t) && Named(es, off', t')
    ensures off == off' <==> t == t'
  {
    hide Laid, Texts, NulFree;
    var a :| 0 <= a < |es| && es[a] == Entry(off, t);
    var b :| 0 <= b < |es| && es[b] == Entry(off', t');
    if a < b {
      assert es[a].off < es[b].off && es[a].text != es[b].text;
    } else if b < a {
      assert es[b].off < es[a].off && es[b].text != es[a].text;
    }
  }

  // ----- the memory -----

  function Get32(mem: seq<Byte>, at: nat): (v: nat)
    requires at + 4 <= |mem|
  {
    var b0: int, b1: int, b2: int, b3: int := mem[at], mem[at + 1], mem[at + 2], mem[at + 3];
    b0 + 256 * b1 + 65536 * b2 + 16777216 * b3
  }

  // The newest entry below k in the bucket, or -1.
  function Newest(es: seq<Entry>, h: nat, k: nat): (j: int)
    requires k <= |es|
    ensures -1 <= j < k
  {
    if k == 0 then -1 else if Bucket(es[k - 1].text) == h then k - 1 else Newest(es, h, k - 1)
  }

  // All that lies between was filed elsewhere, and is not the text looked for.
  lemma {:induction false} NewestMisses(es: seq<Entry>, t: Name, k: nat)
    requires k <= |es|
    ensures var j := Newest(es, Bucket(t), k);
            && (j >= 0 ==> Bucket(es[j].text) == Bucket(t))
            && (forall i :: j < i < k ==> es[i].text != t)
    decreases k
  {
    hide Bucket;
    if k > 0 && Bucket(es[k - 1].text) != Bucket(t) {
      NewestMisses(es, t, k - 1);
    }
  }

  function OffsetOf(es: seq<Entry>, j: int): (off: nat)
    requires j < |es|
  {
    if j < 0 then 0 else es[j].off
  }

  // The entry's text stands in memory, ended by a zero, with room for a link before it.
  predicate TextAt(mem: seq<Byte>, e: Entry) {
    && 4 <= e.off && e.off + |e.text| < |mem|
    && mem[e.off..e.off + |e.text|] == e.text && mem[e.off + |e.text|] == 0
  }

  // Entry k stands in memory behind the link to the entry before it in its bucket: links always
  // lead to lower offsets.
  predicate Stands(mem: seq<Byte>, es: seq<Entry>, k: nat)
    requires k < |es|
  {
    && TextAt(mem, es[k])
    && Get32(mem, es[k].off - 4) == OffsetOf(es, Newest(es, Bucket(es[k].text), k))
  }

  predicate Heads(shead: seq<nat>, es: seq<Entry>) {
    |shead| == CSS_STR_BUCKETS && forall h :: 0 <= h < CSS_STR_BUCKETS ==> shead[h] == OffsetOf(es, Newest(es, h, |es|))
  }

  // css_name: the characters from off up to the next zero.
  function NameAt(mem: seq<Byte>, off: nat): (n: Name)
    decreases |mem| - off
  {
    if off < |mem| && mem[off] != 0 then [mem[off]] + NameAt(mem, off + 1) else []
  }

  lemma {:induction false} NameRead(mem: seq<Byte>, off: nat, t: Name)
    requires off + |t| < |mem| && mem[off..off + |t|] == t && mem[off + |t|] == 0 && NulFree(t)
    ensures NameAt(mem, off) == t
    decreases |t|
  {
    if t != [] {
      assert mem[off] == mem[off..off + |t|][0];
      assert mem[off + 1..off + 1 + |t[1..]|] == mem[off..off + |t|][1..];
      NameRead(mem, off + 1, t[1..]);
    }
  }

  lemma {:induction false} NewestOfPrefix(es: seq<Entry>, e: Entry, h: nat, k: nat)
    requires k <= |es|
    ensures Newest(es + [e], h, k) == Newest(es, h, k)
  {
    hide Bucket;
    if k > 0 {
      NewestOfPrefix(es, e, h, k - 1);
    }
  }

  // Memory below the end of the table is all that entries stand in.
  lemma EntriesBelowEnd(es: seq<Entry>, k: nat)
    requires Tidy(es) && k < |es|
    ensures 8 <= es[k].off && es[k].off + |es[k].text| + 1 <= End(es)
  {
    hide Distinct, Texts, NulFree;
    if k < |es| - 1 {
      assert es[k + 1].off == es[k].off + |es[k].text| + 5;
      assert es[k + 1].off <= es[|es| - 1].off;
    }
    if k > 0 {
      assert es[0].off < es[k].off;
    }
  }

  lemma TextStill(mem: seq<Byte>, mem': seq<Byte>, e: Entry, end: nat)
    requires TextAt(mem, e) && end <= |mem| == |mem'| && e.off + |e.text| < end
    requires forall i :: 0 <= i < end ==> mem'[i] == mem[i]
    ensures TextAt(mem', e) && Get32(mem', e.off - 4) == Get32(mem, e.off - 4)
  {
    SameGet32(mem', mem, e.off - 4);
    hide Get32;
    assert mem'[e.off..e.off + |e.text|] == mem[e.off..e.off + |e.text|];
  }

  lemma StandsStill(mem: seq<Byte>, mem': seq<Byte>, es: seq<Entry>, e: Entry, k: nat)
    requires Tidy(es) && k < |es| && Stands(mem, es, k) && |mem'| == |mem|
    requires End(es) <= |mem| && forall i :: 0 <= i < End(es) ==> mem'[i] == mem[i]
    ensures Stands(mem', es + [e], k)
  {
    hide Bucket, Newest, Tidy, Get32, TextAt;
    EntriesBelowEnd(es, k);
    hide End;
    TextFits(mem, es[k]);
    TextStill(mem, mem', es[k], End(es));
    NewestOfPrefix(es, e, Bucket(es[k].text), k);
    assert (es + [e])[k] == es[k];
  }

  lemma TextFits(mem: seq<Byte>, e: Entry)
    requires TextAt(mem, e)
    ensures 4 <= e.off && e.off + |e.text| < |mem|
  {
  }

  lemma StandsNew(mem': seq<Byte>, es: seq<Entry>, e: Entry)
    requires TextAt(mem', e)
    requires Get32(mem', e.off - 4) == OffsetOf(es, Newest(es, Bucket(e.text), |es|))
    ensures Stands(mem', es + [e], |es|)
  {
    hide Bucket, Newest, Get32, TextAt;
    NewestOfPrefix(es, e, Bucket(e.text), |es|);
    assert (es + [e])[|es|] == e;
  }

  lemma HeadsNew(shead: seq<nat>, es: seq<Entry>, e: Entry)
    requires Heads(shead, es)
    ensures Heads(shead[Bucket(e.text) := e.off], es + [e])
  {
    var h := Bucket(e.text);
    var r := es + [e];
    forall b | 0 <= b < CSS_STR_BUCKETS
      ensures shead[h := e.off][b] == OffsetOf(r, Newest(r, b, |r|))
    {
      hide Bucket;
      NewestOfPrefix(es, e, b, |es|);
    }
  }

  lemma TextBytes(mem: seq<Byte>, off: nat, t: Name)
    requires off + |t| <= |mem| && mem[off..off + |t|] == t
    ensures forall j :: 0 <= j < |t| ==> mem[off + j] == t[j]
  {
    forall j | 0 <= j < |t|
      ensures mem[off + j] == t[j]
    {
      assert mem[off..off + |t|][j] == mem[off + j];
    }
  }

  class NameTable {
    const mem: array<Byte>
    var strlen: nat
    const shead: array<nat>
    ghost var entries: seq<Entry>

    ghost predicate Valid()
      reads this, mem, shead
    {
      && mem.Length == CSS_STR_CAP && shead.Length == CSS_STR_BUCKETS
      && Tidy(entries) && strlen == End(entries)
      && (forall k :: 0 <= k < |entries| ==> Stands(mem[..], entries, k))
      && Heads(shead[..], entries)
    }

    constructor ()
      ensures Valid() && entries == [] && fresh(mem) && fresh(shead)
    {
      mem := new Byte[CSS_STR_CAP](_ => 0);
      shead := new nat[CSS_STR_BUCKETS](_ => 0);
      strlen := 4;
      entries := [];
    }

    // Does the entry at off spell the name?
    method Spells(off: nat, n: Name, ghost k: nat) returns (same: bool)
      requires Valid() && NulFree(n) && k < |entries| && entries[k].off == off
      ensures same == (entries[k].text == Lowered(n))
    {
      hide Valid, Lowered;
      ghost var t := entries[k].text;
      EntryBytes(k);
      var i := 0;
      while i < |n| && mem[off + i] != 0 && mem[off + i] == LowerByte(n[i])
        invariant 0 <= i <= |n| && i <= |t|
        invariant forall j :: 0 <= j < i ==> t[j] == LowerByte(n[j])
      {
        i := i + 1;
      }
      assert i < |t| ==> mem[off + i] == t[i] && t[i] != 0;
      same := i == |n| && mem[off + i] == 0;
      SpelledOut(t, n, i);
    }

    lemma EntryBytes(k: nat)
      requires Valid() && k < |entries|
      ensures var e := entries[k];
              && e.off + |e.text| < mem.Length && mem[e.off + |e.text|] == 0
              && (forall j :: 0 <= j < |e.text| ==> mem[e.off + j] == e.text[j] && e.text[j] != 0)
    {
      hide Heads, Newest, Get32;
      var e := entries[k];
      assert Stands(mem[..], entries, k) && TextAt(mem[..], e) && NulFree(e.text);
      TextBytes(mem[..], e.off, e.text);
    }

    // The link behind which an entry stands.
    lemma EntryLink(k: nat)
      requires Valid() && k < |entries|
      ensures 8 <= entries[k].off <= mem.Length
      ensures Get32(mem[..], entries[k].off - 4) == OffsetOf(entries, Newest(entries, Bucket(entries[k].text), k))
    {
      hide Heads, Newest, Get32, Bucket;
      EntriesBelowEnd(entries, k);
      assert Stands(mem[..], entries, k) && TextAt(mem[..], entries[k]);
    }

    lemma HeadLink(h: nat)
      requires Valid() && h < CSS_STR_BUCKETS
      ensures h < shead.Length && shead[h] == OffsetOf(entries, Newest(entries, h, |entries|))
    {
      hide Stands, Tidy, Newest;
      assert shead[..][h] == shead[h];
    }

    // The offset of the name, if it is in the table.
    method Search(n: Name) returns (off: nat)
      requires Valid() && NulFree(n) && n != []
      ensures var k := Find(entries, Lowered(n));
              off == OffsetOf(entries, k)
    {
      hide Bucket, Find, Newest, Lowered, Valid, Get32;
      ghost var t := Lowered(n);
      var h := Bucket(Lowered(n));
      ghost var j := Newest(entries, h, |entries|);
      HeadLink(h);
      off := shead[h];
      NewestMisses(entries, t, |entries|);
      while off != 0
        invariant -1 <= j < |entries| && off == OffsetOf(entries, j)
        invariant j >= 0 ==> Bucket(entries[j].text) == h
        invariant forall i :: j < i < |entries| ==> entries[i].text != t
        decreases j
      {
        var same := Spells(off, n, j);
        if same {
          FoundHere(j, t);
          return;
        }
        EntryLink(j);
        NewestMisses(entries, t, j);
        off := Load(off - 4);
        j := Newest(entries, h, j);
      }
      if j >= 0 {
        EntryLink(j);
      }
      NotFound(entries, t);
    }

    lemma FoundHere(j: nat, t: Name)
      requires Valid() && j < |entries| && entries[j].text == t
      ensures Find(entries, t) == j
    {
      FindThis(entries, j, t);
    }

    // css_intern
    method Intern(n: Name) returns (off: nat)
      requires Valid() && NulFree(n)
      modifies this, mem, shead
      ensures Valid()
      ensures Interned(entries, off) == InternStep(old(entries), n)
    {
      hide Bucket, Find, Stands, Heads, Tidy, NulFree;
      if |n| == 0 {
        return 0;
      }
      off := Search(n);
      FoundIsNonZero(entries, Lowered(n));
      if off != 0 {
        return;
      }
      if strlen + |n| + 8 > CSS_STR_CAP {
        return 0;
      }
      off := Append(n);
    }

    // A name that is not there yet, behind everything that is.
    method Append(n: Name) returns (off: nat)
      requires Valid() && NulFree(n) && n != [] && Find(entries, Lowered(n)) < 0
      requires strlen + |n| + 8 <= CSS_STR_CAP
      modifies this, mem, shead
      ensures Valid() && off == End(old(entries)) + 4
      ensures entries == old(entries) + [Entry(off, Lowered(n))]
    {
      var h := Bucket(Lowered(n));
      LoweredNulFree(n);
      hide Bucket, Find, Stands, Heads, Tidy, OffsetOf, NulFree, Get32, Newest, End, Lowered;
      off := strlen + 4;
      ghost var es, e, was, heads := entries, Entry(off, Lowered(n)), mem[..], shead[..];
      var prev := shead[h];
      HeadIsSmall(heads, es, h);
      Store(strlen, prev);
      ghost var stored := mem[..];
      WriteText(off, n);
      SameGet32(stored, mem[..], strlen);
      Appended(was, mem[..], es, e);
      shead[h] := off;
      assert shead[..] == heads[h := off];
      HeadsNew(heads, es, e);
      strlen := off + |n| + 1;
      entries := es + [e];
    }

    // css_name gives every entry's text back.
    lemma NamesReadBack(k: nat)
      requires Valid() && k < |entries|
      ensures NameAt(mem[..], entries[k].off) == entries[k].text
    {
      assert Stands(mem[..], entries, k) && Texts(entries);
      hide Valid, Tidy, Heads, Newest;
      NameRead(mem[..], entries[k].off, entries[k].text);
    }

    // The characters, lowercased, and the zero after them.
    method WriteText(off: nat, n: Name)
      requires off + |n| < mem.Length
      modifies mem
      ensures forall k :: 0 <= k < |n| ==> mem[off + k] == Lowered(n)[k]
      ensures mem[off + |n|] == 0
      ensures forall k :: 0 <= k < off ==> mem[k] == old(mem[k])
    {
      var i := 0;
      while i < |n|
        invariant 0 <= i <= |n|
        invariant forall k :: 0 <= k < i ==> mem[off + k] == LowerByte(n[k])
        invariant forall k :: 0 <= k < off ==> mem[k] == old(mem[k])
      {
        mem[off + i] := LowerByte(n[i]);
        i := i + 1;
      }
      mem[off + |n|] := 0;
    }

    method Load(at: nat) returns (v: nat)
      requires at + 4 <= mem.Length
      ensures v == Get32(mem[..], at)
    {
      var b0: int, b1: int, b2: int, b3: int := mem[at], mem[at + 1], mem[at + 2], mem[at + 3];
      v := b0 + 256 * b1 + 65536 * b2 + 16777216 * b3;
    }

    method Store(at: nat, v: nat)
      requires at + 4 <= mem.Length && v < 0x1_0000_0000
      modifies mem
      ensures Get32(mem[..], at) == v
      ensures forall i :: 0 <= i < mem.Length && !(at <= i < at + 4) ==> mem[i] == old(mem[i])
    {
      var q1 := v / 256;
      var q2 := q1 / 256;
      var q3 := q2 / 256;
      mem[at] := v % 256;
      mem[at + 1] := q1 % 256;
      mem[at + 2] := q2 % 256;
      mem[at + 3] := q3;
    }
  }

  lemma SpelledOut(t: Name, n: Name, i: nat)
    requires i <= |n| && i <= |t| && forall j :: 0 <= j < i ==> t[j] == LowerByte(n[j])
    requires i < |n| && i < |t| ==> t[i] != LowerByte(n[i])
    ensures (i == |n| && i == |t|) <==> t == Lowered(n)
  {
  }

  lemma NotFound(es: seq<Entry>, t: Name)
    ensures (forall i :: 0 <= i < |es| ==> es[i].text != t) ==> Find(es, t) < 0
  {
    hide Find;
    var k := Find(es, t);
  }

  lemma FindThis(es: seq<Entry>, j: nat, t: Name)
    requires Tidy(es) && j < |es| && es[j].text == t
    ensures Find(es, t) == j
  {
    hide Laid, Ascending, Texts, NulFree, Find;
    var k := Find(es, t);
    assert es[k].text == t;
  }

  lemma LoweredNulFree(n: Name)
    requires NulFree(n)
    ensures NulFree(Lowered(n))
  {
  }

  lemma FoundIsNonZero(es: seq<Entry>, t: Name)
    requires Tidy(es)
    ensures OffsetOf(es, Find(es, t)) == 0 <==> Find(es, t) < 0
  {
    hide Find, Tidy;
    if Find(es, t) >= 0 {
      EntriesBelowEnd(es, Find(es, t));
    }
  }

  lemma HeadIsSmall(heads: seq<nat>, es: seq<Entry>, h: nat)
    requires Tidy(es) && Heads(heads, es) && h < CSS_STR_BUCKETS
    ensures h < |heads| && heads[h] == OffsetOf(es, Newest(es, h, |es|)) < CSS_STR_CAP
  {
    hide Bucket, Newest;
    var j := Newest(es, h, |es|);
    if j >= 0 {
      EntriesBelowEnd(es, j);
    }
  }

  lemma SameGet32(a: seq<Byte>, b: seq<Byte>, at: nat)
    requires at + 4 <= |a| == |b| && forall i :: 0 <= i < at + 4 ==> a[i] == b[i]
    ensures Get32(a, at) == Get32(b, at)
  {
  }

  // The new entry stands, and so do all the others.
  lemma Appended(was: seq<Byte>, now: seq<Byte>, es: seq<Entry>, e: Entry)
    requires Tidy(es) && |now| == |was| == CSS_STR_CAP && forall k :: 0 <= k < |es| ==> Stands(was, es, k)
    requires e.off == End(es) + 4 && e.text != [] && NulFree(e.text) && Find(es, e.text) < 0
    requires End(es) + |e.text| + 8 <= CSS_STR_CAP
    requires forall i :: 0 <= i < End(es) ==> now[i] == was[i]
    requires Get32(now, End(es)) == OffsetOf(es, Newest(es, Bucket(e.text), |es|))
    requires forall k :: 0 <= k < |e.text| ==> now[e.off + k] == e.text[k]
    requires now[e.off + |e.text|] == 0
    ensures Tidy(es + [e]) && End(es + [e]) == e.off + |e.text| + 1
    ensures forall k :: 0 <= k < |es + [e]| ==> Stands(now, es + [e], k)
  {
    hide Bucket, Newest, Tidy, Stands, Get32, OffsetOf, NulFree, Find;
    AppendKeepsTidy(es, e);
    assert now[e.off..e.off + |e.text|] == e.text;
    StandsNew(now, es, e);
    hide TextAt;
    forall k | 0 <= k < |es + [e]|
      ensures Stands(now, es + [e], k)
    {
      if k < |es| {
        StandsStill(was, now, es, e, k);
      }
    }
  }
}
