/**
 Custom properties (userland/css.h): an open-addressing hash table whose names and values are
 written, once each, into an arena that only grows.
 */
module CssVars {
  import opened CssNames
  import opened CssSelector

  const CSS_VAR_SLOTS := 4096
  const CSS_VAR_ARENA := 262144
  const CSS_VAR_LOAD := CSS_VAR_SLOTS * 3 / 4

  // A value is stored without the white space around it.
  function Trimmed(v: string): (r: string) {
    var a := Skip(v, 0, true);
    TrimmedRight(v[a..])
  }

  function TrimmedRight(v: string): (r: string) {
    if v != [] && IsSpace(v[|v| - 1]) then TrimmedRight(v[..|v| - 1]) else v
  }

  // ----- what the table means -----

  // Keys are lowercased names; used counts the bytes of the arena that are taken.
  datatype Vars = Vars(m: map<string, string>, used: nat)

  // css_var_set: a name or value that is too long, a full arena or a full table leave everything
  // as it was; a later definition replaces an earlier one.
  function SetStep(s: Vars, n: string, v: string): (r: Vars) {
    var t := Trimmed(v);
    var k := Lowered(n);
    if |n| == 0 || |n| > 120 || |t| > 400 then s
    else if s.used + |n| + |t| + 2 > CSS_VAR_ARENA then s
    else if k in s.m then Vars(s.m[k := t], s.used + |t| + 1)
    else if |s.m| >= CSS_VAR_LOAD then s
    else Vars(s.m[k := t], s.used + |n| + |t| + 2)
  }

  function GetOf(s: Vars, n: string): (r: Option<string>) {
    if Lowered(n) in s.m then Some(s.m[Lowered(n)]) else None
  }

  // ----- the table as slots -----

  // A key and its value in each slot that is taken.
  type Table = seq<Option<(string, string)>>

  function Home(k: string): (i: nat)
    ensures i < CSS_VAR_SLOTS
  {
    Fnv(k) % CSS_VAR_SLOTS
  }

  function At(k: string, probe: nat): (i: nat)
    ensures i < CSS_VAR_SLOTS
  {
    (Home(k) + probe) % CSS_VAR_SLOTS
  }

  // How far from its home a key in slot i is.
  function Distance(k: string, i: nat): (d: nat)
    requires i < CSS_VAR_SLOTS
    ensures d < CSS_VAR_SLOTS && At(k, d) == i
  {
    if i >= Home(k) then i - Home(k) else i - Home(k) + CSS_VAR_SLOTS
  }

  lemma AtIsDistance(k: string, probe: nat)
    requires probe < CSS_VAR_SLOTS
    ensures Distance(k, At(k, probe)) == probe
  {
    hide Home;
  }

  predicate HasKey(t: Table, i: nat, k: string)
    requires i < |t|
  {
    t[i].Some? && t[i].value.0 == k
  }

  // Every slot between a key and its home is taken, so probing gets there.
  predicate Reachable(t: Table, i: nat)
    requires |t| == CSS_VAR_SLOTS && i < |t| && t[i].Some?
  {
    forall p :: 0 <= p < Distance(t[i].value.0, i) ==> t[At(t[i].value.0, p)].Some?
  }

  function Count(t: Table): (n: nat)
    ensures n <= |t|
  {
    if t == [] then 0 else Count(t[1..]) + if t[0].Some? then 1 else 0
  }

  // Some slot holds this key, with this value.
  ghost predicate Holds(t: Table, k: string, v: string) {
    exists i :: 0 <= i < |t| && t[i] == Some((k, v))
  }

  ghost predicate Sound(t: Table, m: map<string, string>) {
    && |t| == CSS_VAR_SLOTS
    && (forall i :: 0 <= i < |t| && t[i].Some? ==> Reachable(t, i))
    && (forall i :: 0 <= i < |t| && t[i].Some? ==> t[i].value.0 in m && m[t[i].value.0] == t[i].value.1)
    && (forall i, j :: 0 <= i < |t| && 0 <= j < |t| && t[i].Some? && t[j].Some? && t[i].value.0 == t[j].value.0 ==> i == j)
    && (forall k :: k in m ==> Holds(t, k, m[k]))
    && Count(t) == |m| <= CSS_VAR_LOAD
  }

  // The probes before p found other keys.
  predicate Missed(t: Table, k: string, p: nat)
    requires |t| == CSS_VAR_SLOTS
  {
    forall q :: 0 <= q < p ==> t[At(k, q)].Some? && !HasKey(t, At(k, q), k)
  }

  // An empty slot after misses: the key is nowhere.
  lemma EmptyMeansAbsent(t: Table, m: map<string, string>, k: string, p: nat)
    requires Sound(t, m) && p < CSS_VAR_SLOTS && Missed(t, k, p) && t[At(k, p)].None?
    ensures k !in m
  {
    hide Home, At, Distance, Count;
    var here := t[At(k, p)];
    forall i | 0 <= i < |t|
      ensures !HasKey(t, i, k)
    {
      var d := Distance(k, i);
      assert At(k, d) == i;
      assert d < p ==> !HasKey(t, At(k, d), k);
      assert t[i].Some? ==> Reachable(t, i);
      assert HasKey(t, i, k) && p < d ==> here.Some?;
    }
    assert forall x :: x in m ==> exists i :: 0 <= i < |t| && HasKey(t, i, x) by {
      forall x | x in m
        ensures exists i :: 0 <= i < |t| && HasKey(t, i, x)
      {
        var i :| 0 <= i < |t| && t[i] == Some((x, m[x]));
        assert HasKey(t, i, x);
      }
    }
  }

  lemma {:induction false} EmptyCount(t: Table)
    requires forall i :: 0 <= i < |t| ==> t[i].None?
    ensures Count(t) == 0
  {
    if t != [] {
      EmptyCount(t[1..]);
    }
  }

  lemma {:induction false} SomeEmpty(t: Table) returns (i: nat)
    requires Count(t) < |t|
    ensures i < |t| && t[i].None?
  {
    i := 0;
    if t[0].Some? {
      var j := SomeEmpty(t[1..]);
      i := j + 1;
    }
  }

  // The load cap leaves an empty slot on the way of every key, so probing ends.
  lemma ProbingEnds(t: Table, m: map<string, string>, k: string) returns (p: nat)
    requires Sound(t, m)
    ensures p < CSS_VAR_SLOTS && t[At(k, p)].None?
  {
    hide Home, At, Distance, Count;
    var i := SomeEmpty(t);
    p := Distance(k, i);
  }

  lemma {:induction false} CountUpdate(t: Table, i: nat, x: (string, string))
    requires i < |t|
    ensures Count(t[i := Some(x)]) == Count(t) + if t[i].None? then 1 else 0
  {
    if i == 0 {
      assert t[0 := Some(x)][1..] == t[1..];
    } else {
      CountUpdate(t[1..], i - 1, x);
      assert t[i := Some(x)][1..] == t[1..][i - 1 := Some(x)];
    }
  }

  // Writing a key into the slot where its probing ended.
  lemma StoreKeepsSound(t: Table, m: map<string, string>, k: string, v: string, p: nat)
    requires Sound(t, m) && p < CSS_VAR_SLOTS && Missed(t, k, p)
    requires HasKey(t, At(k, p), k) || (t[At(k, p)].None? && k !in m && |m| < CSS_VAR_LOAD)
    ensures Sound(t[At(k, p) := Some((k, v))], m[k := v])
  {
    var i := At(k, p);
    var t' := t[i := Some((k, v))];
    CountUpdate(t, i, (k, v));
    AtIsDistance(k, p);
    StoreHolds(t, m, k, v, i);
    StoreUnique(t, m, k, v, i);
    MapGrows(m, k, v);
    hide At, Distance, Count, Reachable, Holds;
    assert HasKey(t, i, k) ==> k in m;
  }

  lemma MapGrows(m: map<string, string>, k: string, v: string)
    ensures |m[k := v]| == |m| + if k in m then 0 else 1
  {
    assert m[k := v].Keys == m.Keys + {k};
  }

  lemma StoreHolds(t: Table, m: map<string, string>, k: string, v: string, i: nat)
    requires Sound(t, m) && i < |t| && (HasKey(t, i, k) || t[i].None?)
    ensures var t', m' := t[i := Some((k, v))], m[k := v];
            forall x :: x in m' ==> Holds(t', x, m'[x])
  {
    hide Home, At, Distance, Count, Reachable;
    var t', m' := t[i := Some((k, v))], m[k := v];
    forall x | x in m'
      ensures Holds(t', x, m'[x])
    {
      if x == k {
        assert t'[i] == Some((k, v));
      } else {
        var j :| 0 <= j < |t| && t[j] == Some((x, m[x]));
        assert t'[j] == t[j];
      }
    }
  }

  lemma StoreUnique(t: Table, m: map<string, string>, k: string, v: string, i: nat)
    requires Sound(t, m) && i < |t| && (HasKey(t, i, k) || (t[i].None? && k !in m))
    ensures var t', m' := t[i := Some((k, v))], m[k := v];
            && (forall a :: 0 <= a < |t'| && t'[a].Some? ==> t'[a].value.0 in m' && m'[t'[a].value.0] == t'[a].value.1)
            && (forall a, b :: 0 <= a < |t'| && 0 <= b < |t'| && t'[a].Some? && t'[b].Some? && t'[a].value.0 == t'[b].value.0 ==> a == b)
  {
    hide Home, At, Distance, Count, Reachable, Holds;
    assert forall a :: 0 <= a < |t| && t[a].Some? && a != i ==> t[a].value.0 != k;
  }

  // ----- slots and arena -----

  // Offsets and lengths of a name and its value.
  datatype Slot = Free | Used(name: nat, nlen: nat, val: nat, vlen: nat)

  // The pieces of the arena a slot points to lie in its first used bytes.
  predicate Within(s: Slot, used: nat) {
    s.Used? ==> s.name + s.nlen <= used && s.val + s.vlen <= used
  }

  function Text(arena: seq<char>, at: nat, n: nat): (t: string) {
    if at + n <= |arena| then arena[at..at + n] else []
  }

  function Read(s: Slot, arena: seq<char>): (x: Option<(string, string)>) {
    if s.Free? then None else Some((Lowered(Text(arena, s.name, s.nlen)), Text(arena, s.val, s.vlen)))
  }

  function TableOf(slots: seq<Slot>, arena: seq<char>): (t: Table)
    ensures |t| == |slots| && forall i :: 0 <= i < |slots| ==> t[i] == Read(slots[i], arena)
  {
    seq(|slots|, i requires 0 <= i < |slots| => Read(slots[i], arena))
  }

  lemma TextSame(a: seq<char>, b: seq<char>, at: nat, n: nat, used: nat)
    requires at + n <= used <= |a| == |b| && a[..used] == b[..used]
    ensures Text(a, at, n) == Text(b, at, n)
  {
    assert a[at..at + n] == a[..used][at..at + n] == b[..used][at..at + n] == b[at..at + n];
  }

  // Text below the mark is read the same whatever is written above it.
  lemma ReadSame(s: Slot, a: seq<char>, b: seq<char>, used: nat)
    requires Within(s, used) && used <= |a| == |b| && a[..used] == b[..used]
    ensures Read(s, a) == Read(s, b)
  {
    hide Text, Lowered;
    if s.Used? {
      TextSame(a, b, s.name, s.nlen, used);
      TextSame(a, b, s.val, s.vlen, used);
    }
  }

  // css_var_eq: the slot is taken, by this name.
  predicate IsVar(s: Slot, arena: seq<char>, k: string) {
    s.Used? && Lowered(Text(arena, s.name, s.nlen)) == k
  }

  lemma NothingMissed(t: Table, k: string)
    requires |t| == CSS_VAR_SLOTS
    ensures Missed(t, k, 0)
  {
  }

  lemma OneMoreMissed(t: Table, k: string, p: nat, s: Slot, arena: seq<char>)
    requires |t| == CSS_VAR_SLOTS && Missed(t, k, p) && t[At(k, p)] == Read(s, arena)
    requires s.Used? && !IsVar(s, arena, k)
    ensures t[At(k, p)].Some? && Missed(t, k, p + 1)
  {
    hide At, Lowered, Text;
  }

  lemma SlotFound(t: Table, k: string, i: nat, s: Slot, arena: seq<char>)
    requires i < |t| && t[i] == Read(s, arena)
    ensures s.Free? <==> t[i].None?
    ensures IsVar(s, arena, k) <==> HasKey(t, i, k)
  {
    hide Lowered, Text;
  }

  class VarTable {
    const slots: array<Slot>
    const arena: array<char>
    var used: nat
    var n: nat
    ghost var vars: map<string, string>

    ghost predicate Valid()
      reads this, slots, arena
    {
      && slots.Length == CSS_VAR_SLOTS && arena.Length == CSS_VAR_ARENA && used <= CSS_VAR_ARENA
      && (forall i :: 0 <= i < slots.Length ==> Within(slots[i], used))
      && Sound(Tab(), vars)
      && n == |vars|
    }

    ghost function Tab(): (t: Table)
      reads slots, arena
    {
      TableOf(slots[..], arena[..])
    }

    ghost function View(): (s: Vars)
      reads this
    {
      Vars(vars, used)
    }

    constructor ()
      ensures Valid() && View() == Vars(map[], 0) && fresh(slots) && fresh(arena)
    {
      slots := new Slot[CSS_VAR_SLOTS](_ => Free);
      arena := new char[CSS_VAR_ARENA](_ => '\0');
      used, n, vars := 0, 0, map[];
      new;
      EmptyCount(Tab());
    }

    // Where the probing for a name ends: at its own slot or at an empty one.
    method FindSlot(name: string) returns (i: nat, ghost p: nat)
      requires Valid()
      ensures i < CSS_VAR_SLOTS && p < CSS_VAR_SLOTS && i == At(Lowered(name), p)
      ensures |Tab()| == CSS_VAR_SLOTS && Missed(Tab(), Lowered(name), p)
      ensures Tab()[i].None? || HasKey(Tab(), i, Lowered(name))
    {
      hide Lowered, Text, At, Home, IsVar, Read, Missed, HasKey;
      var k := Lowered(name);
      ghost var t := Tab();
      ghost var last := ProbingEnds(t, vars, k);
      hide Sound, Tab, Valid, View, Within;
      NothingMissed(t, k);
      var probe := 0;
      i := At(k, 0);
      while probe < CSS_VAR_SLOTS && slots[i].Used? && !IsVar(slots[i], arena[..], k)
        invariant 0 <= probe <= last && i == At(k, probe)
        invariant Missed(t, k, probe)
      {
        OneMoreMissed(t, k, probe, slots[i], arena[..]);
        probe := probe + 1;
        i := At(k, probe);
      }
      SlotFound(t, k, i, slots[i], arena[..]);
      p := probe;
    }

    // css_var_get
    method Get(name: string) returns (r: Option<string>)
      requires Valid()
      ensures r == GetOf(View(), name)
    {
      var i, p := FindSlot(name);
      ghost var t := Tab();
      hide Home, Count, Distance, At;
      assert t[i] == Read(slots[i], arena[..]);
      if slots[i].Free? {
        EmptyMeansAbsent(t, vars, Lowered(name), p);
        r := None;
      } else {
        r := Some(Text(arena[..], slots[i].val, slots[i].vlen));
      }
    }

    // Bytes appended to the arena, with a zero after them.
    method Put(s: string) returns (at: nat)
      requires arena.Length == CSS_VAR_ARENA && used + |s| + 1 <= CSS_VAR_ARENA
      modifies `used, arena
      ensures at == old(used) && used == at + |s| + 1
      ensures arena[..at] == old(arena[..used]) && Text(arena[..], at, |s|) == s
    {
      at := used;
      forall i | 0 <= i < |s| {
        arena[at + i] := s[i];
      }
      arena[at + |s|] := '\0';
      used := at + |s| + 1;
      assert arena[..][at..at + |s|] == s;
    }

    // css_var_set
    method Set(name: string, value: string)
      requires Valid()
      modifies this, slots, arena
      ensures Valid() && View() == SetStep(old(View()), name, value)
      ensures arena[..old(used)] == old(arena[..used])
    {
      var v := Trimmed(value);
      hide Trimmed;
      if |name| <= 0 || |name| > 120 || |v| > 400 {
        return;
      }
      if used + |name| + |v| + 2 > CSS_VAR_ARENA {
        return;
      }
      var i, p := FindSlot(name);
      ghost var t, k := Tab(), Lowered(name);
      hide Home, At, Count, Distance, Read, Lowered, Sound, Missed;
      SlotFound(t, k, i, slots[i], arena[..]);
      if slots[i].Free? {
        EmptyMeansAbsent(t, vars, k, p);
        if n >= CSS_VAR_LOAD {
          return;
        }
        Define(i, name, v, p);
      } else {
        Redefine(i, name, v, p);
      }
    }

    // A first definition goes into the empty slot.
    method Define(i: nat, name: string, v: string, ghost p: nat)
      requires Valid() && p < CSS_VAR_SLOTS && i == At(Lowered(name), p)
      requires Missed(Tab(), Lowered(name), p) && Tab()[i].None?
      requires Lowered(name) !in vars && n < CSS_VAR_LOAD && used + |name| + |v| + 2 <= CSS_VAR_ARENA
      modifies this, slots, arena
      ensures Valid() && View() == Vars(old(vars)[Lowered(name) := v], old(used) + |name| + |v| + 2)
      ensures arena[..old(used)] == old(arena[..used])
    {
      hide Home, At, Count, Distance, Lowered, Text, Missed, Sound, HasKey;
      ghost var t, k, was, a, u := Tab(), Lowered(name), slots[..], arena[..], used;
      StoreKeepsSound(t, vars, k, v, p);
      var pn := Put(name);
      ghost var b := arena[..];
      var pv := Put(v);
      TextSame(b, arena[..], pn, |name|, pv);
      assert arena[..u] == arena[..pv][..u] == b[..u] == a[..u];
      slots[i] := Used(pn, |name|, pv, |v|);
      assert slots[..] == was[i := slots[i]];
      TableStored(was, slots[i], i, a, arena[..], u);
      n := n + 1;
      vars := vars[k := v];
    }

    // A later definition replaces the value.
    method Redefine(i: nat, name: string, v: string, ghost p: nat)
      requires Valid() && p < CSS_VAR_SLOTS && i == At(Lowered(name), p)
      requires Missed(Tab(), Lowered(name), p) && HasKey(Tab(), i, Lowered(name))
      requires Lowered(name) in vars && used + |v| + 1 <= CSS_VAR_ARENA
      modifies this, slots, arena
      ensures Valid() && View() == Vars(old(vars)[Lowered(name) := v], old(used) + |v| + 1)
      ensures arena[..old(used)] == old(arena[..used])
    {
      hide Home, At, Count, Distance, Lowered, Text, Missed, Sound, HasKey, Read, IsVar;
      ghost var t, k, was, a, u := Tab(), Lowered(name), slots[..], arena[..], used;
      StoreKeepsSound(t, vars, k, v, p);
      SlotFound(t, k, i, slots[i], a);
      VarIsUsed(slots[i], a, k);
      var pv := Put(v);
      Revalued(slots[i], a, arena[..], k, pv, v, u);
      slots[i] := slots[i].(val := pv, vlen := |v|);
      assert slots[..] == was[i := slots[i]];
      TableStored(was, slots[i], i, a, arena[..], u);
      vars := vars[k := v];
    }
  }

  lemma VarIsUsed(s: Slot, arena: seq<char>, k: string)
    requires IsVar(s, arena, k)
    ensures s.Used?
  {
  }

  // A slot given a new value keeps its key.
  lemma Revalued(s: Slot, a: seq<char>, b: seq<char>, k: string, pv: nat, v: string, used: nat)
    requires s.Used? && Within(s, used) && used <= |a| == |b| && a[..used] == b[..used]
    requires IsVar(s, a, k) && Text(b, pv, |v|) == v
    ensures Read(s.(val := pv, vlen := |v|), b) == Some((k, v))
  {
    TextSame(a, b, s.name, s.nlen, used);
    hide Text, Lowered;
  }

  // One slot rewritten, the arena grown: the table changes in that one place.
  lemma TableStored(slots: seq<Slot>, s: Slot, i: nat, a: seq<char>, b: seq<char>, used: nat)
    requires i < |slots| && used <= |a| == |b| && a[..used] == b[..used]
    requires forall j :: 0 <= j < |slots| ==> Within(slots[j], used)
    ensures TableOf(slots[i := s], b) == TableOf(slots, a)[i := Read(s, b)]
  {
    hide Read, Within;
    var x, y := TableOf(slots[i := s], b), TableOf(slots, a)[i := Read(s, b)];
    forall j | 0 <= j < |slots|
      ensures x[j] == y[j]
    {
      ReadSame(slots[j], a, b, used);
    }
  }
}
