/**
 The undo history of the text editor (userland/edit.c), as functions on values.

 An operation records what happened.  Undo runs the newest one backwards and moves it to the
 redo stack, redo runs it forwards and moves it back.  A new edit empties the redo stack, and
 may be merged into the newest operation instead of becoming one of its own.
 */
module EditHistory {
  const EDIT_MAX := 65536
  const UNDO_MAX := 128
  const OP_TEXT_MAX := 64
  const CLIP_MAX := 8192

  type Text = seq<char>

  datatype Kind = Insert | Delete

  datatype Op = Op(kind: Kind, pos: nat, data: Text, open: bool)

  datatype State = State(text: Text, undo: seq<Op>, redo: seq<Op>)

  datatype Command =
    | DoInsert(pos: nat, data: Text, coalesce: bool)
    | DoDelete(pos: nat, n: int, coalesce: bool)
    | CloseOp
    | Undo
    | Redo

  // ----- the buffer -----

  // How many of n bytes go into a buffer that already holds len of them.
  function Accepted(len: nat, n: nat): (k: int) {
    if len + n > EDIT_MAX - 1 then EDIT_MAX - 1 - len else n
  }

  // A position past the end is asked for only when the buffer is full: see Legal.
  function RawInsert(t: Text, pos: nat, s: Text): (r: Text) {
    var n := Accepted(|t|, |s|);
    if n <= 0 || pos > |t| then t else t[..pos] + s[..n] + t[pos..]
  }

  function RawDelete(t: Text, pos: nat, n: int): (r: Text) {
    var m := if pos + n > |t| then |t| - pos else n;
    if m <= 0 then t else t[..pos] + t[pos + m..]
  }

  // ----- the stacks -----

  function Clip(s: Text): (r: Text) {
    if |s| > OP_TEXT_MAX then s[..OP_TEXT_MAX] else s
  }

  function Push(stack: seq<Op>, o: Op): (r: seq<Op>) {
    (if |stack| == UNDO_MAX then stack[1..] else stack) + [o.(data := Clip(o.data))]
  }

  // The operation that last becomes when it absorbs the edit, if it does.
  predicate Merges(last: Op, kind: Kind, pos: nat, data: Text) {
    && last.open && last.kind == kind && |last.data| + |data| <= OP_TEXT_MAX
    && (if kind == Insert then last.pos + |last.data| == pos else pos + |data| == last.pos)
  }

  function Merged(last: Op, pos: nat, data: Text): (r: Op) {
    if last.kind == Insert
    then last.(data := last.data + data)
    else last.(pos := pos, data := data + last.data)
  }

  function Record(undo: seq<Op>, kind: Kind, pos: nat, data: Text, coalesce: bool): (r: seq<Op>) {
    if coalesce && |undo| > 0 && Merges(undo[|undo| - 1], kind, pos, data)
    then undo[|undo| - 1 := Merged(undo[|undo| - 1], pos, data)]
    else Push(undo, Op(kind, pos, data, coalesce))
  }

  // ----- running an operation either way -----

  predicate InRange(t: Text, o: Op, inserts: Kind) {
    o.kind == inserts ==> o.pos <= |t|
  }

  function Backward(t: Text, o: Op): (r: Text) {
    if o.kind == Insert then RawDelete(t, o.pos, |o.data|) else RawInsert(t, o.pos, o.data)
  }

  function Forward(t: Text, o: Op): (r: Text) {
    if o.kind == Insert then RawInsert(t, o.pos, o.data) else RawDelete(t, o.pos, |o.data|)
  }

  // Positions inside the text, unless the buffer takes nothing.  Nothing in the code tests this; what
  // keeps it true is said by HistoryIsSound, and what does not by UndoPastTheEnd.
  predicate Legal(s: State, c: Command) {
    match c
    case DoInsert(pos, data, _) => pos <= |s.text| || Accepted(|s.text|, |data|) <= 0
    case DoDelete(pos, n, _) => pos + n <= |s.text|
    case CloseOp => true
    case Undo => s.undo == [] || InRange(s.text, s.undo[|s.undo| - 1], Delete)
    case Redo => s.redo == [] || InRange(s.text, s.redo[|s.redo| - 1], Insert)
  }

  function UndoStep(s: State): (r: State) {
    if s.undo == [] then s else
      var o := s.undo[|s.undo| - 1];
      State(Backward(s.text, o), s.undo[..|s.undo| - 1], Push(s.redo, o.(open := false)))
  }

  function RedoStep(s: State): (r: State) {
    if s.redo == [] then s else
      var o := s.redo[|s.redo| - 1];
      State(Forward(s.text, o), Push(s.undo, o.(open := false)), s.redo[..|s.redo| - 1])
  }

  function Step(s: State, c: Command): (r: State)
    requires Legal(s, c)
  {
    match c
    case DoInsert(pos, data, coalesce) =>
      State(RawInsert(s.text, pos, data), Record(s.undo, Insert, pos, data, coalesce), [])
    case DoDelete(pos, n, coalesce) =>
      if n <= 0 then s else
        State(RawDelete(s.text, pos, n), Record(s.undo, Delete, pos, s.text[pos..pos + n], coalesce), [])
    case CloseOp =>
      if s.undo == [] then s else
        var k := |s.undo| - 1;
        s.(undo := s.undo[k := s.undo[k].(open := false)])
    case Undo => UndoStep(s)
    case Redo => RedoStep(s)
  }

  // ----- histories that can be trusted -----

  predicate Undoable(t: Text, o: Op) {
    && |o.data| <= OP_TEXT_MAX
    && (if o.kind == Insert
        then o.pos + |o.data| <= |t| && t[o.pos..o.pos + |o.data|] == o.data
        else o.pos <= |t| && |t| + |o.data| <= EDIT_MAX - 1)
  }

  predicate Redoable(t: Text, o: Op) {
    && |o.data| <= OP_TEXT_MAX
    && (if o.kind == Insert
        then o.pos <= |t| && |t| + |o.data| <= EDIT_MAX - 1
        else o.pos + |o.data| <= |t| && t[o.pos..o.pos + |o.data|] == o.data)
  }

  // Every text the undo stack leads back to, newest first, is in seen, and every operation on
  // the way really is undoable where it stands.
  ghost predicate PastIn(t: Text, undo: seq<Op>, seen: set<Text>)
    decreases |undo|
  {
    && t in seen
    && (undo == [] ||
        var o := undo[|undo| - 1];
        Undoable(t, o) && PastIn(Backward(t, o), undo[..|undo| - 1], seen))
  }

  ghost predicate FutureIn(t: Text, redo: seq<Op>, seen: set<Text>)
    decreases |redo|
  {
    && t in seen
    && (redo == [] ||
        var o := redo[|redo| - 1];
        Redoable(t, o) && FutureIn(Forward(t, o), redo[..|redo| - 1], seen))
  }

  ghost predicate Sound(s: State, seen: set<Text>) {
    && |s.text| <= EDIT_MAX - 1
    && |s.undo| + |s.redo| <= UNDO_MAX
    && PastIn(s.text, s.undo, seen)
    && FutureIn(s.text, s.redo, seen)
  }

  // An edit that one operation can hold and the buffer has room for.
  predicate Fits(s: State, c: Command) {
    match c
    case DoInsert(pos, data, _) =>
      pos <= |s.text| && |data| <= OP_TEXT_MAX && |s.text| + |data| <= EDIT_MAX - 1
    case DoDelete(pos, n, _) => pos + n <= |s.text| && n <= OP_TEXT_MAX
    case _ => true
  }

  // ----- one operation -----

  lemma SpliceBack(t: Text, pos: nat, data: Text)
    requires pos <= |t|
    ensures var r := t[..pos] + data + t[pos..];
            && r[pos..pos + |data|] == data
            && r[..pos] + r[pos + |data|..] == t
  {
    var r := t[..pos] + data + t[pos..];
    assert r[pos..pos + |data|] == data;
    assert r[..pos] == t[..pos];
    assert r[pos + |data|..] == t[pos..];
    assert t[..pos] + t[pos..] == t;
  }

  lemma CutBack(t: Text, pos: nat, n: nat)
    requires pos + n <= |t|
    ensures var r := t[..pos] + t[pos + n..];
            r[..pos] + t[pos..pos + n] + r[pos..] == t
  {
    var r := t[..pos] + t[pos + n..];
    assert r[..pos] == t[..pos];
    assert r[pos..] == t[pos + n..];
    assert t == t[..pos] + t[pos..pos + n] + t[pos + n..];
  }

  // Running an operation backwards and then forwards changes nothing, and it can be done.
  lemma BackwardForward(t: Text, o: Op)
    requires Undoable(t, o) && |t| <= EDIT_MAX - 1
    ensures Redoable(Backward(t, o), o) && Forward(Backward(t, o), o) == t
    ensures |Backward(t, o)| <= EDIT_MAX - 1
  {
    if o.kind == Insert {
      CutBack(t, o.pos, |o.data|);
      assert o.data == [] ==> t[..o.pos] + t[o.pos..] == t;
      assert o.data[..|o.data|] == o.data;
    } else {
      SpliceBack(t, o.pos, o.data);
      assert o.data[..|o.data|] == o.data;
    }
  }

  lemma ForwardBackward(t: Text, o: Op)
    requires Redoable(t, o) && |t| <= EDIT_MAX - 1
    ensures Undoable(Forward(t, o), o) && Backward(Forward(t, o), o) == t
    ensures |Forward(t, o)| <= EDIT_MAX - 1
  {
    var flipped := o.(kind := if o.kind == Insert then Delete else Insert);
    BackwardForward(t, flipped);
  }

  lemma MergedInsert(t: Text, last: Op, pos: nat, data: Text)
    requires Undoable(t, last) && last.kind == Insert && last.pos + |last.data| == pos
    requires |last.data| + |data| <= OP_TEXT_MAX
    ensures var m := Merged(last, pos, data);
            var now := t[..pos] + data + t[pos..];
            Undoable(now, m) && Backward(now, m) == Backward(t, last)
  {
    var m := Merged(last, pos, data);
    var now := t[..pos] + data + t[pos..];
    assert now[m.pos..m.pos + |m.data|] == m.data by {
      assert now[m.pos..pos] == t[m.pos..pos];
      assert now[pos..pos + |data|] == data;
      assert now[m.pos..m.pos + |m.data|] == now[m.pos..pos] + now[pos..pos + |data|];
    }
    assert now[..m.pos] == t[..m.pos];
    assert now[m.pos + |m.data|..] == t[pos..];
    assert t[..last.pos] + t[last.pos..] == t;
    if data == [] {
      assert now == t;
    }
  }

  lemma MergedDelete(t: Text, last: Op, pos: nat, data: Text)
    requires Undoable(t, last) && last.kind == Delete && pos + |data| == last.pos
    requires |last.data| + |data| <= OP_TEXT_MAX && t[pos..last.pos] == data
    ensures var m := Merged(last, pos, data);
            var now := t[..pos] + t[last.pos..];
            Undoable(now, m) && Backward(now, m) == Backward(t, last)
  {
    var m := Merged(last, pos, data);
    var now := t[..pos] + t[last.pos..];
    assert now[..pos] == t[..pos];
    assert now[pos..] == t[last.pos..];
    assert t[..last.pos] == t[..pos] + data;
    assert m.data[..|m.data|] == m.data;
    assert last.data[..|last.data|] == last.data;
    if last.data == [] {
      assert t[..last.pos] + t[last.pos..] == t;
    }
  }

  // A merged operation means what the two edits meant one after the other.
  lemma MergePreservesMeaning(t: Text, last: Op, kind: Kind, pos: nat, data: Text)
    requires Undoable(t, last) && |t| <= EDIT_MAX - 1
    requires Merges(last, kind, pos, data)
    requires Redoable(t, Op(kind, pos, data, true))
    ensures var m := Merged(last, pos, data);
            var now := Forward(t, Op(kind, pos, data, true));
            Undoable(now, m) && Backward(now, m) == Backward(t, last)
  {
    var now := Forward(t, Op(kind, pos, data, true));
    assert data[..|data|] == data;
    assert data == [] ==> t[..pos] + t[pos..] == t;
    if kind == Insert {
      assert now == t[..pos] + data + t[pos..];
      MergedInsert(t, last, pos, data);
    } else {
      assert now == t[..pos] + t[last.pos..];
      MergedDelete(t, last, pos, data);
    }
  }

  // ----- every step keeps the history sound -----

  lemma {:induction false} PastGrows(t: Text, undo: seq<Op>, seen: set<Text>, more: set<Text>)
    requires PastIn(t, undo, seen) && seen <= more
    ensures PastIn(t, undo, more)
    decreases |undo|
  {
    if undo != [] {
      PastGrows(Backward(t, undo[|undo| - 1]), undo[..|undo| - 1], seen, more);
    }
  }

  lemma {:induction false} FutureGrows(t: Text, redo: seq<Op>, seen: set<Text>, more: set<Text>)
    requires FutureIn(t, redo, seen) && seen <= more
    ensures FutureIn(t, redo, more)
    decreases |redo|
  {
    if redo != [] {
      FutureGrows(Forward(t, redo[|redo| - 1]), redo[..|redo| - 1], seen, more);
    }
  }

  // Dropping the oldest operation forgets one text and breaks nothing.
  lemma {:induction false} PastWithoutOldest(t: Text, undo: seq<Op>, seen: set<Text>)
    requires PastIn(t, undo, seen) && undo != []
    ensures PastIn(t, undo[1..], seen)
    decreases |undo|
  {
    var k := |undo| - 1;
    if k > 0 {
      PastWithoutOldest(Backward(t, undo[k]), undo[..k], seen);
      assert undo[1..][..k - 1] == undo[..k][1..];
      assert undo[1..][k - 1] == undo[k];
    }
  }

  // What has been on the screen, and one text more.
  ghost function Plus(seen: set<Text>, t: Text): (r: set<Text>) {
    seen + {t}
  }

  lemma PushKeepsPast(t: Text, undo: seq<Op>, o: Op, seen: set<Text>)
    requires |t| <= EDIT_MAX - 1 && |undo| <= UNDO_MAX
    requires Redoable(t, o) && PastIn(t, undo, seen)
    ensures |Push(undo, o)| <= UNDO_MAX
    ensures PastIn(Forward(t, o), Push(undo, o), Plus(seen, Forward(t, o)))
  {
    var kept := if |undo| == UNDO_MAX then undo[1..] else undo;
    if |undo| == UNDO_MAX {
      PastWithoutOldest(t, undo, seen);
    }
    ForwardBackward(t, o);
    PastGrows(t, kept, seen, Plus(seen, Forward(t, o)));
    assert Push(undo, o) == kept + [o];
    assert (kept + [o])[..|kept|] == kept;
  }

  lemma RecordKeepsPast(s: State, kind: Kind, pos: nat, data: Text, coalesce: bool, seen: set<Text>)
    requires Sound(s, seen)
    requires Redoable(s.text, Op(kind, pos, data, coalesce))
    ensures var now := Forward(s.text, Op(kind, pos, data, coalesce));
            var undo := Record(s.undo, kind, pos, data, coalesce);
            |undo| <= UNDO_MAX && PastIn(now, undo, Plus(seen, now))
  {
    hide RawInsert, RawDelete, Merged, Push;
    var o := Op(kind, pos, data, coalesce);
    var now := Forward(s.text, o);
    var k := |s.undo| - 1;
    if coalesce && k >= 0 && Merges(s.undo[k], kind, pos, data) {
      MergePreservesMeaning(s.text, s.undo[k], kind, pos, data);
      var m := Merged(s.undo[k], pos, data);
      assert s.undo[k := m][..k] == s.undo[..k];
      PastGrows(Backward(s.text, s.undo[k]), s.undo[..k], seen, Plus(seen, now));
    } else {
      PushKeepsPast(s.text, s.undo, o, seen);
    }
  }

  lemma UndoKeepsSound(s: State, seen: set<Text>)
    requires Sound(s, seen) && s.undo != []
    ensures Legal(s, Undo) && Sound(UndoStep(s), seen)
    ensures var o := s.undo[|s.undo| - 1];
            && UndoStep(s).redo == s.redo + [o.(open := false)]
            && UndoStep(s).undo == s.undo[..|s.undo| - 1]
            && UndoStep(s).text == Backward(s.text, o)
  {
    hide RawInsert, RawDelete;
    var o := s.undo[|s.undo| - 1];
    var closed := o.(open := false);
    var r := UndoStep(s);
    BackwardForward(s.text, o);
    assert r.redo == s.redo + [closed];
    assert r.redo[..|s.redo|] == s.redo;
    assert Forward(r.text, closed) == Forward(r.text, o);
    assert r.text in seen by {
      assert PastIn(Backward(s.text, o), s.undo[..|s.undo| - 1], seen);
    }
  }

  lemma RedoKeepsSound(s: State, seen: set<Text>)
    requires Sound(s, seen) && s.redo != []
    ensures Legal(s, Redo) && Sound(RedoStep(s), seen)
    ensures var o := s.redo[|s.redo| - 1];
            && RedoStep(s).undo == s.undo + [o.(open := false)]
            && RedoStep(s).redo == s.redo[..|s.redo| - 1]
            && RedoStep(s).text == Forward(s.text, o)
  {
    hide RawInsert, RawDelete;
    var o := s.redo[|s.redo| - 1];
    var closed := o.(open := false);
    var r := RedoStep(s);
    ForwardBackward(s.text, o);
    assert r.undo == s.undo + [closed];
    assert r.undo[..|s.undo|] == s.undo;
    assert Backward(r.text, closed) == Backward(r.text, o);
    assert r.text in seen by {
      assert FutureIn(Forward(s.text, o), s.redo[..|s.redo| - 1], seen);
    }
  }

  lemma SoundIsLegal(s: State, seen: set<Text>, c: Command)
    requires Sound(s, seen) && Fits(s, c)
    ensures Legal(s, c)
  {
  }

  lemma InsertKeepsSound(s: State, seen: set<Text>, pos: nat, data: Text, coalesce: bool)
    requires Sound(s, seen) && Fits(s, DoInsert(pos, data, coalesce))
    ensures var r := Step(s, DoInsert(pos, data, coalesce));
            Sound(r, Plus(seen, r.text))
  {
    var o := Op(Insert, pos, data, coalesce);
    RecordKeepsPast(s, Insert, pos, data, coalesce, seen);
    ForwardBackward(s.text, o);
    hide Record, PastIn, Backward, RawInsert;
    assert Forward(s.text, o) == RawInsert(s.text, pos, data);
  }

  lemma DeleteKeepsSound(s: State, seen: set<Text>, pos: nat, n: nat, coalesce: bool)
    requires Sound(s, seen) && Fits(s, DoDelete(pos, n, coalesce)) && n > 0
    ensures var r := Step(s, DoDelete(pos, n, coalesce));
            Sound(r, Plus(seen, r.text))
  {
    var cut := s.text[pos..pos + n];
    var o := Op(Delete, pos, cut, coalesce);
    RecordKeepsPast(s, Delete, pos, cut, coalesce, seen);
    ForwardBackward(s.text, o);
    hide Record, PastIn, Backward, RawDelete;
    assert Forward(s.text, o) == RawDelete(s.text, pos, n);
  }

  lemma CloseKeepsSound(s: State, seen: set<Text>)
    requires Sound(s, seen)
    ensures Sound(Step(s, CloseOp), seen)
  {
    if s.undo != [] {
      var k := |s.undo| - 1;
      var closed := s.undo[k].(open := false);
      hide RawInsert, RawDelete;
      assert s.undo[k := closed][..k] == s.undo[..k];
      assert Backward(s.text, closed) == Backward(s.text, s.undo[k]);
    }
  }

  lemma StepKeepsSound(s: State, seen: set<Text>, c: Command)
    requires Sound(s, seen) && Fits(s, c)
    ensures Legal(s, c) && Sound(Step(s, c), Plus(seen, Step(s, c).text))
  {
    hide Sound, PastIn, UndoStep, RedoStep, RawInsert, RawDelete, Record, Legal, Fits;
    SoundIsLegal(s, seen, c);
    SoundSeesText(s, seen);
    match c
    case DoInsert(pos, data, coalesce) =>
      InsertKeepsSound(s, seen, pos, data, coalesce);
    case DoDelete(pos, n, coalesce) =>
      if n > 0 {
        DeleteKeepsSound(s, seen, pos, n, coalesce);
      } else {
        assert Plus(seen, s.text) == seen;
      }
    case CloseOp =>
      CloseKeepsSound(s, seen);
      assert Plus(seen, s.text) == seen;
    case Undo =>
      UndoOrStayIsSound(s, seen);
      assert Plus(seen, UndoStep(s).text) == seen;
    case Redo =>
      RedoOrStayIsSound(s, seen);
      assert Plus(seen, RedoStep(s).text) == seen;
  }

  lemma UndoOrStayIsSound(s: State, seen: set<Text>)
    requires Sound(s, seen)
    ensures Sound(UndoStep(s), seen) && UndoStep(s).text in seen
  {
    if s.undo != [] {
      UndoKeepsSound(s, seen);
    }
    assert PastIn(UndoStep(s).text, UndoStep(s).undo, seen);
  }

  lemma RedoOrStayIsSound(s: State, seen: set<Text>)
    requires Sound(s, seen)
    ensures Sound(RedoStep(s), seen) && RedoStep(s).text in seen
  {
    if s.redo != [] {
      RedoKeepsSound(s, seen);
    }
    assert PastIn(RedoStep(s).text, RedoStep(s).undo, seen);
  }

  // ----- whole runs -----

  // Each command is legal where it is run.
  ghost predicate LegalRun(s: State, cs: seq<Command>)
    decreases |cs|
  {
    cs == [] || (Legal(s, cs[0]) && LegalRun(Step(s, cs[0]), cs[1..]))
  }

  // Every edit among them fits.
  ghost predicate FittingRun(s: State, cs: seq<Command>)
    decreases |cs|
  {
    cs == [] || (Fits(s, cs[0]) && (Legal(s, cs[0]) ==> FittingRun(Step(s, cs[0]), cs[1..])))
  }

  ghost function Run(s: State, cs: seq<Command>): (r: State)
    requires LegalRun(s, cs)
    decreases |cs|
  {
    if cs == [] then s else Run(Step(s, cs[0]), cs[1..])
  }

  // Every text that was on the screen at some point of the run.
  ghost function Visited(s: State, cs: seq<Command>): (r: set<Text>)
    requires LegalRun(s, cs)
    decreases |cs|
  {
    {s.text} + (if cs == [] then {} else Visited(Step(s, cs[0]), cs[1..]))
  }

  lemma RunCons(s: State, c: Command, cs: seq<Command>)
    requires Legal(s, c) && LegalRun(Step(s, c), cs)
    ensures LegalRun(s, [c] + cs) && Run(s, [c] + cs) == Run(Step(s, c), cs)
    ensures FittingRun(s, [c] + cs) <==> Fits(s, c) && FittingRun(Step(s, c), cs)
  {
    hide Step, Legal, Fits;
    assert ([c] + cs)[1..] == cs;
  }

  // Over every run whose positions stay inside the text, long edits and full buffers included: the two stacks together hold no more
  // than one of them could, so undo and redo never push an operation out.
  lemma {:induction false} StacksFit(s: State, cs: seq<Command>)
    requires LegalRun(s, cs) && |s.undo| + |s.redo| <= UNDO_MAX
    ensures |Run(s, cs).undo| + |Run(s, cs).redo| <= UNDO_MAX
    decreases |cs|
  {
    if cs != [] {
      hide RawInsert, RawDelete, Clip, Merged;
      StacksFit(Step(s, cs[0]), cs[1..]);
    }
  }

  // A run of fitting edits, undos and redos never leaves the text, and keeps the history sound.
  lemma {:induction false} RunKeepsSound(s: State, cs: seq<Command>, seen: set<Text>)
    requires FittingRun(s, cs) && Sound(s, seen)
    ensures LegalRun(s, cs) && Sound(Run(s, cs), seen + Visited(s, cs))
    decreases |cs|
  {
    assert s.text in seen;
    hide Sound, Step, Legal, Fits;
    if cs == [] {
      assert seen + Visited(s, cs) == seen;
    } else {
      StepKeepsSound(s, seen, cs[0]);
      var next := Step(s, cs[0]);
      RunKeepsSound(next, cs[1..], Plus(seen, next.text));
      assert next.text in Visited(next, cs[1..]);
      assert Plus(seen, next.text) + Visited(next, cs[1..]) == seen + Visited(s, cs);
    }
  }

  function Loaded(t: Text): (s: State) {
    State(t, [], [])
  }

  // From a freshly loaded file, whatever is typed, deleted, undone and redone: the history is
  // sound, and every text it can still lead to was on the screen before.
  lemma HistoryIsSound(t: Text, cs: seq<Command>)
    requires |t| <= EDIT_MAX - 1 && FittingRun(Loaded(t), cs)
    ensures LegalRun(Loaded(t), cs)
    ensures Sound(Run(Loaded(t), cs), Visited(Loaded(t), cs))
  {
    RunKeepsSound(Loaded(t), cs, {t});
    assert {t} + Visited(Loaded(t), cs) == Visited(Loaded(t), cs);
  }

  // ----- k undos, then k redos -----

  function Undos(s: State, k: nat): (r: State)
    decreases k
  {
    if k == 0 then s else Undos(UndoStep(s), k - 1)
  }

  function Redos(s: State, k: nat): (r: State)
    decreases k
  {
    if k == 0 then s else Redos(RedoStep(s), k - 1)
  }

  function Closed(ops: seq<Op>, from: nat): (r: seq<Op>)
    requires from <= |ops|
    ensures |r| == |ops|
    ensures forall i :: 0 <= i < |ops| ==> r[i] == if i < from then ops[i] else ops[i].(open := false)
  {
    seq(|ops|, i requires 0 <= i < |ops| => if i < from then ops[i] else ops[i].(open := false))
  }

  lemma {:induction false} RedosSnoc(s: State, k: nat)
    ensures Redos(s, k + 1) == RedoStep(Redos(s, k))
    decreases k
  {
    hide RedoStep;
    if k > 0 {
      RedosSnoc(RedoStep(s), k - 1);
    } else {
      assert Redos(RedoStep(s), 0) == RedoStep(s);
    }
  }

  // One undo, then one redo.
  lemma UndoThenRedo(s: State, seen: set<Text>)
    requires Sound(s, seen) && s.undo != []
    ensures var n := |s.undo| - 1;
            forall u: seq<Op> :: |u| == n ==>
              RedoStep(UndoStep(s).(undo := u)) == State(s.text, u + [s.undo[n].(open := false)], s.redo)
  {
    var n := |s.undo| - 1;
    var o := s.undo[n];
    UndoKeepsSound(s, seen);
    BackwardForward(s.text, o);
    var one := UndoStep(s);
    assert one.redo[..|s.redo|] == s.redo;
    assert Forward(one.text, o.(open := false)) == Forward(one.text, o);
  }

  // Undoing k times and redoing k times restores the text and both stacks; the operations that
  // travelled no longer accept more typing.
  lemma {:induction false} UndosThenRedos(s: State, seen: set<Text>, k: nat)
    requires Sound(s, seen) && k <= |s.undo|
    ensures Redos(Undos(s, k), k) == State(s.text, Closed(s.undo, |s.undo| - k), s.redo)
    decreases k
  {
    hide UndoStep, RedoStep, Sound;
    if k == 0 {
      assert Closed(s.undo, |s.undo|) == s.undo;
    } else {
      var n := |s.undo|;
      var one := UndoStep(s);
      UndoKeepsSound(s, seen);
      UndosThenRedos(one, seen, k - 1);
      RedosSnoc(Undos(one, k - 1), k - 1);
      var u := Closed(one.undo, n - k);
      assert Redos(Undos(s, k), k) == RedoStep(one.(undo := u));
      UndoThenRedo(s, seen);
      assert Closed(s.undo, n - k) == u + [s.undo[n - 1].(open := false)];
    }
  }

  lemma SoundSeesText(s: State, seen: set<Text>)
    requires Sound(s, seen)
    ensures s.text in seen
  {
  }

  // The texts undo leads back to are texts the user has seen.
  lemma {:induction false} UndoneTextsWereSeen(s: State, seen: set<Text>, k: nat)
    requires Sound(s, seen) && k <= |s.undo|
    ensures Undos(s, k).text in seen && Sound(Undos(s, k), seen)
    decreases k
  {
    hide UndoStep, Sound;
    SoundSeesText(s, seen);
    if k > 0 {
      UndoKeepsSound(s, seen);
      var one := UndoStep(s);
      UndoneTextsWereSeen(one, seen, k - 1);
    }
  }

  // ----- exactly when one edit can be undone -----

  // n bytes put at pos of a text of length len, k of which the buffer takes.
  predicate InsertIsUndone(len: nat, pos: nat, n: nat) {
    var k := Accepted(len, n);
    k <= OP_TEXT_MAX && (k == n || k == OP_TEXT_MAX || pos == len)
  }

  // An insertion of any size, into a buffer with any room: undo restores the text in exactly
  // these cases.
  lemma InsertThenUndo(s: State, pos: nat, data: Text)
    requires |s.text| <= EDIT_MAX - 1 && pos <= |s.text|
    ensures var after := Step(s, DoInsert(pos, data, false));
            UndoStep(after).text == s.text <==> InsertIsUndone(|s.text|, pos, |data|)
  {
    var t := s.text;
    var k := Accepted(|t|, |data|);
    var after := Step(s, DoInsert(pos, data, false));
    var o := after.undo[|after.undo| - 1];
    assert o == Op(Insert, pos, Clip(data), false);
    if k > 0 {
      SpliceBack(t, pos, data[..k]);
      assert after.text == t[..pos] + data[..k] + t[pos..];
    }
    assert |UndoStep(after).text| == |t| <==> InsertIsUndone(|t|, pos, |data|);
  }

  // A deletion of n bytes comes back exactly when one operation holds all of them; of a longer one
  // the first bytes do.
  lemma DeleteThenUndo(s: State, pos: nat, n: nat)
    requires |s.text| <= EDIT_MAX - 1 && 0 < n && pos + n <= |s.text|
    ensures var after := Step(s, DoDelete(pos, n, false));
            Legal(after, Undo) && (UndoStep(after).text == s.text <==> n <= OP_TEXT_MAX)
            && UndoStep(after).text == s.text[..pos + (if n <= OP_TEXT_MAX then n else OP_TEXT_MAX)] + s.text[pos + n..]
  {
    var t := s.text;
    var after := Step(s, DoDelete(pos, n, false));
    var o := Op(Delete, pos, Clip(t[pos..pos + n]), false);
    var k := |o.data|;
    assert after.text == t[..pos] + t[pos + n..] && after.undo[|after.undo| - 1] == o;
    hide Step;
    PutBack(t, pos, n, k);
    assert o.data[..k] == o.data == t[pos..pos + k];
  }

  // A cut of n bytes with the first k of them put back.
  lemma PutBack(t: Text, pos: nat, n: nat, k: nat)
    requires k <= n && pos + n <= |t|
    ensures var r := t[..pos] + t[pos + n..];
            && r[..pos] + t[pos..pos + k] + r[pos..] == t[..pos + k] + t[pos + n..]
            && (t[..pos + k] + t[pos + n..] == t <==> k == n)
  {
    var r := t[..pos] + t[pos + n..];
    assert r[..pos] == t[..pos] && r[pos..] == t[pos + n..];
    assert t[..pos] + t[pos..pos + k] == t[..pos + k];
    assert k == n ==> t[..pos + n] + t[pos + n..] == t;
  }

  // Cutting a line of 65 bytes and undoing the cut does not bring the line back.
  lemma LongCutIsNotUndone()
    ensures var line: Text := seq(65, i => 'x');
            var after := Step(Loaded(line), DoDelete(0, 65, false));
            Legal(after, Undo) && UndoStep(after).text != line
  {
    hide Step, UndoStep;
    DeleteThenUndo(Loaded(seq(65, i => 'x')), 0, 65);
  }

  // ----- a run of typing, or of backspaces, is one undo -----

  // The newest operation, if any, takes nothing more.
  predicate Fresh(undo: seq<Op>) {
    undo == [] || !undo[|undo| - 1].open
  }

  function Joined(pieces: seq<Text>): (t: Text) {
    if pieces == [] then [] else pieces[0] + Joined(pieces[1..])
  }

  // Each piece goes in where the one before it ended.
  function Typing(pos: nat, pieces: seq<Text>): (cs: seq<Command>)
    decreases |pieces|
  {
    if pieces == [] then [] else [DoInsert(pos, pieces[0], true)] + Typing(pos + |pieces[0]|, pieces[1..])
  }

  function Inserted(t: Text, pos: nat, data: Text): (r: Text) {
    if pos <= |t| then t[..pos] + data + t[pos..] else t
  }

  lemma InsertedTwice(t: Text, pos: nat, a: Text, b: Text)
    requires pos <= |t|
    ensures Inserted(Inserted(t, pos, a), pos + |a|, b) == Inserted(t, pos, a + b)
  {
    var r := t[..pos] + a + t[pos..];
    assert r[..pos + |a|] == t[..pos] + a && r[pos + |a|..] == t[pos..];
  }

  // One piece more, into an operation that is still open behind it.
  lemma TypesOn(s: State, pos: nat, data: Text)
    requires s.undo != [] && pos <= |s.text| && |s.text| + |data| <= EDIT_MAX - 1
    requires var o := s.undo[|s.undo| - 1];
             o.open && o.kind == Insert && o.pos + |o.data| == pos && |o.data| + |data| <= OP_TEXT_MAX
    ensures var k := |s.undo| - 1;
            Step(s, DoInsert(pos, data, true)) ==
            State(Inserted(s.text, pos, data), s.undo[k := s.undo[k].(data := s.undo[k].data + data)], [])
  {
    assert data[..|data|] == data;
    assert data == [] ==> Inserted(s.text, pos, data) == s.text;
  }

  lemma {:induction false} TypingGoesOn(s: State, pos: nat, pieces: seq<Text>)
    requires s.undo != [] && pos <= |s.text| && |s.text| + |Joined(pieces)| <= EDIT_MAX - 1 && s.redo == []
    requires var o := s.undo[|s.undo| - 1];
             o.open && o.kind == Insert && o.pos + |o.data| == pos && |o.data| + |Joined(pieces)| <= OP_TEXT_MAX
    ensures LegalRun(s, Typing(pos, pieces))
    ensures var k := |s.undo| - 1;
            Run(s, Typing(pos, pieces)) ==
            State(Inserted(s.text, pos, Joined(pieces)), s.undo[k := s.undo[k].(data := s.undo[k].data + Joined(pieces))], [])
    decreases |pieces|
  {
    hide Step;
    var k := |s.undo| - 1;
    if pieces == [] {
      assert s.text[..pos] + [] + s.text[pos..] == s.text;
      assert s.undo[k].data + [] == s.undo[k].data;
    } else {
      var data, rest := pieces[0], pieces[1..];
      TypesOn(s, pos, data);
      var next := Step(s, DoInsert(pos, data, true));
      TypingGoesOn(next, pos + |data|, rest);
      InsertedTwice(s.text, pos, data, Joined(rest));
      assert s.undo[k].data + data + Joined(rest) == s.undo[k].data + (data + Joined(rest));
      RunCons(s, DoInsert(pos, data, true), Typing(pos + |data|, rest));
    }
  }

  // Typing that one operation can hold adds one operation, and one undo takes all of it back.
  lemma TypingIsOneUndo(s: State, pos: nat, pieces: seq<Text>)
    requires pieces != [] && Fresh(s.undo) && pos <= |s.text|
    requires |Joined(pieces)| <= OP_TEXT_MAX && |s.text| + |Joined(pieces)| <= EDIT_MAX - 1
    ensures LegalRun(s, Typing(pos, pieces))
    ensures var r := Run(s, Typing(pos, pieces));
            && r == State(Inserted(s.text, pos, Joined(pieces)), Push(s.undo, Op(Insert, pos, Joined(pieces), true)), [])
            && UndoStep(r).text == s.text
  {
    hide Step, Run, LegalRun, Typing, Joined, UndoStep;
    var data, rest := pieces[0], pieces[1..];
    JoinedFirst(pieces);
    FirstTyped(s, pos, data);
    TypingFirst(pos, pieces);
    var next := Step(s, DoInsert(pos, data, true));
    TypingGoesOn(next, pos + |data|, rest);
    RunCons(s, DoInsert(pos, data, true), Typing(pos + |data|, rest));
    InsertedTwice(s.text, pos, data, Joined(rest));
    PushedThenGrown(s.undo, Op(Insert, pos, data, true), pos, data + Joined(rest));
    UndoesInsert(s, pos, Joined(pieces));
  }

  lemma JoinedFirst(pieces: seq<Text>)
    requires pieces != []
    ensures Joined(pieces) == pieces[0] + Joined(pieces[1..])
  {
  }

  lemma TypingFirst(pos: nat, pieces: seq<Text>)
    requires pieces != []
    ensures Typing(pos, pieces) == [DoInsert(pos, pieces[0], true)] + Typing(pos + |pieces[0]|, pieces[1..])
  {
  }

  lemma FirstTyped(s: State, pos: nat, data: Text)
    requires Fresh(s.undo) && pos <= |s.text| && |data| <= OP_TEXT_MAX && |s.text| + |data| <= EDIT_MAX - 1
    ensures Step(s, DoInsert(pos, data, true)) == State(Inserted(s.text, pos, data), Push(s.undo, Op(Insert, pos, data, true)), [])
  {
    assert data[..|data|] == data;
    assert data == [] ==> Inserted(s.text, pos, data) == s.text;
  }

  // An operation that has grown since it was pushed might have been pushed whole.
  lemma PushedThenGrown(undo: seq<Op>, o: Op, pos: nat, data: Text)
    requires |o.data| <= OP_TEXT_MAX && |data| <= OP_TEXT_MAX
    ensures var p := Push(undo, o);
            p != [] && p[|p| - 1] == o && p[|p| - 1 := o.(pos := pos, data := data)] == Push(undo, o.(pos := pos, data := data))
  {
  }

  lemma UndoesInsert(s: State, pos: nat, data: Text)
    requires pos <= |s.text| && |data| <= OP_TEXT_MAX
    ensures UndoStep(State(Inserted(s.text, pos, data), Push(s.undo, Op(Insert, pos, data, true)), [])).text == s.text
  {
    SpliceBack(s.text, pos, data);
  }

  function Total(sizes: seq<nat>): (n: nat) {
    if sizes == [] then 0 else sizes[0] + Total(sizes[1..])
  }

  // Each takes so many bytes in front of where the one before it stopped.
  function Backspaces(pos: nat, sizes: seq<nat>): (cs: seq<Command>)
    requires Total(sizes) <= pos
    decreases |sizes|
  {
    if sizes == [] then [] else [DoDelete(pos - sizes[0], sizes[0], true)] + Backspaces(pos - sizes[0], sizes[1..])
  }

  function Cut(t: Text, a: nat, b: nat): (r: Text) {
    if a <= b <= |t| then t[..a] + t[b..] else t
  }

  lemma CutTwice(t: Text, a: nat, b: nat, c: nat)
    requires a <= b <= c <= |t|
    ensures |Cut(t, b, c)| == |t| - (c - b) && Cut(Cut(t, b, c), a, b) == Cut(t, a, c)
    ensures Cut(t, b, c)[a..b] + t[b..c] == t[a..c]
  {
    var r := t[..b] + t[c..];
    assert r[..a] == t[..a] && r[b..] == t[c..] && r[a..b] == t[a..b];
    assert t[a..b] + t[b..c] == t[a..c];
  }

  lemma DeletesOn(s: State, pos: nat, n: nat)
    requires s.undo != [] && 0 < n <= pos <= |s.text|
    requires var o := s.undo[|s.undo| - 1];
             o.open && o.kind == Delete && o.pos == pos && |o.data| + n <= OP_TEXT_MAX
    ensures var k, cut := |s.undo| - 1, s.text[pos - n..pos];
            Legal(s, DoDelete(pos - n, n, true)) && Step(s, DoDelete(pos - n, n, true)) ==
            State(Cut(s.text, pos - n, pos), s.undo[k := s.undo[k].(pos := pos - n, data := cut + s.undo[k].data)], [])
  {
  }

  lemma {:induction false} BackspacesGoOn(s: State, pos: nat, sizes: seq<nat>)
    requires s.undo != [] && Total(sizes) <= pos <= |s.text| && s.redo == [] && (forall i :: 0 <= i < |sizes| ==> sizes[i] > 0)
    requires var o := s.undo[|s.undo| - 1];
             o.open && o.kind == Delete && o.pos == pos && |o.data| + Total(sizes) <= OP_TEXT_MAX
    ensures LegalRun(s, Backspaces(pos, sizes))
    ensures var k, a := |s.undo| - 1, pos - Total(sizes);
            Run(s, Backspaces(pos, sizes)) ==
            State(Cut(s.text, a, pos), s.undo[k := s.undo[k].(pos := a, data := s.text[a..pos] + s.undo[k].data)], [])
    decreases |sizes|
  {
    hide Step, Cut, Legal;
    var k := |s.undo| - 1;
    if sizes == [] {
      CutNothing(s.text, pos);
      assert s.text[pos..pos] + s.undo[k].data == s.undo[k].data;
    } else {
      var n, rest := sizes[0], sizes[1..];
      var a := pos - Total(sizes);
      DeletesOn(s, pos, n);
      var next := Step(s, DoDelete(pos - n, n, true));
      CutTwice(s.text, a, pos - n, pos);
      BackspacesGoOn(next, pos - n, rest);
      assert next.text[a..pos - n] + (s.text[pos - n..pos] + s.undo[k].data) == s.text[a..pos] + s.undo[k].data;
      RunCons(s, DoDelete(pos - n, n, true), Backspaces(pos - n, rest));
    }
  }

  lemma CutNothing(t: Text, pos: nat)
    requires pos <= |t|
    ensures Cut(t, pos, pos) == t
  {
  }

  // Likewise backspaces.
  lemma BackspacesAreOneUndo(s: State, pos: nat, sizes: seq<nat>)
    requires sizes != [] && Fresh(s.undo) && Total(sizes) <= pos <= |s.text| <= EDIT_MAX - 1
    requires (forall i :: 0 <= i < |sizes| ==> sizes[i] > 0) && Total(sizes) <= OP_TEXT_MAX
    ensures LegalRun(s, Backspaces(pos, sizes))
    ensures var r, a := Run(s, Backspaces(pos, sizes)), pos - Total(sizes);
            && r == State(Cut(s.text, a, pos), Push(s.undo, Op(Delete, a, s.text[a..pos], true)), [])
            && UndoStep(r).text == s.text
  {
    hide Step, Run, LegalRun, Backspaces, Total, UndoStep, Push, Cut, Fresh, Legal;
    var n, rest := sizes[0], sizes[1..];
    FirstSize(sizes);
    FirstDeleted(s, pos - n, n);
    BackspacesFirst(pos, sizes);
    var next := Step(s, DoDelete(pos - n, n, true));
    var o := Op(Delete, pos - n, s.text[pos - n..pos], true);
    var a := pos - Total(sizes);
    CutTwice(s.text, a, pos - n, pos);
    PushedThenGrown(s.undo, o, a, s.text[a..pos]);
    BackspacesGoOn(next, pos - n, rest);
    RunCons(s, DoDelete(pos - n, n, true), Backspaces(pos - n, rest));
    UndoesDelete(s, a, pos);
  }

  lemma FirstSize(sizes: seq<nat>)
    requires sizes != []
    ensures Total(sizes) == sizes[0] + Total(sizes[1..])
  {
  }

  lemma BackspacesFirst(pos: nat, sizes: seq<nat>)
    requires sizes != [] && Total(sizes) <= pos
    ensures Backspaces(pos, sizes) == [DoDelete(pos - sizes[0], sizes[0], true)] + Backspaces(pos - sizes[0], sizes[1..])
  {
  }

  lemma FirstDeleted(s: State, pos: nat, n: nat)
    requires Fresh(s.undo) && pos + n <= |s.text| && 0 < n <= OP_TEXT_MAX
    ensures Legal(s, DoDelete(pos, n, true))
    ensures Step(s, DoDelete(pos, n, true)) ==
            State(Cut(s.text, pos, pos + n), Push(s.undo, Op(Delete, pos, s.text[pos..pos + n], true)), [])
  {
  }

  lemma UndoesDelete(s: State, a: nat, b: nat)
    requires a <= b <= |s.text| <= EDIT_MAX - 1 && b - a <= OP_TEXT_MAX
    ensures UndoStep(State(Cut(s.text, a, b), Push(s.undo, Op(Delete, a, s.text[a..b], true)), [])).text == s.text
  {
    CutBack(s.text, a, b - a);
    var data := s.text[a..b];
    assert data[..|data|] == data;
  }

  // ----- pasting -----

  function PieceLength(n: nat): (k: nat)
    ensures k <= OP_TEXT_MAX && k <= n && (n > 0 ==> k > 0)
  {
    if n > OP_TEXT_MAX then OP_TEXT_MAX else n
  }

  // The clipboard goes in as operations of at most OP_TEXT_MAX bytes each.
  function PasteCommands(cur: nat, clip: Text): (cs: seq<Command>)
    decreases |clip|
  {
    if clip == [] then [] else
      var n := PieceLength(|clip|);
      [DoInsert(cur, clip[..n], false)] + PasteCommands(cur + n, clip[n..])
  }

  // The operations those commands leave behind.
  function PasteOps(cur: nat, clip: Text): (ops: seq<Op>)
    decreases |clip|
  {
    if clip == [] then [] else
      var n := PieceLength(|clip|);
      [Op(Insert, cur, clip[..n], false)] + PasteOps(cur + n, clip[n..])
  }

  lemma {:induction false} PasteOpsCount(cur: nat, clip: Text, bound: nat)
    requires |clip| <= OP_TEXT_MAX * bound
    ensures |PasteOps(cur, clip)| <= bound
    decreases |clip|
  {
    if clip != [] {
      var n := PieceLength(|clip|);
      PasteOpsCount(cur + n, clip[n..], bound - 1);
    }
  }

  // The newest operations, as many as the stack holds.
  function Newest(ops: seq<Op>): (r: seq<Op>) {
    if |ops| <= UNDO_MAX then ops else ops[|ops| - UNDO_MAX..]
  }

  lemma NewestOfNewest(a: seq<Op>, b: seq<Op>)
    ensures Newest(Newest(a) + b) == Newest(a + b)
  {
  }

  function Spliced(t: Text, pos: nat, s: Text): (r: Text)
    requires pos <= |t|
  {
    t[..pos] + s + t[pos..]
  }

  lemma SplicedInTwo(t: Text, pos: nat, s: Text, n: nat)
    requires pos <= |t| && n <= |s|
    ensures |Spliced(t, pos, s[..n])| == |t| + n
    ensures Spliced(Spliced(t, pos, s[..n]), pos + n, s[n..]) == Spliced(t, pos, s)
  {
    var u := Spliced(t, pos, s[..n]);
    assert u[..pos + n] == t[..pos] + s[..n];
    assert u[pos + n..] == t[pos..];
    assert s[..n] + s[n..] == s;
  }

  lemma SplicedNothing(t: Text, pos: nat)
    requires pos <= |t|
    ensures Spliced(t, pos, []) == t
  {
  }

  lemma NewestPieces(undo: seq<Op>, cur: nat, clip: Text)
    requires clip != []
    ensures var n := PieceLength(|clip|);
            Newest(Newest(undo + [Op(Insert, cur, clip[..n], false)]) + PasteOps(cur + n, clip[n..]))
            == Newest(undo + PasteOps(cur, clip))
  {
    var n := PieceLength(|clip|);
    var o := Op(Insert, cur, clip[..n], false);
    var rest := PasteOps(cur + n, clip[n..]);
    NewestOfNewest(undo + [o], rest);
    assert undo + [o] + rest == undo + ([o] + rest);
  }

  // The text after a paste: as much of the clipboard as there is room for.
  function Pasted(t: Text, cur: nat, clip: Text): (r: Text)
    requires |t| <= EDIT_MAX - 1
  {
    if cur > |t| then t else Spliced(t, cur, clip[..Accepted(|t|, |clip|)])
  }

  // Where a paste can be at work: inside the text, or anywhere once the buffer is full.
  predicate Pasteable(s: State, cur: nat) {
    |s.text| <= EDIT_MAX - 1 && |s.undo| <= UNDO_MAX && (cur <= |s.text| || |s.text| == EDIT_MAX - 1)
  }

  lemma PieceInserts(s: State, cur: nat, piece: Text)
    requires Pasteable(s, cur) && |piece| <= OP_TEXT_MAX
    ensures var c := DoInsert(cur, piece, false);
            && Legal(s, c)
            && (cur <= |s.text| && |s.text| + |piece| <= EDIT_MAX - 1 ==> Fits(s, c))
            && Step(s, c).text == Pasted(s.text, cur, piece)
            && Step(s, c).undo == Newest(s.undo + [Op(Insert, cur, piece, false)])
            && |Step(s, c).text| == |s.text| + Accepted(|s.text|, |piece|)
            && Pasteable(Step(s, c), cur + |piece|)
  {
    assert piece[..|piece|] == piece && piece[..0] == [];
  }

  lemma PastedInTwo(t: Text, cur: nat, clip: Text, n: nat)
    requires |t| <= EDIT_MAX - 1 && n <= |clip|
    ensures var u := Pasted(t, cur, clip[..n]);
            |u| <= EDIT_MAX - 1 && Pasted(u, cur + n, clip[n..]) == Pasted(t, cur, clip)
  {
    hide Spliced;
    if cur <= |t| {
      var k := Accepted(|t|, |clip|);
      var u := Pasted(t, cur, clip[..n]);
      if |t| + n <= EDIT_MAX - 1 {
        assert clip[..n][..n] == clip[..n] && clip[..k][..n] == clip[..n] && clip[..k][n..] == clip[n..][..k - n];
        SplicedInTwo(t, cur, clip[..k], n);
      } else {
        assert clip[..n][..k] == clip[..k] && clip[n..][..0] == [];
        SplicedInTwo(t, cur, clip, k);
        assert |u| == EDIT_MAX - 1;
        if cur + n <= |u| {
          SplicedNothing(u, cur + n);
        }
      }
    }
  }

  lemma PasteNothing(s: State, cur: nat)
    requires Pasteable(s, cur)
    ensures LegalRun(s, PasteCommands(cur, [])) && FittingRun(s, PasteCommands(cur, []))
    ensures Run(s, PasteCommands(cur, [])) == s && s.text == Pasted(s.text, cur, [])
    ensures s.undo == Newest(s.undo + PasteOps(cur, []))
  {
    assert Pasted(s.text, cur, []) == s.text;
    assert s.undo + [] == s.undo;
  }

  // Pasting puts the clipboard, or as much of it as fits, into the text in one piece, and all its
  // operations on top of the stack.
  lemma {:induction false} PasteInserts(s: State, cur: nat, clip: Text)
    requires Pasteable(s, cur)
    ensures LegalRun(s, PasteCommands(cur, clip))
    ensures cur <= |s.text| && |s.text| + |clip| <= EDIT_MAX - 1 ==> FittingRun(s, PasteCommands(cur, clip))
    ensures var r := Run(s, PasteCommands(cur, clip));
            && r.text == Pasted(s.text, cur, clip)
            && r.undo == Newest(s.undo + PasteOps(cur, clip))
    decreases |clip|
  {
    hide Step, Legal, Fits, Run, LegalRun, FittingRun, Pasted, Newest, PasteOps;
    if clip == [] {
      PasteNothing(s, cur);
    } else {
      var n := PieceLength(|clip|);
      var c := DoInsert(cur, clip[..n], false);
      PieceInserts(s, cur, clip[..n]);
      PasteInserts(Step(s, c), cur + n, clip[n..]);
      RunCons(s, c, PasteCommands(cur + n, clip[n..]));
      PastedInTwo(s.text, cur, clip, n);
      NewestPieces(s.undo, cur, clip);
    }
  }

  // Where a deletion ends.
  function CutEnd(t: Text, pos: nat, n: nat): (e: nat)
    ensures e <= |t|
  {
    if pos + n > |t| then |t| else pos + n
  }

  lemma DeleteCuts(t: Text, pos: nat, n: nat)
    ensures pos >= |t| ==> RawDelete(t, pos, n) == t
    ensures pos < |t| ==> pos <= CutEnd(t, pos, n) && RawDelete(t, pos, n) == t[..pos] + t[CutEnd(t, pos, n)..]
  {
    if n == 0 && pos < |t| {
      assert t == t[..pos] + t[pos..];
    }
  }

  lemma TwoCuts(t: Text, pos: nat, m: nat, e: nat)
    requires pos <= m <= e <= |t|
    ensures var u := t[..m] + t[e..]; u[..pos] == t[..pos] && u[m..] == t[e..]
  {
  }

  lemma DeletedInTwo(t: Text, pos: nat, n: nat, m: nat)
    ensures RawDelete(RawDelete(t, pos + n, m), pos, n) == RawDelete(t, pos, n + m)
  {
    hide RawDelete;
    var u := RawDelete(t, pos + n, m);
    DeleteCuts(t, pos + n, m);
    DeleteCuts(u, pos, n);
    DeleteCuts(t, pos, n + m);
    if pos + n < |t| {
      TwoCuts(t, pos, pos + n, CutEnd(t, pos + n, m));
    }
  }

  // Undoing the operations of a paste deletes, from its place on, as many bytes as were on the
  // clipboard.
  lemma {:induction false} PasteOpsDelete(s: State, cur: nat, clip: Text)
    requires var ops := PasteOps(cur, clip); |ops| <= |s.undo| && s.undo[|s.undo| - |ops|..] == ops
    ensures Undos(s, |PasteOps(cur, clip)|).text == RawDelete(s.text, cur, |clip|)
    ensures Undos(s, |PasteOps(cur, clip)|).undo == s.undo[..|s.undo| - |PasteOps(cur, clip)|]
    decreases |clip|
  {
    hide UndoStep, RawDelete, PasteOps, Undos;
    PasteOpsCons(cur, clip);
    if clip == [] {
      DeletesNothing(s.text, cur);
      UndosNone(s);
      assert s.undo[..|s.undo|] == s.undo;
    } else {
      var n := PieceLength(|clip|);
      var b := clip[n..];
      var rest := PasteOps(cur + n, b);
      TopOperations(s.undo, Op(Insert, cur, clip[..n], false), rest);
      PasteOpsDelete(s, cur + n, b);
      UndosSnoc(s, |rest|);
      UndoPiece(Undos(s, |rest|), cur, clip[..n]);
      DeletedInTwo(s.text, cur, n, |b|);
    }
  }

  lemma PasteOpsCons(cur: nat, clip: Text)
    ensures var n := PieceLength(|clip|);
            PasteOps(cur, clip) == if clip == [] then [] else [Op(Insert, cur, clip[..n], false)] + PasteOps(cur + n, clip[n..])
  {
  }

  lemma UndosNone(s: State)
    ensures Undos(s, 0) == s
  {
  }

  lemma TopOperations(undo: seq<Op>, o: Op, rest: seq<Op>)
    requires |rest| + 1 <= |undo| && undo[|undo| - |rest| - 1..] == [o] + rest
    ensures var base := |undo| - |rest| - 1;
            undo[base + 1..] == rest && undo[base] == o && undo[..base + 1][..base] == undo[..base]
  {
    var base := |undo| - |rest| - 1;
    var top := undo[base..];
    assert top[1..] == rest && top[0] == o && undo[base + 1..] == top[1..];
  }

  lemma DeletesNothing(t: Text, pos: nat)
    ensures RawDelete(t, pos, 0) == t
  {
  }

  lemma UndoPiece(s: State, cur: nat, piece: Text)
    requires s.undo != [] && s.undo[|s.undo| - 1] == Op(Insert, cur, piece, false)
    ensures UndoStep(s).text == RawDelete(s.text, cur, |piece|) && UndoStep(s).undo == s.undo[..|s.undo| - 1]
  {
  }

  lemma {:induction false} UndosSnoc(s: State, k: nat)
    ensures Undos(s, k + 1) == UndoStep(Undos(s, k))
    decreases k
  {
    hide UndoStep;
    if k > 0 {
      UndosSnoc(UndoStep(s), k - 1);
    } else {
      assert Undos(UndoStep(s), 0) == UndoStep(s);
    }
  }

  lemma PastedAndDeleted(t: Text, cur: nat, clip: Text)
    requires |t| <= EDIT_MAX - 1 && cur <= |t|
    ensures RawDelete(Pasted(t, cur, clip), cur, |clip|) == t <==> |t| + |clip| <= EDIT_MAX - 1 || cur == |t|
  {
    var k := Accepted(|t|, |clip|);
    var u := Pasted(t, cur, clip);
    SpliceBack(t, cur, clip[..k]);
    assert u[..cur] == t[..cur] && |u| == |t| + k;
    assert |RawDelete(u, cur, |clip|)| == |t| <==> |t| + |clip| <= EDIT_MAX - 1 || cur == |t|;
    assert t[..|t|] == t;
  }

  // A full clipboard is exactly as many operations as the stack holds, so undoing them all reaches
  // back before the paste, whatever was on the stack.  That restores the text exactly when the
  // clipboard fitted the buffer, or went to the end of the text; else it also takes what followed.
  lemma PasteThenUndo(s: State, cur: nat, clip: Text)
    requires cur <= |s.text| <= EDIT_MAX - 1 && |s.undo| <= UNDO_MAX && |clip| <= CLIP_MAX
    ensures LegalRun(s, PasteCommands(cur, clip))
    ensures Undos(Run(s, PasteCommands(cur, clip)), |PasteOps(cur, clip)|).text == s.text
       <==> |s.text| + |clip| <= EDIT_MAX - 1 || cur == |s.text|
  {
    PasteInserts(s, cur, clip);
    hide Run, LegalRun, FittingRun, PasteCommands, PasteOps, Pasted, Undos, RawDelete;
    var r := Run(s, PasteCommands(cur, clip));
    var ops := PasteOps(cur, clip);
    PasteOpsCount(cur, clip, UNDO_MAX);
    assert r.undo[|r.undo| - |ops|..] == ops;
    PasteOpsDelete(r, cur, clip);
    PastedAndDeleted(s.text, cur, clip);
  }

  // A text of 65530 bytes, its last byte deleted, and 64 bytes pasted at 100: the buffer takes 6, undo
  // takes 64, and the next undo is to put the byte back 58 places past the end.
  lemma UndoPastTheEnd(t: Text, clip: Text)
    requires |t| == 65530 && |clip| == 64
    ensures Legal(Loaded(t), DoDelete(65529, 1, false))
    ensures var s1 := Step(Loaded(t), DoDelete(65529, 1, false)); Legal(s1, DoInsert(100, clip, false))
    ensures var s1 := Step(Loaded(t), DoDelete(65529, 1, false));
            var s2 := Step(s1, DoInsert(100, clip, false));
            Legal(s2, Undo) && !Legal(Step(s2, Undo), Undo)
  {
    var s1 := Step(Loaded(t), DoDelete(65529, 1, false));
    assert |s1.text| == 65529 && s1.undo == [Op(Delete, 65529, t[65529..65530], false)];
    var s2 := Step(s1, DoInsert(100, clip, false));
    assert |s2.text| == 65535 && s2.undo == s1.undo + [Op(Insert, 100, clip, false)];
    var s3 := UndoStep(s2);
    assert |s3.text| == 65471;
    assert s3.undo == s1.undo;
  }

  // 64 bytes pasted at position 100 of a text of 65530: the buffer takes 5, undo takes 64.
  lemma OverfullPasteIsNotUndone(t: Text, clip: Text)
    requires |t| == 65530 && |clip| == 64
    ensures LegalRun(Loaded(t), PasteCommands(100, clip))
    ensures Undos(Run(Loaded(t), PasteCommands(100, clip)), |PasteOps(100, clip)|).text != t
  {
    hide Run, LegalRun, PasteCommands, PasteOps, Undos;
    PasteThenUndo(Loaded(t), 100, clip);
  }
}
