/**
 The editor's buffer and its two stacks (userland/edit.c), changed in place.

 Every method is proved against the function of EditHistory that it carries out.
 */
module EditBuffer {
  import opened EditHistory

  function Moved(a: Text, dst: nat, src: nat, n: nat): (r: Text)
    requires dst + n <= |a| && src + n <= |a|
    ensures |r| == |a|
  {
    a[..dst] + a[src..src + n] + a[dst + n..]
  }

  // memmove on one buffer: the ranges may overlap.
  method MoveBytes(a: array<char>, dst: nat, src: nat, n: nat)
    requires dst + n <= a.Length && src + n <= a.Length
    modifies a
    ensures a[..] == Moved(old(a[..]), dst, src, n)
  {
    forall i | 0 <= i < n {
      a[dst + i] := a[src + i];
    }
  }

  // Make room by dropping the oldest operation.
  method DropOldest(stack: array<Op>)
    requires stack.Length == UNDO_MAX
    modifies stack
    ensures stack[..UNDO_MAX - 1] == old(stack[..])[1..]
  {
    var i := 1;
    while i < UNDO_MAX
      invariant 1 <= i <= UNDO_MAX
      invariant forall k :: 0 <= k < i - 1 ==> stack[k] == old(stack[k + 1])
      invariant forall k :: i - 1 <= k < UNDO_MAX ==> stack[k] == old(stack[k])
    {
      stack[i - 1] := stack[i];
      i := i + 1;
    }
  }

  method Place(stack: array<Op>, top: nat, o: Op)
    requires top < stack.Length
    modifies stack
    ensures stack[..top + 1] == old(stack[..top]) + [o]
  {
    stack[top] := o;
  }

  // Push an operation, dropping the oldest one when the stack is full.
  method PushOp(stack: array<Op>, top: nat, o: Op) returns (top': nat)
    requires stack.Length == UNDO_MAX && top <= UNDO_MAX
    modifies stack
    ensures top' <= UNDO_MAX && stack[..top'] == Push(old(stack[..top]), o)
  {
    hide Clip;
    var kept := top;
    if top == UNDO_MAX {
      assert stack[..top] == stack[..];
      DropOldest(stack);
      kept := top - 1;
    }
    Place(stack, kept, o.(data := Clip(o.data)));
    top' := kept + 1;
  }

  // The bytes of s from pos on.
  method CopyBytes(a: array<char>, pos: nat, s: seq<char>)
    requires pos + |s| <= a.Length
    modifies a
    ensures a[..] == old(a[..pos]) + s + old(a[pos + |s|..])
  {
    var i := 0;
    while i < |s|
      invariant 0 <= i <= |s|
      invariant forall k :: 0 <= k < a.Length ==> a[k] == if pos <= k < pos + i then s[k - pos] else old(a[k])
    {
      a[pos + i] := s[i];
      i := i + 1;
    }
  }

  lemma InsertedIs(t: Text, pos: nat, s: Text, n: int)
    requires n == Accepted(|t|, |s|) && (pos <= |t| || n <= 0)
    ensures RawInsert(t, pos, s) == if n <= 0 then t else t[..pos] + s[..n] + t[pos..]
  {
  }

  lemma DeletedIs(t: Text, pos: nat, n: int, m: int)
    requires m == if pos + n > |t| then |t| - pos else n
    ensures RawDelete(t, pos, n) == if m <= 0 then t else t[..pos] + t[pos + m..]
  {
  }

  // The text at the front of the buffer, after its bytes were moved.
  lemma SplicedFrom(a: Text, len: nat, pos: nat, s: Text)
    requires pos <= len && len + |s| <= |a|
    ensures var b := Moved(a, pos + |s|, pos, len - pos);
            (b[..pos] + s + b[pos + |s|..])[..len + |s|] == a[..len][..pos] + s + a[..len][pos..]
  {
    var b := Moved(a, pos + |s|, pos, len - pos);
    assert b[..pos] == a[..pos] && b[pos + |s|..len + |s|] == a[pos..len];
    assert a[..len][..pos] == a[..pos] && a[..len][pos..] == a[pos..len];
  }

  lemma CutFrom(a: Text, len: nat, pos: nat, m: nat)
    requires pos + m <= len <= |a|
    ensures Moved(a, pos, pos + m, len - pos - m)[..len - m] == a[..len][..pos] + a[..len][pos + m..]
  {
    assert a[..len][..pos] == a[..pos] && a[..len][pos + m..] == a[pos + m..len];
  }

  class Editor {
    const text: array<char>
    var len: nat
    var cur: nat
    const undoStack: array<Op>
    var undoTop: nat
    const redoStack: array<Op>
    var redoTop: nat

    ghost predicate Valid()
      reads this
    {
      && text.Length == EDIT_MAX && len <= EDIT_MAX - 1
      && undoStack.Length == UNDO_MAX && redoStack.Length == UNDO_MAX && undoStack != redoStack
      && undoTop <= UNDO_MAX && redoTop <= UNDO_MAX
    }

    ghost function View(): (s: State)
      requires Valid()
      reads this, text, undoStack, redoStack
    {
      State(text[..len], undoStack[..undoTop], redoStack[..redoTop])
    }

    constructor (contents: seq<char>)
      requires |contents| <= EDIT_MAX - 1
      ensures Valid() && View() == Loaded(contents) && cur == 0
      ensures fresh(text) && fresh(undoStack) && fresh(redoStack)
    {
      text := new char[EDIT_MAX](i => if 0 <= i < |contents| then contents[i] else '\0');
      undoStack := new Op[UNDO_MAX](_ => Op(Kind.Insert, 0, [], false));
      redoStack := new Op[UNDO_MAX](_ => Op(Kind.Insert, 0, [], false));
      len, cur, undoTop, redoTop := |contents|, 0, 0, 0;
      new;
      assert text[..len] == contents;
    }

    method InsertRaw(pos: nat, s: seq<char>)
      requires Valid() && (pos <= len || Accepted(len, |s|) <= 0)
      modifies `len, text
      ensures Valid() && text[..len] == RawInsert(old(text[..len]), pos, s)
    {
      hide RawInsert, Moved;
      ghost var all, was := text[..], text[..len];
      assert was == all[..len];
      var n := if len + |s| > EDIT_MAX - 1 then EDIT_MAX - 1 - len else |s|;
      InsertedIs(was, pos, s, n);
      if n <= 0 {
        return;
      }
      MoveBytes(text, pos + n, pos, len - pos);
      CopyBytes(text, pos, s[..n]);
      SplicedFrom(all, len, pos, s[..n]);
      len := len + n;
      assert text[..len] == text[..][..len];
    }

    method DeleteRaw(pos: nat, n: int)
      requires Valid()
      modifies `len, text
      ensures Valid() && text[..len] == RawDelete(old(text[..len]), pos, n)
    {
      hide RawDelete, Moved;
      ghost var all, was := text[..], text[..len];
      assert was == all[..len];
      var m := if pos + n > len then len - pos else n;
      DeletedIs(was, pos, n, m);
      if m <= 0 {
        return;
      }
      MoveBytes(text, pos, pos + m, len - pos - m);
      CutFrom(all, len, pos, m);
      len := len - m;
      assert text[..len] == text[..][..len];
    }

    method RecordEdit(kind: Kind, pos: nat, data: seq<char>, coalesce: bool)
      requires Valid()
      modifies `undoTop, `redoTop, undoStack
      ensures Valid() && redoTop == 0
      ensures undoStack[..undoTop] == Record(old(undoStack[..undoTop]), kind, pos, data, coalesce)
    {
      redoTop := 0;
      if coalesce && undoTop > 0 {
        var last := undoStack[undoTop - 1];
        if last.open && last.kind == kind && |last.data| + |data| <= OP_TEXT_MAX {
          if kind == Kind.Insert && last.pos + |last.data| == pos {
            undoStack[undoTop - 1] := last.(data := last.data + data);
            assert undoStack[..undoTop] == old(undoStack[..undoTop])[undoTop - 1 := Merged(last, pos, data)];
            return;
          }
          if kind == Kind.Delete && pos + |data| == last.pos {
            undoStack[undoTop - 1] := last.(pos := pos, data := data + last.data);
            assert undoStack[..undoTop] == old(undoStack[..undoTop])[undoTop - 1 := Merged(last, pos, data)];
            return;
          }
        }
      }
      undoTop := PushOp(undoStack, undoTop, Op(kind, pos, data, coalesce));
    }

    method Insert(pos: nat, s: seq<char>, coalesce: bool)
      requires Valid() && Legal(View(), DoInsert(pos, s, coalesce))
      modifies `len, `undoTop, `redoTop, text, undoStack
      ensures Valid() && View() == Step(old(View()), DoInsert(pos, s, coalesce))
    {
      InsertRaw(pos, s);
      RecordEdit(Kind.Insert, pos, s, coalesce);
    }

    method Delete(pos: nat, n: int, coalesce: bool)
      requires Valid() && Legal(View(), DoDelete(pos, n, coalesce))
      modifies `len, `undoTop, `redoTop, text, undoStack
      ensures Valid() && View() == Step(old(View()), DoDelete(pos, n, coalesce))
    {
      hide Record, RawDelete, Push;
      if n <= 0 {
        return;
      }
      var cut := text[..len][pos..pos + n];
      RecordEdit(Kind.Delete, pos, cut, coalesce);
      DeleteRaw(pos, n);
    }

    method Close()
      requires Valid()
      modifies undoStack
      ensures Valid() && View() == Step(old(View()), CloseOp)
    {
      if undoTop > 0 {
        undoStack[undoTop - 1] := undoStack[undoTop - 1].(open := false);
        assert undoStack[..undoTop] ==
          old(undoStack[..undoTop])[undoTop - 1 := old(undoStack[undoTop - 1]).(open := false)];
      }
    }

    // Undo and redo also put the cursor where the change happened.
    method UndoOne()
      requires Valid() && Legal(View(), Undo)
      modifies this, text, redoStack
      ensures Valid() && View() == Step(old(View()), Undo)
      ensures old(undoTop) == 0 ==> cur == old(cur)
      ensures old(undoTop) > 0 ==>
        var o := old(undoStack[undoTop - 1]);
        cur == if o.kind == Kind.Insert then o.pos else o.pos + |o.data|
    {
      if undoTop == 0 {
        return;
      }
      undoTop := undoTop - 1;
      var o := undoStack[undoTop];
      assert old(undoStack[..undoTop])[..undoTop] == undoStack[..undoTop];
      if o.kind == Kind.Insert {
        DeleteRaw(o.pos, |o.data|);
        cur := o.pos;
      } else {
        InsertRaw(o.pos, o.data);
        cur := o.pos + |o.data|;
      }
      redoTop := PushOp(redoStack, redoTop, o.(open := false));
    }

    method RedoOne()
      requires Valid() && Legal(View(), Redo)
      modifies this, text, undoStack
      ensures Valid() && View() == Step(old(View()), Redo)
      ensures old(redoTop) == 0 ==> cur == old(cur)
      ensures old(redoTop) > 0 ==>
        var o := old(redoStack[redoTop - 1]);
        cur == if o.kind == Kind.Insert then o.pos + |o.data| else o.pos
    {
      if redoTop == 0 {
        return;
      }
      redoTop := redoTop - 1;
      var o := redoStack[redoTop];
      assert old(redoStack[..redoTop])[..redoTop] == redoStack[..redoTop];
      if o.kind == Kind.Insert {
        InsertRaw(o.pos, o.data);
        cur := o.pos + |o.data|;
      } else {
        DeleteRaw(o.pos, |o.data|);
        cur := o.pos;
      }
      undoTop := PushOp(undoStack, undoTop, o.(open := false));
    }

    // Paste with nothing selected: the clipboard at the cursor, in pieces one operation can hold.  The
    // cursor moves on by all of it, even when the buffer did not take it all.
    method Paste(clip: seq<char>)
      requires Valid() && Pasteable(View(), cur)
      modifies this, text, undoStack
      ensures Valid() && cur == old(cur) + |clip|
      ensures LegalRun(old(View()), PasteCommands(old(cur), clip))
      ensures View() == Run(old(View()), PasteCommands(old(cur), clip))
    {
      hide Step, Legal, Push, Record, Fits, Pasteable, Run, LegalRun, PasteCommands;
      ghost var start := View();
      PasteInserts(start, cur, clip);
      assert clip[0..] == clip;
      var done := 0;
      while done < |clip|
        invariant 0 <= done <= |clip|
        invariant Valid() && cur == old(cur) + done && Pasteable(View(), cur)
        invariant LegalRun(View(), PasteCommands(cur, clip[done..]))
        invariant Run(View(), PasteCommands(cur, clip[done..])) == Run(start, PasteCommands(old(cur), clip))
      {
        var n := |clip| - done;
        if n > OP_TEXT_MAX {
          n := OP_TEXT_MAX;
        }
        assert clip[done..][..n] == clip[done..done + n] && clip[done..][n..] == clip[done + n..];
        PasteNext(View(), cur, clip[done..]);
        Insert(cur, clip[done..done + n], false);
        cur := cur + n;
        done := done + n;
      }
      assert clip[done..] == [];
      PasteNothing(View(), cur);
    }
  }

  // The first piece of a paste, and what is left to run after it.
  lemma PasteNext(s: State, cur: nat, clip: Text)
    requires Pasteable(s, cur) && clip != []
    ensures var n := PieceLength(|clip|);
            var c := DoInsert(cur, clip[..n], false);
            var rest := PasteCommands(cur + n, clip[n..]);
            && Legal(s, c)
            && Pasteable(Step(s, c), cur + n)
            && LegalRun(s, PasteCommands(cur, clip)) && LegalRun(Step(s, c), rest)
            && Run(s, PasteCommands(cur, clip)) == Run(Step(s, c), rest)
  {
    hide Step, Legal, Fits, Run, LegalRun, FittingRun, Pasted, Newest;
    var n := PieceLength(|clip|);
    var c := DoInsert(cur, clip[..n], false);
    PieceInserts(s, cur, clip[..n]);
    PasteInserts(Step(s, c), cur + n, clip[n..]);
    RunCons(s, c, PasteCommands(cur + n, clip[n..]));
  }
}
