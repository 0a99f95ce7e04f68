/**
 Syntax colouring in the editor (userland/edit.c).

 Whether a line starts inside a block comment is found out twice: by scanning the whole file up to
 it, for the first line on the screen, and by carrying a flag from line to line below that.
 */
module Highlight {
  const MAXCOLS := 240

  // ----- the whole-file scan -----

  datatype Lex = Code | Comment | Literal(quote: char)

  function LineEnd(t: string, i: nat): (j: nat)
    requires i <= |t|
    ensures i <= j <= |t| && (j < |t| ==> t[j] == '\n') && forall k :: i <= k < j ==> t[k] != '\n'
    decreases |t| - i
  {
    if i < |t| && t[i] != '\n' then LineEnd(t, i + 1) else i
  }

  // Where the scan stands after the character at i, and in what.
  function Next(t: string, i: nat, st: Lex): (r: (nat, Lex))
    requires i < |t|
    ensures r.0 > i
  {
    match st
    case Comment =>
      if t[i] == '*' && i + 1 < |t| && t[i + 1] == '/' then (i + 2, Code) else (i + 1, Comment)
    case Literal(q) =>
      if t[i] == '\\' then (i + 2, st) else (i + 1, if t[i] == q then Code else st)
    case Code =>
      if t[i] == '"' || t[i] == '\'' then (i + 1, Literal(t[i]))
      else if t[i] == '/' && i + 1 < |t| && t[i + 1] == '*' then (i + 2, Comment)
      else if t[i] == '/' && i + 1 < |t| && t[i + 1] == '/' then (LineEnd(t, i) + 1, Code)
      else (i + 1, Code)
  }

  function Scan(t: string, i: nat, off: nat, st: Lex): (r: Lex)
    decreases |t| - i
  {
    if i >= off || i >= |t| then st else
      var (j, st') := Next(t, i, st);
      Scan(t, j, off, st')
  }

  function InComment(t: string, off: nat): (b: bool) {
    Scan(t, 0, off, Code) == Comment
  }

  // in_block_comment_at
  method InBlockCommentAt(t: string, off: nat) returns (b: bool)
    ensures b == InComment(t, off)
  {
    var inC, inS, sq := false, false, '\0';
    var i := 0;
    while i < off && i < |t|
      invariant !(inC && inS)
      invariant Scan(t, 0, off, Code) == Scan(t, i, off, if inC then Comment else if inS then Literal(sq) else Code)
      decreases |t| - i
    {
      if inC {
        if t[i] == '*' && i + 1 < |t| && t[i + 1] == '/' {
          inC := false;
          i := i + 1;
        }
      } else if inS {
        if t[i] == '\\' {
          i := i + 1;
        } else if t[i] == sq {
          inS := false;
        }
      } else if t[i] == '"' || t[i] == '\'' {
        inS, sq := true, t[i];
      } else if t[i] == '/' && i + 1 < |t| {
        if t[i + 1] == '*' {
          inC := true;
          i := i + 1;
        } else if t[i + 1] == '/' {
          i := LineEnd(t, i);
        }
      }
      i := i + 1;
    }
    b := inC;
  }

  // ----- one line -----

  predicate IsWord(c: char) {
    'a' <= c <= 'z' || 'A' <= c <= 'Z' || '0' <= c <= '9' || c == '_'
  }

  predicate IsDigit(c: char) {
    '0' <= c <= '9'
  }

  predicate IsNumberPart(c: char) {
    IsWord(c) || c == '.'
  }

  // The end of a run of word characters, or of those and dots.
  function RunEnd(s: string, i: nat, dots: bool): (j: nat)
    requires i <= |s|
    ensures i <= j <= |s| && forall k :: i <= k < j ==> IsNumberPart(s[k])
    ensures i < |s| && IsWord(s[i]) ==> i < j
    decreases |s| - i
  {
    if i < |s| && (if dots then IsNumberPart(s[i]) else IsWord(s[i])) then RunEnd(s, i + 1, dots) else i
  }

  // One past the quote that closes a literal, or the end of the line when none does.
  function LiteralEnd(s: string, i: nat, q: char): (j: nat)
    requires i <= |s|
    ensures i <= j <= |s|
    decreases |s| - i
  {
    if i == |s| then i
    else if s[i] == '\\' && i + 1 < |s| then LiteralEnd(s, i + 2, q)
    else if s[i] == q then i + 1
    else LiteralEnd(s, i + 1, q)
  }

  predicate LiteralCloses(s: string, i: nat, q: char)
    requires i <= |s|
    decreases |s| - i
  {
    if i == |s| then false
    else if s[i] == '\\' then i + 1 < |s| && LiteralCloses(s, i + 2, q)
    else s[i] == q || LiteralCloses(s, i + 1, q)
  }

  datatype Token = BlockRest | BlockEnd | LineComment | BlockStart | Quoted | Number | Word | Other

  // What the colouring loop meets at i.
  function TokenAt(s: string, i: nat, inC: bool): (k: Token)
    requires i < |s|
  {
    if inC then (if s[i] == '*' && i + 1 < |s| && s[i + 1] == '/' then BlockEnd else BlockRest)
    else if s[i] == '/' && i + 1 < |s| && s[i + 1] == '/' then LineComment
    else if s[i] == '/' && i + 1 < |s| && s[i + 1] == '*' then BlockStart
    else if s[i] == '"' || s[i] == '\'' then Quoted
    else if IsDigit(s[i]) && (i == 0 || !IsWord(s[i - 1])) then Number
    else if IsWord(s[i]) then Word
    else Other
  }

  // Where the loop goes on.
  function TokenEnd(s: string, i: nat, inC: bool): (j: nat)
    requires i < |s|
    ensures i < j <= |s|
  {
    match TokenAt(s, i, inC)
    case BlockRest => i + 1
    case BlockEnd => i + 2
    case LineComment => |s|
    case BlockStart => i + 2
    case Quoted => LiteralEnd(s, i + 1, s[i])
    case Number => RunEnd(s, i, true)
    case Word => RunEnd(s, i, false)
    case Other => i + 1
  }

  function InAfter(k: Token): (c: bool) {
    k == BlockRest || k == BlockStart
  }

  // Is the end of the line inside a block comment?
  function Carry(s: string, i: nat, inC: bool): (c: bool)
    requires i <= |s|
    decreases |s| - i
  {
    if i == |s| then inC else Carry(s, TokenEnd(s, i, inC), InAfter(TokenAt(s, i, inC)))
  }

  // Every literal of the line is closed on it.
  predicate Closes(s: string, i: nat, inC: bool)
    requires i <= |s|
    decreases |s| - i
  {
    i == |s| ||
    (&& (TokenAt(s, i, inC) == Quoted ==> LiteralCloses(s, i + 1, s[i]))
     && Closes(s, TokenEnd(s, i, inC), InAfter(TokenAt(s, i, inC))))
  }

  // ----- line and file agree -----

  function LexOf(inC: bool): (st: Lex) {
    if inC then Comment else Code
  }

  // The line s stands in t from ls to le, where it ends.
  predicate LineAt(t: string, ls: nat, s: string) {
    var le := ls + |s|;
    && le <= |t| && t[ls..le] == s && (le < |t| ==> t[le] == '\n')
    && (forall k :: 0 <= k < |s| ==> s[k] != '\n')
  }

  lemma LineChars(t: string, ls: nat, s: string, k: nat)
    requires LineAt(t, ls, s) && k < |s|
    ensures t[ls + k] == s[k]
  {
    assert t[ls..ls + |s|][k] == t[ls + k];
  }

  // Characters that neither open nor close anything.
  lemma {:induction false} PlainScan(t: string, a: nat, b: nat, off: nat)
    requires a <= b <= |t| && b <= off && forall k :: a <= k < b ==> IsNumberPart(t[k])
    ensures Scan(t, a, off, Code) == Scan(t, b, off, Code)
    decreases b - a
  {
    if a < b {
      assert IsNumberPart(t[a]);
      PlainScan(t, a + 1, b, off);
    }
  }

  lemma {:induction false} LiteralScan(t: string, ls: nat, s: string, i: nat, q: char, off: nat)
    requires LineAt(t, ls, s) && i <= |s| && ls + |s| <= off && LiteralCloses(s, i, q)
    ensures Scan(t, ls + i, off, Literal(q)) == Scan(t, ls + LiteralEnd(s, i, q), off, Code)
    decreases |s| - i
  {
    LineChars(t, ls, s, i);
    if s[i] == '\\' {
      LiteralScan(t, ls, s, i + 2, q, off);
    } else if s[i] != q {
      LiteralScan(t, ls, s, i + 1, q, off);
    }
  }

  // One turn of the colouring loop is so many turns of the scan.
  lemma TokenScan(t: string, ls: nat, s: string, i: nat, inC: bool, off: nat)
    requires LineAt(t, ls, s) && i < |s| && ls + |s| <= off
    requires TokenAt(s, i, inC) == Quoted ==> LiteralCloses(s, i + 1, s[i])
    requires TokenAt(s, i, inC) != LineComment
    ensures Scan(t, ls + i, off, LexOf(inC))
         == Scan(t, ls + TokenEnd(s, i, inC), off, LexOf(InAfter(TokenAt(s, i, inC))))
  {
    hide Scan, LiteralEnd, LiteralCloses, LineAt, LineEnd, RunEnd;
    var k := TokenAt(s, i, inC);
    if k == Number || k == Word {
      RunScan(t, ls, s, i, k == Number, off);
    } else {
      InsideLine(t, ls, s, i);
      NextToken(t, ls, s, i, inC);
      ScanStep(t, ls + i, off, LexOf(inC));
      if k == Quoted {
        LiteralScan(t, ls, s, i + 1, s[i], off);
      }
    }
  }

  lemma InsideLine(t: string, ls: nat, s: string, i: nat)
    requires LineAt(t, ls, s) && i < |s|
    ensures ls + i < |t|
  {
  }

  // The step of the scan at a token that is neither a word nor a number nor a line comment.
  lemma NextToken(t: string, ls: nat, s: string, i: nat, inC: bool)
    requires LineAt(t, ls, s) && i < |s|
    ensures var k := TokenAt(s, i, inC);
            var (j, st) := Next(t, ls + i, LexOf(inC));
            && (k == Quoted ==> j == ls + i + 1 && st == Literal(s[i]))
            && (k != Number && k != Word && k != LineComment && k != Quoted ==>
                  j == ls + TokenEnd(s, i, inC) && st == LexOf(InAfter(k)))
  {
    hide LineEnd, LiteralEnd, RunEnd;
    LineChars(t, ls, s, i);
    if i + 1 < |s| {
      LineChars(t, ls, s, i + 1);
    }
  }

  lemma RunScan(t: string, ls: nat, s: string, i: nat, dots: bool, off: nat)
    requires LineAt(t, ls, s) && i <= |s| && ls + |s| <= off
    ensures Scan(t, ls + i, off, Code) == Scan(t, ls + RunEnd(s, i, dots), off, Code)
  {
    hide Scan;
    var j := RunEnd(s, i, dots);
    forall k | ls + i <= k < ls + j
      ensures IsNumberPart(t[k])
    {
      LineChars(t, ls, s, k - ls);
      assert IsNumberPart(s[k - ls]);
    }
    PlainScan(t, ls + i, ls + j, off);
  }

  lemma CarryStep(s: string, i: nat, inC: bool)
    requires i <= |s|
    ensures Carry(s, i, inC) == if i == |s| then inC else Carry(s, TokenEnd(s, i, inC), InAfter(TokenAt(s, i, inC)))
  {
  }

  lemma EndOfLine(t: string, ls: nat, s: string, inC: bool, off: nat)
    requires LineAt(t, ls, s) && (ls + |s| < off || ls + |s| == |t| == off)
    ensures Scan(t, ls + |s|, off, LexOf(inC)) == Scan(t, ls + |s| + 1, off, LexOf(inC))
  {
  }

  lemma CommentToEnd(t: string, ls: nat, s: string, i: nat, inC: bool, off: nat)
    requires LineAt(t, ls, s) && i < |s| && TokenAt(s, i, inC) == LineComment
    requires ls + |s| < off || ls + |s| == |t| == off
    ensures Scan(t, ls + i, off, LexOf(inC)) == Scan(t, ls + |s| + 1, off, LexOf(Carry(s, i, inC)))
  {
    hide Scan;
    LineChars(t, ls, s, i);
    LineChars(t, ls, s, i + 1);
    ScanStep(t, ls + i, off, LexOf(inC));
    LineEndsAt(t, ls, s, i);
    CarryStep(s, i, inC);
    CarryStep(s, |s|, false);
  }

  lemma LineEndsAt(t: string, ls: nat, s: string, i: nat)
    requires LineAt(t, ls, s) && i < |s|
    ensures ls + i <= |t| && LineEnd(t, ls + i) == ls + |s|
  {
    hide LineEnd;
    var e := LineEnd(t, ls + i);
    if e < ls + |s| {
      LineChars(t, ls, s, e - ls);
      assert false;
    }
  }

  // From anywhere in the line to the start of the next one.
  lemma {:induction false} LineScan(t: string, ls: nat, s: string, i: nat, inC: bool, off: nat)
    requires LineAt(t, ls, s) && i <= |s| && Closes(s, i, inC)
    requires ls + |s| < off || ls + |s| == |t| == off
    ensures Scan(t, ls + i, off, LexOf(inC)) == Scan(t, ls + |s| + 1, off, LexOf(Carry(s, i, inC)))
    decreases |s| - i
  {
    hide Scan, TokenEnd, TokenAt, LineAt;
    CarryStep(s, i, inC);
    if i == |s| {
      EndOfLine(t, ls, s, inC, off);
    } else if TokenAt(s, i, inC) == LineComment {
      CommentToEnd(t, ls, s, i, inC, off);
    } else {
      TokenScan(t, ls, s, i, inC, off);
      LineScan(t, ls, s, TokenEnd(s, i, inC), InAfter(TokenAt(s, i, inC)), off);
    }
  }

  // ----- all lines -----

  function LineOf(t: string, a: nat): (s: string)
    requires a <= |t|
    ensures LineAt(t, a, s) && a + |s| == LineEnd(t, a)
  {
    t[a..LineEnd(t, a)]
  }

  predicate IsLineStart(t: string, b: nat) {
    b == 0 || (b <= |t| && t[b - 1] == '\n')
  }

  // Only so much of a line is coloured.
  function Drawn(s: string): (d: string) {
    if |s| > 2 * MAXCOLS then s[..2 * MAXCOLS] else s
  }

  // The flag that draw carries from the line at a, where it is c, to the line at b.
  function Flag(t: string, a: nat, c: bool, b: nat): (f: bool)
    requires a <= |t|
    decreases |t| - a
  {
    if a >= b then c else
      var s := LineOf(t, a);
      var c' := Carry(Drawn(s), 0, c);
      if a + |s| == |t| then c' else Flag(t, a + |s| + 1, c', b)
  }

  // Every line that ends closes its literals, given the flag it starts with.
  predicate Tidy(t: string, a: nat, c: bool)
    requires a <= |t|
    decreases |t| - a
  {
    var s := LineOf(t, a);
    a + |s| == |t| || (Closes(s, 0, c) && Tidy(t, a + |s| + 1, Carry(s, 0, c)))
  }

  predicate ShortLines(t: string) {
    forall a :: 0 <= a <= |t| ==> LineEnd(t, a) - a <= 2 * MAXCOLS
  }

  // A line start beyond this line is no earlier than the next line.
  lemma NextStart(t: string, a: nat, b: nat)
    requires a < b <= |t| && IsLineStart(t, b)
    ensures LineEnd(t, a) < |t| && LineEnd(t, a) + 1 <= b
  {
    assert t[b - 1] == '\n';
  }

  lemma {:induction false} FlagInTwo(t: string, a: nat, c: bool, m: nat, b: nat)
    requires a <= m <= b <= |t| && IsLineStart(t, m) && IsLineStart(t, b)
    ensures Flag(t, a, c, b) == Flag(t, m, Flag(t, a, c, m), b)
    decreases |t| - a
  {
    hide Carry, Flag, LineAt, IsLineStart, Drawn;
    if a < m {
      var s := LineOf(t, a);
      NextStart(t, a, m);
      FlagStep(t, a, c, m);
      FlagStep(t, a, c, b);
      FlagInTwo(t, a + |s| + 1, Carry(Drawn(s), 0, c), m, b);
    } else {
      FlagHere(t, a, c);
    }
  }

  lemma FlagStep(t: string, a: nat, c: bool, b: nat)
    requires a < b <= |t| && LineEnd(t, a) < |t|
    ensures Flag(t, a, c, b) == Flag(t, LineEnd(t, a) + 1, Carry(Drawn(LineOf(t, a)), 0, c), b)
  {
    hide Carry, LineAt, Drawn;
  }

  lemma FlagHere(t: string, a: nat, c: bool)
    requires a <= |t|
    ensures Flag(t, a, c, a) == c
  {
  }

  lemma ScanHere(t: string, a: nat, st: Lex)
    ensures Scan(t, a, a, st) == st
  {
  }

  // ----- exactly which texts are tidy -----

  lemma {:induction false} UnclosedLiteral(t: string, ls: nat, s: string, i: nat, q: char)
    requires LineAt(t, ls, s) && i <= |s| && ls + |s| < |t| && !LiteralCloses(s, i, q) && q != '\n'
    ensures Scan(t, ls + i, ls + |s| + 1, Literal(q)) == Literal(q)
    decreases |s| - i
  {
    if i < |s| {
      LineChars(t, ls, s, i);
      if s[i] == '\\' {
        if i + 1 < |s| {
          UnclosedLiteral(t, ls, s, i + 2, q);
        }
      } else {
        UnclosedLiteral(t, ls, s, i + 1, q);
      }
    }
  }

  lemma {:induction false} UnclosedLine(t: string, ls: nat, s: string, i: nat, inC: bool)
    requires LineAt(t, ls, s) && i <= |s| && ls + |s| < |t| && !Closes(s, i, inC)
    ensures Scan(t, ls + i, ls + |s| + 1, LexOf(inC)).Literal?
    decreases |s| - i
  {
    if TokenAt(s, i, inC) == Quoted && !LiteralCloses(s, i + 1, s[i]) {
      LineChars(t, ls, s, i);
      UnclosedLiteral(t, ls, s, i + 1, s[i]);
    } else {
      TokenScan(t, ls, s, i, inC, ls + |s| + 1);
      hide Scan;
      UnclosedLine(t, ls, s, TokenEnd(s, i, inC), InAfter(TokenAt(s, i, inC)));
    }
  }

  // No line starts inside a literal.
  predicate OutsideLiterals(t: string, a: nat, st: Lex) {
    forall b :: a <= b <= |t| && IsLineStart(t, b) ==> !Scan(t, a, b, st).Literal?
  }

  // The literals close on their own lines exactly when no line of the file starts inside one.
  lemma {:induction false} TidyExactly(t: string, a: nat, c: bool)
    requires a <= |t| && IsLineStart(t, a)
    ensures Tidy(t, a, c) <==> OutsideLiterals(t, a, LexOf(c))
    decreases |t| - a
  {
    hide Scan, Closes, Carry;
    var s := LineOf(t, a);
    var next := a + |s| + 1;
    if a + |s| == |t| {
      forall b | a <= b <= |t| && IsLineStart(t, b)
        ensures !Scan(t, a, b, LexOf(c)).Literal?
      {
        ScanHere(t, a, LexOf(c));
      }
    } else if !Closes(s, 0, c) {
      UnclosedLine(t, a, s, 0, c);
      assert IsLineStart(t, next);
    } else {
      var c' := Carry(s, 0, c);
      TidyExactly(t, next, c');
      forall b | a <= b <= |t| && IsLineStart(t, b)
        ensures b == a || (next <= b && Scan(t, a, b, LexOf(c)) == Scan(t, next, b, LexOf(c')))
      {
        if b > a {
          NextStart(t, a, b);
          LineScan(t, a, s, 0, c, b);
        }
      }
      ScanHere(t, a, LexOf(c));
    }
  }

  // ----- exactly when the carried flag is right -----

  // A step of the scan within a line goes no further than the next line.
  lemma NextWithin(t: string, i: nat, st: Lex)
    requires i < |t| && LineEnd(t, i) < |t|
    ensures i < Next(t, i, st).0 <= LineEnd(t, i) + 1
    ensures Next(t, i, st).0 <= LineEnd(t, i) ==> LineEnd(t, Next(t, i, st).0) == LineEnd(t, i)
  {
    hide LineEnd;
    var j, e := Next(t, i, st).0, LineEnd(t, i);
    if i == e {
      assert t[i] == '\n';
    } else {
      assert t[i] != '\n' && (i + 1 < e ==> t[i + 1] != '\n');
    }
    if j <= e {
      var e' := LineEnd(t, j);
    }
  }

  // The scan passes through the start of the next line.
  lemma {:induction false} ThroughLine(t: string, i: nat, off: nat, st: Lex)
    requires i < |t| && LineEnd(t, i) < |t| && LineEnd(t, i) < off
    ensures var next := LineEnd(t, i) + 1;
            Scan(t, i, off, st) == Scan(t, next, off, Scan(t, i, next, st))
    decreases |t| - i
  {
    hide Next, LineEnd, Scan;
    var (j, st') := Next(t, i, st);
    var next := LineEnd(t, i) + 1;
    NextWithin(t, i, st);
    ScanStep(t, i, off, st);
    ScanStep(t, i, next, st);
    if j < next {
      ThroughLine(t, j, off, st');
    } else {
      ScanHere(t, next, st');
    }
  }

  lemma ScanStep(t: string, i: nat, off: nat, st: Lex)
    requires i < |t| && i < off
    ensures Scan(t, i, off, st) == Scan(t, Next(t, i, st).0, off, Next(t, i, st).1)
  {
    hide Next;
  }

  // What the scan is in where a line starts.
  function LexAt(t: string, a: nat): (st: Lex) {
    Scan(t, 0, a, Code)
  }

  lemma {:induction false} ThroughStarts(t: string, a: nat, m: nat, b: nat, st: Lex)
    requires a <= m <= b <= |t| && IsLineStart(t, m) && IsLineStart(t, b)
    ensures Scan(t, a, b, st) == Scan(t, m, b, Scan(t, a, m, st))
    decreases |t| - a
  {
    hide Scan, LineEnd, IsLineStart;
    if a == m {
      ScanHere(t, a, st);
    } else {
      NextStart(t, a, m);
      ThroughLine(t, a, b, st);
      ThroughLine(t, a, m, st);
      var next := LineEnd(t, a) + 1;
      ThroughStarts(t, next, m, b, Scan(t, a, next, st));
    }
  }

  // A literal that the scan is in was opened by a quote.
  lemma {:induction false} QuotesOpen(t: string, i: nat, off: nat, st: Lex)
    requires st.Literal? ==> st.quote == '"' || st.quote == '\''
    ensures var r := Scan(t, i, off, st); r.Literal? ==> r.quote == '"' || r.quote == '\''
    decreases |t| - i
  {
    if i < off && i < |t| {
      QuotesOpen(t, Next(t, i, st).0, off, Next(t, i, st).1);
    }
  }

  // A line that leaves a literal open carries nothing.
  lemma {:induction false} UnclosedCarries(s: string, i: nat, inC: bool)
    requires i <= |s| && !Closes(s, i, inC)
    ensures !Carry(s, i, inC)
    decreases |s| - i
  {
    if TokenAt(s, i, inC) == Quoted && !LiteralCloses(s, i + 1, s[i]) {
      UnclosedEnd(s, i + 1, s[i]);
    } else {
      UnclosedCarries(s, TokenEnd(s, i, inC), InAfter(TokenAt(s, i, inC)));
    }
  }

  lemma {:induction false} UnclosedEnd(s: string, i: nat, q: char)
    requires i <= |s| && !LiteralCloses(s, i, q) && q != '\\'
    ensures LiteralEnd(s, i, q) == |s|
    decreases |s| - i
  {
    if i < |s| {
      UnclosedEnd(s, if s[i] == '\\' && i + 1 < |s| then i + 2 else i + 1, q);
    }
  }

  // Whether the next line starts in a comment, as the line at hand and what it starts in say.
  function Leaves(s: string, st: Lex): (c: bool) {
    if st.Literal? then Carry(s, LiteralEnd(s, 0, st.quote), false) else Carry(s, 0, st == Comment)
  }

  lemma LeavesFrom(t: string, ls: nat, s: string, i: nat, inC: bool)
    requires LineAt(t, ls, s) && i <= |s| && ls + |s| < |t|
    ensures Scan(t, ls + i, ls + |s| + 1, LexOf(inC)) == Comment <==> Carry(s, i, inC)
  {
    hide Scan, Carry, Closes, LineAt;
    if Closes(s, i, inC) {
      LineScan(t, ls, s, i, inC, ls + |s| + 1);
      ScanHere(t, ls + |s| + 1, LexOf(Carry(s, i, inC)));
    } else {
      UnclosedLine(t, ls, s, i, inC);
      UnclosedCarries(s, i, inC);
    }
  }

  lemma LeavesLiteral(t: string, ls: nat, s: string, q: char)
    requires LineAt(t, ls, s) && ls + |s| < |t| && q != '\n' && q != '\\'
    ensures Scan(t, ls, ls + |s| + 1, Literal(q)) == Comment <==> Carry(s, LiteralEnd(s, 0, q), false)
  {
    hide Scan, Carry, LineAt, LiteralEnd, LiteralCloses;
    if LiteralCloses(s, 0, q) {
      LiteralScan(t, ls, s, 0, q, ls + |s| + 1);
      LeavesFrom(t, ls, s, LiteralEnd(s, 0, q), false);
    } else {
      UnclosedLiteral(t, ls, s, 0, q);
      UnclosedEnd(s, 0, q);
      AllPainted(s, false, false);
    }
  }

  // One line of the scan, from the start of the file.
  lemma LexStep(t: string, a: nat)
    requires a <= |t| && IsLineStart(t, a) && LineEnd(t, a) < |t|
    ensures InComment(t, LineEnd(t, a) + 1) == Leaves(LineOf(t, a), LexAt(t, a))
  {
    hide Scan, Carry, LineAt, LiteralEnd, LineEnd;
    var s, next := LineOf(t, a), LineEnd(t, a) + 1;
    assert IsLineStart(t, next);
    ThroughStarts(t, 0, a, next, Code);
    QuotesOpen(t, 0, a, Code);
    if LexAt(t, a).Literal? {
      LeavesLiteral(t, a, s, LexAt(t, a).quote);
    } else {
      LeavesFrom(t, a, s, 0, LexAt(t, a) == Comment);
    }
  }

  // Wherever the screen starts, the flag carried down it is the whole-file answer at every line.
  predicate FlagIsRight(t: string) {
    forall a, b :: 0 <= a <= b <= |t| && IsLineStart(t, a) && IsLineStart(t, b) ==>
      Flag(t, a, InComment(t, a), b) == InComment(t, b)
  }

  // A line to be wary of: it starts inside a literal, or is too long to be coloured whole.
  predicate Suspect(t: string, a: nat)
    requires a <= |t|
  {
    IsLineStart(t, a) && LineEnd(t, a) < |t| && (LexAt(t, a).Literal? || |LineOf(t, a)| > 2 * MAXCOLS)
  }

  // The part that is coloured, read as if no literal were open, opens and closes the same comments as
  // the whole line read from what it starts in.
  predicate Harmless(t: string, a: nat)
    requires a <= |t|
  {
    Carry(Drawn(LineOf(t, a)), 0, InComment(t, a)) == Leaves(LineOf(t, a), LexAt(t, a))
  }

  predicate AllHarmless(t: string) {
    forall a :: 0 <= a <= |t| && Suspect(t, a) ==> Harmless(t, a)
  }

  lemma FlagToNext(t: string, a: nat)
    requires a <= |t| && IsLineStart(t, a) && LineEnd(t, a) < |t|
    ensures Harmless(t, a) <==> Flag(t, a, InComment(t, a), LineEnd(t, a) + 1) == InComment(t, LineEnd(t, a) + 1)
    ensures !Suspect(t, a) ==> Harmless(t, a)
  {
    hide Carry, LineEnd, Flag, LexAt, InComment, Leaves;
    var next := LineEnd(t, a) + 1;
    FlagStep(t, a, InComment(t, a), next);
    FlagHere(t, next, Carry(Drawn(LineOf(t, a)), 0, InComment(t, a)));
    LexStep(t, a);
    NotLiteral(t, a);
  }

  lemma NotLiteral(t: string, a: nat)
    requires a <= |t|
    ensures !LexAt(t, a).Literal? ==> Leaves(LineOf(t, a), LexAt(t, a)) == Carry(LineOf(t, a), 0, InComment(t, a))
  {
    hide Scan, Carry;
  }

  // The carried flag is right at every line exactly when every suspect line is harmless.
  lemma CarriedFlagIsTheAnswer(t: string)
    ensures FlagIsRight(t) <==> AllHarmless(t)
  {
    hide Flag, InComment, Harmless, Suspect, IsLineStart, LineEnd;
    if FlagIsRight(t) {
      forall a | 0 <= a <= |t| && Suspect(t, a)
        ensures Harmless(t, a)
      {
        SuspectEnds(t, a);
        FlagToNext(t, a);
      }
    }
    if AllHarmless(t) {
      forall a, b | 0 <= a <= b <= |t| && IsLineStart(t, a) && IsLineStart(t, b)
        ensures Flag(t, a, InComment(t, a), b) == InComment(t, b)
      {
        FlagStaysRight(t, a, b);
      }
    }
  }

  lemma SuspectEnds(t: string, a: nat)
    requires a <= |t| && Suspect(t, a)
    ensures IsLineStart(t, a) && LineEnd(t, a) < |t| && IsLineStart(t, LineEnd(t, a) + 1)
  {
  }

  lemma {:induction false} FlagStaysRight(t: string, a: nat, b: nat)
    requires AllHarmless(t) && a <= b <= |t| && IsLineStart(t, a) && IsLineStart(t, b)
    ensures Flag(t, a, InComment(t, a), b) == InComment(t, b)
    decreases b - a
  {
    hide Flag, InComment, Harmless, Suspect, LineEnd;
    if a == b {
      FlagHere(t, a, InComment(t, a));
    } else {
      NextStart(t, a, b);
      var next := LineEnd(t, a) + 1;
      assert IsLineStart(t, next);
      FlagToNext(t, a);
      FlagInTwo(t, a, InComment(t, a), next, b);
      FlagStaysRight(t, next, b);
    }
  }

  // So it is when all literals close on their own lines and no line is too long.
  lemma TidyIsRight(t: string)
    requires Tidy(t, 0, false) && ShortLines(t)
    ensures FlagIsRight(t)
  {
    hide FlagIsRight, Tidy, Harmless, Scan;
    TidyExactly(t, 0, false);
    CarriedFlagIsTheAnswer(t);
  }

  // A quote left open: below it the scan is inside the literal, the colouring is not.
  lemma OpenQuoteMisleads()
    ensures Flag("\"\n/*\n", 0, false, 5) && !InComment("\"\n/*\n", 5)
  {
  }

  // ----- colours -----

  datatype Colour = PlainText | KeywordWord | TypeWord | StringText | NumberText | CommentText | Preproc

  const KEYWORDS: seq<string> := [
    "if", "else", "for", "while", "do", "switch", "case", "default", "break", "continue",
    "return", "goto", "sizeof", "typedef", "static", "extern", "const", "volatile",
    "inline", "register", "auto", "restrict", "_Bool"]

  const TYPES: seq<string> := [
    "int", "char", "void", "long", "short", "float", "double", "unsigned", "signed",
    "struct", "union", "enum", "size_t", "uint8_t", "uint16_t", "uint32_t", "uint64_t",
    "int8_t", "int16_t", "int32_t", "int64_t", "FILE", "bool"]

  // A line whose first character that is no blank is a number sign.
  predicate IsDirective(s: string) {
    if s == [] then false
    else if s[0] == ' ' || s[0] == '\t' then IsDirective(s[1..])
    else s[0] == '#'
  }

  function ColourAt(s: string, i: nat, inC: bool, pp: bool): (c: Colour)
    requires i < |s|
  {
    match TokenAt(s, i, inC)
    case Quoted => StringText
    case Number => NumberText
    case Word =>
      var w := s[i..RunEnd(s, i, false)];
      if w in KEYWORDS then KeywordWord else if w in TYPES then TypeWord else if pp then Preproc else PlainText
    case Other => if pp then Preproc else PlainText
    case _ => CommentText
  }

  // A colour for every cell from i on.
  function Painted(s: string, i: nat, inC: bool, pp: bool): (p: seq<Colour>)
    requires i <= |s|
    ensures |p| == |s| - i
    decreases |s| - i
  {
    if i == |s| then [] else
      var j := TokenEnd(s, i, inC);
      var c := ColourAt(s, i, inC, pp);
      seq(j - i, _ => c) + Painted(s, j, InAfter(TokenAt(s, i, inC)), pp)
  }

  method Fill(col: array<Colour>, i: nat, j: nat, c: Colour)
    requires i <= j <= col.Length
    modifies col
    ensures col[..i] == old(col[..i]) && col[i..j] == seq(j - i, _ => c)
    ensures forall m :: j <= m < col.Length ==> col[m] == old(col[m])
  {
    var k := i;
    while k < j
      invariant i <= k <= j
      invariant forall m :: i <= m < k ==> col[m] == c
      invariant forall m :: 0 <= m < i || k <= m < col.Length ==> col[m] == old(col[m])
    {
      col[k] := c;
      k := k + 1;
    }
  }

  lemma Joined(col: seq<Colour>, a: seq<Colour>, b: seq<Colour>, i: nat, j: nat)
    requires i <= j <= |col| && col[..i] == a && col[i..j] == b
    ensures col[..j] == a + b
  {
    assert col[..j] == col[..i] + col[i..j];
  }

  // highlight: every cell of the line is coloured, and the flag comes out as Carry says.
  method HighlightLine(s: string, inC: bool, col: array<Colour>) returns (carry: bool)
    requires |s| <= col.Length
    modifies col
    ensures col[..|s|] == Painted(s, 0, inC, IsDirective(s)) && carry == Carry(s, 0, inC)
    ensures col[|s|..] == old(col[|s|..])
  {
    hide Painted, Carry, IsDirective;
    var pp := IsDirective(s);
    ghost var all, end := Painted(s, 0, inC, pp), Carry(s, 0, inC);
    carry := inC;
    var i := 0;
    assert col[..0] + all == all;
    while i < |s|
      invariant 0 <= i <= |s|
      invariant col[..i] + Painted(s, i, carry, pp) == all && Carry(s, i, carry) == end
      invariant forall m :: |s| <= m < col.Length ==> col[m] == old(col[m])
    {
      i, carry := ColourToken(s, i, carry, pp, col);
    }
    AllPainted(s, carry, pp);
    assert col[..|s|] + [] == col[..|s|];
  }

  lemma AllPainted(s: string, carry: bool, pp: bool)
    ensures Painted(s, |s|, carry, pp) == [] && Carry(s, |s|, carry) == carry
  {
  }

  // One turn of the loop.
  method ColourToken(s: string, i: nat, inC: bool, pp: bool, col: array<Colour>) returns (j: nat, carry: bool)
    requires i < |s| <= col.Length
    modifies col
    ensures i < j <= |s| && Carry(s, i, inC) == Carry(s, j, carry)
    ensures col[..j] + Painted(s, j, carry, pp) == old(col[..i]) + Painted(s, i, inC, pp)
    ensures forall m :: |s| <= m < col.Length ==> col[m] == old(col[m])
  {
    hide ColourAt, TokenAt, TokenEnd;
    var c := ColourAt(s, i, inC, pp);
    j := TokenEnd(s, i, inC);
    carry := InAfter(TokenAt(s, i, inC));
    ghost var done, run, rest := col[..i], seq(j - i, _ => c), Painted(s, j, carry, pp);
    Fill(col, i, j, c);
    Joined(col[..], done, run, i, j);
    assert col[..][..j] == col[..j];
    assert done + (run + rest) == done + run + rest;
  }
}
