/**
 What the colours on the screen mean (userland/edit.c): a character has the colour of comments, or of
 strings, exactly when the lexer that reads the whole file is inside a comment, or a literal, there.
 */
module HighlightColours {
  import opened Highlight

  // What a character belongs to.
  datatype Part = OfComment | OfLiteral | OfCode

  // What the step of the whole-file scan from i on belongs to: its delimiters count as inside.
  function PartOf(t: string, i: nat, st: Lex): (r: Part)
    requires i < |t|
  {
    match st
    case Comment => OfComment
    case Literal(_) => OfLiteral
    case Code =>
      if Next(t, i, st).1.Literal? then OfLiteral
      else if t[i] == '/' && i + 1 < |t| && (t[i + 1] == '*' || t[i + 1] == '/') then OfComment
      else OfCode
  }

  // What the character at p belongs to, to a scan that stands at i.
  function PartAt(t: string, i: nat, st: Lex, p: nat): (r: Part)
    requires p < |t|
    decreases |t| - i
  {
    if i > p then OfCode else
      var (j, st') := Next(t, i, st);
      if p < j then PartOf(t, i, st) else PartAt(t, j, st', p)
  }

  lemma PartStep(t: string, i: nat, st: Lex, p: nat)
    requires i <= p < |t|
    ensures PartAt(t, i, st, p) == if p < Next(t, i, st).0 then PartOf(t, i, st) else PartAt(t, Next(t, i, st).0, Next(t, i, st).1, p)
  {
    hide Next, PartOf;
  }

  // ----- token by token -----

  lemma {:induction false} PlainParts(t: string, a: nat, b: nat, p: nat)
    requires a <= b <= |t| && a <= p < |t| && forall k :: a <= k < b ==> IsNumberPart(t[k])
    ensures PartAt(t, a, Code, p) == if p < b then OfCode else PartAt(t, b, Code, p)
    decreases b - a
  {
    hide PartAt;
    if a < b {
      assert IsNumberPart(t[a]);
      PartStep(t, a, Code, p);
      if p > a {
        PlainParts(t, a + 1, b, p);
      }
    }
  }

  lemma RunParts(t: string, ls: nat, s: string, i: nat, dots: bool, k: nat)
    requires LineAt(t, ls, s) && i <= k < |s|
    ensures ls + k < |t|
    ensures var j := RunEnd(s, i, dots);
            PartAt(t, ls + i, Code, ls + k) == if k < j then OfCode else PartAt(t, ls + j, Code, ls + k)
  {
    hide PartAt, RunEnd;
    var j := RunEnd(s, i, dots);
    forall m | ls + i <= m < ls + j
      ensures IsNumberPart(t[m])
    {
      LineChars(t, ls, s, m - ls);
      assert IsNumberPart(s[m - ls]);
    }
    PlainParts(t, ls + i, ls + j, ls + k);
  }

  lemma {:induction false} LiteralParts(t: string, ls: nat, s: string, i: nat, q: char, k: nat)
    requires LineAt(t, ls, s) && i <= k < |s| && q != '\\'
    ensures ls + k < |t|
    ensures var j := LiteralEnd(s, i, q);
            PartAt(t, ls + i, Literal(q), ls + k) == if k < j then OfLiteral else PartAt(t, ls + j, Code, ls + k)
    decreases |s| - i
  {
    hide PartAt, LineAt;
    LineChars(t, ls, s, i);
    InsideLine(t, ls, s, k);
    PartStep(t, ls + i, Literal(q), ls + k);
    var step := if s[i] == '\\' then 2 else 1;
    if k >= i + step && (step == 2 || s[i] != q) {
      LiteralParts(t, ls, s, i + step, q, k);
    } else if s[i] != q {
      LiteralBeyond(s, i, q);
    }
  }

  // A literal that does not close here takes this character, and the one it escapes.
  lemma LiteralBeyond(s: string, i: nat, q: char)
    requires i < |s| && s[i] != q && q != '\\'
    ensures LiteralEnd(s, i, q) > i && (s[i] == '\\' && i + 1 < |s| ==> LiteralEnd(s, i, q) > i + 1)
  {
  }

  // One turn of the colouring loop.
  lemma TokenParts(t: string, ls: nat, s: string, i: nat, inC: bool, k: nat)
    requires LineAt(t, ls, s) && i <= k < |s|
    ensures ls + k < |t|
    ensures var token, j := TokenAt(s, i, inC), TokenEnd(s, i, inC);
            PartAt(t, ls + i, LexOf(inC), ls + k) ==
            if k < j then PartOfToken(token) else PartAt(t, ls + j, LexOf(InAfter(token)), ls + k)
  {
    hide PartAt, LiteralEnd, LineAt, LineEnd, RunEnd;
    var token := TokenAt(s, i, inC);
    InsideLine(t, ls, s, k);
    if token == Number || token == Word {
      RunParts(t, ls, s, i, token == Number, k);
    } else {
      PartStep(t, ls + i, LexOf(inC), ls + k);
      PartOfFirst(t, ls, s, i, inC);
      NextToken(t, ls, s, i, inC);
      if token == Quoted && k > i {
        LiteralParts(t, ls, s, i + 1, s[i], k);
      }
    }
  }

  function PartOfToken(k: Token): (r: Part) {
    match k
    case BlockRest => OfComment
    case BlockEnd => OfComment
    case LineComment => OfComment
    case BlockStart => OfComment
    case Quoted => OfLiteral
    case _ => OfCode
  }

  lemma PartOfFirst(t: string, ls: nat, s: string, i: nat, inC: bool)
    requires LineAt(t, ls, s) && i < |s|
    ensures ls + i < |t| && PartOf(t, ls + i, LexOf(inC)) == PartOfToken(TokenAt(s, i, inC))
    ensures TokenAt(s, i, inC) == LineComment ==> Next(t, ls + i, LexOf(inC)).0 > ls + |s|
  {
    hide LineEnd;
    LineChars(t, ls, s, i);
    LineEndsAt(t, ls, s, i);
    if i + 1 < |s| {
      LineChars(t, ls, s, i + 1);
    }
  }

  // ----- the colours of a line -----

  predicate Agrees(c: Colour, r: Part) {
    && (c == CommentText <==> r == OfComment)
    && (c == StringText <==> r == OfLiteral)
  }

  lemma ColourAgrees(s: string, i: nat, inC: bool, pp: bool)
    requires i < |s|
    ensures Agrees(ColourAt(s, i, inC, pp), PartOfToken(TokenAt(s, i, inC)))
  {
    hide TokenAt, RunEnd;
  }

  lemma PaintedAt(s: string, i: nat, inC: bool, pp: bool, k: nat)
    requires i <= k < |s|
    ensures var j := TokenEnd(s, i, inC);
            Painted(s, i, inC, pp)[k - i] ==
            if k < j then ColourAt(s, i, inC, pp) else Painted(s, j, InAfter(TokenAt(s, i, inC)), pp)[k - j]
  {
    hide TokenAt, TokenEnd, ColourAt;
    var j := TokenEnd(s, i, inC);
    var run := seq(j - i, _ => ColourAt(s, i, inC, pp));
    assert Painted(s, i, inC, pp) == run + Painted(s, j, InAfter(TokenAt(s, i, inC)), pp);
  }

  // From any place in the line.
  lemma {:induction false} LineColours(t: string, ls: nat, s: string, i: nat, inC: bool, pp: bool, k: nat)
    requires LineAt(t, ls, s) && i <= k < |s|
    ensures ls + k < |t| && Agrees(Painted(s, i, inC, pp)[k - i], PartAt(t, ls + i, LexOf(inC), ls + k))
    decreases |s| - i
  {
    hide TokenAt, TokenEnd, ColourAt, PartAt, Painted, Agrees, LineAt;
    var j := TokenEnd(s, i, inC);
    PaintedAt(s, i, inC, pp, k);
    TokenParts(t, ls, s, i, inC, k);
    if k < j {
      ColourAgrees(s, i, inC, pp);
    } else {
      LineColours(t, ls, s, j, InAfter(TokenAt(s, i, inC)), pp, k);
    }
  }

  // ----- the colours of code -----

  // A number begins with a digit that no word character comes before, and goes on over word
  // characters and dots.
  predicate NumberFrom(s: string, i: nat, k: nat) {
    && i <= k < |s| && IsDigit(s[i]) && (i == 0 || !IsWord(s[i - 1]))
    && forall m :: i <= m <= k ==> IsNumberPart(s[m])
  }

  predicate InNumber(s: string, k: nat) {
    exists i: nat :: i <= k && NumberFrom(s, i, k)
  }

  // A word with no word character before or behind it.
  predicate WholeWord(s: string, a: nat, b: nat) {
    && a < b <= |s| && (forall m :: a <= m < b ==> IsWord(s[m]))
    && (a == 0 || !IsWord(s[a - 1])) && (b == |s| || !IsWord(s[b]))
  }

  function WordColour(w: string, pp: bool): (c: Colour) {
    if w in KEYWORDS then KeywordWord else if w in TYPES then TypeWord else if pp then Preproc else PlainText
  }

  // The colour of a character of code, by what stands around it.
  ghost predicate CodeColour(s: string, k: nat, pp: bool, c: Colour)
    requires k < |s|
  {
    if InNumber(s, k) then c == NumberText
    else if !IsWord(s[k]) then c == (if pp then Preproc else PlainText)
    else exists a: nat, b: nat :: a <= k < b && WholeWord(s, a, b) && c == WordColour(s[a..b], pp)
  }

  // Where a token of code may begin: not inside a word or a number.
  predicate Boundary(s: string, i: nat) {
    i <= |s| && (i == 0 || i == |s| || !IsNumberPart(s[i]) || (!InNumber(s, i - 1) && (!IsWord(s[i - 1]) || !IsWord(s[i]))))
  }

  lemma {:induction false} RunIsWhole(s: string, i: nat, dots: bool)
    requires i <= |s|
    ensures var j := RunEnd(s, i, dots);
            && (!dots ==> forall k :: i <= k < j ==> IsWord(s[k]))
            && (j < |s| ==> if dots then !IsNumberPart(s[j]) else !IsWord(s[j]))
    decreases |s| - i
  {
    if i < |s| && (if dots then IsNumberPart(s[i]) else IsWord(s[i])) {
      RunIsWhole(s, i + 1, dots);
    }
  }

  lemma {:induction false} LiteralIsWhole(s: string, i: nat, q: char)
    requires i <= |s|
    ensures var j := LiteralEnd(s, i, q); j == |s| || (j > 0 && s[j - 1] == q)
    decreases |s| - i
  {
    if i < |s| && (s[i] != q || (s[i] == '\\' && i + 1 < |s|)) {
      LiteralIsWhole(s, if s[i] == '\\' && i + 1 < |s| then i + 2 else i + 1, q);
    }
  }

  lemma NumberCells(s: string, i: nat, k: nat)
    requires i < |s| && TokenAt(s, i, false) == Number && i <= k < RunEnd(s, i, true)
    ensures InNumber(s, k)
  {
    hide RunEnd;
    assert NumberFrom(s, i, k);
  }

  // A word that begins at a boundary is no part of a number.
  lemma WordCells(s: string, i: nat, k: nat)
    requires i < |s| && TokenAt(s, i, false) == Word && Boundary(s, i) && i <= k < RunEnd(s, i, false)
    ensures !InNumber(s, k) && IsWord(s[k]) && WholeWord(s, i, RunEnd(s, i, false))
  {
    hide RunEnd, InNumber;
    RunIsWhole(s, i, false);
    NoNumber(s, i, k);
  }

  lemma NoNumber(s: string, i: nat, k: nat)
    requires i <= k < |s| && Boundary(s, i) && (i < k ==> forall m :: i <= m < k ==> IsWord(s[m]))
    requires !IsDigit(s[i]) || (i > 0 && IsWord(s[i - 1]))
    ensures !InNumber(s, k)
  {
    hide IsDigit;
    assert forall i': nat :: i' < i && NumberFrom(s, i', k) ==> NumberFrom(s, i', i - 1);
  }

  lemma OtherCell(s: string, i: nat)
    requires i < |s| && TokenAt(s, i, false) == Other && Boundary(s, i)
    ensures !InNumber(s, i) && !IsWord(s[i])
  {
    hide InNumber;
    NoNumber(s, i, i);
  }

  lemma NotInNumber(s: string, k: nat)
    requires k < |s| && !IsNumberPart(s[k])
    ensures !InNumber(s, k)
  {
  }

  // Where a token of code ends another may begin.
  lemma BoundaryStep(s: string, i: nat, inC: bool)
    requires i < |s| && (inC || Boundary(s, i))
    ensures var token, j := TokenAt(s, i, inC), TokenEnd(s, i, inC); InAfter(token) || Boundary(s, j)
  {
    hide RunEnd, LiteralEnd, InNumber;
    var token, j := TokenAt(s, i, inC), TokenEnd(s, i, inC);
    match token
    case Number => RunIsWhole(s, i, true);
    case Word =>
      RunIsWhole(s, i, false);
      WordCells(s, i, j - 1);
    case Other => OtherCell(s, i);
    case Quoted =>
      LiteralIsWhole(s, i + 1, s[i]);
      if j < |s| {
        NotInNumber(s, j - 1);
      }
    case BlockEnd => NotInNumber(s, j - 1);
    case _ =>
  }

  lemma TokenColour(s: string, i: nat, inC: bool, pp: bool, k: nat)
    requires i <= k < |s| && (inC || Boundary(s, i)) && k < TokenEnd(s, i, inC)
    requires PartOfToken(TokenAt(s, i, inC)) == OfCode
    ensures CodeColour(s, k, pp, ColourAt(s, i, inC, pp))
  {
    hide RunEnd, LiteralEnd, InNumber, Boundary, WholeWord;
    var token := TokenAt(s, i, inC);
    if token == Number {
      NumberCells(s, i, k);
    } else if token == Word {
      WordCells(s, i, k);
    } else {
      OtherCell(s, i);
    }
  }

  // Every character of code in a line has the colour of the number, the word or the mark it is part of.
  lemma {:induction false} CodeColours(t: string, ls: nat, s: string, i: nat, inC: bool, pp: bool, k: nat)
    requires LineAt(t, ls, s) && i <= k < |s| && (inC || Boundary(s, i))
    ensures ls + k < |t|
    ensures PartAt(t, ls + i, LexOf(inC), ls + k) == OfCode ==> CodeColour(s, k, pp, Painted(s, i, inC, pp)[k - i])
    decreases |s| - i
  {
    hide TokenAt, TokenEnd, ColourAt, PartAt, Painted, LineAt, PartOfToken, CodeColour, Boundary;
    var j := TokenEnd(s, i, inC);
    PaintedAt(s, i, inC, pp, k);
    TokenParts(t, ls, s, i, inC, k);
    if k >= j {
      BoundaryStep(s, i, inC);
      CodeColours(t, ls, s, j, InAfter(TokenAt(s, i, inC)), pp, k);
    } else if PartOfToken(TokenAt(s, i, inC)) == OfCode {
      TokenColour(s, i, inC, pp, k);
    }
  }

  // ----- where a literal ends -----

  // How many backslashes stand right before j, none of them before i.
  function Backslashes(s: string, i: nat, j: nat): (n: nat)
    requires i <= j <= |s|
  {
    if i < j && s[j - 1] == '\\' then 1 + Backslashes(s, i, j - 1) else 0
  }

  // A quote that ends the literal whose inside begins at i: one that is not escaped.
  predicate Ends(s: string, i: nat, q: char, j: nat) {
    i <= j < |s| && s[j] == q && Backslashes(s, i, j) % 2 == 0
  }

  lemma {:induction false} BackslashesFrom(s: string, i: nat, j: nat)
    requires i < |s| && (if s[i] == '\\' then i + 2 <= j else i < j) && j <= |s|
    ensures Backslashes(s, i, j) % 2 == Backslashes(s, if s[i] == '\\' then i + 2 else i + 1, j) % 2
    decreases j
  {
    var from := if s[i] == '\\' then i + 2 else i + 1;
    if j > from {
      if s[j - 1] == '\\' {
        BackslashesFrom(s, i, j - 1);
      }
    } else {
      assert s[i] == '\\' ==> Backslashes(s, i, i + 1) == 1 + Backslashes(s, i, i);
    }
  }

  lemma EndsFrom(s: string, i: nat, q: char, j: nat)
    requires i < |s| && q != '\\' && s[i] != q
    ensures var from := if s[i] == '\\' then i + 2 else i + 1;
            Ends(s, i, q, j) <==> Ends(s, from, q, j)
  {
    var from := if s[i] == '\\' then i + 2 else i + 1;
    if from <= j <= |s| {
      BackslashesFrom(s, i, j);
    } else if j == i + 1 <= |s| && s[i] == '\\' {
      assert Backslashes(s, i, j) == 1 + Backslashes(s, i, i);
    }
  }

  // A literal ends with the first quote of its kind that has an even number of backslashes before it,
  // and at the end of the line if there is none.
  lemma {:induction false} LiteralEndsAt(s: string, i: nat, q: char, j: nat)
    requires i <= j <= |s| && q != '\\'
    requires (j < |s| ==> Ends(s, i, q, j)) && forall m :: i <= m < j ==> !Ends(s, i, q, m)
    ensures LiteralEnd(s, i, q) == if j < |s| then j + 1 else |s|
    ensures LiteralCloses(s, i, q) <==> j < |s|
    decreases |s| - i
  {
    if i < |s| && s[i] == q {
      assert Ends(s, i, q, i);
    } else if i < |s| {
      var from := if s[i] == '\\' then i + 2 else i + 1;
      forall m: nat
        ensures Ends(s, i, q, m) <==> Ends(s, from, q, m)
      {
        EndsFrom(s, i, q, m);
      }
      if from <= |s| {
        LiteralEndsAt(s, from, q, j);
      }
    }
  }

  // ----- the whole screen -----

  // The scan from the start of the file passes through every start of a line.
  lemma {:induction false} PartsThrough(t: string, i: nat, st: Lex, a: nat, p: nat)
    requires i <= a <= p < |t| && IsLineStart(t, a)
    ensures PartAt(t, i, st, p) == PartAt(t, a, Scan(t, i, a, st), p)
    decreases |t| - i
  {
    hide PartAt, Scan, Next, LineEnd;
    if i < a {
      NextStart(t, i, a);
      NextWithin(t, i, st);
      PartStep(t, i, st, p);
      ScanStep(t, i, a, st);
      PartsThrough(t, Next(t, i, st).0, Next(t, i, st).1, a, p);
    } else {
      ScanHere(t, a, st);
    }
  }

  // The colour that the reading of the whole file asks for.
  ghost predicate RightColour(t: string, a: nat, s: string, k: nat, c: Colour)
    requires k < |s| && a + k < |t|
  {
    var part := PartAt(t, 0, Code, a + k);
    Agrees(c, part) && (part == OfCode ==> CodeColour(s, k, IsDirective(s), c))
  }

  // Every line that does not start inside a literal is coloured as the whole file is read.
  lemma ColoursAreRight(t: string, a: nat, k: nat)
    requires a <= |t| && IsLineStart(t, a) && k < |LineOf(t, a)| && !LexAt(t, a).Literal?
    ensures a + k < |t|
    ensures var s := LineOf(t, a);
            RightColour(t, a, s, k, Painted(s, 0, InComment(t, a), IsDirective(s))[k])
  {
    hide Painted, PartAt, Scan, Agrees, IsDirective, LineEnd, CodeColour;
    var s := LineOf(t, a);
    LineColours(t, a, s, 0, InComment(t, a), IsDirective(s), k);
    CodeColours(t, a, s, 0, InComment(t, a), IsDirective(s), k);
    PartsThrough(t, 0, Code, a, a + k);
  }

  // From whatever line the screen starts, with the flag carried down to it.
  lemma ScreenIsRight(t: string, top: nat, a: nat, k: nat)
    requires Tidy(t, 0, false) && ShortLines(t)
    requires top <= a <= |t| && IsLineStart(t, top) && IsLineStart(t, a) && k < |LineOf(t, a)|
    ensures a + k < |t|
    ensures var s := LineOf(t, a);
            RightColour(t, a, s, k, Painted(s, 0, Flag(t, top, InComment(t, top), a), IsDirective(s))[k])
  {
    hide Painted, PartAt, Scan, RightColour, IsDirective, LineEnd, Flag, Tidy, IsLineStart, ShortLines;
    TidyIsRight(t);
    assert IsLineStart(t, 0) by { StartsAtZero(t); }
    TidyExactly(t, 0, false);
    ColoursAreRight(t, a, k);
  }

  lemma StartsAtZero(t: string)
    ensures IsLineStart(t, 0)
  {
  }
}
