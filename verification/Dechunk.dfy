/**
 The dechunking walk (tools/chunkcheck.py) over a body in the chunked transfer coding of section
 7.1 of RFC 9112.
 */
module Dechunk {
  import opened Bytes

  type Data = seq<Byte>

  const LF := 10
  const CR := 13

  // ----- reading a size line -----

  predicate IsHex(b: Byte) {
    48 <= b <= 57 || 97 <= b <= 102 || 65 <= b <= 70
  }

  function HexDigit(b: Byte): (v: nat)
    requires IsHex(b)
    ensures v < 16
  {
    if 48 <= b <= 57 then b - 48 else if 97 <= b <= 102 then b - 97 + 10 else b - 65 + 10
  }

  // How many hexadecimal digits the line starts with, and the number they spell.
  function DigitCount(line: Data): (n: nat)
    ensures n <= |line| && forall k :: 0 <= k < n ==> IsHex(line[k])
    ensures n < |line| ==> !IsHex(line[n])
  {
    if line == [] || !IsHex(line[0]) then 0 else 1 + DigitCount(line[1..])
  }

  function HexValue(digits: Data): (v: nat)
    requires forall k :: 0 <= k < |digits| ==> IsHex(digits[k])
  {
    if digits == [] then 0 else 16 * HexValue(digits[..|digits| - 1]) + HexDigit(digits[|digits| - 1])
  }

  // The first line feed from i on, or the end.
  function FindLf(p: Data, i: nat): (j: nat)
    ensures i <= j && (j < |p| ==> p[j] == LF) && (i <= |p| ==> j <= |p|)
    ensures forall k :: i <= k < j && k < |p| ==> p[k] != LF
    decreases |p| - i
  {
    if i < |p| && p[i] != LF then FindLf(p, i + 1) else i
  }

  // ----- the walk -----

  datatype Stop =
    | NoLine        // ran out of bytes looking for the end of a size line
    | NoSize        // a size line that does not start with a digit
    | LastPiece     // the piece of size zero
    | Truncated     // a piece that goes past the end

  datatype Result = Result(joined: Data, pieces: nat, stop: Stop)

  // What one size line at i asks for: to stop, or to take some bytes.
  datatype Line = Ends(stop: Stop) | Piece(from: nat, size: nat)

  function LineAt(p: Data, i: nat): (l: Line)
    ensures l.Piece? ==> i < l.from && l.from + l.size <= |p| && l.size > 0
  {
    var e := FindLf(p, i);
    if e >= |p| then Ends(NoLine) else
      var line := p[i..e];
      var n := DigitCount(line);
      if n == 0 then Ends(NoSize) else
        var size := HexValue(line[..n]);
        if size == 0 then Ends(LastPiece)
        else if e + 1 + size > |p| then Ends(Truncated)
        else Piece(e + 1, size)
  }

  // After a piece, past the next line feed.
  function AfterPiece(p: Data, i: nat): (j: nat)
    ensures i < j
  {
    FindLf(p, i) + 1
  }

  function Walk(p: Data, i: nat): (r: Result)
    decreases |p| - i
  {
    match LineAt(p, i)
    case Ends(stop) => Result([], 0, stop)
    case Piece(from, size) =>
      var rest := Walk(p, AfterPiece(p, from + size));
      Result(p[from..from + size] + rest.joined, 1 + rest.pieces, rest.stop)
  }

  lemma WalkEnds(p: Data, i: nat)
    requires LineAt(p, i).Ends?
    ensures Walk(p, i) == Result([], 0, LineAt(p, i).stop)
  {
    hide LineAt;
  }

  lemma WalkPiece(p: Data, i: nat)
    requires LineAt(p, i).Piece?
    ensures var l := LineAt(p, i);
            var rest := Walk(p, AfterPiece(p, l.from + l.size));
            Walk(p, i) == Result(p[l.from..l.from + l.size] + rest.joined, 1 + rest.pieces, rest.stop)
  {
    hide LineAt, AfterPiece;
  }

  method SkipToLf(p: Data, i: nat) returns (j: nat)
    ensures j == FindLf(p, i)
  {
    j := i;
    while j < |p| && p[j] != LF
      invariant i <= j && FindLf(p, i) == FindLf(p, j)
    {
      j := j + 1;
    }
  }

  // One size line.
  method ReadLine(p: Data, start: nat) returns (l: Line)
    ensures l == LineAt(p, start)
  {
    hide HexValue, DigitCount, FindLf;
    var i := SkipToLf(p, start);
    if i >= |p| {
      return Ends(NoLine);
    }
    var size, digits := ReadSize(p[start..i]);
    if digits == 0 {
      return Ends(NoSize);
    }
    i := i + 1;
    if size == 0 {
      return Ends(LastPiece);
    }
    if i + size > |p| {
      return Ends(Truncated);
    }
    return Piece(i, size);
  }

  // The loop, for any input at all.
  method Join(p: Data) returns (joined: Data, pieces: nat, stop: Stop)
    ensures Result(joined, pieces, stop) == Walk(p, 0)
  {
    hide LineAt, FindLf, Walk;
    var i := 0;
    joined, pieces := [], 0;
    ghost var all := Walk(p, 0);
    assert [] + all.joined == all.joined;
    while true
      invariant all == Result(joined + Walk(p, i).joined, pieces + Walk(p, i).pieces, Walk(p, i).stop)
      decreases |p| - i
    {
      var l := ReadLine(p, i);
      if l.Ends? {
        WalkEnds(p, i);
        assert joined + [] == joined;
        return joined, pieces, l.stop;
      }
      WalkPiece(p, i);
      ghost var rest := Walk(p, AfterPiece(p, l.from + l.size)).joined;
      var piece := p[l.from..l.from + l.size];
      assert joined + (piece + rest) == joined + piece + rest;
      joined := joined + piece;
      pieces := pieces + 1;
      i := SkipToLf(p, l.from + l.size);
      i := i + 1;
    }
  }

  // The digits at the start of a line.
  method ReadSize(line: Data) returns (size: nat, digits: nat)
    ensures digits == DigitCount(line) && size == HexValue(line[..digits])
  {
    size, digits := 0, 0;
    assert line[0..] == line;
    while digits < |line| && IsHex(line[digits])
      invariant 0 <= digits <= |line| && DigitCount(line) == digits + DigitCount(line[digits..])
      invariant forall k :: 0 <= k < digits ==> IsHex(line[k])
      invariant size == HexValue(line[..digits])
    {
      assert line[..digits + 1][..digits] == line[..digits];
      assert line[digits..][1..] == line[digits + 1..];
      size := size * 16 + HexDigit(line[digits]);
      digits := digits + 1;
    }
  }

  // ----- a prefix of the stream gives a prefix of the body -----

  // Cut off anywhere, any stream at all: what was joined is the beginning of what would have been.
  lemma {:induction false} PrefixOfStream(p: Data, n: nat, i: nat)
    requires n <= |p|
    ensures Walk(p[..n], i).joined <= Walk(p, i).joined
    decreases |p| - i
  {
    hide LineAt, FindLf, Walk;
    var q := p[..n];
    LineInPrefix(p, n, i);
    match LineAt(q, i)
    case Ends(_) => WalkEnds(q, i);
    case Piece(from, size) =>
      WalkPiece(q, i);
      WalkPiece(p, i);
      assert q[from..from + size] == p[from..from + size];
      if FindLf(q, from + size) < n {
        PrefixOfStream(p, n, AfterPiece(p, from + size));
      } else {
        NothingLeft(q, AfterPiece(q, from + size));
      }
  }

  // A size line that is complete in the prefix, piece and all, is the same in the whole.
  lemma LineInPrefix(p: Data, n: nat, i: nat)
    requires n <= |p|
    ensures LineAt(p[..n], i).Piece? ==> LineAt(p, i) == LineAt(p[..n], i)
  {
    var q := p[..n];
    hide FindLf, DigitCount, HexValue;
    var e := FindLf(q, i);
    if e < n {
      assert q[i..e] == p[i..e];
    }
  }

  lemma NothingLeft(p: Data, i: nat)
    requires i >= |p|
    ensures Walk(p, i) == Result([], 0, NoLine)
  {
  }

  // ----- dechunking inverts chunking -----

  // One chunk as section 7.1 of RFC 9112 lays it out: the size in digits of either case, leading
  // zeros allowed, an extension that no digit starts and no line feed is in, CRLF, the data, CRLF.
  datatype Chunk = Chunk(digits: Data, extension: Data, data: Data)

  predicate LineFeedFree(b: Data) {
    forall k :: 0 <= k < |b| ==> b[k] != LF
  }

  predicate SizeLine(digits: Data, extension: Data, size: nat) {
    && digits != [] && (forall k :: 0 <= k < |digits| ==> IsHex(digits[k])) && HexValue(digits) == size
    && LineFeedFree(extension) && (extension != [] ==> !IsHex(extension[0]))
  }

  predicate WellFormed(c: Chunk) {
    c.data != [] && SizeLine(c.digits, c.extension, |c.data|)
  }

  function Header(digits: Data, extension: Data): (b: Data) {
    digits + extension + [CR, LF]
  }

  function Coded(c: Chunk): (b: Data) {
    Header(c.digits, c.extension) + c.data + [CR, LF]
  }

  function CodedAll(cs: seq<Chunk>): (b: Data) {
    if cs == [] then [] else Coded(cs[0]) + CodedAll(cs[1..])
  }

  function Body(cs: seq<Chunk>): (b: Data) {
    if cs == [] then [] else cs[0].data + Body(cs[1..])
  }

  lemma {:induction false} DigitsRead(digits: Data, rest: Data)
    requires forall k :: 0 <= k < |digits| ==> IsHex(digits[k])
    requires rest != [] ==> !IsHex(rest[0])
    ensures DigitCount(digits + rest) == |digits|
    decreases |digits|
  {
    if digits == [] {
      assert digits + rest == rest;
    } else {
      assert (digits + rest)[1..] == digits[1..] + rest;
      DigitsRead(digits[1..], rest);
    }
  }

  // A header with anything before and after it is read as the size it says.
  lemma HeaderRead(before: Data, digits: Data, extension: Data, size: nat, after: Data)
    requires SizeLine(digits, extension, size)
    ensures var p := before + Header(digits, extension) + after;
            var from := |before| + |Header(digits, extension)|;
            LineAt(p, |before|) == if size == 0 then Ends(LastPiece) else if size > |after| then Ends(Truncated) else Piece(from, size)
  {
    var h := Header(digits, extension);
    var p := before + h + after;
    var e := |before| + |h| - 1;
    assert p[e] == h[|h| - 1] == LF;
    forall k | |before| <= k < e
      ensures p[k] != LF
    {
      assert p[k] == h[k - |before|];
    }
    var line := extension + [CR];
    assert p[|before|..e] == digits + line;
    DigitsRead(digits, line);
    assert (digits + line)[..|digits|] == digits;
    hide FindLf, HexValue, DigitCount, IsHex;
  }

  // The walk over one chunk, wherever it stands.
  lemma OneChunk(before: Data, c: Chunk, more: Data)
    requires WellFormed(c)
    ensures var p := before + Coded(c) + more;
            var rest := Walk(p, |before + Coded(c)|);
            Walk(p, |before|) == Result(c.data + rest.joined, 1 + rest.pieces, rest.stop)
  {
    hide LineAt, FindLf, Header, SizeLine;
    var p := before + Coded(c) + more;
    var h := Header(c.digits, c.extension);
    var tail := c.data + ([CR, LF] + more);
    assert p == before + h + tail;
    HeaderRead(before, c.digits, c.extension, |c.data|, tail);
    var from := |before| + |h|;
    var at := from + |c.data|;
    assert p[from..at] == c.data;
    assert p[at] == CR && p[at + 1] == LF;
  }

  // What any sender may send, followed by the last chunk, comes back as the body that was sent.
  lemma {:induction false} DechunkingInverts(before: Data, cs: seq<Chunk>, zeros: Data, extension: Data, after: Data)
    requires (forall k :: 0 <= k < |cs| ==> WellFormed(cs[k])) && SizeLine(zeros, extension, 0)
    ensures Walk(before + CodedAll(cs) + (Header(zeros, extension) + after), |before|) == Result(Body(cs), |cs|, LastPiece)
    decreases |cs|
  {
    hide LineAt, FindLf, Header, Coded, SizeLine, WellFormed;
    var end := Header(zeros, extension) + after;
    if cs == [] {
      assert before + [] + end == before + Header(zeros, extension) + after;
      HeaderRead(before, zeros, extension, 0, after);
    } else {
      hide Walk;
      var c, rest := cs[0], CodedAll(cs[1..]);
      assert before + (Coded(c) + rest) + end == before + Coded(c) + (rest + end) == (before + Coded(c)) + rest + end;
      OneChunk(before, c, rest + end);
      DechunkingInverts(before + Coded(c), cs[1..], zeros, extension, after);
    }
  }

  // Every size has a line that says it, in small letters or in capitals.
  function Hex(n: nat, capitals: bool): (digits: Data)
    ensures digits != [] && forall k :: 0 <= k < |digits| ==> IsHex(digits[k])
    decreases n
  {
    var d := n % 16;
    var b: Byte := if d < 10 then 48 + d else if capitals then 55 + d else 87 + d;
    if n < 16 then [b] else Hex(n / 16, capitals) + [b]
  }

  lemma {:induction false} HexSpells(n: nat, capitals: bool)
    ensures HexValue(Hex(n, capitals)) == n
    decreases n
  {
    var digits := Hex(n, capitals);
    if n < 16 {
      assert digits[..0] == [];
    } else {
      HexSpells(n / 16, capitals);
      assert digits[..|digits| - 1] == Hex(n / 16, capitals);
    }
  }
}
