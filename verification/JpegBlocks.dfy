/**
 The blocks of a baseline JPEG scan (userland/img.h): DC differences, run-length coded AC
 coefficients in zig-zag order, dequantised into natural order.  The coder is the one of sections
 F.1.2.1 and F.1.2.2 of ITU-T T.81; decoding what it wrote gives the coefficients back.
 */
module JpegBlocks {
  import opened Bytes
  import opened JpegBits
  import opened JpegHuffman

  function Pick(i: nat, a: nat, b: nat, c: nat, d: nat, e: nat, f: nat, g: nat, h: nat): (r: nat)
    requires i < 8
  {
    if i == 0 then a else if i == 1 then b else if i == 2 then c else if i == 3 then d
    else if i == 4 then e else if i == 5 then f else if i == 6 then g else h
  }

  // Natural position of the k-th coefficient in zig-zag order.
  function Jz(k: nat): (r: nat)
    requires k < 64
  {
    var i := k % 8;
    match k / 8
    case 0 => Pick(i, 0, 1, 8, 16, 9, 2, 3, 10)
    case 1 => Pick(i, 17, 24, 32, 25, 18, 11, 4, 5)
    case 2 => Pick(i, 12, 19, 26, 33, 40, 48, 41, 34)
    case 3 => Pick(i, 27, 20, 13, 6, 7, 14, 21, 28)
    case 4 => Pick(i, 35, 42, 49, 56, 57, 50, 43, 36)
    case 5 => Pick(i, 29, 22, 15, 23, 30, 37, 44, 51)
    case 6 => Pick(i, 58, 59, 52, 45, 38, 31, 39, 46)
    case _ => Pick(i, 53, 60, 61, 54, 47, 55, 62, 63)
  }

  // The other way round.
  function UnJz(k: nat): (r: nat)
    requires k < 64
  {
    var i := k % 8;
    match k / 8
    case 0 => Pick(i, 0, 1, 5, 6, 14, 15, 27, 28)
    case 1 => Pick(i, 2, 4, 7, 13, 16, 26, 29, 42)
    case 2 => Pick(i, 3, 8, 12, 17, 25, 30, 41, 43)
    case 3 => Pick(i, 9, 11, 18, 24, 31, 40, 44, 53)
    case 4 => Pick(i, 10, 19, 23, 32, 39, 45, 52, 54)
    case 5 => Pick(i, 20, 22, 33, 38, 46, 51, 55, 60)
    case 6 => Pick(i, 21, 34, 37, 47, 50, 56, 59, 61)
    case _ => Pick(i, 35, 36, 48, 49, 57, 58, 62, 63)
  }

  lemma JzInverse(k: nat)
    requires k < 64
    ensures Jz(k) < 64 && UnJz(Jz(k)) == k
  {
    if k < 8 {
    } else if k < 16 {
    } else if k < 24 {
    } else if k < 32 {
    } else if k < 40 {
    } else if k < 48 {
    } else if k < 56 {
    } else {
    }
  }

  lemma JzInjective(i: nat, k: nat)
    requires i < 64 && k < 64
    ensures Jz(i) < 64 && Jz(k) < 64 && (Jz(i) == Jz(k) ==> i == k)
  {
    hide Jz, UnJz;
    JzInverse(i);
    JzInverse(k);
  }

  // Figure A.6 of ITU-T T.81, as steps from row r and column c, eight places to a row: along the
  // diagonals, up and to the right on the even ones and down and to the left on the odd ones, and
  // one place along the edge where a diagonal ends.
  function Next(p: nat): (q: int) {
    var r, c := p / 8, p % 8;
    if (r + c) % 2 == 0 then (if c == 7 then p + 8 else if r == 0 then p + 1 else p - 7)
    else if r == 7 then p + 1 else if c == 0 then p + 8 else p + 7
  }

  lemma Steps0()
    ensures Next(0) == 1 && Next(1) == 8 && Next(8) == 16 && Next(16) == 9
    ensures Next(9) == 2 && Next(2) == 3 && Next(3) == 10 && Next(10) == 17
  {
  }

  lemma Steps1()
    ensures Next(17) == 24 && Next(24) == 32 && Next(32) == 25 && Next(25) == 18
    ensures Next(18) == 11 && Next(11) == 4 && Next(4) == 5 && Next(5) == 12
  {
  }

  lemma Steps2()
    ensures Next(12) == 19 && Next(19) == 26 && Next(26) == 33 && Next(33) == 40
    ensures Next(40) == 48 && Next(48) == 41 && Next(41) == 34 && Next(34) == 27
  {
  }

  lemma Steps3()
    ensures Next(27) == 20 && Next(20) == 13 && Next(13) == 6 && Next(6) == 7
    ensures Next(7) == 14 && Next(14) == 21 && Next(21) == 28 && Next(28) == 35
  {
  }

  lemma Steps4()
    ensures Next(35) == 42 && Next(42) == 49 && Next(49) == 56 && Next(56) == 57
    ensures Next(57) == 50 && Next(50) == 43 && Next(43) == 36 && Next(36) == 29
  {
  }

  lemma Steps5()
    ensures Next(29) == 22 && Next(22) == 15 && Next(15) == 23 && Next(23) == 30
    ensures Next(30) == 37 && Next(37) == 44 && Next(44) == 51 && Next(51) == 58
  {
  }

  lemma Steps6()
    ensures Next(58) == 59 && Next(59) == 52 && Next(52) == 45 && Next(45) == 38
    ensures Next(38) == 31 && Next(31) == 39 && Next(39) == 46 && Next(46) == 53
  {
  }

  lemma Steps7()
    ensures Next(53) == 60 && Next(60) == 61 && Next(61) == 54 && Next(54) == 47
    ensures Next(47) == 55 && Next(55) == 62 && Next(62) == 63
  {
  }

  // The table is that walk, from the top left corner on.
  lemma JzWalks(k: nat)
    requires k < 63
    ensures Jz(0) == 0 && Jz(k + 1) == Next(Jz(k))
  {
    hide Next;
    Steps0();
    Steps1();
    Steps2();
    Steps3();
    Steps4();
    Steps5();
    Steps6();
    Steps7();
    if k < 8 {
    } else if k < 16 {
    } else if k < 24 {
    } else if k < 32 {
    } else if k < 40 {
    } else if k < 48 {
    } else if k < 56 {
    } else {
    }
  }

  // ----- signed values -----

  // How many bits a value takes: the least n with |v| < 2^n.
  function Bits(a: nat): (n: nat) {
    if a == 0 then 0 else 1 + Bits(a / 2)
  }

  function Category(v: int): (n: nat) {
    Bits(if v < 0 then -v else v)
  }

  // A negative value is written as the value less one, in that many bits.
  function Magnitude(v: int): (m: nat) {
    BitsBound(if v < 0 then -v else v);
    if v < 0 then v - 1 + Pow2(Category(v)) else v
  }

  // jb_extend
  function Extend(v: int, n: nat): (r: int) {
    if n > 0 && v < Pow2(n - 1) then v - Pow2(n) + 1 else v
  }

  lemma {:induction false} BitsBound(a: nat)
    ensures a < Pow2(Bits(a)) && (a > 0 ==> Pow2(Bits(a) - 1) <= a)
  {
    if a > 0 {
      BitsBound(a / 2);
      if a / 2 > 0 {
        assert Pow2(Bits(a) - 1) == 2 * Pow2(Bits(a / 2) - 1);
      } else {
        assert Bits(a) == 1 + Bits(0) == 1 && Pow2(0) == 1;
      }
    }
  }

  lemma ExtendMagnitude(v: int)
    ensures Magnitude(v) < Pow2(Category(v))
    ensures Extend(Magnitude(v), Category(v)) == v
  {
    BitsBound(if v < 0 then -v else v);
  }

  lemma ReadsMagnitude(v: int, rest: seq<Bit>)
    ensures var c := Category(v);
            var bits := BitsOf(Magnitude(v), c) + rest;
            Extend(Value(bits, c), c) == v && Drop(bits, c) == rest
  {
    ExtendMagnitude(v);
    hide Magnitude, Category, Extend, BitsOf, Value, Pow2;
    var c := Category(v);
    ValueOfAllBits(Magnitude(v), c);
    ValuePrefix(BitsOf(Magnitude(v), c), rest, c);
    DropPrefix(BitsOf(Magnitude(v), c), rest);
  }

  // ----- symbols -----

  function IndexOf(s: seq<Byte>, x: int): (k: nat)
    requires x in s
    ensures k < |s| && s[k] == x
  {
    if s[0] == x then 0 else 1 + IndexOf(s[1..], x)
  }

  function SymbolBits(t: Table, sym: int): (bits: seq<Bit>) {
    if sym in t.vals then CodeBits(t, IndexOf(t.vals, sym)) else []
  }

  lemma ReadsSymbol(t: Table, sym: int, rest: seq<Bit>)
    requires Usable(t) && sym in t.vals
    ensures Symbol(SymbolBits(t, sym) + rest, t) == sym
    ensures AfterSymbol(SymbolBits(t, sym) + rest, t) == rest
  {
    DecodesItsCode(t, IndexOf(t.vals, sym), rest);
  }

  // ----- the coder -----

  type Zigzag = z: seq<int> | |z| == 64 witness seq(64, _ => 0)
  type Quant = q: seq<int> | |q| == 64 witness seq(64, _ => 1)

  function ZeroRun(z: Zigzag, k: nat): (r: nat)
    requires k <= 64
    ensures k + r <= 64 && (forall i :: k <= i < k + r ==> z[i] == 0) && (k + r < 64 ==> z[k + r] != 0)
    decreases 64 - k
  {
    if k == 64 || z[k] != 0 then 0 else 1 + ZeroRun(z, k + 1)
  }

  const EOB := 0x00
  const ZRL := 0xF0

  // The table has a code for every symbol the coefficients from k on need.
  predicate AcCodable(t: Table, z: Zigzag, k: nat)
    decreases 64 - k
  {
    k >= 64 ||
    var r := ZeroRun(z, k);
    if k + r == 64 then EOB in t.vals
    else if r >= 16 then ZRL in t.vals && AcCodable(t, z, k + 16)
    else
      var c := Category(z[k + r]);
      c <= 15 && 16 * r + c in t.vals && AcCodable(t, z, k + r + 1)
  }

  function AcBits(t: Table, z: Zigzag, k: nat): (bits: seq<Bit>)
    decreases 64 - k
  {
    if k >= 64 then [] else
      var r := ZeroRun(z, k);
      if k + r == 64 then SymbolBits(t, EOB)
      else if r >= 16 then SymbolBits(t, ZRL) + AcBits(t, z, k + 16)
      else
        var v := z[k + r];
        var c := Category(v);
        SymbolBits(t, 16 * r + c) + (BitsOf(Magnitude(v), c) + AcBits(t, z, k + r + 1))
  }

  function DcBits(t: Table, diff: int): (bits: seq<Bit>) {
    var c := Category(diff);
    SymbolBits(t, c) + BitsOf(Magnitude(diff), c)
  }

  // ----- the decoder, as functions of the bits -----

  datatype Read<T> = Read(value: T, rest: seq<Bit>)

  function ReadDiff(bits: seq<Bit>, t: Table): (r: Read<int>) {
    var c := Symbol(bits, t);
    var rest := AfterSymbol(bits, t);
    if c > 0 then Read(Extend(Value(rest, c), c), Drop(rest, c)) else Read(0, rest)
  }

  function Stored(blk: seq<int>, k: nat, v: int): (r: seq<int>)
    requires |blk| == 64 && k < 64
    ensures |r| == 64
  {
    JzInverse(k);
    blk[Jz(k) := v]
  }

  function ReadAc(bits: seq<Bit>, t: Table, q: Quant, blk: seq<int>, k: nat): (r: Read<seq<int>>)
    requires |blk| == 64
    ensures |r.value| == 64
    decreases 64 - k
  {
    if k >= 64 then Read(blk, bits) else
      var rs := Symbol(bits, t);
      var rest := AfterSymbol(bits, t);
      var s, r := rs % 16, rs / 16;
      if s == 0 then
        if r != 15 then Read(blk, rest) else ReadAc(rest, t, q, blk, k + 16)
      else if k + r > 63 then Read(blk, rest)
      else
        ReadAc(Drop(rest, s), t, q, Stored(blk, k + r, Extend(Value(rest, s), s) * q[k + r]), k + r + 1)
  }

  datatype Component = Component(dc: Table, ac: Table, q: Quant)

  ghost predicate UsableBoth(c: Component) {
    Usable(c.dc) && Usable(c.ac)
  }

  // A block with nothing but its first coefficient.
  function DcOnly(v: int): (blk: seq<int>)
    ensures |blk| == 64
  {
    seq(64, _ => 0)[0 := v]
  }

  // A block, and the DC coefficient that the next one of the component is predicted from.
  function ReadBlock(bits: seq<Bit>, c: Component, pred: int): (r: Read<(seq<int>, int)>) {
    var d := ReadDiff(bits, c.dc);
    var now := pred + d.value;
    var a := ReadAc(d.rest, c.ac, c.q, DcOnly(now * c.q[0]), 1);
    Read((a.value, now), a.rest)
  }

  // ----- decoding inverts coding -----

  // Each coefficient, times its quantiser, at its natural position.
  predicate Dequantised(blk: seq<int>, z: Zigzag, q: Quant) {
    |blk| == 64 && forall k :: 0 <= k < 64 ==> Jz(k) < 64 && blk[Jz(k)] == z[k] * q[k]
  }

  // Done below k, empty from k on.
  predicate DequantisedTo(blk: seq<int>, z: Zigzag, q: Quant, k: nat) {
    |blk| == 64 && forall i :: 0 <= i < 64 ==> Jz(i) < 64 && blk[Jz(i)] == if i < k then z[i] * q[i] else 0
  }

  lemma StoreCoefficient(blk: seq<int>, z: Zigzag, q: Quant, k: nat, at: nat)
    requires k <= at < 64 && DequantisedTo(blk, z, q, k)
    requires forall i :: k <= i < at ==> z[i] == 0
    ensures DequantisedTo(Stored(blk, at, z[at] * q[at]), z, q, at + 1)
  {
    hide Jz;
    JzInverse(at);
    var now := Stored(blk, at, z[at] * q[at]);
    forall i | 0 <= i < 64
      ensures Jz(i) < 64 && now[Jz(i)] == if i < at + 1 then z[i] * q[i] else 0
    {
      JzInjective(i, at);
      assert blk[Jz(i)] == if i < k then z[i] * q[i] else 0;
      if k <= i < at {
        assert z[i] == 0;
      }
    }
  }

  lemma SkipZeros(blk: seq<int>, z: Zigzag, q: Quant, k: nat, to: nat)
    requires k <= to <= 64 && DequantisedTo(blk, z, q, k)
    requires forall i :: k <= i < to ==> z[i] == 0
    ensures DequantisedTo(blk, z, q, to)
  {
    hide Jz;
    forall i | 0 <= i < 64
      ensures Jz(i) < 64 && blk[Jz(i)] == if i < to then z[i] * q[i] else 0
    {
      assert blk[Jz(i)] == if i < k then z[i] * q[i] else 0;
      if k <= i < to {
        assert z[i] == 0;
      }
    }
  }

  // Reading what was written for the coefficients from k on fills them in and leaves the rest.
  lemma {:induction false} ReadsAc(t: Table, q: Quant, z: Zigzag, k: nat, blk: seq<int>, rest: seq<Bit>)
    requires Usable(t) && 1 <= k <= 64 && AcCodable(t, z, k) && |blk| == 64 && DequantisedTo(blk, z, q, k)
    ensures var r := ReadAc(AcBits(t, z, k) + rest, t, q, blk, k);
            r.rest == rest && DequantisedTo(r.value, z, q, 64)
    decreases 64 - k
  {
    hide DequantisedTo, Stored, ZeroRun, Usable, ReadAc, AcBits, AcCodable;
    if k == 64 {
      ReadsNoMore(t, q, z, blk, rest);
    } else {
      var r := ZeroRun(z, k);
      if k + r == 64 {
        ReadsEnd(t, q, z, k, blk, rest);
        SkipZeros(blk, z, q, k, 64);
      } else if r >= 16 {
        ReadsZeros(t, q, z, k, blk, rest);
        SkipZeros(blk, z, q, k, k + 16);
        ReadsAc(t, q, z, k + 16, blk, rest);
      } else {
        ReadsCoefficient(t, q, z, k, r, blk, rest);
        StoreCoefficient(blk, z, q, k, k + r);
        ReadsAc(t, q, z, k + r + 1, Stored(blk, k + r, z[k + r] * q[k + r]), rest);
      }
    }
  }

  lemma ReadsNoMore(t: Table, q: Quant, z: Zigzag, blk: seq<int>, rest: seq<Bit>)
    requires |blk| == 64
    ensures ReadAc(AcBits(t, z, 64) + rest, t, q, blk, 64) == Read(blk, rest)
  {
    assert AcBits(t, z, 64) + rest == rest;
  }

  // Nothing but zeros: the end of the block.
  lemma ReadsEnd(t: Table, q: Quant, z: Zigzag, k: nat, blk: seq<int>, rest: seq<Bit>)
    requires Usable(t) && k < 64 && AcCodable(t, z, k) && |blk| == 64 && k + ZeroRun(z, k) == 64
    ensures ReadAc(AcBits(t, z, k) + rest, t, q, blk, k) == Read(blk, rest)
  {
    hide Symbol, AfterSymbol, SymbolBits, ZeroRun, Stored, Extend, Value, Drop, Usable;
    ReadsSymbol(t, EOB, rest);
  }

  // Sixteen zeros at once.
  lemma ReadsZeros(t: Table, q: Quant, z: Zigzag, k: nat, blk: seq<int>, rest: seq<Bit>)
    requires Usable(t) && k < 64 && AcCodable(t, z, k) && |blk| == 64 && ZeroRun(z, k) >= 16 && k + ZeroRun(z, k) < 64
    ensures AcCodable(t, z, k + 16)
    ensures ReadAc(AcBits(t, z, k) + rest, t, q, blk, k) == ReadAc(AcBits(t, z, k + 16) + rest, t, q, blk, k + 16)
  {
    hide Symbol, AfterSymbol, SymbolBits, ZeroRun, Stored, Extend, Value, Drop, Usable, Magnitude, BitsOf, Category;
    var more := AcBits(t, z, k + 16);
    assert AcBits(t, z, k) + rest == SymbolBits(t, ZRL) + (more + rest);
    ReadsSymbol(t, ZRL, more + rest);
  }

  lemma AcBitsAt(t: Table, z: Zigzag, k: nat, r: nat)
    requires k < 64 && AcCodable(t, z, k) && r == ZeroRun(z, k) < 16 && k + r < 64
    ensures var v := z[k + r];
            var c := Category(v);
            && 0 < c <= 15 && 16 * r + c in t.vals && AcCodable(t, z, k + r + 1)
            && AcBits(t, z, k) == SymbolBits(t, 16 * r + c) + (BitsOf(Magnitude(v), c) + AcBits(t, z, k + r + 1))
  {
    hide SymbolBits, Magnitude, BitsOf, Category;
    CategoryPositive(z[k + r]);
  }

  lemma ReadAcAt(bits: seq<Bit>, t: Table, q: Quant, blk: seq<int>, k: nat, r: nat, c: nat)
    requires |blk| == 64 && k + r < 64 && 0 < c < 16 && Symbol(bits, t) == 16 * r + c
    ensures var rest := AfterSymbol(bits, t);
            ReadAc(bits, t, q, blk, k)
            == ReadAc(Drop(rest, c), t, q, Stored(blk, k + r, Extend(Value(rest, c), c) * q[k + r]), k + r + 1)
  {
    hide Symbol, AfterSymbol, Stored, Extend, Value, Drop;
    SplitSymbol(r, c);
  }

  lemma ReadsCoefficient(t: Table, q: Quant, z: Zigzag, k: nat, r: nat, blk: seq<int>, rest: seq<Bit>)
    requires Usable(t) && k < 64 && AcCodable(t, z, k) && |blk| == 64
    requires r == ZeroRun(z, k) < 16 && k + r < 64
    ensures AcCodable(t, z, k + r + 1)
    ensures ReadAc(AcBits(t, z, k) + rest, t, q, blk, k)
         == ReadAc(AcBits(t, z, k + r + 1) + rest, t, q, Stored(blk, k + r, z[k + r] * q[k + r]), k + r + 1)
  {
    hide *;
    var v := z[k + r];
    var c := Category(v);
    var more := AcBits(t, z, k + r + 1);
    var code, bits := SymbolBits(t, 16 * r + c), BitsOf(Magnitude(v), c);
    AcBitsAt(t, z, k, r);
    assert code + (bits + more) + rest == code + (bits + (more + rest));
    ReadsSymbol(t, 16 * r + c, bits + (more + rest));
    ReadsMagnitude(v, more + rest);
    ReadAcAt(AcBits(t, z, k) + rest, t, q, blk, k, r, c);
  }

  lemma CategoryPositive(v: int)
    requires v != 0
    ensures Category(v) > 0
  {
  }

  lemma SplitSymbol(r: nat, c: nat)
    requires c < 16
    ensures (16 * r + c) % 16 == c && (16 * r + c) / 16 == r
  {
  }

  lemma ReadsDiff(t: Table, diff: int, rest: seq<Bit>)
    requires Usable(t) && Category(diff) in t.vals
    ensures ReadDiff(DcBits(t, diff) + rest, t) == Read(diff, rest)
  {
    var c := Category(diff);
    ExtendMagnitude(diff);
    var tail := BitsOf(Magnitude(diff), c) + rest;
    assert DcBits(t, diff) + rest == SymbolBits(t, c) + tail;
    ReadsSymbol(t, c, tail);
    ReadsMagnitude(diff, rest);
    if c == 0 {
      assert tail == rest;
    }
  }

  // ----- whole blocks, and the blocks of a whole scan -----

  predicate BlockCodable(c: Component, pred: int, z: Zigzag) {
    Category(z[0] - pred) in c.dc.vals && AcCodable(c.ac, z, 1)
  }

  function BlockBits(c: Component, pred: int, z: Zigzag): (bits: seq<Bit>) {
    DcBits(c.dc, z[0] - pred) + AcBits(c.ac, z, 1)
  }

  lemma FreshBlock(z: Zigzag, q: Quant)
    ensures DequantisedTo(DcOnly(z[0] * q[0]), z, q, 1)
  {
    var blk := DcOnly(z[0] * q[0]);
    assert Jz(0) == 0;
    hide Jz;
    forall i | 0 <= i < 64
      ensures Jz(i) < 64 && blk[Jz(i)] == if i < 1 then z[i] * q[i] else 0
    {
      JzInjective(i, 0);
    }
  }

  lemma ReadsBlock(c: Component, pred: int, z: Zigzag, rest: seq<Bit>)
    requires UsableBoth(c) && BlockCodable(c, pred, z)
    ensures var r := ReadBlock(BlockBits(c, pred, z) + rest, c, pred);
            r.rest == rest && r.value.1 == z[0] && Dequantised(r.value.0, z, c.q)
  {
    hide AcBits, DcBits, AcCodable, ReadAc, ReadDiff, DequantisedTo, Usable;
    var ac := AcBits(c.ac, z, 1);
    assert BlockBits(c, pred, z) + rest == DcBits(c.dc, z[0] - pred) + (ac + rest);
    ReadsDiff(c.dc, z[0] - pred, ac + rest);
    FreshBlock(z, c.q);
    ReadsAc(c.ac, c.q, z, 1, DcOnly(z[0] * c.q[0]), rest);
    AllDequantised(ReadBlock(BlockBits(c, pred, z) + rest, c, pred).value.0, z, c.q);
  }

  lemma AllDequantised(blk: seq<int>, z: Zigzag, q: Quant)
    requires DequantisedTo(blk, z, q, 64)
    ensures Dequantised(blk, z, q)
  {
    hide Jz;
  }

  // The order of a scan says, block by block, which component comes next; a component predicts
  // each DC coefficient from its own previous one.
  predicate ScanShape(cs: seq<Component>, order: seq<nat>, preds: seq<int>) {
    |preds| == |cs| && forall i :: 0 <= i < |order| ==> order[i] < |cs|
  }

  predicate ScanCodable(cs: seq<Component>, order: seq<nat>, preds: seq<int>, zs: seq<Zigzag>)
    requires ScanShape(cs, order, preds) && |zs| == |order|
    decreases |order|
  {
    order == [] ||
    (&& BlockCodable(cs[order[0]], preds[order[0]], zs[0])
     && ScanCodable(cs, order[1..], preds[order[0] := zs[0][0]], zs[1..]))
  }

  function ScanBits(cs: seq<Component>, order: seq<nat>, preds: seq<int>, zs: seq<Zigzag>): (bits: seq<Bit>)
    requires ScanShape(cs, order, preds) && |zs| == |order|
    decreases |order|
  {
    if order == [] then [] else
      var c := order[0];
      BlockBits(cs[c], preds[c], zs[0]) + ScanBits(cs, order[1..], preds[c := zs[0][0]], zs[1..])
  }

  function ReadScan(bits: seq<Bit>, cs: seq<Component>, order: seq<nat>, preds: seq<int>): (r: Read<seq<seq<int>>>)
    requires ScanShape(cs, order, preds)
    ensures |r.value| == |order|
    decreases |order|
  {
    if order == [] then Read([], bits) else
      var c := order[0];
      var b := ReadBlock(bits, cs[c], preds[c]);
      var more := ReadScan(b.rest, cs, order[1..], preds[c := b.value.1]);
      Read([b.value.0] + more.value, more.rest)
  }

  predicate BlocksDequantised(blks: seq<seq<int>>, cs: seq<Component>, order: seq<nat>, zs: seq<Zigzag>) {
    && |blks| == |order| == |zs|
    && forall i :: 0 <= i < |order| ==> order[i] < |cs| && Dequantised(blks[i], zs[i], cs[order[i]].q)
  }

  // A scan coded and followed by anything is read back, up to what follows.
  predicate ReadsBack(cs: seq<Component>, order: seq<nat>, preds: seq<int>, zs: seq<Zigzag>, rest: seq<Bit>)
    requires ScanShape(cs, order, preds) && |zs| == |order|
  {
    var r := ReadScan(ScanBits(cs, order, preds, zs) + rest, cs, order, preds);
    r.rest == rest && BlocksDequantised(r.value, cs, order, zs)
  }

  lemma {:induction false} ReadsScan(cs: seq<Component>, order: seq<nat>, preds: seq<int>, zs: seq<Zigzag>, rest: seq<Bit>)
    requires ScanShape(cs, order, preds) && |zs| == |order| && ScanCodable(cs, order, preds, zs)
    requires forall i :: 0 <= i < |cs| ==> UsableBoth(cs[i])
    ensures ReadsBack(cs, order, preds, zs, rest)
    decreases |order|
  {
    if order == [] {
      assert [] + rest == rest;
    } else {
      hide *;
      ScanFirst(cs, order, preds, zs);
      var c := order[0];
      ReadsScan(cs, order[1..], preds[c := zs[0][0]], zs[1..], rest);
      ReadsBackCons(cs, order, preds, zs, rest);
    }
  }

  lemma ReadsBackCons(cs: seq<Component>, order: seq<nat>, preds: seq<int>, zs: seq<Zigzag>, rest: seq<Bit>)
    requires ScanShape(cs, order, preds) && |zs| == |order| > 0 && order[0] < |cs| && |preds| == |cs|
    requires ScanCodable(cs, order, preds, zs) && UsableBoth(cs[order[0]])
    requires ReadsBack(cs, order[1..], preds[order[0] := zs[0][0]], zs[1..], rest)
    ensures ReadsBack(cs, order, preds, zs, rest)
  {
    hide ReadScan, ScanBits, ScanCodable, BlocksDequantised, UsableBoth, BlockBits, BlockCodable, Dequantised, ReadBlock, ScanShape;
    ScanFirst(cs, order, preds, zs);
    var c, z := order[0], zs[0];
    var preds' := preds[c := z[0]];
    var code, tail := BlockBits(cs[c], preds[c], z), ScanBits(cs, order[1..], preds', zs[1..]);
    assert code + tail + rest == code + (tail + rest);
    ReadsBlock(cs[c], preds[c], z, tail + rest);
    ReadScanFirst(code + (tail + rest), cs, order, preds);
    var blk := ReadBlock(code + (tail + rest), cs[c], preds[c]).value.0;
    BlocksCons(blk, ReadScan(tail + rest, cs, order[1..], preds').value, cs, order, zs);
  }

  lemma ScanFirst(cs: seq<Component>, order: seq<nat>, preds: seq<int>, zs: seq<Zigzag>)
    requires ScanShape(cs, order, preds) && |zs| == |order| > 0 && ScanCodable(cs, order, preds, zs)
    ensures var c := order[0];
            var preds' := preds[c := zs[0][0]];
            && c < |cs| && |preds| == |cs|
            && ScanShape(cs, order[1..], preds')
            && BlockCodable(cs[c], preds[c], zs[0]) && ScanCodable(cs, order[1..], preds', zs[1..])
            && ScanBits(cs, order, preds, zs)
               == BlockBits(cs[c], preds[c], zs[0]) + ScanBits(cs, order[1..], preds', zs[1..])
  {
    hide BlockBits, BlockCodable;
  }

  lemma ReadScanFirst(bits: seq<Bit>, cs: seq<Component>, order: seq<nat>, preds: seq<int>)
    requires ScanShape(cs, order, preds) && |order| > 0
    ensures var c := order[0];
            && c < |cs| && |preds| == |cs|
            && var b := ReadBlock(bits, cs[c], preds[c]);
               var preds' := preds[c := b.value.1];
            && ScanShape(cs, order[1..], preds')
            && var more := ReadScan(b.rest, cs, order[1..], preds');
               ReadScan(bits, cs, order, preds) == Read([b.value.0] + more.value, more.rest)
  {
    hide ReadBlock;
  }

  lemma BlocksCons(blk: seq<int>, more: seq<seq<int>>, cs: seq<Component>, order: seq<nat>, zs: seq<Zigzag>)
    requires |zs| == |order| > 0 && order[0] < |cs|
    requires Dequantised(blk, zs[0], cs[order[0]].q) && BlocksDequantised(more, cs, order[1..], zs[1..])
    ensures BlocksDequantised([blk] + more, cs, order, zs)
  {
    hide Dequantised;
    forall i | 0 <= i < |order|
      ensures order[i] < |cs| && Dequantised(([blk] + more)[i], zs[i], cs[order[i]].q)
    {
      if i > 0 {
        assert order[i] == order[1..][i - 1] && zs[i] == zs[1..][i - 1] && ([blk] + more)[i] == more[i - 1];
      }
    }
  }

  // The whole way: any blocks whose symbols the tables have, coded, packed into bytes, stuffed,
  // and put anywhere in a file, are the blocks a decoder that starts there reads; and it has then
  // used up their bits and no more.
  lemma DecodingInvertsCoding(cs: seq<Component>, order: seq<nat>, preds: seq<int>, zs: seq<Zigzag>,
                              before: seq<Byte>, after: seq<Byte>)
    requires ScanShape(cs, order, preds) && |zs| == |order| && ScanCodable(cs, order, preds, zs)
    requires forall i :: 0 <= i < |cs| ==> UsableBoth(cs[i])
    ensures var bits := ScanBits(cs, order, preds, zs);
            var s := Segment(bits);
            var d := before + s + after;
            var r := ReadScan(Delivered(d, |before|), cs, order, preds);
            && r.rest == Padding(|bits|) + Delivered(d, |before + s|)
            && BlocksDequantised(r.value, cs, order, zs)
  {
    hide ReadScan, ScanBits, ScanCodable, BlocksDequantised, UsableBoth, Segment, Delivered, Padding, ScanShape;
    var bits := ScanBits(cs, order, preds, zs);
    var s := Segment(bits);
    var d := before + s + after;
    SegmentDelivers(before, bits, after);
    ReadsScan(cs, order, preds, zs, Padding(|bits|) + Delivered(d, |before + s|));
  }
}
