/**
 Bits and bytes of the JPEG entropy-coded segment (userland/img.h): what the bit reader delivers,
 seen as a sequence, and the packing and byte stuffing that produce it (sections B.1.1.5 and
 F.1.2.3 of ITU-T T.81).
 */
module JpegBits {
  import opened Bytes

  type Bit = b: int | 0 <= b <= 1

  function Pow2(n: nat): (p: nat)
    ensures p >= 1
  {
    if n == 0 then 1 else 2 * Pow2(n - 1)
  }

  // ----- numbers as bits, most significant first -----

  function BitsOf(v: nat, n: nat): (bits: seq<Bit>)
    ensures |bits| == n
    decreases n
  {
    if n == 0 then [] else BitsOf(v / 2, n - 1) + [v % 2]
  }

  // Past the end of the stream the reader delivers zeros.
  function BitAt(bits: seq<Bit>, i: nat): (b: Bit) {
    if i < |bits| then bits[i] else 0
  }

  // The number the first n bits spell.
  function Value(bits: seq<Bit>, n: nat): (v: nat) {
    if n == 0 then 0 else 2 * Value(bits, n - 1) + BitAt(bits, n - 1)
  }

  function Drop(bits: seq<Bit>, n: nat): (rest: seq<Bit>) {
    if n <= |bits| then bits[n..] else []
  }

  lemma DropPrefix(a: seq<Bit>, b: seq<Bit>)
    ensures Drop(a + b, |a|) == b
  {
  }

  lemma {:induction false} ValuePrefix(a: seq<Bit>, b: seq<Bit>, n: nat)
    requires n <= |a|
    ensures Value(a + b, n) == Value(a, n)
  {
    if n > 0 {
      ValuePrefix(a, b, n - 1);
    }
  }

  lemma {:induction false} ValueBound(bits: seq<Bit>, n: nat)
    ensures Value(bits, n) < Pow2(n)
  {
    if n > 0 {
      ValueBound(bits, n - 1);
    }
  }

  // Writing a number of n bits and reading n bits are inverse to each other.
  lemma {:induction false} BitsOfValue(bits: seq<Bit>, n: nat)
    requires n <= |bits|
    ensures BitsOf(Value(bits, n), n) == bits[..n]
  {
    if n > 0 {
      BitsOfValue(bits, n - 1);
      assert bits[..n] == bits[..n - 1] + [bits[n - 1]];
    }
  }

  lemma {:induction false} ValueOfAllBits(v: nat, n: nat)
    requires v < Pow2(n)
    ensures Value(BitsOf(v, n), n) == v
    decreases n
  {
    if n > 0 {
      ValueOfAllBits(v / 2, n - 1);
      ValuePrefix(BitsOf(v / 2, n - 1), [v % 2], n - 1);
    }
  }

  lemma Halved(v: nat, high: nat, p: nat)
    requires high * p <= v / 2 < high * p + p
    ensures high * (2 * p) <= v < high * (2 * p) + 2 * p
  {
    assert high * (2 * p) == 2 * (high * p);
  }

  // The first l of the n bits of v spell its high part, what is left when the others are
  // shifted out.
  lemma {:induction false} ValueOfBits(v: nat, n: nat, l: nat)
    requires l <= n && v < Pow2(n)
    ensures var high := Value(BitsOf(v, n), l);
            high * Pow2(n - l) <= v < high * Pow2(n - l) + Pow2(n - l)
    decreases n
  {
    if l == n {
      ValueOfAllBits(v, n);
    } else {
      ValueOfBits(v / 2, n - 1, l);
      ValuePrefix(BitsOf(v / 2, n - 1), [v % 2], l);
      hide Value;
      Halved(v, Value(BitsOf(v, n), l), Pow2(n - 1 - l));
    }
  }

  // One position right, k times.
  function Shr(v: nat, k: nat): (r: nat)
    decreases k
  {
    if k == 0 then v else Shr(v / 2, k - 1)
  }

  lemma {:induction false} BitByShift(v: nat, n: nat, k: nat)
    requires k < n
    ensures Shr(v, k) % 2 == BitsOf(v, n)[n - 1 - k]
    decreases k
  {
    if k > 0 {
      BitByShift(v / 2, n - 1, k - 1);
    }
  }

  // ----- bytes -----

  function StreamBits(bytes: seq<Byte>): (bits: seq<Bit>) {
    if bytes == [] then [] else BitsOf(bytes[0], 8) + StreamBits(bytes[1..])
  }

  // The data bytes found from pos on: a stuffed zero after FF is skipped, and a marker or the
  // end of the data ends them.
  function Payload(d: seq<Byte>, pos: nat): (bytes: seq<Byte>)
    decreases |d| - pos
  {
    if pos >= |d| then []
    else if d[pos] != 0xFF then [d[pos]] + Payload(d, pos + 1)
    else if pos + 1 < |d| && d[pos + 1] == 0 then [0xFF] + Payload(d, pos + 2)
    else []
  }

  // The writer: bits into bytes, the last one filled up with ones, a zero after each FF.
  function Padding(n: nat): (bits: seq<Bit>)
    ensures (n + |bits|) % 8 == 0
  {
    seq((8 - n % 8) % 8, _ => 1)
  }

  function Pack(bits: seq<Bit>): (bytes: seq<Byte>)
    requires |bits| % 8 == 0
  {
    if bits == [] then [] else ValueBound(bits, 8); [Value(bits, 8) as Byte] + Pack(bits[8..])
  }

  function StuffOne(b: Byte): (s: seq<Byte>) {
    if b == 0xFF then [0xFF, 0] else [b]
  }

  function Stuff(bytes: seq<Byte>): (d: seq<Byte>) {
    if bytes == [] then [] else StuffOne(bytes[0]) + Stuff(bytes[1..])
  }

  // An entropy-coded segment of a file.
  function Segment(bits: seq<Bit>): (d: seq<Byte>) {
    Stuff(Pack(bits + Padding(|bits|)))
  }

  // What a reader that starts at pos of a file is going to deliver.
  function Delivered(d: seq<Byte>, pos: nat): (bits: seq<Bit>) {
    StreamBits(Payload(d, pos))
  }

  lemma {:induction false} PackedBits(bits: seq<Bit>)
    requires |bits| % 8 == 0
    ensures StreamBits(Pack(bits)) == bits
    decreases |bits|
  {
    if bits != [] {
      BitsOfValue(bits, 8);
      hide BitsOf, Value;
      PackedBits(bits[8..]);
      var bytes := Pack(bits);
      assert bytes[1..] == Pack(bits[8..]);
      assert bits == bits[..8] + bits[8..];
    }
  }

  // Unstuffing takes out exactly what stuffing put in, wherever the segment stands.
  lemma {:induction false} PayloadOfStuffed(before: seq<Byte>, bytes: seq<Byte>, after: seq<Byte>)
    ensures var s := Stuff(bytes);
            Payload(before + s + after, |before|) == bytes + Payload(before + s + after, |before + s|)
    decreases |bytes|
  {
    hide Payload;
    var s := Stuff(bytes);
    var d := before + s + after;
    if bytes == [] {
      assert before + s == before;
      assert [] + Payload(d, |before|) == Payload(d, |before|);
    } else {
      var head := StuffOne(bytes[0]);
      var rest := Stuff(bytes[1..]);
      assert s == head + rest;
      assert d == (before + head) + rest + after;
      assert before + s == (before + head) + rest;
      PayloadOfStuffed(before + head, bytes[1..], after);
      PayloadOfOne(before, bytes[0], rest + after);
      assert d == before + head + (rest + after);
      var more := Payload(d, |before + s|);
      assert [bytes[0]] + (bytes[1..] + more) == bytes + more;
    }
  }

  lemma PayloadOfOne(before: seq<Byte>, b: Byte, after: seq<Byte>)
    ensures var d := before + StuffOne(b) + after;
            Payload(d, |before|) == [b] + Payload(d, |before + StuffOne(b)|)
  {
    var d := before + StuffOne(b) + after;
    assert d[|before|] == b && (b == 0xFF ==> d[|before| + 1] == 0);
  }

  lemma {:induction false} StreamBitsConcat(a: seq<Byte>, b: seq<Byte>)
    ensures StreamBits(a + b) == StreamBits(a) + StreamBits(b)
  {
    hide BitsOf;
    if a == [] {
      assert a + b == b;
    } else {
      StreamBitsConcat(a[1..], b);
      assert (a + b)[1..] == a[1..] + b;
    }
  }

  // Whatever stands before and after it, a packed and stuffed segment delivers its bits.
  lemma SegmentDelivers(before: seq<Byte>, bits: seq<Bit>, after: seq<Byte>)
    ensures var s := Segment(bits);
            var d := before + s + after;
            Delivered(d, |before|) == bits + (Padding(|bits|) + Delivered(d, |before + s|))
  {
    hide StreamBits, Payload, Pack, Stuff, Padding;
    var padded := bits + Padding(|bits|);
    var bytes := Pack(padded);
    var s := Stuff(bytes);
    var d := before + s + after;
    var rest := Payload(d, |before + s|);
    PackedBits(padded);
    PayloadOfStuffed(before, bytes, after);
    StreamBitsConcat(bytes, rest);
    assert padded + StreamBits(rest) == bits + (Padding(|bits|) + StreamBits(rest));
  }

  // ----- the reader -----

  class BitReader {
    const d: seq<Byte>
    var pos: nat
    var buf: Byte
    var cnt: nat
    var stop: bool

    ghost predicate Valid()
      reads this
    {
      cnt <= 8 && pos <= |d| && (stop ==> cnt == 0 && Payload(d, pos) == [])
    }

    // The bits still to come.
    ghost function Remaining(): (bits: seq<Bit>)
      requires Valid()
      reads this
    {
      BitsOf(buf, 8)[8 - cnt..] + StreamBits(Payload(d, pos))
    }

    constructor (d: seq<Byte>, pos: nat)
      requires pos <= |d|
      ensures this.d == d && Valid() && Remaining() == Delivered(d, pos)
    {
      this.d := d;
      this.pos := pos;
      buf, cnt, stop := 0, 0, false;
    }

    // The next byte of the payload into the buffer, if there is one.
    method Fill() returns (ok: bool)
      requires Valid() && cnt == 0
      modifies this
      ensures Valid() && Remaining() == old(Remaining())
      ensures if ok then cnt == 8 else cnt == 0 && Remaining() == []
    {
      hide BitsOf;
      ghost var bytes := Payload(d, pos);
      if stop || pos >= |d| {
        stop := true;
        return false;
      }
      var c := d[pos];
      pos := pos + 1;
      if c == 0xFF {
        var nx := if pos < |d| then d[pos] else 0xD9;
        if nx == 0 {
          pos := pos + 1;
        } else {
          stop := true;
          pos := pos - 1;
          return false;
        }
      }
      buf := c;
      cnt := 8;
      assert bytes == [c] + Payload(d, pos);
      assert BitsOf(c, 8)[0..] == BitsOf(c, 8);
      return true;
    }

    // One bit; zero, for ever, once a marker or the end has been reached.
    method Next() returns (b: Bit)
      requires Valid()
      modifies this
      ensures Valid()
      ensures b == BitAt(old(Remaining()), 0) && Remaining() == Drop(old(Remaining()), 1)
    {
      hide BitsOf, Shr, StreamBits, Payload;
      if cnt == 0 {
        var ok := Fill();
        if !ok {
          return 0;
        }
      }
      cnt := cnt - 1;
      b := Shr(buf, cnt) % 2;
      BitByShift(buf, 8, cnt);
    }

    method Receive(n: nat) returns (v: nat)
      requires Valid()
      modifies this
      ensures Valid()
      ensures v == Value(old(Remaining()), n) && Remaining() == Drop(old(Remaining()), n)
    {
      hide BitsOf, StreamBits, Payload, Remaining;
      v := 0;
      var i := 0;
      while i < n
        invariant 0 <= i <= n && Valid()
        invariant v == Value(old(Remaining()), i) && Remaining() == Drop(old(Remaining()), i)
      {
        var b := Next();
        v := 2 * v + b;
        i := i + 1;
      }
    }
  }
}
