/**
 Streaming SHA-512 and SHA-384, as the code that tools/gensha512.py emits computes them.

 The round function is left open: everything here holds for any function that turns a state and a
 block of 128 bytes into a state.
 */
module Sha512 {
  import opened Bytes

  type Message = seq<Byte>
  type Hash = h: seq<nat> | |h| == 8 witness seq(8, _ => 0)
  type Compress = (Hash, Message) -> Hash

  const WORD := 0x1_0000_0000_0000_0000

  const H512: Hash := [
    0x6a09e667f3bcc908, 0xbb67ae8584caa73b, 0x3c6ef372fe94f82b, 0xa54ff53a5f1d36f1,
    0x510e527fade682d1, 0x9b05688c2b3e6c1f, 0x1f83d9abfb41bd6b, 0x5be0cd19137e2179]

  const H384: Hash := [
    0xcbbb9d5dc1059ed8, 0x629a292a367cd507, 0x9159015a3070dd17, 0x152fecd8f70e5939,
    0x67332667ffc00b31, 0x8eb44a8768581511, 0xdb0c2e0d64f98fa7, 0x47b5481dbefa4fa4]

  // ----- the starting states -----

  const PRIMES: seq<nat> := [2, 3, 5, 7, 11, 13, 17, 19, 23, 29, 31, 37, 41, 43, 47, 53]

  // r is the square root of p, WORD to the unit, rounded down.
  predicate IsRoot(p: nat, r: nat) {
    r * r <= p * WORD * WORD < (r + 1) * (r + 1)
  }

  function WithWhole(s: nat, w: nat): (r: nat) {
    s * WORD + w
  }

  // frac64, for square roots: the first 64 bits behind the point.
  ghost predicate IsFraction(p: nat, w: nat) {
    w < WORD && exists s: nat :: IsRoot(p, WithWhole(s, w))
  }

  lemma FractionsOf512()
    ensures forall i :: 0 <= i < 8 ==> IsFraction(PRIMES[i], H512[i])
  {
    assert IsRoot(2, WithWhole(1, H512[0]));
    assert IsRoot(3, WithWhole(1, H512[1]));
    assert IsRoot(5, WithWhole(2, H512[2]));
    assert IsRoot(7, WithWhole(2, H512[3]));
    assert IsRoot(11, WithWhole(3, H512[4]));
    assert IsRoot(13, WithWhole(3, H512[5]));
    assert IsRoot(17, WithWhole(4, H512[6]));
    assert IsRoot(19, WithWhole(4, H512[7]));
  }

  lemma FractionsOf384()
    ensures forall i :: 0 <= i < 8 ==> IsFraction(PRIMES[8 + i], H384[i])
  {
    assert IsRoot(23, WithWhole(4, H384[0]));
    assert IsRoot(29, WithWhole(5, H384[1]));
    assert IsRoot(31, WithWhole(5, H384[2]));
    assert IsRoot(37, WithWhole(6, H384[3]));
    assert IsRoot(41, WithWhole(6, H384[4]));
    assert IsRoot(43, WithWhole(6, H384[5]));
    assert IsRoot(47, WithWhole(6, H384[6]));
    assert IsRoot(53, WithWhole(7, H384[7]));
  }

  // ----- the hash of a message, all at once -----

  // The compression function over the blocks of m, what is left over ignored.
  function Hashed(f: Compress, h: Hash, m: Message): (r: Hash)
    decreases |m|
  {
    if |m| < 128 then h else Hashed(f, f(h, m[..128]), m[128..])
  }

  function Zeros(n: nat): (z: Message)
    ensures |z| == n && forall i :: 0 <= i < n ==> z[i] == 0
  {
    seq(n, _ => 0)
  }

  // n bytes, most significant first.
  function BigEndian(v: nat, n: nat): (r: Message)
    ensures |r| == n
  {
    if n == 0 then [] else BigEndian(v / 256, n - 1) + [v % 256]
  }

  // The zero bytes that follow the one bit: as few as bring the length to 112 modulo 128.
  function ZeroCount(n: nat): (z: nat)
    ensures z < 128 && (n + 1 + z) % 128 == 112
  {
    (239 - n % 128) % 128
  }

  // Section 5.1.2 of FIPS 180-4: the message, a one bit, zeros, and the length in bits, in 128
  // bits.
  function Padded(m: Message): (p: Message) {
    m + [0x80] + Zeros(ZeroCount(|m|)) + BigEndian(8 * |m|, 16)
  }

  // What the code appends: its count of bytes and of bits is kept in 64 bits.
  function PaddedByCode(m: Message): (p: Message) {
    m + [0x80] + Zeros(ZeroCount(|m|)) + Zeros(8) + BigEndian(8 * (|m| % WORD) % WORD, 8)
  }

  // One byte to the right, k times.
  function ShiftedBytes(v: nat, k: nat): (r: nat)
    decreases k
  {
    if k == 0 then v else ShiftedBytes(v / 256, k - 1)
  }

  // The first n bytes of the state, each word from its most significant byte on.
  function Digest(h: Hash, n: nat): (d: Message)
    requires n <= 64
    ensures |d| == n
  {
    seq(n, i requires 0 <= i < n => (ShiftedBytes(h[i / 8], 7 - i % 8) % 256) as Byte)
  }

  lemma {:induction false} BigEndianAt(v: nat, n: nat, i: nat)
    requires i < n
    ensures BigEndian(v, n)[i] == ShiftedBytes(v, n - 1 - i) % 256
    decreases n
  {
    if i < n - 1 {
      BigEndianAt(v / 256, n - 1, i);
    }
  }

  // ----- exactly when the code pads as the standard says -----

  function Pow256(n: nat): (p: nat)
    ensures p >= 1
  {
    if n == 0 then 1 else 256 * Pow256(n - 1)
  }

  // ----- what bytes say -----

  // The number that bytes write, most significant first.
  function Number(b: Message): (v: nat) {
    if b == [] then 0 else 256 * Number(b[..|b| - 1]) + b[|b| - 1]
  }

  lemma {:induction false} NumberOfBigEndian(v: nat, n: nat)
    ensures Number(BigEndian(v, n)) == v % Pow256(n)
    decreases n
  {
    if n > 0 {
      var b := BigEndian(v, n);
      assert b[..n - 1] == BigEndian(v / 256, n - 1);
      NumberOfBigEndian(v / 256, n - 1);
      LastByte(v, Pow256(n - 1));
    }
  }

  lemma LastByte(v: nat, p: nat)
    requires p >= 1
    ensures v % (256 * p) == 256 * (v / 256 % p) + v % 256
  {
    var q, r := v / 256 / p, v / 256 % p;
    assert v / 256 == p * q + r;
    assert v == 256 * p * q + (256 * r + v % 256) by {
      assert 256 * (p * q) == 256 * p * q;
    }
    Remainder(v, 256 * p, q, 256 * r + v % 256);
  }

  lemma Remainder(v: int, m: int, q: int, r: int)
    requires v == m * q + r && 0 <= r < m
    ensures v % m == r
  {
    var d := v / m - q;
    assert v == m * (v / m) + v % m;
    assert m * d == r - v % m;
    assert d >= 1 ==> m * d >= m;
    assert d <= -1 ==> m * d <= -m;
  }

  // The digest says the words of the state, in order, each whole.
  lemma DigestSaysWords(h: Hash, i: nat)
    requires i < 8 && h[i] < WORD
    ensures Number(Digest(h, 64)[8 * i..8 * i + 8]) == h[i]
  {
    hide BigEndian, ShiftedBytes, Number, Pow256;
    var d, w := Digest(h, 64)[8 * i..8 * i + 8], BigEndian(h[i], 8);
    forall j | 0 <= j < 8
      ensures d[j] == w[j]
    {
      BigEndianAt(h[i], 8, j);
      assert (8 * i + j) / 8 == i && (8 * i + j) % 8 == j;
    }
    assert d == w;
    NumberOfBigEndian(h[i], 8);
    WordPowers();
  }

  // A shorter digest is the front of it.
  lemma DigestIsCut(h: Hash, n: nat)
    requires n <= 64
    ensures Digest(h, n) == Digest(h, 64)[..n]
  {
    hide ShiftedBytes;
  }

  lemma {:induction false} BigEndianInTwo(v: nat, k: nat, n: nat)
    ensures BigEndian(v, k + n) == BigEndian(ShiftedBytes(v, n), k) + BigEndian(v, n)
    decreases n
  {
    if n > 0 {
      BigEndianInTwo(v / 256, k, n - 1);
    } else {
      assert BigEndian(v, k) + [] == BigEndian(v, k);
    }
  }

  // Only the low bytes count.
  lemma {:induction false} BigEndianModulo(v: nat, t: nat, n: nat)
    ensures BigEndian(v + Pow256(n) * t, n) == BigEndian(v, n)
    decreases n
  {
    if n > 0 {
      var x := Pow256(n - 1) * t;
      assert Pow256(n) * t == 256 * x;
      assert (v + 256 * x) / 256 == v / 256 + x && (v + 256 * x) % 256 == v % 256;
      BigEndianModulo(v / 256, t, n - 1);
    }
  }

  lemma {:induction false} BigEndianZero(v: nat, n: nat)
    requires v < Pow256(n)
    ensures BigEndian(v, n) == Zeros(n) <==> v == 0
    decreases n
  {
    if n > 0 {
      BigEndianZero(v / 256, n - 1);
      var b := BigEndian(v, n);
      assert b[n - 1] == v % 256 && b[..n - 1] == BigEndian(v / 256, n - 1);
      assert Zeros(n)[..n - 1] == Zeros(n - 1);
    }
  }

  lemma {:induction false} ShiftedBound(v: nat, n: nat, k: nat)
    ensures v < Pow256(n + k) ==> ShiftedBytes(v, n) < Pow256(k)
    ensures ShiftedBytes(v, n) == 0 <==> v < Pow256(n)
    decreases n
  {
    if n > 0 {
      ShiftedBound(v / 256, n - 1, k);
    }
  }

  // A length of fewer than 2^61 bytes is all the code can write down.
  lemma PadsAsTheStandard(m: Message)
    requires 8 * |m| < WORD * WORD
    ensures PaddedByCode(m) == Padded(m) <==> 8 * |m| < WORD
  {
    hide BigEndian, ShiftedBytes, ZeroCount, Zeros;
    var v := 8 * |m|;
    var w := 8 * (|m| % WORD) % WORD;
    LengthField(v, w, |m|);
    var front := m + [0x80] + Zeros(ZeroCount(|m|));
    assert PaddedByCode(m) == front + (Zeros(8) + BigEndian(w, 8));
    SameFront(front, BigEndian(v, 16), Zeros(8) + BigEndian(w, 8));
  }

  lemma SameFront(front: Message, a: Message, b: Message)
    ensures front + a == front + b <==> a == b
  {
    assert (front + a)[|front|..] == a && (front + b)[|front|..] == b;
  }

  // How many whole words eight times n has.
  function WordsIn(n: nat): (t: nat) {
    8 * (n / WORD) + 8 * (n % WORD) / WORD
  }

  lemma WordPowers()
    ensures Pow256(8) == WORD && Pow256(16) == WORD * WORD
  {
    assert Pow256(4) == 0x1_0000_0000;
    assert Pow256(8) == WORD;
    assert Pow256(12) == WORD * 0x1_0000_0000;
  }

  lemma LowWord(n: nat)
    ensures 8 * n == 8 * (n % WORD) % WORD + WORD * WordsIn(n)
  {
    var q, r := n / WORD, n % WORD;
    assert n == WORD * q + r;
    assert 8 * r == WORD * (8 * r / WORD) + 8 * r % WORD;
  }

  lemma LengthField(v: nat, w: nat, n: nat)
    requires v == 8 * n < WORD * WORD && w == 8 * (n % WORD) % WORD
    ensures BigEndian(v, 16) == Zeros(8) + BigEndian(w, 8) <==> v < WORD
  {
    hide BigEndian, ShiftedBytes, Pow256;
    var high := ShiftedBytes(v, 8);
    var t := WordsIn(n);
    WordPowers();
    LowWord(n);
    BigEndianInTwo(v, 8, 8);
    BigEndianModulo(w, t, 8);
    ShiftedBound(v, 8, 8);
    BigEndianZero(high, 8);
    assert (BigEndian(high, 8) + BigEndian(w, 8))[..8] == BigEndian(high, 8);
    assert (Zeros(8) + BigEndian(w, 8))[..8] == Zeros(8);
  }

  // ----- blocks -----

  lemma {:induction false} HashedInTwo(f: Compress, h: Hash, a: Message, b: Message)
    requires |a| % 128 == 0
    ensures Hashed(f, h, a + b) == Hashed(f, Hashed(f, h, a), b)
    decreases |a|
  {
    if |a| < 128 {
      assert a + b == b;
    } else {
      assert (a + b)[..128] == a[..128] && (a + b)[128..] == a[128..] + b;
      HashedInTwo(f, f(h, a[..128]), a[128..], b);
    }
  }

  // The state and the buffer after message m: the full blocks are in the state, the rest waits.
  predicate Absorbed(f: Compress, iv: Hash, h: Hash, buf: Message, m: Message) {
    && |buf| < 128 && |buf| <= |m| && (|m| - |buf|) % 128 == 0
    && buf == m[|m| - |buf|..]
    && h == Hashed(f, iv, m[..|m| - |buf|])
  }

  lemma AbsorbSome(f: Compress, iv: Hash, h: Hash, buf: Message, m: Message, t: Message)
    requires Absorbed(f, iv, h, buf, m) && |buf| + |t| < 128
    ensures Absorbed(f, iv, h, buf + t, m + t)
  {
    hide Hashed;
    assert (m + t)[..|m| - |buf|] == m[..|m| - |buf|];
    assert (m + t)[|m| - |buf|..] == m[|m| - |buf|..] + t;
  }

  // Bytes that complete a block.
  lemma AbsorbBlock(f: Compress, iv: Hash, h: Hash, buf: Message, m: Message, t: Message)
    requires Absorbed(f, iv, h, buf, m) && |buf| + |t| == 128
    ensures Absorbed(f, iv, f(h, buf + t), [], m + t)
  {
    var full := m[..|m| - |buf|];
    var block := buf + t;
    assert m + t == full + block;
    HashedInTwo(f, iv, full, block);
    assert block[..128] == block;
    assert Hashed(f, h, block) == f(h, block);
    hide Hashed;
    assert (m + t)[..|m + t|] == m + t;
  }

  // ----- the stream -----

  class Stream {
    const compress: Compress
    ghost const iv: Hash
    var h: Hash
    const buf: array<Byte>
    var n: nat
    var len: nat
    const outlen: nat
    ghost var message: Message

    ghost predicate Valid()
      reads this, buf
    {
      && buf.Length == 128 && n < 128 && len == |message| % WORD
      && Absorbed(compress, iv, h, buf[..n], message)
    }

    constructor (compress: Compress, iv: Hash, outlen: nat)
      ensures Valid() && message == [] && fresh(buf)
      ensures this.compress == compress && this.iv == iv && this.outlen == outlen
    {
      this.compress := compress;
      this.iv := iv;
      this.outlen := outlen;
      h, n, len := iv, 0, 0;
      buf := new Byte[128](_ => 0);
      message := [];
    }

    // However the message is cut into updates, the state is that of the whole.
    method Update(data: Message)
      requires Valid()
      modifies this, buf
      ensures Valid() && message == old(message) + data
    {
      hide Absorbed;
      len := (len + |data|) % WORD;
      var p := 0;
      assert message + data[..0] == message;
      while p < |data|
        invariant 0 <= p <= |data| && n < 128
        invariant len == (|old(message)| + |data|) % WORD
        invariant Absorbed(compress, iv, h, buf[..n], old(message) + data[..p])
        decreases |data| - p
      {
        p := Feed(data, p, old(message));
      }
      assert data[..p] == data;
      message := old(message) + data;
    }

    // One turn of the loop: a whole block straight from the data, or what fills the buffer.
    method Feed(data: Message, p: nat, ghost m: Message) returns (p': nat)
      requires buf.Length == 128 && n < 128 && p < |data|
      requires Absorbed(compress, iv, h, buf[..n], m + data[..p])
      modifies `h, `n, buf
      ensures p < p' <= |data| && n < 128
      ensures Absorbed(compress, iv, h, buf[..n], m + data[..p'])
    {
      hide Absorbed;
      var left := |data| - p;
      ghost var was := buf[..n];
      if n == 0 && left >= 128 {
        p' := p + 128;
        assert m + data[..p] + data[p..p'] == m + data[..p'];
        assert was + data[p..p'] == data[p..p'];
        AbsorbBlock(compress, iv, h, was, m + data[..p], data[p..p']);
        h := compress(h, data[p..p']);
        assert buf[..n] == [];
        return;
      }
      var take := if 128 - n > left then left else 128 - n;
      p' := p + take;
      assert m + data[..p] + data[p..p'] == m + data[..p'];
      forall i | 0 <= i < take {
        buf[n + i] := data[p + i];
      }
      assert buf[..n + take] == was + data[p..p'];
      n := n + take;
      if n == 128 {
        AbsorbBlock(compress, iv, h, was, m + data[..p], data[p..p']);
        h := compress(h, buf[..]);
        assert buf[..] == buf[..128];
        n := 0;
        assert buf[..n] == [];
      } else {
        AbsorbSome(compress, iv, h, was, m + data[..p], data[p..p']);
      }
    }

    // The padding, the length, and the state as bytes.
    method Final(out: array<Byte>)
      requires Valid() && outlen <= 64 && outlen <= out.Length && out != buf
      modifies this, buf, out
      ensures Valid() && n == 0 && message == PaddedByCode(old(message))
      ensures h == Hashed(compress, iv, message)
      ensures out[..outlen] == Digest(h, outlen)
    {
      hide Absorbed, Hashed, BigEndian, Digest, PaddedByCode, LengthBytes, Zeros, ZeroCount;
      var bits := len * 8 % WORD;
      ghost var m := message;
      Update([0x80]);
      BufferCount(compress, iv, h, buf[..n], message);
      FillZeros(|m|);
      Update(LengthBytes(bits));
      LengthBytesAre(bits);
      PaddedInParts(m, bits);
      PaddedLength(m);
      BufferCount(compress, iv, h, buf[..n], message);
      Complete(compress, iv, h, buf[..n], message);
      WriteDigest(out);
    }

    // Zero bytes, one at a time, until there is just room for the length.
    method FillZeros(ghost count: nat)
      requires Valid() && n == (count + 1) % 128
      modifies this, buf
      ensures Valid() && n == 112
      ensures message == old(message) + Zeros(ZeroCount(count))
    {
      hide Absorbed, Hashed, Gap, Zeros, ZeroCount;
      ghost var k := 0;
      FirstGap(count, n);
      assert message + Zeros(0) == message by { NoZeros(); }
      while n != 112
        invariant Valid() && k + Gap(n) == ZeroCount(count)
        invariant message == old(message) + Zeros(k)
        decreases Gap(n)
      {
        ghost var n0 := n;
        BufferCount(compress, iv, h, buf[..n], message);
        Update([0]);
        BufferCount(compress, iv, h, buf[..n], message);
        GapCloses(|message| - 1, n0, n);
        OneMoreZero(k);
        assert old(message) + Zeros(k) + [0] == old(message) + (Zeros(k) + [0]);
        k := k + 1;
      }
      NoGap();
    }

    method WriteDigest(out: array<Byte>)
      requires outlen <= 64 && outlen <= out.Length
      modifies out
      ensures out[..outlen] == Digest(h, outlen)
    {
      var i := 0;
      while i < 8 && i * 8 < outlen
        invariant 0 <= i <= 8
        invariant forall k :: 0 <= k < outlen && k < 8 * i ==> out[k] == ShiftedBytes(h[k / 8], 7 - k % 8) % 256
      {
        var j := 0;
        while j < 8 && i * 8 + j < outlen
          invariant 0 <= j <= 8
          invariant forall k :: 0 <= k < outlen && k < 8 * i + j ==> out[k] == ShiftedBytes(h[k / 8], 7 - k % 8) % 256
        {
          assert (8 * i + j) / 8 == i && (8 * i + j) % 8 == j;
          out[i * 8 + j] := ShiftedBytes(h[i], 7 - j) % 256;
          j := j + 1;
        }
        i := i + 1;
      }
    }
  }

  // How many zeros are still to come.
  function Gap(n: nat): (g: nat)
    requires n < 128
  {
    if n <= 112 then 112 - n else 240 - n
  }

  lemma NoZeros()
    ensures Zeros(0) == []
  {
  }

  lemma OneMoreZero(k: nat)
    ensures Zeros(k) + [0] == Zeros(k + 1)
  {
  }

  lemma NoGap()
    ensures Gap(112) == 0
  {
  }

  lemma FirstGap(count: nat, n: nat)
    requires n == (count + 1) % 128
    ensures Gap(n) == ZeroCount(count)
  {
    var k, r := count / 128, count % 128;
    assert count == 128 * k + r;
    if r == 127 {
      assert count + 1 == 128 * (k + 1);
    } else {
      assert count + 1 == 128 * k + (r + 1);
    }
  }

  lemma GapCloses(count: nat, n: nat, n': nat)
    requires n == count % 128 && n' == (count + 1) % 128 && n != 112
    ensures Gap(n') == Gap(n) - 1
  {
    var k := count / 128;
    assert count == 128 * k + n;
    if n == 127 {
      assert count + 1 == 128 * (k + 1);
    } else {
      assert count + 1 == 128 * k + (n + 1);
    }
  }

  lemma BufferCount(f: Compress, iv: Hash, h: Hash, buf: Message, m: Message)
    requires Absorbed(f, iv, h, buf, m)
    ensures |buf| == |m| % 128
  {
    hide Hashed;
    assert |m| == (|m| - |buf|) + |buf|;
  }

  lemma PaddedInParts(m: Message, bits: nat)
    requires bits == |m| % WORD * 8 % WORD
    ensures PaddedByCode(m) == m + [0x80] + Zeros(ZeroCount(|m|)) + (Zeros(8) + BigEndian(bits, 8))
  {
    hide BigEndian, ZeroCount;
    var front := m + [0x80] + Zeros(ZeroCount(|m|));
    assert front + (Zeros(8) + BigEndian(bits, 8)) == front + Zeros(8) + BigEndian(bits, 8);
  }

  lemma PaddedLength(m: Message)
    ensures |PaddedByCode(m)| % 128 == 0
  {
    hide BigEndian, ZeroCount, Zeros;
    var x := |m| + 1 + ZeroCount(|m|);
    assert |PaddedByCode(m)| == x + 16;
    FullBlock(x);
  }

  lemma FullBlock(x: nat)
    requires x % 128 == 112
    ensures (x + 16) % 128 == 0
  {
    assert x + 16 == 128 * (x / 128 + 1);
  }

  // The length as the code writes it, byte by byte.
  function LengthBytes(bits: nat): (b: Message) {
    Zeros(8) + seq(8, i requires 0 <= i < 8 => (ShiftedBytes(bits, 7 - i) % 256) as Byte)
  }

  lemma LengthBytesAre(bits: nat)
    ensures LengthBytes(bits) == Zeros(8) + BigEndian(bits, 8)
  {
    hide BigEndian, ShiftedBytes;
    forall i | 0 <= i < 8
      ensures BigEndian(bits, 8)[i] == ShiftedBytes(bits, 7 - i) % 256
    {
      BigEndianAt(bits, 8, i);
    }
  }

  lemma Complete(f: Compress, iv: Hash, h: Hash, buf: Message, m: Message)
    requires Absorbed(f, iv, h, buf, m) && |buf| == 0
    ensures h == Hashed(f, iv, m)
  {
    hide Hashed;
    assert m[..|m|] == m;
  }

  // sha512 and sha384 of a buffer: the digest of the message padded as FIPS 180-4 says.
  method Hash512(compress: Compress, data: Message) returns (out: array<Byte>)
    requires |data| < 0x1_0000_0000
    ensures out.Length == 64 && out[..] == Digest(Hashed(compress, H512, Padded(data)), 64)
  {
    out := HashWith(compress, H512, 64, data);
  }

  method Hash384(compress: Compress, data: Message) returns (out: array<Byte>)
    requires |data| < 0x1_0000_0000
    ensures out.Length == 48 && out[..] == Digest(Hashed(compress, H384, Padded(data)), 48)
  {
    out := HashWith(compress, H384, 48, data);
  }

  method HashWith(compress: Compress, iv: Hash, outlen: nat, data: Message) returns (out: array<Byte>)
    requires |data| < 0x1_0000_0000 && outlen <= 64
    ensures out.Length == outlen && out[..] == Digest(Hashed(compress, iv, Padded(data)), outlen)
  {
    hide Hashed, Padded, PaddedByCode, Digest;
    out := new Byte[outlen](_ => 0);
    var s := new Stream(compress, iv, outlen);
    s.Update(data);
    assert [] + data == data;
    s.Final(out);
    PadsAsTheStandard(data);
    assert out[..] == out[..outlen];
  }
}
