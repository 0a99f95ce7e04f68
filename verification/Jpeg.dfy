/**
 The block loop of the JPEG decoder (userland/img.h), reading from a bit reader and filling a
 block in place.
 */
module JpegDecoder {
  import opened JpegBits
  import opened JpegHuffman
  import opened JpegBlocks

  method DecodeDc(b: BitReader, hdc: HuffTable) returns (diff: int)
    requires b.Valid() && hdc.Built()
    modifies b
    ensures b.Valid()
    ensures Read(diff, b.Remaining()) == ReadDiff(old(b.Remaining()), hdc.table)
  {
    hide Symbol, AfterSymbol, b.Remaining, Extend, Value, Drop;
    var t := hdc.Decode(b);
    if t > 0 {
      var v := b.Receive(t);
      diff := Extend(v, t);
    } else {
      diff := 0;
    }
  }

  method DecodeAc(b: BitReader, hac: HuffTable, q: Quant, blk: array<int>)
    requires b.Valid() && hac.Built() && blk.Length == 64
    requires blk !in hac.Arrays()
    modifies b, blk
    ensures b.Valid()
    ensures Read(blk[..], b.Remaining()) == ReadAc(old(b.Remaining()), hac.table, q, old(blk[..]), 1)
  {
    hide Symbol, AfterSymbol, b.Remaining, Extend, Value, Drop, Jz, hac.Built;
    ghost var all := ReadAc(b.Remaining(), hac.table, q, blk[..], 1);
    var k := 1;
    while k < 64
      invariant 1 <= k && b.Valid() && hac.Built()
      invariant ReadAc(b.Remaining(), hac.table, q, blk[..], k) == all
      decreases 64 - k
    {
      ghost var was := blk[..];
      var rs := hac.Decode(b);
      var s, r := rs % 16, rs / 16;
      if s == 0 {
        if r != 15 {
          break;
        }
        k := k + 16;
      } else {
        k := k + r;
        if k > 63 {
          break;
        }
        var v := b.Receive(s);
        JzInverse(k);
        blk[Jz(k)] := Extend(v, s) * q[k];
        assert blk[..] == Stored(was, k, Extend(v, s) * q[k]);
        k := k + 1;
      }
    }
  }

  // One block of a component: what is in it, and the DC coefficient it leaves behind.
  method DecodeBlock(b: BitReader, hdc: HuffTable, hac: HuffTable, q: Quant, pred: int, blk: array<int>)
      returns (now: int)
    requires b.Valid() && hdc.Built() && hac.Built() && blk.Length == 64
    requires blk !in hdc.Arrays() && blk !in hac.Arrays()
    modifies b, blk
    ensures b.Valid()
    ensures Read((blk[..], now), b.Remaining())
         == ReadBlock(old(b.Remaining()), Component(hdc.table, hac.table, q), pred)
  {
    hide ReadDiff, ReadAc, b.Remaining, hac.Built, hdc.Built;
    forall i | 0 <= i < 64 {
      blk[i] := 0;
    }
    var diff := DecodeDc(b, hdc);
    now := pred + diff;
    blk[0] := now * q[0];
    assert blk[..] == DcOnly(now * q[0]);
    DecodeAc(b, hac, q, blk);
  }

  function Components(hdc: seq<HuffTable>, hac: seq<HuffTable>, qs: seq<Quant>): (cs: seq<Component>)
    requires |hdc| == |hac| == |qs|
    ensures |cs| == |qs|
    ensures forall i :: 0 <= i < |qs| ==> cs[i] == Component(hdc[i].table, hac[i].table, qs[i])
  {
    seq(|qs|, i requires 0 <= i < |qs| => Component(hdc[i].table, hac[i].table, qs[i]))
  }

  ghost predicate AllBuilt(hdc: seq<HuffTable>, hac: seq<HuffTable>)
    requires |hdc| == |hac|
    reads set i | 0 <= i < |hdc| :: hdc[i].mincode
    reads set i | 0 <= i < |hdc| :: hdc[i].maxcode
    reads set i | 0 <= i < |hdc| :: hdc[i].valptr
    reads set i | 0 <= i < |hac| :: hac[i].mincode
    reads set i | 0 <= i < |hac| :: hac[i].maxcode
    reads set i | 0 <= i < |hac| :: hac[i].valptr
  {
    forall i :: 0 <= i < |hdc| ==> hdc[i].Built() && hac[i].Built()
  }

  // The next block of a scan.
  method DecodeNext(b: BitReader, hdc: seq<HuffTable>, hac: seq<HuffTable>, qs: seq<Quant>, order: seq<nat>,
                    preds: seq<int>, blk: array<int>) returns (preds': seq<int>)
    requires b.Valid() && |hdc| == |hac| == |qs| == |preds| && AllBuilt(hdc, hac) && blk.Length == 64
    requires order != [] && forall i :: 0 <= i < |order| ==> order[i] < |qs|
    requires forall i :: 0 <= i < |hdc| ==> blk !in hdc[i].Arrays() && blk !in hac[i].Arrays()
    modifies b, blk
    ensures b.Valid() && |preds'| == |qs| && AllBuilt(hdc, hac)
    ensures var more := ReadScan(b.Remaining(), Components(hdc, hac, qs), order[1..], preds');
            ReadScan(old(b.Remaining()), Components(hdc, hac, qs), order, preds) == Read([blk[..]] + more.value, more.rest)
  {
    hide b.Remaining, ReadBlock, ReadScan;
    var c := order[0];
    ReadScanFirst(b.Remaining(), Components(hdc, hac, qs), order, preds);
    var now := DecodeBlock(b, hdc[c], hac[c], qs[c], preds[c], blk);
    preds' := preds[c := now];
  }

  // The blocks of a scan, in the order its units come in.
  method DecodeScan(b: BitReader, hdc: seq<HuffTable>, hac: seq<HuffTable>, qs: seq<Quant>, order: seq<nat>)
      returns (blks: seq<seq<int>>)
    requires b.Valid() && |hdc| == |hac| == |qs| && AllBuilt(hdc, hac)
    requires forall i :: 0 <= i < |order| ==> order[i] < |qs|
    modifies b
    ensures b.Valid()
    ensures Read(blks, b.Remaining())
         == ReadScan(old(b.Remaining()), Components(hdc, hac, qs), order, seq(|qs|, _ => 0))
  {
    hide b.Remaining, ReadScan, b.Valid, Components;
    var preds: seq<int> := seq(|qs|, _ => 0);
    ghost var cs := Components(hdc, hac, qs);
    ghost var all := ReadScan(b.Remaining(), cs, order, preds);
    blks := [];
    var blk := new int[64];
    var n := 0;
    assert order[0..] == order && [] + all.value == all.value;
    while n < |order|
      invariant 0 <= n <= |order| && b.Valid() && |preds| == |qs| && AllBuilt(hdc, hac)
      invariant var rest := ReadScan(b.Remaining(), cs, order[n..], preds);
        all == Read(blks + rest.value, rest.rest)
    {
      preds := DecodeNext(b, hdc, hac, qs, order[n..], preds, blk);
      assert order[n..][1..] == order[n + 1..];
      ghost var more := ReadScan(b.Remaining(), cs, order[n + 1..], preds).value;
      assert blks + ([blk[..]] + more) == blks + [blk[..]] + more;
      blks := blks + [blk[..]];
      n := n + 1;
    }
    ScanOfNothing(b.Remaining(), cs, preds);
    assert order[n..] == [] && blks + [] == blks;
  }

  lemma ScanOfNothing(bits: seq<Bit>, cs: seq<Component>, preds: seq<int>)
    requires |preds| == |cs|
    ensures ReadScan(bits, cs, [], preds) == Read([], bits)
  {
  }
}
