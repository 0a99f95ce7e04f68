/**
 The whole way of a baseline JPEG (userland/img.h): pixels, transformed, quantised, coded, packed and
 stuffed into a file, and read back by the decoder's bit reader, Huffman tables, block loop and
 inverse transform.
 */
module JpegPixels {
  import opened Bytes
  import opened JpegBits
  import opened JpegHuffman
  import opened JpegBlocks
  import Idct
  import IdctInverts

  // Pixels less 128, as the forward transform takes them.
  predicate IsBlock(f: seq<int>) {
    |f| == 64 && forall k :: 0 <= k < 64 ==> -128 <= f[k] <= 127
  }

  // No quantiser is 0 or larger than m.
  predicate Steps(q: Quant, m: nat) {
    forall k :: 0 <= k < 64 ==> 0 < q[k] <= m
  }

  // The quantised coefficients of a block, in zig-zag order.
  function Quantise(f: seq<int>, q: Quant, m: nat): (z: Zigzag)
    requires IsBlock(f) && Steps(q, m)
  {
    seq(64, k requires 0 <= k < 64 =>
      JzInverse(k);
      IdctInverts.Rounded(IdctInverts.Coefficients(f)[Jz(k)], q[k]))
  }

  lemma JzReaches(j: nat)
    requires j < 64
    ensures UnJz(j) < 64 && Jz(UnJz(j)) == j
  {
    if j < 8 {
    } else if j < 16 {
    } else if j < 24 {
    } else if j < 32 {
    } else if j < 40 {
    } else if j < 48 {
    } else if j < 56 {
    } else {
    }
  }

  // What the decoder makes of them is within half a step of what they were.
  lemma DequantisedIsClose(blk: seq<int>, f: seq<int>, q: Quant, m: nat)
    requires IsBlock(f) && Steps(q, m) && Dequantised(blk, Quantise(f, q, m), q)
    ensures IdctInverts.Quantised(blk, f, m)
  {
    hide Jz, UnJz, IdctInverts.Coefficients, IdctInverts.Rounded;
    var c := IdctInverts.Coefficients(f);
    forall j | 0 <= j < 64
      ensures var d := c[j] - 0x400_0000 * blk[j]; -0x200_0000 * m <= d <= 0x200_0000 * m
    {
      JzReaches(j);
      var k := UnJz(j);
      assert blk[j] == IdctInverts.Rounded(c[j], q[k]) * q[k];
    }
  }

  // A component's quantisers are steps of at most m.
  predicate AllSteps(cs: seq<Component>, m: nat) {
    forall i :: 0 <= i < |cs| ==> Steps(cs[i].q, m)
  }

  predicate AllBlocks(fs: seq<seq<int>>) {
    forall i :: 0 <= i < |fs| ==> IsBlock(fs[i])
  }

  // The coefficients of every block of a scan.
  function QuantiseAll(fs: seq<seq<int>>, cs: seq<Component>, order: seq<nat>, m: nat): (zs: seq<Zigzag>)
    requires AllBlocks(fs) && AllSteps(cs, m) && |fs| == |order| && forall i :: 0 <= i < |order| ==> order[i] < |cs|
    ensures |zs| == |order|
  {
    seq(|order|, i requires 0 <= i < |order| => Quantise(fs[i], cs[order[i]].q, m))
  }

  // No pixel of the decoded block is further than 3.5 m + 1 from the original, and the 64-bit transform
  // can take the block when its quantisers are bytes.
  predicate Close(blk: seq<int>, f: seq<int>, m: nat)
    requires |f| == 64
  {
    |blk| == 64 &&
    (m <= 255 ==> Idct.Within(blk, Idct.CoefficientMax)) &&
    forall y, x :: 0 <= y < 8 && 0 <= x < 8 ==>
      var d := Idct.Clamped(Idct.Unclamped(blk, x, y)) - (128 + f[8 * y + x]);
      -(7 * m + 2) <= 2 * d <= 7 * m + 2
  }

  lemma BlockComesBack(blk: seq<int>, f: seq<int>, q: Quant, m: nat)
    requires IsBlock(f) && Steps(q, m) && Dequantised(blk, Quantise(f, q, m), q)
    ensures Close(blk, f, m)
  {
    DequantisedIsClose(blk, f, q, m);
    if m <= 255 {
      BlockIsSmall(blk, f, m);
    }
    hide Idct.Unclamped, IdctInverts.Quantised, Quantise;
    forall y, x | 0 <= y < 8 && 0 <= x < 8
      ensures var d := Idct.Clamped(Idct.Unclamped(blk, x, y)) - (128 + f[8 * y + x]);
              -(7 * m + 2) <= 2 * d <= 7 * m + 2
    {
      IdctInverts.DecodedIsClose(f, blk, m, x, y);
    }
  }

  // Coefficients of pixels, and so the blocks read back, are never larger than the inverse transform
  // allows for.
  lemma CoefficientIsSmall(f: seq<int>, k: nat)
    requires IsBlock(f) && k < 64
    ensures -0x20_0000_0000 <= IdctInverts.Coefficients(f)[k] <= 0x20_0000_0000
  {
    hide Idct.Dot, IdctInverts.AbsSum, IdctInverts.HalfWay, IdctInverts.Cosines;
    var h := IdctInverts.HalfWay(f, k / 8);
    IdctInverts.HalfWayBound(f, k / 8);
    IdctInverts.DotWithin(h, IdctInverts.Cosines(k % 8), 8, 0x40_0000);
    IdctInverts.CosinesAdd(k % 8);
  }

  lemma BlockIsSmall(blk: seq<int>, f: seq<int>, m: nat)
    requires IsBlock(f) && IdctInverts.Quantised(blk, f, m) && m <= 255
    ensures Idct.Within(blk, Idct.CoefficientMax)
  {
    hide IdctInverts.Coefficients;
    forall k | 0 <= k < 64
      ensures -Idct.CoefficientMax <= blk[k] <= Idct.CoefficientMax
    {
      CoefficientIsSmall(f, k);
      var rest := IdctInverts.Rest(IdctInverts.Coefficients(f), 0x400_0000, blk);
      assert -0x200_0000 * m <= rest[k] <= 0x200_0000 * m;
    }
  }

  // Any blocks of pixels, for any components, tables that have the symbols and quantisers of at most
  // m, coded into any file at any place: every decoded pixel is within 3.5 m + 1 of the original.
  lemma PixelsComeBack(cs: seq<Component>, order: seq<nat>, preds: seq<int>, fs: seq<seq<int>>, m: nat,
                       before: seq<Byte>, after: seq<Byte>)
    requires ScanShape(cs, order, preds) && AllBlocks(fs) && AllSteps(cs, m) && |fs| == |order|
    requires ScanCodable(cs, order, preds, QuantiseAll(fs, cs, order, m))
    requires forall i :: 0 <= i < |cs| ==> UsableBoth(cs[i])
    ensures var file := before + Segment(ScanBits(cs, order, preds, QuantiseAll(fs, cs, order, m))) + after;
            var blks := ReadScan(Delivered(file, |before|), cs, order, preds).value;
            |blks| == |fs| && forall i :: 0 <= i < |fs| ==> Close(blks[i], fs[i], m)
  {
    hide ScanCodable, ScanBits, ReadScan, Delivered, Segment, UsableBoth, Close, Quantise, Dequantised;
    var zs := QuantiseAll(fs, cs, order, m);
    DecodingInvertsCoding(cs, order, preds, zs, before, after);
    var file := before + Segment(ScanBits(cs, order, preds, zs)) + after;
    var blks := ReadScan(Delivered(file, |before|), cs, order, preds).value;
    forall i | 0 <= i < |fs|
      ensures Close(blks[i], fs[i], m)
    {
      BlockComesBack(blks[i], fs[i], cs[order[i]].q, m);
    }
  }
}
