/**
 Bytes, and the hash that the style sheet engine files names by.
 */
module Bytes {
  type Byte = b: int | 0 <= b < 256

  // FNV-1a, folding in one byte after another.
  function Fnv1a(s: seq<Byte>, h: bv32): (r: bv32) {
    if s == [] then h else Fnv1a(s[1..], (h ^ (s[0] as bv32)) * 16777619)
  }

  const FNV_START: bv32 := 2166136261
}
