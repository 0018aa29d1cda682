/** Octets as bits, and the words of four of them. */
module Octets {
  type octet = bv8

  /** The octets of a word, numbered from the most significant. */
  function Byte0(w: bv32): octet { (w >> 24) as bv8 }
  function Byte1(w: bv32): octet { ((w >> 16) & 0xff) as bv8 }
  function Byte2(w: bv32): octet { ((w >> 8) & 0xff) as bv8 }
  function Byte3(w: bv32): octet { (w & 0xff) as bv8 }

  /** The word of four octets. */
  function Word4(a: octet, b: octet, c: octet, d: octet): bv32 {
    (a as bv32 << 24) | (b as bv32 << 16) | (c as bv32 << 8) | d as bv32
  }

  lemma Word4Bytes(a: octet, b: octet, c: octet, d: octet)
    ensures Byte0(Word4(a, b, c, d)) == a && Byte1(Word4(a, b, c, d)) == b
    ensures Byte2(Word4(a, b, c, d)) == c && Byte3(Word4(a, b, c, d)) == d
  {
  }

  lemma BytesWord4(w: bv32)
    ensures Word4(Byte0(w), Byte1(w), Byte2(w), Byte3(w)) == w
  {
  }
}
