/** The AES of cifra_eax_aes.c (FIPS 197): key schedule, cipher and inverse cipher. */
module CfAes {
  import opened CfGf128
  import opened Octets

  // ---------------------------------------------------------------- the S-boxes

  /** The entry of a table row at column `k`. */
  function Row(k: octet, c0: octet, c1: octet, c2: octet, c3: octet, c4: octet, c5: octet, c6: octet, c7: octet,
               c8: octet, c9: octet, c10: octet, c11: octet, c12: octet, c13: octet, c14: octet, c15: octet): octet {
    if k < 8 then
      if k < 4 then if k < 2 then if k == 0 then c0 else c1 else if k == 2 then c2 else c3
      else if k < 6 then if k == 4 then c4 else c5 else if k == 6 then c6 else c7
    else if k < 12 then if k < 10 then if k == 8 then c8 else c9 else if k == 10 then c10 else c11
    else if k < 14 then if k == 12 then c12 else c13 else if k == 14 then c14 else c15
  }

  /** `S`. */
  function SBox(a: octet): octet {
    var k := a & 0xf;
    if a < 0x10 then Row(k, 0x63, 0x7c, 0x77, 0x7b, 0xf2, 0x6b, 0x6f, 0xc5, 0x30, 0x01, 0x67, 0x2b, 0xfe, 0xd7, 0xab, 0x76)
    else if a < 0x20 then Row(k, 0xca, 0x82, 0xc9, 0x7d, 0xfa, 0x59, 0x47, 0xf0, 0xad, 0xd4, 0xa2, 0xaf, 0x9c, 0xa4, 0x72, 0xc0)
    else if a < 0x30 then Row(k, 0xb7, 0xfd, 0x93, 0x26, 0x36, 0x3f, 0xf7, 0xcc, 0x34, 0xa5, 0xe5, 0xf1, 0x71, 0xd8, 0x31, 0x15)
    else if a < 0x40 then Row(k, 0x04, 0xc7, 0x23, 0xc3, 0x18, 0x96, 0x05, 0x9a, 0x07, 0x12, 0x80, 0xe2, 0xeb, 0x27, 0xb2, 0x75)
    else if a < 0x50 then Row(k, 0x09, 0x83, 0x2c, 0x1a, 0x1b, 0x6e, 0x5a, 0xa0, 0x52, 0x3b, 0xd6, 0xb3, 0x29, 0xe3, 0x2f, 0x84)
    else if a < 0x60 then Row(k, 0x53, 0xd1, 0x00, 0xed, 0x20, 0xfc, 0xb1, 0x5b, 0x6a, 0xcb, 0xbe, 0x39, 0x4a, 0x4c, 0x58, 0xcf)
    else if a < 0x70 then Row(k, 0xd0, 0xef, 0xaa, 0xfb, 0x43, 0x4d, 0x33, 0x85, 0x45, 0xf9, 0x02, 0x7f, 0x50, 0x3c, 0x9f, 0xa8)
    else if a < 0x80 then Row(k, 0x51, 0xa3, 0x40, 0x8f, 0x92, 0x9d, 0x38, 0xf5, 0xbc, 0xb6, 0xda, 0x21, 0x10, 0xff, 0xf3, 0xd2)
    else if a < 0x90 then Row(k, 0xcd, 0x0c, 0x13, 0xec, 0x5f, 0x97, 0x44, 0x17, 0xc4, 0xa7, 0x7e, 0x3d, 0x64, 0x5d, 0x19, 0x73)
    else if a < 0xa0 then Row(k, 0x60, 0x81, 0x4f, 0xdc, 0x22, 0x2a, 0x90, 0x88, 0x46, 0xee, 0xb8, 0x14, 0xde, 0x5e, 0x0b, 0xdb)
    else if a < 0xb0 then Row(k, 0xe0, 0x32, 0x3a, 0x0a, 0x49, 0x06, 0x24, 0x5c, 0xc2, 0xd3, 0xac, 0x62, 0x91, 0x95, 0xe4, 0x79)
    else if a < 0xc0 then Row(k, 0xe7, 0xc8, 0x37, 0x6d, 0x8d, 0xd5, 0x4e, 0xa9, 0x6c, 0x56, 0xf4, 0xea, 0x65, 0x7a, 0xae, 0x08)
    else if a < 0xd0 then Row(k, 0xba, 0x78, 0x25, 0x2e, 0x1c, 0xa6, 0xb4, 0xc6, 0xe8, 0xdd, 0x74, 0x1f, 0x4b, 0xbd, 0x8b, 0x8a)
    else if a < 0xe0 then Row(k, 0x70, 0x3e, 0xb5, 0x66, 0x48, 0x03, 0xf6, 0x0e, 0x61, 0x35, 0x57, 0xb9, 0x86, 0xc1, 0x1d, 0x9e)
    else if a < 0xf0 then Row(k, 0xe1, 0xf8, 0x98, 0x11, 0x69, 0xd9, 0x8e, 0x94, 0x9b, 0x1e, 0x87, 0xe9, 0xce, 0x55, 0x28, 0xdf)
    else Row(k, 0x8c, 0xa1, 0x89, 0x0d, 0xbf, 0xe6, 0x42, 0x68, 0x41, 0x99, 0x2d, 0x0f, 0xb0, 0x54, 0xbb, 0x16)
  }

  /** `S_inv`. */
  function SBoxInv(a: octet): octet {
    var k := a & 0xf;
    if a < 0x10 then Row(k, 0x52, 0x09, 0x6a, 0xd5, 0x30, 0x36, 0xa5, 0x38, 0xbf, 0x40, 0xa3, 0x9e, 0x81, 0xf3, 0xd7, 0xfb)
    else if a < 0x20 then Row(k, 0x7c, 0xe3, 0x39, 0x82, 0x9b, 0x2f, 0xff, 0x87, 0x34, 0x8e, 0x43, 0x44, 0xc4, 0xde, 0xe9, 0xcb)
    else if a < 0x30 then Row(k, 0x54, 0x7b, 0x94, 0x32, 0xa6, 0xc2, 0x23, 0x3d, 0xee, 0x4c, 0x95, 0x0b, 0x42, 0xfa, 0xc3, 0x4e)
    else if a < 0x40 then Row(k, 0x08, 0x2e, 0xa1, 0x66, 0x28, 0xd9, 0x24, 0xb2, 0x76, 0x5b, 0xa2, 0x49, 0x6d, 0x8b, 0xd1, 0x25)
    else if a < 0x50 then Row(k, 0x72, 0xf8, 0xf6, 0x64, 0x86, 0x68, 0x98, 0x16, 0xd4, 0xa4, 0x5c, 0xcc, 0x5d, 0x65, 0xb6, 0x92)
    else if a < 0x60 then Row(k, 0x6c, 0x70, 0x48, 0x50, 0xfd, 0xed, 0xb9, 0xda, 0x5e, 0x15, 0x46, 0x57, 0xa7, 0x8d, 0x9d, 0x84)
    else if a < 0x70 then Row(k, 0x90, 0xd8, 0xab, 0x00, 0x8c, 0xbc, 0xd3, 0x0a, 0xf7, 0xe4, 0x58, 0x05, 0xb8, 0xb3, 0x45, 0x06)
    else if a < 0x80 then Row(k, 0xd0, 0x2c, 0x1e, 0x8f, 0xca, 0x3f, 0x0f, 0x02, 0xc1, 0xaf, 0xbd, 0x03, 0x01, 0x13, 0x8a, 0x6b)
    else if a < 0x90 then Row(k, 0x3a, 0x91, 0x11, 0x41, 0x4f, 0x67, 0xdc, 0xea, 0x97, 0xf2, 0xcf, 0xce, 0xf0, 0xb4, 0xe6, 0x73)
    else if a < 0xa0 then Row(k, 0x96, 0xac, 0x74, 0x22, 0xe7, 0xad, 0x35, 0x85, 0xe2, 0xf9, 0x37, 0xe8, 0x1c, 0x75, 0xdf, 0x6e)
    else if a < 0xb0 then Row(k, 0x47, 0xf1, 0x1a, 0x71, 0x1d, 0x29, 0xc5, 0x89, 0x6f, 0xb7, 0x62, 0x0e, 0xaa, 0x18, 0xbe, 0x1b)
    else if a < 0xc0 then Row(k, 0xfc, 0x56, 0x3e, 0x4b, 0xc6, 0xd2, 0x79, 0x20, 0x9a, 0xdb, 0xc0, 0xfe, 0x78, 0xcd, 0x5a, 0xf4)
    else if a < 0xd0 then Row(k, 0x1f, 0xdd, 0xa8, 0x33, 0x88, 0x07, 0xc7, 0x31, 0xb1, 0x12, 0x10, 0x59, 0x27, 0x80, 0xec, 0x5f)
    else if a < 0xe0 then Row(k, 0x60, 0x51, 0x7f, 0xa9, 0x19, 0xb5, 0x4a, 0x0d, 0x2d, 0xe5, 0x7a, 0x9f, 0x93, 0xc9, 0x9c, 0xef)
    else if a < 0xf0 then Row(k, 0xa0, 0xe0, 0x3b, 0x4d, 0xae, 0x2a, 0xf5, 0xb0, 0xc8, 0xeb, 0xbb, 0x3c, 0x83, 0x53, 0x99, 0x61)
    else Row(k, 0x17, 0x2b, 0x04, 0x7e, 0xba, 0x77, 0xd6, 0x26, 0xe1, 0x69, 0x14, 0x63, 0x55, 0x21, 0x0c, 0x7d)
  }

  lemma SBoxInverse0(a: octet)
    requires a < 0x40
    ensures SBoxInv(SBox(a)) == a
  {
  }

  lemma SBoxInverse1(a: octet)
    requires 0x40 <= a < 0x80
    ensures SBoxInv(SBox(a)) == a
  {
  }

  lemma SBoxInverse2(a: octet)
    requires 0x80 <= a < 0xc0
    ensures SBoxInv(SBox(a)) == a
  {
  }

  lemma SBoxInverse3(a: octet)
    requires 0xc0 <= a
    ensures SBoxInv(SBox(a)) == a
  {
  }

  /** The second table undoes the first. */
  lemma SBoxInverse(a: octet)
    ensures SBoxInv(SBox(a)) == a
  {
    hide SBox, SBoxInv;
    if a < 0x40 {
      SBoxInverse0(a);
    } else if a < 0x80 {
      SBoxInverse1(a);
    } else if a < 0xc0 {
      SBoxInverse2(a);
    } else {
      SBoxInverse3(a);
    }
  }

  // ---------------------------------------------------------------- words

  /** `sub_word` with a table. */
  function SubWord(w: bv32, sbox: bv8 -> octet): bv32 {
    Word4(sbox(Byte0(w)), sbox(Byte1(w)), sbox(Byte2(w)), sbox(Byte3(w)))
  }

  lemma SubWordInverse(w: bv32)
    ensures SubWord(SubWord(w, SBox), SBoxInv) == w
  {
    hide Word4, Byte0, Byte1, Byte2, Byte3, SBox, SBoxInv;
    Word4Bytes(SBox(Byte0(w)), SBox(Byte1(w)), SBox(Byte2(w)), SBox(Byte3(w)));
    SBoxInverse(Byte0(w));
    SBoxInverse(Byte1(w));
    SBoxInverse(Byte2(w));
    SBoxInverse(Byte3(w));
    BytesWord4(w);
  }

  function Rotr8(x: bv32): bv32 { (x >> 8) | (x << 24) }
  function Rotr16(x: bv32): bv32 { (x >> 16) | (x << 16) }
  function Rotr24(x: bv32): bv32 { (x >> 24) | (x << 8) }

  /** The parts of `gf_poly_mul2`: the low seven bits of each octet, and its top bit. */
  function Low(x: bv32): bv32 { (x & 0x7f7f_7f7f) << 1 }
  function High(x: bv32): bv32 { (x & 0x8080_8080) >> 7 }
  function Reduce(y: bv32): bv32 { y * 0x1b }

  /** `gf_poly_mul2`: four octets doubled at once. */
  function MulTwo(x: bv32): bv32 {
    Xor32(Low(x), Reduce(High(x)))
  }

  /** `mix_column`. */
  function MixColumn(x: bv32): bv32 {
    var x2 := MulTwo(x);
    Xor32(Xor32(Xor32(x2, Rotr24(Xor32(x, x2))), Rotr16(x)), Rotr8(x))
  }

  /** `inv_mix_column`. */
  function InvMixColumn(x: bv32): bv32 {
    var x2 := MulTwo(x);
    var x4 := MulTwo(x2);
    var x9 := Xor32(x, MulTwo(x4));
    var x11 := Xor32(x2, x9);
    var x13 := Xor32(x4, x9);
    Xor32(Xor32(Xor32(Xor32(Xor32(x, x2), x13), Rotr24(x11)), Rotr16(x13)), Rotr8(x9))
  }

  // ---------------------------------------------------------------- columns, by FIPS 197 section 4.2

  /** Doubling in GF(2^8). */
  function XTime(b: octet): octet {
    if b < 0x80 then b << 1 else (b << 1) ^ 0x1b
  }

  lemma MulTwoBytes(a: octet, b: octet, c: octet, d: octet)
    ensures MulTwo(Word4(a, b, c, d)) == Word4(XTime(a), XTime(b), XTime(c), XTime(d))
  {
  }

  lemma Rotr8Bytes(a: octet, b: octet, c: octet, d: octet)
    ensures Rotr8(Word4(a, b, c, d)) == Word4(d, a, b, c)
  {
  }

  lemma Rotr16Bytes(a: octet, b: octet, c: octet, d: octet)
    ensures Rotr16(Word4(a, b, c, d)) == Word4(c, d, a, b)
  {
  }

  lemma Rotr24Bytes(a: octet, b: octet, c: octet, d: octet)
    ensures Rotr24(Word4(a, b, c, d)) == Word4(b, c, d, a)
  {
  }

  function Xor8(a: octet, b: octet): octet {
    a ^ b
  }

  lemma Word4Xor(a: octet, b: octet, c: octet, d: octet, a': octet, b': octet, c': octet, d': octet)
    ensures Xor32(Word4(a, b, c, d), Word4(a', b', c', d')) == Word4(Xor8(a, a'), Xor8(b, b'), Xor8(c, c'), Xor8(d, d'))
  {
  }

  /** A column of the matrix product: twice `a`, three times `b`, and the other two. */
  function ColumnByte(a: octet, b: octet, c: octet, d: octet): octet {
    Xor8(Xor8(Xor8(XTime(a), Xor8(b, XTime(b))), c), d)
  }

  /** `mix_column` is the matrix product of section 5.1.3 of FIPS 197. */
  lemma MixColumnBytes(a: octet, b: octet, c: octet, d: octet)
    ensures MixColumn(Word4(a, b, c, d))
         == Word4(ColumnByte(a, b, c, d), ColumnByte(b, c, d, a), ColumnByte(c, d, a, b), ColumnByte(d, a, b, c))
  {
    hide Word4, XTime, Xor8, Xor32, MulTwo, Rotr8, Rotr16, Rotr24;
    var p, q, r, s := XTime(a), XTime(b), XTime(c), XTime(d);
    var t, u, v, w := Xor8(a, p), Xor8(b, q), Xor8(c, r), Xor8(d, s);
    MulTwoBytes(a, b, c, d);
    Word4Xor(a, b, c, d, p, q, r, s);
    Rotr24Bytes(t, u, v, w);
    Rotr16Bytes(a, b, c, d);
    Rotr8Bytes(a, b, c, d);
    Word4Xor(p, q, r, s, u, v, w, t);
    Word4Xor(Xor8(p, u), Xor8(q, v), Xor8(r, w), Xor8(s, t), c, d, a, b);
    Word4Xor(Xor8(Xor8(p, u), c), Xor8(Xor8(q, v), d), Xor8(Xor8(r, w), a), Xor8(Xor8(s, t), b), d, a, b, c);
  }

  /** The product of two octets in GF(2^8). */
  function Times(a: octet, b: octet): octet {
    var a1 := XTime(a);
    var a2 := XTime(a1);
    var a3 := XTime(a2);
    var a4 := XTime(a3);
    var a5 := XTime(a4);
    var a6 := XTime(a5);
    var a7 := XTime(a6);
    (if b & 0x01 != 0 then a else 0) ^ (if b & 0x02 != 0 then a1 else 0) ^ (if b & 0x04 != 0 then a2 else 0)
    ^ (if b & 0x08 != 0 then a3 else 0) ^ (if b & 0x10 != 0 then a4 else 0) ^ (if b & 0x20 != 0 then a5 else 0)
    ^ (if b & 0x40 != 0 then a6 else 0) ^ (if b & 0x80 != 0 then a7 else 0)
  }

  /** The affine transformation of section 5.1.1 of FIPS 197. */
  function Affine(b: octet): octet {
    b ^ ((b << 1) | (b >> 7)) ^ ((b << 2) | (b >> 6)) ^ ((b << 3) | (b >> 5)) ^ ((b << 4) | (b >> 4)) ^ 0x63
  }

  function Unaffine(b: octet): octet {
    ((b << 1) | (b >> 7)) ^ ((b << 3) | (b >> 5)) ^ ((b << 6) | (b >> 2)) ^ 0x05
  }

  lemma UnaffineExact(b: octet)
    ensures Affine(Unaffine(b)) == b && Unaffine(Affine(b)) == b
  {
  }

  lemma SBoxProductLow(a: octet)
    requires a < 0x80
    ensures Times(a, Unaffine(SBox(a))) == if a == 0 then 0 else 1
  {
  }

  lemma SBoxProductHigh(a: octet)
    requires 0x80 <= a
    ensures Times(a, Unaffine(SBox(a))) == 1
  {
  }

  /** The multiplicative inverse in GF(2^8), which is 0 for 0. */
  predicate InverseOf(b: octet, a: octet) {
    if a == 0 then b == 0 else Times(a, b) == 1
  }

  /** `S` is the affine transformation of the multiplicative inverse. */
  lemma SBoxIsAffineInverse(a: octet) returns (b: octet)
    ensures InverseOf(b, a) && SBox(a) == Affine(b)
  {
    b := Unaffine(SBox(a));
    if a == 0 {
      assert SBox(0) == 0x63 && Unaffine(0x63) == 0;
    }
    hide SBox, Affine, Unaffine, Times;
    UnaffineExact(SBox(a));
    if a < 0x80 {
      SBoxProductLow(a);
    } else {
      SBoxProductHigh(a);
    }
  }

  // ---------------------------------------------------------------- the columns are linear

  lemma LowXor(a: bv32, b: bv32)
    ensures Low(Xor32(a, b)) == Xor32(Low(a), Low(b))
  {
  }

  lemma HighXor(a: bv32, b: bv32)
    ensures High(Xor32(a, b)) == Xor32(High(a), High(b))
  {
  }

  lemma HighBits(x: bv32)
    ensures High(x) & 0x0101_0101 == High(x)
  {
  }

  lemma Rotr8Xor(a: bv32, b: bv32)
    ensures Rotr8(Xor32(a, b)) == Xor32(Rotr8(a), Rotr8(b))
  {
  }

  lemma Rotr16Xor(a: bv32, b: bv32)
    ensures Rotr16(Xor32(a, b)) == Xor32(Rotr16(a), Rotr16(b))
  {
  }

  lemma Rotr24Xor(a: bv32, b: bv32)
    ensures Rotr24(Xor32(a, b)) == Xor32(Rotr24(a), Rotr24(b))
  {
  }

  function Up1(y: bv32): bv32 { y << 1 }
  function Up3(y: bv32): bv32 { y << 3 }
  function Up4(y: bv32): bv32 { y << 4 }

  lemma Up1Xor(a: bv32, b: bv32)
    ensures Up1(Xor32(a, b)) == Xor32(Up1(a), Up1(b))
  {
  }

  lemma Up3Xor(a: bv32, b: bv32)
    ensures Up3(Xor32(a, b)) == Xor32(Up3(a), Up3(b))
  {
  }

  lemma Up4Xor(a: bv32, b: bv32)
    ensures Up4(Xor32(a, b)) == Xor32(Up4(a), Up4(b))
  {
  }

  /** The product by 0x1b has no carries on one bit per octet. */
  lemma ReduceShifts(y: bv32)
    requires y & 0x0101_0101 == y
    ensures Reduce(y) == Xor32(Xor32(Xor32(y, Up1(y)), Up3(y)), Up4(y))
  {
  }

  lemma ReduceXor(a: bv32, b: bv32)
    requires a & 0x0101_0101 == a && b & 0x0101_0101 == b && Xor32(a, b) & 0x0101_0101 == Xor32(a, b)
    ensures Reduce(Xor32(a, b)) == Xor32(Reduce(a), Reduce(b))
  {
    hide Reduce, Xor32, Up1, Up3, Up4;
    ReduceShifts(a);
    ReduceShifts(b);
    ReduceShifts(Xor32(a, b));
    Up1Xor(a, b);
    Up3Xor(a, b);
    Up4Xor(a, b);
    Xor32Swap(a, Up1(a), b, Up1(b));
    Xor32Swap(Xor32(a, Up1(a)), Up3(a), Xor32(b, Up1(b)), Up3(b));
    Xor32Swap(Xor32(Xor32(a, Up1(a)), Up3(a)), Up4(a), Xor32(Xor32(b, Up1(b)), Up3(b)), Up4(b));
  }

  lemma MulTwoXor(a: bv32, b: bv32)
    ensures MulTwo(Xor32(a, b)) == Xor32(MulTwo(a), MulTwo(b))
  {
    hide Xor32, Low, High, Reduce;
    LowXor(a, b);
    HighXor(a, b);
    HighBits(a);
    HighBits(b);
    HighBits(Xor32(a, b));
    ReduceXor(High(a), High(b));
    Xor32Swap(Low(a), Reduce(High(a)), Low(b), Reduce(High(b)));
  }

  lemma MixColumnXor(a: bv32, b: bv32)
    ensures MixColumn(Xor32(a, b)) == Xor32(MixColumn(a), MixColumn(b))
  {
    hide Xor32, MulTwo, Rotr8, Rotr16, Rotr24;
    var a2, b2 := MulTwo(a), MulTwo(b);
    MulTwoXor(a, b);
    Xor32Swap(a, b, a2, b2);
    Rotr24Xor(Xor32(a, a2), Xor32(b, b2));
    Rotr16Xor(a, b);
    Rotr8Xor(a, b);
    var p, q := Xor32(a2, Rotr24(Xor32(a, a2))), Xor32(b2, Rotr24(Xor32(b, b2)));
    Xor32Swap(a2, Rotr24(Xor32(a, a2)), b2, Rotr24(Xor32(b, b2)));
    Xor32Swap(p, Rotr16(a), q, Rotr16(b));
    Xor32Swap(Xor32(p, Rotr16(a)), Rotr8(a), Xor32(q, Rotr16(b)), Rotr8(b));
  }

  /** Sums that are added one term at a time. */
  lemma SumXor(a: seq<bv32>, b: seq<bv32>)
    requires |a| == |b| == 6
    ensures Sum6(Xor32(a[0], b[0]), Xor32(a[1], b[1]), Xor32(a[2], b[2]), Xor32(a[3], b[3]), Xor32(a[4], b[4]), Xor32(a[5], b[5]))
         == Xor32(Sum6(a[0], a[1], a[2], a[3], a[4], a[5]), Sum6(b[0], b[1], b[2], b[3], b[4], b[5]))
  {
    hide Xor32;
    var p, q := a[0], b[0];
    Xor32Swap(p, a[1], q, b[1]);
    p, q := Xor32(p, a[1]), Xor32(q, b[1]);
    Xor32Swap(p, a[2], q, b[2]);
    p, q := Xor32(p, a[2]), Xor32(q, b[2]);
    Xor32Swap(p, a[3], q, b[3]);
    p, q := Xor32(p, a[3]), Xor32(q, b[3]);
    Xor32Swap(p, a[4], q, b[4]);
    p, q := Xor32(p, a[4]), Xor32(q, b[4]);
    Xor32Swap(p, a[5], q, b[5]);
  }

  function Sum6(a: bv32, b: bv32, c: bv32, d: bv32, e: bv32, f: bv32): bv32 {
    Xor32(Xor32(Xor32(Xor32(Xor32(a, b), c), d), e), f)
  }

  lemma InvMixColumnXor(a: bv32, b: bv32)
    ensures InvMixColumn(Xor32(a, b)) == Xor32(InvMixColumn(a), InvMixColumn(b))
  {
    hide Xor32, MulTwo, Rotr8, Rotr16, Rotr24;
    var a2, b2 := MulTwo(a), MulTwo(b);
    var a4, b4 := MulTwo(a2), MulTwo(b2);
    MulTwoXor(a, b);
    MulTwoXor(a2, b2);
    MulTwoXor(a4, b4);
    Xor32Swap(a, MulTwo(a4), b, MulTwo(b4));
    var a9, b9 := Xor32(a, MulTwo(a4)), Xor32(b, MulTwo(b4));
    Xor32Swap(a2, a9, b2, b9);
    Xor32Swap(a4, a9, b4, b9);
    var a11, b11, a13, b13 := Xor32(a2, a9), Xor32(b2, b9), Xor32(a4, a9), Xor32(b4, b9);
    Rotr24Xor(a11, b11);
    Rotr16Xor(a13, b13);
    Rotr8Xor(a9, b9);
    SumXor([a, a2, a13, Rotr24(a11), Rotr16(a13), Rotr8(a9)], [b, b2, b13, Rotr24(b11), Rotr16(b13), Rotr8(b9)]);
  }

  // ---------------------------------------------------------------- the columns are inverse

  function Mixed(x: bv32): bv32 {
    InvMixColumn(MixColumn(x))
  }

  lemma MixedByte0(a: octet)
    ensures Mixed(Word4(a, 0, 0, 0)) == Word4(a, 0, 0, 0)
  {
  }

  lemma MixedByte1(a: octet)
    ensures Mixed(Word4(0, a, 0, 0)) == Word4(0, a, 0, 0)
  {
  }

  lemma MixedByte2(a: octet)
    ensures Mixed(Word4(0, 0, a, 0)) == Word4(0, 0, a, 0)
  {
  }

  lemma MixedByte3(a: octet)
    ensures Mixed(Word4(0, 0, 0, a)) == Word4(0, 0, 0, a)
  {
  }

  lemma MixedXor(a: bv32, b: bv32)
    ensures Mixed(Xor32(a, b)) == Xor32(Mixed(a), Mixed(b))
  {
    hide Xor32, MixColumn, InvMixColumn;
    MixColumnXor(a, b);
    InvMixColumnXor(MixColumn(a), MixColumn(b));
  }

  lemma WordOfBytes(a: octet, b: octet, c: octet, d: octet)
    ensures Word4(a, b, c, d)
         == Xor32(Xor32(Word4(a, 0, 0, 0), Word4(0, b, 0, 0)), Xor32(Word4(0, 0, c, 0), Word4(0, 0, 0, d)))
  {
  }

  /** `inv_mix_column` undoes `mix_column` on every word. */
  lemma MixColumnInverse(x: bv32)
    ensures InvMixColumn(MixColumn(x)) == x
  {
    assert InvMixColumn(MixColumn(x)) == Mixed(x);
    hide Xor32, Mixed, Word4, Byte0, Byte1, Byte2, Byte3;
    var a, b, c, d := Byte0(x), Byte1(x), Byte2(x), Byte3(x);
    BytesWord4(x);
    WordOfBytes(a, b, c, d);
    MixedByte0(a);
    MixedByte1(b);
    MixedByte2(c);
    MixedByte3(d);
    MixedXor(Word4(a, 0, 0, 0), Word4(0, b, 0, 0));
    MixedXor(Word4(0, 0, c, 0), Word4(0, 0, 0, d));
    MixedXor(Xor32(Word4(a, 0, 0, 0), Word4(0, b, 0, 0)), Xor32(Word4(0, 0, c, 0), Word4(0, 0, 0, d)));
  }

  // ---------------------------------------------------------------- the state

  function SubState(s: Words, sbox: bv8 -> octet): Words {
    Words(SubWord(s.w0, sbox), SubWord(s.w1, sbox), SubWord(s.w2, sbox), SubWord(s.w3, sbox))
  }

  /** The word of the first octet of `a`, the second of `b`, the third of `c` and the last of `d`. */
  function Diagonal(a: bv32, b: bv32, c: bv32, d: bv32): bv32 {
    Word4(Byte0(a), Byte1(b), Byte2(c), Byte3(d))
  }

  /** `shift_rows`. */
  function ShiftRows(s: Words): Words {
    Words(Diagonal(s.w0, s.w1, s.w2, s.w3), Diagonal(s.w1, s.w2, s.w3, s.w0),
          Diagonal(s.w2, s.w3, s.w0, s.w1), Diagonal(s.w3, s.w0, s.w1, s.w2))
  }

  /** `inv_shift_rows`. */
  function InvShiftRows(s: Words): Words {
    Words(Diagonal(s.w0, s.w3, s.w2, s.w1), Diagonal(s.w1, s.w0, s.w3, s.w2),
          Diagonal(s.w2, s.w1, s.w0, s.w3), Diagonal(s.w3, s.w2, s.w1, s.w0))
  }

  function MixColumns(s: Words): Words {
    Words(MixColumn(s.w0), MixColumn(s.w1), MixColumn(s.w2), MixColumn(s.w3))
  }

  function InvMixColumns(s: Words): Words {
    Words(InvMixColumn(s.w0), InvMixColumn(s.w1), InvMixColumn(s.w2), InvMixColumn(s.w3))
  }

  lemma DiagonalBytes(a: bv32, b: bv32, c: bv32, d: bv32)
    ensures Byte0(Diagonal(a, b, c, d)) == Byte0(a) && Byte1(Diagonal(a, b, c, d)) == Byte1(b)
    ensures Byte2(Diagonal(a, b, c, d)) == Byte2(c) && Byte3(Diagonal(a, b, c, d)) == Byte3(d)
    ensures Diagonal(a, a, a, a) == a
  {
    hide Word4, Byte0, Byte1, Byte2, Byte3;
    Word4Bytes(Byte0(a), Byte1(b), Byte2(c), Byte3(d));
    BytesWord4(a);
  }

  lemma ShiftRowsInverse(s: Words)
    ensures InvShiftRows(ShiftRows(s)) == s
  {
    hide Word4, Byte0, Byte1, Byte2, Byte3;
    DiagonalBytes(s.w0, s.w1, s.w2, s.w3);
    DiagonalBytes(s.w1, s.w2, s.w3, s.w0);
    DiagonalBytes(s.w2, s.w3, s.w0, s.w1);
    DiagonalBytes(s.w3, s.w0, s.w1, s.w2);
  }

  lemma SubStateInverse(s: Words)
    ensures SubState(SubState(s, SBox), SBoxInv) == s
  {
    hide SubWord;
    SubWordInverse(s.w0);
    SubWordInverse(s.w1);
    SubWordInverse(s.w2);
    SubWordInverse(s.w3);
  }

  lemma MixColumnsInverse(s: Words)
    ensures InvMixColumns(MixColumns(s)) == s
  {
    hide MixColumn, InvMixColumn;
    MixColumnInverse(s.w0);
    MixColumnInverse(s.w1);
    MixColumnInverse(s.w2);
    MixColumnInverse(s.w3);
  }

  lemma AddTwice(s: Words, k: Words)
    ensures Add(Add(s, k), k) == s
  {
    hide Add;
    AddAssociative(s, k, k);
    AddZero(k);
    AddZero(s);
  }

  function Word(s: Words, c: nat): bv32
    requires c < 4
  {
    if c == 0 then s.w0 else if c == 1 then s.w1 else if c == 2 then s.w2 else s.w3
  }

  /** The octet in row `r` of column `c`. */
  function Cell(s: Words, r: nat, c: nat): octet
    requires r < 4 && c < 4
  {
    var w := Word(s, c);
    if r == 0 then Byte0(w) else if r == 1 then Byte1(w) else if r == 2 then Byte2(w) else Byte3(w)
  }

  /** `shift_rows` moves row `r` left by `r` places, as section 5.1.2 of FIPS 197 has it. */
  lemma ShiftRowsCells(s: Words, r: nat, c: nat)
    requires r < 4 && c < 4
    ensures Cell(ShiftRows(s), r, c) == Cell(s, r, if c + r < 4 then c + r else c + r - 4)
  {
    hide Word4, Byte0, Byte1, Byte2, Byte3, Diagonal;
    if c == 0 {
      DiagonalBytes(s.w0, s.w1, s.w2, s.w3);
    } else if c == 1 {
      DiagonalBytes(s.w1, s.w2, s.w3, s.w0);
    } else if c == 2 {
      DiagonalBytes(s.w2, s.w3, s.w0, s.w1);
    } else {
      DiagonalBytes(s.w3, s.w0, s.w1, s.w2);
    }
  }

  // ---------------------------------------------------------------- cipher and inverse cipher

  /** Round key `r` of an expanded key. */
  function RoundKey(ks: seq<bv32>, r: nat): Words
    requires 4 * r + 3 < |ks|
  {
    Words(ks[4 * r], ks[4 * r + 1], ks[4 * r + 2], ks[4 * r + 3])
  }

  /** The state of the cipher after `r` full rounds (section 5.1 of FIPS 197). */
  function Rounds(ks: seq<bv32>, s: Words, r: nat): Words
    requires 4 * r + 3 < |ks|
  {
    if r == 0 then Add(s, RoundKey(ks, 0))
    else Add(MixColumns(ShiftRows(SubState(Rounds(ks, s, r - 1), SBox))), RoundKey(ks, r))
  }

  function Encrypt(ks: seq<bv32>, rounds: nat, s: Words): Words
    requires rounds > 0 && |ks| == 4 * (rounds + 1)
  {
    Add(ShiftRows(SubState(Rounds(ks, s, rounds - 1), SBox)), RoundKey(ks, rounds))
  }

  lemma CellXor(a: bv32, b: bv32)
    ensures Byte0(Xor32(a, b)) == Xor8(Byte0(a), Byte0(b)) && Byte1(Xor32(a, b)) == Xor8(Byte1(a), Byte1(b))
    ensures Byte2(Xor32(a, b)) == Xor8(Byte2(a), Byte2(b)) && Byte3(Xor32(a, b)) == Xor8(Byte3(a), Byte3(b))
  {
    Word4Xor(Byte0(a), Byte1(a), Byte2(a), Byte3(a), Byte0(b), Byte1(b), Byte2(b), Byte3(b));
    hide Word4, Byte0, Byte1, Byte2, Byte3, Xor32, Xor8;
    BytesWord4(a);
    BytesWord4(b);
    Word4Bytes(Xor8(Byte0(a), Byte0(b)), Xor8(Byte1(a), Byte1(b)), Xor8(Byte2(a), Byte2(b)), Xor8(Byte3(a), Byte3(b)));
  }

  /** Octet `i` of a word. */
  function OctetOf(w: bv32, i: nat): octet
    requires i < 4
  {
    if i == 0 then Byte0(w) else if i == 1 then Byte1(w) else if i == 2 then Byte2(w) else Byte3(w)
  }

  lemma CellIs(s: Words, i: nat, c: nat)
    requires i < 4 && c < 4
    ensures Cell(s, i, c) == OctetOf(Word(s, c), i)
  {
    hide Byte0, Byte1, Byte2, Byte3, Word;
  }

  lemma AddCell(s: Words, k: Words, i: nat, c: nat)
    requires i < 4 && c < 4
    ensures Cell(Add(s, k), i, c) == Xor8(Cell(s, i, c), Cell(k, i, c))
  {
    hide Byte0, Byte1, Byte2, Byte3, Xor32, Xor8;
    CellXor(Word(s, c), Word(k, c));
  }

  lemma SubOctet(w: bv32, i: nat)
    requires i < 4
    ensures OctetOf(SubWord(w, SBox), i) == SBox(OctetOf(w, i))
  {
    hide Byte0, Byte1, Byte2, Byte3, Word4, SBox;
    Word4Bytes(SBox(Byte0(w)), SBox(Byte1(w)), SBox(Byte2(w)), SBox(Byte3(w)));
  }

  lemma WordsOf(s: Words, c: nat)
    requires c < 4
    ensures Word(SubState(s, SBox), c) == SubWord(Word(s, c), SBox) && Word(MixColumns(s), c) == MixColumn(Word(s, c))
  {
    hide SubWord, MixColumn, SBox;
  }

  lemma SubCell(s: Words, i: nat, c: nat)
    requires i < 4 && c < 4
    ensures Cell(SubState(s, SBox), i, c) == SBox(Cell(s, i, c))
  {
    hide *;
    CellIs(s, i, c);
    CellIs(SubState(s, SBox), i, c);
    WordsOf(s, c);
    SubOctet(Word(s, c), i);
  }

  lemma MixOctet(w: bv32, i: nat)
    requires i < 4
    ensures OctetOf(MixColumn(w), i)
         == ColumnByte(OctetOf(w, i), OctetOf(w, (i + 1) % 4), OctetOf(w, (i + 2) % 4), OctetOf(w, (i + 3) % 4))
  {
    hide Byte0, Byte1, Byte2, Byte3, Word4, MixColumn, ColumnByte;
    var p, q, r, t := Byte0(w), Byte1(w), Byte2(w), Byte3(w);
    BytesWord4(w);
    MixColumnBytes(p, q, r, t);
    Word4Bytes(ColumnByte(p, q, r, t), ColumnByte(q, r, t, p), ColumnByte(r, t, p, q), ColumnByte(t, p, q, r));
  }

  lemma MixCell(s: Words, i: nat, c: nat)
    requires i < 4 && c < 4
    ensures Cell(MixColumns(s), i, c)
         == ColumnByte(Cell(s, i, c), Cell(s, (i + 1) % 4, c), Cell(s, (i + 2) % 4, c), Cell(s, (i + 3) % 4, c))
  {
    hide *;
    CellIs(s, i, c);
    CellIs(s, (i + 1) % 4, c);
    CellIs(s, (i + 2) % 4, c);
    CellIs(s, (i + 3) % 4, c);
    CellIs(MixColumns(s), i, c);
    WordsOf(s, c);
    MixOctet(Word(s, c), i);
  }

  /** The substituted octet that the row shift brings to a cell. */
  function Fed(s: Words, i: nat, c: nat): octet
    requires i < 4 && c < 4
  {
    SBox(Cell(s, i, (c + i) % 4))
  }

  lemma ShiftedCell(s: Words, i: nat, c: nat)
    requires i < 4 && c < 4
    ensures Cell(ShiftRows(SubState(s, SBox)), i, c) == Fed(s, i, c)
  {
    hide ShiftRows, SubState, SBox, Cell;
    ShiftRowsCells(SubState(s, SBox), i, c);
    SubCell(s, i, (c + i) % 4);
  }

  /** A round, cell by cell (sections 5.1.1 to 5.1.4 of FIPS 197): twice one substituted octet of the
      shifted column, three times the next, the other two, and the octet of the round key. */
  lemma RoundCells(ks: seq<bv32>, s: Words, r: nat, i: nat, c: nat)
    requires 4 * r + 3 < |ks| && i < 4 && c < 4
    ensures r == 0 ==> Cell(Rounds(ks, s, r), i, c) == Xor8(Cell(s, i, c), Cell(RoundKey(ks, 0), i, c))
    ensures r > 0 ==>
      var t := Rounds(ks, s, r - 1);
      Cell(Rounds(ks, s, r), i, c)
      == Xor8(ColumnByte(Fed(t, i, c), Fed(t, (i + 1) % 4, c), Fed(t, (i + 2) % 4, c), Fed(t, (i + 3) % 4, c)),
              Cell(RoundKey(ks, r), i, c))
  {
    hide Cell, Add, MixColumns, ShiftRows, SubState, Fed, RoundKey, ColumnByte, Xor8;
    if r == 0 {
      AddCell(s, RoundKey(ks, 0), i, c);
    } else {
      var t := Rounds(ks, s, r - 1);
      var u := ShiftRows(SubState(t, SBox));
      AddCell(MixColumns(u), RoundKey(ks, r), i, c);
      MixCell(u, i, c);
      ShiftedCell(t, i, c);
      ShiftedCell(t, (i + 1) % 4, c);
      ShiftedCell(t, (i + 2) % 4, c);
      ShiftedCell(t, (i + 3) % 4, c);
    }
  }

  /** The last round has no column step. */
  lemma LastRoundCells(ks: seq<bv32>, rounds: nat, s: Words, i: nat, c: nat)
    requires rounds > 0 && |ks| == 4 * (rounds + 1) && i < 4 && c < 4
    ensures Cell(Encrypt(ks, rounds, s), i, c)
         == Xor8(Fed(Rounds(ks, s, rounds - 1), i, c), Cell(RoundKey(ks, rounds), i, c))
  {
    hide Cell, Add, ShiftRows, SubState, Fed, RoundKey, Rounds, Xor8;
    var t := Rounds(ks, s, rounds - 1);
    AddCell(ShiftRows(SubState(t, SBox)), RoundKey(ks, rounds), i, c);
    ShiftedCell(t, i, c);
  }

  /** Round key `r` has the words from `4 * r` on as its columns. */
  lemma KeyCells(ks: seq<bv32>, r: nat, c: nat)
    requires 4 * r + 3 < |ks| && c < 4
    ensures Word(RoundKey(ks, r), c) == ks[4 * r + c]
  {
  }

  /** The state of the inverse cipher with rounds `r` down to 1 to go (section 5.3 of FIPS 197). */
  function InvRounds(ks: seq<bv32>, rounds: nat, c: Words, r: nat): Words
    requires r < rounds && |ks| == 4 * (rounds + 1)
    decreases rounds - r
  {
    if r == rounds - 1 then Add(c, RoundKey(ks, rounds))
    else InvMixColumns(Add(SubState(InvShiftRows(InvRounds(ks, rounds, c, r + 1)), SBoxInv), RoundKey(ks, r + 1)))
  }

  function Decrypt(ks: seq<bv32>, rounds: nat, c: Words): Words
    requires rounds > 0 && |ks| == 4 * (rounds + 1)
  {
    Add(SubState(InvShiftRows(InvRounds(ks, rounds, c, 0)), SBoxInv), RoundKey(ks, 0))
  }

  /** Stripping a round: rows and S-box. */
  lemma StripRound(s: Words)
    ensures SubState(InvShiftRows(ShiftRows(SubState(s, SBox))), SBoxInv) == s
  {
    hide SubState, InvShiftRows, ShiftRows;
    ShiftRowsInverse(SubState(s, SBox));
    SubStateInverse(s);
  }

  /** With `r` rounds to go, the inverse cipher has the state the cipher had after `r` rounds, but
      for the rows and the S-box. */
  lemma {:induction false} InvRoundsMeetRounds(ks: seq<bv32>, rounds: nat, s: Words, r: nat)
    requires r < rounds && |ks| == 4 * (rounds + 1)
    ensures InvRounds(ks, rounds, Encrypt(ks, rounds, s), r) == ShiftRows(SubState(Rounds(ks, s, r), SBox))
    decreases rounds - r
  {
    hide SubState, InvShiftRows, ShiftRows, MixColumns, InvMixColumns, Add, RoundKey;
    if r == rounds - 1 {
      AddTwice(ShiftRows(SubState(Rounds(ks, s, r), SBox)), RoundKey(ks, rounds));
    } else {
      InvRoundsMeetRounds(ks, rounds, s, r + 1);
      StripRound(Rounds(ks, s, r + 1));
      var t := ShiftRows(SubState(Rounds(ks, s, r), SBox));
      AddTwice(MixColumns(t), RoundKey(ks, r + 1));
      MixColumnsInverse(t);
    }
  }

  /** The inverse cipher undoes the cipher, for every expanded key and every block. */
  lemma DecryptEncrypt(ks: seq<bv32>, rounds: nat, s: Words)
    requires rounds > 0 && |ks| == 4 * (rounds + 1)
    ensures Decrypt(ks, rounds, Encrypt(ks, rounds, s)) == s
  {
    hide SubState, InvShiftRows, ShiftRows, Add, RoundKey, InvRounds, Encrypt;
    InvRoundsMeetRounds(ks, rounds, s, 0);
    StripRound(Rounds(ks, s, 0));
    AddTwice(s, RoundKey(ks, 0));
  }
}
