/** gf128.c: the field GF(2^128) on four words. */
module CfGf128 {
  import opened CfBits
  import opened Octets

  /** A block of 128 bits. */
  datatype Words = Words(w0: bv32, w1: bv32, w2: bv32, w3: bv32) {
    /** Bit `i`, counted from the most significant bit of the first word. */
    function Bit(i: bv8): bool
      requires i < 128
    {
      BitOf(Word(i >> 5), i & 31)
    }

    function Word(k: bv8): bv32 {
      if k == 0 then w0 else if k == 1 then w1 else if k == 2 then w2 else w3
    }
  }

  const ZERO: Words := Words(0, 0, 0, 0)

  /** The multiplicative identity: bit 0 alone. */
  const ONE: Words := Words(0x8000_0000, 0, 0, 0)

  function BitOf(w: bv32, i: bv8): bool
    requires i < 32
  {
    (w >> (31 - i)) & 1 == 1
  }

  /** `cf_gf128_add`. */
  function Add(x: Words, y: Words): Words {
    Words(Xor32(x.w0, y.w0), Xor32(x.w1, y.w1), Xor32(x.w2, y.w2), Xor32(x.w3, y.w3))
  }

  function Xor32(a: bv32, b: bv32): bv32 {
    a ^ b
  }

  /** A word shifted by one bit, with the bit that comes in from its neighbour. */
  function Up(w: bv32, lo: bv32): bv32 {
    (w << 1) | (lo >> 31)
  }

  function Down(w: bv32, hi: bv32): bv32 {
    (w >> 1) | ((hi & 1) << 31)
  }

  function ShiftLeft(v: Words): Words {
    Words(Up(v.w0, v.w1), Up(v.w1, v.w2), Up(v.w2, v.w3), Up(v.w3, 0))
  }

  function ShiftRight(v: Words): Words {
    Words(Down(v.w0, 0), Down(v.w1, v.w0), Down(v.w2, v.w1), Down(v.w3, v.w2))
  }

  /** Doubling as section 6.1 of NIST SP 800-38B derives its subkeys. */
  function Double(v: Words): Words {
    if v.Bit(0) then Add(ShiftLeft(v), Words(0, 0, 0, 0x87)) else ShiftLeft(v)
  }

  /** Doubling in the bit order of section 6.3 of NIST SP 800-38D. */
  function DoubleLe(v: Words): Words {
    if v.Bit(127) then Add(ShiftRight(v), Words(0xe100_0000, 0, 0, 0)) else ShiftRight(v)
  }

  function Term(x: Words, v: Words, i: bv8): Words
    requires i < 128
  {
    if x.Bit(i) then v else ZERO
  }

  /** The steps of section 6.3 of NIST SP 800-38D from bit `i` on, with V = `v`: what they add to Z. */
  function MulFrom(x: Words, v: Words, i: bv8): Words
    requires i <= 128
    decreases 128 - i
  {
    if i == 128 then ZERO else Add(Term(x, v, i), MulFrom(x, DoubleLe(v), i + 1))
  }

  function Mul(x: Words, y: Words): Words {
    MulFrom(x, y, 0)
  }

  // ---------------------------------------------------------------- the shifts move bits

  lemma BitOfDown(w: bv32, hi: bv32, i: bv8)
    requires i < 32
    ensures BitOf(Down(w, hi), i) == if i == 0 then BitOf(hi, 31) else BitOf(w, i - 1)
  {
  }

  lemma BitOfUp(w: bv32, lo: bv32, i: bv8)
    requires i < 32
    ensures BitOf(Up(w, lo), i) == if i == 31 then BitOf(lo, 0) else BitOf(w, i + 1)
  {
  }

  lemma BitOfZero(i: bv8)
    requires i < 32
    ensures !BitOf(0, i)
  {
  }

  lemma BitIndex(i: bv8)
    ensures i & 31 != 0 ==> (i - 1) & 31 == (i & 31) - 1 && (i - 1) >> 5 == i >> 5
    ensures i & 31 == 0 && i > 0 ==> (i - 1) & 31 == 31 && (i - 1) >> 5 == (i >> 5) - 1
    ensures i & 31 != 31 ==> (i + 1) & 31 == (i & 31) + 1 && (i + 1) >> 5 == i >> 5
    ensures i & 31 == 31 && i < 255 ==> (i + 1) & 31 == 0 && (i + 1) >> 5 == (i >> 5) + 1
    ensures i & 31 < 32 && (i < 128 ==> i >> 5 < 4) && (i == 0 <==> i >> 5 == 0 && i & 31 == 0)
    ensures i < 128 ==> (i == 127 <==> i >> 5 == 3 && i & 31 == 31)
  {
  }

  /** Shifting right moves every bit up by one index and brings in a zero. */
  lemma ShiftRightBits(v: Words, i: bv8)
    requires i < 128
    ensures ShiftRight(v).Bit(i) == (i > 0 && v.Bit(i - 1))
  {
    BitIndex(i);
    BitOfZero(31);
    var k, j := i >> 5, i & 31;
    BitOfDown(v.Word(k), if k == 0 then 0 else v.Word(k - 1), j);
    hide BitOf, Down;
  }

  /** Shifting left moves every bit down by one index and brings in a zero. */
  lemma ShiftLeftBits(v: Words, i: bv8)
    requires i < 128
    ensures ShiftLeft(v).Bit(i) == (i < 127 && v.Bit(i + 1))
  {
    BitIndex(i);
    BitOfZero(0);
    var k, j := i >> 5, i & 31;
    BitOfUp(v.Word(k), if k == 3 then 0 else v.Word(k + 1), j);
    hide BitOf, Up;
  }

  lemma LowBits(i: bv8)
    requires i < 128
    ensures Words(0, 0, 0, 0x87).Bit(i) == (i == 120 || i >= 125)
    ensures Words(0xe100_0000, 0, 0, 0).Bit(i) == (i <= 2 || i == 7)
  {
    BitIndex(i);
    BitOfZero(i & 31);
    WordBits(i & 31);
    TopIndex(i);
    hide BitOf;
  }

  lemma WordBits(j: bv8)
    requires j < 32
    ensures BitOf(0x87, j) == (j == 24 || j >= 29)
    ensures BitOf(0xe100_0000, j) == (j <= 2 || j == 7)
  {
  }

  lemma TopIndex(i: bv8)
    requires i < 128
    ensures i >> 5 == 3 ==> (i & 31 == 24 <==> i == 120) && (i & 31 >= 29 <==> i >= 125)
    ensures i >> 5 != 3 ==> i < 96
    ensures i >> 5 == 0 <==> i < 32
    ensures i < 32 ==> i & 31 == i
  {
  }

  /** Doubling in the order of section 6.1 of NIST SP 800-38B, bit by bit: a shift by one, and the bits
      of x^7 + x^2 + x + 1 for the bit that leaves at the front. */
  lemma DoubleBits(v: Words, i: bv8)
    requires i < 128
    ensures Double(v).Bit(i) == ((i < 127 && v.Bit(i + 1)) != (v.Bit(0) && (i == 120 || i >= 125)))
  {
    ShiftLeftBits(v, i);
    LowBits(i);
    hide Words.Bit, ShiftLeft, Add;
    BitAdd(ShiftLeft(v), Words(0, 0, 0, 0x87), i);
  }

  /** Doubling in the order of section 6.3 of NIST SP 800-38D: a shift the other way, and bits 0, 1, 2
      and 7 for the bit that leaves at the end. */
  lemma DoubleLeBits(v: Words, i: bv8)
    requires i < 128
    ensures DoubleLe(v).Bit(i) == ((i > 0 && v.Bit(i - 1)) != (v.Bit(127) && (i <= 2 || i == 7)))
  {
    ShiftRightBits(v, i);
    LowBits(i);
    hide Words.Bit, ShiftRight, Add;
    BitAdd(ShiftRight(v), Words(0xe100_0000, 0, 0, 0), i);
  }

  // ---------------------------------------------------------------- algebra

  lemma Xor32Associative(a: bv32, b: bv32, c: bv32)
    ensures Xor32(Xor32(a, b), c) == Xor32(a, Xor32(b, c))
  {
  }

  lemma Xor32Commutative(a: bv32, b: bv32)
    ensures Xor32(a, b) == Xor32(b, a)
  {
  }

  lemma Xor32Swap(a: bv32, b: bv32, c: bv32, d: bv32)
    ensures Xor32(Xor32(a, b), Xor32(c, d)) == Xor32(Xor32(a, c), Xor32(b, d))
  {
    hide Xor32;
    Xor32Associative(a, b, Xor32(c, d));
    Xor32Associative(b, c, d);
    Xor32Commutative(b, c);
    Xor32Associative(c, b, d);
    Xor32Associative(a, c, Xor32(b, d));
  }

  lemma AddSwap(a: Words, b: Words, c: Words, d: Words)
    ensures Add(Add(a, b), Add(c, d)) == Add(Add(a, c), Add(b, d))
  {
    hide Xor32;
    Xor32Swap(a.w0, b.w0, c.w0, d.w0);
    Xor32Swap(a.w1, b.w1, c.w1, d.w1);
    Xor32Swap(a.w2, b.w2, c.w2, d.w2);
    Xor32Swap(a.w3, b.w3, c.w3, d.w3);
  }

  lemma AddZero(a: Words)
    ensures Add(a, ZERO) == a && Add(ZERO, a) == a && Add(a, a) == ZERO
  {
  }

  lemma AddAssociative(a: Words, b: Words, c: Words)
    ensures Add(Add(a, b), c) == Add(a, Add(b, c))
  {
    hide Xor32;
    Xor32Associative(a.w0, b.w0, c.w0);
    Xor32Associative(a.w1, b.w1, c.w1);
    Xor32Associative(a.w2, b.w2, c.w2);
    Xor32Associative(a.w3, b.w3, c.w3);
  }

  lemma BitOfXor(a: bv32, b: bv32, i: bv8)
    requires i < 32
    ensures BitOf(Xor32(a, b), i) == (BitOf(a, i) != BitOf(b, i))
  {
  }

  lemma WordAdd(a: Words, b: Words, k: bv8)
    ensures Add(a, b).Word(k) == Xor32(a.Word(k), b.Word(k))
  {
    hide Xor32;
  }

  lemma BitAdd(a: Words, b: Words, i: bv8)
    requires i < 128
    ensures Add(a, b).Bit(i) == (a.Bit(i) != b.Bit(i))
  {
    hide BitOf, Xor32, Add, Words.Word;
    WordAdd(a, b, i >> 5);
    BitOfXor(a.Word(i >> 5), b.Word(i >> 5), i & 31);
  }

  lemma DownXor(a: bv32, b: bv32, hi: bv32, hi': bv32)
    ensures Down(Xor32(a, b), Xor32(hi, hi')) == Xor32(Down(a, hi), Down(b, hi'))
  {
  }

  lemma ShiftRightAdd(a: Words, b: Words)
    ensures ShiftRight(Add(a, b)) == Add(ShiftRight(a), ShiftRight(b))
  {
    assert Xor32(0, 0) == 0;
    hide Down, Xor32;
    DownXor(a.w0, b.w0, 0, 0);
    DownXor(a.w1, b.w1, a.w0, b.w0);
    DownXor(a.w2, b.w2, a.w1, b.w1);
    DownXor(a.w3, b.w3, a.w2, b.w2);
  }

  /** Doubling is linear. */
  lemma DoubleLeAdd(a: Words, b: Words)
    ensures DoubleLe(Add(a, b)) == Add(DoubleLe(a), DoubleLe(b))
  {
    hide Add, ShiftRight, Words.Bit;
    BitAdd(a, b, 127);
    ShiftRightAdd(a, b);
    ReduceAdd(ShiftRight(a), ShiftRight(b), Words(0xe100_0000, 0, 0, 0), a.Bit(127), b.Bit(127));
  }

  /** Reducing both summands is reducing the sum when just one of them needs it. */
  lemma ReduceAdd(p: Words, q: Words, r: Words, s: bool, t: bool)
    ensures Add(if s then Add(p, r) else p, if t then Add(q, r) else q) == if s != t then Add(Add(p, q), r) else Add(p, q)
  {
    hide Add;
    AddZero(p);
    AddZero(q);
    AddZero(r);
    AddZero(Add(p, q));
    AddSwap(p, if s then r else ZERO, q, if t then r else ZERO);
  }

  lemma DoubleLeZero()
    ensures DoubleLe(ZERO) == ZERO
  {
  }

  // ---------------------------------------------------------------- multiplication

  lemma TermAdd(x: Words, y: Words, v: Words, w: Words, i: bv8)
    requires i < 128
    ensures Term(Add(x, y), v, i) == Add(Term(x, v, i), Term(y, v, i))
    ensures Term(x, Add(v, w), i) == Add(Term(x, v, i), Term(x, w, i))
    ensures Term(x, DoubleLe(v), i) == DoubleLe(Term(x, v, i))
  {
    hide Add, DoubleLe, Words.Bit;
    BitAdd(x, y, i);
    AddZero(v);
    AddZero(ZERO);
    DoubleLeZero();
  }

  /** Multiplication distributes over addition on the left. */
  lemma {:induction false} MulAddLeft(x: Words, y: Words, v: Words, i: bv8)
    requires i <= 128
    ensures MulFrom(Add(x, y), v, i) == Add(MulFrom(x, v, i), MulFrom(y, v, i))
    decreases 128 - i
  {
    AddZero(ZERO);
    hide Add, DoubleLe, Term;
    if i < 128 {
      MulAddLeft(x, y, DoubleLe(v), i + 1);
      TermAdd(x, y, v, v, i);
      AddSwap(Term(x, v, i), Term(y, v, i), MulFrom(x, DoubleLe(v), i + 1), MulFrom(y, DoubleLe(v), i + 1));
    }
  }

  /** Multiplication distributes over addition on the right. */
  lemma {:induction false} MulAddRight(x: Words, v: Words, w: Words, i: bv8)
    requires i <= 128
    ensures MulFrom(x, Add(v, w), i) == Add(MulFrom(x, v, i), MulFrom(x, w, i))
    decreases 128 - i
  {
    AddZero(ZERO);
    hide Add, DoubleLe, Term;
    if i < 128 {
      DoubleLeAdd(v, w);
      MulAddRight(x, DoubleLe(v), DoubleLe(w), i + 1);
      TermAdd(x, x, v, w, i);
      AddSwap(Term(x, v, i), Term(x, w, i), MulFrom(x, DoubleLe(v), i + 1), MulFrom(x, DoubleLe(w), i + 1));
    }
  }

  /** Doubling an argument doubles the product. */
  lemma {:induction false} MulDouble(x: Words, v: Words, i: bv8)
    requires i <= 128
    ensures MulFrom(x, DoubleLe(v), i) == DoubleLe(MulFrom(x, v, i))
    decreases 128 - i
  {
    DoubleLeZero();
    hide Add, DoubleLe, Term;
    if i < 128 {
      MulDouble(x, DoubleLe(v), i + 1);
      TermAdd(x, x, v, v, i);
      DoubleLeAdd(Term(x, v, i), MulFrom(x, DoubleLe(v), i + 1));
    }
  }

  lemma ZeroBits(i: bv8)
    requires i < 128
    ensures !ZERO.Bit(i)
  {
    BitOfZero(i & 31);
  }

  lemma {:induction false} MulZero(x: Words, i: bv8)
    requires i <= 128
    ensures MulFrom(x, ZERO, i) == ZERO && MulFrom(ZERO, x, i) == ZERO
    decreases 128 - i
  {
    hide Add, DoubleLe, Words.Bit;
    AddZero(ZERO);
    DoubleLeZero();
    if i < 128 {
      MulZero(x, i + 1);
      MulZero(DoubleLe(x), i + 1);
      ZeroBits(i);
    }
  }

  lemma MulFromStep(x: Words, v: Words, i: bv8)
    requires i < 128
    ensures MulFrom(x, v, i) == Add(Term(x, v, i), MulFrom(x, DoubleLe(v), i + 1))
  {
    hide Add, DoubleLe, Term;
  }

  lemma MulFromEnd(x: Words, v: Words)
    ensures MulFrom(x, v, 128) == ZERO
  {
  }

  lemma MulTerm(y: Words, x: Words, v: Words, i: bv8)
    requires i < 128
    ensures Mul(y, Term(x, v, i)) == Term(x, Mul(y, v), i)
  {
    hide MulFrom, Words.Bit;
    MulZero(y, 0);
  }

  /** Multiplying in either order by two blocks in turn gives the same. */
  lemma {:induction false} MulSwapFrom(x: Words, y: Words, v: Words, i: bv8)
    requires i <= 128
    ensures Mul(y, MulFrom(x, v, i)) == MulFrom(x, Mul(y, v), i)
    decreases 128 - i
  {
    hide Add, DoubleLe, Term, MulFrom;
    if i == 128 {
      MulZero(y, 0);
      MulFromEnd(x, v);
      MulFromEnd(x, Mul(y, v));
    } else {
      MulFromStep(x, v, i);
      MulFromStep(x, Mul(y, v), i);
      MulTerm(y, x, v, i);
      MulAddRight(y, Term(x, v, i), MulFrom(x, DoubleLe(v), i + 1), 0);
      MulSwapFrom(x, y, DoubleLe(v), i + 1);
      MulDouble(y, v, 0);
    }
  }

  // ---------------------------------------------------------------- the identity

  /** The block with bit `i` alone. */
  function Unit(i: bv8): Words
    requires i < 128
  {
    Words(UnitAt(0, i), UnitAt(1, i), UnitAt(2, i), UnitAt(3, i))
  }

  function UnitAt(k: bv8, i: bv8): bv32 {
    if k == i >> 5 then UnitWord(i & 31) else 0
  }

  function UnitWord(j: bv8): bv32
    requires j < 32
  {
    0x8000_0000 >> j
  }

  function Mask(j: bv8): bv32
    requires j <= 32
  {
    if j == 32 then 0 else 0xffff_ffff >> j
  }

  /** A word without its first `j` bits. */
  function Tail(w: bv32, j: bv8): bv32
    requires j <= 32
  {
    And32(w, Mask(j))
  }

  function And32(a: bv32, b: bv32): bv32 {
    a & b
  }

  /** A block without its first `i` bits. */
  function From(x: Words, i: bv8): Words
    requires i <= 128
  {
    Words(FromAt(x.w0, 0, i), FromAt(x.w1, 1, i), FromAt(x.w2, 2, i), FromAt(x.w3, 3, i))
  }

  function FromAt(w: bv32, k: bv8, i: bv8): bv32 {
    var at := i >> 5;
    if k < at then 0 else if k > at then w else Tail(w, i & 31)
  }

  lemma MaskStep(j: bv8)
    requires j < 32
    ensures Mask(j) == Xor32(UnitWord(j), Mask(j + 1))
  {
  }

  lemma AndXor(w: bv32, a: bv32, b: bv32)
    ensures And32(w, Xor32(a, b)) == Xor32(And32(w, a), And32(w, b))
  {
  }

  lemma AndUnit(w: bv32, j: bv8)
    requires j < 32
    ensures And32(w, UnitWord(j)) == if BitOf(w, j) then UnitWord(j) else 0
  {
  }

  lemma TailStep(w: bv32, j: bv8)
    requires j < 32
    ensures Tail(w, j) == Xor32(if BitOf(w, j) then UnitWord(j) else 0, Tail(w, j + 1))
  {
    hide Mask, UnitWord, BitOf, And32, Xor32;
    MaskStep(j);
    AndXor(w, UnitWord(j), Mask(j + 1));
    AndUnit(w, j);
  }

  lemma MaskEnds()
    ensures Mask(0) == 0xffff_ffff && Mask(32) == 0
  {
  }

  lemma AndEnds(w: bv32)
    ensures And32(w, 0xffff_ffff) == w && And32(w, 0) == 0
  {
  }

  lemma TailEnds(w: bv32)
    ensures Tail(w, 0) == w && Tail(w, 32) == 0 && Xor32(0, w) == w
  {
    assert Xor32(0, w) == w;
    hide Mask, And32, Xor32;
    MaskEnds();
    AndEnds(w);
  }

  lemma FromAtNext(x: Words, k: bv8, i: bv8)
    requires i < 128
    ensures FromAt(x.Word(k), k, i) == Xor32(if x.Bit(i) then UnitAt(k, i) else 0, FromAt(x.Word(k), k, i + 1))
  {
    hide BitOf, Xor32, Tail, UnitWord, Words.Word;
    var w, j := x.Word(k), i & 31;
    BitIndex(i);
    TailStep(w, j);
    TailEnds(w);
    TailEnds(0);
  }

  lemma FromNext(x: Words, i: bv8)
    requires i < 128
    ensures From(x, i) == Add(Term(x, Unit(i), i), From(x, i + 1))
  {
    hide Xor32, FromAt, UnitAt, Words.Bit;
    FromAtNext(x, 0, i);
    FromAtNext(x, 1, i);
    FromAtNext(x, 2, i);
    FromAtNext(x, 3, i);
  }

  lemma UnitWordDown(j: bv8)
    requires j < 32
    ensures Down(UnitWord(j), 0) == if j == 31 then 0 else UnitWord(j + 1)
    ensures Down(0, UnitWord(j)) == if j == 31 then UnitWord(0) else 0
    ensures Down(0, 0) == 0 && (BitOf(UnitWord(j), 31) <==> j == 31) && !BitOf(0, 31)
  {
  }

  lemma DoubleUnit(i: bv8)
    requires i < 127
    ensures DoubleLe(Unit(i)) == Unit(i + 1)
  {
    BitIndex(i);
    BitIndex(i + 1);
    UnitWordDown(i & 31);
    hide BitOf, Down, UnitWord, Add;
  }

  lemma {:induction false} MulUnitFrom(x: Words, i: bv8)
    requires i <= 128
    ensures i == 128 || MulFrom(x, Unit(i), i) == From(x, i)
    decreases 128 - i
  {
    if i < 128 {
      FromNext(x, i);
      if i < 127 {
        DoubleUnit(i);
        MulUnitFrom(x, i + 1);
      } else {
        assert From(x, 128) == ZERO;
      }
      hide Add, DoubleLe, Term, Unit, From;
    }
  }

  // ---------------------------------------------------------------- the ring laws

  lemma MulOne(x: Words)
    ensures Mul(x, ONE) == x && Mul(ONE, x) == x
  {
    MulUnitFrom(x, 0);
    TailEnds(x.w0);
    assert Unit(0) == ONE && From(x, 0) == x;
    MulCommutes(x, ONE);
  }

  /** `cf_gf128_mul` is commutative: both products are those of the other argument with one. */
  lemma MulCommutes(x: Words, y: Words)
    ensures Mul(x, y) == Mul(y, x)
  {
    MulUnitFrom(x, 0);
    MulUnitFrom(y, 0);
    TailEnds(x.w0);
    TailEnds(y.w0);
    assert Unit(0) == ONE && From(x, 0) == x && From(y, 0) == y;
    MulSwapFrom(x, y, ONE, 0);
  }

  lemma MulAssociates(x: Words, y: Words, z: Words)
    ensures Mul(Mul(x, y), z) == Mul(x, Mul(y, z))
  {
    hide MulFrom;
    MulCommutes(Mul(x, y), z);
    MulSwapFrom(x, z, y, 0);
    MulCommutes(y, z);
  }

  lemma MulDistributes(x: Words, y: Words, z: Words)
    ensures Mul(Add(x, y), z) == Add(Mul(x, z), Mul(y, z)) && Mul(z, Add(x, y)) == Add(Mul(z, x), Mul(z, y))
  {
    MulAddLeft(x, y, z, 0);
    MulAddRight(z, x, y, 0);
  }

  // ---------------------------------------------------------------- blocks and octets

  function FromBytes(s: seq<octet>): Words
    requires |s| == 16
  {
    Words(Read32(s[..4]), Read32(s[4..8]), Read32(s[8..12]), Read32(s[12..]))
  }

  function ToBytes(v: Words): (s: seq<octet>)
    ensures |s| == 16
  {
    Write32(v.w0) + Write32(v.w1) + Write32(v.w2) + Write32(v.w3)
  }

  lemma FromToBytes(v: Words)
    ensures FromBytes(ToBytes(v)) == v
  {
    hide Read32, Write32;
    var s := ToBytes(v);
    assert s[..4] == Write32(v.w0) && s[4..8] == Write32(v.w1) && s[8..12] == Write32(v.w2) && s[12..] == Write32(v.w3);
    ReadWrite32(v.w0);
    ReadWrite32(v.w1);
    ReadWrite32(v.w2);
    ReadWrite32(v.w3);
  }

  lemma ToFromBytes(s: seq<octet>)
    requires |s| == 16
    ensures ToBytes(FromBytes(s)) == s
  {
    hide Read32, Write32;
    WriteRead32(s[..4]);
    WriteRead32(s[4..8]);
    WriteRead32(s[8..12]);
    WriteRead32(s[12..]);
  }

  // ---------------------------------------------------------------- the operations in place

  function Value(a: array<bv32>): Words
    requires a.Length == 4
    reads a
  {
    Words(a[0], a[1], a[2], a[3])
  }

  method SetWords(out: array<bv32>, v: Words)
    requires out.Length == 4
    modifies out
    ensures Value(out) == v
  {
    out[0], out[1], out[2], out[3] := v.w0, v.w1, v.w2, v.w3;
  }

  /** `cf_gf128_frombytes_be`. */
  method ReadBytes(s: seq<octet>, out: array<bv32>)
    requires |s| == 16 && out.Length == 4
    modifies out
    ensures Value(out) == FromBytes(s)
  {
    out[0] := Read32(s[..4]);
    out[1] := Read32(s[4..8]);
    out[2] := Read32(s[8..12]);
    out[3] := Read32(s[12..]);
  }

  /** The word after a shift, and the bit it lends to its neighbour. */
  function TakeUp(inword: bv32, borrow: bv32): bv32 {
    (inword << 1) | borrow
  }

  function LendUp(inword: bv32): bv32 {
    inword >> 31
  }

  function TakeDown(inword: bv32, borrow: bv32): bv32 {
    (inword >> 1) | (borrow << 31)
  }

  function LendDown(inword: bv32): bv32 {
    inword & 1
  }

  lemma LendsUp(w: bv32, n: bv32)
    ensures TakeUp(w, LendUp(n)) == Up(w, n) && TakeUp(w, 0) == Up(w, 0)
  {
  }

  lemma LendsDown(w: bv32, n: bv32)
    ensures TakeDown(w, LendDown(n)) == Down(w, n) && TakeDown(w, 0) == Down(w, 0)
  {
  }

  lemma LentUp(w: bv32)
    ensures LendUp(w) == if BitOf(w, 0) then 1 else 0
  {
  }

  lemma LentDown(w: bv32)
    ensures LendDown(w) == if BitOf(w, 31) then 1 else 0
  {
  }

  lemma AddAtEnds(s: Words, r: bv32)
    ensures Words(s.w0, s.w1, s.w2, Xor32(s.w3, r)) == Add(s, Words(0, 0, 0, r))
    ensures Words(Xor32(s.w0, r), s.w1, s.w2, s.w3) == Add(s, Words(r, 0, 0, 0))
  {
    AddZero(s);
    assert Add(s, ZERO) == s;
    hide Xor32;
  }

  lemma Reduced(v: Words)
    ensures Double(v) == Add(ShiftLeft(v), Words(0, 0, 0, if BitOf(v.w0, 0) then 0x87 else 0))
    ensures DoubleLe(v) == Add(ShiftRight(v), Words(if BitOf(v.w3, 31) then 0xe100_0000 else 0, 0, 0, 0))
  {
    AddZero(ShiftLeft(v));
    AddZero(ShiftRight(v));
    hide Add, BitOf, ShiftLeft, ShiftRight;
  }

  /** The words from the last to the first, each lending its top bit to the next. */
  method ShiftLeftWords(a: array<bv32>, out: array<bv32>) returns (borrow: bv32)
    requires a.Length == 4 && out.Length == 4
    modifies out
    ensures Value(out) == ShiftLeft(old(Value(a))) && borrow == LendUp(old(a[0]))
  {
    ghost var v := Value(a);
    LendsUp(v.w3, 0);
    LendsUp(v.w2, v.w3);
    LendsUp(v.w1, v.w2);
    LendsUp(v.w0, v.w1);
    hide TakeUp, LendUp, Up;
    borrow := 0;
    var inword := a[3]; out[3] := TakeUp(inword, borrow); borrow := LendUp(inword);
    assert inword == v.w3 && a[2] == v.w2 && a[1] == v.w1 && a[0] == v.w0;
    inword := a[2]; out[2] := TakeUp(inword, borrow); borrow := LendUp(inword);
    assert inword == v.w2 && a[1] == v.w1 && a[0] == v.w0;
    inword := a[1]; out[1] := TakeUp(inword, borrow); borrow := LendUp(inword);
    assert inword == v.w1 && a[0] == v.w0;
    inword := a[0]; out[0] := TakeUp(inword, borrow); borrow := LendUp(inword);
  }

  method ShiftRightWords(a: array<bv32>, out: array<bv32>) returns (borrow: bv32)
    requires a.Length == 4 && out.Length == 4
    modifies out
    ensures Value(out) == ShiftRight(old(Value(a))) && borrow == LendDown(old(a[3]))
  {
    ghost var v := Value(a);
    LendsDown(v.w0, 0);
    LendsDown(v.w1, v.w0);
    LendsDown(v.w2, v.w1);
    LendsDown(v.w3, v.w2);
    hide TakeDown, LendDown, Down;
    borrow := 0;
    var inword := a[0]; out[0] := TakeDown(inword, borrow); borrow := LendDown(inword);
    assert inword == v.w0 && a[1] == v.w1 && a[2] == v.w2 && a[3] == v.w3;
    inword := a[1]; out[1] := TakeDown(inword, borrow); borrow := LendDown(inword);
    assert inword == v.w1 && a[2] == v.w2 && a[3] == v.w3;
    inword := a[2]; out[2] := TakeDown(inword, borrow); borrow := LendDown(inword);
    assert inword == v.w2 && a[3] == v.w3;
    inword := a[3]; out[3] := TakeDown(inword, borrow); borrow := LendDown(inword);
  }

  /** `cf_gf128_double`: the shift, and the polynomial for the bit that falls off. Input and
      output may be one array. */
  method DoubleWords(a: array<bv32>, out: array<bv32>)
    requires a.Length == 4 && out.Length == 4
    modifies out
    ensures Value(out) == Double(old(Value(a)))
  {
    ghost var v := Value(a);
    LentUp(v.w0);
    Reduced(v);
    hide *;
    var borrow := ShiftLeftWords(a, out);
    var r := SelectU8(borrow as bv8, (b: bv8) => if b == 1 then 0x87 else 0, 2);
    AddAtEnds(Value(out), r as bv32);
    out[3] := Xor32(out[3], r as bv32);
  }

  /** `cf_gf128_double_le`. */
  method DoubleLeWords(a: array<bv32>, out: array<bv32>)
    requires a.Length == 4 && out.Length == 4
    modifies out
    ensures Value(out) == DoubleLe(old(Value(a)))
  {
    ghost var v := Value(a);
    LentDown(v.w3);
    Reduced(v);
    hide *;
    var borrow := ShiftRightWords(a, out);
    var r := SelectU8(borrow as bv8, (b: bv8) => if b == 1 then 0xe1 else 0, 2);
    AddAtEnds(Value(out), r as bv32 << 24);
    out[0] := Xor32(out[0], r as bv32 << 24);
  }

  /** `cf_gf128_add`. */
  method AddWords(x: array<bv32>, y: array<bv32>, out: array<bv32>)
    requires x.Length == 4 && y.Length == 4 && out.Length == 4
    modifies out
    ensures Value(out) == Add(old(Value(x)), old(Value(y)))
  {
    hide Xor32;
    out[0] := Xor32(x[0], y[0]);
    out[1] := Xor32(x[1], y[1]);
    out[2] := Xor32(x[2], y[2]);
    out[3] := Xor32(x[3], y[3]);
  }

  function Choose32(if0: bv32, if1: bv32, mask1: bv32): bv32 {
    (if0 & !mask1) | (if1 & mask1)
  }

  lemma ChooseExact(w: bv32)
    ensures Choose32(0, w, 0) == 0 && Choose32(0, w, 0xffff_ffff) == w
  {
  }

  /** `select_xor128` with a zero block for a clear bit. */
  method SelectXor128(out: array<bv32>, if1: array<bv32>, bit: bv8)
    requires out.Length == 4 && if1.Length == 4 && out != if1 && (bit == 0 || bit == 1)
    modifies out
    ensures Value(out) == Add(old(Value(out)), if bit == 1 then Value(if1) else ZERO)
  {
    hide MaskU32, Choose32, Xor32;
    MaskU32Exact(bit as bv32, 1);
    var mask1 := MaskU32(bit as bv32, 1);
    ChooseExact(if1[0]);
    ChooseExact(if1[1]);
    ChooseExact(if1[2]);
    ChooseExact(if1[3]);
    out[0] := Xor32(out[0], Choose32(0, if1[0], mask1));
    out[1] := Xor32(out[1], Choose32(0, if1[1], mask1));
    out[2] := Xor32(out[2], Choose32(0, if1[2], mask1));
    out[3] := Xor32(out[3], Choose32(0, if1[3], mask1));
  }

  /** Where the loop of `cf_gf128_mul` stands before bit `i`: what is in Z and what is to come. */
  predicate Partial(x: Words, y: Words, z: Words, v: Words, i: bv8) {
    i <= 128 && Add(z, MulFrom(x, v, i)) == Mul(x, y)
  }

  lemma PartialNext(x: Words, y: Words, z: Words, v: Words, i: bv8)
    requires i < 128 && Partial(x, y, z, v, i)
    ensures Partial(x, y, Add(z, Term(x, v, i)), DoubleLe(v), i + 1)
  {
    hide Add, DoubleLe, Term;
    AddAssociative(z, Term(x, v, i), MulFrom(x, DoubleLe(v), i + 1));
  }

  lemma PartialStart(x: Words, y: Words)
    ensures Partial(x, y, ZERO, y, 0)
  {
    hide Add;
    AddZero(Mul(x, y));
  }

  lemma PartialEnd(x: Words, y: Words, z: Words, v: Words)
    requires Partial(x, y, z, v, 128)
    ensures z == Mul(x, y)
  {
    hide Add;
    AddZero(z);
  }

  /** One bit of `cf_gf128_mul`. */
  method MulRound(x: array<bv32>, z: array<bv32>, v: array<bv32>, i: bv8)
    requires x.Length == 4 && z.Length == 4 && v.Length == 4 && x != z && x != v && z != v && i < 128
    modifies z, v
    ensures Value(z) == Add(old(Value(z)), Term(Value(x), old(Value(v)), i))
    ensures Value(v) == DoubleLe(old(Value(v)))
  {
    hide Add, DoubleLe, Words.Bit;
    var bit: bv8 := if Value(x).Bit(i) then 1 else 0;
    SelectXor128(z, v, bit);
    DoubleLeWords(v, v);
  }

  /** The loop of `cf_gf128_mul`. */
  method MulLoop(x: array<bv32>, ghost y: Words, z: array<bv32>, v: array<bv32>)
    requires x.Length == 4 && z.Length == 4 && v.Length == 4 && x != z && x != v && z != v
    requires Partial(Value(x), y, Value(z), Value(v), 0)
    modifies z, v
    ensures Value(z) == Mul(Value(x), y)
  {
    hide *;
    var i: bv8 := 0;
    while i != 128
      invariant i <= 128
      invariant Partial(Value(x), y, Value(z), Value(v), i)
      decreases 128 - i
    {
      PartialNext(Value(x), y, Value(z), Value(v), i);
      MulRound(x, z, v, i);
      i := i + 1;
    }
    PartialEnd(Value(x), y, Value(z), Value(v));
  }

  /** `cf_gf128_mul`: Z and V after each of the 128 bits of `x`. */
  method MulWords(x: array<bv32>, y: array<bv32>, out: array<bv32>)
    requires x.Length == 4 && y.Length == 4 && out.Length == 4
    modifies out
    ensures Value(out) == Mul(old(Value(x)), old(Value(y)))
  {
    hide *;
    var z, v := new bv32[4], new bv32[4];
    SetWords(z, ZERO);
    SetWords(v, Value(y));
    PartialStart(Value(x), Value(y));
    MulLoop(x, Value(y), z, v);
    SetWords(out, Value(z));
  }

  function OctetBit(b: octet, j: bv8): bool
    requires j < 8
  {
    (b >> (7 - j)) & 1 == 1
  }

  lemma ReadBits(s: seq<octet>, j: bv8)
    requires |s| == 4 && j < 8
    ensures BitOf(Read32(s), j) == OctetBit(s[0], j) && BitOf(Read32(s), 8 + j) == OctetBit(s[1], j)
    ensures BitOf(Read32(s), 16 + j) == OctetBit(s[2], j) && BitOf(Read32(s), 24 + j) == OctetBit(s[3], j)
  {
  }

  lemma BitInWord(v: Words, k: bv8, m: bv8)
    requires k < 4 && m < 32
    ensures 32 * k + m < 128 && v.Bit(32 * k + m) == BitOf(v.Word(k), m)
  {
    IndexParts(k, m);
    hide BitOf, Words.Word;
  }

  lemma IndexParts(k: bv8, m: bv8)
    requires k < 4 && m < 32
    ensures 32 * k + m < 128 && (32 * k + m) >> 5 == k && (32 * k + m) & 31 == m
  {
  }

  /** The bits of a block of octets: those of its first octet first, and of each the most significant
      first. */
  lemma BlockBits(b: seq<octet>, k: bv8, j: bv8)
    requires |b| == 16 && k < 4 && j < 8
    ensures var n: nat := if k == 0 then 0 else if k == 1 then 4 else if k == 2 then 8 else 12;
            var v := FromBytes(b);
      && 32 * k + j < 128 && v.Bit(32 * k + j) == OctetBit(b[n], j)
      && 32 * k + (8 + j) < 128 && v.Bit(32 * k + (8 + j)) == OctetBit(b[n + 1], j)
      && 32 * k + (16 + j) < 128 && v.Bit(32 * k + (16 + j)) == OctetBit(b[n + 2], j)
      && 32 * k + (24 + j) < 128 && v.Bit(32 * k + (24 + j)) == OctetBit(b[n + 3], j)
  {
    var n: nat := if k == 0 then 0 else if k == 1 then 4 else if k == 2 then 8 else 12;
    var v, s := FromBytes(b), b[n..n + 4];
    assert v.Word(k) == Read32(s) by {
      assert b[..4] == b[0..4] && b[12..] == b[12..16];
      hide Read32;
    }
    InOctet(j);
    hide *;
    ReadBits(s, j);
    BitInWord(v, k, j);
    BitInWord(v, k, 8 + j);
    BitInWord(v, k, 16 + j);
    BitInWord(v, k, 24 + j);
  }

  lemma InOctet(j: bv8)
    requires j < 8
    ensures j < 32 && 8 + j < 32 && 16 + j < 32 && 24 + j < 32
  {
  }
}
