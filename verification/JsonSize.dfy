/** The sizes `pow2gt` gives the print buffer of cJSON.c: bit tricks against powers of two. */
module JsonSize {
  import opened Octets

  // ---------------------------------------------------------------- sizes

  /** `pow2gt` on the bits of its argument. */
  function Pow2gt(x: bv32): bv32 {
    var a := x - 1;
    var b := a | (a >> 1);
    var c := b | (b >> 2);
    var d := c | (c >> 4);
    var e := d | (d >> 8);
    var f := e | (e >> 16);
    f + 1
  }

  predicate PowerOfTwo(n: nat) {
    n == 1 || (n > 1 && n % 2 == 0 && PowerOfTwo(n / 2))
  }

  /** The least power of two from `p` on that is not below `n`. */
  function PowerFrom(p: nat, n: nat): (r: nat)
    requires PowerOfTwo(p) && (p == 1 || p < 2 * n)
    ensures PowerOfTwo(r) && r >= n && (r == 1 || r < 2 * n)
    decreases n - p
  {
    if p >= n then p else PowerFrom(2 * p, n)
  }

  lemma {:induction false} PowersApart(p: nat, q: nat)
    requires PowerOfTwo(p) && PowerOfTwo(q) && p < q
    ensures 2 * p <= q
  {
    if p > 1 {
      PowersApart(p / 2, q / 2);
    }
  }

  lemma JoinValue(a: octet, b: octet, c: octet, d: octet)
    ensures ((a as bv32 << 24) | (b as bv32 << 16) | (c as bv32 << 8) | d as bv32) as int
         == 0x100_0000 * (a as int) + 0x1_0000 * (b as int) + 0x100 * (c as int) + d as int
  {
  }

  lemma WordValue(a: octet, b: octet, c: octet, d: octet)
    ensures Word4(a, b, c, d) as int == 0x100_0000 * (a as int) + 0x1_0000 * (b as int) + 0x100 * (c as int) + d as int
  {
    JoinValue(a, b, c, d);
    assert Word4(a, b, c, d) == (a as bv32 << 24) | (b as bv32 << 16) | (c as bv32 << 8) | d as bv32;
    hide Word4;
  }

  lemma Order0(x: bv32, y: bv32)
    requires x < y
    ensures Byte0(x) < Byte0(y) || (Byte0(x) == Byte0(y) && x & 0xff_ffff < y & 0xff_ffff)
  {
  }

  lemma Order1(x: bv32, y: bv32)
    requires x & 0xff_ffff < y & 0xff_ffff
    ensures Byte1(x) < Byte1(y) || (Byte1(x) == Byte1(y) && x & 0xffff < y & 0xffff)
  {
  }

  lemma Order2Bits(x: bv32, y: bv32)
    requires x & 0xffff < y & 0xffff
    ensures ((x >> 8) & 0xff) as bv8 <= ((y >> 8) & 0xff) as bv8
    ensures ((x >> 8) & 0xff) as bv8 == ((y >> 8) & 0xff) as bv8 ==> (x & 0xff) as bv8 < (y & 0xff) as bv8
  {
  }

  lemma Order2(x: bv32, y: bv32)
    requires x & 0xffff < y & 0xffff
    ensures Byte2(x) < Byte2(y) || (Byte2(x) == Byte2(y) && Byte3(x) < Byte3(y))
  {
    Order2Bits(x, y);
  }

  lemma WordOrder(x: bv32, y: bv32)
    requires x < y
    ensures Byte0(x) < Byte0(y)
      || (Byte0(x) == Byte0(y) && (Byte1(x) < Byte1(y)
      || (Byte1(x) == Byte1(y) && (Byte2(x) < Byte2(y)
      || (Byte2(x) == Byte2(y) && Byte3(x) < Byte3(y))))))
  {
    hide *;
    Order0(x, y);
    if !(Byte0(x) < Byte0(y)) {
      Order1(x, y);
      if !(Byte1(x) < Byte1(y)) {
        Order2(x, y);
      }
    }
  }

  function Value(b: octet): (v: int)
    ensures 0 <= v < 256
  {
    b as int
  }

  function Join(a: int, b: int, c: int, d: int): int {
    0x100_0000 * a + 0x1_0000 * b + 0x100 * c + d
  }

  lemma ValueOrder(a: octet, b: octet)
    ensures a < b ==> Value(a) < Value(b)
  {
  }

  lemma OctetsValue(x: bv32)
    ensures x as int == Join(Value(Byte0(x)), Value(Byte1(x)), Value(Byte2(x)), Value(Byte3(x)))
  {
    hide Word4, Byte0, Byte1, Byte2, Byte3;
    BytesWord4(x);
    WordValue(Byte0(x), Byte1(x), Byte2(x), Byte3(x));
  }

  /** Octets in a row are ordered by the first that differs. */
  lemma OctetsOrder(a: octet, b: octet, c: octet, d: octet, a': octet, b': octet, c': octet, d': octet)
    requires a < a' || (a == a' && (b < b' || (b == b' && (c < c' || (c == c' && d < d')))))
    ensures Join(Value(a), Value(b), Value(c), Value(d)) < Join(Value(a'), Value(b'), Value(c'), Value(d'))
  {
    hide Value;
    ValueOrder(a, a');
    ValueOrder(b, b');
    ValueOrder(c, c');
    ValueOrder(d, d');
  }

  /** Unsigned words and their values are in the same order. */
  lemma Monotone(x: bv32, y: bv32)
    requires x < y
    ensures (x as int) < y as int
  {
    WordOrder(x, y);
    hide *;
    OctetsValue(x);
    OctetsValue(y);
    OctetsOrder(Byte0(x), Byte1(x), Byte2(x), Byte3(x), Byte0(y), Byte1(y), Byte2(y), Byte3(y));
  }

  lemma Pow2gtBits(x: bv32)
    requires 1 <= x <= 0x4000_0000
    ensures var r := Pow2gt(x);
      && 1 <= r <= 0x4000_0000 && r & (r - 1) == 0
      && (x < r || x == r) && (r == 1 <==> x == 1) && (x != 1 ==> r > 1 && r >> 1 < x)
  {
  }

  lemma ShiftByte(a: octet, b: octet)
    ensures ((a << 1) | (b >> 7)) as int + 256 * ((a >> 7) as int) == 2 * (a as int) + (b >> 7) as int
    ensures (a << 1) as int + 256 * ((a >> 7) as int) == 2 * (a as int)
  {
  }

  lemma ShiftJoined(a: octet, b: octet, c: octet, d: octet)
    ensures ((a as bv32 << 24) | (b as bv32 << 16) | (c as bv32 << 8) | d as bv32) << 1
         == (((a << 1) | (b >> 7)) as bv32 << 24) | (((b << 1) | (c >> 7)) as bv32 << 16)
            | (((c << 1) | (d >> 7)) as bv32 << 8) | (d << 1) as bv32
  {
  }

  lemma ShiftSum(a: octet, b: octet, c: octet, d: octet)
    requires a >> 7 == 0
    ensures (((a as bv32 << 24) | (b as bv32 << 16) | (c as bv32 << 8) | d as bv32) << 1) as int
         == 2 * (0x100_0000 * (a as int) + 0x1_0000 * (b as int) + 0x100 * (c as int) + d as int)
  {
    ShiftJoined(a, b, c, d);
    ShiftByte(a, b);
    ShiftByte(b, c);
    ShiftByte(c, d);
    ShiftByte(d, 0);
    JoinValue((a << 1) | (b >> 7), (b << 1) | (c >> 7), (c << 1) | (d >> 7), d << 1);
  }

  lemma FromOctets(x: bv32)
    ensures x == (Byte0(x) as bv32 << 24) | (Byte1(x) as bv32 << 16) | (Byte2(x) as bv32 << 8) | Byte3(x) as bv32
  {
  }

  lemma TopBit(x: bv32)
    requires x < 0x8000_0000
    ensures Byte0(x) >> 7 == 0
  {
  }

  lemma ShiftValue(x: bv32)
    requires x < 0x8000_0000
    ensures (x << 1) as int == 2 * (x as int)
  {
    TopBit(x);
    FromOctets(x);
    hide Byte0, Byte1, Byte2, Byte3;
    var a, b, c, d := Byte0(x), Byte1(x), Byte2(x), Byte3(x);
    ShiftSum(a, b, c, d);
    JoinValue(a, b, c, d);
  }

  lemma NextPower(k: bv32, r: bv32)
    requires 1 <= k < r <= 0x4000_0000 && r & (r - 1) == 0 && k & (k - 1) == 0
    ensures k < k << 1 <= r && (k << 1) & ((k << 1) - 1) == 0 && r - (k << 1) < r - k && k < 0x8000_0000
  {
  }

  /** The words with one bit are the powers of two. */
  lemma PowerBits(r: bv32)
    requires 1 <= r <= 0x4000_0000 && r & (r - 1) == 0
    ensures PowerOfTwo(r as int)
  {
    PowerBitsFrom(1, r);
  }

  lemma {:induction false} PowerBitsFrom(k: bv32, r: bv32)
    requires 1 <= k <= r <= 0x4000_0000 && r & (r - 1) == 0 && k & (k - 1) == 0 && PowerOfTwo(k as int)
    ensures PowerOfTwo(r as int)
    decreases r - k
  {
    if k < r {
      NextPower(k, r);
      ShiftValue(k);
      PowerBitsFrom(k << 1, r);
    }
  }

  lemma HalfBack(r: bv32)
    requires r > 1 && r & (r - 1) == 0
    ensures (r >> 1) << 1 == r && r >> 1 < 0x8000_0000
  {
  }

  lemma AtMost(x: bv32, r: bv32)
    requires x < r || x == r
    ensures x as int <= r as int
  {
    if x < r {
      Monotone(x, r);
    }
  }

  lemma BelowTwice(x: bv32, r: bv32)
    requires r > 1 && r & (r - 1) == 0 && r >> 1 < x
    ensures (r as int) < 2 * (x as int)
  {
    HalfBack(r);
    ShiftValue(r >> 1);
    Monotone(r >> 1, x);
  }

  /** `r` is a power of two that is not below `n`, and no smaller one would do. */
  predicate LeastPower(n: int, r: int) {
    n > 0 && r > 0 && PowerOfTwo(r) && n <= r && (r == 1 || r < 2 * n)
  }

  lemma {:induction false} LeastPowerIs(n: nat, r: nat)
    requires LeastPower(n, r)
    ensures r == PowerFrom(1, n)
  {
    var q := PowerFrom(1, n);
    if q < r {
      PowersApart(q, r);
    } else if r < q {
      PowersApart(r, q);
    }
  }

  lemma LeastPowerBits(x: bv32, r: bv32)
    requires 1 < r <= 0x4000_0000 && r & (r - 1) == 0 && (x < r || x == r) && r >> 1 < x
    ensures LeastPower(x as int, r as int)
  {
    PowerBits(r);
    AtMost(x, r);
    BelowTwice(x, r);
  }

  /** `pow2gt` on words is the least power of two on their values. */
  lemma Pow2gtExact(x: bv32)
    requires 1 <= x <= 0x4000_0000
    ensures LeastPower(x as int, Pow2gt(x) as int)
  {
    Pow2gtBits(x);
    if x == 1 {
      assert Pow2gt(1) == 1;
    } else {
      hide *;
      LeastPowerBits(x, Pow2gt(x));
    }
  }

  /** `pow2gt` on words gives the power of two that growing from 1 reaches. */
  lemma Pow2gtIs(x: bv32)
    requires 1 <= x <= 0x4000_0000
    ensures x as int > 0 && Pow2gt(x) as int == PowerFrom(1, x as int)
  {
    hide Pow2gt;
    Pow2gtExact(x);
    LeastPowerIs(x as int, Pow2gt(x) as int);
  }

  /** The octet of a number, counted up to. */
  function Octet(k: nat): octet
    requires k < 0x100
  {
    if k == 0 then 0 else Octet(k - 1) + 1
  }

  lemma NextOctet(b: octet)
    requires b != 0xff
    ensures (b + 1) as int == b as int + 1
  {
  }

  lemma {:induction false} OctetBack(k: nat)
    requires k < 0x100
    ensures Value(Octet(k)) == k
  {
    if k > 0 {
      OctetBack(k - 1);
      NextOctet(Octet(k - 1));
    }
  }

  /** The 32 bits of a number. */
  function Bits32(n: nat): bv32
    requires n < 0x1_0000_0000
  {
    Word4(Octet(n / 0x100_0000), Octet(n / 0x1_0000 % 0x100), Octet(n / 0x100 % 0x100), Octet(n % 0x100))
  }

  lemma OctetsJoin(n: nat)
    requires n < 0x1_0000_0000
    ensures Join(n / 0x100_0000, n / 0x1_0000 % 0x100, n / 0x100 % 0x100, n % 0x100) == n
  {
  }

  lemma WordJoin(a: octet, b: octet, c: octet, d: octet)
    ensures Word4(a, b, c, d) as int == Join(Value(a), Value(b), Value(c), Value(d))
  {
    hide Word4;
    WordValue(a, b, c, d);
  }

  lemma BitsValue(n: nat)
    requires n < 0x1_0000_0000
    ensures Bits32(n) as int == n
  {
    hide Word4, Octet, Value, Join;
    OctetBack(n / 0x100_0000);
    OctetBack(n / 0x1_0000 % 0x100);
    OctetBack(n / 0x100 % 0x100);
    OctetBack(n % 0x100);
    WordJoin(Octet(n / 0x100_0000), Octet(n / 0x1_0000 % 0x100), Octet(n / 0x100 % 0x100), Octet(n % 0x100));
    OctetsJoin(n);
  }

  /** `pow2gt` on a number in the range of int. */
  function Grown(n: nat): (r: int)
    requires n < 0x1_0000_0000
  {
    Pow2gt(Bits32(n)) as int
  }

  lemma GrownIs(n: nat)
    requires 0 < n <= 0x4000_0000
    ensures Grown(n) == PowerFrom(1, n)
  {
    hide Pow2gt, PowerFrom, Bits32;
    BitsValue(n);
    InRange(Bits32(n), n);
    Pow2gtIs(Bits32(n));
  }

  lemma InRange(x: bv32, n: int)
    requires x as int == n && 0 < n <= 0x4000_0000
    ensures 1 <= x <= 0x4000_0000
  {
    if x > 0x4000_0000 {
      Monotone(0x4000_0000, x);
    }
  }
}
