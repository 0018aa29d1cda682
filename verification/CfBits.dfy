/** Octets, words and the branch-free selections of bitops.h and handy.h. */
module CfBits {
  import opened Octets

  // ---------------------------------------------------------------- octet strings

  /** `xor_bb` on the shorter length of the two. */
  function Xor(a: seq<octet>, b: seq<octet>): (r: seq<octet>)
    ensures |r| == if |a| < |b| then |a| else |b|
    ensures forall i :: 0 <= i < |r| ==> r[i] == a[i] ^ b[i]
  {
    seq(if |a| < |b| then |a| else |b|, i requires 0 <= i < |a| && i < |b| => a[i] ^ b[i])
  }

  lemma XorOctetTwice(a: octet, b: octet)
    ensures (a ^ b) ^ b == a
  {
  }

  lemma XorTwice(a: seq<octet>, k: seq<octet>)
    requires |a| <= |k|
    ensures Xor(Xor(a, k), k) == a
  {
    forall i | 0 <= i < |a| ensures Xor(Xor(a, k), k)[i] == a[i] {
      XorOctetTwice(a[i], k[i]);
    }
  }

  lemma XorConcat(a: seq<octet>, b: seq<octet>, k: seq<octet>, l: seq<octet>)
    requires |a| == |k|
    ensures Xor(a + b, k + l) == Xor(a, k) + Xor(b, l)
  {
  }

  function Zeros(n: nat): (r: seq<octet>)
    ensures |r| == n && forall i :: 0 <= i < n ==> r[i] == 0
  {
    seq(n, _ => 0)
  }

  // ---------------------------------------------------------------- words

  /** `read32_be`. */
  function Read32(s: seq<octet>): bv32
    requires |s| == 4
  {
    (s[0] as bv32 << 24) | (s[1] as bv32 << 16) | (s[2] as bv32 << 8) | s[3] as bv32
  }

  /** `write32_be`. */
  function Write32(w: bv32): (s: seq<octet>)
    ensures |s| == 4
  {
    [Byte0(w), Byte1(w), Byte2(w), Byte3(w)]
  }

  lemma ReadWrite32(w: bv32)
    ensures Read32(Write32(w)) == w
  {
    BytesWord4(w);
  }

  lemma WriteRead32(s: seq<octet>)
    requires |s| == 4
    ensures Write32(Read32(s)) == s
  {
    Word4Bytes(s[0], s[1], s[2], s[3]);
  }

  // ---------------------------------------------------------------- selection without branches

  /** `mask_u32`. */
  function MaskU32(x: bv32, y: bv32): bv32 {
    var diff := x ^ y;
    0 - ((!diff & (diff - 1)) >> 31)
  }

  lemma MaskU32Exact(x: bv32, y: bv32)
    ensures MaskU32(x, y) == if x == y then 0xffff_ffff else 0
  {
  }

  /** `mask_u8`: the difference is cut to 8 bits after it is computed in 32. */
  function MaskU8(x: bv32, y: bv32): bv8 {
    var diff := x ^ y;
    0 - ((((!diff & (diff - 1)) & 0xff) as bv8) >> 7)
  }

  /** The mask is set exactly when the arguments agree in their low 8 bits. */
  lemma MaskU8Exact(x: bv32, y: bv32)
    ensures MaskU8(x, y) == if x & 0xff == y & 0xff then 0xff else 0
  {
  }

  lemma Choose8(r: bv8, item: bv8, mask: bv8)
    requires mask == 0 || mask == 0xff
    ensures (r & !mask) | (item & mask) == if mask == 0xff then item else r
  {
  }

  lemma SameLow(x: bv32, y: bv32)
    requires x < 256 && y < 256
    ensures x & 0xff == y & 0xff <==> x == y
  {
  }

  /** A step of the selecting loops: `r` becomes the entry at `ii` if `i` is `ii`. */
  function Select8(r: octet, item: octet, i: bv32, ii: bv32): (s: octet)
  {
    (r & !MaskU8(i, ii)) | (item & MaskU8(i, ii))
  }

  lemma Select8Exact(r: octet, item: octet, i: bv32, ii: bv32)
    requires i < 256 && ii < 256
    ensures Select8(r, item, i, ii) == if i == ii then item else r
  {
    hide MaskU8;
    MaskU8Exact(i, ii);
    SameLow(i, ii);
    Choose8(r, item, MaskU8(i, ii));
  }

  /** After the entries below `ii` of a table are passed, `r` is that at `i` if it was among them. */
  predicate Selected(r: octet, tab: bv8 -> octet, i: octet, ii: bv32) {
    i as bv32 < ii ==> r == tab(i)
  }

  lemma SelectTurn(r: octet, tab: bv8 -> octet, i: octet, ii: bv32)
    requires ii < 256 && Selected(r, tab, i, ii)
    ensures Selected(Select8(r, tab(ii as bv8), i as bv32, ii), tab, i, ii + 1)
  {
    hide Select8;
    Select8Exact(r, tab(ii as bv8), i as bv32, ii);
  }

  lemma SelectEnd(r: octet, tab: bv8 -> octet, i: octet, n: bv32)
    requires i as bv32 < n && Selected(r, tab, i, n)
    ensures r == tab(i)
  {
  }

  lemma SelectNone(tab: bv8 -> octet, i: octet)
    ensures Selected(0, tab, i, 0)
  {
  }

  /** `select_u8` on a table of `n` entries. */
  method SelectU8(i: octet, tab: bv8 -> octet, n: bv32) returns (r: octet)
    requires i as bv32 < n <= 256
    ensures r == tab(i)
  {
    hide *;
    r := 0;
    var ii: bv32 := 0;
    SelectNone(tab, i);
    while ii < n
      invariant ii <= n && Selected(r, tab, i, ii)
      decreases 256 - ii
    {
      SelectTurn(r, tab, i, ii);
      r := Select8(r, tab(ii as bv8), i as bv32, ii);
      ii := ii + 1;
    }
    SelectEnd(r, tab, i, n);
  }

  /** `select_u8x4`: four entries of a table of 256 in one pass. */
  method SelectU8x4(a: octet, b: octet, c: octet, d: octet, tab: bv8 -> octet)
    returns (ra: octet, rb: octet, rc: octet, rd: octet)
    ensures ra == tab(a) && rb == tab(b) && rc == tab(c) && rd == tab(d)
  {
    hide *;
    ra, rb, rc, rd := 0, 0, 0, 0;
    var i: bv32 := 0;
    SelectNone(tab, a);
    SelectNone(tab, b);
    SelectNone(tab, c);
    SelectNone(tab, d);
    while i < 256
      invariant i <= 256
      invariant Selected(ra, tab, a, i) && Selected(rb, tab, b, i) && Selected(rc, tab, c, i) && Selected(rd, tab, d, i)
      decreases 256 - i
    {
      var item := tab(i as bv8);
      SelectTurn(ra, tab, a, i);
      SelectTurn(rb, tab, b, i);
      SelectTurn(rc, tab, c, i);
      SelectTurn(rd, tab, d, i);
      ra := Select8(ra, item, a as bv32, i);
      rb := Select8(rb, item, b as bv32, i);
      rc := Select8(rc, item, c as bv32, i);
      rd := Select8(rd, item, d as bv32, i);
      i := i + 1;
    }
    SelectEnd(ra, tab, a, i);
    SelectEnd(rb, tab, b, i);
    SelectEnd(rc, tab, c, i);
    SelectEnd(rd, tab, d, i);
  }
}
