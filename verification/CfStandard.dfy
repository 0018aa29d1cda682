/** The CMAC as section 6.2 of NIST SP 800-38B writes it, block by numbered block and octet by octet. */
module CfStandard {
  import opened CfBits
  import opened CfCmac
  import opened Octets

  /** Octet `j` of block `i`, counted from 0. */
  function OctetAt(m: seq<octet>, i: nat, j: nat): octet
    requires j < 16 && 16 * i + 16 <= |m|
  {
    m[16 * i + j]
  }

  /** The chaining value after `i` blocks of `m`, from `c` on. */
  function Link(e: Cipher, c: Block, m: seq<octet>, i: nat): Block
    requires 16 * i <= |m|
    decreases i
  {
    if i == 0 then c
    else
      var prev := Link(e, c, m, i - 1);
      e(seq(16, j requires 0 <= j < 16 => OctetAt(m, i - 1, j) ^ prev[j]))
  }

  /** The number of blocks: the last may be incomplete, and is empty for the empty message alone. */
  function BlockCount(m: seq<octet>): (n: nat)
    ensures n > 0 && 16 * (n - 1) <= |m| <= 16 * n && (n > 1 ==> 16 * (n - 1) < |m|)
  {
    if m == [] then 1 else (|m| + 15) / 16
  }

  /** A last block: as it is when complete, and otherwise with a one bit and zeros after it. */
  function Filled(rest: seq<octet>, j: nat): octet
    requires j < 16
  {
    if j < |rest| then rest[j] else if j == |rest| then 0x80 else 0
  }

  /** The last block under the first subkey when complete, and otherwise under the second. */
  function Last(k1: Block, k2: Block, c: Block, rest: seq<octet>): Block
    requires |rest| <= 16
  {
    var k := if |rest| == 16 then k1 else k2;
    seq(16, j requires 0 <= j < 16 => Filled(rest, j) ^ k[j] ^ c[j])
  }

  lemma {:induction false} LinkShift(e: Cipher, c: Block, m: seq<octet>, i: nat)
    requires 16 * i + 16 <= |m|
    ensures Link(e, c, m, i + 1) == Link(e, Link(e, c, m, 1), m[16..], i)
    decreases i
  {
    if i > 0 {
      LinkShift(e, c, m, i - 1);
      var prev := Link(e, c, m, i);
      assert Link(e, Link(e, c, m, 1), m[16..], i - 1) == prev;
      SameInput(m, i, prev);
    }
  }

  lemma SameInput(m: seq<octet>, i: nat, prev: Block)
    requires 0 < i && 16 * i + 16 <= |m|
    ensures seq(16, j requires 0 <= j < 16 => OctetAt(m, i, j) ^ prev[j])
         == seq(16, j requires 0 <= j < 16 => OctetAt(m[16..], i - 1, j) ^ prev[j])
  {
    forall j | 0 <= j < 16 ensures OctetAt(m, i, j) == OctetAt(m[16..], i - 1, j) {
    }
  }

  lemma FirstLink(k: Keys, c: Block, m: seq<octet>)
    requires |m| >= 16
    ensures Link(k.e, c, m, 1) == k.e(XorBlock(m[..16], c))
  {
    var x := seq(16, j requires 0 <= j < 16 => OctetAt(m, 0, j) ^ c[j]);
    assert Link(k.e, c, m, 0) == c;
    assert x == XorBlock(m[..16], c);
  }

  lemma FilledIs(rest: seq<octet>, j: nat)
    requires |rest| < 16 && j < 16
    ensures (rest + [0x80] + Zeros(15 - |rest|))[j] == Filled(rest, j)
  {
  }

  lemma LastIs(k: Keys, c: Block, rest: seq<octet>)
    requires |rest| <= 16
    ensures XorBlock(LastBlock(k, rest), c) == Last(k.k1, k.k2, c, rest)
  {
    var b := if |rest| == 16 then rest else rest + [0x80] + Zeros(15 - |rest|);
    var sub := if |rest| == 16 then k.k1 else k.k2;
    assert LastBlock(k, rest) == XorBlock(b, sub);
    forall j | 0 <= j < 16 ensures b[j] == Filled(rest, j) {
      if |rest| < 16 {
        FilledIs(rest, j);
      }
    }
    hide Filled, LastBlock;
    XorThree(b, sub, c, rest);
  }

  lemma XorThree(b: Block, sub: Block, c: Block, rest: seq<octet>)
    requires forall j :: 0 <= j < 16 ==> b[j] == Filled(rest, j)
    ensures XorBlock(XorBlock(b, sub), c) == seq(16, j requires 0 <= j < 16 => Filled(rest, j) ^ sub[j] ^ c[j])
  {
    hide Filled;
  }

  lemma {:induction false} ChainIs(k: Keys, c: Block, m: seq<octet>)
    ensures var n := BlockCount(m);
      Chain(k, c, m) == k.e(Last(k.k1, k.k2, Link(k.e, c, m, n - 1), m[16 * (n - 1)..]))
    decreases |m|
  {
    var n := BlockCount(m);
    if |m| > 16 {
      var t := m[16..];
      assert BlockCount(t) == n - 1;
      ChainIs(k, k.e(XorBlock(m[..16], c)), t);
      FirstLink(k, c, m);
      LinkShift(k.e, c, m, n - 2);
      assert t[16 * (n - 2)..] == m[16 * (n - 1)..];
    } else {
      assert n == 1 && m[0..] == m;
      LastIs(k, c, m);
    }
  }

  /** The code of every message under a cipher and the subkeys made from it. */
  lemma CmacIs(e: Cipher, m: seq<octet>)
    ensures var n, k := BlockCount(m), Subkeys(e);
      Cmac(k, m) == e(Last(k.k1, k.k2, Link(e, seq(16, _ => 0), m, n - 1), m[16 * (n - 1)..]))
  {
    ChainIs(Subkeys(e), Zeros(16), m);
    assert Zeros(16) == seq(16, _ => 0);
    hide Chain, Link, Last;
  }
}
