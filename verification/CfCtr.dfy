/** Counter mode of modes.c, over the key material of CfBlockwise. */
module CfCtr {
  import opened CfBits
  import opened CfBlockwise
  import opened CfCmac
  import opened Common
  import opened Octets

  // ---------------------------------------------------------------- big-endian counting

  function BeValue(s: seq<octet>): (v: nat)
    ensures v < Pow256(|s|)
  {
    if s == [] then 0 else 256 * BeValue(s[..|s| - 1]) + s[|s| - 1] as int
  }

  /** `incr_be` on values. */
  function Incr(s: seq<octet>): (r: seq<octet>)
    ensures |r| == |s|
  {
    if s == [] then []
    else if s[|s| - 1] == 0xff then Incr(s[..|s| - 1]) + [0]
    else s[..|s| - 1] + [s[|s| - 1] + 1]
  }

  lemma OctetPlusOne(b: octet)
    requires b != 0xff
    ensures (b + 1) as int == b as int + 1
  {
  }

  /** One more, back to zero after the largest value. */
  lemma {:induction false} IncrAddsOne(s: seq<octet>)
    ensures BeValue(Incr(s)) == if BeValue(s) + 1 == Pow256(|s|) then 0 else BeValue(s) + 1
  {
    if s != [] {
      var front, b := s[..|s| - 1], s[|s| - 1];
      var r := Incr(s);
      if b == 0xff {
        IncrAddsOne(front);
        assert r[..|r| - 1] == Incr(front);
      } else {
        OctetPlusOne(b);
        assert r[..|r| - 1] == front;
      }
    }
  }

  lemma IncrLast(s: seq<octet>, b: octet)
    ensures Incr(s + [b]) == if b + 1 == 0 then Incr(s) + [0] else s + [b + 1]
  {
    assert (s + [b])[..|s|] == s;
    assert b + 1 == 0 <==> b == 0xff;
  }

  lemma IncrNothing()
    ensures Incr([]) == []
  {
  }

  /** One more in one octet. */
  method Bump(v: array<octet>, at: nat)
    requires at < v.Length
    modifies v
    ensures v[at] == old(v[at]) + 1 && v[..] == (old(v[..at]) + [v[at]]) + old(v[at + 1..])
    ensures v[..at] == old(v[..at]) && v[at..] == [v[at]] + old(v[at + 1..])
  {
    v[at] := v[at] + 1;
    assert v[..at] == old(v[..at]) && v[at + 1..] == old(v[at + 1..]);
    assert v[at..] == [v[at]] + v[at + 1..];
    assert v[..] == v[..at] + v[at..];
  }

  /** What a carry leaves to do. */
  lemma IncrCarries(s: seq<octet>, head: seq<octet>, b: octet, tail: seq<octet>)
    requires Incr(head + [b]) + tail == Incr(s)
    ensures b + 1 == 0 ==> Incr(head) + ([b + 1] + tail) == Incr(s)
    ensures b + 1 != 0 ==> (head + [b + 1]) + tail == Incr(s)
  {
    hide Incr;
    IncrLast(head, b);
    assert (Incr(head) + [0]) + tail == Incr(head) + ([0] + tail);
  }

  /** `incr_be`: carries from the last octet up. */
  method IncrBe(v: array<octet>)
    requires v.Length > 0
    modifies v
    ensures v[..] == Incr(old(v[..]))
  {
    var len := v.Length - 1;
    ghost var s := v[..];
    ghost var head, tail := s[..len], [];
    assert head + [s[len]] == s && v[..len] == head && v[len + 1..] == [];
    assert Incr(s) + [] == Incr(s);
    hide Incr;
    while true
      invariant 0 <= len < v.Length && |head| == len
      invariant v[..len] == head && v[len + 1..] == tail
      invariant Incr(head + [v[len]]) + tail == Incr(s)
      decreases len
    {
      IncrCarries(s, head, v[len], tail);
      Bump(v, len);
      if v[len] != 0 {
        return;
      }
      tail := [v[len]] + tail;
      if len == 0 {
        IncrNothing();
        assert head == [] && [] + tail == tail;
        return;
      }
      len := len - 1;
      assert head == head[..len] + [head[len]];
      head := head[..len];
    }
  }

  // ---------------------------------------------------------------- the key stream

  /** The counter block `i` blocks on. */
  function Counter(nonce: Block, i: nat): Block {
    if i == 0 then nonce else Incr(Counter(nonce, i - 1))
  }

  lemma Pow256Is()
    ensures Pow256(16) == 0x1_0000_0000_0000_0000_0000_0000_0000_0000
  {
    assert Pow256(4) == 0x1_0000_0000;
    assert Pow256(8) == 0x1_0000_0000_0000_0000;
    assert Pow256(12) == 0x1_0000_0000_0000_0000_0000_0000;
  }

  /** Counter block `i` is the nonce plus `i`, modulo 2^128. */
  lemma {:induction false} CounterValue(nonce: Block, i: nat)
    ensures BeValue(Counter(nonce, i)) == (BeValue(nonce) + i) % 0x1_0000_0000_0000_0000_0000_0000_0000_0000
  {
    Pow256Is();
    hide Pow256, Incr, BeValue;
    if i > 0 {
      CounterValue(nonce, i - 1);
      IncrAddsOne(Counter(nonce, i - 1));
    }
  }

  function IncrBlock(nonce: Block): Block {
    Incr(nonce)
  }

  lemma {:induction false} CounterShift(nonce: Block, i: nat)
    ensures Counter(IncrBlock(nonce), i) == Counter(nonce, i + 1)
  {
    if i > 0 {
      CounterShift(nonce, i - 1);
    }
  }

  /** `ctr_next_block`: the cipher as a generator of key material. */
  function NextBlock(e: Cipher): Block -> seq<octet> {
    (c: Block) => e(c)
  }

  lemma CipherBlocks(e: Cipher)
    ensures Blocks(16, NextBlock(e))
  {
  }

  /** The supply of a counter mode context: `left` octets unused, then the counter blocks from
      `nonce` on under the cipher. */
  ghost function KeyStream(e: Cipher, s: Supply<Block>, k: nat): (r: seq<octet>)
    ensures |r| == k
  {
    CipherBlocks(e);
    Key(16, NextBlock(e), IncrBlock, s, k)
  }

  ghost function After(e: Cipher, s: Supply<Block>, k: nat): Supply<Block> {
    CipherBlocks(e);
    Spend(16, NextBlock(e), IncrBlock, s, k)
  }

  /** A fresh supply gives the cipher's value at the nonce, then what follows from the next one. */
  lemma FirstBlock(e: Cipher, nonce: Block, k: nat)
    ensures KeyStream(e, Supply([], nonce), 16 + k) == e(nonce) + KeyStream(e, Supply([], IncrBlock(nonce)), k)
  {
    CipherBlocks(e);
    var full := Supply(e(nonce), IncrBlock(nonce));
    assert [] + Key(16, NextBlock(e), IncrBlock, full, 16 + k) == Key(16, NextBlock(e), IncrBlock, full, 16 + k);
    if k > 0 {
      var next := Supply(e(full.ctx), IncrBlock(full.ctx));
      assert [] + Key(16, NextBlock(e), IncrBlock, next, k) == Key(16, NextBlock(e), IncrBlock, next, k);
    }
  }

  /** Block `i` of the key stream is the cipher's value at the nonce plus `i`. */
  lemma {:induction false} KeyStreamBlock(e: Cipher, nonce: Block, i: nat)
    ensures KeyStream(e, Supply([], nonce), 16 * i + 16)[16 * i..] == e(Counter(nonce, i))
    decreases i
  {
    hide KeyStream;
    FirstBlock(e, nonce, 16 * i);
    if i > 0 {
      KeyStreamBlock(e, IncrBlock(nonce), i - 1);
      CounterShift(nonce, i - 1);
    }
  }

  /** An octet of the key stream, wherever the stream is cut off. */
  lemma StreamOctet(e: Cipher, nonce: Block, n: nat, i: nat)
    requires i < n
    ensures KeyStream(e, Supply([], nonce), n)[i] == e(Counter(nonce, i / 16))[i % 16]
  {
    var q := i / 16;
    var m := 16 * q + 16;
    KeyStreamBlock(e, nonce, q);
    hide Counter;
    SameOctet(e, nonce, n, m, i);
    assert KeyStream(e, Supply([], nonce), m)[i] == KeyStream(e, Supply([], nonce), m)[16 * q..][i - 16 * q];
  }

  /** Streams of different lengths start alike. */
  lemma SameOctet(e: Cipher, nonce: Block, a: nat, b: nat, i: nat)
    requires i < a && i < b
    ensures KeyStream(e, Supply([], nonce), a)[i] == KeyStream(e, Supply([], nonce), b)[i]
  {
    CipherBlocks(e);
    var s := Supply([], nonce);
    if a <= b {
      KeySplit(16, NextBlock(e), IncrBlock, s, a, b - a);
    } else {
      KeySplit(16, NextBlock(e), IncrBlock, s, b, a - b);
    }
    hide Key, Spend;
  }

  // ---------------------------------------------------------------- any split of the input

  /** The output for a list of pieces, each taken up where the last one stopped. */
  ghost function Pieces(e: Cipher, s: Supply<Block>, pieces: seq<seq<octet>>): seq<octet>
    decreases |pieces|
  {
    if pieces == [] then []
    else Xor(pieces[0], KeyStream(e, s, |pieces[0]|)) + Pieces(e, After(e, s, |pieces[0]|), pieces[1..])
  }

  /** Whatever the split into calls, the output is the input under one key stream. */
  lemma {:induction false} AnySplit(e: Cipher, s: Supply<Block>, pieces: seq<seq<octet>>)
    ensures Pieces(e, s, pieces) == Xor(Flatten(pieces), KeyStream(e, s, |Flatten(pieces)|))
    decreases |pieces|
  {
    if pieces != [] {
      var a, b := pieces[0], Flatten(pieces[1..]);
      CipherBlocks(e);
      AnySplit(e, After(e, s, |a|), pieces[1..]);
      KeySplit(16, NextBlock(e), IncrBlock, s, |a|, |b|);
      XorConcat(a, b, KeyStream(e, s, |a|), KeyStream(e, After(e, s, |a|), |b|));
    }
  }

  /** Counter mode twice from one state is the identity, even if split differently. */
  lemma TwiceIsIdentity(e: Cipher, s: Supply<Block>, pieces: seq<seq<octet>>, again: seq<seq<octet>>)
    requires Flatten(again) == Pieces(e, s, pieces)
    ensures Pieces(e, s, again) == Flatten(pieces)
  {
    AnySplit(e, s, pieces);
    AnySplit(e, s, again);
    XorTwice(Flatten(pieces), KeyStream(e, s, |Flatten(pieces)|));
  }

  // ---------------------------------------------------------------- the context in place

  class Ctr {
    const e: Cipher
    const nonce: array<octet>
    const keymat: array<octet>
    var nkeymat: nat

    ghost predicate Valid()
      reads this, nonce, keymat
    {
      nonce.Length == 16 && keymat.Length == 16 && nkeymat < 16 && nonce != keymat
    }

    ghost function State(): Supply<Block>
      reads this, nonce, keymat
      requires Valid()
    {
      Supply(keymat[16 - nkeymat..], nonce[..])
    }

    /** `cf_ctr_init`. */
    constructor (e: Cipher, iv: Block)
      ensures Valid() && fresh(nonce) && fresh(keymat) && this.e == e && State() == Supply([], iv)
    {
      this.e := e;
      nonce := new octet[16](i requires 0 <= i < 16 => iv[i]);
      keymat := new octet[16](_ => 0);
      nkeymat := 0;
      new;
      assert nonce[..] == iv;
    }

    /** `cf_ctr_cipher`. */
    method Cipher(input: seq<octet>, output: array<octet>)
      requires Valid() && |input| <= output.Length && output != nonce && output != keymat
      modifies this, nonce, keymat, output
      ensures Valid() && State() == After(e, old(State()), |input|)
      ensures output[..|input|] == Xor(input, KeyStream(e, old(State()), |input|))
      ensures output[|input|..] == old(output[|input|..])
    {
      CipherBlocks(e);
      assert input[..|input|] == input;
      ghost var s := State();
      var ctx: Block := nonce[..];
      nkeymat, ctx := XorStream(keymat, nkeymat, input, output, NextBlock(e), IncrBlock, ctx);
      hide Key, Spend;
      SetBlock(nonce, ctx);
    }
  }

  method SetBlock(dst: array<octet>, src: Block)
    requires dst.Length == 16
    modifies dst
    ensures dst[..] == src
  {
    forall i | 0 <= i < 16 {
      dst[i] := src[i];
    }
  }
}
