/** EAX authenticated encryption of eax.c, for every block cipher. */
module CfEax {
  import opened CfBits
  import opened CfBlockwise
  import opened CfCmac
  import opened CfCtr
  import opened Octets

  // ---------------------------------------------------------------- EAX

  function Tweak(t: octet): Block {
    Zeros(15) + [t]
  }

  /** The tweak block of `t` is the number `t` in sixteen octets, so different tweaks differ. */
  lemma TweakIs(t: octet)
    ensures BeValue(Tweak(t)) == t as int
  {
    assert Tweak(t)[..15] == Zeros(15);
    ZerosValue(15);
  }

  lemma {:induction false} ZerosValue(n: nat)
    ensures BeValue(Zeros(n)) == 0
  {
    if n > 0 {
      assert Zeros(n)[..n - 1] == Zeros(n - 1);
      ZerosValue(n - 1);
    }
  }

  /** A number has one string of octets of a given length. */
  lemma {:induction false} SameValue(a: seq<octet>, b: seq<octet>)
    requires |a| == |b| && BeValue(a) == BeValue(b)
    ensures a == b
  {
    if a != [] {
      var n := |a| - 1;
      LastOctet(BeValue(a[..n]), a[n], BeValue(b[..n]), b[n]);
      SameValue(a[..n], b[..n]);
      assert a == a[..n] + [a[n]] && b == b[..n] + [b[n]];
    }
  }

  lemma LastOctet(p: nat, a: octet, q: nat, b: octet)
    requires 256 * p + a as int == 256 * q + b as int
    ensures p == q && a == b
  {
    OctetOrder(a, b);
    OctetOrder(b, a);
  }

  lemma OctetOrder(a: octet, b: octet)
    ensures 0 <= a as int < 256 && (a < b ==> (a as int) < b as int)
  {
  }

  /** OMAC with tweak `t`: the CMAC of the message after a block that ends in `t`. */
  function Omac(k: Keys, t: octet, m: seq<octet>): Block {
    Cmac(k, Tweak(t) + m)
  }

  /** The ciphertext, or the plaintext of a ciphertext. */
  ghost function Crypt(e: Cipher, nonce: seq<octet>, text: seq<octet>): (r: seq<octet>)
    ensures |r| == |text|
  {
    Xor(text, KeyStream(e, Supply([], Omac(Subkeys(e), 0, nonce)), |text|))
  }

  function Tag(e: Cipher, nonce: seq<octet>, header: seq<octet>, cipher: seq<octet>): Block {
    var k := Subkeys(e);
    XorBlock(XorBlock(Omac(k, 0, nonce), Omac(k, 2, cipher)), Omac(k, 1, header))
  }

  /** Decrypting what was encrypted gives the plaintext back, and the tag computed from the
      ciphertext is the one sent. */
  lemma CryptTwice(e: Cipher, nonce: seq<octet>, plain: seq<octet>)
    ensures Crypt(e, nonce, Crypt(e, nonce, plain)) == plain
  {
    XorTwice(plain, KeyStream(e, Supply([], Omac(Subkeys(e), 0, nonce)), |plain|));
  }

  lemma OmacOf(k: Keys, t: octet, m: seq<octet>)
    ensures forall b: Block :: BeValue(b) == t as int ==> Omac(k, t, m) == Cmac(k, b + m)
  {
    forall b: Block | BeValue(b) == t as int ensures Omac(k, t, m) == Cmac(k, b + m) {
      TweakIs(t);
      SameValue(b, Tweak(t));
      hide Cmac;
    }
  }

  /** The tag, octet by octet: the sum of the three MACs, each over its own block and text. */
  lemma TagIs(e: Cipher, nonce: seq<octet>, header: seq<octet>, cipher: seq<octet>, b0: Block, b1: Block, b2: Block, i: nat)
    requires BeValue(b0) == 0 && BeValue(b1) == 1 && BeValue(b2) == 2 && i < 16
    ensures var k := Subkeys(e);
      Tag(e, nonce, header, cipher)[i] == Cmac(k, b0 + nonce)[i] ^ Cmac(k, b1 + header)[i] ^ Cmac(k, b2 + cipher)[i]
  {
    var k := Subkeys(e);
    OmacOf(k, 0, nonce);
    OmacOf(k, 1, header);
    OmacOf(k, 2, cipher);
    var nn, hh, cc := Omac(k, 0, nonce), Omac(k, 1, header), Omac(k, 2, cipher);
    assert Tag(e, nonce, header, cipher)[i] == (nn[i] ^ cc[i]) ^ hh[i];
    SwapLast(nn[i], cc[i], hh[i]);
    hide Omac, Cmac, Subkeys;
  }

  lemma SwapLast(a: octet, b: octet, c: octet)
    ensures (a ^ b) ^ c == (a ^ c) ^ b
  {
  }

  /** An octet of the ciphertext: that of the plaintext under the cipher of a counter that starts at
      the MAC of the nonce. */
  lemma CryptIs(e: Cipher, nonce: seq<octet>, text: seq<octet>, b0: Block, i: nat)
    requires BeValue(b0) == 0 && i < |text|
    ensures var nn := Cmac(Subkeys(e), b0 + nonce);
      Crypt(e, nonce, text)[i] == text[i] ^ e(Counter(nn, i / 16))[i % 16]
  {
    OmacOf(Subkeys(e), 0, nonce);
    var nn := Omac(Subkeys(e), 0, nonce);
    hide Omac, Cmac, Subkeys;
    StreamOctet(e, nn, |text|, i);
  }

  // ---------------------------------------------------------------- eax.c

  /** `cmac_compute_n`: whatever the stream was used for before. */
  method CmacComputeN(ctx: CmacStream, t: octet, input: seq<octet>) returns (out: Block)
    requires ctx.Valid()
    modifies ctx, ctx.buffer
    ensures ctx.Valid() && out == Omac(ctx.keys, t, input)
    ensures forall b: Block :: BeValue(b) == t as int ==> out == Cmac(ctx.keys, b + input)
  {
    OmacOf(ctx.keys, t, input);
    hide BeValue;
    var firstblock: Block := Tweak(t);
    ctx.Reset();
    if input != [] {
      ChainSplit(ctx.keys, START, firstblock, input);
      ProcessKeepsOpen(ctx.keys, START, firstblock);
      hide Absorb, Chain;
      ctx.Update(firstblock);
      assert [] + firstblock == firstblock;
      ctx.UpdateFinal(input);
    } else {
      hide Absorb, Chain;
      assert [] + firstblock == firstblock + input;
      ctx.UpdateFinal(firstblock);
    }
    out := ctx.Final();
  }

  /** The loop over the tag octets. */
  method MixTags(nn: Block, cc: Block, hh: Block, ntag: nat, tag: array<octet>)
    requires ntag <= 16 && ntag <= tag.Length
    modifies tag
    ensures tag[..ntag] == XorBlock(XorBlock(nn, cc), hh)[..ntag]
    ensures tag[ntag..] == old(tag[ntag..])
  {
    for i := 0 to ntag
      invariant tag[..i] == XorBlock(XorBlock(nn, cc), hh)[..i]
      invariant tag[ntag..] == old(tag[ntag..])
    {
      tag[i] := nn[i] ^ cc[i] ^ hh[i];
    }
  }

  /** `mem_eq`: compares all octets and only then decides. */
  method MemEq(a: seq<octet>, b: seq<octet>) returns (equal: bool)
    requires |a| == |b|
    ensures equal <==> a == b
  {
    var diff: octet := 0;
    for i := 0 to |a|
      invariant diff == 0 <==> a[..i] == b[..i]
    {
      DiffNext(diff, a[i], b[i]);
      diff := diff | (a[i] ^ b[i]);
      assert a[..i + 1] == a[..i] + [a[i]] && b[..i + 1] == b[..i] + [b[i]];
    }
    equal := diff == 0;
    assert a[..|a|] == a && b[..|b|] == b;
  }

  lemma DiffNext(diff: octet, a: octet, b: octet)
    ensures diff | (a ^ b) == 0 <==> diff == 0 && a == b
  {
  }

  /** `cf_eax_encrypt`. */
  method EaxEncrypt(e: Cipher, plain: seq<octet>, header: seq<octet>, nonce: seq<octet>,
                    cipher: array<octet>, tag: array<octet>, ntag: nat)
    requires cipher.Length == |plain| && ntag <= 16 && ntag <= tag.Length && cipher != tag
    modifies cipher, tag
    ensures cipher[..] == Crypt(e, nonce, plain)
    ensures tag[..ntag] == Tag(e, nonce, header, cipher[..])[..ntag]
    ensures tag[ntag..] == old(tag[ntag..])
  {
    hide *;
    var keys := CmacInit(e);
    var cmac := new CmacStream(keys);
    var nn := CmacComputeN(cmac, 0, nonce);
    var hh := CmacComputeN(cmac, 1, header);
    EncryptWith(e, nn, plain, cipher);
    var cc := CmacComputeN(cmac, 2, cipher[..]);
    MixTags(nn, cc, hh, ntag, tag);
    TagOf(e, nonce, header, cipher[..], nn, cc, hh);
    CryptOf(e, nonce, plain, nn);
  }

  /** A counter mode context used once. */
  method EncryptWith(e: Cipher, iv: Block, input: seq<octet>, output: array<octet>)
    requires output.Length == |input|
    modifies output
    ensures output[..] == Xor(input, KeyStream(e, Supply([], iv), |input|))
  {
    hide *;
    var ctr := new Ctr(e, iv);
    ctr.Cipher(input, output);
    assert output[..] == output[..|input|];
  }

  lemma TagOf(e: Cipher, nonce: seq<octet>, header: seq<octet>, cipher: seq<octet>, nn: Block, cc: Block, hh: Block)
    requires nn == Omac(Subkeys(e), 0, nonce) && hh == Omac(Subkeys(e), 1, header) && cc == Omac(Subkeys(e), 2, cipher)
    ensures Tag(e, nonce, header, cipher) == XorBlock(XorBlock(nn, cc), hh)
  {
  }

  lemma CryptOf(e: Cipher, nonce: seq<octet>, text: seq<octet>, nn: Block)
    requires nn == Omac(Subkeys(e), 0, nonce)
    ensures Crypt(e, nonce, text) == Xor(text, KeyStream(e, Supply([], nn), |text|))
  {
  }

  /** `cf_eax_decrypt`: 0 exactly when the tag is that of nonce, header and ciphertext, and only
      then is `plain` written. */
  method EaxDecrypt(e: Cipher, cipher: seq<octet>, header: seq<octet>, nonce: seq<octet>, tag: seq<octet>,
                    plain: array<octet>) returns (r: nat)
    requires plain.Length == |cipher| && 0 < |tag| <= 16
    modifies plain
    ensures r == if tag == Tag(e, nonce, header, cipher)[..|tag|] then 0 else 1
    ensures r == 0 ==> plain[..] == Crypt(e, nonce, cipher)
    ensures r != 0 ==> plain[..] == old(plain[..])
  {
    hide *;
    var keys := CmacInit(e);
    var cmac := new CmacStream(keys);
    var nn := CmacComputeN(cmac, 0, nonce);
    var hh := CmacComputeN(cmac, 1, header);
    var cc := CmacComputeN(cmac, 2, cipher);
    TagOf(e, nonce, header, cipher, nn, cc, hh);
    CryptOf(e, nonce, cipher, nn);
    var tt := new octet[16];
    MixTags(nn, cc, hh, |tag|, tt);
    var same := MemEq(tt[..|tag|], tag);
    if !same {
      return 1;
    }
    EncryptWith(e, nn, cipher, plain);
    r := 0;
  }

  /** A message that was encrypted is accepted and restored. */
  method EncryptThenDecrypt(e: Cipher, plain: seq<octet>, header: seq<octet>, nonce: seq<octet>, ntag: nat)
    returns (r: nat, restored: seq<octet>)
    requires 0 < ntag <= 16
    ensures r == 0 && restored == plain
  {
    hide *;
    var cipher, tag, out := new octet[|plain|], new octet[ntag], new octet[|plain|];
    EaxEncrypt(e, plain, header, nonce, cipher, tag, ntag);
    r := EaxDecrypt(e, cipher[..], header, nonce, tag[..ntag], out);
    CryptTwice(e, nonce, plain);
    restored := out[..];
  }
}
