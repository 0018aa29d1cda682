/** The functions of cifra_eax_aes.c in place: key schedule, rounds, blocks. */
module CfAesBlocks {
  import opened CfAes
  import opened CfBits
  import opened CfCmac
  import opened CfGf128
  import opened Octets

  // ---------------------------------------------------------------- the key schedule

  const RCON: seq<octet> := [0x8d, 0x01, 0x02, 0x04, 0x08, 0x10, 0x20, 0x40, 0x80, 0x1b, 0x36]

  /** `rot_word`. */
  function RotWord(w: bv32): bv32 {
    (w << 8) | (w >> 24)
  }

  /** `round_constant`. */
  function RoundConstant(i: nat): bv32
    requires i < 11
  {
    RCON[i] as bv32 << 24
  }

  /** The number of key words of AES-128, AES-192 and AES-256. */
  predicate KeyWords(nk: nat) {
    nk == 4 || nk == 6 || nk == 8
  }

  function Div(i: nat, nk: nat): nat
    requires KeyWords(nk)
  {
    if nk == 4 then i / 4 else if nk == 6 then i / 6 else i / 8
  }

  function Mod(i: nat, nk: nat): nat
    requires KeyWords(nk)
  {
    if nk == 4 then i % 4 else if nk == 6 then i % 6 else i % 8
  }

  /** What is added to the word `nk` places back (section 5.2 of FIPS 197). */
  function Temp(nk: nat, i: nat, temp: bv32): bv32
    requires KeyWords(nk) && Div(i, nk) < 11
  {
    if Mod(i, nk) == 0 then Xor32(SubWord(RotWord(temp), SBox), RoundConstant(Div(i, nk)))
    else if nk > 6 && Mod(i, nk) == 4 then SubWord(temp, SBox)
    else temp
  }

  /** Number of words of an expanded key. */
  function Size(nk: nat): nat {
    4 * (nk + 7)
  }

  /** Word `i` of the expansion of a key. */
  function KeyWord(key: seq<bv32>, i: nat): bv32
    requires KeyWords(|key|) && i < Size(|key|)
  {
    if i < |key| then key[i]
    else Xor32(KeyWord(key, i - |key|), Temp(|key|, i, KeyWord(key, i - 1)))
  }

  /** The first octet becomes the last. */
  lemma RotWordIs(a: octet, b: octet, c: octet, d: octet)
    ensures RotWord(Word4(a, b, c, d)) == Word4(b, c, d, a)
  {
  }

  /** Round constant `i` is x^(i - 1) in GF(2^8), in the first octet of its word. */
  lemma RoundConstantIs(i: nat)
    requires 0 < i < 11
    ensures RCON[1] == 1 && (i > 1 ==> RCON[i] == XTime(RCON[i - 1]))
    ensures RoundConstant(i) == Word4(RCON[i], 0, 0, 0)
  {
    assert Word4(RCON[i], 0, 0, 0) == RCON[i] as bv32 << 24;
  }

  /** The expansion of section 5.2 of FIPS 197 as it is written there, octet by octet: a word is the
      one a key length back, with the word before it added, rotated and substituted where a key starts
      and substituted alone in the middle of a key of eight words. */
  lemma KeyWordIs(key: seq<bv32>, i: nat)
    requires KeyWords(|key|) && i < 4 * (|key| + 7)
    ensures i < |key| ==> KeyWord(key, i) == key[i]
    ensures i >= |key| ==>
      var nk, w, t := |key|, KeyWord(key, i - |key|), KeyWord(key, i - 1);
      var a, b, c, d := Byte0(t), Byte1(t), Byte2(t), Byte3(t);
      0 < i / nk < 11 && KeyWord(key, i) ==
        if i % nk == 0 then Xor32(w, Xor32(Word4(SBox(b), SBox(c), SBox(d), SBox(a)), Word4(RCON[i / nk], 0, 0, 0)))
        else if nk == 8 && i % nk == 4 then Xor32(w, Word4(SBox(a), SBox(b), SBox(c), SBox(d)))
        else Xor32(w, t)
  {
    if i >= |key| {
      RconInRange(|key|, i);
      var t := KeyWord(key, i - 1);
      var a, b, c, d := Byte0(t), Byte1(t), Byte2(t), Byte3(t);
      DivMod(i, |key|);
      assert KeyWord(key, i) == Xor32(KeyWord(key, i - |key|), Temp(|key|, i, t));
      hide KeyWord, Div, Mod, Byte0, Byte1, Byte2, Byte3, Word4, RotWord, RoundConstant, SBox, Xor32;
      BytesWord4(t);
      RotWordIs(a, b, c, d);
      Word4Bytes(b, c, d, a);
      RoundConstantIs(i / |key|);
    }
  }

  lemma DivMod(i: nat, nk: nat)
    requires KeyWords(nk)
    ensures Div(i, nk) == i / nk && Mod(i, nk) == i % nk
  {
  }

  /** `sub_word`, without a data-dependent table access. */
  method SubWordTable(w: bv32, sbox: bv8 -> octet) returns (r: bv32)
    ensures r == SubWord(w, sbox)
  {
    hide Byte0, Byte1, Byte2, Byte3, Word4;
    var a, b, c, d := SelectU8x4(Byte0(w), Byte1(w), Byte2(w), Byte3(w), sbox);
    r := Word4(a, b, c, d);
  }

  /** The counters of `aes_schedule` before word `i`: the quotient and remainder of `i`, or the
      remainder about to be turned over. */
  predicate Counters(i: nat, nk: nat, iDivNk: nat, iModNk: nat)
    requires KeyWords(nk)
  {
    if iModNk == nk then Div(i, nk) == iDivNk + 1 && Mod(i, nk) == 0
    else iModNk < nk && Div(i, nk) == iDivNk && Mod(i, nk) == iModNk
  }

  /** The round constant of a schedule is always in the table. */
  lemma RconInRange(nk: nat, i: nat)
    requires KeyWords(nk) && nk <= i < Size(nk)
    ensures 1 <= Div(i, nk) < 11
  {
  }

  /** One word of the schedule. */
  method NextWord(ks: array<bv32>, key: seq<bv32>, i: nat, iDivNk: nat, iModNk: nat)
    requires KeyWords(|key|) && ks.Length == Size(|key|) && |key| <= i < ks.Length
    requires iDivNk == Div(i, |key|) && iModNk == Mod(i, |key|)
    requires forall k :: 0 <= k < i ==> ks[k] == KeyWord(key, k)
    modifies ks
    ensures forall k :: 0 <= k <= i ==> ks[k] == KeyWord(key, k)
  {
    hide Xor32, SubWord, RotWord, RoundConstant, Div, Mod;
    RconInRange(|key|, i);
    var nk := |key|;
    var temp := ks[i - 1];
    ghost var word := KeyWord(key, i);
    assert word == Xor32(ks[i - nk], Temp(nk, i, temp));
    if iModNk == 0 {
      temp := SubWordTable(RotWord(temp), SBox);
      temp := Xor32(temp, RoundConstant(iDivNk));
    } else if nk > 6 && iModNk == 4 {
      temp := SubWordTable(temp, SBox);
    }
    assert word == Xor32(ks[i - nk], temp);
    hide KeyWord;
    ks[i] := Xor32(ks[i - nk], temp);
  }

  /** `aes_schedule`. */
  method Schedule(ks: array<bv32>, key: seq<bv32>)
    requires KeyWords(|key|) && ks.Length == Size(|key|)
    modifies ks
    ensures forall k :: 0 <= k < ks.Length ==> ks[k] == KeyWord(key, k)
  {
    var nk, n := |key|, ks.Length;
    var i := 0;
    while i < nk
      invariant 0 <= i <= nk && forall k :: 0 <= k < i ==> ks[k] == KeyWord(key, k)
    {
      ks[i] := key[i];
      i := i + 1;
    }
    hide KeyWord;
    var iDivNk, iModNk := 1, 0;
    while i < n
      invariant nk <= i <= n && 0 <= iDivNk && 0 <= iModNk <= nk
      invariant Counters(i, nk, iDivNk, iModNk)
      invariant forall k :: 0 <= k < i ==> ks[k] == KeyWord(key, k)
    {
      if iModNk == nk {
        iDivNk := iDivNk + 1;
        iModNk := 0;
      }
      NextWord(ks, key, i, iDivNk, iModNk);
      i := i + 1;
      iModNk := iModNk + 1;
    }
  }

  // ---------------------------------------------------------------- rounds

  /** `add_round_key`. */
  method AddRoundKey(state: array<bv32>, rk: Words)
    requires state.Length == 4
    modifies state
    ensures Value(state) == Add(old(Value(state)), rk)
  {
    hide Xor32;
    state[0] := Xor32(state[0], rk.w0);
    state[1] := Xor32(state[1], rk.w1);
    state[2] := Xor32(state[2], rk.w2);
    state[3] := Xor32(state[3], rk.w3);
  }

  /** `sub_block`, or `inv_sub_block` with the other table. */
  method SubBlock(state: array<bv32>, sbox: bv8 -> octet)
    requires state.Length == 4
    modifies state
    ensures Value(state) == SubState(old(Value(state)), sbox)
  {
    hide SubWord;
    state[0] := SubWordTable(state[0], sbox);
    state[1] := SubWordTable(state[1], sbox);
    state[2] := SubWordTable(state[2], sbox);
    state[3] := SubWordTable(state[3], sbox);
  }

  /** `shift_rows`. */
  method ShiftStateRows(state: array<bv32>)
    requires state.Length == 4
    modifies state
    ensures Value(state) == ShiftRows(old(Value(state)))
  {
    hide Diagonal;
    var u := Diagonal(state[0], state[1], state[2], state[3]);
    var v := Diagonal(state[1], state[2], state[3], state[0]);
    var x := Diagonal(state[2], state[3], state[0], state[1]);
    var y := Diagonal(state[3], state[0], state[1], state[2]);
    state[0], state[1], state[2], state[3] := u, v, x, y;
  }

  /** `inv_shift_rows`. */
  method InvShiftStateRows(state: array<bv32>)
    requires state.Length == 4
    modifies state
    ensures Value(state) == InvShiftRows(old(Value(state)))
  {
    hide Diagonal;
    var u := Diagonal(state[0], state[3], state[2], state[1]);
    var v := Diagonal(state[1], state[0], state[3], state[2]);
    var x := Diagonal(state[2], state[1], state[0], state[3]);
    var y := Diagonal(state[3], state[2], state[1], state[0]);
    state[0], state[1], state[2], state[3] := u, v, x, y;
  }

  /** `mix_columns`. */
  method MixStateColumns(state: array<bv32>)
    requires state.Length == 4
    modifies state
    ensures Value(state) == MixColumns(old(Value(state)))
  {
    hide MixColumn;
    state[0] := MixColumn(state[0]);
    state[1] := MixColumn(state[1]);
    state[2] := MixColumn(state[2]);
    state[3] := MixColumn(state[3]);
  }

  /** `inv_mix_columns`. */
  method InvMixStateColumns(state: array<bv32>)
    requires state.Length == 4
    modifies state
    ensures Value(state) == InvMixColumns(old(Value(state)))
  {
    hide InvMixColumn;
    state[0] := InvMixColumn(state[0]);
    state[1] := InvMixColumn(state[1]);
    state[2] := InvMixColumn(state[2]);
    state[3] := InvMixColumn(state[3]);
  }

  // ---------------------------------------------------------------- blocks

  /** The cipher on blocks of octets, for an expanded key. */
  function EncryptBlock(ks: seq<bv32>, rounds: nat, b: Block): Block
    requires rounds > 0 && |ks| == 4 * (rounds + 1)
  {
    ToBytes(Encrypt(ks, rounds, FromBytes(b)))
  }

  function DecryptBlock(ks: seq<bv32>, rounds: nat, b: Block): Block
    requires rounds > 0 && |ks| == 4 * (rounds + 1)
  {
    ToBytes(Decrypt(ks, rounds, FromBytes(b)))
  }

  /** `cf_aes_decrypt` undoes `cf_aes_encrypt`, for every key schedule and every block. */
  lemma BlockRoundTrip(ks: seq<bv32>, rounds: nat, b: Block)
    requires rounds > 0 && |ks| == 4 * (rounds + 1)
    ensures DecryptBlock(ks, rounds, EncryptBlock(ks, rounds, b)) == b
  {
    hide Encrypt, Decrypt, FromBytes, ToBytes;
    FromToBytes(Encrypt(ks, rounds, FromBytes(b)));
    DecryptEncrypt(ks, rounds, FromBytes(b));
    ToFromBytes(b);
  }

  /** The octets of a block fill the state column by column (section 3.4 of FIPS 197). */
  lemma StateOctets(b: Block, i: nat, c: nat)
    requires i < 4 && c < 4
    ensures Cell(FromBytes(b), i, c) == b[4 * c + i]
  {
    var s := b[4 * c..4 * c + 4];
    assert Word(FromBytes(b), c) == Read32(s) by {
      assert b[..4] == b[0..4] && b[12..] == b[12..16];
      hide Read32;
    }
    hide *;
    CellIs(FromBytes(b), i, c);
    WordOctets(s, i);
  }

  lemma WordOctets(s: seq<octet>, i: nat)
    requires |s| == 4 && i < 4
    ensures OctetOf(Read32(s), i) == s[i]
  {
    assert Read32(s) == Word4(s[0], s[1], s[2], s[3]);
    hide Read32, Word4, Byte0, Byte1, Byte2, Byte3;
    Word4Bytes(s[0], s[1], s[2], s[3]);
  }

  class AesContext {
    const rounds: nat
    const ks: array<bv32>

    ghost predicate Valid()
      reads this, ks
    {
      (rounds == 10 || rounds == 12 || rounds == 14) && ks.Length == 4 * (rounds + 1)
    }

    /** The expansion of `key`. */
    constructor (key: seq<bv32>)
      requires KeyWords(|key|)
      ensures Valid() && fresh(ks) && rounds == |key| + 6
      ensures forall k :: 0 <= k < ks.Length ==> ks[k] == KeyWord(key, k)
    {
      rounds := |key| + 6;
      ks := new bv32[4 * (|key| + 7)];
      new;
      Schedule(ks, key);
    }

    /** The four words the key pointer of a round points at. */
    method RoundKeyAt(round: nat) returns (rk: Words)
      requires Valid() && round <= rounds
      ensures rk == RoundKey(ks[..], round)
    {
      rk := Words(ks[4 * round], ks[4 * round + 1], ks[4 * round + 2], ks[4 * round + 3]);
    }

    /** `cf_aes_encrypt`. */
    method Encrypt(inp: Block) returns (out: Block)
      requires Valid()
      ensures out == EncryptBlock(ks[..], rounds, inp)
    {
      hide RoundKey, Add, MixColumns, ShiftRows, SubState, FromBytes, ToBytes;
      var state := new bv32[4];
      SetWords(state, FromBytes(inp));
      ghost var k, s := ks[..], FromBytes(inp);
      var rk;
      rk := RoundKeyAt(0);
      AddRoundKey(state, rk);
      var round := 1;
      while round < rounds
        invariant 1 <= round <= rounds && ks[..] == k
        invariant Value(state) == Rounds(k, s, round - 1)
      {
        SubBlock(state, SBox);
        ShiftStateRows(state);
        MixStateColumns(state);
        rk := RoundKeyAt(round);
        AddRoundKey(state, rk);
        round := round + 1;
      }
      SubBlock(state, SBox);
      ShiftStateRows(state);
      rk := RoundKeyAt(round);
      AddRoundKey(state, rk);
      out := ToBytes(Value(state));
    }

    /** `cf_aes_decrypt`. */
    method Decrypt(inp: Block) returns (out: Block)
      requires Valid()
      ensures out == DecryptBlock(ks[..], rounds, inp)
    {
      hide RoundKey, Add, InvMixColumns, InvShiftRows, SubState, FromBytes, ToBytes;
      var state := new bv32[4];
      SetWords(state, FromBytes(inp));
      ghost var k, c := ks[..], FromBytes(inp);
      var rk;
      var round := rounds;
      rk := RoundKeyAt(round);
      AddRoundKey(state, rk);
      round := round - 1;
      while round != 0
        invariant 0 <= round < rounds && ks[..] == k
        invariant Value(state) == InvRounds(k, rounds, c, round)
      {
        InvShiftStateRows(state);
        SubBlock(state, SBoxInv);
        rk := RoundKeyAt(round);
        AddRoundKey(state, rk);
        InvMixStateColumns(state);
        round := round - 1;
      }
      InvShiftStateRows(state);
      SubBlock(state, SBoxInv);
      rk := RoundKeyAt(0);
      AddRoundKey(state, rk);
      out := ToBytes(Value(state));
    }
  }

  /** The words of a key. */
  function KeyOf(key: seq<octet>): (k: seq<bv32>)
    requires |key| % 4 == 0
    ensures |k| == |key| / 4
    decreases |key|
  {
    if key == [] then [] else [Read32(key[..4])] + KeyOf(key[4..])
  }

  /** The key sizes of FIPS 197, in octets. */
  predicate KeySize(n: nat) {
    n == 16 || n == 24 || n == 32
  }

  /** All words of the expansion of a key. */
  function Expanded(key: seq<octet>): (ks: seq<bv32>)
    requires KeySize(|key|)
    ensures |ks| == |key| + 28
  {
    seq(|key| + 28, i requires 0 <= i < |key| + 28 => KeyWord(KeyOf(key), i))
  }

  /** The cipher of FIPS 197 under a key of octets, and its inverse. */
  function Aes(key: seq<octet>, b: Block): Block
    requires KeySize(|key|)
  {
    EncryptBlock(Expanded(key), |key| / 4 + 6, b)
  }

  function AesInverse(key: seq<octet>, b: Block): Block
    requires KeySize(|key|)
  {
    DecryptBlock(Expanded(key), |key| / 4 + 6, b)
  }

  /** `cf_aes_init`, which aborts on any other key size. */
  method AesInit(key: seq<octet>) returns (ctx: AesContext?)
    ensures ctx == null <==> !KeySize(|key|)
    ensures ctx != null ==>
      fresh(ctx) && ctx.Valid() && ctx.rounds == |key| / 4 + 6 && ctx.ks[..] == Expanded(key)
  {
    if |key| == 16 || |key| == 24 || |key| == 32 {
      ctx := new AesContext(KeyOf(key));
      assert ctx.ks[..] == Expanded(key);
    } else {
      ctx := null;
    }
  }

  /** A context set up for a key of octets, used both ways: the first block is that of FIPS 197,
      and the second is the one given. */
  method EncryptAndDecrypt(key: seq<octet>, b: Block) returns (c: Block, d: Block)
    requires KeySize(|key|)
    ensures c == Aes(key, b) && d == AesInverse(key, c) && d == b
  {
    var ctx := AesInit(key);
    hide EncryptBlock, DecryptBlock, Expanded;
    c := ctx.Encrypt(b);
    d := ctx.Decrypt(c);
    BlockRoundTrip(Expanded(key), |key| / 4 + 6, b);
  }
}
