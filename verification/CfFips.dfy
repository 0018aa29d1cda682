/** The cipher as FIPS 197 writes it, octet by octet on a state of 16, and its agreement with the
    words of cifra_eax_aes.c. */
module CfFips {
  import opened CfAes
  import opened CfAesBlocks
  import opened CfBits
  import opened CfCmac
  import opened CfGf128
  import opened Octets

  // ---------------------------------------------------------------- the standard

  /** The octet in row `i` and column `c` of a state (section 3.4). */
  function At(s: Block, i: nat, c: nat): octet
    requires i < 4 && c < 4
  {
    s[4 * c + i]
  }

  /** SubBytes, with the affine image of the inverse in GF(2^8) (section 5.1.1). */
  function SubBytes(s: Block): Block {
    seq(16, j requires 0 <= j < 16 => SBox(s[j]))
  }

  /** ShiftRows (section 5.1.2). */
  function ShiftedRows(s: Block): Block {
    seq(16, j requires 0 <= j < 16 => At(s, j % 4, (j / 4 + j % 4) % 4))
  }

  /** MixColumns: each column is multiplied by the matrix with the rows of 2, 3, 1 and 1 (section 5.1.3). */
  function MixedColumns(s: Block): Block {
    seq(16, j requires 0 <= j < 16 => Mixed(s, j % 4, j / 4))
  }

  function Mixed(s: Block, i: nat, c: nat): octet
    requires i < 4 && c < 4
  {
    Column(At(s, i, c), At(s, (i + 1) % 4, c), At(s, (i + 2) % 4, c), At(s, (i + 3) % 4, c))
  }

  function Column(a: octet, b: octet, c: octet, d: octet): octet {
    Times(a, 2) ^ Times(b, 3) ^ c ^ d
  }

  /** The round constants, powers of x in GF(2^8). */
  function Rcon(n: nat): octet {
    if n <= 1 then 1 else Times(Rcon(n - 1), 2)
  }

  /** Word `i` of the expanded key (section 5.2), as four octets. */
  function KeyOctets(key: seq<octet>, i: nat): (w: seq<octet>)
    requires KeySize(|key|)
    ensures |w| == 4
  {
    var nk := |key| / 4;
    if i < nk then key[4 * i..4 * i + 4]
    else
      var t, back := KeyOctets(key, i - 1), KeyOctets(key, i - nk);
      if Mod(i, nk) == 0 then Summed(back, Xor8(SBox(t[1]), Rcon(Div(i, nk))), SBox(t[2]), SBox(t[3]), SBox(t[0]))
      else if nk > 6 && Mod(i, nk) == 4 then Summed(back, SBox(t[0]), SBox(t[1]), SBox(t[2]), SBox(t[3]))
      else Summed(back, t[0], t[1], t[2], t[3])
  }

  function Summed(s: seq<octet>, a: octet, b: octet, c: octet, d: octet): (w: seq<octet>)
    requires |s| == 4
    ensures |w| == 4
  {
    [s[0] ^ a, s[1] ^ b, s[2] ^ c, s[3] ^ d]
  }

  /** The key of round `r`: four words from word `4 * r` on. */
  function KeyBlock(key: seq<octet>, r: nat): Block
    requires KeySize(|key|)
  {
    KeyOctets(key, 4 * r) + KeyOctets(key, 4 * r + 1) + KeyOctets(key, 4 * r + 2) + KeyOctets(key, 4 * r + 3)
  }

  /** AddRoundKey of round `r` (section 5.1.4). */
  function KeyAdded(key: seq<octet>, r: nat, s: Block): Block
    requires KeySize(|key|)
  {
    XorBlock(s, KeyBlock(key, r))
  }

  /** The state after `r` rounds (section 5.1). */
  function Round(key: seq<octet>, b: Block, r: nat): Block
    requires KeySize(|key|)
  {
    if r == 0 then KeyAdded(key, 0, b)
    else KeyAdded(key, r, MixedColumns(ShiftedRows(SubBytes(Round(key, b, r - 1)))))
  }

  /** The cipher: 10, 12 or 14 rounds, the last without MixColumns. */
  function Cipher(key: seq<octet>, b: Block): Block
    requires KeySize(|key|)
  {
    var rounds := if |key| == 16 then 10 else if |key| == 24 then 12 else 14;
    KeyAdded(key, rounds, ShiftedRows(SubBytes(Round(key, b, rounds - 1))))
  }

  // ---------------------------------------------------------------- octets of words

  lemma AtCell(i: nat, c: nat)
    requires i < 4 && c < 4
    ensures (4 * c + i) % 4 == i && (4 * c + i) / 4 == c && 4 * c + i < 16
  {
  }

  lemma AtSub(s: Block, i: nat, c: nat)
    requires i < 4 && c < 4
    ensures At(SubBytes(s), i, c) == SBox(At(s, i, c))
  {
    hide SBox;
  }

  lemma AtShifted(s: Block, i: nat, c: nat)
    requires i < 4 && c < 4
    ensures At(ShiftedRows(s), i, c) == At(s, i, (c + i) % 4)
  {
    AtCell(i, c);
    AtIs(ShiftedRows(s), i, c);
    hide At;
  }

  lemma AtMixed(s: Block, i: nat, c: nat)
    requires i < 4 && c < 4
    ensures At(MixedColumns(s), i, c) == Mixed(s, i, c)
  {
    AtCell(i, c);
    hide Mixed;
  }

  lemma AtKey(key: seq<octet>, r: nat, i: nat, c: nat)
    requires KeySize(|key|) && i < 4 && c < 4
    ensures At(KeyBlock(key, r), i, c) == KeyOctets(key, 4 * r + c)[i]
  {
    hide KeyOctets, KeySize;
  }

  lemma AtXor(s: Block, t: Block, i: nat, c: nat)
    requires i < 4 && c < 4
    ensures At(XorBlock(s, t), i, c) == At(s, i, c) ^ At(t, i, c)
  {
  }

  lemma AtAdded(key: seq<octet>, r: nat, s: Block, i: nat, c: nat)
    requires KeySize(|key|) && i < 4 && c < 4
    ensures At(KeyAdded(key, r, s), i, c) == At(s, i, c) ^ KeyOctets(key, 4 * r + c)[i]
  {
    AtKey(key, r, i, c);
    AtXor(s, KeyBlock(key, r), i, c);
    hide At, XorBlock, KeyBlock, KeyOctets, KeySize;
  }

  lemma SameState(s: Block, t: Block)
    requires forall i, c :: 0 <= i < 4 && 0 <= c < 4 ==> At(s, i, c) == At(t, i, c)
    ensures s == t
  {
    forall j | 0 <= j < 16 ensures s[j] == t[j] {
      assert At(s, j % 4, j / 4) == At(t, j % 4, j / 4);
    }
  }

  /** The words hold the octets column by column. */
  lemma CellAt(v: Words, i: nat, c: nat)
    requires i < 4 && c < 4
    ensures At(ToBytes(v), i, c) == Cell(v, i, c)
  {
    hide *;
    FromToBytes(v);
    StateOctets(ToBytes(v), i, c);
    AtIs(ToBytes(v), i, c);
  }

  lemma AtIs(s: Block, i: nat, c: nat)
    requires i < 4 && c < 4
    ensures At(s, i, c) == s[4 * c + i]
  {
  }

  lemma TimesTwoThree(a: octet)
    ensures Times(a, 2) == XTime(a) && Times(a, 3) == a ^ XTime(a)
  {
  }

  lemma ColumnIs(a: octet, b: octet, c: octet, d: octet)
    ensures Column(a, b, c, d) == ColumnByte(a, b, c, d)
  {
    TimesTwoThree(a);
    TimesTwoThree(b);
    hide Times, XTime;
  }

  lemma {:induction false} RconIs(n: nat)
    requires 0 < n < 11
    ensures RCON[n] == Rcon(n)
  {
    if n > 1 {
      RconIs(n - 1);
      RoundConstantIs(n);
      TimesTwoThree(RCON[n - 1]);
      hide Times, XTime;
    }
  }

  // ---------------------------------------------------------------- key expansion

  lemma {:induction false} KeyOfAt(key: seq<octet>, i: nat)
    requires |key| % 4 == 0 && 4 * i + 4 <= |key|
    ensures KeyOf(key)[i] == Read32(key[4 * i..4 * i + 4])
    decreases |key|
  {
    if i == 0 {
      assert key[..4] == key[0..4];
    } else {
      KeyOfAt(key[4..], i - 1);
      assert key[4..][4 * (i - 1)..4 * (i - 1) + 4] == key[4 * i..4 * i + 4];
    }
    hide Read32;
  }

  /** A word and its four octets. */
  predicate Holds(w: bv32, s: seq<octet>) {
    |s| == 4 && w == Word4(s[0], s[1], s[2], s[3])
  }

  lemma HoldsOctets(w: bv32, s: seq<octet>)
    requires Holds(w, s)
    ensures Byte0(w) == s[0] && Byte1(w) == s[1] && Byte2(w) == s[2] && Byte3(w) == s[3]
    ensures forall i :: 0 <= i < 4 ==> OctetOf(w, i) == s[i]
  {
    Word4Bytes(s[0], s[1], s[2], s[3]);
    hide Byte0, Byte1, Byte2, Byte3, Word4;
  }

  lemma ReadHolds(s: seq<octet>)
    requires |s| == 4
    ensures Holds(Read32(s), s)
  {
  }

  lemma AddHolds(w: bv32, s: seq<octet>, a: octet, b: octet, c: octet, d: octet)
    requires Holds(w, s)
    ensures |s| == 4 && Holds(Xor32(w, Word4(a, b, c, d)), Summed(s, a, b, c, d))
  {
    Word4Xor(s[0], s[1], s[2], s[3], a, b, c, d);
    hide Word4, Xor32;
  }

  lemma AddConstant(a: octet, b: octet, c: octet, d: octet, p: octet)
    ensures Xor32(Word4(a, b, c, d), Word4(p, 0, 0, 0)) == Word4(Xor8(a, p), b, c, d)
  {
    Word4Xor(a, b, c, d, p, 0, 0, 0);
    hide Word4, Xor32;
  }

  lemma KeyStart(key: seq<octet>, i: nat)
    requires KeySize(|key|) && i < |key| / 4
    ensures Holds(KeyWord(KeyOf(key), i), KeyOctets(key, i))
  {
    KeyOfAt(key, i);
    ReadHolds(key[4 * i..4 * i + 4]);
    hide Read32, Word4, KeyOf;
  }

  /** The words of the schedule are those of the standard. */
  lemma {:induction false} KeyWordHolds(key: seq<octet>, i: nat)
    requires KeySize(|key|) && i < |key| + 28
    ensures Holds(KeyWord(KeyOf(key), i), KeyOctets(key, i))
    decreases i
  {
    if i < |key| / 4 {
      KeyStart(key, i);
    } else {
      KeyWordHolds(key, i - 1);
      KeyWordHolds(key, i - |key| / 4);
      KeyNext(key, i);
    }
    hide *;
  }

  lemma KeyNext(key: seq<octet>, i: nat)
    requires KeySize(|key|) && |key| / 4 <= i < |key| + 28
    requires Holds(KeyWord(KeyOf(key), i - 1), KeyOctets(key, i - 1))
    requires Holds(KeyWord(KeyOf(key), i - |key| / 4), KeyOctets(key, i - |key| / 4))
    ensures Holds(KeyWord(KeyOf(key), i), KeyOctets(key, i))
  {
    hide *;
    SizesAgree(key, i);
    var nk, ws := |key| / 4, KeyOf(key);
    var t, back := KeyOctets(key, i - 1), KeyOctets(key, i - nk);
    var tw, bw := KeyWord(ws, i - 1), KeyWord(ws, i - nk);
    WordNext(ws, i);
    OctetsNext(key, i);
    KeyCases(KeyWord(ws, i), KeyOctets(key, i), bw, back, tw, t, nk, i);
  }

  lemma KeyCases(word: bv32, octets: seq<octet>, bw: bv32, back: seq<octet>, tw: bv32, t: seq<octet>, nk: nat, i: nat)
    requires KeyWords(nk) && 0 < Div(i, nk) < 11
    requires |back| == 4 && |t| == 4 && Holds(bw, back) && Holds(tw, t)
    requires var a, b, c, d := Byte0(tw), Byte1(tw), Byte2(tw), Byte3(tw);
      word ==
        if Mod(i, nk) == 0 then
          Xor32(bw, Xor32(Word4(SBox(b), SBox(c), SBox(d), SBox(a)), Word4(RCON[Div(i, nk)], 0, 0, 0)))
        else if nk == 8 && Mod(i, nk) == 4 then Xor32(bw, Word4(SBox(a), SBox(b), SBox(c), SBox(d)))
        else Xor32(bw, tw)
    requires octets ==
        if Mod(i, nk) == 0 then Summed(back, Xor8(SBox(t[1]), Rcon(Div(i, nk))), SBox(t[2]), SBox(t[3]), SBox(t[0]))
        else if nk == 8 && Mod(i, nk) == 4 then Summed(back, SBox(t[0]), SBox(t[1]), SBox(t[2]), SBox(t[3]))
        else Summed(back, t[0], t[1], t[2], t[3])
    ensures Holds(word, octets)
  {
    hide *;
    if Mod(i, nk) == 0 {
      RconIs(Div(i, nk));
      Turned(bw, back, tw, t, Rcon(Div(i, nk)));
    } else if nk == 8 && Mod(i, nk) == 4 {
      Substituted(bw, back, tw, t);
    } else {
      Added(bw, back, tw, t);
    }
  }

  /** The schedule with its quotients and remainders for each key size. */
  lemma WordNext(key: seq<bv32>, i: nat)
    requires KeyWords(|key|) && |key| <= i < 4 * (|key| + 7)
    ensures 0 < Div(i, |key|) < 11
    ensures
      var nk, w, t := |key|, KeyWord(key, i - |key|), KeyWord(key, i - 1);
      var a, b, c, d := Byte0(t), Byte1(t), Byte2(t), Byte3(t);
      KeyWord(key, i) ==
        if Mod(i, nk) == 0 then
          Xor32(w, Xor32(Word4(SBox(b), SBox(c), SBox(d), SBox(a)), Word4(RCON[Div(i, nk)], 0, 0, 0)))
        else if nk == 8 && Mod(i, nk) == 4 then Xor32(w, Word4(SBox(a), SBox(b), SBox(c), SBox(d)))
        else Xor32(w, t)
  {
    hide *;
    KeyWordIs(key, i);
    DivMod(i, |key|);
  }

  lemma SizesAgree(key: seq<octet>, i: nat)
    requires KeySize(|key|) && |key| / 4 <= i < |key| + 28
    ensures KeyWords(|key| / 4) && |key| + 28 == 4 * (|key| / 4 + 7) == Size(|key| / 4) && 4 <= |key| / 4 && |key| % 4 == 0
  {
  }

  lemma Turned(bw: bv32, back: seq<octet>, tw: bv32, t: seq<octet>, p: octet)
    requires Holds(bw, back) && Holds(tw, t)
    ensures |t| == |back| == 4
    ensures Holds(Xor32(bw, Xor32(Word4(SBox(Byte1(tw)), SBox(Byte2(tw)), SBox(Byte3(tw)), SBox(Byte0(tw))), Word4(p, 0, 0, 0))),
                  Summed(back, Xor8(SBox(t[1]), p), SBox(t[2]), SBox(t[3]), SBox(t[0])))
  {
    assert |t| == 4 && |back| == 4;
    hide *;
    HoldsOctets(tw, t);
    AddConstant(SBox(t[1]), SBox(t[2]), SBox(t[3]), SBox(t[0]), p);
    AddHolds(bw, back, Xor8(SBox(t[1]), p), SBox(t[2]), SBox(t[3]), SBox(t[0]));
  }

  lemma Substituted(bw: bv32, back: seq<octet>, tw: bv32, t: seq<octet>)
    requires Holds(bw, back) && Holds(tw, t)
    ensures |t| == |back| == 4
    ensures Holds(Xor32(bw, Word4(SBox(Byte0(tw)), SBox(Byte1(tw)), SBox(Byte2(tw)), SBox(Byte3(tw)))),
                  Summed(back, SBox(t[0]), SBox(t[1]), SBox(t[2]), SBox(t[3])))
  {
    assert |t| == 4 && |back| == 4;
    hide *;
    HoldsOctets(tw, t);
    AddHolds(bw, back, SBox(t[0]), SBox(t[1]), SBox(t[2]), SBox(t[3]));
  }

  lemma Added(bw: bv32, back: seq<octet>, tw: bv32, t: seq<octet>)
    requires Holds(bw, back) && Holds(tw, t)
    ensures |t| == |back| == 4 && Holds(Xor32(bw, tw), Summed(back, t[0], t[1], t[2], t[3]))
  {
    assert |t| == 4 && |back| == 4 && tw == Word4(t[0], t[1], t[2], t[3]);
    hide *;
    AddHolds(bw, back, t[0], t[1], t[2], t[3]);
  }

  lemma OctetsNext(key: seq<octet>, i: nat)
    requires KeySize(|key|) && |key| / 4 <= i
    ensures KeyWords(|key| / 4)
    ensures var nk := |key| / 4;
      var t, back := KeyOctets(key, i - 1), KeyOctets(key, i - nk);
      KeyOctets(key, i) ==
        if Mod(i, nk) == 0 then Summed(back, Xor8(SBox(t[1]), Rcon(Div(i, nk))), SBox(t[2]), SBox(t[3]), SBox(t[0]))
        else if nk == 8 && Mod(i, nk) == 4 then Summed(back, SBox(t[0]), SBox(t[1]), SBox(t[2]), SBox(t[3]))
        else Summed(back, t[0], t[1], t[2], t[3])
  {
    hide SBox, Rcon, Summed, Div, Mod;
  }

  lemma KeyCell(key: seq<octet>, r: nat, i: nat, c: nat)
    requires KeySize(|key|) && 4 * r + 3 < |key| + 28 && i < 4 && c < 4
    ensures Cell(RoundKey(Expanded(key), r), i, c) == KeyOctets(key, 4 * r + c)[i]
  {
    var ks := Expanded(key);
    assert ks[4 * r + c] == KeyWord(KeyOf(key), 4 * r + c);
    hide *;
    CellIs(RoundKey(ks, r), i, c);
    KeyCells(ks, r, c);
    KeyWordHolds(key, 4 * r + c);
    HoldsOctets(KeyWord(KeyOf(key), 4 * r + c), KeyOctets(key, 4 * r + c));
  }

  // ---------------------------------------------------------------- rounds

  lemma FedAt(v: Words, i: nat, c: nat)
    requires i < 4 && c < 4
    ensures Fed(v, i, c) == At(ShiftedRows(SubBytes(ToBytes(v))), i, c)
  {
    hide SBox, At, ToBytes, Cell, ShiftedRows, SubBytes;
    AtShifted(SubBytes(ToBytes(v)), i, c);
    AtSub(ToBytes(v), i, (c + i) % 4);
    CellAt(v, i, (c + i) % 4);
  }

  /** The column step on octets. */
  lemma MixedIs(s: Block, i: nat, c: nat)
    requires i < 4 && c < 4
    ensures Mixed(s, i, c) == ColumnByte(At(s, i, c), At(s, (i + 1) % 4, c), At(s, (i + 2) % 4, c), At(s, (i + 3) % 4, c))
  {
    ColumnIs(At(s, i, c), At(s, (i + 1) % 4, c), At(s, (i + 2) % 4, c), At(s, (i + 3) % 4, c));
    hide ColumnByte, Column, At;
  }

  lemma RoundStart(key: seq<octet>, b: Block)
    requires KeySize(|key|)
    ensures Round(key, b, 0) == KeyAdded(key, 0, b)
  {
    hide KeyAdded, KeySize;
  }

  lemma RoundNext(key: seq<octet>, b: Block, r: nat)
    requires KeySize(|key|) && r > 0
    ensures Round(key, b, r) == KeyAdded(key, r, MixedColumns(ShiftedRows(SubBytes(Round(key, b, r - 1)))))
  {
    hide KeyAdded, KeySize, MixedColumns, ShiftedRows, SubBytes;
  }

  lemma XorIs(a: octet, b: octet)
    ensures Xor8(a, b) == a ^ b
  {
  }

  /** The states of the word rounds are those of the standard. */
  lemma {:induction false} RoundsAgree(key: seq<octet>, b: Block, r: nat)
    requires KeySize(|key|) && 4 * r + 3 < |key| + 28
    ensures ToBytes(Rounds(Expanded(key), FromBytes(b), r)) == Round(key, b, r)
    decreases r
  {
    hide *;
    var s, t := ToBytes(Rounds(Expanded(key), FromBytes(b), r)), Round(key, b, r);
    if r > 0 {
      RoundsAgree(key, b, r - 1);
    }
    forall i, c | 0 <= i < 4 && 0 <= c < 4 ensures At(s, i, c) == At(t, i, c) {
      if r == 0 {
        FirstAgrees(key, b, i, c);
      } else {
        NextAgrees(key, b, r, i, c);
      }
    }
    SameState(s, t);
  }

  lemma FirstAgrees(key: seq<octet>, b: Block, i: nat, c: nat)
    requires KeySize(|key|) && i < 4 && c < 4
    ensures At(ToBytes(Rounds(Expanded(key), FromBytes(b), 0)), i, c) == At(Round(key, b, 0), i, c)
  {
    hide *;
    var ks := Expanded(key);
    RoundStart(key, b);
    CellAt(Rounds(ks, FromBytes(b), 0), i, c);
    FirstCell(ks, FromBytes(b), i, c);
    StateOctets(b, i, c);
    AtIs(b, i, c);
    KeyCell(key, 0, i, c);
    AtAdded(key, 0, b, i, c);
    XorIs(At(b, i, c), KeyOctets(key, 4 * 0 + c)[i]);
  }

  lemma FirstCell(ks: seq<bv32>, s: Words, i: nat, c: nat)
    requires 3 < |ks| && i < 4 && c < 4
    ensures Cell(Rounds(ks, s, 0), i, c) == Xor8(Cell(s, i, c), Cell(RoundKey(ks, 0), i, c))
  {
    hide *;
    RoundCells(ks, s, 0, i, c);
  }

  lemma NextAgrees(key: seq<octet>, b: Block, r: nat, i: nat, c: nat)
    requires KeySize(|key|) && 0 < r && 4 * r + 3 < |key| + 28 && i < 4 && c < 4
    requires ToBytes(Rounds(Expanded(key), FromBytes(b), r - 1)) == Round(key, b, r - 1)
    ensures At(ToBytes(Rounds(Expanded(key), FromBytes(b), r)), i, c) == At(Round(key, b, r), i, c)
  {
    hide *;
    var ks := Expanded(key);
    var u := ShiftedRows(SubBytes(Round(key, b, r - 1)));
    RoundNext(key, b, r);
    var v := Rounds(ks, FromBytes(b), r - 1);
    CellAt(Rounds(ks, FromBytes(b), r), i, c);
    RoundCells(ks, FromBytes(b), r, i, c);
    FedAt(v, i, c);
    FedAt(v, (i + 1) % 4, c);
    FedAt(v, (i + 2) % 4, c);
    FedAt(v, (i + 3) % 4, c);
    AtMixed(u, i, c);
    MixedIs(u, i, c);
    KeyCell(key, r, i, c);
    AtAdded(key, r, MixedColumns(u), i, c);
    XorIs(At(MixedColumns(u), i, c), KeyOctets(key, 4 * r + c)[i]);
  }

  /** `cf_aes_encrypt` on words is the cipher of FIPS 197 on octets, for every key and block. */
  lemma AesIsCipher(key: seq<octet>, b: Block)
    requires KeySize(|key|)
    ensures Aes(key, b) == Cipher(key, b)
  {
    var rounds := |key| / 4 + 6;
    assert |key| + 28 == 4 * (rounds + 1);
    hide *;
    Unfolded(key, b, rounds);
    forall i, c | 0 <= i < 4 && 0 <= c < 4 ensures At(Aes(key, b), i, c) == At(Cipher(key, b), i, c) {
      LastAgrees(key, b, rounds, i, c);
    }
    SameState(Aes(key, b), Cipher(key, b));
  }

  lemma Unfolded(key: seq<octet>, b: Block, rounds: nat)
    requires KeySize(|key|) && rounds == |key| / 4 + 6 && |key| + 28 == 4 * (rounds + 1)
    ensures
      && Cipher(key, b) == KeyAdded(key, rounds, ShiftedRows(SubBytes(Round(key, b, rounds - 1))))
      && Aes(key, b) == ToBytes(Encrypt(Expanded(key), rounds, FromBytes(b)))
  {
    hide KeyAdded, ShiftedRows, SubBytes, Round, ToBytes, FromBytes, Encrypt, Expanded;
  }

  lemma LastAgrees(key: seq<octet>, b: Block, rounds: nat, i: nat, c: nat)
    requires KeySize(|key|) && rounds > 0 && |key| + 28 == 4 * (rounds + 1) && i < 4 && c < 4
    ensures At(ToBytes(Encrypt(Expanded(key), rounds, FromBytes(b))), i, c)
         == At(KeyAdded(key, rounds, ShiftedRows(SubBytes(Round(key, b, rounds - 1)))), i, c)
  {
    hide *;
    var ks := Expanded(key);
    var u := ShiftedRows(SubBytes(Round(key, b, rounds - 1)));
    CellAt(Encrypt(ks, rounds, FromBytes(b)), i, c);
    LastRoundCells(ks, rounds, FromBytes(b), i, c);
    RoundsAgree(key, b, rounds - 1);
    FedAt(Rounds(ks, FromBytes(b), rounds - 1), i, c);
    KeyCell(key, rounds, i, c);
    AtAdded(key, rounds, u, i, c);
    XorIs(At(u, i, c), KeyOctets(key, 4 * rounds + c)[i]);
  }

  /** `cf_aes_decrypt` undoes the cipher of the standard. */
  lemma AesInverseIs(key: seq<octet>, b: Block)
    requires KeySize(|key|)
    ensures AesInverse(key, Cipher(key, b)) == b
  {
    hide Cipher, EncryptBlock, DecryptBlock, Expanded;
    AesIsCipher(key, b);
    BlockRoundTrip(Expanded(key), |key| / 4 + 6, b);
  }
}
