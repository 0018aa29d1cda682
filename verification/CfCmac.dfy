/** cifra_cmac.c: CMAC over a message in one piece or in chunks, against section 6 of NIST SP
    800-38B. */
module CfCmac {
  import opened CfBits
  import opened CfBlockwise
  import opened CfGf128
  import opened Octets

  type Block = s: seq<octet> | |s| == 16 witness Zeros(16)

  /** A block cipher under a fixed key. */
  type Cipher = Block -> Block

  // ---------------------------------------------------------------- NIST SP 800-38B

  /** A cipher and the subkeys of section 6.1, `B` and `P` in the source. */
  datatype Keys = Keys(e: Cipher, k1: Block, k2: Block)

  function Subkeys(e: Cipher): Keys {
    var l := FromBytes(e(Zeros(16)));
    Keys(e, ToBytes(Double(l)), ToBytes(Double(Double(l))))
  }

  /** The subkeys bit by bit: the first is the cipher of the zero block doubled, the second is the
      first doubled. */
  lemma SubkeyBits(e: Cipher, i: bv8)
    requires i < 128
    ensures var l, k := FromBytes(e(Zeros(16))), Subkeys(e);
            var k1, k2 := FromBytes(k.k1), FromBytes(k.k2);
      && k1.Bit(i) == ((i < 127 && l.Bit(i + 1)) != (l.Bit(0) && (i == 120 || i >= 125)))
      && k2.Bit(i) == ((i < 127 && k1.Bit(i + 1)) != (k1.Bit(0) && (i == 120 || i >= 125)))
  {
    var l := FromBytes(e(Zeros(16)));
    hide Double, FromBytes, ToBytes, Words.Bit;
    FromToBytes(Double(l));
    FromToBytes(Double(Double(l)));
    DoubleBits(l, i);
    DoubleBits(Double(l), i);
  }

  function XorBlock(a: Block, b: Block): Block {
    Xor(a, b)
  }

  /** The last block of a message, complete or padded, under its subkey. */
  function LastBlock(k: Keys, m: seq<octet>): Block
    requires |m| <= 16
  {
    if |m| == 16 then XorBlock(m, k.k1) else XorBlock(m + [0x80] + Zeros(15 - |m|), k.k2)
  }

  /** Steps 5 to 7 of section 6.2 from chaining value `c` on. */
  function Chain(k: Keys, c: Block, m: seq<octet>): Block
    decreases |m|
  {
    if |m| > 16 then Chain(k, k.e(XorBlock(m[..16], c)), m[16..]) else k.e(XorBlock(LastBlock(k, m), c))
  }

  /** The MAC of `m`. */
  function Cmac(k: Keys, m: seq<octet>): Block {
    Chain(k, Zeros(16), m)
  }

  // ---------------------------------------------------------------- the stream as a value

  /** The CBC block of a stream, the octets processed, and how often a last block was processed:
      the flag `finalised` is set when that is more than never. */
  datatype Mac = Mac(block: Block, processed: nat, finals: nat)

  const START: Mac := Mac(Zeros(16), 0, 0)

  function AsBlock(s: seq<octet>): Block {
    if |s| == 16 then s else Zeros(16)
  }

  /** `cmac_process`. */
  function Processed(k: Keys, m: Mac, b: seq<octet>): Mac {
    Mac(k.e(XorBlock(AsBlock(b), m.block)), m.processed + 16, m.finals)
  }

  /** `cmac_process_final`. */
  function ProcessedLast(k: Keys, subkey: Block, m: Mac, b: seq<octet>): Mac {
    Mac(k.e(XorBlock(XorBlock(AsBlock(b), subkey), m.block)), m.processed + 16, m.finals + 1)
  }

  function Process(k: Keys): (Mac, seq<octet>) -> Mac {
    (m: Mac, b: seq<octet>) => Processed(k, m, b)
  }

  function ProcessFinal(k: Keys, subkey: Block): (Mac, seq<octet>) -> Mac {
    (m: Mac, b: seq<octet>) => ProcessedLast(k, subkey, m, b)
  }

  /** A stream after a chunk that is not the last. */
  function Updated(k: Keys, s: Held<Mac>, data: seq<octet>): (r: Held<Mac>)
    ensures |r.pending| < 16
  {
    Absorb(16, Process(k), Process(k), s.ctx, s.pending + data)
  }

  /** A stream after several. */
  function UpdatedAll(k: Keys, s: Held<Mac>, chunks: seq<seq<octet>>): Held<Mac>
    decreases |chunks|
  {
    if chunks == [] then s else UpdatedAll(k, Updated(k, s, chunks[0]), chunks[1..])
  }

  function Flatten(chunks: seq<seq<octet>>): seq<octet>
    decreases |chunks|
  {
    if chunks == [] then [] else chunks[0] + Flatten(chunks[1..])
  }

  // ---------------------------------------------------------------- the stream computes CMAC

  lemma ProcessExact(k: Keys, m: Mac, b: seq<octet>, subkey: Block)
    requires |b| == 16
    ensures Process(k)(m, b) == Mac(k.e(XorBlock(b, m.block)), m.processed + 16, m.finals)
    ensures ProcessFinal(k, subkey)(m, b) == Mac(k.e(XorBlock(XorBlock(b, subkey), m.block)), m.processed + 16, m.finals + 1)
  {
  }

  lemma {:induction false} ProcessKeepsOpen(k: Keys, m: Mac, data: seq<octet>)
    ensures Absorb(16, Process(k), Process(k), m, data).ctx.finals == m.finals
    decreases |data|
  {
    if |data| > 16 {
      ProcessKeepsOpen(k, Process(k)(m, data[..16]), data[16..]);
    }
  }

  /** A message of whole blocks ends in the first subkey. */
  lemma {:induction false} WholeBlocksChain(k: Keys, m: Mac, data: seq<octet>)
    requires data != [] && |data| % 16 == 0
    ensures var h := Absorb(16, Process(k), ProcessFinal(k, k.k1), m, data);
            h.pending == [] && h.ctx.finals == m.finals + 1 && h.ctx.block == Chain(k, m.block, data)
    decreases |data|
  {
    if |data| > 16 {
      ProcessExact(k, m, data[..16], k.k1);
      WholeBlocksChain(k, Process(k)(m, data[..16]), data[16..]);
    } else {
      ProcessExact(k, m, data, k.k1);
    }
  }

  /** Any other message ends in its padded rest and the second subkey. */
  lemma {:induction false} RestChain(k: Keys, m: Mac, data: seq<octet>)
    requires data == [] || |data| % 16 != 0
    ensures var h := Absorb(16, Process(k), Process(k), m, data);
            |h.pending| == |data| % 16 && k.e(XorBlock(LastBlock(k, h.pending), h.ctx.block)) == Chain(k, m.block, data)
    decreases |data|
  {
    if |data| > 16 {
      ProcessExact(k, m, data[..16], k.k1);
      RestChain(k, Process(k)(m, data[..16]), data[16..]);
    }
  }

  /** Chunks before the last do not matter to the chain, if something follows them. */
  lemma {:induction false} ChainSplit(k: Keys, m: Mac, a: seq<octet>, b: seq<octet>)
    requires b != []
    ensures var h := Absorb(16, Process(k), Process(k), m, a);
            Chain(k, m.block, a + b) == Chain(k, h.ctx.block, h.pending + b)
    decreases |a|
  {
    hide *;
    if |a| < 16 {
      AbsorbHeld(16, Process(k), m, a);
    } else if |a| == 16 {
      AbsorbLast(16, Process(k), m, a);
      ProcessExact(k, m, a, Zeros(16));
      ChainBlock(k, m.block, a, b);
      assert [] + b == b;
    } else {
      var block, rest := a[..16], a[16..];
      AbsorbMore(16, Process(k), Process(k), m, a);
      ProcessExact(k, m, block, Zeros(16));
      ChainSplit(k, Process(k)(m, block), rest, b);
      ChainBlock(k, m.block, block, rest + b);
      assert block + (rest + b) == a + b;
    }
  }

  lemma ChainBlock(k: Keys, c: Block, block: seq<octet>, rest: seq<octet>)
    requires |block| == 16 && rest != []
    ensures Chain(k, c, block + rest) == Chain(k, k.e(XorBlock(block, c)), rest)
  {
    assert (block + rest)[..16] == block && (block + rest)[16..] == rest;
  }

  lemma {:induction false} ChunksChain(k: Keys, s: Held<Mac>, chunks: seq<seq<octet>>, last: seq<octet>)
    requires last != [] && |s.pending| < 16
    ensures var h := UpdatedAll(k, s, chunks);
            Chain(k, h.ctx.block, h.pending + last) == Chain(k, s.ctx.block, s.pending + (Flatten(chunks) + last))
    decreases |chunks|
  {
    hide Absorb, Chain;
    if chunks == [] {
      assert [] + last == last;
    } else {
      var rest := Flatten(chunks[1..]) + last;
      ChunksChain(k, Updated(k, s, chunks[0]), chunks[1..], last);
      ChainSplit(k, s.ctx, s.pending + chunks[0], rest);
      assert (s.pending + chunks[0]) + rest == s.pending + (Flatten(chunks) + last);
    }
  }

  /** Empty chunks change nothing. */
  lemma {:induction false} EmptyChunks(k: Keys, s: Held<Mac>, chunks: seq<seq<octet>>)
    requires Flatten(chunks) == [] && |s.pending| < 16
    ensures UpdatedAll(k, s, chunks) == s
    decreases |chunks|
  {
    if chunks != [] {
      assert chunks[0] == [] && Flatten(chunks[1..]) == [];
      assert s.pending + [] == s.pending;
      EmptyChunks(k, s, chunks[1..]);
    }
  }

  lemma {:induction false} ChunksKeepOpen(k: Keys, s: Held<Mac>, chunks: seq<seq<octet>>)
    ensures UpdatedAll(k, s, chunks).ctx.finals == s.ctx.finals
    ensures |s.pending| < 16 ==> |UpdatedAll(k, s, chunks).pending| < 16
    decreases |chunks|
  {
    hide Absorb;
    if chunks != [] {
      ProcessKeepsOpen(k, s.ctx, s.pending + chunks[0]);
      ChunksKeepOpen(k, Updated(k, s, chunks[0]), chunks[1..]);
    }
  }

  // ---------------------------------------------------------------- the last chunk

  lemma PadBlock(k: Keys, m: Mac, pending: seq<octet>)
    requires |pending| < 16
    ensures var p := ProcessFinal(k, k.k2);
      var h := Absorb(16, p, p, m, pending + Padding(0x80, 0, 0, 16 - |pending|));
      h.pending == [] && h.ctx.finals == m.finals + 1 && h.ctx.block == k.e(XorBlock(LastBlock(k, pending), m.block))
  {
    assert (0x80 as octet) ^ 0 == 0x80;
    assert pending + Padding(0x80, 0, 0, 16 - |pending|) == pending + [0x80] + Zeros(15 - |pending|);
  }

  /** Whether the last chunk ends the message on a whole block, which is not padded. */
  predicate EndsWhole(s: Held<Mac>, data: seq<octet>) {
    (|data| + |s.pending|) % 16 == 0 && !(data == [] && s.pending == [] && s.ctx.processed == 0)
  }

  /** A stream after the last chunk. */
  function Finished(k: Keys, s: Held<Mac>, data: seq<octet>): Held<Mac>
    requires |s.pending| < 16
  {
    if EndsWhole(s, data) then Absorb(16, Process(k), ProcessFinal(k, k.k1), s.ctx, s.pending + data)
    else
      var h := Updated(k, s, data);
      var pad := ProcessFinal(k, k.k2);
      Absorb(16, pad, pad, h.ctx, h.pending + Padding(0x80, 0, 0, 16 - |h.pending|))
  }

  /** What the source asserts of a last chunk: it is not empty, unless the whole message is. */
  predicate MayEnd(s: Held<Mac>, data: seq<octet>) {
    data != [] || (s.pending == [] && s.ctx.processed == 0)
  }

  /** The last chunk ends the chain, and one last block is processed. */
  lemma FinishedChain(k: Keys, s: Held<Mac>, data: seq<octet>)
    requires |s.pending| < 16 && MayEnd(s, data)
    ensures var r := Finished(k, s, data);
      r.pending == [] && r.ctx.finals == s.ctx.finals + 1 && r.ctx.block == Chain(k, s.ctx.block, s.pending + data)
  {
    var m := s.pending + data;
    if EndsWhole(s, data) {
      WholeBlocksChain(k, s.ctx, m);
    } else {
      var h := Updated(k, s, data);
      RestChain(k, s.ctx, m);
      ProcessKeepsOpen(k, s.ctx, m);
      PadBlock(k, h.ctx, h.pending);
    }
    hide Absorb;
  }

  /** However a message is split into chunks, the last of them not empty unless the message is, no
      chunk but the last processes a last block, that one processes just one, and the result is the
      CMAC of the message. */
  lemma ChunksGiveCmac(k: Keys, chunks: seq<seq<octet>>, last: seq<octet>)
    requires last != [] || Flatten(chunks) == []
    ensures var h := UpdatedAll(k, Held(START, []), chunks);
      && h.ctx.finals == 0 && |h.pending| < 16 && MayEnd(h, last)
      && Finished(k, h, last).ctx.finals == 1
      && Finished(k, h, last).ctx.block == Cmac(k, Flatten(chunks) + last)
  {
    var h := UpdatedAll(k, Held(START, []), chunks);
    hide Absorb, Finished, Chain;
    ChunksKeepOpen(k, Held(START, []), chunks);
    if last != [] {
      ChunksChain(k, Held(START, []), chunks, last);
      assert [] + (Flatten(chunks) + last) == Flatten(chunks) + last;
    } else {
      EmptyChunks(k, Held(START, []), chunks);
      assert h.pending + last == Flatten(chunks) + last;
    }
    FinishedChain(k, h, last);
  }

  /** A stream that has counted and buffered nothing was given nothing. */
  lemma {:induction false} NothingProcessed(k: Keys, m: Mac, data: seq<octet>)
    ensures var h := Absorb(16, Process(k), Process(k), m, data);
            h.ctx.processed + |h.pending| == m.processed + |data|
    decreases |data|
  {
    if |data| > 16 {
      NothingProcessed(k, Process(k)(m, data[..16]), data[16..]);
    }
  }

  // ---------------------------------------------------------------- the stream in place

  /** `cf_cmac_init`. */
  method CmacInit(e: Cipher) returns (keys: Keys)
    ensures keys == Subkeys(e)
  {
    var l := e(Zeros(16));
    var gf := new bv32[4];
    ReadBytes(l, gf);
    DoubleWords(gf, gf);
    var b := ToBytes(Value(gf));
    DoubleWords(gf, gf);
    keys := Keys(e, b, ToBytes(Value(gf)));
  }

  class CmacStream {
    const keys: Keys
    const buffer: array<octet>
    var block: Block
    var used: nat
    var processed: nat
    var finals: nat

    ghost predicate Valid()
      reads this, buffer
    {
      buffer.Length == 16 && used < 16
    }

    ghost function State(): Held<Mac>
      reads this, buffer
      requires Valid()
    {
      Held(Mac(block, processed, finals), buffer[..used])
    }

    /** `cf_cmac_stream_init` after `cf_cmac_init`. */
    constructor (keys: Keys)
      ensures Valid() && fresh(buffer) && this.keys == keys && State() == Held(START, [])
    {
      this.keys := keys;
      buffer := new octet[16](_ => 0);
      block, used, processed, finals := Zeros(16), 0, 0, 0;
    }

    /** `cf_cmac_stream_reset`: nothing of an earlier message is left. */
    method Reset()
      requires Valid()
      modifies this, buffer
      ensures Valid() && State() == Held(START, [])
    {
      block := Zeros(16);
      forall i | 0 <= i < 16 {
        buffer[i] := 0;
      }
      used, processed, finals := 0, 0, 0;
    }

    /** `cf_cmac_stream_update` with `isfinal` clear. */
    method Update(data: seq<octet>)
      requires Valid()
      modifies this, buffer
      ensures Valid() && State() == Updated(keys, old(State()), data)
    {
      hide Absorb;
      var process := Process(keys);
      var mac;
      used, mac := AccumulateFinal(buffer, used, data, process, process, Mac(block, processed, finals));
      block, processed, finals := mac.block, mac.processed, mac.finals;
    }

    /** `cf_cmac_stream_update` with `isfinal` set: the whole blocks, the last of them under the
        first subkey, or the padding under the second. */
    method UpdateFinal(data: seq<octet>)
      requires Valid() && finals == 0 && MayEnd(State(), data)
      modifies this, buffer
      ensures Valid() && State() == Finished(keys, old(State()), data) && used == 0 && finals == 1
      ensures block == Chain(keys, old(block), old(buffer[..used]) + data)
    {
      ghost var s := State();
      FinishedChain(keys, s, data);
      ProcessKeepsOpen(keys, s.ctx, s.pending + data);
      hide Absorb, Chain;
      var wholeNumberOfBlocks := (|data| + used) % 16 == 0;
      var emptyMessage := data == [] && used == 0 && processed == 0;
      var mac := Mac(block, processed, finals);
      if wholeNumberOfBlocks && !emptyMessage {
        used, mac := AccumulateFinal(buffer, used, data, Process(keys), ProcessFinal(keys, keys.k1), mac);
      } else {
        used, mac := AccumulateFinal(buffer, used, data, Process(keys), Process(keys), mac);
        used, mac := AccumulatePad(buffer, used, 0x80, 0, 0, 16 - used, ProcessFinal(keys, keys.k2), mac);
      }
      block, processed, finals := mac.block, mac.processed, mac.finals;
    }

    /** `cf_cmac_stream_final`. */
    method Final() returns (out: Block)
      requires Valid() && finals > 0
      ensures out == block
    {
      out := block;
    }

    /** A message streamed in chunks after a reset: the output is its CMAC, and the stream is
        finalised by the last chunk alone. */
    method SignChunks(chunks: seq<seq<octet>>, last: seq<octet>) returns (out: Block)
      requires Valid() && (last != [] || Flatten(chunks) == [])
      modifies this, buffer
      ensures Valid() && out == Cmac(keys, Flatten(chunks) + last) && finals == 1
    {
      ChunksGiveCmac(keys, chunks, last);
      hide *;
      Reset();
      var i := 0;
      assert chunks[0..] == chunks;
      while i < |chunks|
        invariant 0 <= i <= |chunks| && Valid()
        invariant UpdatedAll(keys, State(), chunks[i..]) == UpdatedAll(keys, Held(START, []), chunks)
      {
        MoreChunks(keys, State(), chunks, i);
        Update(chunks[i]);
        i := i + 1;
      }
      NoChunks(keys, State());
      UpdateFinal(last);
      out := Final();
    }
  }

  lemma MoreChunks(k: Keys, s: Held<Mac>, chunks: seq<seq<octet>>, i: nat)
    requires i < |chunks|
    ensures UpdatedAll(k, s, chunks[i..]) == UpdatedAll(k, Updated(k, s, chunks[i]), chunks[i + 1..])
  {
    assert chunks[i..][1..] == chunks[i + 1..];
  }

  lemma NoChunks(k: Keys, s: Held<Mac>)
    ensures UpdatedAll(k, s, []) == s
  {
  }

  /** `cf_cmac_sign`. */
  method CmacSign(keys: Keys, data: seq<octet>) returns (out: Block)
    ensures out == Cmac(keys, data)
  {
    var stream := new CmacStream(keys);
    stream.Reset();
    assert stream.buffer[..stream.used] + data == data;
    stream.UpdateFinal(data);
    out := stream.Final();
  }
}
