/** What `SEGGER_RTT_WriteWithOverwriteNoLock` leaves in a ring, and exactly when that is the
    newest bytes. */
module RttOverwrite {
  import opened Bytes
  import opened RttRing

  /** The last `k` bytes, or all there are. */
  function Newest(all: seq<byte>, k: nat): seq<byte> {
    if |all| <= k then all else all[|all| - k..]
  }

  /** `off` after as many subtractions of `size` as it takes. */
  function Wrap(off: nat, size: nat): (r: nat)
    requires size > 0
    ensures r < size
  {
    if off < size then off else Wrap(off - size, size)
  }

  /** The copying rounds: one up to the end of the buffer, then rounds of one byte less than the
      buffer, each of which starts again at offset 0. */
  function Rounds(s: Ring, avail: nat, data: seq<byte>): (r: Ring)
    requires s.Valid() && 0 < avail && s.wr + avail <= |s.bytes| && (|s.bytes| > 1 || |data| <= avail)
    ensures r.Valid() && r.rd == s.rd && |r.bytes| == |s.bytes|
    decreases |data|
  {
    if avail > |data| then Put(s, data)
    else
      var t := Put(s, data[..avail]).(wr := 0);
      if |data| == avail then t else Rounds(t, |s.bytes| - 1, data[avail..])
  }

  /** The ring after the read offset has moved on to make room for `n` bytes. */
  function Cleared(s: Ring, n: nat): (r: Ring)
    requires s.Valid()
    ensures r.Valid() && r.wr == s.wr && r.bytes == s.bytes
  {
    if n > s.Free() then s.(rd := Wrap(s.rd + (n - s.Free()), |s.bytes|)) else s
  }

  /** The write: the read offset makes room, then the rounds. */
  function Overwrite(s: Ring, data: seq<byte>): (r: Ring)
    requires s.Valid() && !Endless(s, |data|)
    ensures r.Valid() && |r.bytes| == |s.bytes|
  {
    Rounds(Cleared(s, |data|), |s.bytes| - s.wr, data)
  }

  /** In a ring of one byte every round after the first copies nothing. */
  predicate Endless(s: Ring, n: nat) {
    |s.bytes| == 1 && n > 1
  }

  /** Whether a write of `n` bytes at offset `wr` takes at most the round up to the end of the
      buffer and a last one behind it. */
  predicate TwoRounds(wr: nat, n: nat, size: nat) {
    wr + n <= size || wr + n <= 2 * size - 2
  }

  /** Whether the ring holds the newest bytes after the write. */
  ghost predicate KeepsNewest(s: Ring, data: seq<byte>)
    requires s.Valid() && !Endless(s, |data|)
  {
    Overwrite(s, data).Content() == Newest(s.Content() + data, |s.bytes| - 1)
  }

  // ---------------------------------------------------------------- writes of two rounds

  lemma {:induction false} PutWr(s: Ring, data: seq<byte>)
    requires s.Valid()
    ensures Put(s, data).wr == Wrap(s.wr + |data|, |s.bytes|)
    decreases |data|
  {
    if data != [] {
      PutWr(PutByte(s, data[0]), data[1..]);
    }
  }

  lemma RoundsArePut(s: Ring, data: seq<byte>)
    requires s.Valid() && TwoRounds(s.wr, |data|, |s.bytes|)
    ensures !Endless(s, |data|) && Rounds(s, |s.bytes| - s.wr, data) == Put(s, data)
  {
    var avail := |s.bytes| - s.wr;
    if avail <= |data| {
      var first, rest := data[..avail], data[avail..];
      assert first + rest == data;
      hide Put;
      PutSplit(s, first, rest);
      PutStraight(s, first);
      assert Put(s, first).(wr := 0) == Put(s, first);
      assert rest == [] ==> Put(Put(s, first), rest) == Put(s, first) by {
        PutNothing(Put(s, first));
      }
    }
  }

  lemma PutNothing(s: Ring)
    requires s.Valid()
    ensures Put(s, []) == s
  {
  }

  /** Making room for what fits an empty ring drops the oldest bytes. */
  lemma ClearedDrops(s: Ring, n: nat)
    requires s.Valid() && n < |s.bytes|
    ensures var drop := if n > s.Free() then n - s.Free() else 0;
      drop <= |s.Content()| && Cleared(s, n) == Take(s, drop)
  {
    if n > s.Free() {
      var off := s.rd + (n - s.Free());
      assert Wrap(off, |s.bytes|) == Advance(s.rd, n - s.Free(), |s.bytes|) by {
        assert off >= |s.bytes| ==> Wrap(off - |s.bytes|, |s.bytes|) == off - |s.bytes|;
      }
    } else {
      assert s.(rd := s.rd) == s;
    }
  }

  lemma NewestDrops(content: seq<byte>, data: seq<byte>, k: nat)
    requires |data| <= k
    ensures var drop := if |content| + |data| > k then |content| + |data| - k else 0;
      drop <= |content| && Newest(content + data, k) == content[drop..] + data
  {
  }

  /** Data that fits an empty ring pushes out the oldest bytes. */
  lemma ShortKeepsNewest(s: Ring, data: seq<byte>)
    requires s.Valid() && TwoRounds(s.wr, |data|, |s.bytes|) && |data| < |s.bytes|
    ensures !Endless(s, |data|) && KeepsNewest(s, data)
  {
    var drop := if |data| > s.Free() then |data| - s.Free() else 0;
    NewestDrops(s.Content(), data, |s.bytes| - 1);
    hide *;
    ClearedDrops(s, |data|);
    ShortOverwrite(s, drop, data);
  }

  lemma ShortOverwrite(s: Ring, drop: nat, data: seq<byte>)
    requires s.Valid() && TwoRounds(s.wr, |data|, |s.bytes|) && |data| < |s.bytes|
    requires drop <= |s.Content()| && Cleared(s, |data|) == Take(s, drop) && |data| <= s.Free() + drop
    ensures Overwrite(s, data).Content() == s.Content()[drop..] + data
  {
    hide Put, Rounds, Cleared, Take, Ring.Content;
    TakeDrops(s, drop);
    RoundsArePut(Take(s, drop), data);
    PutAppends(Take(s, drop), data);
  }

  lemma WrapAgain(off: nat, size: nat)
    requires size > 0
    ensures Wrap(off + size, size) == Wrap(off, size)
  {
  }

  /** Longer data moves the read offset to where the write offset is when as much as fits is
      still to come. */
  lemma ClearedAhead(s: Ring, n: nat)
    requires s.Valid() && n >= |s.bytes|
    ensures Cleared(s, n).rd == Wrap(s.wr + n + 1, |s.bytes|) == Wrap(s.wr + n - (|s.bytes| - 1), |s.bytes|)
  {
    WrapAgain(s.wr + n + 1, |s.bytes|);
    WrapAgain(s.wr + n + 1 - |s.bytes|, |s.bytes|);
  }

  /** Data that fills an empty ring leaves only itself there. */
  lemma PutFull(s: Ring, first: seq<byte>, rest: seq<byte>)
    requires s.Valid() && s.rd == Wrap(s.wr + |first|, |s.bytes|) && |rest| == |s.bytes| - 1
    ensures Put(s, first + rest).Content() == rest
  {
    hide Put, Wrap;
    PutSplit(s, first, rest);
    PutWr(s, first);
    var t := Put(s, first);
    assert t.Content() == [];
    PutAppends(t, rest);
    assert [] + rest == rest;
  }

  lemma NewestIsNew(content: seq<byte>, first: seq<byte>, rest: seq<byte>)
    ensures Newest(content + (first + rest), |rest|) == rest
  {
  }

  /** Longer data leaves only itself. */
  lemma LongKeepsNewest(s: Ring, data: seq<byte>)
    requires s.Valid() && TwoRounds(s.wr, |data|, |s.bytes|) && |data| >= |s.bytes|
    ensures !Endless(s, |data|) && KeepsNewest(s, data)
  {
    var k := |data| - (|s.bytes| - 1);
    NewestIsNew(s.Content(), data[..k], data[k..]);
    assert data[..k] + data[k..] == data;
    hide Newest, Put, Rounds, Cleared, Wrap, Ring.Content;
    LongOverwrite(s, data[..k], data[k..]);
  }

  lemma LongOverwrite(s: Ring, first: seq<byte>, rest: seq<byte>)
    requires s.Valid() && TwoRounds(s.wr, |first + rest|, |s.bytes|) && |rest| == |s.bytes| - 1 && first != []
    ensures !Endless(s, |first + rest|) && Overwrite(s, first + rest).Content() == rest
  {
    var n := |first + rest|;
    hide Put, Rounds, Cleared, Wrap, Ring.Content;
    ClearedAhead(s, n);
    RoundsArePut(Cleared(s, n), first + rest);
    PutFull(Cleared(s, n), first, rest);
  }

  // ---------------------------------------------------------------- longer writes

  /** Rounds from offset 0: they never touch the last byte of the buffer, and the write offset
      falls behind by at least one round. */
  lemma {:induction false} LaterRounds(s: Ring, data: seq<byte>)
    requires s.Valid() && |s.bytes| > 1 && s.wr == 0
    ensures var r := Rounds(s, |s.bytes| - 1, data);
      && r.wr < |s.bytes| - 1 && r.bytes[|s.bytes| - 1] == s.bytes[|s.bytes| - 1]
      && r.wr <= if |data| < |s.bytes| - 1 then |data| else |data| - (|s.bytes| - 1)
    decreases |data|
  {
    var avail := |s.bytes| - 1;
    if avail > |data| {
      PutStraight(s, data);
    } else {
      PutStraight(s, data[..avail]);
      if avail < |data| {
        LaterRounds(Put(s, data[..avail]).(wr := 0), data[avail..]);
      }
    }
  }

  lemma RoundsTurn(s: Ring, data: seq<byte>)
    requires s.Valid() && |s.bytes| > 1 && |data| > |s.bytes| - s.wr
    ensures var avail := |s.bytes| - s.wr;
      Rounds(s, avail, data) == Rounds(Put(s, data[..avail]).(wr := 0), |s.bytes| - 1, data[avail..])
  {
    hide Put;
  }

  lemma PutLast(s: Ring, data: seq<byte>)
    requires s.Valid() && |data| == |s.bytes| - s.wr
    ensures Put(s, data).bytes[|s.bytes| - 1] == data[|data| - 1]
  {
    hide Put;
    PutStraight(s, data);
  }

  /** After a longer write the last byte of the buffer is one of the first round, and the write
      offset is less than what was written behind it. */
  lemma LongEnd(s: Ring, data: seq<byte>)
    requires s.Valid() && |s.bytes| > 1 && !TwoRounds(s.wr, |data|, |s.bytes|)
    ensures var r, avail := Rounds(s, |s.bytes| - s.wr, data), |s.bytes| - s.wr;
      r.wr <= |data| - avail - (|s.bytes| - 1) && r.wr < |s.bytes| - 1 && r.bytes[|s.bytes| - 1] == data[avail - 1]
  {
    var avail := |s.bytes| - s.wr;
    hide Put, Rounds;
    RoundsTurn(s, data);
    PutLast(s, data[..avail]);
    LaterRounds(Put(s, data[..avail]).(wr := 0), data[avail..]);
  }

  /** One byte beyond two rounds the write offset ends where the read offset is: everything is
      lost, such as 15 bytes written to an empty ring of 8 at offset 0. */
  lemma NextLengthLosesAll(s: Ring, data: seq<byte>)
    requires s.Valid() && |s.bytes| > 1 && s.wr + |data| == 2 * |s.bytes| - 1
    ensures Overwrite(s, data).Content() == [] && !KeepsNewest(s, data)
  {
    WrapAgain(|s.bytes|, |s.bytes|);
    hide Rounds, Cleared;
    ClearedAhead(s, |data|);
    LongEnd(Cleared(s, |data|), data);
  }

  /** Data whose bytes are all 0 but for the last one of the first round. */
  lemma LongLosesSome(s: Ring, data: seq<byte>)
    requires s.Valid() && |s.bytes| > 1 && !TwoRounds(s.wr, |data|, |s.bytes|)
    requires forall i :: 0 <= i < |data| ==> data[i] == if i == |s.bytes| - s.wr - 1 then 1 else 0
    ensures !KeepsNewest(s, data)
  {
    var size := |s.bytes|;
    hide Rounds, Cleared;
    LongEnd(Cleared(s, |data|), data);
    var r, all := Overwrite(s, data), s.Content() + data;
    if |r.Content()| == size - 1 {
      assert r.Content()[size - 2 - r.wr] == r.bytes[size - 1] == 1;
      assert Newest(all, size - 1)[size - 2 - r.wr] == all[|all| - 1 - r.wr] == data[|data| - 1 - r.wr];
    }
  }

  /** A write of `n` bytes keeps the newest bytes, whatever the bytes are, exactly when it takes
      no more than two rounds. */
  lemma OverwriteExact(s: Ring, n: nat)
    requires s.Valid() && !Endless(s, n)
    ensures (forall data: seq<byte> | |data| == n :: KeepsNewest(s, data)) <==> TwoRounds(s.wr, n, |s.bytes|)
  {
    if TwoRounds(s.wr, n, |s.bytes|) {
      forall data: seq<byte> | |data| == n ensures KeepsNewest(s, data) {
        TwoRoundsKeepNewest(s, data);
      }
    } else {
      var data: seq<byte> := seq(n, i => if i == |s.bytes| - s.wr - 1 then 1 else 0);
      LongLosesSome(s, data);
      assert !KeepsNewest(s, data);
    }
  }

  /** Up to two rounds the newest bytes are kept. */
  lemma TwoRoundsKeepNewest(s: Ring, data: seq<byte>)
    requires s.Valid() && TwoRounds(s.wr, |data|, |s.bytes|)
    ensures !Endless(s, |data|) && KeepsNewest(s, data)
  {
    if |data| < |s.bytes| {
      ShortKeepsNewest(s, data);
    } else {
      LongKeepsNewest(s, data);
    }
  }
}
