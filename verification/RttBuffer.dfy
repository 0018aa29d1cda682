/** An RTT ring buffer updated in place: every way SEGGER_RTT.c has of writing to it or reading
    from it, each against the one FIFO of RttRing. */
module RttBuffer {
  import opened Bytes
  import opened Common
  import opened RttOverwrite
  import opened RttRing

  const MODE_NO_BLOCK_SKIP: nat := 0
  const MODE_NO_BLOCK_TRIM: nat := 1
  const MODE_BLOCK_IF_FIFO_FULL: nat := 2

  /** What a write in skip mode leaves, and so every writer that drops what does not fit. */
  function AllOrNothing(s: Ring, data: seq<byte>): Ring
    requires s.Valid()
  {
    if |data| <= s.Free() then Put(s, data) else s
  }

  class Buffer {
    const buf: array<byte>
    var wrOff: nat
    var rdOff: nat
    var flags: nat

    ghost function Now(): Ring
      reads this, buf
    {
      Ring(buf[..], wrOff, rdOff)
    }

    ghost predicate Valid()
      reads this, buf
    {
      Now().Valid() && buf.Length < 0x1_0000_0000
    }

    /** Buffer 0 as `_DoInit` sets it up. */
    constructor (size: nat, flags: nat)
      requires 0 < size < 0x1_0000_0000
      ensures Valid() && fresh(buf) && buf.Length == size && this.flags == flags
      ensures wrOff == 0 && rdOff == 0 && Now().Content() == []
    {
      buf := new byte[size](_ => 0);
      wrOff, rdOff := 0, 0;
      this.flags := flags;
    }

    /** `_GetAvailWriteSpace`. */
    method GetAvailWriteSpace() returns (r: nat)
      requires Valid()
      ensures r == buf.Length - 1 - |Now().Content()|
    {
      if rdOff <= wrOff {
        r := buf.Length - 1 - wrOff + rdOff;
      } else {
        r := rdOff - wrOff - 1;
      }
    }

    /** One copy that does not pass the end of the buffer, and the offset after it. */
    method CopyStraight(data: seq<byte>)
      requires Valid() && wrOff + |data| <= buf.Length
      modifies `wrOff, buf
      ensures Valid() && Now() == Put(old(Now()), data)
      ensures wrOff == Advance(old(wrOff), |data|, buf.Length)
    {
      PutStraight(Now(), data);
      Memcpy(buf, wrOff, data);
      wrOff := wrOff + |data|;
      if wrOff == buf.Length {
        wrOff := 0;
      }
    }

    /** `_WriteNoCheck`. */
    method WriteNoCheck(data: seq<byte>)
      requires Valid() && |data| < buf.Length
      modifies `wrOff, buf
      ensures Valid() && Now() == Put(old(Now()), data)
    {
      var rem := buf.Length - wrOff;
      if rem > |data| {
        PutStraight(Now(), data);
        Memcpy(buf, wrOff, data);
        wrOff := wrOff + |data|;
      } else {
        var atOnce, rest := data[..rem], data[rem..];
        PutSplit(Now(), atOnce, rest);
        assert atOnce + rest == data;
        PutStraight(Now(), atOnce);
        PutStraight(Put(Now(), atOnce), rest);
        Memcpy(buf, wrOff, atOnce);
        Memcpy(buf, 0, rest);
        wrOff := |data| - rem;
      }
    }

    /** `SEGGER_RTT_WriteSkipNoLock`: all of the data or nothing. */
    method WriteSkipNoLock(data: seq<byte>) returns (r: nat)
      requires Valid()
      modifies `wrOff, buf
      ensures Valid()
      ensures r == if |data| <= old(Now()).Free() then 1 else 0
      ensures Now() == AllOrNothing(old(Now()), data)
    {
      var avail;
      if rdOff <= wrOff {
        avail := buf.Length - wrOff - 1;
        if avail >= |data| {
          CopyStraight(data);
          return 1;
        }
        avail := avail + rdOff;
        if avail >= |data| {
          var rem := buf.Length - wrOff;
          var first, second := data[..rem], data[rem..];
          PutSplit(Now(), first, second);
          assert first + second == data;
          PutStraight(Now(), first);
          PutStraight(Put(Now(), first), second);
          Memcpy(buf, wrOff, first);
          if |second| > 0 {
            Memcpy(buf, 0, second);
          }
          wrOff := |second|;
          return 1;
        }
      } else {
        avail := rdOff - wrOff - 1;
        if avail >= |data| {
          CopyStraight(data);
          return 1;
        }
      }
      return 0;
    }

    /** `SEGGER_RTT_PutCharSkipNoLock`. */
    method PutCharSkipNoLock(c: byte) returns (status: nat)
      requires Valid()
      modifies `wrOff, buf
      ensures Valid()
      ensures status == if old(Now()).Free() > 0 then 1 else 0
      ensures Now() == AllOrNothing(old(Now()), [c])
    {
      ghost var s := Now();
      assert Put(PutByte(s, c), []) == PutByte(s, c);
      assert [c][1..] == [];
      var next := wrOff + 1;
      if next == buf.Length {
        next := 0;
      }
      if next != rdOff {
        buf[wrOff] := c;
        wrOff := next;
        status := 1;
      } else {
        status := 0;
      }
    }

    /** The host reads `n` bytes, or all there are. */
    method HostRead(n: nat) returns (data: seq<byte>)
      requires Valid()
      modifies `rdOff
      ensures Valid()
      ensures data == old(Now()).Content()[..Min(n, |old(Now()).Content()|)]
      ensures Now() == Take(old(Now()), |data|)
    {
      var used := if rdOff <= wrOff then wrOff - rdOff else buf.Length - rdOff + wrOff;
      var k := if n < used then n else used;
      if rdOff + k < buf.Length {
        data := buf[rdOff..rdOff + k];
        rdOff := rdOff + k;
      } else {
        data := buf[rdOff..] + buf[..rdOff + k - buf.Length];
        rdOff := rdOff + k - buf.Length;
      }
    }

    /** `SEGGER_RTT_ReadNoLock`: up to the end of the buffer, then from its start. The second
        length is an unsigned difference, which wraps when the first copy stopped short. */
    method ReadNoLock(bufferSize: nat) returns (data: seq<byte>)
      requires Valid() && bufferSize < 0x1_0000_0000
      modifies `rdOff
      ensures Valid()
      ensures data == old(Now()).Content()[..Min(bufferSize, |old(Now()).Content()|)]
      ensures Now() == Take(old(Now()), |data|)
    {
      ghost var s := Now();
      hide Ring.Content, UnsignedDifference;
      var size, rd, wr := bufferSize, rdOff, wrOff;
      var first, second: seq<byte> := [], [];
      if rd > wr {
        var rem := Min(buf.Length - rd, size);
        first := buf[rd..rd + rem];
        size := size - rem;
        rd := rd + rem;
        if rd == buf.Length {
          rd := 0;
        }
      }
      var rem := Min(UnsignedDifference(wr, rd), size);
      ReadParts(s, bufferSize, |first|, rem);
      if rem > 0 {
        second := buf[rd..rd + rem];
        rd := rd + rem;
      }
      data := first + second;
      if |data| > 0 {
        rdOff := rd;
      }
    }

    /** The read offset after a copy of `k` bytes from it. */
    static function After(s: Ring, k: nat): nat {
      if s.rd + k == |s.bytes| then 0 else s.rd + k
    }

    /** How many bytes the second copy may have at most, by an unsigned difference. */
    static lemma SecondCopy(s: Ring, n: nat, k1: nat, d: nat)
      requires s.Valid() && |s.bytes| < 0x1_0000_0000
      requires k1 == if s.rd > s.wr then Min(|s.bytes| - s.rd, n) else 0
      requires d == UnsignedDifference(s.wr, After(s, k1))
      ensures k1 <= n && s.rd + k1 <= |s.bytes| && After(s, k1) + Min(d, n - k1) <= |s.bytes|
      ensures k1 + Min(d, n - k1) == Min(n, |s.Content()|)
      ensures s.rd > s.wr && n < |s.bytes| - s.rd ==> k1 == n
    {
    }

    /** The two copies of a read of `n` bytes, of `k1` and `k2` bytes. */
    static lemma ReadParts(s: Ring, n: nat, k1: nat, k2: nat)
      requires s.Valid() && |s.bytes| < 0x1_0000_0000 && n < 0x1_0000_0000
      requires k1 == if s.rd > s.wr then Min(|s.bytes| - s.rd, n) else 0
      requires k1 <= n && After(s, k1) < 0x1_0000_0000 && k2 == Min(UnsignedDifference(s.wr, After(s, k1)), n - k1)
      ensures var rd := After(s, k1);
              && k1 + k2 == Min(n, |s.Content()|) && rd + k2 <= |s.bytes|
              && s.bytes[s.rd..s.rd + k1] + s.bytes[rd..rd + k2] == s.Content()[..k1 + k2]
              && Advance(s.rd, k1 + k2, |s.bytes|) == rd + k2
    {
      SecondCopy(s, n, k1, UnsignedDifference(s.wr, After(s, k1)));
      hide UnsignedDifference, Min;
      if s.rd <= s.wr {
        NoFirst(s.bytes, s.rd, s.wr, k2);
      } else if n < |s.bytes| - s.rd {
        assert k2 == 0;
        NoSecond(s.bytes, s.rd, s.bytes[..s.wr], n);
      } else {
        BothParts(s.bytes, s.rd, s.wr, k2);
      }
    }

    static lemma NoFirst(b: seq<byte>, i: nat, j: nat, k: nat)
      requires i + k <= j <= |b|
      ensures b[i..i] + b[i..i + k] == b[i..j][..k]
    {
    }

    static lemma NoSecond(b: seq<byte>, i: nat, more: seq<byte>, k: nat)
      requires i + k <= |b|
      ensures b[i..i + k] + b[i + k..i + k] == (b[i..] + more)[..k]
    {
    }

    static lemma BothParts(b: seq<byte>, i: nat, j: nat, k: nat)
      requires k <= j <= i <= |b|
      ensures b[i..i + (|b| - i)] + b[0..k] == (b[i..] + b[..j])[..(|b| - i) + k]
    {
    }

    /** `a - b` in 32 bits. */
    static function UnsignedDifference(a: nat, b: nat): (d: nat)
      requires a < 0x1_0000_0000 && b < 0x1_0000_0000
      ensures d == if b <= a then a - b else a - b + 0x1_0000_0000
    {
      (a - b) % 0x1_0000_0000
    }

    /** The copying rounds of `SEGGER_RTT_WriteWithOverwriteNoLock`. A round that copies nothing
        would be repeated for ever, which is cut off and reported. */
    method WriteRounds(data: seq<byte>) returns (endless: bool)
      requires Valid()
      modifies `wrOff, buf
      ensures Valid() && endless == Endless(old(Now()), |data|)
      ensures !endless ==> Now() == Rounds(old(Now()), buf.Length - old(wrOff), data)
    {
      ghost var t := Now();
      hide Put, Ring.Content, TwoRounds;
      var avail, rest := buf.Length - wrOff, data;
      while true
        invariant Valid() && rdOff == t.rd && wrOff + avail <= buf.Length
        invariant Endless(t, |data|) ==> avail == 0 || (avail == 1 && rest == data)
        invariant !Endless(t, |data|) ==>
          && avail > 0 && (buf.Length > 1 || |rest| <= avail)
          && Rounds(Now(), avail, rest) == Rounds(t, buf.Length - t.wr, data)
        decreases |rest|
      {
        if avail > |rest| {
          CopyStraight(rest);
          return false;
        }
        if avail == 0 {
          return true;
        }
        CopyStraight(rest[..avail]);
        wrOff := 0;
        rest := rest[avail..];
        avail := buf.Length - 1;
        if |rest| == 0 {
          return false;
        }
      }
    }

    /** Moves the read offset on by `n`, in 32 bits, and back into the buffer. */
    method MoveRead(n: nat)
      requires Valid() && rdOff + n < 0x1_0000_0000
      modifies `rdOff
      ensures Valid() && Now() == old(Now()).(rd := Wrap(old(rdOff) + n, buf.Length))
    {
      rdOff := (rdOff + n) % 0x1_0000_0000;
      while rdOff >= buf.Length
        invariant Wrap(rdOff, buf.Length) == Wrap(old(rdOff) + n, buf.Length)
      {
        rdOff := rdOff - buf.Length;
      }
    }

    /** `SEGGER_RTT_WriteWithOverwriteNoLock`: old bytes make room for the new ones. The ring and
        the data have room in one 32-bit address space. */
    method WriteWithOverwriteNoLock(data: seq<byte>) returns (endless: bool)
      requires Valid() && buf.Length + |data| <= 0x1_0000_0000
      modifies `wrOff, `rdOff, buf
      ensures Valid() && endless == Endless(old(Now()), |data|)
      ensures !endless ==> Now() == Overwrite(old(Now()), data)
      ensures TwoRounds(old(wrOff), |data|, buf.Length) ==>
        !endless && Now().Content() == Newest(old(Now()).Content() + data, buf.Length - 1)
    {
      ghost var s := Now();
      var avail;
      if wrOff == rdOff {
        avail := buf.Length - 1;
      } else if wrOff < rdOff {
        avail := rdOff - wrOff - 1;
      } else {
        avail := rdOff - wrOff - 1 + buf.Length;
      }
      assert avail == s.Free();
      if |data| > avail {
        MoveRead(|data| - avail);
      }
      assert Now() == Cleared(s, |data|);
      hide Put, Rounds, Cleared, Newest, Ring.Content;
      if TwoRounds(s.wr, |data|, |s.bytes|) {
        TwoRoundsKeepNewest(s, data);
      }
      endless := WriteRounds(data);
    }

    /** One round of `_WriteBlocking`: as much of `rest` as fits before the read offset and
        before the end of the buffer. */
    method WriteChunk(rest: seq<byte>) returns (n: nat)
      requires Valid()
      modifies `wrOff, buf
      ensures n <= |rest| && n <= old(Now()).Free()
      ensures Valid() && Now() == Put(old(Now()), rest[..n])
      ensures n > 0 <==> rest != [] && old(Now()).Free() > 0
    {
      if rdOff > wrOff {
        n := rdOff - wrOff - 1;
      } else {
        n := buf.Length - (wrOff - rdOff + 1);
      }
      n := Min(n, buf.Length - wrOff);
      n := Min(n, |rest|);
      CopyStraight(rest[..n]);
    }

    /** The first `written` bytes of the data are posted, and `drained` has left the ring `s`. */
    ghost predicate Underway(s: Ring, data: seq<byte>, written: nat, drained: seq<byte>)
      reads this, buf
    {
      Valid() && written <= |data| && Posted(s, Now(), data[..written], drained)
    }

    /** The host reads, then one round posts more of `data`, of which `written` bytes are done. */
    method BlockingRound(ghost s: Ring, data: seq<byte>, written: nat, ghost drained: seq<byte>, hostReads: nat)
      returns (n: nat, ghost drained': seq<byte>)
      requires Underway(s, data, written, drained) && written <= |data|
      modifies `wrOff, `rdOff, buf
      ensures Underway(s, data, written + n, drained') && written + n <= |data|
      ensures hostReads == 0 ==> drained' == drained
      ensures n == 0 ==> written == |data| || Now().Free() == 0
    {
      ghost var t := Now();
      var got := HostRead(hostReads);
      ReadMore(s, t, data[..written], drained, |got|);
      drained' := drained + got;
      t := Now();
      n := WriteChunk(data[written..]);
      PostMore(s, t, data[..written], drained', data[written..][..n]);
      assert data[..written] + data[written..][..n] == data[..written + n];
    }

    lemma UnderwayStart(data: seq<byte>)
      requires Valid()
      ensures Underway(Now(), data, 0, [])
    {
      assert data[..0] == [];
      PostedNothing(Now());
      hide Posted;
    }

    lemma UnderwayEnd(s: Ring, data: seq<byte>, written: nat, drained: seq<byte>)
      requires Underway(s, data, written, drained)
      ensures Valid() && written <= |data| && Posted(s, Now(), data[..written], drained)
      ensures written < |data| && Now().Free() == 0 ==> s.Valid() && |data| > s.Free()
    {
      if written < |data| && Now().Free() == 0 {
        PostedFree(s, Now(), data[..written], drained);
      }
      hide Posted;
    }

    /** `_WriteBlocking`. Before the n-th round the host reads `host[n]` bytes, and nothing once
        `host` is used up; where the loop would then spin on a full ring, `waiting` is set. */
    method WriteBlocking(data: seq<byte>, host: seq<nat>)
      returns (written: nat, ghost drained: seq<byte>, waiting: bool)
      requires Valid()
      modifies `wrOff, `rdOff, buf
      ensures Valid() && written <= |data| && Posted(old(Now()), Now(), data[..written], drained)
      ensures waiting <==> written < |data|
      ensures waiting ==> Now().Free() == 0
      ensures |data| <= old(Now()).Free() ==> !waiting
      ensures host == [] ==> drained == []
    {
      hide *;
      ghost var s := Now();
      UnderwayStart(data);
      var i := 0;
      written, drained := 0, [];
      while true
        invariant Underway(s, data, written, drained) && written <= |data| && i <= |host|
        invariant host == [] ==> drained == []
        decreases |host| - i, |data| - written
      {
        var hostReads, spinning := 0, i == |host|;
        if i < |host| {
          hostReads := host[i];
          i := i + 1;
        }
        var n;
        n, drained := BlockingRound(s, data, written, drained, hostReads);
        written := written + n;
        if written == |data| || (n == 0 && spinning) {
          break;
        }
      }
      waiting := written < |data|;
      UnderwayEnd(s, data, written, drained);
    }

    /** `SEGGER_RTT_WriteNoLock`: what happens to data that does not fit depends on the flags. */
    method WriteNoLock(data: seq<byte>, host: seq<nat>)
      returns (status: nat, ghost drained: seq<byte>, waiting: bool)
      requires Valid()
      modifies `wrOff, `rdOff, buf
      ensures status == Accepted(flags, old(Now()).Free(), |data|) || waiting
      ensures Valid() && status <= |data| && Posted(old(Now()), Now(), data[..status], drained)
      ensures waiting ==> flags == MODE_BLOCK_IF_FIFO_FULL && Now().Free() == 0 && old(Now()).Free() < |data|
      ensures flags != MODE_BLOCK_IF_FIFO_FULL || host == [] ==> drained == []
      ensures flags == MODE_NO_BLOCK_SKIP ==> Now() == AllOrNothing(old(Now()), data)
    {
      ghost var s := Now();
      PostedNothing(s);
      drained, waiting := [], false;
      if flags == MODE_NO_BLOCK_SKIP {
        var avail := GetAvailWriteSpace();
        if avail < |data| {
          status := 0;
        } else {
          status := |data|;
          PostMore(s, s, [], [], data);
          WriteNoCheck(data);
        }
      } else if flags == MODE_NO_BLOCK_TRIM {
        var avail := GetAvailWriteSpace();
        status := if avail < |data| then avail else |data|;
        PostMore(s, s, [], [], data[..status]);
        WriteNoCheck(data[..status]);
      } else if flags == MODE_BLOCK_IF_FIFO_FULL {
        status, drained, waiting := WriteBlocking(data, host);
      } else {
        status := 0;
      }
      assert [] + data[..status] == data[..status] && data[..|data|] == data;
    }
  }

  /** How many of `n` bytes a write of each mode accepts into a ring with `free` free bytes. */
  function Accepted(flags: nat, free: nat, n: nat): (r: nat)
    ensures r <= n && (flags != MODE_BLOCK_IF_FIFO_FULL ==> r <= free)
  {
    if flags == MODE_NO_BLOCK_SKIP then if free < n then 0 else n
    else if flags == MODE_NO_BLOCK_TRIM then Min(free, n)
    else if flags == MODE_BLOCK_IF_FIFO_FULL then n
    else 0
  }

  /** In skip mode data goes in whole behind what is there, exactly when it leaves one place free. */
  lemma SkipIs(s: Ring, data: seq<byte>)
    requires s.Valid()
    ensures var r := AllOrNothing(s, data);
      if |s.Content()| + |data| < |s.bytes| then r.Content() == s.Content() + data && r.rd == s.rd else r == s
  {
    if |data| <= s.Free() {
      PutAppends(s, data);
    }
    hide Put;
  }

  /** By the numbers of the modes: 0 takes all or nothing, 1 what fits, 2 all, and others nothing. */
  lemma AcceptedIs(flags: nat, free: nat, n: nat)
    ensures Accepted(0, free, n) == n <==> n <= free
    ensures n > free ==> Accepted(0, free, n) == 0
    ensures Accepted(1, free, n) <= n && Accepted(1, free, n) <= free && (Accepted(1, free, n) == n || Accepted(1, free, n) == free)
    ensures Accepted(2, free, n) == n
    ensures flags > 2 ==> Accepted(flags, free, n) == 0
  {
  }
}
