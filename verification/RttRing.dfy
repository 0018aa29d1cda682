/** The ring buffers of SEGGER_RTT.c: the values a ring goes through, the FIFO they stand for,
    and the ring as an object with the write and read variants that update it. */
module RttRing {
  import opened Bytes

  // ---------------------------------------------------------------- ring values

  /** The bytes of a ring and its two offsets. */
  datatype Ring = Ring(bytes: seq<byte>, wr: nat, rd: nat) {
    predicate Valid() {
      wr < |bytes| && rd < |bytes|
    }

    function Size(): nat {
      |bytes|
    }

    /** The unread bytes, oldest first. */
    function Content(): seq<byte>
      requires Valid()
    {
      if rd <= wr then bytes[rd..wr] else bytes[rd..] + bytes[..wr]
    }

    /** One slot always stays empty. */
    function Free(): (n: nat)
      requires Valid()
      ensures n == Size() - 1 - |Content()|
    {
      if rd <= wr then |bytes| - 1 - wr + rd else rd - wr - 1
    }
  }

  function Advance(off: nat, n: nat, size: nat): (r: nat)
    requires off < size && n <= size
    ensures r < size
  {
    if off + n < size then off + n else off + n - size
  }

  function PutByte(s: Ring, b: byte): Ring
    requires s.Valid()
  {
    s.(bytes := s.bytes[s.wr := b], wr := Advance(s.wr, 1, |s.bytes|))
  }

  /** The ring after the bytes of `data` are stored one at a time at the write offset. */
  function Put(s: Ring, data: seq<byte>): (r: Ring)
    requires s.Valid()
    ensures r.Valid() && r.rd == s.rd && |r.bytes| == |s.bytes|
    decreases |data|
  {
    if data == [] then s else Put(PutByte(s, data[0]), data[1..])
  }

  /** The ring after its `n` oldest bytes are read. */
  function Take(s: Ring, n: nat): (r: Ring)
    requires s.Valid() && n <= |s.Content()|
    ensures r.Valid()
  {
    s.(rd := Advance(s.rd, n, |s.bytes|))
  }

  lemma PutByteContent(s: Ring, b: byte)
    requires s.Valid() && s.Free() > 0
    ensures PutByte(s, b).Valid() && PutByte(s, b).Content() == s.Content() + [b]
  {
    var t := PutByte(s, b);
    if s.rd <= s.wr {
      assert t.bytes[s.rd..s.wr] == s.bytes[s.rd..s.wr];
    } else {
      assert t.bytes[s.rd..] == s.bytes[s.rd..];
      assert t.bytes[..s.wr] == s.bytes[..s.wr];
    }
  }

  /** Storing what fits appends it to the FIFO. */
  lemma {:induction false} PutAppends(s: Ring, data: seq<byte>)
    requires s.Valid() && |data| <= s.Free()
    ensures Put(s, data).Content() == s.Content() + data
    decreases |data|
  {
    if data != [] {
      PutByteContent(s, data[0]);
      PutAppends(PutByte(s, data[0]), data[1..]);
      assert s.Content() + [data[0]] + data[1..] == s.Content() + data;
    }
  }

  /** Reading removes the oldest bytes of the FIFO. */
  lemma TakeDrops(s: Ring, n: nat)
    requires s.Valid() && n <= |s.Content()|
    ensures Take(s, n).Content() == s.Content()[n..]
  {
    if s.rd > s.wr && s.rd + n < |s.bytes| {
      assert s.Content()[n..] == s.bytes[s.rd + n..] + s.bytes[..s.wr];
    }
  }

  lemma {:induction false} PutSplit(s: Ring, a: seq<byte>, b: seq<byte>)
    requires s.Valid()
    ensures Put(s, a + b) == Put(Put(s, a), b)
    decreases |a|
  {
    if a == [] {
      assert a + b == b;
    } else {
      assert (a + b)[1..] == a[1..] + b;
      PutSplit(PutByte(s, a[0]), a[1..], b);
    }
  }

  /** `data` stored over the bytes from the write offset on. */
  function Stored(s: Ring, data: seq<byte>): Ring
    requires s.Valid() && s.wr + |data| <= |s.bytes|
  {
    s.(bytes := s.bytes[..s.wr] + data + s.bytes[s.wr + |data|..], wr := Advance(s.wr, |data|, |s.bytes|))
  }

  lemma StoredMore(s: Ring, data: seq<byte>)
    requires s.Valid() && data != [] && s.wr + |data| <= |s.bytes|
    ensures |data| > 1 ==> Stored(PutByte(s, data[0]), data[1..]) == Stored(s, data)
    ensures |data| == 1 ==> PutByte(s, data[0]) == Stored(s, data)
  {
    var t := PutByte(s, data[0]);
    if |data| == 1 {
      assert t.bytes == s.bytes[..s.wr] + data + s.bytes[s.wr + 1..];
    } else {
      assert t.bytes[..t.wr] + data[1..] + t.bytes[t.wr + |data| - 1..]
          == s.bytes[..s.wr] + data + s.bytes[s.wr + |data|..];
    }
  }

  /** Data that does not pass the end of the buffer is stored by one copy. */
  lemma {:induction false} PutStraight(s: Ring, data: seq<byte>)
    requires s.Valid() && s.wr + |data| <= |s.bytes|
    ensures Put(s, data) == Stored(s, data)
    decreases |data|
  {
    if data == [] {
      assert s.bytes == s.bytes[..s.wr] + [] + s.bytes[s.wr..];
    } else {
      StoredMore(s, data);
      if |data| == 1 {
        assert Put(PutByte(s, data[0]), data[1..]) == PutByte(s, data[0]);
      } else {
        PutStraight(PutByte(s, data[0]), data[1..]);
      }
    }
  }

  /** What the host reads does not interfere with where the target writes. */
  lemma {:induction false} PutIgnoresRead(s: Ring, data: seq<byte>, rd: nat)
    requires s.Valid() && rd < |s.bytes|
    ensures Put(s.(rd := rd), data) == Put(s, data).(rd := rd)
    decreases |data|
  {
    if data != [] {
      PutIgnoresRead(PutByte(s, data[0]), data[1..], rd);
    }
  }

  /** How far a blocking write to `s` has come when the ring is `t`: `done` of its data is
      posted, and the host has read `drained` in the meantime. */
  ghost predicate Posted(s: Ring, t: Ring, done: seq<byte>, drained: seq<byte>) {
    && s.Valid() && t.Valid()
    && t == Put(s, done).(rd := t.rd)
    && drained + t.Content() == s.Content() + done
  }

  lemma PostedNothing(s: Ring)
    requires s.Valid()
    ensures Posted(s, s, [], [])
  {
    assert s.Content() + [] == s.Content();
    assert [] + s.Content() == s.Content();
  }

  /** Posting more. */
  lemma PostMore(s: Ring, t: Ring, done: seq<byte>, drained: seq<byte>, chunk: seq<byte>)
    requires Posted(s, t, done, drained) && |chunk| <= t.Free()
    ensures Posted(s, Put(t, chunk), done + chunk, drained)
  {
    PutSplit(s, done, chunk);
    PutIgnoresRead(Put(s, done), chunk, t.rd);
    PutAppends(t, chunk);
    Reassociate(drained, t.Content(), chunk, s.Content(), done);
  }

  /** The host reading on. */
  lemma ReadMore(s: Ring, t: Ring, done: seq<byte>, drained: seq<byte>, n: nat)
    requires Posted(s, t, done, drained) && n <= |t.Content()|
    ensures Posted(s, Take(t, n), done, drained + t.Content()[..n])
  {
    TakeDrops(t, n);
    Rejoin(drained, t.Content(), n);
  }

  /** Free space shrinks by what is posted and grows by what the host reads. */
  lemma PostedFree(s: Ring, t: Ring, done: seq<byte>, drained: seq<byte>)
    requires Posted(s, t, done, drained)
    ensures t.Free() == s.Free() - |done| + |drained|
  {
    assert |drained + t.Content()| == |s.Content() + done|;
  }

  lemma Reassociate(a: seq<byte>, b: seq<byte>, c: seq<byte>, d: seq<byte>, e: seq<byte>)
    requires a + b == d + e
    ensures a + (b + c) == d + (e + c)
  {
    assert a + (b + c) == (a + b) + c;
    assert d + (e + c) == (d + e) + c;
  }

  lemma Rejoin(a: seq<byte>, b: seq<byte>, n: nat)
    requires n <= |b|
    ensures (a + b[..n]) + b[n..] == a + b
  {
  }
}
