/** `_WriteBlocking` against a host that reads while it runs: the target's loop and the host's
    accesses as a state machine of single memory accesses, over all interleavings. */
module RttInterleaving {
  import opened Bytes
  import opened RttRing

  /** Where the target is in its loop: about to sample `RdOff`, or with `k` of the `n` bytes of
      this round copied. */
  datatype Phase = Sampling | Copying(n: nat, k: nat)

  /** The ring in shared memory, the target's unwritten bytes and phase, and on the host's side
      the write offset it last saw, its own read position and the bytes it has read. */
  datatype State = State(bytes: seq<byte>, wr: nat, rd: nat, todo: seq<byte>, phase: Phase,
                         seen: nat, cursor: nat, log: seq<byte>)

  datatype Action =
    | Sample        // the target reads RdOff and fixes the size of the round
    | CopyByte      // the target stores one byte
    | Publish       // the target stores WrOff
    | HostLook      // the host reads WrOff
    | HostReadByte  // the host reads one byte
    | HostRelease   // the host stores RdOff

  /** The size of a round, from the offsets the target sees. */
  function RoundSize(size: nat, wr: nat, rd: nat, todo: nat): nat
    requires wr < size && rd < size
  {
    var space := if rd > wr then rd - wr - 1 else size - (wr - rd + 1);
    var straight := if space < size - wr then space else size - wr;
    if straight < todo then straight else todo
  }

  /** Number of slots from offset `a` on to offset `b`. */
  function Ahead(size: nat, a: nat, b: nat): int {
    if a <= b then b - a else b - a + size
  }

  predicate Enabled(s: State, a: Action) {
    match a
    case Sample => s.phase.Sampling? && s.todo != [] && s.wr < |s.bytes| && s.rd < |s.bytes|
    case CopyByte => s.phase.Copying? && s.phase.k < s.phase.n && s.phase.k < |s.todo| && s.wr + s.phase.k < |s.bytes|
    case Publish => s.phase.Copying? && s.phase.k == s.phase.n <= |s.todo| && s.wr < |s.bytes| && s.phase.n <= |s.bytes|
    case HostLook => true
    case HostReadByte => s.cursor != s.seen && s.cursor < |s.bytes|
    case HostRelease => true
  }

  function Step(s: State, a: Action): State
    requires Enabled(s, a)
  {
    match a
    case Sample => s.(phase := Copying(RoundSize(|s.bytes|, s.wr, s.rd, |s.todo|), 0))
    case CopyByte =>
      s.(bytes := s.bytes[s.wr + s.phase.k := s.todo[s.phase.k]], phase := Copying(s.phase.n, s.phase.k + 1))
    case Publish =>
      s.(wr := Advance(s.wr, s.phase.n, |s.bytes|), todo := s.todo[s.phase.n..], phase := Sampling)
    case HostLook => s.(seen := s.wr)
    case HostReadByte =>
      s.(log := s.log + [s.bytes[s.cursor]], cursor := Advance(s.cursor, 1, |s.bytes|))
    case HostRelease => s.(rd := s.cursor)
  }

  predicate EnabledRun(s: State, run: seq<Action>)
    decreases |run|
  {
    run == [] || (Enabled(s, run[0]) && EnabledRun(Step(s, run[0]), run[1..]))
  }

  function Run(s: State, run: seq<Action>): State
    requires EnabledRun(s, run)
    decreases |run|
  {
    if run == [] then s else Run(Step(s, run[0]), run[1..])
  }

  /** A write of `data` begins on a ring whose host is between two reads. */
  function Start(ring: Ring, data: seq<byte>): State {
    State(ring.bytes, ring.wr, ring.rd, data, Sampling, ring.wr, ring.rd, [])
  }

  // ---------------------------------------------------------------- the invariant

  function Done(data: seq<byte>, s: State): seq<byte> {
    if |s.todo| <= |data| then data[..|data| - |s.todo|] else []
  }

  /** The ring with everything published so far and nothing else. */
  function Base(ring: Ring, data: seq<byte>, s: State): Ring
    requires ring.Valid()
  {
    Put(ring, Done(data, s))
  }

  /** The bytes of the current round that are stored but not published. */
  function Pending(s: State): nat {
    if s.phase.Copying? then s.phase.k else 0
  }

  function Reserved(s: State): nat {
    if s.phase.Copying? then s.phase.n else 0
  }

  /** Around the ring from the published read offset: the host's cursor, what the host has seen,
      the published write offset, the round in progress, and one free slot. */
  predicate Ordered(s: State) {
    var size := |s.bytes|;
    && s.wr < size && s.rd < size && s.seen < size && s.cursor < size
    && Ahead(size, s.rd, s.cursor) + Ahead(size, s.cursor, s.seen) + Ahead(size, s.seen, s.wr) == Ahead(size, s.rd, s.wr)
    && Ahead(size, s.rd, s.wr) + Reserved(s) < size
    && s.wr + Reserved(s) <= size
    && Pending(s) <= Reserved(s) <= |s.todo|
  }

  ghost predicate Stored(ring: Ring, data: seq<byte>, s: State)
    requires ring.Valid()
  {
    var base := Base(ring, data, s);
    && |s.todo| <= |data| && s.todo == data[|data| - |s.todo|..]
    && |s.bytes| == |base.bytes| && s.wr == base.wr
    && Pending(s) <= |s.todo| && s.wr + Pending(s) <= |s.bytes|
    && s.bytes == base.bytes[..s.wr] + s.todo[..Pending(s)] + base.bytes[s.wr + Pending(s)..]
  }

  /** The published bytes from an offset on. */
  function Window(s: State, from: nat): seq<byte> {
    if s.wr < |s.bytes| && from < |s.bytes| then Ring(s.bytes, s.wr, from).Content() else []
  }

  /** What the host has read, what is published and unread, and the rest is the whole stream. */
  predicate Conserved(all: seq<byte>, s: State) {
    s.log + Window(s, s.cursor) + s.todo == all
  }

  ghost predicate Inv(ring: Ring, data: seq<byte>, s: State)
    requires ring.Valid()
  {
    Ordered(s) && Stored(ring, data, s) && Conserved(ring.Content() + data, s)
  }

  lemma StartInv(ring: Ring, data: seq<byte>)
    requires ring.Valid()
    ensures Inv(ring, data, Start(ring, data))
  {
    var s := Start(ring, data);
    assert Done(data, s) == [];
    assert s.bytes == ring.bytes[..s.wr] + s.todo[..0] + ring.bytes[s.wr..];
    assert [] + ring.Content() + data == ring.Content() + data;
  }

  // ---------------------------------------------------------------- the target's steps

  /** A round never runs into the bytes the host has not released, and it is not empty when
      the target sees free space. */
  lemma RoundFits(size: nat, wr: nat, rd: nat, todo: nat)
    requires wr < size && rd < size
    ensures var n := RoundSize(size, wr, rd, todo);
      && 0 <= n <= todo && wr + n <= size && Ahead(size, rd, wr) + n < size
      && (n > 0 <==> todo > 0 && Ahead(size, rd, wr) < size - 1)
  {
  }

  /** A round is as long as it can be: up to the end of the buffer, of the data, or of the free space. */
  lemma RoundMost(size: nat, wr: nat, rd: nat, todo: nat, n: nat)
    requires wr < size && rd < size
    ensures n <= RoundSize(size, wr, rd, todo) <==> n <= todo && wr + n <= size && Ahead(size, rd, wr) + n < size
  {
  }

  lemma SampleKeeps(ring: Ring, data: seq<byte>, s: State)
    requires ring.Valid() && Inv(ring, data, s) && Enabled(s, Sample)
    ensures Inv(ring, data, Step(s, Sample))
  {
    RoundFits(|s.bytes|, s.wr, s.rd, |s.todo|);
  }

  lemma StoreOne(base: seq<byte>, at: nat, todo: seq<byte>, k: nat)
    requires k < |todo| && at + k < |base|
    ensures (base[..at] + todo[..k] + base[at + k..])[at + k := todo[k]]
         == base[..at] + todo[..k + 1] + base[at + k + 1..]
  {
  }

  lemma CopyByteStores(ring: Ring, data: seq<byte>, s: State)
    requires ring.Valid() && Stored(ring, data, s) && Enabled(s, CopyByte)
    ensures Stored(ring, data, Step(s, CopyByte))
  {
    StoreOne(Base(ring, data, s).bytes, s.wr, s.todo, s.phase.k);
    assert Base(ring, data, Step(s, CopyByte)) == Base(ring, data, s);
    hide *;
  }

  /** Storing a byte changes nothing between `from` and the published write offset. */
  lemma CopyKeepsWindow(s: State, from: nat)
    requires Ordered(s) && Enabled(s, CopyByte)
    requires from < |s.bytes| && Ahead(|s.bytes|, from, s.wr) <= Ahead(|s.bytes|, s.rd, s.wr)
    ensures Window(Step(s, CopyByte), from) == Window(s, from)
  {
    OutsideWindow(s.bytes, s.wr, from, s.wr + s.phase.k, s.todo[s.phase.k]);
  }

  lemma OutsideWindow(bytes: seq<byte>, wr: nat, from: nat, at: nat, b: byte)
    requires wr < |bytes| && from < |bytes| && wr <= at < |bytes| && (from <= wr || at < from)
    ensures Ring(bytes[at := b], wr, from).Content() == Ring(bytes, wr, from).Content()
  {
    if from <= wr {
      assert bytes[at := b][from..wr] == bytes[from..wr];
    } else {
      assert bytes[at := b][from..] == bytes[from..];
      assert bytes[at := b][..wr] == bytes[..wr];
    }
  }

  lemma DoneNext(data: seq<byte>, s: State, n: nat)
    requires n <= |s.todo| <= |data| && s.todo == data[|data| - |s.todo|..]
    ensures Done(data, s) + s.todo[..n] == Done(data, s.(todo := s.todo[n..]))
    ensures s.todo[n..] == data[|data| - |s.todo[n..]|..]
  {
  }

  lemma Rejoined(a: seq<byte>, i: nat)
    requires i <= |a|
    ensures a[..i] + [] + a[i..] == a
  {
  }

  /** A finished round leaves the ring of a write that has come that much further. */
  lemma PublishedBase(ring: Ring, data: seq<byte>, s: State)
    requires ring.Valid() && Stored(ring, data, s) && Enabled(s, Publish)
    ensures Base(ring, data, Step(s, Publish)).bytes == s.bytes
    ensures Base(ring, data, Step(s, Publish)).wr == Step(s, Publish).wr
  {
    var n, base := s.phase.n, Base(ring, data, s);
    PublishedPut(ring, data, s);
    PutStraight(base, s.todo[..n]);
    hide Put, Done;
  }

  lemma PublishedPut(ring: Ring, data: seq<byte>, s: State)
    requires ring.Valid() && Stored(ring, data, s) && Enabled(s, Publish)
    ensures Base(ring, data, Step(s, Publish)) == Put(Base(ring, data, s), s.todo[..s.phase.n])
  {
    DoneNext(data, s, s.phase.n);
    assert Done(data, Step(s, Publish)) == Done(data, s.(todo := s.todo[s.phase.n..]));
    hide Put, Done;
    PutSplit(ring, Done(data, s), s.todo[..s.phase.n]);
  }

  lemma PublishStores(ring: Ring, data: seq<byte>, s: State)
    requires ring.Valid() && Ordered(s) && Stored(ring, data, s) && Enabled(s, Publish)
    ensures Stored(ring, data, Step(s, Publish))
  {
    var t := Step(s, Publish);
    DoneNext(data, s, s.phase.n);
    PublishedBase(ring, data, s);
    hide Put;
    Rejoined(t.bytes, t.wr);
    assert t.todo[..0] == [];
  }

  /** Publishing turns the pending bytes into unread ones. */
  lemma PublishExtends(bytes: seq<byte>, wr: nat, from: nat, n: nat)
    requires wr < |bytes| && from < |bytes| && wr + n <= |bytes| && Ahead(|bytes|, from, wr) + n < |bytes|
    ensures Ring(bytes, Advance(wr, n, |bytes|), from).Content()
         == Ring(bytes, wr, from).Content() + bytes[wr..wr + n]
  {
    if from <= wr && wr + n == |bytes| {
      assert bytes[from..] == bytes[from..wr] + bytes[wr..];
      assert bytes[..0] == [];
    }
  }

  lemma Regroup(log: seq<byte>, content: seq<byte>, chunk: seq<byte>, rest: seq<byte>)
    ensures log + (content + chunk) + rest == log + content + (chunk + rest)
  {
  }

  lemma PublishConserves(all: seq<byte>, s: State)
    requires Ordered(s) && Conserved(all, s) && Enabled(s, Publish)
    requires s.bytes[s.wr..s.wr + s.phase.n] == s.todo[..s.phase.n]
    ensures Conserved(all, Step(s, Publish))
  {
    var n := s.phase.n;
    PublishExtends(s.bytes, s.wr, s.cursor, n);
    Regroup(s.log, Window(s, s.cursor), s.todo[..n], s.todo[n..]);
    assert s.todo[..n] + s.todo[n..] == s.todo;
  }

  lemma PendingBytes(ring: Ring, data: seq<byte>, s: State)
    requires ring.Valid() && Stored(ring, data, s)
    ensures s.bytes[s.wr..s.wr + Pending(s)] == s.todo[..Pending(s)]
  {
    hide Put;
  }

  // ---------------------------------------------------------------- the host's steps

  /** The byte at the host's cursor is the oldest it has not read. */
  lemma FirstUnread(s: State)
    requires Ordered(s) && Enabled(s, HostReadByte)
    ensures [s.bytes[s.cursor]] + Window(s, Advance(s.cursor, 1, |s.bytes|)) == Window(s, s.cursor)
  {
    var ring := Ring(s.bytes, s.wr, s.cursor);
    TakeDrops(ring, 1);
    assert ring.Content() == ring.Content()[..1] + ring.Content()[1..];
  }

  lemma HostReadConserves(all: seq<byte>, s: State)
    requires Ordered(s) && Conserved(all, s) && Enabled(s, HostReadByte)
    ensures Conserved(all, Step(s, HostReadByte))
  {
    FirstUnread(s);
    var first, rest := [s.bytes[s.cursor]], Window(s, Advance(s.cursor, 1, |s.bytes|));
    assert s.log + (first + rest) + s.todo == (s.log + first) + rest + s.todo;
    assert Window(Step(s, HostReadByte), Step(s, HostReadByte).cursor) == rest;
    hide Window;
  }

  lemma StepOrders(s: State, a: Action)
    requires Ordered(s) && Enabled(s, a)
    ensures Ordered(Step(s, a))
  {
    if a.Sample? {
      RoundFits(|s.bytes|, s.wr, s.rd, |s.todo|);
    }
  }

  lemma HostKeepsStored(ring: Ring, data: seq<byte>, s: State, a: Action)
    requires ring.Valid() && Stored(ring, data, s) && Enabled(s, a) && (a.HostLook? || a.HostReadByte? || a.HostRelease?)
    ensures Stored(ring, data, Step(s, a))
  {
    assert Base(ring, data, Step(s, a)) == Base(ring, data, s);
    hide Put;
  }

  lemma StepKeeps(ring: Ring, data: seq<byte>, s: State, a: Action)
    requires ring.Valid() && Inv(ring, data, s) && Enabled(s, a)
    ensures Inv(ring, data, Step(s, a))
  {
    StepOrders(s, a);
    hide Put, Base;
    match a
    case Sample =>
      SampleKeeps(ring, data, s);
    case CopyByte =>
      CopyByteStores(ring, data, s);
      CopyKeepsWindow(s, s.cursor);
    case Publish =>
      PublishStores(ring, data, s);
      PendingBytes(ring, data, s);
      PublishConserves(ring.Content() + data, s);
    case HostReadByte =>
      HostKeepsStored(ring, data, s, a);
      HostReadConserves(ring.Content() + data, s);
    case HostLook =>
      HostKeepsStored(ring, data, s, a);
    case HostRelease =>
      HostKeepsStored(ring, data, s, a);
  }

  // ---------------------------------------------------------------- all runs

  lemma {:induction false} RunKeeps(ring: Ring, data: seq<byte>, s: State, run: seq<Action>)
    requires ring.Valid() && Inv(ring, data, s) && EnabledRun(s, run)
    ensures Inv(ring, data, Run(s, run))
    decreases |run|
  {
    if run != [] {
      StepKeeps(ring, data, s, run[0]);
      RunKeeps(ring, data, Step(s, run[0]), run[1..]);
    }
  }

  /** Whatever the interleaving: the offsets stay inside the buffer; host bytes, unread bytes and
      unwritten bytes are the old content and the data in order; and between two rounds the ring
      is the one a write without a host would have left, but for the read offset. */
  lemma AllRuns(ring: Ring, data: seq<byte>, run: seq<Action>)
    requires ring.Valid() && EnabledRun(Start(ring, data), run)
    ensures var s := Run(Start(ring, data), run);
      && |s.bytes| == |ring.bytes| && s.wr < |s.bytes| && s.rd < |s.bytes| && s.cursor < |s.bytes|
      && s.log + Window(s, s.cursor) + s.todo == ring.Content() + data
      && |s.todo| <= |data|
      && (s.phase.Sampling? ==>
           Ring(s.bytes, s.wr, s.rd) == Put(ring, data[..|data| - |s.todo|]).(rd := s.rd))
  {
    StartInv(ring, data);
    RunKeeps(ring, data, Start(ring, data), run);
    var s := Run(Start(ring, data), run);
    if s.phase.Sampling? {
      Rejoined(Base(ring, data, s).bytes, s.wr);
      assert s.todo[..0] == [];
    }
  }

  /** In any run, a byte the target stores is outside what the host has not released and outside
      what it has not read, and a byte the host reads is the oldest published one. */
  lemma NoUnreadOverwritten(ring: Ring, data: seq<byte>, run: seq<Action>)
    requires ring.Valid() && EnabledRun(Start(ring, data), run)
    ensures var s := Run(Start(ring, data), run);
      && (Enabled(s, CopyByte) ==>
           && Window(Step(s, CopyByte), s.rd) == Window(s, s.rd)
           && Window(Step(s, CopyByte), s.cursor) == Window(s, s.cursor))
      && (Enabled(s, HostReadByte) ==>
           Step(s, HostReadByte).log + Window(Step(s, HostReadByte), Step(s, HostReadByte).cursor)
           == s.log + Window(s, s.cursor))
  {
    StartInv(ring, data);
    RunKeeps(ring, data, Start(ring, data), run);
    var s := Run(Start(ring, data), run);
    assert Ordered(s);
    hide Run, EnabledRun, Inv;
    if Enabled(s, CopyByte) {
      CopyKeepsWindow(s, s.rd);
      CopyKeepsWindow(s, s.cursor);
    }
    if Enabled(s, HostReadByte) {
      FirstUnread(s);
      ReadJoins(s.log, s.bytes[s.cursor], Window(s, Advance(s.cursor, 1, |s.bytes|)));
    }
  }

  lemma ReadJoins(log: seq<byte>, b: byte, rest: seq<byte>)
    ensures (log + [b]) + rest == log + ([b] + rest)
  {
  }

  // ---------------------------------------------------------------- progress

  /** Within a round only the published offset ends it: the round's size and the unwritten bytes
      stay as sampled, whatever the host does. */
  lemma {:induction false} WithinRound(s: State, run: seq<Action>)
    requires s.phase.Copying? && EnabledRun(s, run) && Publish !in run
    ensures var t := Run(s, run); t.phase.Copying? && t.phase.n == s.phase.n && t.todo == s.todo
    decreases |run|
  {
    if run != [] {
      WithinRound(Step(s, run[0]), run[1..]);
    }
  }

  lemma {:induction false} RunConcat(s: State, a: seq<Action>, b: seq<Action>)
    requires EnabledRun(s, a + b)
    ensures EnabledRun(s, a) && EnabledRun(Run(s, a), b) && Run(s, a + b) == Run(Run(s, a), b)
    decreases |a|
  {
    if a == [] {
      assert a + b == b;
    } else {
      assert (a + b)[1..] == a[1..] + b;
      RunConcat(Step(s, a[0]), a[1..], b);
    }
  }

  /** Every round that samples free space makes the unwritten bytes fewer, by the size of the
      round, in every interleaving; a round that samples a full ring leaves them alone. */
  lemma RoundProgress(ring: Ring, data: seq<byte>, s: State, between: seq<Action>)
    requires ring.Valid() && Inv(ring, data, s) && Publish !in between
    requires EnabledRun(s, [Sample] + between + [Publish])
    ensures var t := Run(s, [Sample] + between + [Publish]);
      var free := Ring(s.bytes, s.wr, s.rd).Free();
      && (free > 0 ==> |t.todo| < |s.todo|) && (free == 0 ==> t.todo == s.todo)
      && t.todo == s.todo[RoundSize(|s.bytes|, s.wr, s.rd, |s.todo|)..]
  {
    RunConcat(s, [Sample] + between, [Publish]);
    RunConcat(s, [Sample], between);
    var s1 := Run(s, [Sample]);
    assert s1 == Run(Step(s, Sample), []);
    RoundFits(|s.bytes|, s.wr, s.rd, |s.todo|);
    WithinRound(s1, between);
    var s2 := Run(s1, between);
    assert Run(s2, [Publish]) == Run(Step(s2, Publish), []);
  }

  /** A step towards the end: the host catches up, then the target goes on. */
  function Towards(s: State): Action {
    if s.cursor != s.seen then HostReadByte
    else if s.seen != s.wr then HostLook
    else if s.rd != s.cursor then HostRelease
    else if s.phase.Sampling? then Sample
    else if s.phase.k < s.phase.n then CopyByte
    else Publish
  }

  function Rank(s: State): int {
    if s.cursor != s.seen then 0
    else if s.seen != s.wr then 1
    else if s.rd != s.cursor then |s.bytes| + 5
    else if s.phase.Sampling? then |s.bytes| + 3
    else if s.phase.n == 0 then |s.bytes| + 4
    else 2 + s.phase.n - s.phase.k
  }

  predicate Delivered(all: seq<byte>, s: State) {
    s.todo == [] && s.phase.Sampling? && s.log == all && s.rd == s.wr
  }

  lemma TowardsWorks(all: seq<byte>, s: State)
    requires Ordered(s) && Conserved(all, s) && !Delivered(all, s) && |s.bytes| > 1
    ensures Enabled(s, Towards(s)) && |s.log| <= |all| && 0 <= Rank(s)
    ensures var t := Step(s, Towards(s)); |t.log| > |s.log| || (t.log == s.log && Rank(t) < Rank(s))
  {
    assert |s.log + Window(s, s.cursor) + s.todo| == |all|;
    if s.cursor == s.seen == s.wr == s.rd && s.phase.Sampling? {
      assert s.log + [] + s.todo == all;
      RoundFits(|s.bytes|, s.wr, s.rd, |s.todo|);
    }
  }

  /** From every state of every run, some interleaving finishes the write and delivers the whole
      stream to the host, if the ring can hold a byte at all. */
  lemma {:induction false} CanFinish(ring: Ring, data: seq<byte>, s: State) returns (run: seq<Action>)
    requires ring.Valid() && Inv(ring, data, s) && |ring.bytes| > 1
    ensures EnabledRun(s, run) && Delivered(ring.Content() + data, Run(s, run))
    decreases |ring.Content() + data| - |s.log|, Rank(s)
  {
    var all := ring.Content() + data;
    if Delivered(all, s) {
      return [];
    }
    assert |s.bytes| == |ring.bytes| && Ordered(s) && Conserved(all, s);
    TowardsWorks(all, s);
    StepKeeps(ring, data, s, Towards(s));
    hide Inv, Rank, Towards, Step, Delivered, Put;
    var a, t := Towards(s), Step(s, Towards(s));
    assert |t.log| <= |all| by {
      LogWithin(ring, data, t);
    }
    var rest := CanFinish(ring, data, t);
    run := [a] + rest;
    assert run[1..] == rest;
  }

  lemma LogWithin(ring: Ring, data: seq<byte>, s: State)
    requires ring.Valid() && Inv(ring, data, s)
    ensures |s.log| <= |ring.Content() + data|
  {
    assert |s.log + Window(s, s.cursor) + s.todo| == |ring.Content() + data|;
  }

  /** A ring of size 1 never takes a byte. */
  lemma {:induction false} SizeOneNeverWrites(s: State, run: seq<Action>)
    requires |s.bytes| == 1 && Ordered(s) && EnabledRun(s, run)
    ensures Run(s, run).todo == s.todo
    decreases |run|
  {
    if run != [] {
      StepOrders(s, run[0]);
      assert Step(s, run[0]).todo == s.todo;
      SizeOneNeverWrites(Step(s, run[0]), run[1..]);
    }
  }
}
