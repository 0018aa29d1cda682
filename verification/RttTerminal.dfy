/** Terminals multiplexed over channel 0: SEGGER_RTT_SetTerminal and SEGGER_RTT_TerminalOut, and
    the host that takes the stream apart again. */
module RttTerminal {
  import opened Bytes
  import opened Common
  import opened RttBuffer
  import opened RttRing

  const ESCAPE: byte := 0xFF

  /** `_aTerminalId`: the digits '0' to '9' and 'A' to 'F'. */
  function TerminalChar(id: nat): byte
    requires id < 16
  {
    if id < 10 then 48 + id else 55 + id
  }

  /** The bytes that switch to a terminal. */
  function Switch(id: nat): seq<byte>
    requires id < 16
  {
    [ESCAPE, TerminalChar(id)]
  }

  predicate Plain(text: seq<byte>) {
    ESCAPE !in text
  }

  // ---------------------------------------------------------------- the host's side

  /** A host on terminal `current`, which may be in the middle of a switch. */
  datatype Reader = Reader(current: nat, escaped: bool)

  function TerminalOf(c: byte): nat {
    if 48 <= c < 58 then c - 48 else if 65 <= c < 71 then c - 55 else 0
  }

  function Read(r: Reader, s: seq<byte>): Reader
    decreases |s|
  {
    if s == [] then r
    else Read(if r.escaped then Reader(TerminalOf(s[0]), false)
              else if s[0] == ESCAPE then r.(escaped := true)
              else r, s[1..])
  }

  /** What the reader shows: each text byte with the terminal it goes to. */
  function Shown(r: Reader, s: seq<byte>): seq<(nat, byte)>
    decreases |s|
  {
    if s == [] then []
    else if r.escaped then Shown(Reader(TerminalOf(s[0]), false), s[1..])
    else if s[0] == ESCAPE then Shown(r.(escaped := true), s[1..])
    else [(r.current, s[0])] + Shown(r, s[1..])
  }

  function On(terminal: nat, text: seq<byte>): seq<(nat, byte)> {
    seq(|text|, i requires 0 <= i < |text| => (terminal, text[i]))
  }

  lemma {:induction false} ReadConcat(r: Reader, a: seq<byte>, b: seq<byte>)
    ensures Read(r, a + b) == Read(Read(r, a), b)
    ensures Shown(r, a + b) == Shown(r, a) + Shown(Read(r, a), b)
    decreases |a|
  {
    if a == [] {
      assert a + b == b;
    } else {
      assert (a + b)[1..] == a[1..] + b;
      var r' := if r.escaped then Reader(TerminalOf(a[0]), false)
                else if a[0] == ESCAPE then r.(escaped := true) else r;
      ReadConcat(r', a[1..], b);
    }
  }

  lemma {:induction false} ReadPlain(terminal: nat, text: seq<byte>)
    requires Plain(text)
    ensures Read(Reader(terminal, false), text) == Reader(terminal, false)
    ensures Shown(Reader(terminal, false), text) == On(terminal, text)
    decreases |text|
  {
    if text != [] {
      ReadPlain(terminal, text[1..]);
      assert On(terminal, text) == [(terminal, text[0])] + On(terminal, text[1..]);
    }
  }

  lemma ReadSwitch(terminal: nat, id: nat)
    requires id < 16
    ensures Read(Reader(terminal, false), Switch(id)) == Reader(id, false)
    ensures Shown(Reader(terminal, false), Switch(id)) == []
  {
    var s, on, escaped := Switch(id), Reader(terminal, false), Reader(terminal, true);
    assert s[1..] == [TerminalChar(id)] && s[1..][1..] == [];
    assert Read(on, s) == Read(escaped, s[1..]) == Read(Reader(id, false), []);
    assert Shown(on, s) == Shown(escaped, s[1..]) == Shown(Reader(id, false), []);
  }

  /** Text between a switch to one terminal and a switch to another. */
  lemma ReadBracketed(terminal: nat, id: nat, text: seq<byte>, back: nat)
    requires id < 16 && back < 16 && Plain(text)
    ensures Read(Reader(terminal, false), Switch(id) + text + Switch(back)) == Reader(back, false)
    ensures Shown(Reader(terminal, false), Switch(id) + text + Switch(back)) == On(id, text)
  {
    ReadSwitch(terminal, id);
    ReadPlain(id, text);
    ReadSwitch(id, back);
    ReadConcat(Reader(terminal, false), Switch(id), text);
    ReadConcat(Reader(terminal, false), Switch(id) + text, Switch(back));
  }

  // ---------------------------------------------------------------- the calls

  datatype Call =
    | SetTerminal(id: byte)
    | TerminalOut(id: byte, text: seq<byte>)
    | Write(text: seq<byte>)
  {
    function Text(): seq<byte> {
      if this.SetTerminal? then [] else text
    }
  }

  /** The mode bits of the flags of a buffer. */
  function Mode(flags: nat): (m: nat)
    ensures m < 4
  {
    flags % 4
  }

  /** A call is made with `free` bytes free and terminal `active`: what it posts, whether it is
      carried out, and the terminal that is active afterwards. */
  datatype Effect = Effect(posted: seq<byte>, result: int, active: nat)

  function TextPosted(flags: nat, free: nat, text: seq<byte>): (t: seq<byte>)
    ensures t <= text
  {
    if Mode(flags) == MODE_NO_BLOCK_TRIM && |text| >= free - 4 >= 0 then text[..free - 4] else text
  }

  function EffectOf(call: Call, flags: nat, free: nat, active: nat): (e: Effect)
    requires active < 16
    ensures e.active < 16 && e.result <= |call.Text()|
  {
    match call
    case SetTerminal(id) =>
      if id < 16 && (Mode(flags) == MODE_BLOCK_IF_FIFO_FULL || free >= 2) then Effect(Switch(id), 0, id)
      else Effect([], -1, active)
    case TerminalOut(id, text) =>
      if id >= 16 || Mode(flags) > MODE_BLOCK_IF_FIFO_FULL then Effect([], -1, active)
      else if Mode(flags) == MODE_NO_BLOCK_SKIP && free < |text| + 4 then Effect([], 0, active)
      else if Mode(flags) == MODE_NO_BLOCK_TRIM && free < 4 then Effect([], -1, active)
      else
        var sent := TextPosted(flags, free, text);
        Effect(Switch(id) + sent + Switch(active), |sent|, active)
    case Write(text) =>
      var n := Accepted(flags, free, |text|);
      Effect(text[..n], n, active)
  }

  /** The text a call puts on a terminal, by the terminal its caller named. */
  function Named(call: Call, flags: nat, free: nat, active: nat): seq<(nat, byte)>
    requires active < 16
  {
    var result := EffectOf(call, flags, free, active).result;
    if result < 0 then []
    else On(if call.TerminalOut? then call.id else active, call.Text()[..result])
  }

  /** A reader on the active terminal sees a call's text on the terminal the caller named, and is
      on the active terminal again afterwards. */
  lemma CallAttributed(call: Call, flags: nat, free: nat, active: nat)
    requires active < 16 && Plain(call.Text())
    ensures var e := EffectOf(call, flags, free, active);
            && Read(Reader(active, false), e.posted) == Reader(e.active, false)
            && Shown(Reader(active, false), e.posted) == Named(call, flags, free, active)
  {
    var e := EffectOf(call, flags, free, active);
    match call
    case SetTerminal(id) =>
      if e.result == 0 {
        ReadSwitch(active, id);
      }
    case TerminalOut(id, text) =>
      if e.posted != [] {
        var sent := TextPosted(flags, free, text);
        ReadBracketed(active, id, sent, active);
      } else {
        assert On(id, text[..0]) == [];
      }
    case Write(text) =>
      ReadPlain(active, text[..e.result]);
  }

  // ---------------------------------------------------------------- what a call comes to

  /** The bytes of a switch: 0xFF and the digit of the terminal, from '0' to '9' and 'A' to 'F'. */
  lemma SwitchIs(id: nat)
    requires id < 16
    ensures Switch(id) == [0xFF, "0123456789ABCDEF"[id] as int]
  {
  }

  /** What `SEGGER_RTT_TerminalOut` shows and returns. With flags 0 all of the text on its terminal
      or nothing, by whether text and two switches fit; with flags 1 as much of it as fits between the
      switches; with flags 2 all of it. The result is the number of bytes shown. */
  lemma TerminalOutShows(id: byte, text: seq<byte>, flags: nat, free: nat, active: nat)
    requires active < 16 && Plain(text)
    ensures var e := EffectOf(Call.TerminalOut(id, text), flags, free, active);
            var shown := Shown(Reader(active, false), e.posted);
      && e.active == active
      && Read(Reader(active, false), e.posted) == Reader(active, false)
      && (e.result >= 0 ==> |shown| == e.result)
      && (id >= 16 || flags % 4 == 3 ==> e.posted == [] && e.result == -1)
      && (id < 16 && flags % 4 == 0 ==>
            if |text| + 4 <= free then shown == On(id, text) && |e.posted| == |text| + 4 else e.posted == [] && e.result == 0)
      && (id < 16 && flags % 4 == 1 ==>
            if free < 4 then e.posted == [] && e.result == -1
            else
              var n := if |text| < free - 4 then |text| else free - 4;
              shown == On(id, text[..n]) && |e.posted| == n + 4)
      && (id < 16 && flags % 4 == 2 ==> shown == On(id, text) && |e.posted| == |text| + 4)
  {
    var e := EffectOf(Call.TerminalOut(id, text), flags, free, active);
    if e.posted != [] {
      var sent := TextPosted(flags, free, text);
      ReadBracketed(active, id, sent, active);
      assert text[..|text|] == text;
    }
  }

  /** `SEGGER_RTT_SetTerminal` takes effect exactly for a terminal there is when the switch fits or
      can wait; nothing is posted otherwise. */
  lemma SetTerminalShows(id: byte, flags: nat, free: nat, active: nat)
    requires active < 16
    ensures var e := EffectOf(Call.SetTerminal(id), flags, free, active);
      && Shown(Reader(active, false), e.posted) == []
      && if id < 16 && (flags % 4 == 2 || free >= 2)
         then e.result == 0 && e.active == id && Read(Reader(active, false), e.posted) == Reader(id, false) && |e.posted| == 2
         else e.result == -1 && e.active == active && e.posted == []
  {
    if id < 16 {
      ReadSwitch(active, id);
    }
  }

  /** A plain write shows all of its text or nothing with flags 0, the prefix that fits with flags 1,
      and all of it with flags 2, on the active terminal. */
  lemma WriteShows(text: seq<byte>, flags: nat, free: nat, active: nat)
    requires active < 16 && Plain(text)
    ensures var e := EffectOf(Call.Write(text), flags, free, active);
            var n := if flags == 2 then |text|
                     else if flags == 1 then if |text| < free then |text| else free
                     else if flags == 0 && |text| <= free then |text| else 0;
      && e.posted == text[..n] && e.result == n && e.active == active
      && Shown(Reader(active, false), e.posted) == On(active, text[..n])
  {
    ReadPlain(active, EffectOf(Call.Write(text), flags, free, active).posted);
  }

  // ---------------------------------------------------------------- runs

  /** A call in a run, made when the ring has `free` free bytes. */
  datatype Made = Made(call: Call, free: nat)

  function Stream(run: seq<Made>, flags: nat, active: nat): seq<byte>
    requires active < 16
    decreases |run|
  {
    if run == [] then []
    else
      var e := EffectOf(run[0].call, flags, run[0].free, active);
      e.posted + Stream(run[1..], flags, e.active)
  }

  function ActiveAfter(run: seq<Made>, flags: nat, active: nat): nat
    requires active < 16
    decreases |run|
  {
    if run == [] then active
    else
      var e := EffectOf(run[0].call, flags, run[0].free, active);
      ActiveAfter(run[1..], flags, e.active)
  }

  function AllNamed(run: seq<Made>, flags: nat, active: nat): seq<(nat, byte)>
    requires active < 16
    decreases |run|
  {
    if run == [] then []
    else
      var e := EffectOf(run[0].call, flags, run[0].free, active);
      Named(run[0].call, flags, run[0].free, active)
      + AllNamed(run[1..], flags, e.active)
  }

  /** Over every run of calls, whatever space each of them finds, the reader ends on the active
      terminal and has shown every text byte on the terminal its caller named. */
  lemma {:induction false} RunAttributed(run: seq<Made>, flags: nat, active: nat)
    requires active < 16 && forall i :: 0 <= i < |run| ==> Plain(run[i].call.Text())
    ensures Read(Reader(active, false), Stream(run, flags, active)) == Reader(ActiveAfter(run, flags, active), false)
    ensures Shown(Reader(active, false), Stream(run, flags, active)) == AllNamed(run, flags, active)
    decreases |run|
  {
    if run != [] {
      var e := EffectOf(run[0].call, flags, run[0].free, active);
      CallAttributed(run[0].call, flags, run[0].free, active);
      RunAttributed(run[1..], flags, e.active);
      ReadConcat(Reader(active, false), e.posted, Stream(run[1..], flags, e.active));
    }
  }

  /** One call more. */
  lemma {:induction false} RunSnoc(run: seq<Made>, m: Made, flags: nat, active: nat)
    requires active < 16
    ensures ActiveAfter(run, flags, active) < 16
    ensures var e := EffectOf(m.call, flags, m.free, ActiveAfter(run, flags, active));
      && Stream(run + [m], flags, active) == Stream(run, flags, active) + e.posted
      && ActiveAfter(run + [m], flags, active) == e.active
    decreases |run|
  {
    hide EffectOf;
    if run == [] {
      assert run + [m] == [m] && [m][1..] == [];
      var posted := EffectOf(m.call, flags, m.free, active).posted;
      assert posted + [] == [] + posted;
    } else {
      assert (run + [m])[1..] == run[1..] + [m];
      RunSnoc(run[1..], m, flags, EffectOf(run[0].call, flags, run[0].free, active).active);
    }
  }

  /** The space the calls of a run found: what was free at first, less what was posted, and more by
      what the host had read by then. */
  ghost predicate Found(run: seq<Made>, taken: seq<nat>, flags: nat, active: nat, free: nat)
    requires active < 16
  {
    |taken| == |run| && forall i :: 0 <= i < |run| ==> run[i].free == free - |Stream(run[..i], flags, active)| + taken[i]
  }

  lemma FoundSnoc(run: seq<Made>, taken: seq<nat>, m: Made, got: nat, flags: nat, active: nat, free: nat)
    requires active < 16 && Found(run, taken, flags, active, free)
    requires m.free == free - |Stream(run, flags, active)| + got
    ensures Found(run + [m], taken + [got], flags, active, free)
  {
    var more := run + [m];
    forall i | 0 <= i < |more| ensures more[i].free == free - |Stream(more[..i], flags, active)| + (taken + [got])[i] {
      if i < |run| {
        assert more[..i] == run[..i];
      } else {
        assert more[..i] == run;
      }
    }
  }

  // ---------------------------------------------------------------- the calls in place

  class Channel {
    const ring: Buffer
    var activeTerminal: nat

    ghost predicate Valid()
      reads this, ring, ring.buf
    {
      ring.Valid() && activeTerminal < 16
    }

    constructor (size: nat, flags: nat)
      requires 0 < size < 0x1_0000_0000
      ensures Valid() && fresh(ring) && fresh(ring.buf) && activeTerminal == 0
      ensures ring.flags == flags && ring.Now().Content() == []
    {
      ring := new Buffer(size, flags);
      activeTerminal := 0;
    }

    /** `SEGGER_RTT_SetTerminal`. */
    method SetTerminal(id: byte, host: seq<nat>) returns (r: int, ghost drained: seq<byte>, waiting: bool)
      requires Valid()
      modifies this, ring`wrOff, ring`rdOff, ring.buf
      ensures Valid()
      ensures waiting ==> Mode(ring.flags) == MODE_BLOCK_IF_FIFO_FULL
      ensures !waiting ==> var e := EffectOf(Call.SetTerminal(id), ring.flags, old(ring.Now().Free()), old(activeTerminal));
        && r == e.result && activeTerminal == e.active
        && Posted(old(ring.Now()), ring.Now(), e.posted, drained)
    {
      ghost var s := ring.Now();
      PostedNothing(s);
      r, drained, waiting := 0, [], false;
      if id < 16 {
        var ac := Switch(id);
        if Mode(ring.flags) == MODE_BLOCK_IF_FIFO_FULL {
          activeTerminal := id;
          var n;
          n, drained, waiting := ring.WriteBlocking(ac, host);
          assert ac[..2] == ac;
        } else {
          var avail := ring.GetAvailWriteSpace();
          if avail >= 2 {
            activeTerminal := id;
            PostMore(s, s, [], [], ac);
            assert [] + ac == ac;
            ring.WriteNoCheck(ac);
          } else {
            r := -1;
          }
        }
      } else {
        r := -1;
      }
    }

    /** A blocking write of all of `piece`, behind `done` that is posted already. */
    method Post(ghost s: Ring, ghost done: seq<byte>, ghost drained: seq<byte>, piece: seq<byte>, host: seq<nat>)
      returns (n: nat, ghost drained': seq<byte>, waiting: bool)
      requires Valid() && Posted(s, ring.Now(), done, drained)
      modifies ring`wrOff, ring`rdOff, ring.buf
      ensures Valid()
      ensures |done| + |piece| <= s.Free() ==> !waiting
      ensures !waiting ==> n == |piece| && Posted(s, ring.Now(), done + piece, drained')
    {
      hide Put, Ring.Content;
      ghost var t, more := ring.Now(), [];
      PostedFree(s, t, done, drained);
      drained' := drained;
      n, more, waiting := ring.WriteBlocking(piece, host);
      if !waiting {
        assert piece[..n] == piece;
        PostedThen(s, t, ring.Now(), done, piece, drained, more);
        drained' := drained + more;
      }
    }

    /** `_PostTerminalSwitch`, the text, and `_PostTerminalSwitch` back, each a blocking write. */
    method WriteBracketed(id: nat, text: seq<byte>, host: seq<seq<nat>>)
      returns (status: nat, ghost drained: seq<byte>, waiting: bool)
      requires Valid() && id < 16 && |host| == 3
      modifies ring`wrOff, ring`rdOff, ring.buf
      ensures Valid()
      ensures |text| + 4 <= old(ring.Now().Free()) ==> !waiting
      ensures !waiting ==>
        status == |text| && Posted(old(ring.Now()), ring.Now(), Switch(id) + text + Switch(activeTerminal), drained)
    {
      ghost var s := ring.Now();
      PostedNothing(s);
      assert |Switch(id)| == 2 && |Switch(activeTerminal)| == 2 && [] + Switch(id) == Switch(id);
      hide *;
      var n;
      n, drained, waiting := Post(s, [], [], Switch(id), host[0]);
      if waiting {
        return 0, drained, true;
      }
      status, drained, waiting := Post(s, Switch(id), drained, text, host[1]);
      if waiting {
        return;
      }
      n, drained, waiting := Post(s, Switch(id) + text, drained, Switch(activeTerminal), host[2]);
    }

    /** `SEGGER_RTT_TerminalOut` with a string of length `|text|` in memory. */
    method TerminalOut(id: byte, text: seq<byte>, host: seq<seq<nat>>)
      returns (status: int, ghost drained: seq<byte>, waiting: bool)
      requires Valid() && |host| == 3
      requires |text| + 4 < 0x1_0000_0000
      modifies ring`wrOff, ring`rdOff, ring.buf
      ensures Valid()
      ensures waiting ==> Mode(ring.flags) == MODE_BLOCK_IF_FIFO_FULL
      ensures !waiting ==> var e := EffectOf(Call.TerminalOut(id, text), ring.flags, old(ring.Now().Free()), activeTerminal);
        && status == e.result && activeTerminal == e.active
        && Posted(old(ring.Now()), ring.Now(), e.posted, drained)
    {
      ghost var s := ring.Now();
      PostedNothing(s);
      status, drained, waiting := -1, [], false;
      if id < 16 {
        var mode := Mode(ring.flags);
        var avail := ring.GetAvailWriteSpace();
        if mode == MODE_NO_BLOCK_SKIP {
          if avail < |text| + 4 {
            status := 0;
          } else {
            status, drained, waiting := WriteBracketed(id, text, host);
          }
        } else if mode == MODE_NO_BLOCK_TRIM {
          if avail >= 4 {
            var sent := if |text| < avail - 4 then text else text[..Min(|text|, avail - 4)];
            assert sent == TextPosted(ring.flags, avail, text);
            status, drained, waiting := WriteBracketed(id, sent, host);
          }
        } else if mode == MODE_BLOCK_IF_FIFO_FULL {
          status, drained, waiting := WriteBracketed(id, text, host);
        }
      }
    }

    /** A plain write to channel 0. */
    method Write(text: seq<byte>, host: seq<nat>) returns (status: nat, ghost drained: seq<byte>, waiting: bool)
      requires Valid()
      modifies ring`wrOff, ring`rdOff, ring.buf
      ensures Valid()
      ensures waiting ==> ring.flags == MODE_BLOCK_IF_FIFO_FULL
      ensures !waiting ==> var e := EffectOf(Call.Write(text), ring.flags, old(ring.Now().Free()), activeTerminal);
        && status == e.result && activeTerminal == e.active
        && Posted(old(ring.Now()), ring.Now(), e.posted, drained)
    {
      status, drained, waiting := ring.WriteNoLock(text, host);
    }

    /** Any one of the calls. */
    method Make(s: Scheduled) returns (r: int, ghost drained: seq<byte>, waiting: bool)
      requires Valid() && s.Valid()
      modifies this, ring`wrOff, ring`rdOff, ring.buf
      ensures Valid()
      ensures waiting ==> Mode(ring.flags) == MODE_BLOCK_IF_FIFO_FULL
      ensures !waiting ==> var e := EffectOf(s.call, ring.flags, old(ring.Now().Free()), old(activeTerminal));
        && r == e.result && activeTerminal == e.active
        && Posted(old(ring.Now()), ring.Now(), e.posted, drained)
    {
      match s.call
      case SetTerminal(id) => r, drained, waiting := SetTerminal(id, s.host[0]);
      case TerminalOut(id, text) => r, drained, waiting := TerminalOut(id, text, s.host);
      case Write(text) => r, drained, waiting := Write(text, s.host[0]);
    }

    /** Calls one after the other, as long as none waits for ever. A reader that has followed the
        channel so far, and is on its active terminal, takes in everything they put into the ring:
        it shows every byte on the terminal its caller named, and is on the active terminal at the
        end. */
    method MakeAll(calls: seq<Scheduled>, ghost reader: Reader)
      returns (ghost run: seq<Made>, ghost taken: seq<nat>, ghost drained: seq<byte>, waiting: bool)
      requires Valid() && forall i :: 0 <= i < |calls| ==> calls[i].Valid()
      requires Read(reader, ring.Now().Content()) == Reader(activeTerminal, false)
      modifies this, ring`wrOff, ring`rdOff, ring.buf
      ensures Valid()
      ensures waiting ==> Mode(ring.flags) == MODE_BLOCK_IF_FIFO_FULL
      ensures !waiting ==>
        && |run| == |calls| && (forall i :: 0 <= i < |calls| ==> run[i].call == calls[i].call)
        && Found(run, taken, ring.flags, old(activeTerminal), old(ring.Now().Free()))
        && Read(reader, drained + ring.Now().Content()) == Reader(activeTerminal, false)
        && Shown(reader, drained + ring.Now().Content())
        == Shown(reader, old(ring.Now().Content())) + AllNamed(run, ring.flags, old(activeTerminal))
    {
      ghost var first, active, flags := ring.Now(), activeTerminal, ring.flags;
      PostedNothing(first);
      run, taken, drained, waiting := [], [], [], false;
      assert Stream(run, flags, active) == [];
      var i := 0;
      hide *;
      assert Found(run, taken, flags, active, first.Free()) && ActiveAfter(run, flags, active) == active;
      while i < |calls|
        invariant 0 <= i <= |calls| && Valid() && ring.flags == flags && active < 16
        invariant |run| == i && forall k :: 0 <= k < i ==> run[k].call == calls[k].call
        invariant activeTerminal == ActiveAfter(run, flags, active)
        invariant Posted(first, ring.Now(), Stream(run, flags, active), drained)
        invariant Found(run, taken, flags, active, first.Free())
      {
        ghost var s := ring.Now();
        PostedFree(first, s, Stream(run, flags, active), drained);
        ghost var m := Made(calls[i].call, s.Free());
        RunSnoc(run, m, flags, active);
        FoundSnoc(run, taken, m, |drained|, flags, active, first.Free());
        var r;
        ghost var more;
        r, more, waiting := Make(calls[i]);
        if waiting {
          return;
        }
        PostedThen(first, s, ring.Now(), Stream(run, flags, active),
                   EffectOf(m.call, flags, m.free, ActiveAfter(run, flags, active)).posted, drained, more);
        run, taken, drained := run + [m], taken + [|drained|], drained + more;
        i := i + 1;
      }
      ReadRun(reader, first, ring.Now(), run, flags, active, drained);
    }
  }

  /** What a reader makes of everything a run put into the ring. */
  lemma ReadRun(reader: Reader, s: Ring, t: Ring, run: seq<Made>, flags: nat, active: nat, drained: seq<byte>)
    requires active < 16 && Posted(s, t, Stream(run, flags, active), drained)
    requires Read(reader, s.Content()) == Reader(active, false)
    requires forall i :: 0 <= i < |run| ==> Plain(run[i].call.Text())
    ensures t.Valid()
    ensures Read(reader, drained + t.Content()) == Reader(ActiveAfter(run, flags, active), false)
    ensures Shown(reader, drained + t.Content()) == Shown(reader, s.Content()) + AllNamed(run, flags, active)
  {
    RunAttributed(run, flags, active);
    ReadConcat(reader, s.Content(), Stream(run, flags, active));
  }

  /** A call with what the host taken during each of its blocking writes. */
  datatype Scheduled = Scheduled(call: Call, host: seq<seq<nat>>) {
    predicate Valid() {
      |host| == 3 && Plain(call.Text()) && |call.Text()| + 4 < 0x1_0000_0000
    }
  }

  /** One blocking write after another. */
  lemma PostedThen(s: Ring, t: Ring, u: Ring, a: seq<byte>, b: seq<byte>, drained: seq<byte>, more: seq<byte>)
    requires Posted(s, t, a, drained) && Posted(t, u, b, more)
    ensures Posted(s, u, a + b, drained + more)
  {
    PutSplit(s, a, b);
    PutIgnoresRead(Put(s, a), b, t.rd);
    assert u == Put(s, a + b).(rd := u.rd);
    JoinDrained(drained, more, u.Content(), t.Content(), s.Content(), a, b);
    hide Put;
  }

  lemma JoinDrained(drained: seq<byte>, more: seq<byte>, last: seq<byte>, middle: seq<byte>, first: seq<byte>,
                    a: seq<byte>, b: seq<byte>)
    requires more + last == middle + b && drained + middle == first + a
    ensures (drained + more) + last == first + (a + b)
  {
    assert (drained + more) + last == drained + (more + last);
    assert drained + (middle + b) == (drained + middle) + b;
    assert (first + a) + b == first + (a + b);
  }
}
