/** What the parts of a descriptor and the records of a message mean to the codec: where a field lies
    in its struct, its default, the value a record leaves in it, and which inputs and structs are
    refused. */
module PbMeaning {
  import opened Common
  import opened PbBounds
  import opened PbDecoding
  import opened PbDescriptor
  import opened PbEncoding
  import opened PbFold
  import opened PbRoundTrip
  import opened PbWire
  import Format = PbFormat

  // ---------------------------------------------------------------- structs

  /** What a member takes in its struct. */
  function MemberSize(f: Field): int {
    if f.htype.Repeated? then f.dataSize * f.arraySize else f.dataSize
  }

  /** The row whose member the descriptor macros take for the one before row `i`: the row before it,
      or before its union. `union` names the union of each row that is in one. */
  function Before(fields: seq<Field>, union: seq<nat>, i: nat): (p: Option<nat>)
    requires i < |fields| == |union|
    ensures p.Some? ==> p.value < i
  {
    if i == 0 then None
    else if fields[i - 1].htype.Oneof? && fields[i].htype.Oneof? && union[i - 1] == union[i] then Before(fields, union, i - 1)
    else Some(i - 1)
  }

  /** The offsets of the descriptor are those the macros PB_DATAOFFSET_FIRST and PB_DATAOFFSET_OTHER
      make of the struct, whose members are at `at`. */
  predicate FromStruct(fields: seq<Field>, union: seq<nat>, at: seq<int>)
    requires |fields| == |union| == |at|
  {
    forall i :: 0 <= i < |fields| ==> RowFromStruct(fields, union, at, i)
  }

  predicate RowFromStruct(fields: seq<Field>, union: seq<nat>, at: seq<int>, i: nat)
    requires i < |fields| == |union| == |at|
  {
    fields[i].dataOffset ==
      match Before(fields, union, i)
      case None => at[i]
      case Some(p) => at[i] - at[p] - MemberSize(fields[p])
  }

  /** No union starts right behind another. */
  predicate UnionsApart(fields: seq<Field>, union: seq<nat>, n: nat)
    requires n <= |fields| == |union|
  {
    forall i :: 0 < i < n && fields[i - 1].htype.Oneof? && fields[i].htype.Oneof? ==> union[i - 1] == union[i]
  }

  /** The offset of a row from that of the row before. */
  lemma NextOffset(fields: seq<Field>, i: nat)
    requires 0 < i < |fields|
    ensures var prev, cur := fields[i - 1], fields[i];
      Addr(fields, i) == Addr(fields, i - 1) + cur.dataOffset +
        if prev.htype.Oneof? && cur.htype.Oneof? then -prev.dataOffset else MemberSize(prev)
  {
  }

  lemma FirstOffset(fields: seq<Field>)
    requires fields != []
    ensures Addr(fields, 0) == fields[0].dataOffset
  {
  }

  /** The iterator finds every member where the struct has it. */
  lemma {:induction false} OffsetsAreStruct(fields: seq<Field>, union: seq<nat>, at: seq<int>, i: nat)
    requires i < |fields| == |union| == |at| && FromStruct(fields, union, at) && UnionsApart(fields, union, i + 1)
    ensures Addr(fields, i) == at[i]
    decreases i
  {
    hide Addr, DataOffset, MemberSize;
    if i == 0 {
      assert RowFromStruct(fields, union, at, 0);
      FirstOffset(fields);
    } else {
      OffsetsAreStruct(fields, union, at, i - 1);
      NextOffset(fields, i);
      assert RowFromStruct(fields, union, at, i - 1) && RowFromStruct(fields, union, at, i);
      if fields[i - 1].htype.Oneof? && fields[i].htype.Oneof? {
        assert union[i - 1] == union[i];
        assert Before(fields, union, i) == Before(fields, union, i - 1);
      }
    }
  }

  lemma BehindOther(fields: seq<Field>, union: seq<nat>, at: seq<int>, i: nat)
    requires 0 < i < |fields| == |union| == |at| && FromStruct(fields, union, at) && union[i - 1] != union[i]
    ensures fields[i].dataOffset == at[i] - at[i - 1] - MemberSize(fields[i - 1])
  {
    assert RowFromStruct(fields, union, at, i);
    hide MemberSize;
  }

  lemma OneMember(f: Field)
    requires !f.htype.Repeated?
    ensures MemberSize(f) == f.dataSize
  {
  }

  /** Where one union starts right behind another, the iterator takes the two for one: it is right
      there only if the first union's member ends where its offset is counted from. */
  lemma UnionBehindUnion(fields: seq<Field>, union: seq<nat>, at: seq<int>, i: nat)
    requires 0 < i < |fields| == |union| == |at| && FromStruct(fields, union, at) && UnionsApart(fields, union, i)
    requires fields[i - 1].htype.Oneof? && fields[i].htype.Oneof? && union[i - 1] != union[i]
    ensures Addr(fields, i) == at[i] - (fields[i - 1].dataOffset + fields[i - 1].dataSize)
  {
    BehindOther(fields, union, at, i);
    hide *;
    OneMember(fields[i - 1]);
    OffsetsAreStruct(fields, union, at, i - 1);
    NextOffset(fields, i);
  }

  // ---------------------------------------------------------------- defaults

  /** A value nobody has set: what the descriptor gives, or zero, nothing, or an unset submessage. */
  ghost predicate ValUnset(f: Field, v: Val)
    decreases f, 0
  {
    if f.ltype.Submessage? then v.Struct? && Unset(f.sub, v.cells)
    else if f.dflt.Some? then f.dflt == Some(v)
    else if f.ltype.Bytes? || f.ltype.String? then v == Blob([])
    else v == Num(0)
  }

  /** A message nobody has set: optional fields are absent, arrays empty, unions without a member. */
  ghost predicate Unset(fields: seq<Field>, msg: Msg)
    decreases fields, 1
  {
    forall i :: 0 <= i < |fields| ==> Addr(fields, i) in msg && RowUnset(fields[i], msg[Addr(fields, i)])
  }

  ghost predicate RowUnset(f: Field, slot: Slot)
    decreases f, 1
  {
    match f.htype
    case Required => slot.Single? && ValUnset(f, slot.v)
    case Optional => slot.Opt? && !slot.has && ValUnset(f, slot.v)
    case Repeated => slot == Rep([])
    case Oneof => slot == OneofNone
  }

  /** `pb_message_set_to_defaults` leaves every field of a message unset, at every depth. */
  lemma {:induction false} DefaultsUnset(fields: seq<Field>)
    requires WellFormed(fields)
    ensures Unset(fields, Defaults(fields))
    decreases fields, 2
  {
    forall i | 0 <= i < |fields|
      ensures Addr(fields, i) in Defaults(fields) && RowUnset(fields[i], Defaults(fields)[Addr(fields, i)])
    {
      DefaultsHold(fields, |fields|, i);
      assert WellFormedRow(fields[i]);
      SlotUnset(fields[i]);
    }
  }

  lemma {:induction false} SlotUnset(f: Field)
    requires WellFormedRow(f)
    ensures RowUnset(f, DefaultSlot(f))
    decreases f, 1
  {
    if f.ltype.Submessage? {
      DefaultsUnset(f.sub);
    }
  }

  lemma {:induction false} DefaultsHold(fields: seq<Field>, n: nat, i: nat)
    requires i < n <= |fields| && Layout(fields)
    ensures Addr(fields, i) in DefaultsUpTo(fields, n) && DefaultsUpTo(fields, n)[Addr(fields, i)] == DefaultSlot(fields[i])
    decreases n
  {
    if i < n - 1 {
      DefaultsHold(fields, n - 1, i);
      if Addr(fields, i) == Addr(fields, n - 1) {
        assert fields[i].htype.Oneof? && fields[n - 1].htype.Oneof?;
      }
      hide DefaultSlot, Addr;
      UnionDefaults(fields[i], fields[n - 1]);
    }
  }

  lemma UnionDefaults(f: Field, g: Field)
    ensures f.htype.Oneof? && g.htype.Oneof? ==> DefaultSlot(f) == DefaultSlot(g)
  {
  }

  // ---------------------------------------------------------------- values on the wire

  /** A varint of a record is decoded exactly as the number it denotes in its field's range, and
      rejected when that is none. */
  lemma VarintDecodes(f: Field, prior: Val, p: seq<byte>, u: nat, n: int)
    requires f.ltype in {Varint, UVarint, SVarint} && f.dataSize in {1, 2, 4, 8}
    requires Format.IsVarint(p, u) && |p| <= 10 && u < 0x1_0000_0000_0000_0000
    ensures DecVal(f, prior, p) == Ok(Num(n), [], Exact) <==> FitsNumber(f, Num(n)) && Denotes(f, u, n)
    ensures DecVal(f, prior, p).Fail? || exists m :: DecVal(f, prior, p) == Ok(Num(m), [], Exact)
  {
    Format.VarintReads(p, 10);
    assert p[..|p|] == p && p[|p|..] == [];
    VarintAccepted(f, u, n);
    assert Varint64(p) == Ok(u, [], Exact);
    hide VarintFrom, Varint64, CheckNumber, FitsNumber, Denotes;
  }

  lemma {:induction false} FixedIsLittleEndian(s: seq<byte>)
    ensures FixedValue(s) == Format.LittleEndian(s)
  {
    if s != [] {
      FixedIsLittleEndian(s[1..]);
    }
  }

  /** A fixed width number is little-endian. */
  lemma FixedDecodes(f: Field, prior: Val, p: seq<byte>)
    requires (f.ltype.Fixed32? && |p| == 4) || (f.ltype.Fixed64? && |p| == 8)
    ensures DecVal(f, prior, p) == Ok(Num(Format.LittleEndian(p)), [], Exact)
  {
    FixedIsLittleEndian(p);
    assert p[..|p|] == p && p[|p|..] == [];
  }

  // ---------------------------------------------------------------- one record after another

  /** The decoder looks at the wire type only to tell a packed array from an entry. */
  lemma WireTypeIgnored(f: Field, wt: nat, wt': nat, slot: Slot, s: seq<byte>)
    requires f.htype.Repeated? && Packable(f.ltype) ==> wt != 2 && wt' != 2
    ensures DecField(f, wt, slot, s) == DecField(f, wt', slot, s)
  {
    hide DecVal, Substream, DecPacked, OldVal, Items, Filled;
  }

  /** The slot after a value of a row: present, named, or at the end of its array. */
  function With(f: Field, slot: Slot, v: Val): Slot {
    match f.htype
    case Required => Single(v)
    case Optional => Opt(true, v)
    case Repeated => if slot.Rep? then Rep(slot.items + [v]) else Rep([v])
    case Oneof => OneofSet(f.tag, v)
  }

  /** A record with the key of row `i`, outside packed arrays, and the message after it. */
  lemma OneRecord(fields: seq<Field>, st: State, i: nat, wt: nat, p: seq<byte>, v: Val)
    requires DistinctTags(fields) && i < |fields| && wt < 8
    requires fields[i].htype.Repeated? ==> !(Packable(fields[i].ltype) && wt == 2)
    requires var f := fields[i];
             var slot := SlotAt(fields, st.msg, i);
             && !(f.htype.Repeated? && |Items(slot)| >= f.arraySize)
             && DecVal(f, OldVal(f, slot), p) == Ok(v, [], Exact)
    ensures var f := fields[i];
            DecRecord(fields, st, Key(wt, f.tag) + p)
              == Next(Store(fields, st, i, With(f, SlotAt(fields, st.msg, i), v)), [], Exact)
  {
    var f := fields[i];
    var slot := SlotAt(fields, st.msg, i);
    KeyRoundTrip(wt, f.tag, p);
    FindTagAt(fields, i);
    WholeField(f, wt, slot, p, v);
    RecordOf(fields, st, i, Key(wt, f.tag) + p, wt, p);
    hide *;
  }

  lemma WholeField(f: Field, wt: nat, slot: Slot, p: seq<byte>, v: Val)
    requires f.htype.Repeated? ==> !(Packable(f.ltype) && wt == 2)
    requires !(f.htype.Repeated? && |Items(slot)| >= f.arraySize) && DecVal(f, OldVal(f, slot), p) == Ok(v, [], Exact)
    ensures DecField(f, wt, slot, p) == Ok(With(f, slot, v), [], Exact)
  {
    assert slot.Rep? || [] + [v] == [v];
    hide DecVal, Substream, DecPacked, OldVal;
  }

  lemma RecordOf(fields: seq<Field>, st: State, i: nat, s: seq<byte>, wt: nat, rest: seq<byte>)
    requires i < |fields| && ReadTag(s) == Tag(fields[i].tag, wt, rest) && FindTag(fields, fields[i].tag) == Some(i)
    ensures DecRecord(fields, st, s) ==
      var r := DecField(fields[i], wt, SlotAt(fields, st.msg, i), rest);
      if r.Fail? then Bad else Next(Store(fields, st, i, r.value), r.rest, r.lag)
  {
    hide DecField, SkipField, Store, SlotAt, FindTag, ReadTag;
  }

  /** Of two values for a field that is no array and no submessage, the last stays. */
  lemma LastValueStays(fields: seq<Field>, st: State, i: nat, p: seq<byte>, v: Val, q: seq<byte>, w: Val)
    requires DistinctTags(fields) && i < |fields| && !fields[i].htype.Repeated? && !fields[i].ltype.Submessage?
    requires forall prior :: DecVal(fields[i], prior, p) == Ok(v, [], Exact)
    requires forall prior :: DecVal(fields[i], prior, q) == Ok(w, [], Exact)
    ensures var f := fields[i];
            var k := Key(WireType(f.ltype), f.tag);
            var st' := Store(fields, st, i, With(f, OneofNone, w));
            Runs(fields, st, k + q, st') && Runs(fields, st, k + p + (k + q), st')
  {
    var f := fields[i];
    var wt := WireType(f.ltype);
    var k := Key(wt, f.tag);
    var slot := With(f, OneofNone, v);
    var mid, end := Store(fields, st, i, slot), Store(fields, st, i, With(f, OneofNone, w));
    WithOther(f, SlotAt(fields, st.msg, i), v);
    WithOther(f, SlotAt(fields, st.msg, i), w);
    WithOther(f, SlotAt(fields, mid.msg, i), w);
    OneRecord(fields, st, i, wt, p, v);
    OneRecord(fields, st, i, wt, q, w);
    OneRecord(fields, mid, i, wt, q, w);
    StoredAgain(fields, st, i, slot, With(f, OneofNone, w));
    hide *;
    RunsRecord(fields, st, k + p, mid);
    RunsRecord(fields, st, k + q, end);
    RunsRecord(fields, mid, k + q, end);
    RunsConcat(fields, st, k + p, mid, k + q, end);
  }

  lemma WithOther(f: Field, slot: Slot, v: Val)
    requires !f.htype.Repeated?
    ensures With(f, slot, v) == With(f, OneofNone, v)
  {
  }

  lemma StoredAgain(fields: seq<Field>, st: State, i: nat, x: Slot, y: Slot)
    requires i < |fields|
    ensures Store(fields, Store(fields, st, i, x), i, y) == Store(fields, st, i, y)
  {
  }

  /** A later member of a union takes the place of an earlier one. */
  lemma UnionReplaced(fields: seq<Field>, st: State, i: nat, j: nat, v: Val, w: Val)
    requires i < |fields| && j < |fields| && fields[i].htype.Oneof? && fields[j].htype.Oneof?
    requires Addr(fields, i) == Addr(fields, j)
    ensures Store(fields, Store(fields, st, i, With(fields[i], OneofNone, v)), j, With(fields[j], OneofNone, w))
         == State(st.msg[Addr(fields, j) := OneofSet(fields[j].tag, w)], st.seen)
  {
  }

  // ---------------------------------------------------------------- submessages

  /** What is decoded does not depend on which required rows were seen before. */
  lemma {:induction false} SeenApart(fields: seq<Field>, msg: Msg, seen: set<nat>, s: seq<byte>)
    ensures var r := DecLoop(fields, State(msg, {}), s);
      DecLoop(fields, State(msg, seen), s) == if r.Fail? then Fail else Ok(State(r.value.msg, seen + r.value.seen), r.rest, r.lag)
    decreases |s|
  {
    if s == [] {
      assert seen + {} == seen;
    } else {
      RecordApart(fields, msg, seen, s);
      var r := DecRecord(fields, State(msg, {}), s);
      if r.Stop? {
        assert seen + {} == seen;
      } else if r.Next? {
        var more := DecLoop(fields, State(r.st.msg, {}), r.rest);
        assert more.Ok? ==> seen + r.st.seen + more.value.seen == seen + (r.st.seen + more.value.seen);
        SeenApart(fields, r.st.msg, r.st.seen, r.rest);
        SeenApart(fields, r.st.msg, seen + r.st.seen, r.rest);
      }
    }
    hide DecRecord;
  }

  lemma RecordApart(fields: seq<Field>, msg: Msg, seen: set<nat>, s: seq<byte>)
    ensures var r := DecRecord(fields, State(msg, {}), s);
      DecRecord(fields, State(msg, seen), s) == if r.Next? then Next(State(r.st.msg, seen + r.st.seen), r.rest, r.lag) else r
  {
    var t := ReadTag(s);
    assert seen + {} == seen;
    if t.Tag? && FindTag(fields, t.tag).Some? {
      var i := FindTag(fields, t.tag).value;
      assert seen + ({} + {RequiredBefore(fields, i)}) == seen + {RequiredBefore(fields, i)};
    }
    hide DecField, SkipField, ReadTag, FindTag, SlotAt, Addr, RequiredBefore;
  }

  /** Whole messages one after the other fill a struct like their concatenation. */
  lemma MessagesJoin(fields: seq<Field>, a: seq<byte>, b: seq<byte>, base: Msg, mid: Msg, end: Msg)
    requires DecMsg(fields, a, base) == Ok(mid, [], Exact) && DecMsg(fields, b, mid) == Ok(end, [], Exact)
    ensures DecMsg(fields, a + b, base) == Ok(end, [], Exact)
  {
    var st := DecLoop(fields, State(base, {}), a).value;
    LoopAppend(fields, State(base, {}), a, st, b);
    SeenApart(fields, mid, st.seen, b);
    hide DecLoop;
  }

  /** The body of a submessage in a record, when the struct holds one already. */
  lemma SubmessageVal(f: Field, base: Msg, body: seq<byte>, m: Msg)
    requires f.ltype.Submessage? && (f.htype.Required? || f.htype.Optional?) && |body| < 0x1_0000_0000
    requires DecMsg(f.sub, body, base) == Ok(m, [], Exact)
    ensures DecVal(f, Struct(base), Delimited(body)) == Ok(Struct(m), [], Exact)
  {
    SubstreamOfDelimited(body, []);
    hide Substream, Delimited, DecMsg;
  }

  /** Two records for a submessage are merged: together they mean what one record with both bodies,
      one after the other, means. */
  lemma SubmessagesMerge(fields: seq<Field>, st: State, i: nat, a: seq<byte>, b: seq<byte>, base: Msg, mid: Msg, end: Msg)
    requires DistinctTags(fields) && i < |fields| && fields[i].ltype.Submessage?
    requires fields[i].htype.Required? || fields[i].htype.Optional?
    requires OldVal(fields[i], SlotAt(fields, st.msg, i)) == Struct(base) && |a| + |b| < 0x1_0000_0000
    requires DecMsg(fields[i].sub, a, base) == Ok(mid, [], Exact) && DecMsg(fields[i].sub, b, mid) == Ok(end, [], Exact)
    ensures var f := fields[i];
            var k := Key(2, f.tag);
            var st' := Store(fields, st, i, With(f, OneofNone, Struct(end)));
            Runs(fields, st, k + Delimited(a) + (k + Delimited(b)), st') && Runs(fields, st, k + Delimited(a + b), st')
  {
    var f := fields[i];
    var k := Key(2, f.tag);
    var x, y := With(f, OneofNone, Struct(mid)), With(f, OneofNone, Struct(end));
    var st1, st2 := Store(fields, st, i, x), Store(fields, st, i, y);
    MessagesJoin(f.sub, a, b, base, mid, end);
    SubmessageVal(f, base, a, mid);
    SubmessageVal(f, mid, b, end);
    SubmessageVal(f, base, a + b, end);
    OldOf(fields, st, i, Struct(mid));
    WithOther(f, SlotAt(fields, st.msg, i), Struct(mid));
    WithOther(f, SlotAt(fields, st.msg, i), Struct(end));
    WithOther(f, SlotAt(fields, st1.msg, i), Struct(end));
    OneRecord(fields, st, i, 2, Delimited(a), Struct(mid));
    OneRecord(fields, st1, i, 2, Delimited(b), Struct(end));
    OneRecord(fields, st, i, 2, Delimited(a + b), Struct(end));
    StoredAgain(fields, st, i, x, y);
    hide *;
    RunsRecord(fields, st, k + Delimited(a), st1);
    RunsRecord(fields, st1, k + Delimited(b), st2);
    RunsRecord(fields, st, k + Delimited(a + b), st2);
    RunsConcat(fields, st, k + Delimited(a), st1, k + Delimited(b), st2);
  }

  lemma OldOf(fields: seq<Field>, st: State, i: nat, v: Val)
    requires i < |fields| && (fields[i].htype.Required? || fields[i].htype.Optional?)
    ensures var st' := Store(fields, st, i, With(fields[i], OneofNone, v));
      OldVal(fields[i], SlotAt(fields, st'.msg, i)) == v
  {
  }

  /** A member of a union, and an entry of an array, starts from the defaults, whatever was there. */
  lemma FreshStart(f: Field, prior: Val, body: seq<byte>)
    requires f.ltype.Submessage? && (f.htype.Oneof? || f.htype.Repeated?) && |body| < 0x1_0000_0000
    ensures var r := Decode(f.sub, body);
      && (r.Fail? ==> DecVal(f, prior, Delimited(body)).Fail?)
      && (r.Ok? && r.rest == [] && r.lag.Exact? ==> DecVal(f, prior, Delimited(body)) == Ok(Struct(r.value), [], Exact))
  {
    SubstreamOfDelimited(body, []);
    hide Substream, Delimited, DecMsg;
  }

  // ---------------------------------------------------------------- messages that end early

  /** A zero key ends a message. */
  lemma ZeroEnds(fields: seq<Field>, st: State, rest: seq<byte>)
    ensures DecLoop(fields, st, [0] + rest) == Ok(st, rest, Lagging([]))
  {
    var s: seq<byte> := [0] + rest;
    assert s[1..] == rest;
    assert VarintFrom(s, 5) == Ok(0, rest, Exact);
    assert DecRecord(fields, st, s) == Stop(rest);
    hide DecRecord;
  }

  /** After a submessage that a zero key ends, the parent reads on behind the zero and not behind the
      submessage, for as many bytes as followed the submessage. */
  lemma ZeroInside(f: Field, base: Msg, a: seq<byte>, b: seq<byte>, after: seq<byte>, m: Msg)
    requires f.ltype.Submessage? && (f.htype.Required? || f.htype.Optional?) && |a| + 1 + |b| < 0x1_0000_0000
    requires DecMsg(f.sub, a, base) == Ok(m, [], Exact)
    ensures var r := DecVal(f, Struct(base), Delimited(a + ([0] + b)) + after);
      r.Ok? && r.value == Struct(m) && r.rest == (b + after)[..|after|] && r.lag == Lagging((b + after)[|after|..])
  {
    var body := a + ([0] + b);
    ZeroBody(f.sub, base, a, b, m);
    SubstreamOfDelimited(body, after);
    hide Substream, Delimited, DecMsg, DecVal;
    SlippedVal(f, base, Delimited(body) + after, body, after, m, b);
  }

  lemma SlippedVal(f: Field, base: Msg, s: seq<byte>, body: seq<byte>, after: seq<byte>, m: Msg, left: seq<byte>)
    requires f.ltype.Submessage? && (f.htype.Required? || f.htype.Optional?)
    requires Substream(s) == Ok(body, after, Exact) && DecMsg(f.sub, body, base) == Ok(m, left, Lagging([]))
    ensures DecVal(f, Struct(base), s) == Ok(Struct(m), (left + after)[..|after|], Lagging((left + after)[|after|..]))
  {
    assert left + [] + after == left + after;
    hide Substream, DecMsg;
  }

  lemma ZeroBody(fields: seq<Field>, base: Msg, a: seq<byte>, b: seq<byte>, m: Msg)
    requires DecMsg(fields, a, base) == Ok(m, [], Exact)
    ensures DecMsg(fields, a + ([0] + b), base) == Ok(m, b, Lagging([]))
  {
    var st := DecLoop(fields, State(base, {}), a).value;
    LoopAppend(fields, State(base, {}), a, st, [0] + b);
    ZeroEnds(fields, st, b);
    hide DecLoop;
  }

  lemma CutVal(f: Field, prior: Val, s: seq<byte>, n: nat)
    requires DecVal(f, prior, s).Ok? && n < |s|
    requires f.ltype.Submessage? ==> Substream(s).Ok? && Substream(s).rest == []
    requires !f.ltype.Submessage? ==> DecVal(f, prior, s).rest == []
    ensures DecVal(f, prior, s[..n]).Fail?
  {
    var t, u := s[..n], s[n..];
    assert t + u == s && u != [];
    if Packable(f.ltype) {
      if DecNumber(f, t).Ok? { NumberAppend(f, t, u); }
    } else if f.ltype.Submessage? {
      if Substream(t).Ok? { SubstreamAppend(t, u); }
    } else {
      if DecBlob(f, t).Ok? { BlobAppend(f, t, u); }
    }
    hide DecNumber, DecBlob, Substream, DecMsg;
  }

  /** The bytes after a submessage are as many as the decoder leaves. */
  lemma NothingAfter(f: Field, prior: Val, s: seq<byte>)
    requires f.ltype.Submessage? && DecVal(f, prior, s).Ok? && DecVal(f, prior, s).rest == []
    ensures Substream(s).Ok? && Substream(s).rest == []
  {
    hide Substream, DecMsg;
  }

  /** A value that is cut off is rejected. */
  lemma CutValue(f: Field, wt: nat, slot: Slot, s: seq<byte>, n: nat)
    requires DecField(f, wt, slot, s).Ok? && DecField(f, wt, slot, s).rest == [] && n < |s|
    ensures DecField(f, wt, slot, s[..n]).Fail?
  {
    hide DecVal, Substream, DecPacked, OldVal, Filled, Items;
    if f.htype.Repeated? && wt == WT_STRING && Packable(f.ltype) {
      assert s[..n] + s[n..] == s;
      if Substream(s[..n]).Ok? { SubstreamAppend(s[..n], s[n..]); }
    } else {
      if f.ltype.Submessage? { NothingAfter(f, OldVal(f, slot), s); }
      CutVal(f, OldVal(f, slot), s, n);
    }
  }

  /** A record of a known field that is cut off after its key is rejected; cut off inside its key it
      is the end of the message. */
  lemma CutRecord(fields: seq<Field>, st: State, i: nat, wt: nat, p: seq<byte>, n: nat)
    requires DistinctTags(fields) && i < |fields| && wt < 8
    requires DecField(fields[i], wt, SlotAt(fields, st.msg, i), p).Ok?
    requires DecField(fields[i], wt, SlotAt(fields, st.msg, i), p).rest == []
    requires var k := Key(wt, fields[i].tag); n < |k + p|
    ensures var k := Key(wt, fields[i].tag);
      DecLoop(fields, st, (k + p)[..n]) == if n < |k| then Ok(st, [], if n == 0 then Exact else Lagging([])) else Fail
  {
    var k := Key(wt, fields[i].tag);
    if n < |k| {
      assert (k + p)[..n] == k[..n];
      KeyRoundTrip(wt, fields[i].tag, []);
      assert k + [] == k;
      KeyLength(wt, fields[i].tag);
      CutKey(k, n);
      hide *;
      EndedLoop(fields, st, k[..n]);
    } else {
      assert (k + p)[..n] == k + p[..n - |k|];
      CutAfterKey(fields, st, i, wt, p, n - |k|);
    }
  }

  lemma KeyLength(wt: nat, tag: nat)
    requires wt < 8 && tag < 0x1_0000
    ensures |Key(wt, tag)| <= 5
  {
    VarintLengths(tag * 8 + wt);
  }

  lemma EndedLoop(fields: seq<Field>, st: State, s: seq<byte>)
    requires ReadTag(s) == EndOfMessage([])
    ensures DecLoop(fields, st, s) == Ok(st, [], if s == [] then Exact else Lagging([]))
  {
    hide ReadTag;
  }

  lemma CutAfterKey(fields: seq<Field>, st: State, i: nat, wt: nat, p: seq<byte>, n: nat)
    requires DistinctTags(fields) && i < |fields| && wt < 8 && n < |p|
    requires DecField(fields[i], wt, SlotAt(fields, st.msg, i), p).Ok?
    requires DecField(fields[i], wt, SlotAt(fields, st.msg, i), p).rest == []
    ensures DecLoop(fields, st, Key(wt, fields[i].tag) + p[..n]).Fail?
  {
    var q := p[..n];
    var s := Key(wt, fields[i].tag) + q;
    assert 0 < fields[i].tag < 0x1_0000;
    FindTagAt(fields, i);
    assert s != [];
    hide *;
    KeyRoundTrip(wt, fields[i].tag, q);
    CutValue(fields[i], wt, SlotAt(fields, st.msg, i), p, n);
    RecordOf(fields, st, i, s, wt, q);
    RejectedLoop(fields, st, s);
  }

  lemma RejectedLoop(fields: seq<Field>, st: State, s: seq<byte>)
    requires s != [] && DecRecord(fields, st, s).Bad?
    ensures DecLoop(fields, st, s).Fail?
  {
    hide DecRecord;
  }

  lemma CutKey(k: seq<byte>, n: nat)
    requires n < |k| <= 5 && ReadTag(k).Tag? && ReadTag(k).rest == []
    ensures ReadTag(k[..n]) == EndOfMessage([])
  {
    var t := k[..n];
    assert t + k[n..] == k;
    VarintAppend(t, k[n..]);
  }

  // ---------------------------------------------------------------- what is encoded

  /** A value the encoder has bytes for: bytes must leave room for their count, and varints have a
      width of the four. */
  predicate ValEncodable(f: Field, v: Val)
    decreases f, 0
  {
    if f.ltype.Submessage? then v.Struct? && Encodable(f.sub, v.cells)
    else if f.ltype.Bytes? then v.Blob? && |v.bs| + 2 <= f.dataSize
    else if f.ltype.String? then v.Blob?
    else v.Num? && (f.ltype.Fixed32? || f.ltype.Fixed64? || f.dataSize in {1, 2, 4, 8})
  }

  predicate RowEncodable(f: Field, slot: Slot)
    decreases f, 1
  {
    match f.htype
    case Required => slot.Single? && ValEncodable(f, slot.v)
    case Optional => slot.Opt? && (slot.has ==> ValEncodable(f, slot.v))
    case Repeated => slot.Rep? && |slot.items| <= f.arraySize && forall k :: 0 <= k < |slot.items| ==> ValEncodable(f, slot.items[k])
    case Oneof => slot.OneofNone? || (slot.OneofSet? && (slot.which == f.tag ==> ValEncodable(f, slot.v)))
  }

  predicate Encodable(fields: seq<Field>, msg: Msg)
    decreases fields, 1
  {
    forall i :: 0 <= i < |fields| ==> RowEncodable(fields[i], SlotAt(fields, msg, i))
  }

  lemma {:induction false} ValEncodes(f: Field, v: Val)
    ensures EncVal(f, v).Some? <==> ValEncodable(f, v)
    decreases f, 0
  {
    if f.ltype.Submessage? && v.Struct? {
      Encodes(f.sub, v.cells);
    }
  }

  lemma {:induction false} ItemsEncode(f: Field, items: seq<Val>, i: nat)
    requires i <= |items|
    ensures EncPacked(f, items, i).Some? <==> forall k :: i <= k < |items| ==> ValEncodable(f, items[k])
    ensures EncUnpacked(f, items, i).Some? <==> forall k :: i <= k < |items| ==> ValEncodable(f, items[k])
    decreases f, 1, |items| - i
  {
    if i < |items| {
      ValEncodes(f, items[i]);
      ItemsEncode(f, items, i + 1);
    }
    hide EncVal, ValEncodable;
  }

  lemma {:induction false} RowEncodes(f: Field, slot: Slot)
    ensures EncField(f, slot).Some? <==> RowEncodable(f, slot)
    decreases f, 2
  {
    if slot.Rep? {
      ItemsEncode(f, slot.items, 0);
    } else if !slot.OneofNone? {
      ValEncodes(f, slot.v);
    }
    hide EncVal, ValEncodable, EncPacked, EncUnpacked;
  }

  lemma {:induction false} RowsEncode(fields: seq<Field>, msg: Msg, i: nat)
    requires i <= |fields|
    ensures EncFrom(fields, msg, i).Some? <==> forall k :: i <= k < |fields| ==> RowEncodable(fields[k], SlotAt(fields, msg, k))
    decreases fields, 2, |fields| - i
  {
    if i < |fields| {
      RowEncodes(fields[i], SlotAt(fields, msg, i));
      RowsEncode(fields, msg, i + 1);
    }
    hide EncField, RowEncodable, SlotAt;
  }

  /** Which structs `pb_encode` has bytes for. */
  lemma {:induction false} Encodes(fields: seq<Field>, msg: Msg)
    ensures EncMsg(fields, msg).Some? <==> Encodable(fields, msg)
    decreases fields, 3
  {
    RowsEncode(fields, msg, 0);
  }
}
