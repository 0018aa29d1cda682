/** Decoding is a left fold over records: the decoder's state after an input made of whole
    records is all that the rest of the input depends on. */
module PbFold {
  import opened Common
  import opened PbDecoding
  import opened PbDescriptor
  import opened PbEncoding
  import opened PbWire

  // ---------------------------------------------------------------- nothing depends on what follows

  lemma SliceAppend(s: seq<byte>, n: nat, tail: seq<byte>)
    ensures n <= |s| ==> (s + tail)[..n] == s[..n] && (s + tail)[n..] == s[n..] + tail
  {
  }

  lemma NumberAppend(f: Field, s: seq<byte>, tail: seq<byte>)
    requires Packable(f.ltype) && DecNumber(f, s).Ok?
    ensures var r := DecNumber(f, s); DecNumber(f, s + tail) == Ok(r.value, r.rest + tail, Exact)
  {
    if f.ltype.Fixed32? || f.ltype.Fixed64? {
      SliceAppend(s, FixedWidth(f.ltype), tail);
    } else {
      VarintAppend(s, tail);
    }
  }

  lemma SubstreamAppend(s: seq<byte>, tail: seq<byte>)
    requires Substream(s).Ok?
    ensures var r := Substream(s); Substream(s + tail) == Ok(r.value, r.rest + tail, Exact)
  {
    VarintAppend(s, tail);
    SliceAppend(Varint32(s).rest, Varint32(s).value, tail);
  }

  lemma BlobAppend(f: Field, s: seq<byte>, tail: seq<byte>)
    requires DecBlob(f, s).Ok?
    ensures var r := DecBlob(f, s); DecBlob(f, s + tail) == Ok(r.value, r.rest + tail, Exact)
  {
    VarintAppend(s, tail);
    SliceAppend(Varint32(s).rest, Varint32(s).value, tail);
  }

  lemma ValAppend(f: Field, prior: Val, s: seq<byte>, tail: seq<byte>)
    requires DecVal(f, prior, s).Ok? && DecVal(f, prior, s).lag.Exact?
    ensures var r := DecVal(f, prior, s); DecVal(f, prior, s + tail) == Ok(r.value, r.rest + tail, Exact)
  {
    if Packable(f.ltype) {
      NumberAppend(f, s, tail);
    } else if !f.ltype.Submessage? {
      BlobAppend(f, s, tail);
    } else {
      SubstreamAppend(s, tail);
    }
  }

  lemma FieldAppend(f: Field, wt: nat, slot: Slot, s: seq<byte>, tail: seq<byte>)
    requires DecField(f, wt, slot, s).Ok? && DecField(f, wt, slot, s).lag.Exact?
    ensures var r := DecField(f, wt, slot, s); DecField(f, wt, slot, s + tail) == Ok(r.value, r.rest + tail, Exact)
  {
    if f.htype.Repeated? && wt == WT_STRING && Packable(f.ltype) {
      SubstreamAppend(s, tail);
    } else {
      ValAppend(f, OldVal(f, slot), s, tail);
    }
  }

  lemma RecordAppend(fields: seq<Field>, st: State, s: seq<byte>, tail: seq<byte>)
    requires DecRecord(fields, st, s).Next? && DecRecord(fields, st, s).lag.Exact?
    ensures var r := DecRecord(fields, st, s); DecRecord(fields, st, s + tail) == Next(r.st, r.rest + tail, Exact)
  {
    VarintAppend(s, tail);
    var t := ReadTag(s);
    assert ReadTag(s + tail) == Tag(t.tag, t.wt, t.rest + tail);
    match FindTag(fields, t.tag)
    case None => SkipAppend(t.wt, t.rest, tail);
    case Some(i) => FieldAppend(fields[i], t.wt, SlotAt(fields, st.msg, i), t.rest, tail);
  }

  // ---------------------------------------------------------------- the fold

  /** `s` is a sequence of whole records that takes `st` to `st'`, none of them ending a
      substream before its last byte. */
  predicate Runs(fields: seq<Field>, st: State, s: seq<byte>, st': State) {
    DecLoop(fields, st, s) == Ok(st', [], Exact)
  }

  lemma {:induction false} ExactLoopEmpties(fields: seq<Field>, st: State, s: seq<byte>)
    requires DecLoop(fields, st, s).Ok? && DecLoop(fields, st, s).lag.Exact?
    ensures DecLoop(fields, st, s).rest == []
    decreases |s|
  {
    if s != [] {
      var r := DecRecord(fields, st, s);
      ExactLoopEmpties(fields, r.st, r.rest);
    }
  }

  /** A whole record hands over to the rest of the input. */
  lemma LoopNext(fields: seq<Field>, st: State, s: seq<byte>, st': State, rest: seq<byte>)
    requires DecRecord(fields, st, s) == Next(st', rest, Exact)
    ensures DecLoop(fields, st, s) == DecLoop(fields, st', rest)
  {
    assert s != [];
  }

  /** The fold law: after whole records only the state they produced matters. */
  lemma {:induction false} LoopAppend(fields: seq<Field>, st: State, a: seq<byte>, st': State, b: seq<byte>)
    requires Runs(fields, st, a, st')
    ensures DecLoop(fields, st, a + b) == DecLoop(fields, st', b)
    decreases |a|
  {
    if a == [] {
      assert a + b == b;
    } else {
      var r := DecRecord(fields, st, a);
      assert r.Next? && r.lag == Exact;
      LoopNext(fields, st, a, r.st, r.rest);
      LoopAppend(fields, r.st, r.rest, st', b);
      RecordAppend(fields, st, a, b);
      LoopNext(fields, st, a + b, r.st, r.rest + b);
    }
  }

  lemma RunsConcat(fields: seq<Field>, st: State, a: seq<byte>, st': State, b: seq<byte>, st'': State)
    requires Runs(fields, st, a, st') && Runs(fields, st', b, st'')
    ensures Runs(fields, st, a + b, st'')
  {
    LoopAppend(fields, st, a, st', b);
  }

  lemma RunsRecord(fields: seq<Field>, st: State, s: seq<byte>, st': State)
    requires DecRecord(fields, st, s) == Next(st', [], Exact)
    ensures Runs(fields, st, s, st')
  {
    RunsCons(fields, st, s, st', [], st');
  }

  lemma RunsCons(fields: seq<Field>, st: State, s: seq<byte>, st': State, tail: seq<byte>, st'': State)
    requires DecRecord(fields, st, s) == Next(st', tail, Exact) && Runs(fields, st', tail, st'')
    ensures Runs(fields, st, s, st'')
  {
    LoopNext(fields, st, s, st', tail);
  }

  // ---------------------------------------------------------------- unknown fields

  /** A record of one of the four wire types in use: a key and a value that its wire type
      delimits. */
  predicate Record(u: seq<byte>, tag: nat, wt: nat) {
    && ReadTag(u).Tag? && ReadTag(u).tag == tag && ReadTag(u).wt == wt
    && SkipField(wt, ReadTag(u).rest).Ok? && SkipField(wt, ReadTag(u).rest).rest == []
  }

  /** A record with a tag the descriptor lacks changes nothing. The one exception is tag 0 in
      an empty message, which the iterator matches with the terminator row. */
  lemma UnknownRecord(fields: seq<Field>, st: State, u: seq<byte>, tag: nat, wt: nat)
    requires Record(u, tag, wt)
    requires forall i :: 0 <= i < |fields| ==> fields[i].tag != tag
    ensures Runs(fields, st, u, st) <==> !(fields == [] && tag == 0)
    ensures fields == [] && tag == 0 ==> DecLoop(fields, st, u).Fail?
  {
    var rest := ReadTag(u).rest;
    assert FindTag(fields, tag).None?;
    if fields == [] && tag == 0 {
      assert DecRecord(fields, st, u) == Bad;
      assert DecLoop(fields, st, u).Fail?;
    } else {
      assert DecRecord(fields, st, u) == Next(st, [], Exact);
      RunsRecord(fields, st, u, st);
    }
  }

  lemma SpliceNothing(fields: seq<Field>, st: State, a: seq<byte>, st': State, u: seq<byte>, b: seq<byte>)
    requires Runs(fields, st, a, st') && Runs(fields, st', u, st')
    ensures DecLoop(fields, st, a + (u + b)) == DecLoop(fields, st, a + b)
  {
    LoopAppend(fields, st', u, st', b);
    LoopAppend(fields, st, a, st', u + b);
    LoopAppend(fields, st, a, st', b);
  }

  /** Splicing an unknown record between whole records leaves the decoded message as it was. */
  lemma SpliceUnknown(fields: seq<Field>, base: Msg, a: seq<byte>, st': State,
                      u: seq<byte>, tag: nat, wt: nat, b: seq<byte>)
    requires Runs(fields, State(base, {}), a, st')
    requires Record(u, tag, wt)
    requires forall i :: 0 <= i < |fields| ==> fields[i].tag != tag
    requires fields != [] || tag != 0
    ensures DecMsg(fields, a + u + b, base) == DecMsg(fields, a + b, base)
  {
    UnknownRecord(fields, st', u, tag, wt);
    assert a + u + b == a + (u + b);
    SpliceNothing(fields, State(base, {}), a, st', u, b);
  }

  // ---------------------------------------------------------------- packed and unpacked arrays

  /** The bytes of a packed array: any numbers of the field's type. */
  function Joined(parts: seq<seq<byte>>): seq<byte> {
    if parts == [] then [] else parts[0] + Joined(parts[1..])
  }

  /** The same numbers, each in a record of its own. */
  function Separate(f: Field, parts: seq<seq<byte>>): seq<byte> {
    if parts == [] then [] else Key(WireType(f.ltype), f.tag) + parts[0] + Separate(f, parts[1..])
  }

  predicate Numbers(f: Field, parts: seq<seq<byte>>)
    requires Packable(f.ltype)
  {
    forall k :: 0 <= k < |parts| ==> DecNumber(f, parts[k]).Ok? && DecNumber(f, parts[k]).rest == []
  }

  /** What both forms append to the array: every number, or failure when they do not all fit. */
  function Appended(f: Field, items: seq<Val>, parts: seq<seq<byte>>): Option<seq<Val>>
    requires Packable(f.ltype) && Numbers(f, parts)
    decreases |parts|
  {
    if parts == [] then Some(items)
    else if |items| >= f.arraySize then None
    else Appended(f, items + [DecNumber(f, parts[0]).value], parts[1..])
  }

  lemma {:induction false} PackedAppends(f: Field, items: seq<Val>, parts: seq<seq<byte>>)
    requires Packable(f.ltype) && Numbers(f, parts)
    ensures DecPacked(f, items, Joined(parts)) == Appended(f, items, parts)
    decreases |parts|
  {
    if parts != [] {
      var tail := Joined(parts[1..]);
      NumberAppend(f, parts[0], tail);
      assert [] + tail == tail;
      var v := DecNumber(f, parts[0]).value;
      PackedAppends(f, items + [v], parts[1..]);
    }
  }

  /** One number of the unpacked form. */
  lemma SeparateStep(fields: seq<Field>, i: nat, st: State, part: seq<byte>, tail: seq<byte>)
    requires DistinctTags(fields) && i < |fields|
    requires fields[i].htype.Repeated? && Packable(fields[i].ltype)
    requires DecNumber(fields[i], part).Ok? && DecNumber(fields[i], part).rest == []
    requires Addr(fields, i) in st.msg && st.msg[Addr(fields, i)].Rep?
    ensures var f := fields[i];
            var a := Addr(fields, i);
            var items := st.msg[a].items;
            DecRecord(fields, st, Key(WireType(f.ltype), f.tag) + (part + tail))
              == if |items| >= f.arraySize then Bad
                 else Next(State(st.msg[a := Rep(items + [DecNumber(f, part).value])], st.seen), tail, Exact)
  {
    var f := fields[i];
    var slot := st.msg[Addr(fields, i)];
    KeyRoundTrip(WireType(f.ltype), f.tag, part + tail);
    FindTagAt(fields, i);
    NumberAppend(f, part, tail);
    assert [] + tail == tail;
    assert SlotAt(fields, st.msg, i) == slot;
    assert DecField(f, WireType(f.ltype), slot, part + tail)
        == if |slot.items| >= f.arraySize then Fail else Ok(Rep(slot.items + [DecNumber(f, part).value]), tail, Exact);
  }

  lemma {:induction false} SeparateAppends(fields: seq<Field>, i: nat, st: State, parts: seq<seq<byte>>)
    requires DistinctTags(fields) && i < |fields|
    requires fields[i].htype.Repeated? && Packable(fields[i].ltype) && Numbers(fields[i], parts)
    requires Addr(fields, i) in st.msg && st.msg[Addr(fields, i)].Rep?
    ensures var f := fields[i];
            var a := Addr(fields, i);
            var r := Appended(f, st.msg[a].items, parts);
            if r.Some? then Runs(fields, st, Separate(f, parts), State(st.msg[a := Rep(r.value)], st.seen))
            else DecLoop(fields, st, Separate(f, parts)).Fail?
    decreases |parts|
  {
    var f := fields[i];
    var a := Addr(fields, i);
    if parts == [] {
      assert st.msg[a := st.msg[a]] == st.msg;
    } else {
      var tail := Separate(f, parts[1..]);
      assert Separate(f, parts) == Key(WireType(f.ltype), f.tag) + (parts[0] + tail);
      SeparateStep(fields, i, st, parts[0], tail);
      if |st.msg[a].items| < f.arraySize {
        var st1 := State(st.msg[a := Rep(st.msg[a].items + [DecNumber(f, parts[0]).value])], st.seen);
        SeparateAppends(fields, i, st1, parts[1..]);
        var r := Appended(f, st.msg[a].items, parts);
        if r.Some? {
          assert st1.msg[a := Rep(r.value)] == st.msg[a := Rep(r.value)];
        }
      }
    }
  }

  lemma SubstreamOfDelimited(body: seq<byte>, tail: seq<byte>)
    requires |body| < 0x1_0000_0000
    ensures Substream(Delimited(body) + tail) == Ok(body, tail, Exact)
    ensures Substream(Delimited(body)) == Ok(body, [], Exact)
  {
    VarintRoundTrip32(|body|, body + tail);
    assert Delimited(body) + tail == VarintBytes(|body|) + (body + tail);
    assert (body + tail)[..|body|] == body && (body + tail)[|body|..] == tail;
    VarintRoundTrip32(|body|, body);
    assert body[..|body|] == body && body[|body|..] == [];
  }

  /** A packed array in one record. */
  lemma PackedRecord(fields: seq<Field>, i: nat, st: State, body: seq<byte>)
    requires DistinctTags(fields) && i < |fields|
    requires fields[i].htype.Repeated? && Packable(fields[i].ltype)
    requires |body| < 0x1_0000_0000
    ensures var f := fields[i];
            DecRecord(fields, st, Key(WT_STRING, f.tag) + Delimited(body))
              == match DecPacked(f, Items(SlotAt(fields, st.msg, i)), body)
                 case None => Bad
                 case Some(items) => Next(Store(fields, st, i, Rep(items)), [], Exact)
  {
    KeyRoundTrip(WT_STRING, fields[i].tag, Delimited(body));
    FindTagAt(fields, i);
    SubstreamOfDelimited(body, []);
  }

  /** A repeated number field decodes to the same state whether its values come packed in one
      record or in a record each, and fails in both forms when they do not fit. */
  lemma PackedSameAsSeparate(fields: seq<Field>, i: nat, st: State, parts: seq<seq<byte>>)
    requires DistinctTags(fields) && i < |fields|
    requires fields[i].htype.Repeated? && Packable(fields[i].ltype) && Numbers(fields[i], parts)
    requires Addr(fields, i) in st.msg && st.msg[Addr(fields, i)].Rep?
    requires |Joined(parts)| < 0x1_0000_0000
    ensures DecLoop(fields, st, Key(WT_STRING, fields[i].tag) + Delimited(Joined(parts)))
         == DecLoop(fields, st, Separate(fields[i], parts))
  {
    var f := fields[i];
    var a := Addr(fields, i);
    var body := Joined(parts);
    var s := Key(WT_STRING, f.tag) + Delimited(body);
    PackedRecord(fields, i, st, body);
    PackedAppends(f, st.msg[a].items, parts);
    SeparateAppends(fields, i, st, parts);
    var r := Appended(f, st.msg[a].items, parts);
    assert s != [];
    if r.Some? {
      RunsRecord(fields, st, s, State(st.msg[a := Rep(r.value)], st.seen));
    }
  }
}
