/** The round trip of whole messages: each encoded row takes the decoder from the message built
    so far to the next one. */
module PbMessages {
  import opened Common
  import opened PbDecoding
  import opened PbDescriptor
  import opened PbEncoding
  import opened PbFold
  import opened PbRoundTrip
  import opened PbWire

  // ---------------------------------------------------------------- the message built so far

  /** Whether the encoder writes anything for a row. */
  predicate Emits(f: Field, slot: Slot) {
    match f.htype
    case Required => true
    case Optional => slot.Opt? && slot.has
    case Repeated => slot.Rep? && slot.items != []
    case Oneof => slot.OneofSet? && slot.which == f.tag
  }

  /** The decoder's state after the rows before `i`. */
  function Filling(fields: seq<Field>, msg: Msg, i: nat): State
    requires i <= |fields|
  {
    if i == 0 then State(Defaults(fields), {})
    else
      var st := Filling(fields, msg, i - 1);
      var slot := SlotAt(fields, msg, i - 1);
      if Emits(fields[i - 1], slot) then Store(fields, st, i - 1, NormSlot(fields, i - 1, slot)) else st
  }

  lemma {:induction false} DefaultsAt(fields: seq<Field>, i: nat, j: nat)
    requires Layout(fields) && j < i <= |fields|
    ensures Addr(fields, j) in DefaultsUpTo(fields, i)
    ensures DefaultsUpTo(fields, i)[Addr(fields, j)] == DefaultSlot(fields[j])
    decreases i
  {
    var m := DefaultsUpTo(fields, i - 1);
    var a := Addr(fields, i - 1);
    assert DefaultsUpTo(fields, i) == m[a := DefaultSlot(fields[i - 1])];
    if j < i - 1 {
      DefaultsAt(fields, i - 1, j);
      if a == Addr(fields, j) {
        assert DefaultSlot(fields[j]) == OneofNone == DefaultSlot(fields[i - 1]);
      }
    }
  }

  /** A row that is not in a union is still at its default when its turn comes. */
  lemma {:induction false} FillingAhead(fields: seq<Field>, msg: Msg, i: nat, j: nat)
    requires Layout(fields) && i <= j < |fields|
    ensures Addr(fields, j) in Filling(fields, msg, i).msg
    ensures !fields[j].htype.Oneof? ==> Filling(fields, msg, i).msg[Addr(fields, j)] == DefaultSlot(fields[j])
    decreases i
  {
    if i == 0 {
      DefaultsAt(fields, |fields|, j);
    } else {
      FillingAhead(fields, msg, i - 1, j);
    }
  }

  lemma {:induction false} FillingSeen(fields: seq<Field>, msg: Msg, i: nat)
    requires i <= |fields|
    ensures forall k :: 0 <= k < RequiredBefore(fields, i) ==> k in Filling(fields, msg, i).seen
    decreases i
  {
    if i > 0 {
      FillingSeen(fields, msg, i - 1);
    }
  }

  // ---------------------------------------------------------------- one row

  /** A key and one value. */
  lemma KeyedRecord(fields: seq<Field>, st: State, i: nat, v: Val, tail: seq<byte>)
    requires DistinctTags(fields) && i < |fields|
    requires EncVal(fields[i], v).Some?
    requires var f := fields[i];
             var slot := SlotAt(fields, st.msg, i);
             && !(f.htype.Repeated? && |Items(slot)| >= f.arraySize)
             && DecVal(f, OldVal(f, slot), EncVal(f, v).value) == Ok(NormVal(f, v), [], Exact)
    ensures var f := fields[i];
            DecRecord(fields, st, EncKeyed(f, v).value + tail)
              == Next(Store(fields, st, i, Filled(f, SlotAt(fields, st.msg, i), NormVal(f, v))), tail, Exact)
  {
    var f := fields[i];
    var slot := SlotAt(fields, st.msg, i);
    var body := EncVal(f, v).value;
    var s := EncKeyed(f, v).value + tail;
    assert s == Key(WireType(f.ltype), f.tag) + (body + tail);
    hide DecRecord, DecField, DecVal, EncVal, EncKeyed, Key, WireType, Store, Filled, NormVal, OldVal, Items, SlotAt;
    KeyRoundTrip(WireType(f.ltype), f.tag, body + tail);
    FindTagAt(fields, i);
    ValAppend(f, OldVal(f, slot), body, tail);
    assert [] + tail == tail;
    KeyedField(f, slot, body + tail, NormVal(f, v), tail);
    FoundRecord(fields, st, i, s, WireType(f.ltype), body + tail);
  }

  /** A record with the key of row `i`. */
  lemma FoundRecord(fields: seq<Field>, st: State, i: nat, s: seq<byte>, wt: nat, rest: seq<byte>)
    requires i < |fields| && ReadTag(s) == Tag(fields[i].tag, wt, rest) && FindTag(fields, fields[i].tag) == Some(i)
    ensures DecRecord(fields, st, s) ==
      var r := DecField(fields[i], wt, SlotAt(fields, st.msg, i), rest);
      if r.Fail? then Bad else Next(Store(fields, st, i, r.value), r.rest, r.lag)
  {
    hide DecField, SkipField, Store, SlotAt, FindTag, ReadTag;
  }

  /** Outside packed arrays a row is decoded by its value decoder. */
  lemma KeyedField(f: Field, slot: Slot, s: seq<byte>, v: Val, rest: seq<byte>)
    requires !(f.htype.Repeated? && |Items(slot)| >= f.arraySize)
    requires DecVal(f, OldVal(f, slot), s) == Ok(v, rest, Exact)
    ensures DecField(f, WireType(f.ltype), slot, s) == Ok(Filled(f, slot, v), rest, Exact)
  {
    assert Packable(f.ltype) ==> WireType(f.ltype) != WT_STRING;
  }

  lemma {:induction false} PackedRoundTrip(f: Field, items: seq<Val>, i: nat)
    requires Packable(f.ltype) && i <= |items| <= f.arraySize
    requires forall k :: 0 <= k < |items| ==> FitsNumber(f, items[k])
    ensures EncPacked(f, items, i).Some?
    ensures DecPacked(f, items[..i], EncPacked(f, items, i).value) == Some(items)
    decreases |items| - i
  {
    if i == |items| {
      assert items[..i] == items;
    } else {
      PackedRoundTrip(f, items, i + 1);
      var tail := EncPacked(f, items, i + 1).value;
      NumberThenTail(f, items[i], tail);
      TakeNext(items, i);
      PackedStep(f, items[..i], EncNumber(f, items[i]).value + tail, items[i], tail);
    }
  }

  lemma TakeNext(items: seq<Val>, i: nat)
    requires i < |items|
    ensures items[..i] + [items[i]] == items[..i + 1]
  {
  }

  lemma NumberThenTail(f: Field, v: Val, tail: seq<byte>)
    requires Packable(f.ltype) && FitsNumber(f, v)
    ensures EncVal(f, v) == EncNumber(f, v) && EncNumber(f, v).Some?
    ensures DecNumber(f, EncNumber(f, v).value + tail) == Ok(v, tail, Exact)
  {
    NumberRoundTrip(f, v);
    NumberAppend(f, EncNumber(f, v).value, tail);
    assert [] + tail == tail;
  }

  lemma PackedStep(f: Field, items: seq<Val>, s: seq<byte>, v: Val, rest: seq<byte>)
    requires Packable(f.ltype) && |items| < f.arraySize
    requires DecNumber(f, s) == Ok(v, rest, Exact)
    ensures DecPacked(f, items, s) == DecPacked(f, items + [v], rest)
  {
    assert s != [];
  }

  lemma {:induction false} NormNumbers(f: Field, items: seq<Val>)
    requires Packable(f.ltype)
    ensures NormItems(f, items) == items
  {
    if items != [] {
      NormNumbers(f, items[..|items| - 1]);
    }
  }

  lemma {:induction false} NormItemsPrefix(f: Field, items: seq<Val>, i: nat)
    requires i < |items|
    ensures NormItems(f, items[..i + 1]) == NormItems(f, items[..i]) + [NormVal(f, items[i])]
  {
    assert items[..i + 1][..i] == items[..i];
  }

  /** A packed array is one record. */
  lemma PackedRow(fields: seq<Field>, st: State, i: nat, items: seq<Val>)
    requires DistinctTags(fields) && i < |fields|
    requires var f := fields[i];
             && f.htype.Repeated? && Packable(f.ltype) && 0 < |items| <= f.arraySize
             && (forall k :: 0 <= k < |items| ==> FitsNumber(f, items[k]))
             && EncArray(f, items).Some? && |EncArray(f, items).value| < 0x1_0000_0000
    requires Items(SlotAt(fields, st.msg, i)) == []
    ensures Runs(fields, st, EncArray(fields[i], items).value, Store(fields, st, i, Rep(NormItems(fields[i], items))))
  {
    var f := fields[i];
    PackedRoundTrip(f, items, 0);
    NormNumbers(f, items);
    assert items[..0] == [];
    var body := EncPacked(f, items, 0).value;
    PackedRecord(fields, i, st, body);
    RunsRecord(fields, st, Key(WT_STRING, f.tag) + Delimited(body), Store(fields, st, i, Rep(items)));
  }

  // ---------------------------------------------------------------- rows, given the values inside

  /** The value decoder gives back `v` whenever the row's slot is as `pb_decode` leaves it. */
  predicate ValueReturns(f: Field, v: Val) {
    && FitsVal(f, v)
    && EncVal(f, v).Some?
    && (f.ltype.Submessage? ==>
          && EncMsg(f.sub, v.cells).Some?
          && Decode(f.sub, EncMsg(f.sub, v.cells).value) == Ok(Norm(f.sub, v.cells), [], Exact))
  }

  /** A slot whose old value cannot show through in a submessage. */
  predicate Fresh(f: Field, slot: Slot) {
    f.htype.Oneof? || f.htype.Repeated? || slot == DefaultSlot(f)
  }

  lemma FreshBase(f: Field, slot: Slot)
    requires Fresh(f, slot) && f.ltype.Submessage?
    ensures SubmessageBase(f, OldVal(f, slot)) == Defaults(f.sub)
  {
    assert DefaultVal(f) == Struct(Defaults(f.sub));
  }

  lemma KeyedRow(fields: seq<Field>, st: State, i: nat, v: Val, tail: seq<byte>)
    requires DistinctTags(fields) && i < |fields|
    requires ValueReturns(fields[i], v) && |EncVal(fields[i], v).value| < 0x1_0000_0000
    requires var f := fields[i];
             var slot := SlotAt(fields, st.msg, i);
             Fresh(f, slot) && !(f.htype.Repeated? && |Items(slot)| >= f.arraySize)
    ensures var f := fields[i];
            DecRecord(fields, st, EncKeyed(f, v).value + tail)
              == Next(Store(fields, st, i, Filled(f, SlotAt(fields, st.msg, i), NormVal(f, v))), tail, Exact)
  {
    var f := fields[i];
    var slot := SlotAt(fields, st.msg, i);
    if f.ltype.Submessage? {
      FreshBase(f, slot);
    }
    ValRoundTrip(f, OldVal(f, slot), v);
    KeyedRecord(fields, st, i, v, tail);
  }

  lemma StoreTwice(fields: seq<Field>, st: State, i: nat, x: Slot, y: Slot)
    requires i < |fields| && fields[i].htype.Repeated?
    ensures Store(fields, Store(fields, st, i, x), i, y) == Store(fields, st, i, y)
    ensures SlotAt(fields, Store(fields, st, i, x).msg, i) == x
  {
  }

  lemma StoreSame(fields: seq<Field>, st: State, i: nat, x: Slot)
    requires i < |fields| && fields[i].htype.Repeated?
    requires Addr(fields, i) in st.msg && SlotAt(fields, st.msg, i) == x
    ensures Store(fields, st, i, x) == st
  {
    assert st.msg[Addr(fields, i) := x] == st.msg;
  }

  /** The slot of an array with its first `k` entries decoded. */
  function Prefix(f: Field, items: seq<Val>, k: nat): Slot
    requires k <= |items|
  {
    Rep(NormItems(f, items[..k]))
  }

  lemma UnpackedEntry(fields: seq<Field>, st: State, i: nat, items: seq<Val>, k: nat, tail: seq<byte>)
    requires DistinctTags(fields) && i < |fields| && fields[i].htype.Repeated?
    requires k < |items| <= fields[i].arraySize
    requires ValueReturns(fields[i], items[k]) && |EncVal(fields[i], items[k]).value| < 0x1_0000_0000
    requires SlotAt(fields, st.msg, i) == Prefix(fields[i], items, k)
    ensures DecRecord(fields, st, EncKeyed(fields[i], items[k]).value + tail)
         == Next(Store(fields, st, i, Prefix(fields[i], items, k + 1)), tail, Exact)
  {
    NormItemsPrefix(fields[i], items, k);
    KeyedRow(fields, st, i, items[k], tail);
  }

  /** An array that is not packed is one record an entry. */
  lemma {:induction false} UnpackedRow(fields: seq<Field>, st: State, i: nat, items: seq<Val>, k: nat)
    requires DistinctTags(fields) && i < |fields| && fields[i].htype.Repeated?
    requires k <= |items| <= fields[i].arraySize
    requires forall n :: 0 <= n < |items| ==> ValueReturns(fields[i], items[n])
    requires EncUnpacked(fields[i], items, k).Some? && |EncUnpacked(fields[i], items, k).value| < 0x1_0000_0000
    requires Addr(fields, i) in st.msg && SlotAt(fields, st.msg, i) == Prefix(fields[i], items, k)
    ensures Runs(fields, st, EncUnpacked(fields[i], items, k).value,
                 Store(fields, st, i, Prefix(fields[i], items, |items|)))
    decreases |items| - k
  {
    var f := fields[i];
    var last := Prefix(f, items, |items|);
    if k == |items| {
      StoreSame(fields, st, i, last);
    } else {
      var tail := EncUnpacked(f, items, k + 1).value;
      var next := Prefix(f, items, k + 1);
      var st' := Store(fields, st, i, next);
      assert |EncKeyed(f, items[k]).value| >= |EncVal(f, items[k]).value|;
      UnpackedEntry(fields, st, i, items, k, tail);
      StoreTwice(fields, st, i, next, last);
      UnpackedRow(fields, st', i, items, k + 1);
      RunsCons(fields, st, EncKeyed(f, items[k]).value + tail, st', tail, Store(fields, st, i, last));
    }
  }

  /** The row's values all come back. */
  predicate RowReturns(f: Field, slot: Slot) {
    match f.htype
    case Required => slot.Single? && ValueReturns(f, slot.v)
    case Optional => slot.Opt? && (slot.has ==> ValueReturns(f, slot.v))
    case Repeated =>
      slot.Rep? && |slot.items| <= f.arraySize && forall k :: 0 <= k < |slot.items| ==> ValueReturns(f, slot.items[k])
    case Oneof => slot.OneofNone? || (slot.OneofSet? && (slot.which == f.tag ==> ValueReturns(f, slot.v)))
  }

  predicate AllReturn(fields: seq<Field>, msg: Msg) {
    forall k :: 0 <= k < |fields| ==> RowReturns(fields[k], SlotAt(fields, msg, k))
  }

  lemma ArrayRow(fields: seq<Field>, st: State, i: nat, items: seq<Val>)
    requires DistinctTags(fields) && i < |fields|
    requires var f := fields[i];
             && f.htype.Repeated? && RowReturns(f, Rep(items)) && items != []
             && EncArray(f, items).Some? && |EncArray(f, items).value| < 0x1_0000_0000
    requires Addr(fields, i) in st.msg && SlotAt(fields, st.msg, i) == Rep([])
    ensures Runs(fields, st, EncArray(fields[i], items).value, Store(fields, st, i, Rep(NormItems(fields[i], items))))
  {
    var f := fields[i];
    if Packable(f.ltype) {
      forall k | 0 <= k < |items| ensures FitsNumber(f, items[k]) {
        assert ValueReturns(f, items[k]);
      }
      PackedRow(fields, st, i, items);
    } else {
      assert items[..0] == [] && NormItems(f, []) == [];
      UnpackedRow(fields, st, i, items, 0);
      assert items[..|items|] == items;
    }
  }

  /** Decoding one encoded row takes the message so far to the next one. */
  lemma RowRuns(fields: seq<Field>, msg: Msg, i: nat)
    requires DistinctTags(fields) && Layout(fields) && i < |fields|
    requires var slot := SlotAt(fields, msg, i);
             && RowReturns(fields[i], slot)
             && EncField(fields[i], slot).Some? && |EncField(fields[i], slot).value| < 0x1_0000_0000
    ensures Runs(fields, Filling(fields, msg, i), EncField(fields[i], SlotAt(fields, msg, i)).value,
                 Filling(fields, msg, i + 1))
  {
    var f := fields[i];
    var slot := SlotAt(fields, msg, i);
    var st := Filling(fields, msg, i);
    FillingAhead(fields, msg, i, i);
    if Emits(f, slot) {
      if f.htype.Repeated? {
        ArrayRow(fields, st, i, slot.items);
      } else {
        var s := EncKeyed(f, slot.v).value;
        KeyedRow(fields, st, i, slot.v, []);
        assert s + [] == s;
        if f.htype.Oneof? {
          FindTagAt(fields, i);
        }
        assert NormSlot(fields, i, slot) == Filled(f, SlotAt(fields, st.msg, i), NormVal(f, slot.v));
        RunsRecord(fields, st, s, Filling(fields, msg, i + 1));
      }
    }
  }

  lemma {:induction false} RowsRun(fields: seq<Field>, msg: Msg, i: nat)
    requires DistinctTags(fields) && Layout(fields) && i <= |fields|
    requires AllReturn(fields, msg)
    requires EncFrom(fields, msg, i).Some? && |EncFrom(fields, msg, i).value| < 0x1_0000_0000
    ensures Runs(fields, Filling(fields, msg, i), EncFrom(fields, msg, i).value, Filling(fields, msg, |fields|))
    decreases |fields| - i
  {
    hide EncField, RowReturns, Filling, DistinctTags, Layout, SlotAt;
    if i < |fields| {
      RowRuns(fields, msg, i);
      RowsRun(fields, msg, i + 1);
      RunsConcat(fields, Filling(fields, msg, i), EncField(fields[i], SlotAt(fields, msg, i)).value,
                 Filling(fields, msg, i + 1), EncFrom(fields, msg, i + 1).value, Filling(fields, msg, |fields|));
    }
  }

  // ---------------------------------------------------------------- the finished message

  lemma {:induction false} KeyIsAddr(fields: seq<Field>, i: nat, a: int)
    requires i <= |fields| && a in DefaultsUpTo(fields, i)
    ensures exists j :: 0 <= j < i && Addr(fields, j) == a
    decreases i
  {
    if a == Addr(fields, i - 1) {
    } else {
      KeyIsAddr(fields, i - 1, a);
    }
  }

  lemma {:induction false} SameKeys(fields: seq<Field>, msg: Msg, i: nat)
    requires Layout(fields) && i <= |fields|
    ensures NormUpTo(fields, msg, i).Keys == DefaultsUpTo(fields, i).Keys
    ensures Filling(fields, msg, i).msg.Keys == Defaults(fields).Keys
    decreases i
  {
    if i > 0 {
      SameKeys(fields, msg, i - 1);
      FillingAhead(fields, msg, i - 1, i - 1);
    }
  }

  /** Rows of one union agree on what it holds. */
  lemma SameUnion(fields: seq<Field>, msg: Msg, j: nat, k: nat)
    requires j < |fields| && k < |fields| && Addr(fields, j) == Addr(fields, k)
    requires fields[j].htype.Oneof? && fields[k].htype.Oneof?
    ensures SlotAt(fields, msg, j) == SlotAt(fields, msg, k)
    ensures NormSlot(fields, j, SlotAt(fields, msg, j)) == NormSlot(fields, k, SlotAt(fields, msg, k))
  {
  }

  lemma {:induction false} NormAt(fields: seq<Field>, msg: Msg, i: nat, j: nat)
    requires Layout(fields) && j < i <= |fields|
    ensures Addr(fields, j) in NormUpTo(fields, msg, i)
    ensures NormUpTo(fields, msg, i)[Addr(fields, j)] == NormSlot(fields, j, SlotAt(fields, msg, j))
    decreases i
  {
    if j < i - 1 {
      NormAt(fields, msg, i - 1, j);
      if Addr(fields, j) == Addr(fields, i - 1) {
        SameUnion(fields, msg, j, i - 1);
      }
    }
  }

  /** What the slot of row `j` holds after the rows before `i`. */
  function Expected(fields: seq<Field>, msg: Msg, i: nat, j: nat): Slot
    requires j < |fields|
  {
    var slot := SlotAt(fields, msg, j);
    if fields[j].htype.Oneof? then
      if slot.OneofSet? && Member(fields, j, slot.which).Some? && Member(fields, j, slot.which).value < i
      then NormSlot(fields, j, slot) else OneofNone
    else if j < i then NormSlot(fields, j, slot)
    else DefaultSlot(fields[j])
  }

  lemma {:induction false} FillingAt(fields: seq<Field>, msg: Msg, i: nat, j: nat)
    requires DistinctTags(fields) && Layout(fields) && i <= |fields| && j < |fields|
    requires AllReturn(fields, msg)
    ensures Addr(fields, j) in Filling(fields, msg, i).msg
    ensures Filling(fields, msg, i).msg[Addr(fields, j)] == Expected(fields, msg, i, j)
    decreases i
  {
    if i == 0 {
      FillingStart(fields, msg, j);
    } else {
      var r := i - 1;
      FillingAt(fields, msg, r, j);
      FillingStore(fields, msg, r, Addr(fields, j));
      if Addr(fields, r) == Addr(fields, j) && r != j {
        SameUnion(fields, msg, r, j);
      }
      FillingStep(fields, msg, r, j);
    }
  }

  lemma FillingStart(fields: seq<Field>, msg: Msg, j: nat)
    requires Layout(fields) && j < |fields|
    ensures Addr(fields, j) in Filling(fields, msg, 0).msg
    ensures Filling(fields, msg, 0).msg[Addr(fields, j)] == Expected(fields, msg, 0, j)
  {
    DefaultsAt(fields, |fields|, j);
  }

  lemma FillingStore(fields: seq<Field>, msg: Msg, r: nat, a: int)
    requires r < |fields| && a in Filling(fields, msg, r).msg
    ensures a in Filling(fields, msg, r + 1).msg
    ensures Filling(fields, msg, r + 1).msg[a]
         == if Addr(fields, r) == a && Emits(fields[r], SlotAt(fields, msg, r))
            then NormSlot(fields, r, SlotAt(fields, msg, r)) else Filling(fields, msg, r).msg[a]
  {
  }

  /** How one row changes what is expected of another. */
  lemma FillingStep(fields: seq<Field>, msg: Msg, r: nat, j: nat)
    requires DistinctTags(fields) && Layout(fields) && r < |fields| && j < |fields|
    requires RowReturns(fields[j], SlotAt(fields, msg, j)) && RowReturns(fields[r], SlotAt(fields, msg, r))
    requires Addr(fields, r) == Addr(fields, j) && r != j ==> (
      && SlotAt(fields, msg, r) == SlotAt(fields, msg, j)
      && fields[r].htype.Oneof? && fields[j].htype.Oneof?
      && NormSlot(fields, r, SlotAt(fields, msg, r)) == NormSlot(fields, j, SlotAt(fields, msg, j)))
    ensures Expected(fields, msg, r + 1, j)
         == if Addr(fields, r) == Addr(fields, j) && Emits(fields[r], SlotAt(fields, msg, r))
            then NormSlot(fields, r, SlotAt(fields, msg, r))
            else Expected(fields, msg, r, j)
  {
    var slot := SlotAt(fields, msg, j);
    FindTagAt(fields, r);
    if fields[j].htype.Oneof? {
      if slot.OneofSet? && Member(fields, j, slot.which) == Some(r) {
        assert fields[r].tag == slot.which && Addr(fields, r) == Addr(fields, j);
      }
    } else if r == j && !Emits(fields[j], slot) {
      if fields[j].htype.Repeated? {
        assert NormItems(fields[j], []) == [];
      }
    }
  }

  lemma FillingIsNormAt(fields: seq<Field>, msg: Msg, a: int)
    requires DistinctTags(fields) && Layout(fields) && AllReturn(fields, msg)
    requires a in DefaultsUpTo(fields, |fields|)
    ensures a in Filling(fields, msg, |fields|).msg && a in Norm(fields, msg)
    ensures Filling(fields, msg, |fields|).msg[a] == Norm(fields, msg)[a]
  {
    var n := |fields|;
    KeyIsAddr(fields, n, a);
    var j :| 0 <= j < n && Addr(fields, j) == a;
    FillingAt(fields, msg, n, j);
    NormAt(fields, msg, n, j);
  }

  lemma FillingIsNorm(fields: seq<Field>, msg: Msg)
    requires DistinctTags(fields) && Layout(fields) && AllReturn(fields, msg)
    ensures Filling(fields, msg, |fields|).msg == Norm(fields, msg)
  {
    SameKeys(fields, msg, |fields|);
    forall a | a in Norm(fields, msg) ensures Filling(fields, msg, |fields|).msg[a] == Norm(fields, msg)[a] {
      FillingIsNormAt(fields, msg, a);
    }
  }

  // ---------------------------------------------------------------- the theorem

  lemma MessageRoundTripFrom(fields: seq<Field>, msg: Msg)
    requires WellFormed(fields) && EncMsg(fields, msg).Some? && |EncMsg(fields, msg).value| < 0x1_0000_0000
    requires AllReturn(fields, msg)
    ensures Decode(fields, EncMsg(fields, msg).value) == Ok(Norm(fields, msg), [], Exact)
  {
    RowsRun(fields, msg, 0);
    FillingSeen(fields, msg, |fields|);
    FillingIsNorm(fields, msg);
  }

  lemma {:induction false} ValueRoundTrip(f: Field, v: Val)
    requires WellFormedRow(f) && FitsVal(f, v)
    requires EncVal(f, v).Some? && |EncVal(f, v).value| < 0x1_0000_0000
    ensures ValueReturns(f, v)
    decreases f, 0
  {
    if f.ltype.Submessage? {
      MessageRoundTrip(f.sub, v.cells);
    }
  }

  lemma {:induction false} ItemSize(f: Field, items: seq<Val>, i: nat, k: nat)
    requires i <= k < |items|
    ensures EncPacked(f, items, i).Some? ==>
      EncVal(f, items[k]).Some? && |EncVal(f, items[k]).value| <= |EncPacked(f, items, i).value|
    ensures EncUnpacked(f, items, i).Some? ==>
      EncVal(f, items[k]).Some? && |EncVal(f, items[k]).value| <= |EncUnpacked(f, items, i).value|
    decreases k - i
  {
    assert EncUnpacked(f, items, i) == Cat(EncKeyed(f, items[i]), EncUnpacked(f, items, i + 1));
    assert EncPacked(f, items, i) == Cat(EncVal(f, items[i]), EncPacked(f, items, i + 1));
    if i < k {
      ItemSize(f, items, i + 1, k);
    }
  }

  lemma {:induction false} RowRoundTrip(f: Field, slot: Slot)
    requires WellFormedRow(f) && FitsSlot(f, slot)
    requires EncField(f, slot).Some? && |EncField(f, slot).value| < 0x1_0000_0000
    ensures RowReturns(f, slot)
    decreases f, 1
  {
    if f.htype.Repeated? {
      forall k | 0 <= k < |slot.items| ensures ValueReturns(f, slot.items[k]) {
        ItemSize(f, slot.items, 0, k);
        ValueRoundTrip(f, slot.items[k]);
      }
    } else if Emits(f, slot) {
      ValueRoundTrip(f, slot.v);
    }
  }

  lemma {:induction false} RowSize(fields: seq<Field>, msg: Msg, i: nat, k: nat)
    requires i <= k < |fields| && EncFrom(fields, msg, i).Some?
    ensures EncField(fields[k], SlotAt(fields, msg, k)).Some?
    ensures |EncField(fields[k], SlotAt(fields, msg, k)).value| <= |EncFrom(fields, msg, i).value|
    decreases k - i
  {
    if i < k {
      RowSize(fields, msg, i + 1, k);
    }
  }

  /** Decoding an encoded message succeeds, uses every byte and gives the message back in normal
      form: for every well-formed descriptor tree, every message that fits it, and every
      encoding short enough for a 32-bit length. */
  lemma {:induction false} MessageRoundTrip(fields: seq<Field>, msg: Msg)
    requires WellFormed(fields) && FitsMsg(fields, msg)
    requires EncMsg(fields, msg).Some? && |EncMsg(fields, msg).value| < 0x1_0000_0000
    ensures Decode(fields, EncMsg(fields, msg).value) == Ok(Norm(fields, msg), [], Exact)
    decreases fields, 2
  {
    forall k | 0 <= k < |fields| ensures RowReturns(fields[k], SlotAt(fields, msg, k)) {
      RowSize(fields, msg, 0, k);
      RowRoundTrip(fields[k], SlotAt(fields, msg, k));
    }
    MessageRoundTripFrom(fields, msg);
  }
}
