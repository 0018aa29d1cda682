/** What the decoder accepts fits the fields it is stored in. */
module PbBounds {
  import opened Common
  import opened PbDecoding
  import opened PbDescriptor
  import opened PbEncoding
  import opened PbMessages
  import opened PbRoundTrip
  import opened PbWire

  // ---------------------------------------------------------------- single values

  /** The number `n` that a 64-bit varint `u` stands for in a field: the same number, the zigzag
      image of it, or a number with the same low 32 or 64 bits. */
  predicate Denotes(f: Field, u: nat, n: int) {
    if f.ltype.UVarint? then n == u
    else if f.ltype.SVarint? then u == if n < 0 then -2 * n - 1 else 2 * n
    else if f.dataSize == 8 then (n - u) % 0x1_0000_0000_0000_0000 == 0
    else (n - u) % 0x1_0000_0000 == 0
  }

  lemma Low32(u: nat, n: int)
    requires -0x8000_0000 <= n < 0x8000_0000
    ensures n == ToSigned(u, 4) <==> (n - u) % 0x1_0000_0000 == 0
  {
  }

  lemma Low64(u: nat, n: int)
    requires -0x8000_0000_0000_0000 <= n < 0x8000_0000_0000_0000
    ensures n == ToSigned(u, 8) <==> (n - u) % 0x1_0000_0000_0000_0000 == 0
  {
  }

  lemma Cast8(n: int)
    ensures (ToSigned(n, 1) == n <==> FitsSigned(n, 1)) && FitsSigned(ToSigned(n, 1), 1)
  {
  }

  lemma Cast16(n: int)
    ensures (ToSigned(n, 2) == n <==> FitsSigned(n, 2)) && FitsSigned(ToSigned(n, 2), 2)
  {
  }

  lemma Cast32(n: int)
    ensures (ToSigned(n, 4) == n <==> FitsSigned(n, 4)) && FitsSigned(ToSigned(n, 4), 4)
  {
  }

  lemma Cast64(n: int)
    ensures (ToSigned(n, 8) == n <==> FitsSigned(n, 8)) && FitsSigned(ToSigned(n, 8), 8)
  {
  }

  /** A cast keeps exactly the numbers of its width. */
  lemma CastKeeps(n: int, size: nat)
    requires size in {1, 2, 4, 8}
    ensures ToSigned(n, size) == n <==> FitsSigned(n, size)
    ensures FitsSigned(ToSigned(n, size), size)
  {
    hide ToSigned, FitsSigned;
    if size == 1 {
      Cast8(n);
    } else if size == 2 {
      Cast16(n);
    } else if size == 4 {
      Cast32(n);
    } else {
      Cast64(n);
    }
  }

  lemma HalfRange(h: nat)
    requires h < 0x8000_0000_0000_0000
    ensures ToSigned(h, 8) == h && ToSigned(0x1_0000_0000_0000_0000 - 1 - h, 8) == -1 - h
  {
  }

  lemma ZigZagOf(u: nat, n: int)
    requires u < 0x1_0000_0000_0000_0000
    ensures FitsSigned(UnZigZag(u), 8)
    ensures n == UnZigZag(u) <==> u == if n < 0 then -2 * n - 1 else 2 * n
  {
    hide ToSigned;
    HalfRange(u / 2);
  }

  /** Which numbers a varint field accepts: exactly those of the field's range, and each as the
      number it denotes there. */
  lemma VarintAccepted(f: Field, u: nat, n: int)
    requires f.ltype in {Varint, UVarint, SVarint} && f.dataSize in {1, 2, 4, 8} && u < 0x1_0000_0000_0000_0000
    ensures CheckNumber(f, u) == Some(n) <==> FitsNumber(f, Num(n)) && Denotes(f, u, n)
  {
    if f.ltype.Varint? {
      CastKeeps(u, 8);
      CastKeeps(u, 4);
      CastKeeps(ToSigned(u, 4), f.dataSize);
      if FitsSigned(n, f.dataSize) {
        if f.dataSize == 8 {
          Low64(u, n);
        } else {
          Low32(u, n);
        }
      }
    } else if f.ltype.SVarint? {
      ZigZagOf(u, n);
      CastKeeps(UnZigZag(u), f.dataSize);
    }
    hide ToSigned, UnZigZag;
  }

  /** Which bytes and strings are accepted: those that leave room for the count, or for the NUL. */
  lemma BlobAccepted(f: Field, body: seq<byte>, tail: seq<byte>)
    requires f.ltype in {Bytes, String} && |body| < 0x1_0000_0000
    ensures DecBlob(f, VarintBytes(|body|) + body + tail) ==
      if f.ltype.Bytes? then
        if |body| + 2 <= f.dataSize && |body| < 0x1_0000 then Ok(Blob(body), tail, Exact) else Fail
      else if |body| + 1 <= f.dataSize then Ok(Blob(CString(body, |body|)), tail, Exact)
      else Fail
  {
    hide *;
    Reassociate(VarintBytes(|body|), body, tail);
    VarintRoundTrip32(|body|, body + tail);
    BlobOf(f, VarintBytes(|body|) + body + tail, body, tail);
  }

  lemma Reassociate(a: seq<byte>, b: seq<byte>, c: seq<byte>)
    ensures a + b + c == a + (b + c)
  {
  }

  lemma BlobOf(f: Field, s: seq<byte>, body: seq<byte>, tail: seq<byte>)
    requires f.ltype in {Bytes, String} && Varint32(s) == Ok(|body|, body + tail, Exact)
    ensures DecBlob(f, s) ==
      if f.ltype.Bytes? then
        if |body| + 2 <= f.dataSize && |body| < 0x1_0000 then Ok(Blob(body), tail, Exact) else Fail
      else if |body| + 1 <= f.dataSize then Ok(Blob(CString(body, |body|)), tail, Exact)
      else Fail
  {
    assert (body + tail)[..|body|] == body && (body + tail)[|body|..] == tail;
    hide Varint32, CString;
  }

  lemma {:induction false} FixedBelow(s: seq<byte>)
    ensures FixedValue(s) < Pow256(|s|)
    decreases |s|
  {
    if s != [] {
      FixedBelow(s[1..]);
    }
  }

  lemma {:induction false} CStringShort(bs: seq<byte>, n: nat, max: nat)
    requires |bs| <= n <= max
    ensures |CString(CString(bs, n), max)| <= |bs|
  {
  }

  lemma FixedFits(l: LType, s: seq<byte>)
    requires (l.Fixed32? || l.Fixed64?) && DecFixed(l, s).Ok?
    ensures var v := DecFixed(l, s).value;
      v.Num? && 0 <= v.n < if l.Fixed32? then 0x1_0000_0000 else 0x1_0000_0000_0000_0000
  {
    FixedBelow(s[..FixedWidth(l)]);
    Pow256Values(FixedWidth(l));
  }

  /** A number that is decoded fits. */
  lemma NumberFits(f: Field, s: seq<byte>)
    requires Packable(f.ltype) && WellFormedRow(f) && DecNumber(f, s).Ok?
    ensures FitsNumber(f, DecNumber(f, s).value)
  {
    if f.ltype.Fixed32? || f.ltype.Fixed64? {
      FixedFits(f.ltype, s);
    } else {
      var u := Varint64(s).value;
      VarintAccepted(f, u, CheckNumber(f, u).value);
    }
    hide DecFixed, CheckNumber, VarintFrom;
  }

  lemma BlobFits(f: Field, s: seq<byte>)
    requires f.ltype in {Bytes, String} && DecBlob(f, s).Ok?
    ensures FitsVal(f, DecBlob(f, s).value)
  {
    var r := Varint32(s);
    var body := r.rest[..r.value];
    if f.ltype.String? {
      CStringShort(body, r.value, f.dataSize);
    }
    hide Varint32, CString;
  }

  // ---------------------------------------------------------------- whole storage

  /** Everything stored in a field fits it, whether it is set or not: what is decoded into an
      optional submessage is merged into what the struct already holds. */
  predicate WholeVal(f: Field, v: Val)
    decreases f, 0
  {
    if f.ltype.Submessage? then v.Struct? && WholeMsg(f.sub, v.cells) else FitsVal(f, v)
  }

  predicate WholeSlot(f: Field, slot: Slot)
    decreases f, 1
  {
    match f.htype
    case Required => slot.Single? && WholeVal(f, slot.v)
    case Optional => slot.Opt? && WholeVal(f, slot.v)
    case Repeated =>
      slot.Rep? && |slot.items| <= f.arraySize && forall k :: 0 <= k < |slot.items| ==> WholeVal(f, slot.items[k])
    case Oneof => slot.OneofNone? || (slot.OneofSet? && (slot.which == f.tag ==> WholeVal(f, slot.v)))
  }

  predicate WholeMsg(fields: seq<Field>, msg: Msg) {
    forall i :: 0 <= i < |fields| ==> WholeSlot(fields[i], SlotAt(fields, msg, i))
  }

  /** The default values of a descriptor tree fit their fields. */
  predicate DefaultsFit(fields: seq<Field>) {
    forall i :: 0 <= i < |fields| ==> DefaultFits(fields[i])
  }

  predicate DefaultFits(f: Field) {
    if f.ltype.Submessage? then DefaultsFit(f.sub) else FitsVal(f, DefaultVal(f))
  }

  lemma {:induction false} WholeValFits(f: Field, v: Val)
    requires WholeVal(f, v)
    ensures FitsVal(f, v)
    decreases f, 0
  {
    if f.ltype.Submessage? {
      WholeFits(f.sub, v.cells);
    }
  }

  /** What is whole is within its bounds. */
  lemma {:induction false} WholeFits(fields: seq<Field>, msg: Msg)
    requires WholeMsg(fields, msg)
    ensures FitsMsg(fields, msg)
    decreases fields, 2
  {
    forall i | 0 <= i < |fields| ensures FitsSlot(fields[i], SlotAt(fields, msg, i)) {
      WholeSlotFits(fields[i], SlotAt(fields, msg, i));
    }
  }

  lemma {:induction false} WholeSlotFits(f: Field, slot: Slot)
    requires WholeSlot(f, slot)
    ensures FitsSlot(f, slot)
    decreases f, 1
  {
    if slot.Rep? {
      forall k | 0 <= k < |slot.items| && f.htype.Repeated? ensures FitsVal(f, slot.items[k]) {
        WholeValFits(f, slot.items[k]);
      }
    } else if !slot.OneofNone? && WholeVal(f, slot.v) {
      WholeValFits(f, slot.v);
    }
  }

  /** Defaults are whole exactly when they fit. */
  lemma {:induction false} DefaultsWhole(fields: seq<Field>)
    requires WellFormed(fields) && DefaultsFit(fields)
    ensures WholeMsg(fields, Defaults(fields))
    decreases fields, 2
  {
    forall i | 0 <= i < |fields| ensures WholeSlot(fields[i], SlotAt(fields, Defaults(fields), i)) {
      DefaultsAt(fields, |fields|, i);
      DefaultSlotWhole(fields[i]);
    }
  }

  lemma {:induction false} DefaultSlotWhole(f: Field)
    requires WellFormedRow(f) && DefaultFits(f)
    ensures WholeVal(f, DefaultVal(f)) && WholeSlot(f, DefaultSlot(f))
    decreases f, 1
  {
    if f.ltype.Submessage? {
      DefaultsWhole(f.sub);
    }
  }

  // ---------------------------------------------------------------- every input

  /** A decoded value is whole, whatever the bytes are. */
  lemma {:induction false} ValueWhole(f: Field, prior: Val, s: seq<byte>)
    requires WellFormedRow(f) && DefaultFits(f) && (f.ltype.Submessage? ==> WholeVal(f, prior))
    requires DecVal(f, prior, s).Ok?
    ensures WholeVal(f, DecVal(f, prior, s).value)
    decreases |s|, 0
  {
    if Packable(f.ltype) {
      NumberFits(f, s);
    } else if !f.ltype.Submessage? {
      BlobFits(f, s);
    } else {
      var base := SubmessageBase(f, prior);
      DefaultsWhole(f.sub);
      MsgWhole(f.sub, Substream(s).value, base);
      hide DecMsg, Substream, WholeMsg;
    }
  }

  lemma {:induction false} PackedWhole(f: Field, items: seq<Val>, s: seq<byte>)
    requires Packable(f.ltype) && WellFormedRow(f) && |items| <= f.arraySize
    requires forall k :: 0 <= k < |items| ==> WholeVal(f, items[k])
    requires DecPacked(f, items, s).Some?
    ensures var r := DecPacked(f, items, s).value;
      |r| <= f.arraySize && forall k :: 0 <= k < |r| ==> WholeVal(f, r[k])
    decreases |s|
  {
    if s != [] {
      NumberFits(f, s);
      var r := DecNumber(f, s);
      PackedWhole(f, items + [r.value], r.rest);
    }
  }

  lemma {:induction false} FieldWhole(f: Field, wt: nat, slot: Slot, s: seq<byte>)
    requires WellFormedRow(f) && DefaultFits(f) && WholeSlot(f, slot) && DecField(f, wt, slot, s).Ok?
    ensures WholeSlot(f, DecField(f, wt, slot, s).value)
    ensures f.htype.Oneof? ==> DecField(f, wt, slot, s).value.OneofSet? && DecField(f, wt, slot, s).value.which == f.tag
    decreases |s|, 1
  {
    if f.htype.Repeated? && wt == WT_STRING && Packable(f.ltype) {
      PackedWhole(f, Items(slot), Substream(s).value);
    } else {
      if f.ltype.Submessage? {
        DefaultSlotWhole(f);
      }
      ValueWhole(f, OldVal(f, slot), s);
    }
    hide DecVal, WholeVal, DecPacked, Substream, DefaultVal;
  }

  /** Storing a whole slot keeps a message whole; a union is stored with the tag of its member. */
  lemma StoreWhole(fields: seq<Field>, st: State, i: nat, slot: Slot)
    requires WellFormed(fields) && i < |fields| && WholeMsg(fields, st.msg) && WholeSlot(fields[i], slot)
    requires fields[i].htype.Oneof? ==> slot.OneofSet? && slot.which == fields[i].tag
    ensures WholeMsg(fields, Store(fields, st, i, slot).msg)
  {
    var m := Store(fields, st, i, slot).msg;
    forall j | 0 <= j < |fields| ensures WholeSlot(fields[j], SlotAt(fields, m, j)) {
      if j != i && Addr(fields, j) == Addr(fields, i) {
        OtherMember(fields, i, j, slot);
      } else {
        assert WholeSlot(fields[j], SlotAt(fields, st.msg, j));
      }
      hide WholeSlot, DefaultSlot, WellFormed;
    }
  }

  lemma OtherMember(fields: seq<Field>, i: nat, j: nat, slot: Slot)
    requires WellFormed(fields) && i < |fields| && j < |fields| && i != j && Addr(fields, i) == Addr(fields, j)
    requires fields[i].htype.Oneof? ==> slot.OneofSet? && slot.which == fields[i].tag
    ensures WholeSlot(fields[j], slot)
  {
    assert DistinctTags(fields) && Layout(fields);
    hide WellFormed, Addr, WholeVal;
  }

  lemma {:induction false} LoopWhole(fields: seq<Field>, st: State, s: seq<byte>)
    requires WellFormed(fields) && DefaultsFit(fields) && WholeMsg(fields, st.msg) && DecLoop(fields, st, s).Ok?
    ensures WholeMsg(fields, DecLoop(fields, st, s).value.msg)
    decreases |s|, 3
  {
    if s != [] && DecRecord(fields, st, s).Next? {
      RecordWhole(fields, st, s);
      LoopWhole(fields, DecRecord(fields, st, s).st, DecRecord(fields, st, s).rest);
    }
    hide DecRecord, WholeMsg, WellFormed, DefaultsFit;
  }

  lemma {:induction false} RecordWhole(fields: seq<Field>, st: State, s: seq<byte>)
    requires WellFormed(fields) && DefaultsFit(fields) && WholeMsg(fields, st.msg) && DecRecord(fields, st, s).Next?
    ensures WholeMsg(fields, DecRecord(fields, st, s).st.msg)
    decreases |s|, 2
  {
    var t := ReadTag(s);
    var found := FindTag(fields, t.tag);
    if found.Some? {
      var i := found.value;
      var slot := SlotAt(fields, st.msg, i);
      assert WellFormedRow(fields[i]) && DefaultFits(fields[i]) && WholeSlot(fields[i], slot);
      hide WholeMsg, WellFormed, DefaultsFit, DecField, WholeSlot, Store;
      FieldWhole(fields[i], t.wt, slot, t.rest);
      StoreWhole(fields, st, i, DecField(fields[i], t.wt, slot, t.rest).value);
    }
  }

  /** Whatever the bytes are, a message that is accepted is whole if what it is decoded over is. */
  lemma {:induction false} MsgWhole(fields: seq<Field>, s: seq<byte>, base: Msg)
    requires WellFormed(fields) && DefaultsFit(fields) && WholeMsg(fields, base) && DecMsg(fields, s, base).Ok?
    ensures WholeMsg(fields, DecMsg(fields, s, base).value)
    decreases |s|, 4
  {
    LoopWhole(fields, State(base, {}), s);
    hide DecLoop, WholeMsg;
  }

  /** A message that `pb_decode` accepts is within its bounds at every depth, for every input. */
  lemma DecodedFits(fields: seq<Field>, s: seq<byte>)
    requires WellFormed(fields) && DefaultsFit(fields) && Decode(fields, s).Ok?
    ensures FitsMsg(fields, Decode(fields, s).value)
  {
    DefaultsWhole(fields);
    MsgWhole(fields, s, Defaults(fields));
    WholeFits(fields, Decode(fields, s).value);
  }

  /** And likewise for `pb_decode_noinit`, over a struct that is whole. */
  lemma DecodedOverFits(fields: seq<Field>, s: seq<byte>, base: Msg)
    requires WellFormed(fields) && DefaultsFit(fields) && WholeMsg(fields, base) && DecMsg(fields, s, base).Ok?
    ensures FitsMsg(fields, DecMsg(fields, s, base).value)
  {
    MsgWhole(fields, s, base);
    WholeFits(fields, DecMsg(fields, s, base).value);
  }

  /** That the struct is within its bounds is not enough: an optional submessage that is not set may
      hold any cells, and a record without fields sets it with them. The result is within its bounds
      exactly when those cells were. */
  lemma StaleOptional(f: Field, cells: Msg)
    requires f.htype.Optional? && f.ltype.Submessage? && 0 < f.tag < 16 && RequiredBefore(f.sub, |f.sub|) == 0
    ensures FitsMsg([f], map[Addr([f], 0) := Opt(false, Struct(cells))])
    ensures var r := map[Addr([f], 0) := Opt(true, Struct(cells))];
      && DecMsg([f], [8 * f.tag + 2, 0], map[Addr([f], 0) := Opt(false, Struct(cells))]) == Ok(r, [], Exact)
      && (FitsMsg([f], r) <==> FitsMsg(f.sub, cells))
  {
    var s: seq<byte> := [8 * f.tag + 2, 0];
    var base := map[Addr([f], 0) := Opt(false, Struct(cells))];
    var r := map[Addr([f], 0) := Opt(true, Struct(cells))];
    StaleRecord(f, cells, s);
    assert base[Addr([f], 0) := Opt(true, Struct(cells))] == r;
    var st := State(base, {});
    assert DecLoop([f], State(r, {}), []) == Ok(State(r, {}), [], Exact);
    assert DecLoop([f], st, s) == Ok(State(r, {}), [], Exact) by {
      hide DecRecord;
    }
    assert RequiredBefore([f], 0) == 0 && RequiredBefore([f], 1) == 0;
    hide DecLoop, DecRecord, FitsMsg;
    FitsOne(f, base);
    FitsOne(f, r);
  }

  lemma FitsOne(f: Field, msg: Msg)
    ensures FitsMsg([f], msg) <==> FitsSlot(f, SlotAt([f], msg, 0))
  {
    assert [f][0] == f;
    hide FitsSlot;
  }

  lemma StaleRecord(f: Field, cells: Msg, s: seq<byte>)
    requires f.htype.Optional? && f.ltype.Submessage? && 0 < f.tag < 16 && RequiredBefore(f.sub, |f.sub|) == 0
    requires s == [8 * f.tag + 2, 0]
    ensures var base := map[Addr([f], 0) := Opt(false, Struct(cells))];
      DecRecord([f], State(base, {}), s) == Next(Store([f], State(base, {}), 0, Opt(true, Struct(cells))), [], Exact)
  {
    assert s[1..] == [0] && s[1..][1..] == [];
    assert ReadTag(s) == Tag(f.tag, 2, [0]);
    assert FindTag([f], f.tag) == Some(0);
    assert Substream([0]) == Ok([], [], Exact);
    assert DecLoop(f.sub, State(cells, {}), []) == Ok(State(cells, {}), [], Exact);
    assert DecMsg(f.sub, [], cells) == Ok(cells, [], Exact);
    var slot := Opt(false, Struct(cells));
    assert DecVal(f, Struct(cells), [0]) == Ok(Struct(cells), [], Exact);
    assert DecField(f, 2, slot, [0]) == Ok(Opt(true, Struct(cells)), [], Exact);
    hide DecField, DecVal, DecMsg, DecLoop, Varint32, ReadTag, FindTag;
  }
}
