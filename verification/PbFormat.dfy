/** The bytes of an encoded message, taken apart by the Protocol Buffers wire format alone: groups
    of seven bits, keys of a field number and a wire type, and payloads (Encoding, "Base 128 Varints",
    "Message Structure" and "Packed Repeated Fields"). */
module PbFormat {
  import opened Common
  import opened PbDecoding
  import opened PbDescriptor
  import opened PbEncoding
  import opened PbRoundTrip
  import opened PbWire

  // ---------------------------------------------------------------- reading the format

  /** The length of the varint at the front: up to the first byte with a clear top bit. */
  function GroupCount(s: seq<byte>): Option<nat> {
    if s == [] then None
    else if s[0] < 128 then Some(1)
    else
      match GroupCount(s[1..])
      case None => None
      case Some(n) => Some(n + 1)
  }

  /** The groups of seven bits, the least significant first. */
  function GroupSum(s: seq<byte>): nat {
    if s == [] then 0 else s[0] % 128 + 128 * GroupSum(s[1..])
  }

  /** A varint that is all of `s`. */
  predicate IsVarint(s: seq<byte>, v: nat) {
    GroupCount(s) == Some(|s|) && GroupSum(s) == v
  }

  /** A record: the two parts of its key, and the bytes of its payload without their length. */
  datatype Record = Record(tag: nat, wire: nat, payload: seq<byte>)

  function ReadRecord(s: seq<byte>): (r: Option<(Record, seq<byte>)>)
    ensures r.Some? ==> |r.value.1| < |s|
  {
    var k := GroupCount(s);
    if k.None? || k.value > |s| then None
    else
      var key, rest := GroupSum(s[..k.value]), s[k.value..];
      var payload := ReadPayload(key % 8, rest);
      if payload.None? || k.value == 0 then None
      else Some((Record(key / 8, key % 8, payload.value.0), payload.value.1))
  }

  /** The payload that a wire type announces: a varint, eight or four bytes, or a length and as
      many bytes. */
  function ReadPayload(wire: nat, s: seq<byte>): (r: Option<(seq<byte>, seq<byte>)>)
    ensures r.Some? ==> |r.value.1| <= |s|
  {
    var n := GroupCount(s);
    if wire == 0 then if n.None? || n.value > |s| then None else Some((s[..n.value], s[n.value..]))
    else if wire == 1 then if |s| < 8 then None else Some((s[..8], s[8..]))
    else if wire == 5 then if |s| < 4 then None else Some((s[..4], s[4..]))
    else if wire == 2 then
      if n.None? || n.value > |s| then None
      else
        var size, rest := GroupSum(s[..n.value]), s[n.value..];
        if |rest| < size then None else Some((rest[..size], rest[size..]))
    else None
  }

  /** A message as its records. */
  function Records(s: seq<byte>): (r: Option<seq<Record>>)
    decreases |s|
  {
    if s == [] then Some([])
    else
      match ReadRecord(s)
      case None => None
      case Some(p) =>
        match Records(p.1)
        case None => None
        case Some(rs) => Some([p.0] + rs)
  }

  // ---------------------------------------------------------------- what a message looks like

  function LittleEndian(s: seq<byte>): nat {
    if s == [] then 0 else s[0] + 256 * LittleEndian(s[1..])
  }

  /** The bytes of a string up to its NUL, or the whole buffer of `max` characters. */
  predicate IsText(text: seq<byte>, buffer: seq<byte>, max: nat) {
    && text <= buffer && |text| <= max && 0 !in text
    && (|text| < max && |text| < |buffer| ==> buffer[|text|] == 0)
  }

  /** The wire type of a field type. */
  function Wire(l: LType): nat {
    match l
    case Varint => 0
    case UVarint => 0
    case SVarint => 0
    case Fixed64 => 1
    case Fixed32 => 5
    case _ => 2
  }

  /** The payload of a value. */
  ghost predicate Carries(f: Field, v: Val, payload: seq<byte>)
    decreases f, 0
  {
    match f.ltype
    case Varint => v.Num? && IsVarint(payload, v.n % 0x1_0000_0000_0000_0000)
    case UVarint => v.Num? && IsVarint(payload, v.n % 0x1_0000_0000_0000_0000)
    case SVarint => v.Num? && IsVarint(payload, if v.n < 0 then -2 * v.n - 1 else 2 * v.n)
    case Fixed32 => v.Num? && |payload| == 4 && LittleEndian(payload) == v.n % 0x1_0000_0000
    case Fixed64 => v.Num? && |payload| == 8 && LittleEndian(payload) == v.n % 0x1_0000_0000_0000_0000
    case Bytes => v == Blob(payload)
    case String => v.Blob? && IsText(payload, v.bs, f.dataSize)
    case Submessage =>
      v.Struct? && Records(payload).Some? && MessageRecords(f.sub, v.cells, 0, Records(payload).value)
  }

  /** The values of a packed array, one after the other. */
  ghost predicate CarriesAll(f: Field, items: seq<Val>, payload: seq<byte>)
    decreases f, 1, |items|
  {
    if items == [] then payload == []
    else
      exists n :: 0 <= n <= |payload| && Carries(f, items[0], payload[..n]) && CarriesAll(f, items[1..], payload[n..])
  }

  ghost predicate CarriesOne(f: Field, v: Val, r: Record)
    decreases f, 1, 0
  {
    r.tag == f.tag && r.wire == Wire(f.ltype) && Carries(f, v, r.payload)
  }

  /** How many records a row has. */
  function RecordCount(f: Field, slot: Slot): nat {
    match slot
    case Single(_) => 1
    case Opt(has, _) => if has then 1 else 0
    case Rep(items) => if items == [] then 0 else if Wire(f.ltype) == 2 then |items| else 1
    case OneofNone => 0
    case OneofSet(which, _) => if which == f.tag then 1 else 0
  }

  /** The records of a row: one for a value that is set, one for a packed array that is not empty,
      one for each entry of any other array. */
  ghost predicate RowRecords(f: Field, slot: Slot, rs: seq<Record>)
    decreases f, 2, 0
  {
    && |rs| == RecordCount(f, slot)
    && match slot
       case Rep(items) =>
         if Wire(f.ltype) == 2 then forall k :: 0 <= k < |rs| ==> CarriesOne(f, items[k], rs[k])
         else rs == [] || (rs[0].tag == f.tag && rs[0].wire == 2 && CarriesAll(f, items, rs[0].payload))
       case OneofNone => true
       case _ => rs == [] || CarriesOne(f, slot.v, rs[0])
  }

  /** The records of the rows from `i` on, in order. */
  ghost predicate MessageRecords(fields: seq<Field>, msg: Msg, i: nat, rs: seq<Record>)
    requires i <= |fields|
    decreases fields, 3, |fields| - i
  {
    if i == |fields| then rs == []
    else
      var n := RecordCount(fields[i], SlotAt(fields, msg, i));
      && n <= |rs| && RowRecords(fields[i], SlotAt(fields, msg, i), rs[..n])
      && MessageRecords(fields, msg, i + 1, rs[n..])
  }

  // ---------------------------------------------------------------- varints and payloads

  /** What follows a varint is not part of it. */
  lemma {:induction false} VarintThen(a: seq<byte>, tail: seq<byte>)
    requires GroupCount(a) == Some(|a|)
    ensures GroupCount(a + tail) == Some(|a|) && (a + tail)[..|a|] == a && (a + tail)[|a|..] == tail
    decreases |a|
  {
    assert (a + tail)[1..] == a[1..] + tail;
    if a[0] >= 128 {
      VarintThen(a[1..], tail);
    }
  }

  lemma {:induction false} VarintIs(v: nat)
    ensures IsVarint(VarintBytes(v), v)
  {
    if v >= 128 {
      VarintIs(v / 128);
      assert VarintBytes(v)[1..] == VarintBytes(v / 128);
    }
  }

  lemma VarintPayload(v: nat, tail: seq<byte>)
    ensures ReadPayload(0, VarintBytes(v) + tail) == Some((VarintBytes(v), tail))
  {
    VarintIs(v);
    VarintThen(VarintBytes(v), tail);
    hide GroupCount, GroupSum, VarintBytes;
  }

  lemma DelimitedPayload(body: seq<byte>, tail: seq<byte>)
    ensures ReadPayload(2, Delimited(body) + tail) == Some((body, tail))
  {
    var size := VarintBytes(|body|);
    assert Delimited(body) + tail == size + (body + tail);
    VarintIs(|body|);
    VarintThen(size, body + tail);
    hide GroupCount, GroupSum, VarintBytes;
    assert (body + tail)[..|body|] == body && (body + tail)[|body|..] == tail;
  }

  lemma FixedPayload(s: seq<byte>, tail: seq<byte>)
    ensures |s| == 4 ==> ReadPayload(5, s + tail) == Some((s, tail))
    ensures |s| == 8 ==> ReadPayload(1, s + tail) == Some((s, tail))
  {
    assert (s + tail)[..|s|] == s && (s + tail)[|s|..] == tail;
    hide GroupCount, GroupSum;
  }

  lemma {:induction false} FixedIs(v: nat, width: nat)
    requires v < Pow256(width)
    ensures LittleEndian(Fixed(v, width)) == v
    decreases width
  {
    if width > 0 {
      assert v / 256 < Pow256(width - 1);
      FixedIs(v / 256, width - 1);
      assert Fixed(v, width)[1..] == Fixed(v / 256, width - 1);
    }
  }

  lemma KeySplits(tag: nat, wire: nat)
    requires wire < 8
    ensures (tag * 8 + wire) / 8 == tag && (tag * 8 + wire) % 8 == wire
  {
  }

  /** A key before a payload makes a record. */
  lemma KeyedPayload(wire: nat, tag: nat, s: seq<byte>, payload: seq<byte>, tail: seq<byte>)
    requires wire < 8 && ReadPayload(wire, s + tail) == Some((payload, tail))
    ensures ReadRecord((Key(wire, tag) + s) + tail) == Some((Record(tag, wire, payload), tail))
  {
    var key, rest := Key(wire, tag), s + tail;
    Reassociate(key, s, tail);
    VarintIs(tag * 8 + wire);
    KeySplits(tag, wire);
    hide GroupCount, GroupSum, ReadPayload, VarintBytes;
    VarintThen(key, rest);
    KeyThen(key, rest, wire, tag);
  }

  lemma KeyThen(key: seq<byte>, rest: seq<byte>, wire: nat, tag: nat)
    requires GroupCount(key + rest) == Some(|key|) && (key + rest)[..|key|] == key && (key + rest)[|key|..] == rest
    requires key != [] && GroupSum(key) / 8 == tag && GroupSum(key) % 8 == wire && ReadPayload(wire, rest).Some?
    ensures var p := ReadPayload(wire, rest).value; ReadRecord(key + rest) == Some((Record(tag, wire, p.0), p.1))
  {
    hide GroupCount, GroupSum, ReadPayload;
  }

  lemma Reassociate(a: seq<byte>, b: seq<byte>, c: seq<byte>)
    ensures (a + b) + c == a + (b + c)
  {
  }

  lemma RecordsCons(s: seq<byte>, r: Record, rest: seq<byte>, rs: seq<Record>)
    requires ReadRecord(s) == Some((r, rest)) && Records(rest) == Some(rs)
    ensures Records(s) == Some([r] + rs)
  {
    assert s != [] by {
      assert GroupCount([]) == None;
    }
    hide ReadRecord;
  }

  // ---------------------------------------------------------------- values

  lemma WireIs(l: LType)
    ensures WireType(l) == Wire(l)
  {
  }

  /** A number as its wire type has it. */
  lemma NumberFormat(f: Field, v: Val, tail: seq<byte>)
    requires Packable(f.ltype) && FitsNumber(f, v)
    ensures EncNumber(f, v).Some? && ReadPayload(Wire(f.ltype), EncNumber(f, v).value + tail) == Some((EncNumber(f, v).value, tail))
    ensures Carries(f, v, EncNumber(f, v).value)
  {
    if f.ltype.Fixed32? || f.ltype.Fixed64? {
      var width := FixedWidth(f.ltype);
      Pow256Values(width);
      FixedIs(FixedBits(f.ltype, v.n), width);
      FixedPayload(Fixed(FixedBits(f.ltype, v.n), width), tail);
      hide Fixed, LittleEndian, ReadPayload, Pow256;
    } else {
      var u := if f.ltype.SVarint? then ZigZag(v.n) else ToU64(v.n);
      if f.ltype.SVarint? {
        SignedIdentity(v.n, f.dataSize);
        ZigZagRoundTrip(v.n);
      }
      VarintIs(u);
      VarintPayload(u, tail);
      hide VarintBytes, IsVarint, ReadPayload, ZigZag, UnZigZag;
    }
  }

  lemma TextIs(bs: seq<byte>, max: nat)
    ensures IsText(CString(bs, max), bs, max)
  {
  }

  /** A value as its wire type has it: the payload behind the key. */
  lemma {:induction false} ValFormat(f: Field, v: Val, tail: seq<byte>) returns (payload: seq<byte>)
    requires WellFormedRow(f) && FitsVal(f, v) && EncVal(f, v).Some?
    ensures ReadPayload(Wire(f.ltype), EncVal(f, v).value + tail) == Some((payload, tail))
    ensures Carries(f, v, payload)
    decreases f, 0
  {
    match f.ltype
    case Bytes =>
      payload := v.bs;
      DelimitedPayload(payload, tail);
    case String =>
      payload := CString(v.bs, f.dataSize);
      TextIs(v.bs, f.dataSize);
      DelimitedPayload(payload, tail);
      hide CString;
    case Submessage =>
      payload := EncMsg(f.sub, v.cells).value;
      DelimitedPayload(payload, tail);
      MessageFormat(f.sub, v.cells);
      hide EncMsg, MessageRecords, Records;
    case _ =>
      payload := EncNumber(f, v).value;
      NumberFormat(f, v, tail);
  }

  /** A value behind its key is a record. */
  lemma {:induction false} KeyedFormat(f: Field, v: Val, tail: seq<byte>, rs: seq<Record>) returns (r: Record)
    requires WellFormedRow(f) && FitsVal(f, v) && EncVal(f, v).Some? && Records(tail) == Some(rs)
    ensures Records(EncKeyed(f, v).value + tail) == Some([r] + rs) && CarriesOne(f, v, r)
    decreases f, 1, 0
  {
    var payload := ValFormat(f, v, tail);
    r := Record(f.tag, Wire(f.ltype), payload);
    WireIs(f.ltype);
    assert EncKeyed(f, v) == Some(Key(Wire(f.ltype), f.tag) + EncVal(f, v).value);
    hide EncVal, Carries, ReadPayload, Key, Records, WellFormedRow, FitsVal;
    KeyedPayload(Wire(f.ltype), f.tag, EncVal(f, v).value, payload, tail);
    RecordsCons(EncKeyed(f, v).value + tail, r, tail, rs);
  }

  lemma {:induction false} PackedFormat(f: Field, items: seq<Val>, i: nat)
    requires Packable(f.ltype) && i <= |items| && forall k :: 0 <= k < |items| ==> FitsVal(f, items[k])
    ensures EncPacked(f, items, i).Some? && CarriesAll(f, items[i..], EncPacked(f, items, i).value)
    decreases |items| - i
  {
    if i < |items| {
      PackedFormat(f, items, i + 1);
      NumberFormat(f, items[i], []);
      var b, rest := EncVal(f, items[i]).value, EncPacked(f, items, i + 1).value;
      assert items[i..][0] == items[i] && items[i..][1..] == items[i + 1..];
      assert (b + rest)[..|b|] == b && (b + rest)[|b|..] == rest;
      hide Carries, EncNumber, FitsVal;
    }
  }

  /** Each entry from `i` on has its record. */
  ghost predicate EachCarried(f: Field, items: seq<Val>, i: nat, rs: seq<Record>) {
    i + |rs| == |items| && forall k :: 0 <= k < |rs| ==> CarriesOne(f, items[i + k], rs[k])
  }

  lemma OneMore(f: Field, items: seq<Val>, i: nat, r: Record, more: seq<Record>)
    requires i < |items| && EachCarried(f, items, i + 1, more) && CarriesOne(f, items[i], r)
    ensures EachCarried(f, items, i, [r] + more)
  {
    var mine := [r] + more;
    forall k | 0 <= k < |mine| ensures CarriesOne(f, items[i + k], mine[k]) {
      if k > 0 {
        assert CarriesOne(f, items[i + 1 + (k - 1)], more[k - 1]);
      }
    }
    hide CarriesOne;
  }

  lemma {:induction false} UnpackedFormat(f: Field, items: seq<Val>, i: nat, tail: seq<byte>, rs: seq<Record>)
    returns (mine: seq<Record>)
    requires WellFormedRow(f) && i <= |items| && forall k :: 0 <= k < |items| ==> FitsVal(f, items[k])
    requires EncUnpacked(f, items, i).Some? && Records(tail) == Some(rs)
    ensures Records(EncUnpacked(f, items, i).value + tail) == Some(mine + rs) && EachCarried(f, items, i, mine)
    decreases f, 2, |items| - i
  {
    hide CarriesOne, Records, EncVal, FitsVal, WellFormedRow, Key;
    if i == |items| {
      mine := [];
      assert [] + tail == tail && [] + rs == rs;
    } else {
      var rest := EncUnpacked(f, items, i + 1).value;
      var keyed := EncKeyed(f, items[i]).value;
      assert EncUnpacked(f, items, i) == Some(keyed + rest);
      hide EncUnpacked, EncKeyed, EachCarried;
      var more := UnpackedFormat(f, items, i + 1, tail, rs);
      var r := KeyedFormat(f, items[i], rest + tail, more + rs);
      mine := [r] + more;
      Reassociate(keyed, rest, tail);
      assert [r] + (more + rs) == mine + rs;
      OneMore(f, items, i, r, more);
    }
  }

  // ---------------------------------------------------------------- rows and messages

  /** A packed array is one record of wire type 2. */
  lemma PackedArrayFormat(f: Field, items: seq<Val>, tail: seq<byte>, rs: seq<Record>) returns (r: Record)
    requires Packable(f.ltype) && items != [] && forall k :: 0 <= k < |items| ==> FitsVal(f, items[k])
    requires EncArray(f, items).Some? && Records(tail) == Some(rs)
    ensures Records(EncArray(f, items).value + tail) == Some([r] + rs)
    ensures r.tag == f.tag && r.wire == 2 && CarriesAll(f, items, r.payload)
  {
    PackedFormat(f, items, 0);
    assert items[0..] == items;
    var body := EncPacked(f, items, 0).value;
    r := Record(f.tag, 2, body);
    assert EncArray(f, items) == Some(Key(2, f.tag) + Delimited(body));
    hide EncPacked, CarriesAll, Records, Key, ReadPayload, Delimited, FitsVal;
    DelimitedPayload(body, tail);
    KeyedPayload(2, f.tag, Delimited(body), body, tail);
    RecordsCons(EncArray(f, items).value + tail, r, tail, rs);
  }

  lemma {:induction false} RowFormat(f: Field, slot: Slot, tail: seq<byte>, rs: seq<Record>) returns (mine: seq<Record>)
    requires WellFormedRow(f) && FitsSlot(f, slot) && EncField(f, slot).Some? && Records(tail) == Some(rs)
    ensures Records(EncField(f, slot).value + tail) == Some(mine + rs) && RowRecords(f, slot, mine)
    decreases f, 3, 0
  {
    assert [] + tail == tail && [] + rs == rs;
    if slot.Rep? {
      if slot.items == [] {
        mine := [];
      } else if Packable(f.ltype) {
        var r := PackedArrayFormat(f, slot.items, tail, rs);
        mine := [r];
      } else {
        mine := UnpackedFormat(f, slot.items, 0, tail, rs);
      }
    } else if RecordCount(f, slot) == 1 {
      var r := KeyedFormat(f, slot.v, tail, rs);
      mine := [r];
    } else {
      mine := [];
    }
    hide CarriesOne, CarriesAll, Records, EncKeyed, EncUnpacked, EncPacked, FitsVal;
  }

  lemma {:induction false} RowsFormat(fields: seq<Field>, msg: Msg, i: nat)
    requires WellFormed(fields) && FitsMsg(fields, msg) && i <= |fields| && EncFrom(fields, msg, i).Some?
    ensures Records(EncFrom(fields, msg, i).value).Some?
    ensures MessageRecords(fields, msg, i, Records(EncFrom(fields, msg, i).value).value)
    decreases fields, 0, |fields| - i
  {
    if i < |fields| {
      var f, slot := fields[i], SlotAt(fields, msg, i);
      assert WellFormedRow(f) && FitsSlot(f, slot);
      RowsFormat(fields, msg, i + 1);
      var tail := EncFrom(fields, msg, i + 1).value;
      var rs := Records(tail).value;
      var mine := RowFormat(f, slot, tail, rs);
      assert (mine + rs)[..|mine|] == mine && (mine + rs)[|mine|..] == rs;
      hide Records, RowRecords, EncField, FitsMsg, WellFormed, FitsSlot;
    }
  }

  /** The bytes of a message within its bounds, read by the wire format alone: the records of its
      fields in order, each with the field's number, the wire type of its kind, and a payload that is
      the value, at every depth. */
  lemma {:induction false} MessageFormat(fields: seq<Field>, msg: Msg)
    requires WellFormed(fields) && FitsMsg(fields, msg)
    ensures EncMsg(fields, msg).Some? && Records(EncMsg(fields, msg).value).Some?
    ensures MessageRecords(fields, msg, 0, Records(EncMsg(fields, msg).value).value)
    decreases fields, 1, 0
  {
    EncMsgSucceeds(fields, msg);
    RowsFormat(fields, msg, 0);
    hide EncFrom, MessageRecords, Records;
  }

  // ---------------------------------------------------------------- reading with the decoder

  /** A varint read takes the groups up to the first clear top bit, if it may use so many bytes. */
  lemma {:induction false} VarintReads(s: seq<byte>, n: nat)
    ensures VarintFrom(s, n) ==
      var k := GroupCount(s);
      if k.None? || k.value > n then Fail
      else if k.value > |s| then Fail
      else Ok(GroupSum(s[..k.value]), s[k.value..], Exact)
    decreases n
  {
    if s != [] && s[0] < 128 {
      assert s[..1] == [s[0]] && GroupSum([s[0]]) == s[0] by {
        assert [s[0]][1..] == [];
      }
    } else if s != [] && n > 0 {
      VarintReads(s[1..], n - 1);
      var k := GroupCount(s[1..]);
      if k.Some? && k.value <= |s[1..]| {
        assert s[..k.value + 1][1..] == s[1..][..k.value] && s[k.value + 1..] == s[1..][k.value..];
      }
    }
  }

  /** At most five bytes are read for 32 bits and ten for 64, and the bits above are lost. */
  lemma WidthsRead(s: seq<byte>)
    ensures var k := GroupCount(s);
      && Varint32(s) == (if k.None? || k.value > 5 || k.value > |s| then Fail
                         else Ok(GroupSum(s[..k.value]) % 0x1_0000_0000, s[k.value..], Exact))
      && Varint64(s) == (if k.None? || k.value > 10 || k.value > |s| then Fail
                         else Ok(GroupSum(s[..k.value]) % 0x1_0000_0000_0000_0000, s[k.value..], Exact))
  {
    VarintReads(s, 5);
    VarintReads(s, 10);
    hide VarintFrom, GroupCount, GroupSum;
  }

  lemma {:induction false} GroupCountBound(s: seq<byte>)
    ensures GroupCount(s).Some? ==> 0 < GroupCount(s).value <= |s|
  {
    if s != [] && s[0] >= 128 {
      GroupCountBound(s[1..]);
    }
  }

  lemma {:induction false} SkipsVarint(s: seq<byte>)
    requires GroupCount(s).Some? && GroupCount(s).value <= |s|
    ensures SkipVarint(s) == Ok((), s[GroupCount(s).value..], Exact)
  {
    if s[0] >= 128 {
      GroupCountBound(s[1..]);
      SkipsVarint(s[1..]);
    }
  }

  /** A varint that `pb_decode_varint32` reads in full. */
  predicate Short(s: seq<byte>) {
    GroupCount(s).Some? && GroupCount(s).value <= |s| && GroupCount(s).value <= 5
    && GroupSum(s[..GroupCount(s).value]) < 0x1_0000_0000
  }

  lemma ShortReads(s: seq<byte>)
    requires Short(s)
    ensures Varint32(s) == Ok(GroupSum(s[..GroupCount(s).value]), s[GroupCount(s).value..], Exact)
  {
    VarintReads(s, 5);
    hide VarintFrom, GroupCount, GroupSum;
  }

  /** Any record whose field the descriptor lacks is skipped to its end, with its wire type and
      payload as the format has them. */
  lemma UnknownSkipped(fields: seq<Field>, st: State, s: seq<byte>)
    requires ReadRecord(s).Some? && Short(s) && GroupSum(s[..GroupCount(s).value]) > 0
    requires ReadRecord(s).value.0.wire == 2 ==> Short(s[GroupCount(s).value..])
    requires forall i :: 0 <= i < |fields| ==> fields[i].tag != ReadRecord(s).value.0.tag
    requires fields == [] ==> ReadRecord(s).value.0.tag != 0
    ensures DecRecord(fields, st, s) == Next(st, ReadRecord(s).value.1, Exact)
  {
    ShortReads(s);
    var r, k := ReadRecord(s).value, GroupCount(s).value;
    var rest := s[k..];
    assert ReadTag(s) == Tag(r.0.tag, r.0.wire, rest);
    PayloadSkipped(r.0.wire, rest);
    hide ReadRecord, SkipField, GroupCount, GroupSum, Varint32;
  }

  lemma PayloadSkipped(wire: nat, s: seq<byte>)
    requires ReadPayload(wire, s).Some? && (wire == 2 ==> Short(s))
    ensures SkipField(wire, s) == Ok((), ReadPayload(wire, s).value.1, Exact)
  {
    if wire == 0 {
      SkipsVarint(s);
    } else if wire == 2 {
      ShortReads(s);
    }
    hide GroupCount, GroupSum, Varint32, SkipVarint;
  }
}
