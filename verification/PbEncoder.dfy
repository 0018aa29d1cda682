/** pb_encode.c above the stream: fields, arrays, submessages in two passes, and messages. */
module PbEncoder {
  import opened Common
  import opened PbDescriptor
  import opened PbEncoding
  import opened PbIter
  import opened PbOStream
  import opened PbWire

  // ---------------------------------------------------------------- sizes

  predicate Sized(enc: Option<seq<byte>>) {
    enc.Some? ==> |enc.value| < 0x1_0000_0000
  }

  /** What a C struct holds at a field: a value of the field's kind, with every length the
      encoder computes for it within a 32-bit size_t. */
  predicate StoredVal(f: Field, v: Val)
    decreases f, 0
  {
    && Sized(EncVal(f, v))
    && if Packable(f.ltype) then v.Num?
       else if f.ltype.Submessage? then v.Struct? && StoredMsg(f.sub, v.cells)
       else v.Blob?
  }

  predicate StoredSlot(f: Field, slot: Slot)
    decreases f, 1
  {
    f.tag < 0x1_0000 &&
    match f.htype
    case Required => slot.Single? && StoredVal(f, slot.v)
    case Optional => slot.Opt? && (slot.has ==> StoredVal(f, slot.v))
    case Repeated =>
      slot.Rep? && Sized(EncArray(f, slot.items)) && forall k :: 0 <= k < |slot.items| ==> StoredVal(f, slot.items[k])
    case Oneof => slot.OneofNone? || (slot.OneofSet? && (slot.which == f.tag ==> StoredVal(f, slot.v)))
  }

  predicate StoredMsg(fields: seq<Field>, msg: Msg) {
    forall i :: 0 <= i < |fields| ==> StoredSlot(fields[i], SlotAt(fields, msg, i))
  }

  // ---------------------------------------------------------------- values

  /** `pb_enc_varint`, `pb_enc_uvarint`, `pb_enc_svarint`, `pb_enc_fixed32`, `pb_enc_fixed64`. */
  method EncodeNumber(stream: OStream, f: Field, v: Val) returns (ok: bool)
    requires stream.Valid() && Packable(f.ltype) && v.Num?
    modifies stream, stream.buf
    ensures Encoded(old(stream.Now()), stream.Now(), EncNumber(f, v), ok)
  {
    if f.ltype.Fixed32? {
      ok := stream.EncodeFixed32(v.n % 0x1_0000_0000);
    } else if f.ltype.Fixed64? {
      ok := stream.EncodeFixed64(v.n % 0x1_0000_0000_0000_0000);
    } else if f.dataSize !in {1, 2, 4, 8} {
      return false;
    } else if f.ltype.SVarint? {
      ok := stream.EncodeSVarint(v.n);
    } else {
      ok := stream.EncodeVarint(ToU64(v.n));
    }
  }

  /** The scan of `pb_enc_string` for the end of a string. */
  method StringSize(bs: seq<byte>, maxSize: nat) returns (size: nat)
    ensures size <= |bs| && bs[..size] == CString(bs, maxSize)
  {
    size := 0;
    while size < maxSize && size < |bs| && bs[size] != 0
      invariant size <= maxSize && size <= |bs|
      invariant forall k :: 0 <= k < size ==> bs[k] != 0
    {
      size := size + 1;
    }
    assert |CString(bs, maxSize)| == size;
  }

  /** `pb_enc_bytes` and `pb_enc_string`; the length of a string is found by scanning for its NUL. */
  method EncodeBlob(stream: OStream, f: Field, v: Val) returns (ok: bool)
    requires stream.Valid() && f.ltype in {Bytes, String} && v.Blob? && Sized(EncVal(f, v))
    modifies stream, stream.buf
    ensures Encoded(old(stream.Now()), stream.Now(), EncVal(f, v), ok)
  {
    if f.ltype.Bytes? {
      if |v.bs| + 2 > f.dataSize {
        return false;
      }
      ok := stream.EncodeString(v.bs);
    } else {
      var size := StringSize(v.bs, f.dataSize);
      ok := stream.EncodeString(v.bs[..size]);
    }
  }

  /** `PB_ENCODERS[PB_LTYPE(type)]`. */
  method EncodeVal(stream: OStream, f: Field, v: Val) returns (ok: bool)
    requires stream.Valid() && StoredVal(f, v) && TerminatedTree(f.sub)
    modifies stream, stream.buf
    ensures Encoded(old(stream.Now()), stream.Now(), EncVal(f, v), ok)
    decreases f, 0
  {
    if Packable(f.ltype) {
      ok := EncodeNumber(stream, f, v);
    } else if !f.ltype.Submessage? {
      ok := EncodeBlob(stream, f, v);
    } else {
      ok := EncodeSubmessage(stream, f.sub, v.cells);
    }
  }

  /** `pb_encode_submessage`: a sizing pass, the length, and for a writing stream a second pass
      into a substream of exactly that length. That the second pass writes any other number of
      bytes than the first, or fails, contradicts the contract, so neither exit is ever taken. */
  method EncodeSubmessage(stream: OStream, fields: seq<Field>, cells: Msg) returns (ok: bool)
    requires stream.Valid() && TerminatedTree(fields) && StoredMsg(fields, cells)
    requires Sized(EncMsg(fields, cells))
    modifies stream, stream.buf
    ensures Encoded(old(stream.Now()), stream.Now(),
                    if EncMsg(fields, cells).Some? then Some(Delimited(EncMsg(fields, cells).value)) else None, ok)
    decreases fields, 3
  {
    ghost var enc := EncMsg(fields, cells);
    ghost var o := stream.Now();
    var substream := new OStream(false, stream.buf, 0, 0);
    var status := EncodeMsg(substream, fields, cells);
    if !status {
      return false;
    }
    var size := substream.bytesWritten;
    assert stream.Now() == o && size == |enc.value|;
    ok := stream.EncodeVarint(size);
    ghost var m := stream.Now();
    if !ok {
      EncodedFails(o, m, Some(VarintBytes(size)), Some(enc.value));
      return;
    }
    if !stream.writing {
      ok := stream.Count(enc.value, size);
      EncodedThen(o, m, stream.Now(), Some(VarintBytes(size)), Some(enc.value), ok);
      return;
    }
    ok := EncodeSecondPass(stream, substream, fields, cells, size);
    EncodedThen(o, m, stream.Now(), Some(VarintBytes(size)), Some(enc.value), ok);
  }

  /** The writing pass of `pb_encode_submessage`. */
  method EncodeSecondPass(stream: OStream, substream: OStream, fields: seq<Field>, cells: Msg, size: nat) returns (ok: bool)
    requires stream.Valid() && stream.writing && TerminatedTree(fields) && StoredMsg(fields, cells)
    requires EncMsg(fields, cells).Some? && size == |EncMsg(fields, cells).value|
    requires substream != stream && substream.buf == stream.buf
    modifies stream, substream, stream.buf
    ensures Encoded(old(stream.Now()), stream.Now(), EncMsg(fields, cells), ok)
    decreases fields, 2
  {
    ghost var m := stream.Now();
    if stream.bytesWritten + size > stream.maxSize {
      return false;
    }
    substream.writing := stream.writing;
    substream.state := stream.state;
    substream.maxSize := size;
    substream.bytesWritten := 0;
    ghost var s := substream.Now();
    var status := EncodeMsg(substream, fields, cells);
    stream.bytesWritten := stream.bytesWritten + substream.bytesWritten;
    stream.state := substream.state;
    assert status && substream.bytesWritten == size;
    SecondPass(m, s, substream.Now(), stream.Now(), EncMsg(fields, cells).value);
    WroteKeeps(m, stream.Now(), EncMsg(fields, cells).value);
    if substream.bytesWritten != size {
      return false;
    }
    return status;
  }

  /** What the substream wrote, the stream has written once it takes over the substream's state. */
  lemma SecondPass(m: Snap, s: Snap, t: Snap, n: Snap, data: seq<byte>)
    requires ValidSnap(m) && m.writing && m.bytesWritten + |data| <= m.maxSize
    requires s == m.(maxSize := |data|, bytesWritten := 0) && ValidSnap(s)
    requires Wrote(s, t, data)
    requires n == m.(bytesWritten := m.bytesWritten + t.bytesWritten, state := t.state, bytes := t.bytes)
    ensures Wrote(m, n, data)
  {
  }

  /** `pb_encode_tag_for_field` followed by the value encoder. */
  method EncodeKeyed(stream: OStream, f: Field, v: Val) returns (ok: bool)
    requires stream.Valid() && StoredVal(f, v) && TerminatedTree(f.sub) && f.tag < 0x1_0000
    modifies stream, stream.buf
    ensures Encoded(old(stream.Now()), stream.Now(), EncKeyed(f, v), ok)
    decreases f, 1
  {
    ghost var o := stream.Now();
    ghost var key := Some(Key(WireType(f.ltype), f.tag));
    ok := stream.EncodeTag(WireType(f.ltype), f.tag);
    ghost var m := stream.Now();
    if !ok {
      EncodedFails(o, m, key, EncVal(f, v));
      return;
    }
    ok := EncodeVal(stream, f, v);
    EncodedThen(o, m, stream.Now(), key, EncVal(f, v), ok);
  }

  /** The values of an array one after the other. */
  method EncodePacked(stream: OStream, f: Field, items: seq<Val>) returns (ok: bool)
    requires stream.Valid() && Packable(f.ltype) && forall k :: 0 <= k < |items| ==> items[k].Num?
    modifies stream, stream.buf
    ensures Encoded(old(stream.Now()), stream.Now(), EncPacked(f, items, 0), ok)
  {
    ghost var o := stream.Now();
    ghost var done: seq<byte> := [];
    NothingEncoded(o);
    CatNil(EncPacked(f, items, 0));
    for i := 0 to |items|
      invariant stream.buf == old(stream.buf)
      invariant Encoded(o, stream.Now(), Some(done), true)
      invariant EncPacked(f, items, 0) == Cat(Some(done), EncPacked(f, items, i))
    {
      ghost var m := stream.Now();
      ghost var b := EncNumber(f, items[i]);
      ok := EncodeNumber(stream, f, items[i]);
      LoopStep(o, m, stream.Now(), done, b, EncPacked(f, items, i + 1), ok);
      if !ok {
        return;
      }
      done := done + b.value;
    }
    assert done + [] == done;
    return true;
  }

  /** One more encoder after `done`, with `rest` to come. */
  lemma LoopStep(o: Snap, m: Snap, n: Snap, done: seq<byte>, b: Option<seq<byte>>, rest: Option<seq<byte>>, ok: bool)
    requires ValidSnap(o) && Encoded(o, m, Some(done), true) && Encoded(m, n, b, ok)
    ensures ok ==> Encoded(o, n, Some(done + b.value), true)
    ensures ok ==> Cat(Some(done), Cat(b, rest)) == Cat(Some(done + b.value), rest)
    ensures !ok ==> Encoded(o, n, Cat(Some(done), Cat(b, rest)), false)
  {
    EncodedThen(o, m, n, Some(done), b, ok);
    CatThree(Some(done), b, rest);
    if !ok {
      EncodedFails(o, n, Cat(Some(done), b), rest);
    }
  }

  lemma CatNil(b: Option<seq<byte>>)
    ensures Cat(Some([]), b) == b
  {
    if b.Some? {
      assert [] + b.value == b.value;
    }
  }

  lemma CatThree(a: Option<seq<byte>>, b: Option<seq<byte>>, c: Option<seq<byte>>)
    ensures Cat(a, Cat(b, c)) == Cat(Cat(a, b), c)
  {
    if a.Some? && b.Some? && c.Some? {
      assert a.value + (b.value + c.value) == (a.value + b.value) + c.value;
    }
  }

  /** The size of a packed array: from the count for fixed width types, and otherwise from a
      sizing pass. */
  method PackedSize(f: Field, items: seq<Val>, buf: array<byte>) returns (ok: bool, size: nat)
    requires Packable(f.ltype) && forall k :: 0 <= k < |items| ==> items[k].Num?
    modifies buf
    ensures buf[..] == old(buf[..])
    ensures ok <==> EncPacked(f, items, 0).Some?
    ensures ok ==> size == |EncPacked(f, items, 0).value|
  {
    if f.ltype.Fixed32? {
      PackedFixedSize(f, items, 0);
      return true, 4 * |items|;
    } else if f.ltype.Fixed64? {
      PackedFixedSize(f, items, 0);
      return true, 8 * |items|;
    }
    var sizestream := new OStream(false, buf, 0, 0);
    ok := EncodePacked(sizestream, f, items);
    size := sizestream.bytesWritten;
  }

  /** The packed form of `encode_array`. */
  method EncodePackedArray(stream: OStream, f: Field, items: seq<Val>) returns (ok: bool)
    requires stream.Valid() && Packable(f.ltype) && f.tag < 0x1_0000
    requires 0 < |items| <= f.arraySize && Sized(EncArray(f, items))
    requires forall k :: 0 <= k < |items| ==> items[k].Num?
    modifies stream, stream.buf
    ensures Encoded(old(stream.Now()), stream.Now(), EncArray(f, items), ok)
  {
    ghost var o := stream.Now();
    ghost var body := EncPacked(f, items, 0);
    ghost var key := Some(Key(WT_STRING, f.tag));
    ghost var rest := if body.Some? then Some(Delimited(body.value)) else None;
    assert EncArray(f, items) == Cat(key, rest);
    ok := stream.EncodeTag(WT_STRING, f.tag);
    ghost var m := stream.Now();
    if !ok {
      EncodedFails(o, m, key, rest);
      return;
    }
    var size;
    ok, size := PackedSize(f, items, stream.buf);
    assert stream.Now() == m;
    if !ok {
      return;
    }
    ghost var length := Some(VarintBytes(size));
    ok := stream.EncodeVarint(size);
    ghost var n := stream.Now();
    LoopStep(o, m, n, key.value, length, body, ok);
    if !ok {
      return;
    }
    if !stream.writing {
      ok := stream.Count(body.value, size);
    } else {
      ok := EncodePacked(stream, f, items);
    }
    EncodedThen(o, n, stream.Now(), Some(key.value + length.value), body, ok);
  }

  /** `encode_array`. */
  method EncodeArray(stream: OStream, f: Field, items: seq<Val>) returns (ok: bool)
    requires stream.Valid() && TerminatedTree(f.sub) && f.tag < 0x1_0000
    requires Sized(EncArray(f, items)) && forall k :: 0 <= k < |items| ==> StoredVal(f, items[k])
    modifies stream, stream.buf
    ensures Encoded(old(stream.Now()), stream.Now(), EncArray(f, items), ok)
    decreases f, 2
  {
    ghost var o := stream.Now();
    NothingEncoded(o);
    if |items| == 0 {
      return true;
    }
    if |items| > f.arraySize {
      return false;
    }
    if Packable(f.ltype) {
      ok := EncodePackedArray(stream, f, items);
      return;
    }
    ghost var done: seq<byte> := [];
    CatNil(EncUnpacked(f, items, 0));
    for i := 0 to |items|
      invariant stream.buf == old(stream.buf)
      invariant Encoded(o, stream.Now(), Some(done), true)
      invariant EncUnpacked(f, items, 0) == Cat(Some(done), EncUnpacked(f, items, i))
    {
      ghost var m := stream.Now();
      ghost var b := EncKeyed(f, items[i]);
      ok := EncodeKeyed(stream, f, items[i]);
      LoopStep(o, m, stream.Now(), done, b, EncUnpacked(f, items, i + 1), ok);
      if !ok {
        return;
      }
      done := done + b.value;
    }
    assert done + [] == done;
    return true;
  }

  /** `encode_basic_field`. */
  method EncodeBasicField(stream: OStream, f: Field, slot: Slot) returns (ok: bool)
    requires stream.Valid() && TerminatedTree(f.sub) && StoredSlot(f, slot)
    modifies stream, stream.buf
    ensures Encoded(old(stream.Now()), stream.Now(), EncField(f, slot), ok)
    decreases f, 3
  {
    NothingEncoded(stream.Now());
    match f.htype
    case Required =>
      ok := EncodeKeyed(stream, f, slot.v);
    case Optional =>
      ok := true;
      if slot.has {
        ok := EncodeKeyed(stream, f, slot.v);
      }
    case Repeated =>
      ok := EncodeArray(stream, f, slot.items);
    case Oneof =>
      ok := true;
      if slot.OneofSet? && slot.which == f.tag {
        ok := EncodeKeyed(stream, f, slot.v);
      }
  }

  /** `encode_field` at the iterator's data pointer. */
  method EncodeRow(stream: OStream, fields: seq<Field>, msg: Msg, iter: FieldIter) returns (ok: bool)
    requires stream.Valid() && TerminatedTree(fields) && StoredMsg(fields, msg)
    requires iter.Valid() && iter.fields == fields && iter.pos < |fields|
    modifies stream, stream.buf
    ensures Encoded(old(stream.Now()), stream.Now(), EncField(fields[iter.pos], SlotAt(fields, msg, iter.pos)), ok)
    decreases fields, 0
  {
    var f := fields[iter.pos];
    var slot := if iter.pData in msg then msg[iter.pData] else DefaultSlot(f);
    ok := EncodeBasicField(stream, f, slot);
  }

  /** `pb_encode`. */
  method EncodeMsg(stream: OStream, fields: seq<Field>, msg: Msg) returns (ok: bool)
    requires stream.Valid() && TerminatedTree(fields) && StoredMsg(fields, msg)
    modifies stream, stream.buf
    ensures Encoded(old(stream.Now()), stream.Now(), EncMsg(fields, msg), ok)
    decreases fields, 1
  {
    ghost var o := stream.Now();
    NothingEncoded(o);
    var iter := new FieldIter(fields);
    if Row(fields, iter.pos).tag == 0 {
      return true;
    }
    ghost var done: seq<byte> := [];
    CatNil(EncMsg(fields, msg));
    hide Wrote, Room, EncField, StoredSlot, DefaultSlot, DataOffset, RequiredBefore, TerminatedTree, Terminated;
    var more := true;
    while more
      invariant stream.buf == old(stream.buf)
      invariant iter.Valid() && iter.fields == fields
      invariant Encoded(o, stream.Now(), Some(done), true)
      invariant if more then iter.pos < |fields| && EncMsg(fields, msg) == Cat(Some(done), EncFrom(fields, msg, iter.pos))
                else EncMsg(fields, msg) == Some(done)
      decreases if more then |fields| - iter.pos else 0
    {
      ghost var i := iter.pos;
      ghost var m := stream.Now();
      ghost var b := EncField(fields[i], SlotAt(fields, msg, i));
      ok := EncodeRow(stream, fields, msg, iter);
      LoopStep(o, m, stream.Now(), done, b, EncFrom(fields, msg, i + 1), ok);
      if !ok {
        return;
      }
      done := done + b.value;
      more := iter.Next();
      assert done + [] == done;
    }
    return true;
  }

  /** `pb_get_encoded_size`. */
  method GetEncodedSize(fields: seq<Field>, msg: Msg) returns (ok: bool, size: nat)
    requires TerminatedTree(fields) && StoredMsg(fields, msg)
    ensures ok <==> EncMsg(fields, msg).Some?
    ensures ok ==> size == |EncMsg(fields, msg).value|
  {
    var none := new byte[0];
    var stream := new OStream(false, none, 0, 0);
    ok := EncodeMsg(stream, fields, msg);
    size := stream.bytesWritten;
  }

  /** A message encoded into a buffer of `capacity` bytes: it fits exactly when the size the
      sizing pass reports is at most that, and then those are the bytes of the buffer. */
  method EncodeToBuffer(fields: seq<Field>, msg: Msg, capacity: nat) returns (ok: bool, out: seq<byte>)
    requires TerminatedTree(fields) && StoredMsg(fields, msg)
    ensures ok <==> EncMsg(fields, msg).Some? && |EncMsg(fields, msg).value| <= capacity
    ensures ok ==> out == EncMsg(fields, msg).value
  {
    var buf := new byte[capacity](_ => 0);
    var stream := new OStream(true, buf, 0, capacity);
    ok := EncodeMsg(stream, fields, msg);
    out := buf[..stream.state];
  }
}
