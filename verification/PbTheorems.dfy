/** What the codec promises as a whole. */
module PbTheorems {
  import opened Common
  import opened PbDecoder
  import opened PbDecoding
  import opened PbDescriptor
  import opened PbEncoder
  import opened PbEncoding
  import opened PbIStream
  import opened PbIter
  import opened PbMessages
  import opened PbRoundTrip
  import opened PbWire

  /** Encoding a message within its bounds succeeds, and decoding the bytes succeeds, uses all of
      them and gives the message back in normal form. */
  lemma EncodeDecode(fields: seq<Field>, msg: Msg)
    requires WellFormed(fields) && FitsMsg(fields, msg) && Sized(EncMsg(fields, msg))
    ensures EncMsg(fields, msg).Some?
    ensures Decode(fields, EncMsg(fields, msg).value) == Ok(Norm(fields, msg), [], Exact)
  {
    EncMsgSucceeds(fields, msg);
    MessageRoundTrip(fields, msg);
  }

  // ---------------------------------------------------------------- what the methods ask for

  /** A well-formed descriptor tree is one the iterator can walk. */
  lemma {:induction false} WellFormedTerminated(fields: seq<Field>)
    requires WellFormed(fields)
    ensures TerminatedTree(fields)
  {
    forall i | 0 <= i < |fields| ensures TerminatedTree(fields[i].sub) {
      assert WellFormedRow(fields[i]);
      if fields[i].ltype.Submessage? {
        WellFormedTerminated(fields[i].sub);
      } else {
        assert fields[i].sub == [];
      }
    }
  }

  lemma {:induction false} StoredValFits(f: Field, v: Val)
    requires WellFormedRow(f) && FitsVal(f, v) && Sized(EncVal(f, v))
    ensures StoredVal(f, v)
    decreases f, 0
  {
    if f.ltype.Submessage? {
      StoredFits(f.sub, v.cells);
    }
  }

  lemma {:induction false} StoredSlotFits(f: Field, slot: Slot)
    requires WellFormedRow(f) && f.tag < 0x1_0000 && FitsSlot(f, slot) && Sized(EncField(f, slot))
    ensures StoredSlot(f, slot)
    decreases f, 1
  {
    EncFieldSucceeds(f, slot);
    if f.htype.Repeated? {
      forall k | 0 <= k < |slot.items| ensures StoredVal(f, slot.items[k]) {
        ItemSize(f, slot.items, 0, k);
        StoredValFits(f, slot.items[k]);
      }
    } else if Emits(f, slot) {
      StoredValFits(f, slot.v);
    }
  }

  /** A message within its bounds whose encoding fits a size_t meets the encoder's
      requirements at every depth. */
  lemma {:induction false} StoredFits(fields: seq<Field>, msg: Msg)
    requires WellFormed(fields) && FitsMsg(fields, msg) && Sized(EncMsg(fields, msg))
    ensures StoredMsg(fields, msg)
    decreases fields, 2
  {
    EncMsgSucceeds(fields, msg);
    forall k | 0 <= k < |fields| ensures StoredSlot(fields[k], SlotAt(fields, msg, k)) {
      RowSize(fields, msg, 0, k);
      StoredSlotFits(fields[k], SlotAt(fields, msg, k));
    }
  }

  // ---------------------------------------------------------------- re-encoding

  lemma {:induction false} CStringTwice(bs: seq<byte>, max: nat)
    ensures CString(CString(bs, max), max) == CString(bs, max)
    decreases max
  {
    if !(max == 0 || bs == [] || bs[0] == 0) {
      CStringTwice(bs[1..], max - 1);
    }
  }

  lemma {:induction false} NormValEncodes(f: Field, v: Val)
    requires WellFormedRow(f) && FitsVal(f, v)
    ensures EncVal(f, NormVal(f, v)) == EncVal(f, v)
    decreases f, 0
  {
    if f.ltype.String? {
      CStringTwice(v.bs, f.dataSize);
    } else if f.ltype.Submessage? {
      NormEncodes(f.sub, v.cells);
    }
  }

  lemma {:induction false} NormItemsAt(f: Field, items: seq<Val>, k: nat)
    requires k < |items|
    ensures NormItems(f, items)[k] == NormVal(f, items[k])
    decreases |items|
  {
    if k < |items| - 1 {
      NormItemsAt(f, items[..|items| - 1], k);
    }
  }

  lemma {:induction false} SameItemsEncode(f: Field, a: seq<Val>, b: seq<Val>, i: nat)
    requires |a| == |b| && i <= |a|
    requires forall k :: 0 <= k < |a| ==> EncVal(f, a[k]) == EncVal(f, b[k])
    ensures EncPacked(f, a, i) == EncPacked(f, b, i) && EncUnpacked(f, a, i) == EncUnpacked(f, b, i)
    decreases |a| - i
  {
    if i < |a| {
      SameItemsEncode(f, a, b, i + 1);
    }
  }

  lemma {:induction false} NormArrayEncodes(f: Field, items: seq<Val>)
    requires WellFormedRow(f) && forall k :: 0 <= k < |items| ==> FitsVal(f, items[k])
    ensures EncArray(f, NormItems(f, items)) == EncArray(f, items)
    decreases f, 1
  {
    forall k | 0 <= k < |items| ensures EncVal(f, NormItems(f, items)[k]) == EncVal(f, items[k]) {
      NormItemsAt(f, items, k);
      NormValEncodes(f, items[k]);
    }
    SameItemsEncode(f, NormItems(f, items), items, 0);
  }

  lemma {:induction false} NormSlotEncodes(fields: seq<Field>, i: nat, slot: Slot)
    requires WellFormed(fields) && i < |fields| && FitsSlot(fields[i], slot)
    ensures EncField(fields[i], NormSlot(fields, i, slot)) == EncField(fields[i], slot)
    decreases fields, 0
  {
    var f := fields[i];
    assert WellFormedRow(f);
    if f.htype.Repeated? {
      NormArrayEncodes(f, slot.items);
    } else if Emits(f, slot) {
      FindTagAt(fields, i);
      NormValEncodes(f, slot.v);
    }
  }

  lemma {:induction false} SameRowsEncode(fields: seq<Field>, a: Msg, b: Msg, i: nat)
    requires i <= |fields|
    requires forall k :: 0 <= k < |fields| ==>
      EncField(fields[k], SlotAt(fields, a, k)) == EncField(fields[k], SlotAt(fields, b, k))
    ensures EncFrom(fields, a, i) == EncFrom(fields, b, i)
    decreases |fields| - i
  {
    if i < |fields| {
      SameRowsEncode(fields, a, b, i + 1);
    }
  }

  /** The decoded message encodes to the bytes it was decoded from. */
  lemma {:induction false} NormEncodes(fields: seq<Field>, msg: Msg)
    requires WellFormed(fields) && FitsMsg(fields, msg)
    ensures EncMsg(fields, Norm(fields, msg)) == EncMsg(fields, msg)
    decreases fields, 1
  {
    var norm := Norm(fields, msg);
    forall k | 0 <= k < |fields|
      ensures EncField(fields[k], SlotAt(fields, norm, k)) == EncField(fields[k], SlotAt(fields, msg, k))
    {
      NormAt(fields, msg, |fields|, k);
      NormSlotEncodes(fields, k, SlotAt(fields, msg, k));
    }
    SameRowsEncode(fields, norm, msg, 0);
  }

  /** Encoding what was decoded from an encoding gives the same bytes. */
  lemma Reencode(fields: seq<Field>, msg: Msg)
    requires WellFormed(fields) && FitsMsg(fields, msg) && Sized(EncMsg(fields, msg))
    ensures EncMsg(fields, msg).Some?
    ensures var bytes := EncMsg(fields, msg).value;
            Decode(fields, bytes).Ok? && EncMsg(fields, Decode(fields, bytes).value) == Some(bytes)
  {
    EncodeDecode(fields, msg);
    NormEncodes(fields, msg);
  }

  /** Sizing, encoding into a buffer of that size, and decoding from it, one after the other:
      every call succeeds and the message comes back in normal form. */
  method EncodeThenDecode(fields: seq<Field>, msg: Msg) returns (back: Msg)
    requires WellFormed(fields) && FitsMsg(fields, msg) && Sized(EncMsg(fields, msg))
    ensures back == Norm(fields, msg)
  {
    EncodeDecode(fields, msg);
    WellFormedTerminated(fields);
    StoredFits(fields, msg);
    hide EncMsg, WellFormed, FitsMsg, StoredMsg, TerminatedTree;
    var sized, size := GetEncodedSize(fields, msg);
    var encoded, bytes := EncodeToBuffer(fields, msg, size);
    var stream := new IStream(bytes, 0, |bytes|);
    assert stream.View() == bytes[0..0 + |bytes|] == bytes;
    var decoded, m := DecodeMessage(stream, fields);
    assert sized && encoded && decoded;
    back := m;
  }

  // ---------------------------------------------------------------- strings without a NUL

  /** A string field comes back exactly when its buffer holds a NUL within its size: the encoder
      sends a full buffer without one, and the decoder rejects it for want of room. */
  lemma StringRoundTripExact(f: Field, prior: Val, bs: seq<byte>)
    requires f.ltype.String? && f.dataSize < 0x1_0000
    ensures EncVal(f, Blob(bs)).Some?
    ensures var r := DecVal(f, prior, EncVal(f, Blob(bs)).value);
            (r == Ok(Blob(CString(bs, f.dataSize)), [], Exact) <==> |CString(bs, f.dataSize)| < f.dataSize)
            && (r.Fail? <==> |CString(bs, f.dataSize)| == f.dataSize)
  {
    var s := CString(bs, f.dataSize);
    VarintRoundTrip32(|s|, s);
    if |s| < f.dataSize {
      VarintLengthSmall(|s|);
      BlobRoundTrip(f, Blob(bs));
    }
  }

  lemma VarintLengthSmall(n: nat)
    requires n < 0x1_0000
    ensures |VarintBytes(n)| <= 5
  {
    VarintLengths(n);
  }

  // ---------------------------------------------------------------- required fields

  /** The rows that the records of an input set, by position. */
  function Decoded(fields: seq<Field>, st: State, s: seq<byte>): set<nat>
    decreases |s|
  {
    if s == [] || !DecRecord(fields, st, s).Next? then {}
    else
      var r := DecRecord(fields, st, s);
      var found := FindTag(fields, ReadTag(s).tag);
      (if found.Some? then {found.value} else {}) + Decoded(fields, r.st, r.rest)
  }

  lemma {:induction false} SeenIsDecoded(fields: seq<Field>, st: State, s: seq<byte>, i: nat)
    requires i < |fields| && fields[i].htype.Required? && DecLoop(fields, st, s).Ok?
    ensures RequiredBefore(fields, i) in DecLoop(fields, st, s).value.seen
       <==> RequiredBefore(fields, i) in st.seen || i in Decoded(fields, st, s)
    decreases |s|
  {
    if s != [] && DecRecord(fields, st, s).Next? {
      var r := DecRecord(fields, st, s);
      SeenIsDecoded(fields, r.st, r.rest, i);
      SeenByRecord(fields, st, s, i);
    }
  }

  /** A record marks a required row seen exactly when it is a record of that row. */
  lemma SeenByRecord(fields: seq<Field>, st: State, s: seq<byte>, i: nat)
    requires i < |fields| && fields[i].htype.Required? && DecRecord(fields, st, s).Next?
    ensures RequiredBefore(fields, i) in DecRecord(fields, st, s).st.seen
       <==> RequiredBefore(fields, i) in st.seen || FindTag(fields, ReadTag(s).tag) == Some(i)
  {
    var found := FindTag(fields, ReadTag(s).tag);
    if found.Some? && fields[found.value].htype.Required? {
      if found.value < i {
        RequiredInRange(fields, found.value, i);
      } else if i < found.value {
        RequiredInRange(fields, i, found.value);
      }
    }
  }

  /** Every index below the count belongs to a required row. */
  lemma {:induction false} RowOfIndex(fields: seq<Field>, n: nat, k: nat) returns (i: nat)
    requires n <= |fields| && k < RequiredBefore(fields, n)
    ensures i < n && fields[i].htype.Required? && RequiredBefore(fields, i) == k
    decreases n
  {
    if k == RequiredBefore(fields, n - 1) {
      i := n - 1;
    } else {
      i := RowOfIndex(fields, n - 1, k);
    }
  }

  /** `pb_decode_noinit` accepts an input exactly when its records can be read and a record of
      every required field is among them. */
  lemma AcceptsIffRequiredPresent(fields: seq<Field>, s: seq<byte>, base: Msg)
    ensures DecMsg(fields, s, base).Ok? <==>
      && DecLoop(fields, State(base, {}), s).Ok?
      && forall i :: 0 <= i < |fields| && fields[i].htype.Required? ==> i in Decoded(fields, State(base, {}), s)
  {
    var st := State(base, {});
    if DecLoop(fields, st, s).Ok? {
      var seen := DecLoop(fields, st, s).value.seen;
      if AllRequiredSeen(fields, seen) {
        forall i | 0 <= i < |fields| && fields[i].htype.Required? ensures i in Decoded(fields, st, s) {
          RequiredInRange(fields, i, |fields|);
          SeenIsDecoded(fields, st, s, i);
        }
      } else {
        var k :| 0 <= k < RequiredBefore(fields, |fields|) && k !in seen;
        var i := RowOfIndex(fields, |fields|, k);
        SeenIsDecoded(fields, st, s, i);
      }
    }
  }
}
