/** Decoding an encoded message gives the message back, for every well-formed descriptor tree
    and every message that fits it. */
module PbRoundTrip {
  import opened Common
  import opened PbDecoding
  import opened PbDescriptor
  import opened PbEncoding
  import opened PbFold
  import opened PbWire

  // ---------------------------------------------------------------- messages within their bounds

  /** The values a field can hold and give back: numbers of the field's width, bytes that leave
      room for the count, NUL-terminated strings. */
  predicate FitsVal(f: Field, v: Val)
    decreases f, 0
  {
    match f.ltype
    case Bytes => v.Blob? && |v.bs| + 2 <= f.dataSize && |v.bs| < 0x1_0000
    case String => v.Blob? && |CString(v.bs, f.dataSize)| < f.dataSize
    case Submessage => v.Struct? && FitsMsg(f.sub, v.cells)
    case _ => FitsNumber(f, v)
  }

  predicate FitsNumber(f: Field, v: Val)
    requires Packable(f.ltype)
  {
    && v.Num?
    && (if f.ltype.Fixed32? then 0 <= v.n < 0x1_0000_0000
        else if f.ltype.Fixed64? then 0 <= v.n < 0x1_0000_0000_0000_0000
        else f.dataSize in {1, 2, 4, 8} &&
             if f.ltype.UVarint? then 0 <= v.n < Modulus(f.dataSize) else FitsSigned(v.n, f.dataSize))
  }

  predicate FitsSlot(f: Field, slot: Slot)
    decreases f, 1
  {
    match f.htype
    case Required => slot.Single? && FitsVal(f, slot.v)
    case Optional => slot.Opt? && (slot.has ==> FitsVal(f, slot.v))
    case Repeated =>
      slot.Rep? && |slot.items| <= f.arraySize && forall k :: 0 <= k < |slot.items| ==> FitsVal(f, slot.items[k])
    case Oneof => slot.OneofNone? || (slot.OneofSet? && (slot.which == f.tag ==> FitsVal(f, slot.v)))
  }

  predicate FitsMsg(fields: seq<Field>, msg: Msg) {
    forall i :: 0 <= i < |fields| ==> FitsSlot(fields[i], SlotAt(fields, msg, i))
  }

  // ---------------------------------------------------------------- normal form

  /** What is observable of a value: a string up to its NUL. */
  function NormVal(f: Field, v: Val): Val
    decreases f, 0, 0
  {
    if f.ltype.String? && v.Blob? then Blob(CString(v.bs, f.dataSize))
    else if f.ltype.Submessage? && v.Struct? then Struct(Norm(f.sub, v.cells))
    else v
  }

  function NormItems(f: Field, items: seq<Val>): (r: seq<Val>)
    ensures |r| == |items|
    decreases f, 1, |items|
  {
    if items == [] then [] else NormItems(f, items[..|items| - 1]) + [NormVal(f, items[|items| - 1])]
  }

  /** The member of the union of row `i` that the which-tag selects. */
  function Member(fields: seq<Field>, i: nat, which: nat): (r: Option<nat>)
    requires i < |fields|
    ensures r.Some? ==> r.value < |fields| && fields[r.value].tag == which
  {
    match FindTag(fields, which)
    case None => None
    case Some(k) => if fields[k].htype.Oneof? && Addr(fields, k) == Addr(fields, i) then Some(k) else None
  }

  /** An unset optional reads as its default, and a union whose tag names no member as unset. */
  function NormSlot(fields: seq<Field>, i: nat, slot: Slot): Slot
    requires i < |fields|
    decreases fields, 0, 0
  {
    var f := fields[i];
    match f.htype
    case Required => if slot.Single? then Single(NormVal(f, slot.v)) else slot
    case Optional => if slot.Opt? && slot.has then Opt(true, NormVal(f, slot.v)) else Opt(false, DefaultVal(f))
    case Repeated => if slot.Rep? then Rep(NormItems(f, slot.items)) else slot
    case Oneof =>
      if slot.OneofSet? && Member(fields, i, slot.which).Some?
      then OneofSet(slot.which, NormVal(fields[Member(fields, i, slot.which).value], slot.v))
      else OneofNone
  }

  function NormUpTo(fields: seq<Field>, msg: Msg, i: nat): Msg
    requires i <= |fields|
    decreases fields, 1, i
  {
    if i == 0 then map[]
    else NormUpTo(fields, msg, i - 1)[Addr(fields, i - 1) := NormSlot(fields, i - 1, SlotAt(fields, msg, i - 1))]
  }

  /** The message as far as its fields can be observed. */
  function Norm(fields: seq<Field>, msg: Msg): Msg
    decreases fields, 2, 0
  {
    NormUpTo(fields, msg, |fields|)
  }

  // ---------------------------------------------------------------- the encoder succeeds

  lemma {:induction false} EncPackedSucceeds(f: Field, items: seq<Val>, i: nat)
    requires i <= |items|
    requires forall k :: 0 <= k < |items| ==> EncVal(f, items[k]).Some?
    ensures EncPacked(f, items, i).Some? && EncUnpacked(f, items, i).Some?
    decreases |items| - i
  {
    if i < |items| {
      EncPackedSucceeds(f, items, i + 1);
    }
  }

  lemma {:induction false} EncValSucceeds(f: Field, v: Val)
    requires FitsVal(f, v)
    ensures EncVal(f, v).Some?
    decreases f, 0, 0
  {
    if f.ltype.Submessage? {
      EncMsgSucceeds(f.sub, v.cells);
    }
  }

  lemma {:induction false} EncFieldSucceeds(f: Field, slot: Slot)
    requires FitsSlot(f, slot)
    ensures EncField(f, slot).Some?
    decreases f, 1, 0
  {
    if f.htype.Repeated? {
      forall k | 0 <= k < |slot.items| ensures EncVal(f, slot.items[k]).Some? {
        EncValSucceeds(f, slot.items[k]);
      }
      EncPackedSucceeds(f, slot.items, 0);
    } else if (slot.Single? || slot.Opt? || slot.OneofSet?) && FitsVal(f, slot.v) {
      EncValSucceeds(f, slot.v);
    }
  }

  lemma {:induction false} EncFromSucceeds(fields: seq<Field>, msg: Msg, i: nat)
    requires FitsMsg(fields, msg) && i <= |fields|
    ensures EncFrom(fields, msg, i).Some?
    decreases fields, 0, |fields| - i
  {
    if i < |fields| {
      EncFieldSucceeds(fields[i], SlotAt(fields, msg, i));
      EncFromSucceeds(fields, msg, i + 1);
    }
  }

  /** The encoder has no error to report on a message within its bounds. */
  lemma {:induction false} EncMsgSucceeds(fields: seq<Field>, msg: Msg)
    requires FitsMsg(fields, msg)
    ensures EncMsg(fields, msg).Some?
    decreases fields, 1, 0
  {
    EncFromSucceeds(fields, msg, 0);
  }

  // ---------------------------------------------------------------- values

  lemma {:induction false} CStringWhole(s: seq<byte>)
    requires forall k :: 0 <= k < |s| ==> s[k] != 0
    ensures CString(s, |s|) == s
  {
    if s != [] {
      CStringWhole(s[1..]);
    }
  }

  lemma BlobRoundTrip(f: Field, v: Val)
    requires f.ltype in {Bytes, String} && FitsVal(f, v)
    requires |EncVal(f, v).value| < 0x1_0000_0000
    ensures DecBlob(f, EncVal(f, v).value) == Ok(NormVal(f, v), [], Exact)
  {
    var body := if f.ltype.Bytes? then v.bs else CString(v.bs, f.dataSize);
    assert EncVal(f, v).value == VarintBytes(|body|) + body;
    VarintRoundTrip32(|body|, body);
    assert body[..|body|] == body && body[|body|..] == [];
    if f.ltype.String? {
      CStringWhole(body);
    }
  }

  lemma SignedReadBack(n: int, size: nat)
    requires size in {1, 2, 4, 8} && FitsSigned(n, size)
    ensures CheckVarint(ToU64(n), size) == Some(n)
  {
    SignedIdentity(n, size);
    var u := ToU64(n);
    assert u == if n < 0 then n + 0x1_0000_0000_0000_0000 else n;
    if size == 8 {
      assert ToSigned(u, 8) == n;
    } else {
      assert ToSigned(u, 4) == n;
    }
  }

  lemma CheckedSVarint(u: nat, n: int, size: nat)
    requires size in {1, 2, 4, 8} && UnZigZag(u) == n && ToSigned(n, size) == n
    ensures CheckSVarint(u, size) == Some(n)
  {
  }

  lemma ZigZagReadBack(n: int, size: nat)
    requires size in {1, 2, 4, 8} && FitsSigned(n, size)
    ensures ZigZag(n) < 0x1_0000_0000_0000_0000
    ensures CheckSVarint(ZigZag(n), size) == Some(n)
  {
    SignedIdentity(n, size);
    ZigZagRoundTrip(n);
    CheckedSVarint(ZigZag(n), n, size);
  }

  lemma FixedNumberRoundTrip(l: LType, n: int)
    requires l.Fixed32? || l.Fixed64?
    requires 0 <= n < if l.Fixed32? then 0x1_0000_0000 else 0x1_0000_0000_0000_0000
    ensures DecFixed(l, EncFixed(l, n)) == Ok(Num(n), [], Exact)
  {
    var width := FixedWidth(l);
    Pow256Values(width);
    FixedReadBack(n, width);
    NoTruncation(l, n);
  }

  lemma NoTruncation(l: LType, n: int)
    requires l.Fixed32? || l.Fixed64?
    requires 0 <= n < if l.Fixed32? then 0x1_0000_0000 else 0x1_0000_0000_0000_0000
    ensures FixedBits(l, n) == n
  {
  }

  lemma VarintNumberRoundTrip(f: Field, n: int)
    requires f.ltype in {Varint, UVarint, SVarint} && FitsNumber(f, Num(n))
    ensures var u := if f.ltype.SVarint? then ZigZag(n) else ToU64(n);
            u < 0x1_0000_0000_0000_0000 && CheckNumber(f, u) == Some(n)
  {
    if f.ltype.Varint? {
      SignedReadBack(n, f.dataSize);
    } else if f.ltype.SVarint? {
      ZigZagReadBack(n, f.dataSize);
    }
  }

  lemma NumberRoundTrip(f: Field, v: Val)
    requires Packable(f.ltype) && FitsNumber(f, v)
    ensures EncNumber(f, v).Some? && DecNumber(f, EncNumber(f, v).value) == Ok(v, [], Exact)
  {
    if f.ltype.Fixed32? || f.ltype.Fixed64? {
      FixedNumberRoundTrip(f.ltype, v.n);
    } else {
      VarintNumberRoundTrip(f, v.n);
      var u := if f.ltype.SVarint? then ZigZag(v.n) else ToU64(v.n);
      VarintRoundTrip64(u, []);
      assert VarintBytes(u) + [] == VarintBytes(u);
    }
  }

  /** One value, given the round trip of the message inside it. */
  lemma ValRoundTrip(f: Field, prior: Val, v: Val)
    requires FitsVal(f, v) && EncVal(f, v).Some? && |EncVal(f, v).value| < 0x1_0000_0000
    requires f.ltype.Submessage? ==>
      && SubmessageBase(f, prior) == Defaults(f.sub)
      && EncMsg(f.sub, v.cells).Some?
      && Decode(f.sub, EncMsg(f.sub, v.cells).value) == Ok(Norm(f.sub, v.cells), [], Exact)
    ensures DecVal(f, prior, EncVal(f, v).value) == Ok(NormVal(f, v), [], Exact)
  {
    if Packable(f.ltype) {
      NumberRoundTrip(f, v);
    } else if !f.ltype.Submessage? {
      BlobRoundTrip(f, v);
    } else {
      SubstreamOfDelimited(EncMsg(f.sub, v.cells).value, []);
    }
  }
}
