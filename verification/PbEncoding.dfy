/** The bytes that pb_encode.c produces for a message, as a function of descriptor and struct.
    `None` is an encoder error other than a full stream. */
module PbEncoding {
  import opened Common
  import opened PbDescriptor
  import opened PbWire

  function Cat(a: Option<seq<byte>>, b: Option<seq<byte>>): Option<seq<byte>> {
    if a.Some? && b.Some? then Some(a.value + b.value) else None
  }

  /** The C string in a buffer of `max` characters: what comes before the first NUL. */
  function CString(bs: seq<byte>, max: nat): (s: seq<byte>)
    ensures |s| <= max && s <= bs
    ensures forall k :: 0 <= k < |s| ==> s[k] != 0
    ensures |s| < max && |s| < |bs| ==> bs[|s|] == 0
  {
    if max == 0 || bs == [] || bs[0] == 0 then [] else [bs[0]] + CString(bs[1..], max - 1)
  }

  /** A length-delimited string: its size as a varint, then the bytes. */
  function Delimited(s: seq<byte>): seq<byte> {
    VarintBytes(|s|) + s
  }

  /** `pb_enc_fixed32` and `pb_enc_fixed64`. */
  function EncFixed(l: LType, n: int): seq<byte> {
    Fixed(FixedBits(l, n), FixedWidth(l))
  }

  function FixedBits(l: LType, n: int): nat {
    if l.Fixed32? then n % 0x1_0000_0000 else n % 0x1_0000_0000_0000_0000
  }

  /** `pb_enc_varint`, `pb_enc_uvarint`, `pb_enc_svarint` and the fixed width encoders. */
  function EncNumber(f: Field, v: Val): Option<seq<byte>>
    requires Packable(f.ltype)
  {
    if !v.Num? then None
    else if f.ltype.Fixed32? || f.ltype.Fixed64? then Some(EncFixed(f.ltype, v.n))
    else if f.dataSize !in {1, 2, 4, 8} then None
    else Some(VarintBytes(if f.ltype.SVarint? then ZigZag(v.n) else ToU64(v.n)))
  }

  /** `PB_ENCODERS[PB_LTYPE(type)]`: the bytes of one value, without its key. */
  function EncVal(f: Field, v: Val): Option<seq<byte>>
    decreases f, 0, 0
  {
    match f.ltype
    case Bytes => if v.Blob? && |v.bs| + 2 <= f.dataSize then Some(Delimited(v.bs)) else None
    case String => if v.Blob? then Some(Delimited(CString(v.bs, f.dataSize))) else None
    case Submessage =>
      if !v.Struct? then None
      else
        (match EncMsg(f.sub, v.cells)
         case None => None
         case Some(body) => Some(Delimited(body)))
    case _ => EncNumber(f, v)
  }

  /** The values of a packed array from index `i`, one after the other. */
  function EncPacked(f: Field, items: seq<Val>, i: nat): Option<seq<byte>>
    requires i <= |items|
    decreases f, 1, |items| - i
  {
    if i == |items| then Some([]) else Cat(EncVal(f, items[i]), EncPacked(f, items, i + 1))
  }

  /** `pb_encode_tag_for_field` and the value. */
  function EncKeyed(f: Field, v: Val): Option<seq<byte>>
    decreases f, 1, 0
  {
    Cat(Some(Key(WireType(f.ltype), f.tag)), EncVal(f, v))
  }

  /** The entries of an unpacked array from index `i`, each with its own key. */
  function EncUnpacked(f: Field, items: seq<Val>, i: nat): Option<seq<byte>>
    requires i <= |items|
    decreases f, 2, |items| - i
  {
    if i == |items| then Some([]) else Cat(EncKeyed(f, items[i]), EncUnpacked(f, items, i + 1))
  }

  /** `encode_array`. */
  function EncArray(f: Field, items: seq<Val>): Option<seq<byte>>
    decreases f, 3, 0
  {
    if items == [] then Some([])
    else if |items| > f.arraySize then None
    else if Packable(f.ltype) then
      match EncPacked(f, items, 0)
      case None => None
      case Some(body) => Some(Key(WT_STRING, f.tag) + Delimited(body))
    else EncUnpacked(f, items, 0)
  }

  /** `encode_basic_field`. */
  function EncField(f: Field, slot: Slot): Option<seq<byte>>
    decreases f, 4, 0
  {
    match f.htype
    case Required => if slot.Single? then EncKeyed(f, slot.v) else None
    case Optional =>
      if !slot.Opt? then None else if slot.has then EncKeyed(f, slot.v) else Some([])
    case Repeated => if slot.Rep? then EncArray(f, slot.items) else None
    case Oneof =>
      if slot.OneofSet? && slot.which == f.tag then EncKeyed(f, slot.v)
      else if slot.OneofSet? || slot.OneofNone? then Some([])
      else None
  }

  /** The rows from `i` on. */
  function EncFrom(fields: seq<Field>, msg: Msg, i: nat): Option<seq<byte>>
    requires i <= |fields|
    decreases fields, 0, |fields| - i
  {
    if i == |fields| then Some([])
    else Cat(EncField(fields[i], SlotAt(fields, msg, i)), EncFrom(fields, msg, i + 1))
  }

  /** `pb_encode`. */
  function EncMsg(fields: seq<Field>, msg: Msg): Option<seq<byte>>
    decreases fields, 1, 0
  {
    EncFrom(fields, msg, 0)
  }

  /** Fixed width arrays are sized by multiplication instead of by encoding. */
  lemma {:induction false} PackedFixedSize(f: Field, items: seq<Val>, i: nat)
    requires (f.ltype.Fixed32? || f.ltype.Fixed64?) && i <= |items|
    requires forall k :: 0 <= k < |items| ==> items[k].Num?
    ensures EncPacked(f, items, i).Some?
    ensures |EncPacked(f, items, i).value| == if f.ltype.Fixed32? then 4 * (|items| - i) else 8 * (|items| - i)
    decreases |items| - i
  {
    if i < |items| {
      PackedFixedSize(f, items, i + 1);
      assert |EncVal(f, items[i]).value| == FixedWidth(f.ltype);
    }
  }
}
