/** Message descriptors (`pb_field_t` arrays), message structs, and the cyclic field iterator
    of pb_common.c. */
module PbDescriptor {
  import opened Common
  import opened PbWire

  datatype LType = Varint | UVarint | SVarint | Fixed32 | Fixed64 | Bytes | String | Submessage

  datatype HType = Required | Optional | Repeated | Oneof

  /** One row of a descriptor. `sub` and `dflt` are the two readings of the row's `ptr`: the
      fields of a submessage, or the default value of any other field. */
  datatype Field = Field(
    tag: nat, htype: HType, ltype: LType,
    dataOffset: int, sizeOffset: int, dataSize: nat, arraySize: nat,
    sub: seq<Field>, dflt: Option<Val>)

  /** A value in a message struct. A `Blob` is the used part of a bytes field, or the character
      buffer of a string field. */
  datatype Val = Num(n: int) | Blob(bs: seq<byte>) | Struct(cells: Msg)

  /** The storage of one field with its has-flag, count or which-tag. */
  datatype Slot =
    | Single(v: Val)
    | Opt(has: bool, v: Val)
    | Rep(items: seq<Val>)
    | OneofNone
    | OneofSet(which: nat, v: Val)

  /** A message struct: slots by the byte offset of the field's data. The members of a union
      have one offset and share one slot. */
  type Msg = map<int, Slot>

  /** The zero row that ends every descriptor array. */
  const LAST_FIELD: Field := Field(0, Required, Varint, 0, 0, 0, 0, [], None)

  /** Row `i` of the array in memory; a descriptor is the rows before the terminator. */
  function Row(fields: seq<Field>, i: nat): Field {
    if i < |fields| then fields[i] else LAST_FIELD
  }

  predicate Packable(l: LType) {
    l in {Varint, UVarint, SVarint, Fixed32, Fixed64}
  }

  function FixedWidth(l: LType): nat {
    if l.Fixed32? then 4 else 8
  }

  function WireType(l: LType): (wt: nat)
    ensures wt < 8
  {
    match l
    case Fixed32 => WT_32BIT
    case Fixed64 => WT_64BIT
    case Bytes => WT_STRING
    case String => WT_STRING
    case Submessage => WT_STRING
    case _ => WT_VARINT
  }

  /** Offset of the data of row `i` in the struct: each offset is relative to the end of the
      row before, and the members of a union do not advance. */
  function DataOffset(fields: seq<Field>, i: nat): int
    requires i == 0 || i < |fields|
  {
    if i == 0 then Row(fields, 0).dataOffset
    else
      var prev, cur := fields[i - 1], fields[i];
      if prev.htype.Oneof? && cur.htype.Oneof? then DataOffset(fields, i - 1) - prev.dataOffset + cur.dataOffset
      else if prev.htype.Repeated? then DataOffset(fields, i - 1) + prev.dataSize * prev.arraySize + cur.dataOffset
      else DataOffset(fields, i - 1) + prev.dataSize + cur.dataOffset
  }

  /** The key of row `i` in a message struct. */
  function Addr(fields: seq<Field>, i: nat): int
    requires i < |fields|
  {
    DataOffset(fields, i)
  }

  /** Number of required rows before row `i`. */
  function RequiredBefore(fields: seq<Field>, i: nat): (n: nat)
    requires i <= |fields|
    ensures n <= i
  {
    if i == 0 then 0
    else RequiredBefore(fields, i - 1) + if fields[i - 1].htype.Required? then 1 else 0
  }

  /** The row with tag `tag`, if any: with distinct tags there is at most one. */
  function FindTag(fields: seq<Field>, tag: nat): (r: Option<nat>)
    ensures r.Some? ==> r.value < |fields| && fields[r.value].tag == tag
    ensures r.None? ==> forall i :: 0 <= i < |fields| ==> fields[i].tag != tag
  {
    FindTagFrom(fields, tag, 0)
  }

  function FindTagFrom(fields: seq<Field>, tag: nat, i: nat): (r: Option<nat>)
    requires i <= |fields|
    ensures r.Some? ==> i <= r.value < |fields| && fields[r.value].tag == tag
    ensures r.None? ==> forall k :: i <= k < |fields| ==> fields[k].tag != tag
    decreases |fields| - i
  {
    if i == |fields| then None
    else if fields[i].tag == tag then Some(i)
    else FindTagFrom(fields, tag, i + 1)
  }

  // ---------------------------------------------------------------- well-formed descriptors

  predicate DistinctTags(fields: seq<Field>) {
    && (forall i :: 0 <= i < |fields| ==> 0 < fields[i].tag < 0x1_0000)
    && (forall i, j :: 0 <= i < j < |fields| ==> fields[i].tag != fields[j].tag)
  }

  /** Only members of a union share storage. */
  predicate Layout(fields: seq<Field>) {
    forall i, j {:trigger Addr(fields, i), Addr(fields, j)} ::
      0 <= i < j < |fields| && Addr(fields, i) == Addr(fields, j) ==>
      fields[i].htype.Oneof? && fields[j].htype.Oneof?
  }

  /** The number of required rows that pb_decode.c lines 930-942 check without shifting a
      32-bit word by 32 or reading past `fields_seen`. */
  predicate CheckableCount(n: nat) {
    n == 0 || (n < 64 && n % 32 != 0)
  }

  predicate WellFormed(fields: seq<Field>) {
    && DistinctTags(fields)
    && Layout(fields)
    && CheckableCount(RequiredBefore(fields, |fields|))
    && (forall i :: 0 <= i < |fields| ==> WellFormedRow(fields[i]))
  }

  predicate WellFormedRow(f: Field) {
    && (f.ltype in {Varint, UVarint, SVarint} ==> f.dataSize in {1, 2, 4, 8})
    && (if f.ltype.Submessage? then WellFormed(f.sub) else f.sub == [])
  }

  lemma FindTagAt(fields: seq<Field>, i: nat)
    requires DistinctTags(fields) && i < |fields|
    ensures FindTag(fields, fields[i].tag) == Some(i)
  {
  }

  // ---------------------------------------------------------------- defaults

  /** `pb_field_set_to_default` on one value. */
  function DefaultVal(f: Field): Val
    decreases f, 0
  {
    if f.ltype.Submessage? then Struct(Defaults(f.sub))
    else if f.dflt.Some? then f.dflt.value
    else if f.ltype in {Bytes, String} then Blob([])
    else Num(0)
  }

  function DefaultSlot(f: Field): Slot
    decreases f, 1
  {
    match f.htype
    case Required => Single(DefaultVal(f))
    case Optional => Opt(false, DefaultVal(f))
    case Repeated => Rep([])
    case Oneof => OneofNone
  }

  /** `pb_message_set_to_defaults`. */
  function Defaults(fields: seq<Field>): Msg
    decreases fields, |fields| + 1
  {
    DefaultsUpTo(fields, |fields|)
  }

  function DefaultsUpTo(fields: seq<Field>, i: nat): Msg
    requires i <= |fields|
    decreases fields, i
  {
    if i == 0 then map[]
    else DefaultsUpTo(fields, i - 1)[Addr(fields, i - 1) := DefaultSlot(fields[i - 1])]
  }

  /** The slot of row `i`; a struct always has one, and it reads as unset otherwise. */
  function SlotAt(fields: seq<Field>, msg: Msg, i: nat): Slot
    requires i < |fields|
  {
    var a := Addr(fields, i);
    if a in msg then msg[a] else DefaultSlot(fields[i])
  }
}
