/** What pb_decode.c computes from a stream, as functions on the bytes in the stream's window. */
module PbDecoding {
  import opened Common
  import opened PbDescriptor
  import opened PbEncoding
  import opened PbWire

  /** The struct being filled and the required rows seen, by their index among required rows. */
  datatype State = State(msg: Msg, seen: set<nat>)

  // ---------------------------------------------------------------- scalar values

  /** `pb_dec_varint`: fields of at most 32 bits take the low 32 bits as signed first. */
  function CheckVarint(u: nat, size: nat): Option<int> {
    if size == 8 then Some(ToSigned(u, 8))
    else if size in {1, 2, 4} then
      var sv := ToSigned(u, 4);
      if ToSigned(sv, size) == sv then Some(sv) else None
    else None
  }

  /** `pb_dec_uvarint`. */
  function CheckUVarint(u: nat, size: nat): Option<int> {
    if size in {1, 2, 4, 8} && ToUnsigned(u, size) == u then Some(u) else None
  }

  /** `pb_dec_svarint`. */
  function CheckSVarint(u: nat, size: nat): Option<int> {
    if size in {1, 2, 4, 8} && ToSigned(UnZigZag(u), size) == UnZigZag(u) then Some(UnZigZag(u)) else None
  }

  /** `pb_dec_fixed32` and `pb_dec_fixed64`. */
  function DecFixed(l: LType, s: seq<byte>): (r: Parsed<Val>)
    ensures r.Ok? ==> |r.rest| < |s|
  {
    match ReadFixed(s, FixedWidth(l))
    case Fail => Fail
    case Ok(n, rest, _) => Ok(Num(n), rest, Exact)
  }

  /** Packable types: a varint checked against the field width, or a fixed width integer. */
  function DecNumber(f: Field, s: seq<byte>): (r: Parsed<Val>)
    requires Packable(f.ltype)
    ensures r.Ok? ==> |r.rest| < |s|
  {
    if f.ltype.Fixed32? || f.ltype.Fixed64? then DecFixed(f.ltype, s)
    else
      match Varint64(s)
      case Fail => Fail
      case Ok(u, rest, _) =>
        var checked := CheckNumber(f, u);
        if checked.Some? then Ok(Num(checked.value), rest, Exact) else Fail
  }

  function CheckNumber(f: Field, u: nat): Option<int> {
    if f.ltype.Varint? then CheckVarint(u, f.dataSize)
    else if f.ltype.UVarint? then CheckUVarint(u, f.dataSize)
    else CheckSVarint(u, f.dataSize)
  }

  /** `pb_make_string_substream`: a length and that many bytes. */
  function Substream(s: seq<byte>): (r: Parsed<seq<byte>>)
    ensures r.Ok? ==> |r.value| + |r.rest| < |s|
  {
    match Varint32(s)
    case Fail => Fail
    case Ok(size, rest, _) => if |rest| < size then Fail else Ok(rest[..size], rest[size..], Exact)
  }

  /** `pb_dec_bytes` and `pb_dec_string`: the size is checked against the buffer first, and a
      string is read back as C reads it. */
  function DecBlob(f: Field, s: seq<byte>): (r: Parsed<Val>)
    ensures r.Ok? ==> |r.rest| < |s|
  {
    match Varint32(s)
    case Fail => Fail
    case Ok(size, rest, _) =>
      if size + (if f.ltype.Bytes? then 2 else 1) > f.dataSize then Fail
      else if f.ltype.Bytes? && size >= 0x1_0000 then Fail
      else if |rest| < size then Fail
      else Ok(Blob(if f.ltype.Bytes? then rest[..size] else CString(rest[..size], size)), rest[size..], Exact)
  }

  // ---------------------------------------------------------------- values, rows, messages

  /** The parent stream after a substream that left `left` unread is closed: it reads on where
      the substream stopped, for as many bytes as followed the substream. */
  function Resync<T>(value: T, left: seq<byte>, lag: Lag, after: seq<byte>): (r: Parsed<T>)
    ensures r.Ok? && |r.rest| == |after|
  {
    if left == [] && lag.Exact? then Ok(value, after, Exact)
    else
      var memory := left + lag.Gap() + after;
      Ok(value, memory[..|after|], Lagging(memory[|after|..]))
  }

  /** The struct a submessage value is decoded into: array entries and union members are set to
      defaults first, others merge into the value already there. */
  function SubmessageBase(f: Field, prior: Val): Msg {
    if f.htype.Repeated? || f.htype.Oneof? || !prior.Struct? then Defaults(f.sub) else prior.cells
  }

  /** `PB_DECODERS[PB_LTYPE(type)]`. */
  function DecVal(f: Field, prior: Val, s: seq<byte>): (r: Parsed<Val>)
    ensures r.Ok? ==> |r.rest| < |s|
    decreases |s|, 0
  {
    if Packable(f.ltype) then DecNumber(f, s)
    else if !f.ltype.Submessage? then DecBlob(f, s)
    else
      match Substream(s)
      case Fail => Fail
      case Ok(body, after, _) =>
        match DecMsg(f.sub, body, SubmessageBase(f, prior))
        case Fail => Fail
        case Ok(m, left, lag) => Resync(Struct(m), left, lag, after)
  }

  /** The loop over a packed array: stops at the end of the array's bytes or of its storage. */
  function DecPacked(f: Field, items: seq<Val>, s: seq<byte>): Option<seq<Val>>
    requires Packable(f.ltype)
    decreases |s|
  {
    if s == [] then Some(items)
    else if |items| >= f.arraySize then None
    else
      match DecNumber(f, s)
      case Fail => None
      case Ok(v, rest, _) => DecPacked(f, items + [v], rest)
  }

  function OldVal(f: Field, slot: Slot): Val {
    match slot
    case Single(v) => v
    case Opt(_, v) => v
    case _ => DefaultVal(f)
  }

  function Items(slot: Slot): seq<Val> {
    if slot.Rep? then slot.items else []
  }

  /** `decode_static_field`. The wire type only matters to arrays of packable type. */
  function DecField(f: Field, wt: nat, slot: Slot, s: seq<byte>): (r: Parsed<Slot>)
    ensures r.Ok? ==> |r.rest| < |s|
    decreases |s|, 1
  {
    if f.htype.Repeated? && wt == WT_STRING && Packable(f.ltype) then
      match Substream(s)
      case Fail => Fail
      case Ok(body, after, _) =>
        match DecPacked(f, Items(slot), body)
        case None => Fail
        case Some(items) => Ok(Rep(items), after, Exact)
    else if f.htype.Repeated? && |Items(slot)| >= f.arraySize then Fail
    else
      match DecVal(f, OldVal(f, slot), s)
      case Fail => Fail
      case Ok(v, rest, lag) => Ok(Filled(f, slot, v), rest, lag)
  }

  function Filled(f: Field, slot: Slot, v: Val): Slot {
    match f.htype
    case Required => Single(v)
    case Optional => Opt(true, v)
    case Repeated => Rep(Items(slot) + [v])
    case Oneof => OneofSet(f.tag, v)
  }

  /** Row `i` has been decoded to `slot`. */
  function Store(fields: seq<Field>, st: State, i: nat, slot: Slot): State
    requires i < |fields|
  {
    State(st.msg[Addr(fields, i) := slot],
          if fields[i].htype.Required? then st.seen + {RequiredBefore(fields, i)} else st.seen)
  }

  /** One turn of the loop in `pb_decode_noinit`. */
  datatype Turn = Next(st: State, rest: seq<byte>, lag: Lag) | Stop(rest: seq<byte>) | Bad

  function DecRecord(fields: seq<Field>, st: State, s: seq<byte>): (r: Turn)
    ensures r.Next? ==> |r.rest| < |s|
    decreases |s|, 2
  {
    match ReadTag(s)
    case BadTag => Bad
    case EndOfMessage(rest) => Stop(rest)
    case Tag(tag, wt, rest) =>
      match FindTag(fields, tag)
      case None =>
        // an empty message takes the zero row for a field with tag 0, and no value has size 0
        if fields == [] && tag == 0 then Bad
        else
          (match SkipField(wt, rest)
           case Fail => Bad
           case Ok(_, rest', lag) => Next(st, rest', lag))
      case Some(i) =>
        match DecField(fields[i], wt, SlotAt(fields, st.msg, i), rest)
        case Fail => Bad
        case Ok(slot, rest', lag) => Next(Store(fields, st, i, slot), rest', lag)
  }

  /** The loop of `pb_decode_noinit`. The lag is `Exact` when the input was exactly a sequence of
      whole records. */
  function DecLoop(fields: seq<Field>, st: State, s: seq<byte>): Parsed<State>
    decreases |s|, 3
  {
    if s == [] then Ok(st, [], Exact)
    else
      match DecRecord(fields, st, s)
      case Bad => Fail
      case Stop(rest) => Ok(st, rest, Lagging([]))
      case Next(st', rest, lag) =>
        match DecLoop(fields, st', rest)
        case Fail => Fail
        case Ok(st'', rest', lag') => Ok(st'', rest', lag.Then(lag'))
  }

  predicate AllRequiredSeen(fields: seq<Field>, seen: set<nat>) {
    forall k :: 0 <= k < RequiredBefore(fields, |fields|) ==> k in seen
  }

  /** `pb_decode_noinit`. */
  function DecMsg(fields: seq<Field>, s: seq<byte>, base: Msg): Parsed<Msg>
    decreases |s|, 4
  {
    match DecLoop(fields, State(base, {}), s)
    case Fail => Fail
    case Ok(st, rest, lag) =>
      if AllRequiredSeen(fields, st.seen) then Ok(st.msg, rest, lag) else Fail
  }

  /** `pb_decode`. */
  function Decode(fields: seq<Field>, s: seq<byte>): Parsed<Msg> {
    DecMsg(fields, s, Defaults(fields))
  }
}
