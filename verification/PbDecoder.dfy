/** pb_decode.c above the stream: defaults, fields, messages, and the required-field check. */
module PbDecoder {
  import opened PbDecoding
  import opened PbDescriptor
  import opened PbEncoding
  import opened PbIStream
  import opened PbIter
  import opened PbWire

  // ---------------------------------------------------------------- required fields

  /** A 32-bit word as the set of its one bits. */
  type Word = set<nat>

  predicate Below(k: nat, n: nat) {
    k < n
  }

  function LowBits(n: nat): Word {
    set k: nat | k < n && Below(k, n)
  }

  /** Lines 930-942: the whole words, then the remaining bits against `allbits >> (32 - n)`.
      `shifted` is what the machine yields for a shift by 32, which C leaves undefined. */
  predicate CheckSeen(words: seq<Word>, count: nat, shifted: Word)
    requires |words| == 2 && count < 64
  {
    count == 0 ||
    ((count >= 32 ==> words[0] == LowBits(32))
     && words[count / 32] == if count % 32 == 0 then shifted else LowBits(count % 32))
  }

  /** The words hold exactly the indices in `seen`. */
  ghost predicate Tracks(words: seq<Word>, seen: set<nat>) {
    && |words| == 2
    && (forall k: nat :: k in words[0] <==> k < 32 && k in seen)
    && (forall k: nat :: k in words[1] <==> k < 32 && k + 32 in seen)
  }

  /** The check says exactly whether every required field was seen, except for 32 fields, where
      it also needs the undefined shift to give zero. */
  lemma SeenCheckExact(words: seq<Word>, seen: set<nat>, count: nat, shifted: Word)
    requires Tracks(words, seen) && count < 64 && forall k :: k in seen ==> k < count
    ensures CheckSeen(words, count, shifted)
       <==> (forall k :: 0 <= k < count ==> k in seen) && (count == 32 ==> shifted == {})
  {
    WordFull(words[0], seen, 0, if count < 32 then count else 32);
    if count == 32 {
      assert words[1] == {};
    } else if count > 32 {
      WordFull(words[1], seen, 32, count - 32);
    }
  }

  /** A word of the seen bits from index `low` on has its `n` low bits set exactly when those
      `n` indices were seen and no other in its range. */
  lemma WordFull(word: Word, seen: set<nat>, low: nat, n: nat)
    requires forall k: nat :: k in word <==> k < 32 && k + low in seen
    requires n <= 32 && forall k :: low + n <= k < low + 32 ==> k !in seen
    ensures word == LowBits(n) <==> forall k :: low <= k < low + n ==> k in seen
  {
    if word == LowBits(n) {
      forall k | low <= k < low + n ensures k in seen {
        assert Below(k - low, n) && k - low in LowBits(n);
      }
    }
  }

  // ---------------------------------------------------------------- defaults

  /** `pb_field_set_to_default` for a static field, and `pb_message_set_to_defaults`. */
  method FieldDefault(f: Field) returns (slot: Slot)
    requires TerminatedTree(f.sub)
    ensures slot == DefaultSlot(f)
    decreases f, 0
  {
    var initData := true;
    if f.htype.Repeated? {
      slot := Rep([]);
      initData := false;
    } else {
      slot := OneofNone;
      initData := !f.htype.Oneof?;
    }
    if initData {
      var v;
      if f.ltype.Submessage? {
        var m := MessageDefaults(f.sub);
        v := Struct(m);
      } else if f.dflt.Some? {
        v := f.dflt.value;
      } else {
        v := if f.ltype in {Bytes, String} then Blob([]) else Num(0);
      }
      slot := if f.htype.Optional? then Opt(false, v) else Single(v);
    }
  }

  method MessageDefaults(fields: seq<Field>) returns (m: Msg)
    requires TerminatedTree(fields)
    ensures m == Defaults(fields)
    decreases fields, 1
  {
    m := map[];
    var iter := new FieldIter(fields);
    if Row(fields, iter.pos).tag == 0 {
      return;
    }
    var more := true;
    while more
      invariant iter.Valid() && iter.fields == fields
      invariant if more then iter.pos < |fields| && m == DefaultsUpTo(fields, iter.pos) else m == Defaults(fields)
      decreases if more then |fields| - iter.pos else 0
    {
      var slot := FieldDefault(fields[iter.pos]);
      m := m[iter.pData := slot];
      more := iter.Next();
    }
  }

  // ---------------------------------------------------------------- values

  /** `pb_dec_varint`, `pb_dec_uvarint`, `pb_dec_svarint`, `pb_dec_fixed32`, `pb_dec_fixed64`. */
  method DecodeNumber(stream: IStream, f: Field) returns (ok: bool, v: Val)
    requires stream.Valid() && Packable(f.ltype)
    modifies stream
    ensures stream.Valid() && stream.End() == old(stream.End())
    ensures var r := DecNumber(f, old(stream.View()));
            ok == r.Ok? && (ok ==> v == r.value && stream.View() == r.rest)
  {
    v := Num(0);
    if f.ltype.Fixed32? || f.ltype.Fixed64? {
      var data;
      ok, data := stream.Read(FixedWidth(f.ltype));
      if ok {
        v := Num(FixedValue(data));
      }
      return;
    }
    var value;
    ok, value := stream.DecodeVarint();
    if !ok {
      return;
    }
    var size := f.dataSize;
    if size !in {1, 2, 4, 8} {
      return false, v;
    }
    var svalue: int;
    var clamped: int;
    if f.ltype.Varint? {
      svalue := if size == 8 then ToSigned(value, 8) else ToSigned(value, 4);
      clamped := ToSigned(svalue, size);
      SignedTwice(value);
    } else if f.ltype.UVarint? {
      svalue := value;
      clamped := ToUnsigned(value, size);
    } else {
      svalue := UnZigZag(value);
      clamped := ToSigned(svalue, size);
    }
    v := Num(clamped);
    ok := clamped == svalue;
  }

  lemma SignedTwice(u: nat)
    ensures ToSigned(ToSigned(u, 8), 8) == ToSigned(u, 8) && ToSigned(ToSigned(u, 4), 4) == ToSigned(u, 4)
  {
  }

  /** The scan C does when it reads a string: up to the NUL written after the data at the latest. */
  function AsString(data: seq<byte>): seq<byte> {
    CString(data, |data|)
  }

  /** `pb_dec_bytes` and `pb_dec_string`. */
  method DecodeBlob(stream: IStream, f: Field) returns (ok: bool, v: Val)
    requires stream.Valid() && f.ltype in {Bytes, String}
    modifies stream
    ensures stream.Valid() && stream.End() == old(stream.End())
    ensures var r := DecBlob(f, old(stream.View()));
            ok == r.Ok? && (ok ==> v == r.value && stream.View() == r.rest)
  {
    v := Blob([]);
    var size;
    ok, size := stream.DecodeVarint32();
    if !ok {
      return;
    }
    if f.ltype.Bytes? && size > 0xFFFF {
      return false, v;
    }
    var allocSize := size + if f.ltype.Bytes? then 2 else 1;
    if allocSize > f.dataSize {
      return false, v;
    }
    var data;
    ok, data := stream.Read(size);
    if ok {
      v := Blob(if f.ltype.Bytes? then data else AsString(data));
    }
  }

  /** The loop over a packed array in `decode_static_field`. */
  method DecodePacked(substream: IStream, f: Field, prior: seq<Val>) returns (status: bool, items: seq<Val>)
    requires substream.Valid() && Packable(f.ltype)
    modifies substream
    ensures substream.Valid() && substream.End() == old(substream.End())
    ensures var r := DecPacked(f, prior, old(substream.View()));
            (status && substream.bytesLeft == 0) == r.Some? && (r.Some? ==> items == r.value)
  {
    status, items := true, prior;
    while substream.bytesLeft > 0 && |items| < f.arraySize
      invariant substream.Valid() && substream.End() == old(substream.End())
      invariant DecPacked(f, prior, old(substream.View())) == DecPacked(f, items, substream.View())
      decreases substream.bytesLeft
    {
      var ok, v := DecodeNumber(substream, f);
      if !ok {
        // a failed number may have used up its substream; either way the array is rejected
        status := false;
        return;
      }
      items := items + [v];
    }
  }

  /** `PB_DECODERS[PB_LTYPE(type)]`. */
  method DecodeVal(stream: IStream, f: Field, prior: Val) returns (ok: bool, v: Val)
    requires stream.Valid() && WellFormedRow(f) && TerminatedTree(f.sub)
    modifies stream
    ensures stream.Valid() && stream.End() <= old(stream.End())
    ensures var r := DecVal(f, prior, old(stream.View()));
            ok == r.Ok? && (ok ==> v == r.value && stream.Holds(r.rest, r.lag, old(stream.End())))
    decreases stream.bytesLeft, 1
  {
    if Packable(f.ltype) {
      ok, v := DecodeNumber(stream, f);
    } else if !f.ltype.Submessage? {
      ok, v := DecodeBlob(stream, f);
    } else {
      ok, v := DecodeSubmessage(stream, f, prior);
    }
  }

  /** What a submessage decodes to, from its window. */
  lemma SubmessageValue(f: Field, prior: Val, s: seq<byte>)
    requires f.ltype.Submessage?
    ensures DecVal(f, prior, s) ==
      if Substream(s).Fail? then Fail
      else
        var r := DecMsg(f.sub, Substream(s).value, SubmessageBase(f, prior));
        if r.Fail? then Fail else Resync(Struct(r.value), r.rest, r.lag, Substream(s).rest)
  {
    hide DecMsg, Substream, SubmessageBase, Resync;
  }

  /** The struct a submessage is decoded over, with defaults where the source sets them. */
  method BaseFor(f: Field, prior: Val) returns (base: Msg)
    requires TerminatedTree(f.sub)
    ensures base == SubmessageBase(f, prior)
  {
    if f.htype.Repeated? || f.htype.Oneof? || !prior.Struct? {
      base := MessageDefaults(f.sub);
    } else {
      base := prior.cells;
    }
  }

  /** `pb_dec_submessage`. */
  method DecodeSubmessage(stream: IStream, f: Field, prior: Val) returns (ok: bool, v: Val)
    requires stream.Valid() && WellFormedRow(f) && TerminatedTree(f.sub) && f.ltype.Submessage?
    modifies stream
    ensures stream.Valid() && stream.End() <= old(stream.End())
    ensures var r := DecVal(f, prior, old(stream.View()));
            ok == r.Ok? && (ok ==> v == r.value && stream.Holds(r.rest, r.lag, old(stream.End())))
    decreases stream.bytesLeft, 0
  {
    ghost var s := stream.View();
    v := prior;
    SubmessageValue(f, prior, s);
    hide DecVal, DecMsg, Substream, Resync, WellFormed, TerminatedTree, SubmessageBase;
    var substream;
    ok, substream := stream.MakeStringSubstream();
    if !ok {
      return;
    }
    ghost var body, after := Substream(s).value, Substream(s).rest;
    ghost var subEnd := substream.End();
    var base := BaseFor(f, prior);
    var m;
    ok, m := DecodeNoinit(substream, f.sub, base);
    v := Struct(m);
    ghost var r := DecMsg(f.sub, body, base);
    if ok {
      stream.CloseStringSubstream(substream, v, r.rest, r.lag, subEnd, after);
    } else {
      stream.state := substream.state;
    }
  }

  // ---------------------------------------------------------------- fields

  /** `decode_static_field`. */
  method DecodeStaticField(stream: IStream, wireType: nat, f: Field, prior: Slot) returns (ok: bool, slot: Slot)
    requires stream.Valid() && WellFormedRow(f) && TerminatedTree(f.sub)
    modifies stream
    ensures stream.Valid() && stream.End() <= old(stream.End())
    ensures var r := DecField(f, wireType, prior, old(stream.View()));
            ok == r.Ok? && (ok ==> slot == r.value && stream.Holds(r.rest, r.lag, old(stream.End())))
    decreases stream.bytesLeft, 2
  {
    slot := prior;
    if f.htype.Repeated? && wireType == WT_STRING && Packable(f.ltype) {
      ok, slot := DecodePackedField(stream, f, prior);
      return;
    }
    if f.htype.Repeated? && |Items(prior)| >= f.arraySize {
      return false, slot;
    }
    var v;
    ok, v := DecodeVal(stream, f, OldVal(f, prior));
    slot := Filled(f, prior, v);
  }

  method DecodePackedField(stream: IStream, f: Field, prior: Slot) returns (ok: bool, slot: Slot)
    requires stream.Valid() && f.htype.Repeated? && Packable(f.ltype)
    modifies stream
    ensures stream.Valid() && stream.End() <= old(stream.End())
    ensures var r := DecField(f, WT_STRING, prior, old(stream.View()));
            ok == r.Ok? && (ok ==> slot == r.value && stream.Holds(r.rest, r.lag, old(stream.End())))
  {
    ghost var s := stream.View();
    slot := prior;
    var substream;
    ok, substream := stream.MakeStringSubstream();
    if !ok {
      return;
    }
    ghost var subEnd := substream.End();
    var status, items := DecodePacked(substream, f, Items(prior));
    slot := Rep(items);
    if substream.bytesLeft != 0 {
      stream.state := substream.state;
      return false, slot;
    }
    assert substream.View() == [];
    assert substream.buf[substream.End()..subEnd] == [];
    stream.CloseStringSubstream(substream, (), [], Exact, subEnd, Substream(s).rest);
    return status, slot;
  }

  // ---------------------------------------------------------------- messages

  /** `lag` from the records so far, then the rest of the loop. */
  ghost function After(lag: Lag, r: Parsed<State>): Parsed<State> {
    match r
    case Fail => Fail
    case Ok(st, rest, lag') => Ok(st, rest, lag.Then(lag'))
  }

  lemma AfterTurn(fields: seq<Field>, st: State, s: seq<byte>, lag: Lag)
    requires s != []
    ensures match DecRecord(fields, st, s)
            case Bad => DecLoop(fields, st, s).Fail?
            case Stop(rest) => DecLoop(fields, st, s) == Ok(st, rest, Lagging([]))
            case Next(st', rest, lag') => After(lag, DecLoop(fields, st, s)) == After(lag.Then(lag'), DecLoop(fields, st', rest))
  {
    var r := DecRecord(fields, st, s);
    if r.Next? && DecLoop(fields, r.st, r.rest).Ok? {
      ThenAssociative(lag, r.lag, DecLoop(fields, r.st, r.rest).lag);
    }
  }

  /** `allbits >> n`; `shifted` is what the machine yields for a shift by 32. */
  function AllBitsShifted(n: nat, shifted: Word): Word
    requires n <= 32
  {
    if n == 32 then shifted else LowBits(32 - n)
  }

  /** Lines 911-922: counts the required rows by walking to the end of the ring from wherever the
      iterator stands. */
  method CountRequired(iter: FieldIter) returns (count: nat)
    requires iter.Valid()
    modifies iter
    ensures count == RequiredBefore(iter.fields, |iter.fields|)
  {
    ghost var fields := iter.fields;
    var last;
    count, last := iter.requiredIndex, Row(iter.fields, iter.pos).htype;
    var more := iter.Next();
    while more
      invariant iter.Valid() && iter.fields == fields && (more ==> 0 < iter.pos < |fields|) && (!more ==> iter.pos == 0)
      invariant fields != [] ==>
        var i := if more then iter.pos - 1 else |fields| - 1;
        count == RequiredBefore(fields, i) && last == fields[i].htype
      invariant fields == [] ==> count == 0 && !more
      decreases if more then |fields| - iter.pos else 0
    {
      count, last := iter.requiredIndex, Row(iter.fields, iter.pos).htype;
      more := iter.Next();
    }
    if last.Required? && Row(iter.fields, iter.pos).tag != 0 {
      count := count + 1;
    }
  }

  /** Lines 930-942. Where the words would be read past their end the check is not `defined`. */
  method CheckWords(fieldsSeen: array<Word>, count: nat, shifted: Word) returns (ok: bool, defined: bool)
    requires fieldsSeen.Length == 2
    ensures count < 64 ==> defined && ok == CheckSeen(fieldsSeen[..], count, shifted)
    ensures count >= 64 ==>
      (if defined then !ok && (fieldsSeen[0] != LowBits(32) || fieldsSeen[1] != LowBits(32))
       else fieldsSeen[0] == fieldsSeen[1] == LowBits(32))
  {
    hide LowBits;
    if count == 0 {
      return true, true;
    }
    var i := 0;
    while i < count / 32 && i < 2
      invariant 0 <= i <= 2 && i <= count / 32 && forall j :: 0 <= j < i ==> fieldsSeen[j] == LowBits(32)
    {
      if fieldsSeen[i] != LowBits(32) {
        return false, true;
      }
      i := i + 1;
    }
    if i == 2 {
      return false, false;
    }
    return fieldsSeen[i] == AllBitsShifted(32 - count % 32, shifted), true;
  }

  /** Both words are full exactly when the first 64 required rows were seen. */
  lemma BothFull(words: seq<Word>, seen: set<nat>)
    requires Tracks(words, seen)
    ensures words[0] == LowBits(32) && words[1] == LowBits(32) <==> forall k :: 0 <= k < 64 ==> k in seen
  {
    WordFull(words[0], seen, 0, 32);
    WordFull(words[1], seen, 32, 32);
    hide LowBits;
  }

  /** Lines 909-943: the count from wherever the iterator stands, and the check that each row was
      seen. With 32 rows the answer depends on the undefined shift; with 64 or more there is one
      only if one of the first 64 is missing. */
  method CheckRequired(iter: FieldIter, fieldsSeen: array<Word>, shifted: Word, ghost seen: set<nat>)
    returns (ok: bool, defined: bool)
    requires iter.Valid() && fieldsSeen.Length == 2 && Tracks(fieldsSeen[..], seen)
    requires forall k :: k in seen ==> k < RequiredBefore(iter.fields, |iter.fields|)
    modifies iter
    ensures var fields := iter.fields;
            var n := RequiredBefore(fields, |fields|);
      && (defined <==> n < 64 || exists k :: 0 <= k < 64 && k !in seen)
      && (defined ==> ok == (AllRequiredSeen(fields, seen) && (n == 32 ==> shifted == {})))
  {
    ghost var words := fieldsSeen[..];
    var count := CountRequired(iter);
    ok, defined := CheckWords(fieldsSeen, count, shifted);
    if count < 64 {
      SeenCheckExact(words, seen, count, shifted);
    } else {
      BothFull(words, seen);
    }
    hide Tracks, LowBits, CheckSeen;
  }

  lemma {:induction false} RequiredInRange(fields: seq<Field>, i: nat, j: nat)
    requires i < j <= |fields|
    ensures RequiredBefore(fields, i) <= RequiredBefore(fields, j)
    ensures fields[i].htype.Required? ==> RequiredBefore(fields, i) < RequiredBefore(fields, j)
    decreases j
  {
    assert RequiredBefore(fields, j) == RequiredBefore(fields, j - 1) + if fields[j - 1].htype.Required? then 1 else 0;
    if i < j - 1 {
      RequiredInRange(fields, i, j - 1);
    }
  }

  /** Setting bit `k % 32` of word `k / 32` records index `k`. */
  lemma TrackOne(words: seq<Word>, words': seq<Word>, seen: set<nat>, k: nat)
    requires Tracks(words, seen) && k < 64
    requires words' == words[k / 32 := words[k / 32] + {k % 32}]
    ensures Tracks(words', seen + {k})
  {
  }

  /** One turn of the loop in `pb_decode_noinit` on a row that was found. */
  method DecodeRow(stream: IStream, wireType: nat, iter: FieldIter, fieldsSeen: array<Word>, st: Msg, ghost seen: set<nat>)
    returns (ok: bool, msg: Msg, ghost seen': set<nat>)
    requires stream.Valid() && iter.Valid() && WellFormed(iter.fields) && TerminatedTree(iter.fields)
    requires iter.pos < |iter.fields|
    requires fieldsSeen.Length == 2 && Tracks(fieldsSeen[..], seen)
    modifies stream, fieldsSeen
    ensures stream.Valid() && stream.End() <= old(stream.End())
    ensures var fields := iter.fields;
            var i := iter.pos;
            var r := DecField(fields[i], wireType, SlotAt(fields, st, i), old(stream.View()));
            ok == r.Ok? && (ok ==>
              && stream.Holds(r.rest, r.lag, old(stream.End()))
              && State(msg, seen') == Store(fields, State(st, seen), i, r.value)
              && Tracks(fieldsSeen[..], seen'))
    decreases stream.bytesLeft, 3
  {
    var f := iter.fields[iter.pos];
    ghost var n := RequiredBefore(iter.fields, |iter.fields|);
    RequiredInRange(iter.fields, iter.pos, |iter.fields|);
    seen' := seen;
    if f.htype.Required? && iter.requiredIndex < 64 {
      var w, bit: nat := iter.requiredIndex / 32, iter.requiredIndex % 32;
      fieldsSeen[w] := fieldsSeen[w] + {bit};
      TrackOne(old(fieldsSeen[..]), fieldsSeen[..], seen, iter.requiredIndex);
      seen' := seen + {iter.requiredIndex};
    }
    var prior := if iter.pData in st then st[iter.pData] else DefaultSlot(f);
    var slot;
    ok, slot := DecodeStaticField(stream, wireType, f, prior);
    msg := st[iter.pData := slot];
  }

  datatype Verdict = Continue | Finished | Failed

  /** One turn of the loop in `pb_decode_noinit`. */
  method DecodeTurn(stream: IStream, iter: FieldIter, fieldsSeen: array<Word>, base: Msg, ghost seen: set<nat>)
    returns (verdict: Verdict, msg: Msg, ghost seen': set<nat>)
    requires stream.Valid() && iter.Valid() && WellFormed(iter.fields) && TerminatedTree(iter.fields)
    requires stream.bytesLeft > 0 && fieldsSeen.Length == 2 && Tracks(fieldsSeen[..], seen)
    modifies stream, iter, fieldsSeen
    ensures stream.Valid() && stream.End() <= old(stream.End()) && iter.Valid()
    ensures match DecRecord(iter.fields, State(base, seen), old(stream.View()))
            case Bad => verdict == Failed
            case Stop(rest) =>
              verdict == Finished && msg == base && seen' == seen && Tracks(fieldsSeen[..], seen')
              && stream.Holds(rest, Exact, old(stream.End()))
            case Next(st, rest, lag) =>
              verdict == Continue && State(msg, seen') == st && Tracks(fieldsSeen[..], seen')
              && stream.Holds(rest, lag, old(stream.End()))
    decreases stream.bytesLeft, 4
  {
    var fields := iter.fields;
    msg, seen' := base, seen;
    hide DecField, Store, Tracks, SlotAt, SkipField, WellFormed, TerminatedTree;
    var ok, wireType, tag, eof := stream.DecodeTag();
    if !ok {
      return if eof then Finished else Failed, msg, seen';
    }
    var found;
    ghost var steps;
    found, steps := iter.Find(tag);
    if !found {
      assert FindTag(fields, tag).None?;
      ok := stream.Skip(wireType);
      return if ok then Continue else Failed, msg, seen';
    }
    if fields == [] {
      // the terminator row was found: no value has size 0
      var v;
      ok, v := DecodeNumber(stream, LAST_FIELD);
      return if ok then Continue else Failed, msg, seen';
    }
    FindTagAt(fields, iter.pos);
    ok, msg, seen' := DecodeRow(stream, wireType, iter, fieldsSeen, msg, seen);
    verdict := if ok then Continue else Failed;
  }

  lemma HoldsThen(stream: IStream, middle: nat, end: nat, lag: Lag, lag': Lag)
    requires stream.Valid() && stream.Holds(stream.View(), lag', middle)
    requires middle + |lag.Gap()| == end <= |stream.buf| && stream.buf[middle..end] == lag.Gap()
    ensures stream.Holds(stream.View(), lag.Then(lag'), end)
  {
    assert stream.buf[stream.End()..end] == stream.buf[stream.End()..middle] + stream.buf[middle..end];
  }

  /** Where the loop of `pb_decode_noinit` stands: what the whole loop makes of its input is what
      it makes of the rest, or the state at the end of the message. */
  ghost predicate InLoop(stream: IStream, fields: seq<Field>, total: Parsed<State>, st: State, lag: Lag, end: nat, eof: bool)
    reads stream
  {
    && stream.Valid() && stream.Holds(stream.View(), lag, end) && SeenInRange(fields, st.seen)
    && (if eof then total == Ok(st, stream.View(), lag) else total == After(lag, DecLoop(fields, st, stream.View())))
  }

  /** A turn of the loop, as a step towards the result. */
  method LoopTurn(stream: IStream, iter: FieldIter, fieldsSeen: array<Word>, base: Msg, ghost seen: set<nat>,
                  ghost total: Parsed<State>, ghost lag: Lag, ghost end: nat)
    returns (verdict: Verdict, msg: Msg, ghost seen': set<nat>, ghost lag': Lag)
    requires iter.Valid() && WellFormed(iter.fields) && TerminatedTree(iter.fields)
    requires fieldsSeen.Length == 2 && Tracks(fieldsSeen[..], seen)
    requires InLoop(stream, iter.fields, total, State(base, seen), lag, end, false) && stream.bytesLeft > 0
    modifies stream, iter, fieldsSeen
    ensures stream.Valid() && stream.End() <= old(stream.End()) && iter.Valid()
    ensures verdict.Failed? ==> total.Fail?
    ensures !verdict.Failed? ==> Tracks(fieldsSeen[..], seen')
    ensures !verdict.Failed? ==> InLoop(stream, iter.fields, total, State(msg, seen'), lag', end, verdict.Finished?)
    ensures verdict.Continue? ==> stream.bytesLeft < old(stream.bytesLeft)
    ensures verdict.Finished? ==> stream.bytesLeft <= old(stream.bytesLeft)
    decreases stream.bytesLeft, 5
  {
    ghost var fields, st, view, middle := iter.fields, State(base, seen), stream.View(), stream.End();
    AfterTurn(fields, st, view, lag);
    SeenStaysInRange(fields, st, view);
    verdict, msg, seen' := DecodeTurn(stream, iter, fieldsSeen, base, seen);
    ghost var r := DecRecord(fields, st, view);
    hide DecLoop, WellFormed, TerminatedTree, Tracks, SeenInRange;
    lag' := lag;
    if !verdict.Failed? {
      HoldsThen(stream, middle, end, lag, if r.Stop? then Exact else r.lag);
      lag' := lag.Then(if r.Stop? then Lagging([]) else r.lag);
    }
  }

  /** `pb_decode_noinit`. */
  method DecodeNoinit(stream: IStream, fields: seq<Field>, base: Msg) returns (ok: bool, msg: Msg)
    requires stream.Valid() && WellFormed(fields) && TerminatedTree(fields)
    modifies stream
    ensures stream.Valid() && stream.End() <= old(stream.End())
    ensures var r := DecMsg(fields, old(stream.View()), base);
            ok == r.Ok? && (ok ==> msg == r.value && stream.Holds(r.rest, r.lag, old(stream.End())))
    decreases stream.bytesLeft, 7
  {
    ghost var end := stream.End();
    ghost var total := DecLoop(fields, State(base, {}), stream.View());
    var iter, fieldsSeen, failed;
    ghost var seen: set<nat>;
    ghost var lag: Lag;
    iter, fieldsSeen, msg, seen, lag, failed := NoinitLoop(stream, fields, base, total, end);
    if failed {
      return false, msg;
    }
    hide DecLoop, WellFormed, TerminatedTree, Tracks;
    var defined;
    ok, defined := CheckRequired(iter, fieldsSeen, {}, seen);
  }

  /** The loop of `pb_decode_noinit`, to the end of the input or of the message. */
  method NoinitLoop(stream: IStream, fields: seq<Field>, base: Msg, ghost total: Parsed<State>, ghost end: nat)
    returns (iter: FieldIter, fieldsSeen: array<Word>, msg: Msg, ghost seen: set<nat>, ghost lag: Lag, failed: bool)
    requires stream.Valid() && WellFormed(fields) && TerminatedTree(fields) && end == stream.End()
    requires total == DecLoop(fields, State(base, {}), stream.View())
    modifies stream
    ensures stream.Valid() && stream.End() <= old(stream.End())
    ensures fresh(iter) && fresh(fieldsSeen) && iter.Valid() && iter.fields == fields && fieldsSeen.Length == 2
    ensures failed ==> total.Fail?
    ensures !failed ==> Tracks(fieldsSeen[..], seen) && SeenInRange(fields, seen)
    ensures !failed ==> total == Ok(State(msg, seen), stream.View(), lag) && stream.Holds(stream.View(), lag, end)
    decreases stream.bytesLeft, 6
  {
    seen, lag := {}, Exact;
    fieldsSeen := new Word[2](_ => {});
    iter := new FieldIter(fields);
    msg, failed := base, false;
    var eof := false;
    assert InLoop(stream, fields, total, State(msg, seen), lag, end, false);
    assert Tracks(fieldsSeen[..], seen);
    hide *;
    while stream.bytesLeft > 0 && !eof
      invariant fresh(iter) && fresh(fieldsSeen) && iter.Valid() && iter.fields == fields && fieldsSeen.Length == 2
      invariant Tracks(fieldsSeen[..], seen) && InLoop(stream, fields, total, State(msg, seen), lag, end, eof)
      invariant stream.Valid() && stream.End() <= old(stream.End()) && stream.bytesLeft <= old(stream.bytesLeft)
      decreases stream.bytesLeft, !eof
    {
      var verdict;
      verdict, msg, seen, lag := LoopTurn(stream, iter, fieldsSeen, msg, seen, total, lag, end);
      if verdict.Failed? {
        failed := true;
        return;
      }
      eof := verdict.Finished?;
    }
    LoopEnds(stream, fields, total, State(msg, seen), lag, end, eof);
  }

  lemma LoopEnds(stream: IStream, fields: seq<Field>, total: Parsed<State>, st: State, lag: Lag, end: nat, eof: bool)
    requires InLoop(stream, fields, total, st, lag, end, eof) && (stream.bytesLeft == 0 || eof)
    ensures stream.Valid() && SeenInRange(fields, st.seen)
    ensures total == Ok(st, stream.View(), lag) && stream.Holds(stream.View(), lag, end)
  {
  }

  predicate SeenInRange(fields: seq<Field>, seen: set<nat>) {
    forall k :: k in seen ==> k < RequiredBefore(fields, |fields|)
  }

  lemma SeenStaysInRange(fields: seq<Field>, st: State, s: seq<byte>)
    requires SeenInRange(fields, st.seen)
    ensures DecRecord(fields, st, s).Next? ==> SeenInRange(fields, DecRecord(fields, st, s).st.seen)
  {
    if DecRecord(fields, st, s).Next? && FindTag(fields, ReadTag(s).tag).Some? {
      RequiredInRange(fields, FindTag(fields, ReadTag(s).tag).value, |fields|);
    }
  }

  /** `pb_decode`. */
  method DecodeMessage(stream: IStream, fields: seq<Field>) returns (ok: bool, msg: Msg)
    requires stream.Valid() && WellFormed(fields) && TerminatedTree(fields)
    modifies stream
    ensures stream.Valid()
    ensures var r := Decode(fields, old(stream.View()));
            ok == r.Ok? && (ok ==> msg == r.value && stream.Holds(r.rest, r.lag, old(stream.End())))
  {
    msg := MessageDefaults(fields);
    ok, msg := DecodeNoinit(stream, fields, msg);
  }
}
