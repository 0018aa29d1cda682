/** The output stream of pb_encode.c and the encoders on it, updated in place. A stream without
    a callback only counts. Every encoder succeeds exactly when the encoding exists and a
    writing stream has room for it, and then appends exactly that encoding. */
module PbOStream {
  import opened Common
  import opened PbEncoding
  import opened PbWire

  /** The fields of a stream and the contents of its buffer at one moment. */
  ghost predicate ValidSnap(o: Snap) {
    && |o.bytes| == o.buf.Length
    && (o.writing ==> o.bytesWritten <= o.maxSize && o.state + (o.maxSize - o.bytesWritten) <= |o.bytes|)
  }

  datatype Snap = Snap(writing: bool, buf: array<byte>, state: nat, maxSize: nat, bytesWritten: nat, bytes: seq<byte>)

  ghost predicate Room(o: Snap, n: nat) {
    o.writing ==> o.bytesWritten + n <= o.maxSize
  }

  /** Between `o` and `n` the stream kept its settings, what was written before `o`, and the
      buffer past the stream's limit. */
  ghost predicate Kept(o: Snap, n: Snap)
    requires ValidSnap(o)
  {
    && ValidSnap(n) && n.writing == o.writing && n.buf == o.buf && n.maxSize == o.maxSize
    && (o.writing ==>
          var limit := o.state + (o.maxSize - o.bytesWritten);
          && n.bytesWritten - o.bytesWritten == n.state - o.state >= 0
          && n.bytes[..o.state] == o.bytes[..o.state] && n.bytes[limit..] == o.bytes[limit..])
    && (!o.writing ==> n.state == o.state && n.bytes == o.bytes)
  }

  /** Between `o` and `n` exactly `data` was appended. */
  ghost predicate Wrote(o: Snap, n: Snap, data: seq<byte>)
    requires ValidSnap(o)
  {
    && ValidSnap(n) && n.writing == o.writing && n.buf == o.buf && n.maxSize == o.maxSize
    && n.bytesWritten == o.bytesWritten + |data|
    && (if o.writing then
          && n.state == o.state + |data| <= |o.bytes|
          && n.bytes == o.bytes[..o.state] + data + o.bytes[o.state + |data|..]
        else n.state == o.state && n.bytes == o.bytes)
  }

  /** The contract of every encoder: it succeeds exactly when the encoding exists and fits. */
  ghost predicate Encoded(o: Snap, n: Snap, enc: Option<seq<byte>>, ok: bool)
    requires ValidSnap(o)
  {
    && Kept(o, n)
    && (ok <==> enc.Some? && Room(o, |enc.value|))
    && (ok ==> Wrote(o, n, enc.value))
  }

  lemma WroteKeeps(o: Snap, n: Snap, data: seq<byte>)
    requires ValidSnap(o) && Wrote(o, n, data)
    ensures Kept(o, n)
  {
    if o.writing {
      var limit := o.state + (o.maxSize - o.bytesWritten);
      assert n.bytes[..o.state] == o.bytes[..o.state];
      assert n.bytes[limit..] == o.bytes[limit..];
    }
  }

  lemma WroteThen(o: Snap, m: Snap, n: Snap, a: seq<byte>, b: seq<byte>)
    requires ValidSnap(o) && Wrote(o, m, a) && Wrote(m, n, b)
    ensures Wrote(o, n, a + b)
  {
    if o.writing {
      assert m.bytes[..m.state] == o.bytes[..o.state] + a;
      assert m.bytes[m.state + |b|..] == o.bytes[o.state + |a| + |b|..];
      assert o.bytes[..o.state] + a + b == o.bytes[..o.state] + (a + b);
    }
  }

  lemma KeptThen(o: Snap, m: Snap, n: Snap)
    requires ValidSnap(o) && Kept(o, m) && Kept(m, n)
    ensures Kept(o, n)
  {
    if o.writing {
      assert n.bytes[..o.state] == n.bytes[..m.state][..o.state];
    }
  }

  /** Two encoders in a row encode the concatenation. */
  lemma EncodedThen(o: Snap, m: Snap, n: Snap, a: Option<seq<byte>>, b: Option<seq<byte>>, ok: bool)
    requires ValidSnap(o) && Encoded(o, m, a, true) && Encoded(m, n, b, ok)
    ensures Encoded(o, n, Cat(a, b), ok)
  {
    KeptThen(o, m, n);
    if ok {
      WroteThen(o, m, n, a.value, b.value);
    }
  }

  /** When the first encoder fails, so does the sequence. */
  lemma EncodedFails(o: Snap, m: Snap, a: Option<seq<byte>>, b: Option<seq<byte>>)
    requires ValidSnap(o) && Encoded(o, m, a, false)
    ensures Encoded(o, m, Cat(a, b), false)
  {
  }

  lemma NothingEncoded(o: Snap)
    requires ValidSnap(o)
    ensures Encoded(o, o, Some([]), true)
  {
    if o.writing {
      assert o.bytes == o.bytes[..o.state] + [] + o.bytes[o.state..];
    }
  }

  class OStream {
    var writing: bool
    var buf: array<byte>
    var state: nat
    var maxSize: nat
    var bytesWritten: nat

    ghost function Now(): Snap
      reads this, buf
    {
      Snap(writing, buf, state, maxSize, bytesWritten, buf[..])
    }

    ghost predicate Valid()
      reads this, buf
    {
      ValidSnap(Now())
    }

    /** `pb_ostream_from_buffer` on part of a buffer, or a sizing stream. */
    constructor (writing: bool, buf: array<byte>, state: nat, maxSize: nat)
      requires writing ==> state + maxSize <= buf.Length
      ensures Now() == Snap(writing, buf, state, maxSize, 0, buf[..]) && Valid()
    {
      this.writing, this.buf, this.state, this.maxSize, this.bytesWritten := writing, buf, state, maxSize, 0;
    }

    /** `buf_write`. */
    method BufWrite(data: seq<byte>)
      requires writing && state + |data| <= buf.Length
      modifies `state, buf
      ensures state == old(state) + |data|
      ensures buf[..state] == old(buf[..state]) + data
      ensures buf[state..] == old(buf[..])[state..]
    {
      var dest := state;
      state := dest + |data|;
      for i := 0 to |data|
        invariant state == old(state) + |data|
        invariant buf[..dest + i] == old(buf[..state]) + data[..i]
        invariant forall k :: dest + i <= k < buf.Length ==> buf[k] == old(buf[k])
      {
        buf[dest + i] := data[i];
        assert buf[..dest + i + 1] == buf[..dest + i] + [data[i]];
      }
    }

    /** `pb_write`. */
    method Write(data: seq<byte>) returns (ok: bool)
      requires Valid()
      modifies this, buf
      ensures Encoded(old(Now()), Now(), Some(data), ok)
    {
      if writing {
        if bytesWritten + |data| > maxSize {
          return false;
        }
        BufWrite(data);
        assert buf[..] == buf[..state] + buf[state..];
      }
      bytesWritten := bytesWritten + |data|;
      WroteKeeps(old(Now()), Now(), data);
      return true;
    }

    /** `pb_write` with no data: only the size of `data` is known, and only a sizing stream
        accepts that. */
    method Count(ghost data: seq<byte>, n: nat) returns (ok: bool)
      requires Valid() && !writing && n == |data|
      modifies this, buf
      ensures ok && Encoded(old(Now()), Now(), Some(data), ok)
    {
      bytesWritten := bytesWritten + n;
      return true;
    }

    /** Every byte of a varint has its top bit set until the last one is cleared. */
    static ghost function Groups(v: nat): seq<byte> {
      if v == 0 then [] else [v % 128 + 128] + Groups(v / 128)
    }

    static lemma {:induction false} GroupsAreVarint(v: nat)
      requires v > 0
      ensures |Groups(v)| == |VarintBytes(v)| && Groups(v)[|Groups(v)| - 1] >= 128
      ensures VarintBytes(v) == Groups(v)[..|Groups(v)| - 1] + [Groups(v)[|Groups(v)| - 1] - 128]
    {
      if v >= 128 {
        GroupsAreVarint(v / 128);
        var g := Groups(v / 128);
        assert Groups(v) == [v % 128 + 128] + g;
        assert Groups(v)[..|g|] == [v % 128 + 128] + g[..|g| - 1];
      } else {
        assert Groups(v / 128) == [];
      }
    }

    static lemma GroupsMore(v: nat)
      ensures v > 0 ==> Groups(v) == [v % 128 + 128] + Groups(v / 128)
      ensures v == 0 ==> Groups(v) == []
    {
    }

    static lemma MoveOne(s: seq<byte>, b: byte, t: seq<byte>)
      ensures s + ([b] + t) == (s + [b]) + t
    {
    }

    /** The loop of `pb_encode_varint` that fills its local buffer. */
    static method FillVarint(value: nat) returns (buffer: array<byte>, i: nat)
      requires 0 < value < 0x1_0000_0000_0000_0000
      ensures fresh(buffer) && i <= buffer.Length && buffer[..i] == VarintBytes(value)
    {
      buffer := new byte[10](_ => 0);
      i := 0;
      var v := value;
      VarintLengths(value);
      GroupsAreVarint(value);
      ghost var all := Groups(value);
      hide Groups, VarintBytes;
      while v > 0
        invariant i + |Groups(v)| == |all| <= 10
        invariant buffer[..i] + Groups(v) == all
        decreases v
      {
        ghost var before := buffer[..i];
        GroupsMore(v);
        MoveOne(before, v % 128 + 128, Groups(v / 128));
        buffer[i] := v % 128 + 128;
        assert buffer[..i + 1] == before + [v % 128 + 128];
        v := v / 128;
        i := i + 1;
      }
      GroupsMore(v);
      assert buffer[..i] == all;
      assert buffer[..i - 1] == all[..i - 1];
      buffer[i - 1] := buffer[i - 1] % 128;
      assert buffer[..i] == buffer[..i - 1] + [buffer[i - 1]];
    }

    /** `pb_encode_varint`. */
    method EncodeVarint(value: nat) returns (ok: bool)
      requires Valid() && value < 0x1_0000_0000_0000_0000
      modifies this, buf
      ensures Encoded(old(Now()), Now(), Some(VarintBytes(value)), ok)
    {
      if value <= 0x7F {
        ok := Write([value]);
      } else {
        var buffer, i := FillVarint(value);
        ok := Write(buffer[..i]);
      }
    }

    /** `pb_encode_svarint`. */
    method EncodeSVarint(value: int) returns (ok: bool)
      requires Valid()
      modifies this, buf
      ensures Encoded(old(Now()), Now(), Some(VarintBytes(ZigZag(value))), ok)
    {
      var zigzagged;
      if value < 0 {
        zigzagged := 0xFFFF_FFFF_FFFF_FFFF - 2 * ToU64(value) % 0x1_0000_0000_0000_0000;
      } else {
        zigzagged := 2 * ToU64(value) % 0x1_0000_0000_0000_0000;
      }
      ok := EncodeVarint(zigzagged);
    }

    /** `pb_encode_fixed32`. */
    method EncodeFixed32(val: nat) returns (ok: bool)
      requires Valid() && val < 0x1_0000_0000
      modifies this, buf
      ensures Encoded(old(Now()), Now(), Some(Fixed(val, 4)), ok)
    {
      var bytes: seq<byte> := [val % 0x100, val / 0x100 % 0x100, val / 0x1_0000 % 0x100, val / 0x100_0000 % 0x100];
      FixedFour(val);
      ok := Write(bytes);
    }

    static lemma FixedFour(val: nat)
      ensures Fixed(val, 4) == [val % 0x100, val / 0x100 % 0x100, val / 0x1_0000 % 0x100, val / 0x100_0000 % 0x100]
    {
      assert Fixed(val, 4) == [val % 256] + Fixed(val / 256, 3);
      assert Fixed(val / 256, 3) == [val / 256 % 256] + Fixed(val / 256 / 256, 2);
      assert Fixed(val / 256 / 256, 2) == [val / 256 / 256 % 256, val / 256 / 256 / 256 % 256];
    }

    /** `pb_encode_fixed64`. */
    method EncodeFixed64(val: nat) returns (ok: bool)
      requires Valid() && val < 0x1_0000_0000_0000_0000
      modifies this, buf
      ensures Encoded(old(Now()), Now(), Some(Fixed(val, 8)), ok)
    {
      var high := val / 0x1_0000_0000;
      var bytes: seq<byte> :=
        [val % 0x100, val / 0x100 % 0x100, val / 0x1_0000 % 0x100, val / 0x100_0000 % 0x100]
        + [high % 0x100, high / 0x100 % 0x100, high / 0x1_0000 % 0x100, high / 0x100_0000 % 0x100];
      FixedFour(val);
      FixedFour(high);
      FixedAppend(val, 4, 4);
      ShiftFour(val);
      ok := Write(bytes);
    }

    static ghost function Shift256(v: nat, n: nat): nat {
      if n == 0 then v else Shift256(v / 256, n - 1)
    }

    static lemma ShiftFour(v: nat)
      ensures Shift256(v, 4) == v / 0x1_0000_0000
    {
      var w := v / 256 / 256;
      assert Shift256(v, 4) == Shift256(v / 256, 3) == Shift256(w, 2);
      assert Shift256(w, 2) == Shift256(w / 256, 1) == Shift256(w / 256 / 256, 0) == w / 256 / 256;
      assert w == v / 0x1_0000 && w / 256 / 256 == w / 0x1_0000;
    }

    static lemma {:induction false} FixedAppend(v: nat, m: nat, n: nat)
      ensures Fixed(v, m + n) == Fixed(v, m) + Fixed(Shift256(v, m), n)
      decreases m
    {
      if m == 0 {
        assert Fixed(v, 0) == [];
      } else {
        FixedAppend(v / 256, m - 1, n);
      }
    }

    /** `pb_encode_tag`. */
    method EncodeTag(wt: nat, tag: nat) returns (ok: bool)
      requires Valid() && wt < 8 && tag < 0x1_0000_0000
      modifies this, buf
      ensures Encoded(old(Now()), Now(), Some(Key(wt, tag)), ok)
    {
      ok := EncodeVarint(tag * 8 + wt);
    }

    /** `pb_encode_string`. */
    method EncodeString(data: seq<byte>) returns (ok: bool)
      requires Valid() && |data| < 0x1_0000_0000
      modifies this, buf
      ensures Encoded(old(Now()), Now(), Some(Delimited(data)), ok)
    {
      ghost var o := Now();
      ok := EncodeVarint(|data|);
      ghost var m := Now();
      if !ok {
        EncodedFails(o, m, Some(VarintBytes(|data|)), Some(data));
        return;
      }
      ok := Write(data);
      EncodedThen(o, m, Now(), Some(VarintBytes(|data|)), Some(data), ok);
    }
  }
}
