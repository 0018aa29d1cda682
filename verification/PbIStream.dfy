/** The input stream of pb_decode.c over a memory buffer, with its varint, key, skip and
    substream readers. */
module PbIStream {
  import opened PbWire
  import opened PbDecoding

  // ---------------------------------------------------------------- varints group by group

  /** `v` shifted left by `k` groups of seven bits. */
  function Scale(v: nat, k: nat): nat {
    if k == 0 then v else 128 * Scale(v, k - 1)
  }

  lemma {:induction false} ScaleSplit(low: nat, high: nat, k: nat)
    ensures Scale(low + 128 * high, k) == Scale(low, k) + Scale(high, k + 1)
  {
    if k > 0 {
      ScaleSplit(low, high, k - 1);
    }
  }

  /** What the reading loop has still to add to `acc` after `k` groups. */
  function Resume(acc: nat, k: nat, r: Parsed<nat>): Parsed<nat> {
    match r
    case Fail => Fail
    case Ok(v, rest, _) => Ok(acc + Scale(v, k), rest, Exact)
  }

  lemma ResumeStep(s: seq<byte>, n: nat, acc: nat, k: nat)
    requires n > 0 && s != []
    ensures Resume(acc, k, VarintFrom(s, n))
         == if s[0] < 128 then Ok(acc + Scale(s[0], k), s[1..], Exact)
            else Resume(acc + Scale(s[0] - 128, k), k + 1, VarintFrom(s[1..], n - 1))
  {
    var r := VarintFrom(s[1..], n - 1);
    if s[0] >= 128 && r.Ok? {
      ScaleSplit(s[0] - 128, r.value, k);
    }
  }

  /** The low 32 or 64 bits. */
  function Low(x: nat, bits: nat): nat {
    if bits == 32 then x % 0x1_0000_0000 else x % 0x1_0000_0000_0000_0000
  }

  /** A result kept to its low bits as the groups are added. */
  lemma Accumulate(acc: nat, x: nat)
    ensures Low(Low(acc, 32) + x, 32) == Low(acc + x, 32)
    ensures Low(Low(acc, 64) + x, 64) == Low(acc + x, 64)
  {
  }

  /** The reading loop is at a state from which it returns what the whole read returns. */
  ghost predicate Pending(r: Parsed<nat>, acc: nat, k: nat, n: nat, s: seq<byte>) {
    k <= n && Resume(0, 0, r) == Resume(acc, k, VarintFrom(s, n - k))
  }

  lemma PendingStart(s: seq<byte>, n: nat)
    ensures Pending(VarintFrom(s, n), 0, 0, n, s)
  {
  }

  /** One byte of the loop: what to do when there is none, when it is the last, and otherwise. */
  lemma PendingStep(r: Parsed<nat>, acc: nat, k: nat, n: nat, s: seq<byte>)
    requires Pending(r, acc, k, n, s)
    ensures k == n || s == [] ==> r.Fail?
    ensures k < n && s != [] && s[0] < 128 ==> r.Ok? && r.value == acc + Scale(s[0], k) && r.rest == s[1..]
    ensures k < n && s != [] && s[0] >= 128 ==> Pending(r, acc + Scale(s[0] - 128, k), k + 1, n, s[1..])
  {
    if k < n && s != [] {
      ResumeStep(s, n - k, acc, k);
    }
  }

  class IStream {
    const buf: seq<byte>
    var state: nat
    var bytesLeft: nat

    ghost predicate Valid()
      reads this
    {
      state + bytesLeft <= |buf|
    }

    /** The bytes still to be read. */
    ghost function View(): (s: seq<byte>)
      requires Valid()
      reads this
      ensures |s| == bytesLeft
    {
      buf[state..state + bytesLeft]
    }

    /** Where the window ends in the buffer. */
    ghost function End(): nat
      reads this
    {
      state + bytesLeft
    }

    /** The window holds `rest` and has slipped back from `end` by the lag. */
    ghost predicate Holds(rest: seq<byte>, lag: Lag, end: nat)
      reads this
    {
      && Valid() && View() == rest
      && End() + |lag.Gap()| == end <= |buf| && buf[End()..end] == lag.Gap()
    }

    /** `pb_istream_from_buffer`, or a copy of a stream with its own limit. */
    constructor (buf: seq<byte>, state: nat, size: nat)
      requires state + size <= |buf|
      ensures Valid() && this.buf == buf && this.state == state && bytesLeft == size
    {
      this.buf, this.state, this.bytesLeft := buf, state, size;
    }

    /** `pb_read`. */
    method Read(count: nat) returns (ok: bool, data: seq<byte>)
      requires Valid()
      modifies this
      ensures Valid() && End() == old(End())
      ensures ok <==> count <= old(bytesLeft)
      ensures ok ==> data == old(View())[..count] && View() == old(View())[count..] && state == old(state) + count
      ensures !ok ==> View() == old(View())
    {
      if bytesLeft < count {
        return false, [];
      }
      data := buf[state..state + count];
      state := state + count;
      bytesLeft := bytesLeft - count;
      return true, data;
    }

    /** `pb_readbyte`. */
    method ReadByte() returns (ok: bool, b: byte)
      requires Valid()
      modifies this
      ensures Valid() && End() == old(End())
      ensures ok <==> old(bytesLeft) > 0
      ensures ok ==> b == old(View())[0] && View() == old(View())[1..] && state == old(state) + 1
      ensures !ok ==> View() == old(View())
    {
      if bytesLeft == 0 {
        return false, 0;
      }
      b := buf[state];
      state := state + 1;
      bytesLeft := bytesLeft - 1;
      return true, b;
    }

    /** One turn of the varint loops: the low seven bits of a byte are added at bit `bitpos` of
        a result of `bits` bits. */
    method ReadGroup(result: nat, bitpos: nat, bits: nat, ghost r: Parsed<nat>, ghost acc: nat, ghost k: nat, ghost n: nat)
      returns (ok: bool, b: byte, result': nat, ghost acc': nat)
      requires Valid() && Pending(r, acc, k, n, View())
      requires bitpos == 7 * k && k < n && bits in {32, 64} && result == Low(acc, bits)
      modifies this
      ensures Valid() && End() == old(End()) && (ok <==> old(bytesLeft) > 0)
      ensures !ok ==> r.Fail? && bytesLeft == 0
      ensures ok ==> result' == Low(acc', bits) && bytesLeft == old(bytesLeft) - 1
      ensures ok && b < 128 ==> r.Ok? && r.value == acc' && r.rest == View()
      ensures ok && b >= 128 ==> Pending(r, acc', k + 1, n, View())
    {
      PendingStep(r, acc, k, n, View());
      result', acc' := result, acc;
      ok, b := ReadByte();
      if ok {
        var group := Scale(b % 128, bitpos / 7);
        Accumulate(acc, group);
        result' := Low(result + group, bits);
        acc' := acc + group;
        assert bitpos / 7 == k && b % 128 == if b < 128 then b else b - 128;
      }
    }

    /** `pb_decode_varint32`. A failed read leaves nothing in the stream exactly when the input
        was no longer than the five bytes it may use. */
    method DecodeVarint32() returns (ok: bool, dest: nat)
      requires Valid()
      modifies this
      ensures Valid() && End() == old(End())
      ensures ok <==> Varint32(old(View())).Ok?
      ensures ok ==> dest == Varint32(old(View())).value && View() == Varint32(old(View())).rest
      ensures !ok ==> (bytesLeft == 0 <==> |old(View())| <= 5)
    {
      ghost var r := VarintFrom(View(), 5);
      ghost var n := 5;
      PendingStart(View(), n);
      var b: byte;
      var result;
      ghost var acc;
      ok, b, result, acc := ReadGroup(0, 0, 32, r, 0, 0, n);
      dest := result;
      if !ok || b < 128 {
        return;
      }
      var bitpos := 7;
      ghost var k := 1;
      while true
        invariant Valid() && End() == old(End()) && bitpos == 7 * k && k <= n && bytesLeft + k == old(bytesLeft)
        invariant result == Low(acc, 32)
        invariant Pending(r, acc, k, n, View())
        decreases n - k
      {
        if bitpos >= 32 {
          PendingStep(r, acc, k, n, View());
          return false, 0;
        }
        ok, b, result, acc := ReadGroup(result, bitpos, 32, r, acc, k, n);
        dest := result;
        if !ok || b < 128 {
          return;
        }
        bitpos, k := bitpos + 7, k + 1;
      }
    }

    /** `pb_decode_varint`. */
    method DecodeVarint() returns (ok: bool, dest: nat)
      requires Valid()
      modifies this
      ensures Valid() && End() == old(End())
      ensures ok <==> Varint64(old(View())).Ok?
      ensures ok ==> dest == Varint64(old(View())).value && View() == Varint64(old(View())).rest
    {
      ghost var r := VarintFrom(View(), 10);
      ghost var n := 10;
      PendingStart(View(), n);
      var b: byte;
      var bitpos, result := 0, 0;
      ghost var k, acc: nat := 0, 0;
      while true
        invariant Valid() && End() == old(End()) && bitpos == 7 * k && k <= n
        invariant result == Low(acc, 64)
        invariant Pending(r, acc, k, n, View())
        decreases n - k
      {
        if bitpos >= 64 {
          PendingStep(r, acc, k, n, View());
          return false, 0;
        }
        ok, b, result, acc := ReadGroup(result, bitpos, 64, r, acc, k, n);
        dest := result;
        if !ok || b < 128 {
          return;
        }
        bitpos, k := bitpos + 7, k + 1;
      }
    }

    /** `pb_decode_tag`: running out of input inside a key counts as the end of the message, and
        so does the zero key. */
    method DecodeTag() returns (ok: bool, wireType: nat, tag: nat, eof: bool)
      requires Valid()
      modifies this
      ensures Valid() && End() == old(End())
      ensures match ReadTag(old(View()))
              case Tag(t, wt, rest) => ok && !eof && tag == t && wireType == wt && View() == rest
              case EndOfMessage(rest) => !ok && eof && View() == rest
              case BadTag => !ok && !eof
    {
      eof, wireType, tag := false, 0, 0;
      var temp;
      ok, temp := DecodeVarint32();
      if !ok {
        if bytesLeft == 0 {
          eof := true;
        }
        return;
      }
      if temp == 0 {
        eof := true;
        ok := false;
        return;
      }
      tag := temp / 8;
      wireType := temp % 8;
    }

    /** `pb_skip_varint`. */
    method SkipVarintBytes() returns (ok: bool)
      requires Valid()
      modifies this
      ensures Valid() && End() == old(End())
      ensures ok <==> SkipVarint(old(View())).Ok?
      ensures ok ==> View() == SkipVarint(old(View())).rest
    {
      var b: byte;
      while true
        invariant Valid() && End() == old(End())
        invariant SkipVarint(old(View())) == SkipVarint(View())
        decreases bytesLeft
      {
        ok, b := ReadByte();
        if !ok {
          return false;
        }
        if b < 128 {
          return true;
        }
      }
    }

    /** `pb_skip_field`. */
    method Skip(wireType: nat) returns (ok: bool)
      requires Valid()
      modifies this
      ensures Valid() && End() == old(End())
      ensures ok <==> SkipField(wireType, old(View())).Ok?
      ensures ok ==> View() == SkipField(wireType, old(View())).rest
    {
      var n;
      if wireType == WT_VARINT {
        ok := SkipVarintBytes();
        return;
      } else if wireType == WT_64BIT {
        n := 8;
      } else if wireType == WT_STRING {
        ok, n := DecodeVarint32();
        if !ok {
          return;
        }
      } else if wireType == WT_32BIT {
        n := 4;
      } else {
        return false;
      }
      var read, skipped := Read(n);
      ok := read;
    }

    /** `pb_make_string_substream`: the parent gives up the bytes of the substream at once. */
    method MakeStringSubstream() returns (ok: bool, substream: IStream)
      requires Valid()
      modifies this
      ensures Valid() && End() <= old(End())
      ensures fresh(substream) && substream.Valid() && substream.buf == buf
      ensures ok <==> Substream(old(View())).Ok?
      ensures ok ==>
        && substream.View() == Substream(old(View())).value
        && old(bytesLeft) > substream.bytesLeft + bytesLeft
        && substream.End() + bytesLeft == old(End())
        && buf[substream.End()..old(End())] == Substream(old(View())).rest
    {
      var size;
      ok, size := DecodeVarint32();
      substream := new IStream(buf, state, bytesLeft);
      if !ok {
        return;
      }
      if substream.bytesLeft < size {
        ok := false;
        return;
      }
      ghost var rest := View();
      substream.bytesLeft := size;
      bytesLeft := bytesLeft - size;
      assert substream.View() == rest[..size];
      assert buf[substream.End()..old(End())] == rest[size..];
    }

    /** `pb_close_string_substream`: the parent goes on where the substream stopped. */
    method CloseStringSubstream<T>(substream: IStream, ghost value: T, ghost left: seq<byte>, ghost lag: Lag,
                                   ghost subEnd: nat, ghost after: seq<byte>)
      requires substream.buf == buf && substream.Holds(left, lag, subEnd)
      requires bytesLeft == |after| && subEnd + |after| <= |buf| && buf[subEnd..subEnd + |after|] == after
      modifies `state
      ensures Holds(Resync(value, left, lag, after).rest, Resync(value, left, lag, after).lag, subEnd + |after|)
    {
      state := substream.state;
      ghost var end := subEnd + |after|;
      ghost var memory := left + lag.Gap() + after;
      assert buf[state..end] == memory by {
        assert buf[state..end] == buf[state..substream.End()] + buf[substream.End()..subEnd] + buf[subEnd..end];
      }
      assert View() == memory[..|after|];
      assert buf[End()..end] == memory[|after|..];
      if left == [] && lag.Exact? {
        assert memory == after;
        assert memory[|after|..] == [];
      }
    }
  }
}
