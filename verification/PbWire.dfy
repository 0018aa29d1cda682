/** Wire-level arithmetic of the nanopb codec: base-128 varints, zigzag, little-endian fixed
    width integers and field keys, as functions on byte sequences. */
module PbWire {
  import Bytes
  import opened Common

  type byte = Bytes.byte

  /** How a stream's window stands in the buffer after a read. A submessage ended by a zero key
      leaves the read position inside it while its parent has already given up all its bytes,
      so the parent's window slips back; `gap` is what then lies between the end of the window
      and where it ended before. */
  datatype Lag = Exact | Lagging(gap: seq<byte>) {
    function Gap(): seq<byte> {
      if Exact? then [] else gap
    }

    /** The lag of two reads in a row. */
    function Then(next: Lag): Lag {
      if Exact? then next else Lagging(next.Gap() + gap)
    }
  }

  lemma ThenAssociative(a: Lag, b: Lag, c: Lag)
    ensures a.Then(b).Then(c) == a.Then(b.Then(c))
  {
    if a.Lagging? {
      assert c.Gap() + (b.Gap() + a.gap) == b.Then(c).Gap() + a.gap;
    }
  }

  /** Result of reading a value from the front of a stream's window: what the window holds
      afterwards, and whether every part of the value was used to its last byte. */
  datatype Parsed<+T> = Ok(value: T, rest: seq<byte>, lag: Lag) | Fail

  // ---------------------------------------------------------------- varints

  /** The base-128 varint of `v`: seven bits a byte, least significant group first, the top
      bit set on every byte but the last. */
  function VarintBytes(v: nat): (s: seq<byte>)
    ensures |s| >= 1
  {
    if v < 128 then [v] else [v % 128 + 128] + VarintBytes(v / 128)
  }

  /** The value of a varint of at most `n` bytes at the front of `s`. */
  function VarintFrom(s: seq<byte>, n: nat): (r: Parsed<nat>)
    ensures r.Ok? ==> |r.rest| < |s|
    decreases |s|
  {
    if n == 0 || s == [] then Fail
    else if s[0] < 128 then Ok(s[0], s[1..], Exact)
    else
      match VarintFrom(s[1..], n - 1)
      case Fail => Fail
      case Ok(hi, rest, _) => Ok(s[0] - 128 + 128 * hi, rest, Exact)
  }

  /** `pb_decode_varint32`: at most five bytes, and bits shifted past bit 31 are lost. */
  function Varint32(s: seq<byte>): (r: Parsed<nat>)
    ensures r.Ok? ==> |r.rest| < |s|
  {
    match VarintFrom(s, 5)
    case Fail => Fail
    case Ok(v, rest, _) => Ok(v % 0x1_0000_0000, rest, Exact)
  }

  /** `pb_decode_varint`: at most ten bytes, and bits shifted past bit 63 are lost. */
  function Varint64(s: seq<byte>): (r: Parsed<nat>)
    ensures r.Ok? ==> |r.rest| < |s|
  {
    match VarintFrom(s, 10)
    case Fail => Fail
    case Ok(v, rest, _) => Ok(v % 0x1_0000_0000_0000_0000, rest, Exact)
  }

  function Cap128(n: nat): nat {
    if n == 0 then 1 else 128 * Cap128(n - 1)
  }

  lemma {:induction false} VarintLength(v: nat, n: nat)
    requires n >= 1 && v < Cap128(n)
    ensures |VarintBytes(v)| <= n
    decreases n
  {
    if v >= 128 {
      VarintLength(v / 128, n - 1);
    }
  }

  /** A 32-bit value takes at most five bytes, a 64-bit value never more than the ten bytes of
      the encoder's buffer. */
  lemma VarintLengths(v: nat)
    ensures v < 0x1_0000_0000 ==> |VarintBytes(v)| <= 5
    ensures v < 0x1_0000_0000_0000_0000 ==> |VarintBytes(v)| <= 10
  {
    assert Cap128(5) == 0x8_0000_0000;
    assert Cap128(10) == 0x40_0000_0000_0000_0000;
    if v < 0x1_0000_0000 { VarintLength(v, 5); }
    if v < 0x1_0000_0000_0000_0000 { VarintLength(v, 10); }
  }

  /** No varint is longer than it must be: only that of zero ends in a zero byte. */
  lemma {:induction false} VarintShortest(v: nat)
    ensures VarintBytes(v)[|VarintBytes(v)| - 1] == 0 <==> v == 0
    ensures v == 0 ==> |VarintBytes(v)| == 1
    decreases v
  {
    if v >= 128 {
      VarintShortest(v / 128);
    }
  }

  lemma ConsTail(b: byte, s: seq<byte>, tail: seq<byte>)
    ensures ([b] + s + tail)[0] == b && ([b] + s + tail)[1..] == s + tail
  {
  }

  /** Reading undoes writing, whatever follows. */
  lemma {:induction false} VarintRoundTripFrom(v: nat, n: nat, tail: seq<byte>)
    requires |VarintBytes(v)| <= n
    ensures VarintFrom(VarintBytes(v) + tail, n) == Ok(v, tail, Exact)
    decreases v
  {
    if v < 128 {
      ConsTail(v, [], tail);
      assert [v] + [] + tail == VarintBytes(v) + tail && [] + tail == tail;
    } else {
      ConsTail(v % 128 + 128, VarintBytes(v / 128), tail);
      VarintRoundTripFrom(v / 128, n - 1, tail);
    }
  }

  lemma VarintRoundTrip64(v: nat, tail: seq<byte>)
    requires v < 0x1_0000_0000_0000_0000
    ensures Varint64(VarintBytes(v) + tail) == Ok(v, tail, Exact)
  {
    VarintLengths(v);
    VarintRoundTripFrom(v, 10, tail);
    Wrapped(VarintBytes(v) + tail, v, tail);
  }

  lemma VarintRoundTrip32(v: nat, tail: seq<byte>)
    requires v < 0x1_0000_0000
    ensures Varint32(VarintBytes(v) + tail) == Ok(v, tail, Exact)
  {
    VarintLengths(v);
    VarintRoundTripFrom(v, 5, tail);
    Wrapped(VarintBytes(v) + tail, v, tail);
  }

  lemma Wrapped(s: seq<byte>, v: nat, rest: seq<byte>)
    ensures VarintFrom(s, 5) == Ok(v, rest, Exact) && v < 0x1_0000_0000 ==> Varint32(s) == Ok(v, rest, Exact)
    ensures VarintFrom(s, 10) == Ok(v, rest, Exact) && v < 0x1_0000_0000_0000_0000 ==> Varint64(s) == Ok(v, rest, Exact)
  {
  }

  /** A varint read does not depend on what follows the bytes it used. */
  lemma {:induction false} VarintFromAppend(s: seq<byte>, n: nat, tail: seq<byte>)
    requires VarintFrom(s, n).Ok?
    ensures var r := VarintFrom(s, n); VarintFrom(s + tail, n) == Ok(r.value, r.rest + tail, Exact)
    decreases n
  {
    assert (s + tail)[1..] == s[1..] + tail;
    assert (s + tail)[0] == s[0];
    if s[0] >= 128 {
      VarintFromAppend(s[1..], n - 1, tail);
    }
  }

  lemma VarintAppend(s: seq<byte>, tail: seq<byte>)
    ensures Varint32(s).Ok? ==> Varint32(s + tail) == Ok(Varint32(s).value, Varint32(s).rest + tail, Exact)
    ensures Varint64(s).Ok? ==> Varint64(s + tail) == Ok(Varint64(s).value, Varint64(s).rest + tail, Exact)
  {
    if Varint32(s).Ok? { VarintFromAppend(s, 5, tail); }
    if Varint64(s).Ok? { VarintFromAppend(s, 10, tail); }
  }

  /** A varint read fails exactly when every byte it may use asks for another one. */
  lemma {:induction false} VarintFailure(s: seq<byte>, n: nat)
    ensures VarintFrom(s, n).Fail? <==> forall k :: 0 <= k < |s| && k < n ==> s[k] >= 128
    decreases n
  {
    if n > 0 && s != [] {
      var t := s[1..];
      VarintFailure(t, n - 1);
      if s[0] >= 128 && VarintFrom(t, n - 1).Fail? {
        forall k | 0 <= k < |s| && k < n ensures s[k] >= 128 {
          if k > 0 { assert t[k - 1] >= 128; }
        }
      } else if s[0] >= 128 {
        var k :| 0 <= k < |t| && k < n - 1 && t[k] < 128;
        assert s[k + 1] < 128;
      }
    }
  }

  // ---------------------------------------------------------------- integers of a given width

  /** The unsigned 64-bit pattern of a C integer. */
  function ToU64(n: int): (u: nat)
    ensures u < 0x1_0000_0000_0000_0000
  {
    n % 0x1_0000_0000_0000_0000
  }

  /** The signed reading of the low `8 * size` bits of `u`, as a C cast to intN_t does. */
  function ToSigned(u: int, size: nat): int
    requires size in {1, 2, 4, 8}
  {
    match size
    case 1 => Centered(u % 0x100, 0x100)
    case 2 => Centered(u % 0x1_0000, 0x1_0000)
    case 4 => Centered(u % 0x1_0000_0000, 0x1_0000_0000)
    case _ => Centered(u % 0x1_0000_0000_0000_0000, 0x1_0000_0000_0000_0000)
  }

  function Centered(low: int, m: nat): int {
    if low < m / 2 then low else low - m
  }

  function ToUnsigned(u: int, size: nat): (r: nat)
    requires size in {1, 2, 4, 8}
  {
    match size
    case 1 => u % 0x100
    case 2 => u % 0x1_0000
    case 4 => u % 0x1_0000_0000
    case _ => u % 0x1_0000_0000_0000_0000
  }

  function Modulus(size: nat): (m: nat)
    requires size in {1, 2, 4, 8}
    ensures m > 0
  {
    match size
    case 1 => 0x100
    case 2 => 0x1_0000
    case 4 => 0x1_0000_0000
    case _ => 0x1_0000_0000_0000_0000
  }

  predicate FitsSigned(n: int, size: nat)
    requires size in {1, 2, 4, 8}
  {
    var m: int := Modulus(size);
    -m <= 2 * n < m
  }

  /** `pb_encode_svarint`: the shift drops the top bit, the complement flips all 64. */
  function ZigZag(n: int): nat {
    if n < 0 then 0x1_0000_0000_0000_0000 - 1 - 2 * ToU64(n) % 0x1_0000_0000_0000_0000 else 2 * ToU64(n) % 0x1_0000_0000_0000_0000
  }

  /** `pb_decode_svarint`. */
  function UnZigZag(u: nat): int {
    if u % 2 == 1 then ToSigned(0x1_0000_0000_0000_0000 - 1 - u / 2, 8) else ToSigned(u / 2, 8)
  }

  lemma ZigZagRoundTrip(n: int)
    requires FitsSigned(n, 8)
    ensures ZigZag(n) < 0x1_0000_0000_0000_0000 && UnZigZag(ZigZag(n)) == n
    ensures ZigZag(n) == if n < 0 then -2 * n - 1 else 2 * n
  {
    if n < 0 {
      assert ToU64(n) == n + 0x1_0000_0000_0000_0000;
      WrapOnce(2 * ToU64(n));
      assert ZigZag(n) == -2 * n - 1;
      assert ZigZag(n) / 2 == -n - 1;
    } else {
      assert ToU64(n) == n;
    }
  }

  lemma WrapOnce(x: nat)
    requires 0x1_0000_0000_0000_0000 <= x < 2 * 0x1_0000_0000_0000_0000
    ensures x % 0x1_0000_0000_0000_0000 == x - 0x1_0000_0000_0000_0000
  {
  }

  /** A cast to a width that holds the value keeps it. */
  lemma SignedIdentity(n: int, size: nat)
    requires size in {1, 2, 4, 8} && FitsSigned(n, size)
    ensures ToSigned(n, size) == n && FitsSigned(n, 8)
  {
  }

  // ---------------------------------------------------------------- fixed width

  function Fixed(v: nat, width: nat): (s: seq<byte>)
    ensures |s| == width
  {
    if width == 0 then [] else [v % 256] + Fixed(v / 256, width - 1)
  }

  function FixedValue(s: seq<byte>): nat {
    if s == [] then 0 else s[0] + 256 * FixedValue(s[1..])
  }

  lemma {:induction false} FixedRoundTrip(v: nat, width: nat)
    requires v < Pow256(width)
    ensures FixedValue(Fixed(v, width)) == v
    decreases width
  {
    if width > 0 {
      assert v / 256 < Pow256(width - 1);
      FixedRoundTrip(v / 256, width - 1);
      assert Fixed(v, width)[1..] == Fixed(v / 256, width - 1);
    }
  }

  lemma Pow256Values(width: nat)
    requires width in {4, 8}
    ensures Pow256(width) == if width == 4 then 0x1_0000_0000 else 0x1_0000_0000_0000_0000
  {
    assert Pow256(width) == 256 * (256 * Pow256(width - 2)) == 0x1_0000 * (256 * (256 * Pow256(width - 4)));
    if width == 8 {
      assert Pow256(width - 4) == 256 * (256 * Pow256(width - 6)) == 0x1_0000 * (256 * (256 * Pow256(width - 8)));
    }
  }

  function ReadFixed(s: seq<byte>, width: nat): (r: Parsed<nat>)
    ensures r.Ok? ==> |r.rest| + width == |s|
  {
    if |s| < width then Fail else Ok(FixedValue(s[..width]), s[width..], Exact)
  }

  lemma FixedReadBack(v: nat, width: nat)
    requires v < Pow256(width)
    ensures ReadFixed(Fixed(v, width), width) == Ok(v, [], Exact)
  {
    var s := Fixed(v, width);
    FixedRoundTrip(v, width);
    assert s[..width] == s && s[width..] == [];
  }

  // ---------------------------------------------------------------- keys

  const WT_VARINT: nat := 0
  const WT_64BIT: nat := 1
  const WT_STRING: nat := 2
  const WT_32BIT: nat := 5

  function Key(wt: nat, tag: nat): seq<byte> {
    VarintBytes(tag * 8 + wt)
  }

  /** What `pb_decode_tag` found: a key; the end of the message, either because the input ran
      out inside the key or because the key is the zero terminator; or a malformed key. */
  datatype TagResult = Tag(tag: nat, wt: nat, rest: seq<byte>) | EndOfMessage(rest: seq<byte>) | BadTag

  function ReadTag(s: seq<byte>): (r: TagResult)
    ensures r.Tag? ==> |r.rest| < |s|
  {
    match Varint32(s)
    case Fail => if |s| <= 5 then EndOfMessage([]) else BadTag
    case Ok(key, rest, _) => if key == 0 then EndOfMessage(rest) else Tag(key / 8, key % 8, rest)
  }

  lemma KeyRoundTrip(wt: nat, tag: nat, tail: seq<byte>)
    requires wt < 8 && 0 < tag < 0x2000_0000
    ensures ReadTag(Key(wt, tag) + tail) == Tag(tag, wt, tail)
  {
    VarintRoundTrip32(tag * 8 + wt, tail);
  }

  // ---------------------------------------------------------------- skipping

  function SkipVarint(s: seq<byte>): (r: Parsed<()>)
    ensures r.Ok? ==> r.lag.Exact? && |r.rest| < |s|
    decreases |s|
  {
    if s == [] then Fail
    else if s[0] < 128 then Ok((), s[1..], Exact)
    else SkipVarint(s[1..])
  }

  function SkipBytes(s: seq<byte>, n: nat): (r: Parsed<()>)
    ensures r.Ok? ==> r.lag.Exact? && |r.rest| <= |s|
  {
    if |s| < n then Fail else Ok((), s[n..], Exact)
  }

  function SkipString(s: seq<byte>): (r: Parsed<()>)
    ensures r.Ok? ==> r.lag.Exact? && |r.rest| < |s|
  {
    match Varint32(s)
    case Fail => Fail
    case Ok(length, rest, _) => SkipBytes(rest, length)
  }

  /** `pb_skip_field`. */
  function SkipField(wt: nat, s: seq<byte>): (r: Parsed<()>)
    ensures r.Ok? ==> r.lag.Exact? && |r.rest| <= |s|
  {
    if wt == WT_VARINT then SkipVarint(s)
    else if wt == WT_64BIT then SkipBytes(s, 8)
    else if wt == WT_STRING then SkipString(s)
    else if wt == WT_32BIT then SkipBytes(s, 4)
    else Fail
  }

  lemma {:induction false} SkipVarintAppend(s: seq<byte>, tail: seq<byte>)
    requires SkipVarint(s).Ok?
    ensures SkipVarint(s + tail) == Ok((), SkipVarint(s).rest + tail, Exact)
    decreases |s|
  {
    assert (s + tail)[1..] == s[1..] + tail && (s + tail)[0] == s[0];
    if s[0] >= 128 {
      SkipVarintAppend(s[1..], tail);
    }
  }

  lemma SkipBytesAppend(s: seq<byte>, n: nat, tail: seq<byte>)
    requires n <= |s|
    ensures SkipBytes(s + tail, n) == Ok((), s[n..] + tail, Exact)
  {
    assert (s + tail)[n..] == s[n..] + tail;
  }

  lemma SkipAppend(wt: nat, s: seq<byte>, tail: seq<byte>)
    requires SkipField(wt, s).Ok?
    ensures SkipField(wt, s + tail) == Ok((), SkipField(wt, s).rest + tail, Exact)
  {
    if wt == WT_VARINT {
      SkipVarintAppend(s, tail);
    } else if wt == WT_STRING {
      VarintAppend(s, tail);
      SkipBytesAppend(Varint32(s).rest, Varint32(s).value, tail);
    } else {
      SkipBytesAppend(s, if wt == WT_64BIT then 8 else 4, tail);
    }
  }
}
