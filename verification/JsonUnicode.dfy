/** What the `\u` escapes of a JSON string stand for: hexadecimal numbers, UTF-16 pairs and UTF-8
    octets, each read by its own standard (RFC 3629, section 3; RFC 8259, section 7). */
module JsonUnicode {
  import opened Common
  import opened JsonParse

  // ---------------------------------------------------------------- UTF-8

  predicate Continues(c: char) {
    0x80 <= c as int < 0xC0
  }

  /** The code point at the front of a string of octets: the first octet says how many follow, each of
      those carries six bits, and no code point has a longer form than it needs. */
  function ReadUtf8(s: string): Option<(nat, string)> {
    if s == [] then None
    else if s[0] as int < 0x80 then Some((s[0] as int, s[1..]))
    else if 0xC0 <= s[0] as int < 0xE0 && |s| >= 2 && Continues(s[1]) then
      Shortest((s[0] as int - 0xC0) * 64 + (s[1] as int - 0x80), 0x80, s[2..])
    else if 0xE0 <= s[0] as int < 0xF0 && |s| >= 3 && Continues(s[1]) && Continues(s[2]) then
      Shortest(((s[0] as int - 0xE0) * 64 + (s[1] as int - 0x80)) * 64 + (s[2] as int - 0x80), 0x800, s[3..])
    else if 0xF0 <= s[0] as int < 0xF8 && |s| >= 4 && Continues(s[1]) && Continues(s[2]) && Continues(s[3]) then
      Shortest((((s[0] as int - 0xF0) * 64 + (s[1] as int - 0x80)) * 64 + (s[2] as int - 0x80)) * 64
               + (s[3] as int - 0x80), 0x1_0000, s[4..])
    else None
  }

  function Shortest(uc: nat, least: nat, rest: string): Option<(nat, string)> {
    if least <= uc < 0x11_0000 && !Surrogate(uc) then Some((uc, rest)) else None
  }

  predicate Surrogate(uc: nat) {
    0xD800 <= uc < 0xE000
  }

  lemma SixBits(uc: nat)
    ensures uc / 64 * 64 + uc % 64 == uc && uc % 64 < 64
  {
  }

  lemma Quotients(uc: nat)
    ensures uc / 4096 == uc / 64 / 64 && uc / 0x4_0000 == uc / 64 / 64 / 64
  {
  }

  lemma ReadTwo(s: string, p: nat, q: nat)
    requires |s| >= 2 && s[0] as int == 0xC0 + p && s[1] as int == 0x80 + q && p < 32 && q < 64
    ensures ReadUtf8(s) == Shortest(p * 64 + q, 0x80, s[2..])
  {
  }

  lemma ReadThree(s: string, p: nat, q: nat, r: nat)
    requires |s| >= 3 && s[0] as int == 0xE0 + p && s[1] as int == 0x80 + q && s[2] as int == 0x80 + r
    requires p < 16 && q < 64 && r < 64
    ensures ReadUtf8(s) == Shortest((p * 64 + q) * 64 + r, 0x800, s[3..])
  {
  }

  lemma ReadFour(s: string, p: nat, q: nat, r: nat, t: nat)
    requires |s| >= 4 && s[0] as int == 0xF0 + p && s[1] as int == 0x80 + q && s[2] as int == 0x80 + r
    requires s[3] as int == 0x80 + t && p < 8 && q < 64 && r < 64 && t < 64
    ensures ReadUtf8(s) == Shortest(((p * 64 + q) * 64 + r) * 64 + t, 0x1_0000, s[4..])
  {
  }

  /** Reading gives the code point back, and nothing is left of its octets. */
  lemma Utf8Back(uc: nat, k: string)
    requires 0 < uc < 0x11_0000 && !Surrogate(uc)
    ensures ReadUtf8(Utf8(uc) + k) == Some((uc, k))
  {
    var s := Utf8(uc) + k;
    assert s[|Utf8(uc)|..] == k && forall i :: 0 <= i < |Utf8(uc)| ==> s[i] == Utf8(uc)[i];
    SixBits(uc);
    SixBits(uc / 64);
    SixBits(uc / 64 / 64);
    Quotients(uc);
    if uc >= 0x80 {
      hide ReadUtf8;
      if uc < 0x800 {
        ReadTwo(s, uc / 64, uc % 64);
      } else if uc < 0x1_0000 {
        ReadThree(s, uc / 64 / 64, uc / 64 % 64, uc % 64);
      } else {
        ReadFour(s, uc / 64 / 64 / 64, uc / 64 / 64 % 64, uc / 64 % 64, uc % 64);
      }
    }
  }

  // ---------------------------------------------------------------- hexadecimal numbers

  /** A digit below 16 in either case. */
  function DigitOf(d: nat, upper: bool): char
    requires d < 16
  {
    if upper then "0123456789ABCDEF"[d] else "0123456789abcdef"[d]
  }

  /** The four digits of a 16-bit number, each in either case. */
  function FourOf(n: nat, upper: seq<bool>): (s: string)
    requires n < 0x1_0000 && |upper| == 4
    ensures |s| == 4
  {
    [DigitOf(n / 4096, upper[0]), DigitOf(n / 256 % 16, upper[1]), DigitOf(n / 16 % 16, upper[2]), DigitOf(n % 16, upper[3])]
  }

  lemma DigitBack(d: nat, upper: bool)
    requires d < 16
    ensures HexDigit(DigitOf(d, upper)) && HexValue(DigitOf(d, upper)) == d
  {
  }

  lemma FourBits(n: nat)
    ensures 16 * (n / 16) + n % 16 == n
  {
  }

  lemma Nibbles(n: nat)
    requires n < 0x1_0000
    ensures 4096 * (n / 4096) + 256 * (n / 256 % 16) + 16 * (n / 16 % 16) + n % 16 == n
  {
    FourBits(n);
    FourBits(n / 16);
    FourBits(n / 256);
    assert n / 16 / 16 == n / 256 && n / 256 / 16 == n / 4096;
  }

  /** `parse_hex4` reads every 16-bit number from its digits. */
  lemma Hex4Back(n: nat, upper: seq<bool>, k: string)
    requires n < 0x1_0000 && |upper| == 4
    ensures Hex4(FourOf(n, upper) + k) == n
  {
    var s := FourOf(n, upper) + k;
    DigitBack(n / 4096, upper[0]);
    DigitBack(n / 256 % 16, upper[1]);
    DigitBack(n / 16 % 16, upper[2]);
    DigitBack(n % 16, upper[3]);
    Nibbles(n);
    hide HexDigit, HexValue, DigitOf;
  }

  // ---------------------------------------------------------------- escapes

  /** One escape stands for its code point, unless that is 0 or half of a pair. */
  lemma EscapeIs(uc: nat, upper: seq<bool>, k: string)
    requires 0 < uc < 0x1_0000 && !Surrogate(uc) && |upper| == 4
    ensures ParseU(['u'] + (FourOf(uc, upper) + k)) == Parsed(Utf8(uc), k)
  {
    var t := FourOf(uc, upper) + k;
    var s := ['u'] + t;
    assert s[1..] == t && s[5..] == k;
    Hex4Back(uc, upper, k);
    hide Hex4, FourOf, Utf8;
  }

  /** A code point above 16 bits as a UTF-16 pair: its upper and lower ten bits above 0x10000. */
  function HighHalf(uc: nat): nat
    requires 0x1_0000 <= uc < 0x11_0000
  {
    0xD800 + (uc - 0x1_0000) / 1024
  }

  function LowHalf(uc: nat): nat
    requires 0x1_0000 <= uc < 0x11_0000
  {
    0xDC00 + (uc - 0x1_0000) % 1024
  }

  lemma AfterFour(head: string, four: string, k: string)
    requires |four| == 4
    ensures var s := head + (four + k);
      |s| >= |head| + 4 && s[..|head|] == head && s[|head|..] == four + k && s[|head| + 4..] == k
  {
  }

  /** Two escapes that are the halves of a pair stand for its code point. */
  lemma PairIs(uc: nat, upper: seq<bool>, upper': seq<bool>, k: string)
    requires 0x1_0000 <= uc < 0x11_0000 && |upper| == |upper'| == 4
    ensures ParseU(['u'] + (FourOf(HighHalf(uc), upper) + (['\\', 'u'] + (FourOf(LowHalf(uc), upper') + k))))
         == Parsed(Utf8(uc), k)
  {
    hide *;
    HalvesMeet(uc);
    var low := FourOf(LowHalf(uc), upper') + k;
    var t := ['\\', 'u'] + low;
    var s := ['u'] + (FourOf(HighHalf(uc), upper) + t);
    AfterFour(['u'], FourOf(HighHalf(uc), upper), t);
    AfterFour(['\\', 'u'], FourOf(LowHalf(uc), upper'), k);
    Hex4Back(HighHalf(uc), upper, t);
    Hex4Back(LowHalf(uc), upper', k);
    PairParsed(s, t, HighHalf(uc), LowHalf(uc));
  }

  lemma HalvesMeet(uc: nat)
    requires 0x1_0000 <= uc < 0x11_0000
    ensures 0xD800 <= HighHalf(uc) < 0xDC00 && 0xDC00 <= LowHalf(uc) < 0xE000
    ensures 0x1_0000 + (HighHalf(uc) - 0xD800) * 1024 + (LowHalf(uc) - 0xDC00) == uc
  {
  }

  lemma PairParsed(s: string, t: string, high: nat, low: nat)
    requires |s| >= 5 && s[5..] == t && Hex4(s[1..]) == high && 0xD800 <= high < 0xDC00
    requires |t| >= 6 && t[..2] == ['\\', 'u'] && Hex4(t[2..]) == low && 0xDC00 <= low < 0xE000
    ensures ParseU(s) == Parsed(Utf8(0x1_0000 + (high - 0xD800) * 1024 + (low - 0xDC00)), t[6..])
  {
    hide Hex4, Utf8;
  }

  /** The code points that no escape gives: 0, and halves without their other half. */
  lemma NothingIs(uc: nat, upper: seq<bool>, k: string)
    requires uc < 0x1_0000 && |upper| == 4
    requires uc == 0 || 0xDC00 <= uc < 0xE000 || (0xD800 <= uc < 0xDC00 && !Starts(k, ['\\', 'u']))
    ensures ParseU(['u'] + (FourOf(uc, upper) + k)) == Parsed([], k)
  {
    var t := FourOf(uc, upper) + k;
    var s := ['u'] + t;
    assert s[1..] == t && s[5..] == k;
    Hex4Back(uc, upper, k);
    hide Hex4, FourOf, Utf8;
  }

  /** A first half before an escape that is no second half takes that with it. */
  lemma BrokenPairIs(high: nat, other: nat, upper: seq<bool>, upper': seq<bool>, k: string)
    requires 0xD800 <= high < 0xDC00 && other < 0x1_0000 && !(0xDC00 <= other < 0xE000)
    requires |upper| == |upper'| == 4
    ensures ParseU(['u'] + (FourOf(high, upper) + (['\\', 'u'] + (FourOf(other, upper') + k)))) == Parsed([], k)
  {
    var second := FourOf(other, upper') + k;
    var t := ['\\', 'u'] + second;
    var s := ['u'] + (FourOf(high, upper) + t);
    assert s[1..] == FourOf(high, upper) + t && s[5..] == t;
    assert t[..2] == ['\\', 'u'] && t[2..] == second && t[6..] == k;
    Hex4Back(high, upper, t);
    Hex4Back(other, upper', k);
    hide Hex4, FourOf, Utf8;
  }
}
