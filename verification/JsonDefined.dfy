/** Texts that the parsers of cJSON.c handle within what C defines, whatever else is in them. */
module JsonDefined {
  import opened JsonParse
  import opened JsonStrings

  // ---------------------------------------------------------------- tame texts

  /** Every backslash is followed by a character, and every `\u` by four hexadecimal digits. */
  predicate FullEscapes(s: string) {
    forall i :: 0 <= i < |s| && s[i] == '\\' ==> i + 1 < |s| && (s[i + 1] == 'u' ==> FourDigits(s[i + 2..]))
  }

  /** How many digits come first. */
  function Run(s: string): nat {
    if Digit(First(s)) then 1 + Run(s[1..]) else 0
  }

  /** No more than nine digits in a row. */
  predicate ShortNumbers(s: string) {
    forall i :: 0 <= i <= |s| ==> Run(s[i..]) <= 9
  }

  predicate Tame(s: string) {
    FullEscapes(s) && ShortNumbers(s)
  }

  lemma FullEscapesTail(s: string, k: nat)
    requires FullEscapes(s) && k <= |s|
    ensures FullEscapes(s[k..])
  {
    var t := s[k..];
    forall i | 0 <= i < |t| && t[i] == '\\' ensures i + 1 < |t| && (t[i + 1] == 'u' ==> FourDigits(t[i + 2..])) {
      assert s[k + i] == '\\' && t[i + 1] == s[k + i + 1] && t[i + 1..][1..] == s[k + i + 1..][1..];
      assert t[i + 2..] == s[k + i + 2..];
    }
  }

  lemma TameTail(s: string, k: nat)
    requires Tame(s) && k <= |s|
    ensures Tame(s[k..])
  {
    FullEscapesTail(s, k);
    forall i | 0 <= i <= |s[k..]| ensures Run(s[k..][i..]) <= 9 {
      DropTwice(s, k, i);
      assert Run(s[k + i..]) <= 9;
    }
  }

  // ---------------------------------------------------------------- numbers

  function Pow10(k: nat): nat {
    if k == 0 then 1 else 10 * Pow10(k - 1)
  }

  lemma {:induction false} Pow10Small(k: nat)
    requires k <= 9
    ensures Pow10(k) <= Pow10(9) == 1_000_000_000
    decreases 9 - k
  {
    assert Pow10(0) == 1 && Pow10(3) == 1_000 && Pow10(6) == 1_000_000;
    if k < 9 {
      Pow10Small(k + 1);
    }
  }

  lemma {:induction false} DigitsDefined(acc: nat, s: string, k: nat)
    requires acc < Pow10(k) && Run(s) + k <= 9 && Tame(s)
    ensures Digits(acc, s).Parsed? && Tame(Digits(acc, s).rest)
    decreases |s|
  {
    if Digit(First(s)) {
      Pow10Small(k + 1);
      TameTail(s, 1);
      hide Tame;
      DigitsDefined(acc * 10 + DigitValue(s[0]), s[1..], k + 1);
    }
  }

  lemma NumberDefined(s: string)
    requires Tame(s)
    ensures ParseNumber(s).Parsed? && Tame(ParseNumber(s).rest)
  {
    var t := if First(s) == '-' then s[1..] else s;
    var u := if First(t) == '0' then t[1..] else t;
    if First(s) == '-' {
      TameTail(s, 1);
    }
    if First(t) == '0' {
      TameTail(t, 1);
    }
    assert u[0..] == u && Run(u) <= 9;
    hide Tame, Digits, Run;
    DigitsDefined(0, u, 0);
  }

  // ---------------------------------------------------------------- strings

  lemma {:induction false} CountDefined(t: string)
    requires FullEscapes(t)
    ensures Count(t).Parsed?
    decreases |t|
  {
    if t != [] && t[0] != '"' {
      var k := if t[0] == '\\' then 2 else 1;
      assert k <= |t|;
      FullEscapesTail(t, k);
      CountDefined(t[k..]);
      hide FullEscapes;
    }
  }

  /** The body that the first loop goes through has complete escapes. */
  lemma {:induction false} BodyProper(body: string, n: nat, more: string)
    requires Through(body, n) && Closed(more) && FullEscapes(body + more)
    ensures Proper(body)
    decreases |body|
  {
    if body != [] {
      if body[0] == '\\' && body[1] == 'u' {
        assert (body + more)[0] == '\\' && (body + more)[1] == 'u';
        UProper(body, n, more);
        FullEscapesTail(body + more, 6);
        BodyProper(body[6..], n - 5, more);
      } else {
        var k := if body[0] == '\\' then 2 else 1;
        FullEscapesTail(body + more, k);
        JoinedSlices(body, more, k);
        BodyProper(body[k..], n - 1, more);
      }
      hide FullEscapes;
    }
  }

  lemma UProper(body: string, n: nat, more: string)
    requires Through(body, n) && Closed(more) && |body| >= 2 && body[0] == '\\' && body[1] == 'u'
    requires FourDigits((body + more)[2..])
    ensures |body| >= 6 && FourDigits(body[2..]) && n >= 5 && Through(body[6..], n - 5)
    ensures (body + more)[6..] == body[6..] + more
  {
    JoinedSlices(body, more, 2);
    var t := body[2..];
    FourLocal(t, more);
    assert Through(t, n - 1);
    hide Count;
    GlideDigits(t, n - 1);
    DropTwice(body, 2, 4);
    JoinedSlices(body, more, 6);
  }

  lemma QuoteIsNoDigit(t: string, more: string)
    requires |t| < 4 && Closed(more)
    ensures !FourDigits(t + more)
  {
    if more != [] {
      assert (t + more)[|t|] == '"';
    }
  }

  lemma FourLocal(t: string, more: string)
    requires FourDigits(t + more) && Closed(more)
    ensures FourDigits(t)
  {
    if |t| < 4 {
      QuoteIsNoDigit(t, more);
    }
  }

  lemma {:induction false} UnquoteRest(t: string)
    requires Tame(t) && Unquote(t).Parsed?
    ensures Tame(Unquote(t).rest)
    decreases |t|
  {
    if t != [] {
      if t[0] == '"' {
        TameTail(t, 1);
      } else {
        hide Tame, Piece;
        PieceStrides(t);
        TameTail(t, Stride(t));
        UnquoteTurn(t);
        UnquoteRest(Piece(t).rest);
      }
    }
  }

  lemma StringDefined(s: string)
    requires Tame(s)
    ensures !ParseString(s).Undefined?
    ensures ParseString(s).Parsed? ==> Tame(ParseString(s).rest)
  {
    if First(s) == '"' {
      var t := s[1..];
      TameTail(s, 1);
      CountDefined(t);
      hide Tame, FullEscapes, Count, Unquote, Closed, Through;
      var body := CountSplit(t);
      BodyProper(body, Count(t).value, Count(t).rest);
      ProperStays(body);
      StringStays(body, Count(t).value, Count(t).rest);
      assert s == ['"'] + t;
      UnquoteRest(t);
    }
  }

  // ---------------------------------------------------------------- values

  lemma {:induction false} SkipTame(s: string)
    requires Tame(s)
    ensures Tame(Skip(s))
    decreases |s|
  {
    if s != [] && s[0] as int <= 32 {
      TameTail(s, 1);
      SkipTame(s[1..]);
    }
  }

  /** A tame text is parsed or rejected, and a tame rest is left. */
  predicate Defined<T>(o: Outcome<T>) {
    !o.Undefined? && (o.Parsed? ==> Tame(o.rest))
  }

  lemma {:induction false} ValueDefined(s: string)
    requires Tame(s)
    ensures Defined(ParseValue(s))
    decreases |s|, 0
  {
    hide Tame, ParseList, ParseMembers, ParseNumber, ParseString, Skip;
    if s != [] {
      TameTail(s, 1);
      var t := Skip(s[1..]);
      SkipTame(s[1..]);
      ListDefined(t);
      MembersDefined(t);
      NumberDefined(s);
      StringDefined(s);
      if t != [] {
        TameTail(t, 1);
      }
      if |s| >= 4 {
        TameTail(s, 4);
      }
      if |s| >= 5 {
        TameTail(s, 5);
      }
    }
  }

  lemma {:induction false} ListDefined(s: string)
    requires Tame(s)
    ensures Defined(ParseList(s))
    decreases |s|, 1
  {
    SkipTame(s);
    ValueDefined(Skip(s));
    var p := ParseValue(Skip(s));
    if p.Parsed? {
      SkipTame(p.rest);
      var t := Skip(p.rest);
      if t != [] {
        TameTail(t, 1);
        ListDefined(t[1..]);
      }
    }
    hide Tame, ParseValue, Skip;
  }

  lemma {:induction false} MembersDefined(s: string)
    requires Tame(s)
    ensures Defined(ParseMembers(s))
    decreases |s|, 1
  {
    SkipTame(s);
    StringDefined(Skip(s));
    var name := ParseString(Skip(s));
    if name.Parsed? {
      SkipTame(name.rest);
      var t := Skip(name.rest);
      if t != [] {
        TameTail(t, 1);
        SkipTame(t[1..]);
        ValueDefined(Skip(t[1..]));
        var p := ParseValue(Skip(t[1..]));
        if p.Parsed? {
          SkipTame(p.rest);
          var u := Skip(p.rest);
          if u != [] {
            TameTail(u, 1);
            MembersDefined(u[1..]);
          }
        }
      }
    }
    hide Tame, ParseString, ParseValue, Skip;
  }

  /** No text with complete escapes and numbers of at most nine digits takes the parsers out of
      what C defines. */
  lemma TameDefined(s: string, requireEnd: bool)
    requires Tame(s)
    ensures !Parse(s, requireEnd).Undefined?
  {
    SkipTame(s);
    ValueDefined(Skip(s));
    hide Tame, ParseValue, Skip;
  }
}
