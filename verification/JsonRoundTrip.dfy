/** Parsing printed text. */
module JsonRoundTrip {
  import opened Common
  import opened JsonParse
  import opened JsonText

  // ---------------------------------------------------------------- numbers

  /** A rest that does not go on with digits. */
  predicate NoDigit(k: string) {
    !Digit(First(k))
  }

  lemma DigitsStep(acc: nat, d: nat, k: string)
    requires d < 10
    ensures Digits(acc, [DigitChar(d)] + k)
         == if acc * 10 + d > 0x7fff_ffff then Undefined else Digits(acc * 10 + d, k)
    ensures Digit(DigitChar(d)) && (DigitChar(d) == '0' <==> d == 0)
  {
    assert ([DigitChar(d)] + k)[1..] == k;
  }

  /** The digits of `n` are read back when an int can hold them. */
  lemma {:induction false} DigitsOfDecimal(n: nat, k: string)
    ensures Digits(0, Decimal(n, k)) == if n > 0x7fff_ffff then Undefined else Digits(n, k)
  {
    if n < 10 {
      DigitsStep(0, n, k);
    } else {
      DigitsOfDecimal(n / 10, [DigitChar(n % 10)] + k);
      DigitsStep(n / 10, n % 10, k);
    }
  }

  lemma {:induction false} DecimalStarts(n: nat, k: string)
    ensures Decimal(n, k) != [] && Digit(Decimal(n, k)[0]) && (Decimal(n, k)[0] == '0' <==> n == 0)
  {
    if n < 10 {
      DigitsStep(0, n, k);
    } else {
      DecimalStarts(n / 10, [DigitChar(n % 10)] + k);
    }
  }

  predicate InRange(n: int) {
    -0x7fff_ffff <= n <= 0x7fff_ffff
  }

  /** A number comes back as its integer, with the double left at zero, exactly when its digits
      stay in the range of int. */
  lemma NumberBack(n: int, d: int, k: string)
    requires NoDigit(k) && (d == 0 <==> n == 0)
    ensures ParseNumber(NumberText(n, d, k)) == if InRange(n) then Parsed(Number(n, 0), k) else Undefined
  {
    var s := NumberText(n, d, k);
    if d == 0 {
      assert s[1..] == k;
    } else if n < 0 {
      assert s[1..] == Decimal(-n, k);
      DecimalStarts(-n, k);
      DigitsOfDecimal(-n, k);
    } else {
      DecimalStarts(n, k);
      DigitsOfDecimal(n, k);
    }
  }

  // ---------------------------------------------------------------- strings

  lemma HexBack(d: nat)
    requires d < 16
    ensures HexDigit(HexChar(d)) && HexValue(HexChar(d)) == d
  {
  }

  /** An escaped control character. */
  lemma ControlBack(c: char, k: string)
    requires 0 < c as int < 32
    ensures ParseU(['u', '0', '0', HexChar(c as int / 16), HexChar(c as int % 16)] + k) == Parsed([c], k)
  {
    var s := ['u', '0', '0', HexChar(c as int / 16), HexChar(c as int % 16)] + k;
    HexBack(c as int / 16);
    HexBack(c as int % 16);
    assert s[1..][0] == '0' && s[1..][1] == '0' && s[1..][2] == HexChar(c as int / 16) && s[1..][3] == HexChar(c as int % 16);
    assert s[5..] == k;
  }

  lemma EscapeBack(c: char, k: string)
    requires c as int > 0
    ensures !Plain(c) ==> Escape(c)[0] == '\\' && Unescape((Escape(c) + k)[1..]) == Parsed([c], k)
    ensures (Escape(c) + k)[0] != '"' && (Plain(c) ==> Escape(c) + k == [c] + k && c != '\\')
  {
    var s := (Escape(c) + k)[1..];
    if !Plain(c) {
      if |Escape(c)| == 2 {
        assert s == [Escape(c)[1]] + k;
        assert s[1..] == k;
      } else {
        ControlBack(c, k);
        assert s == ['u', '0', '0', HexChar(c as int / 16), HexChar(c as int % 16)] + k;
      }
    }
  }

  /** The first loop counts at least one for each character that was escaped. */
  lemma EscapeCounts(c: char, k: string)
    requires c as int > 0 && Count(k).Parsed?
    ensures Count(Escape(c) + k).Parsed? && Count(Escape(c) + k).value > Count(k).value
  {
    var t := Escape(c) + k;
    if |Escape(c)| == 1 {
      assert t[1..] == k;
    } else if |Escape(c)| == 2 {
      assert t[2..] == k;
    } else {
      HexBack(c as int / 16);
      HexBack(c as int % 16);
      assert t[2..] == ['0', '0', HexChar(c as int / 16), HexChar(c as int % 16)] + k;
      CountPlain(t[2..], 4);
      assert t[2..][4..] == k;
    }
  }

  lemma {:induction false} CountPlain(t: string, n: nat)
    requires n <= |t| && forall i :: 0 <= i < n ==> t[i] != '"' && t[i] != '\\'
    ensures Count(t[n..]).Parsed? ==> Count(t).Parsed? && Count(t).value == n + Count(t[n..]).value
  {
    if n > 0 {
      CountPlain(t[1..], n - 1);
      assert t[1..][n - 1..] == t[n..];
    } else {
      assert t[0..] == t;
    }
  }

  /** Every string without a NUL is read back, whatever it holds. */
  lemma {:induction false} EscapedBack(s: string, k: string)
    requires Bytes(s)
    ensures Unquote(Escaped(s, ['"'] + k)) == Parsed(s, k)
    ensures Count(Escaped(s, ['"'] + k)).Parsed? && Count(Escaped(s, ['"'] + k)).value >= |s|
  {
    var t := Escaped(s, ['"'] + k);
    if s == [] {
      assert t[1..] == k;
    } else {
      var rest := Escaped(s[1..], ['"'] + k);
      EscapedBack(s[1..], k);
      EscapeCounts(s[0], rest);
      EscapeBack(s[0], rest);
      if Plain(s[0]) {
        assert t[1..] == rest;
      }
      assert [s[0]] + s[1..] == s;
      hide Count, Escaped, Escape, Unescape;
    }
  }

  lemma QuotedBack(s: string, k: string)
    requires Bytes(s)
    ensures ParseString(Quoted(s, k)) == Parsed(s, k) && Quoted(s, k)[0] == '"'
  {
    EscapedBack(s, k);
    assert Quoted(s, k)[1..] == Escaped(s, ['"'] + k);
    hide Count, Escaped, Unquote;
  }

  // ---------------------------------------------------------------- white space

  lemma {:induction false} SkipTabs(n: int, k: string)
    ensures Skip(Tabs(n, k)) == Skip(k)
    decreases n
  {
    if n > 0 {
      SkipTabs(n - 1, k);
      assert Tabs(n, k)[1..] == Tabs(n - 1, k);
    }
  }

  lemma SkipWhen(fmt: bool, c: char, k: string)
    requires c as int <= 32
    ensures Skip(When(fmt, [c], k)) == Skip(k)
  {
    if fmt {
      assert ([c] + k)[1..] == k;
    }
  }

  /** No text of a value starts with white space, a bracket or a brace that closes. */
  lemma TextStarts(v: Json, depth: nat, fmt: bool, k: string)
    ensures var t := Text(v, depth, fmt, k); t != [] && t[0] as int > 32 && t[0] != ']' && t[0] != '}'
    ensures Skip(Text(v, depth, fmt, k)) == Text(v, depth, fmt, k)
  {
    if v.Number? && v.valuedouble != 0 && v.valueint >= 0 {
      DecimalStarts(v.valueint, k);
    }
  }

  // ---------------------------------------------------------------- values

  /** A value as it is parsed back: numbers keep their integer and lose their double. */
  function Reread(v: Json): Json {
    match v
    case Number(n, _) => Number(n, 0)
    case Array(l) => Array(RereadList(l))
    case Object(m) => Object(RereadMembers(m))
    case _ => v
  }

  function RereadList(l: List): List {
    if l.Nil? then Nil else Cons(Reread(l.item), RereadList(l.next))
  }

  function RereadMembers(m: Members): Members {
    if m.NoMembers? then NoMembers else Member(m.name, Reread(m.item), RereadMembers(m.next))
  }

  /** The words and the other starts of a value do not run into each other. */
  lemma NotAWord(s: string)
    requires s != [] && s[0] != 'n' && s[0] != 'f' && s[0] != 't'
    ensures !Starts(s, "null") && !Starts(s, "false") && !Starts(s, "true")
  {
  }

  lemma WordBack(k: string)
    ensures ParseValue("null" + k) == Parsed(Null, k)
    ensures ParseValue("false" + k) == Parsed(False, k)
    ensures ParseValue("true" + k) == Parsed(True, k)
  {
    assert ("null" + k)[..4] == "null" && ("null" + k)[4..] == k;
    assert ("false" + k)[..5] == "false" && ("false" + k)[5..] == k;
    assert ("true" + k)[..4] == "true" && ("true" + k)[4..] == k;
    assert ("false" + k)[0] != 'n' && ("true" + k)[0] != 'n' && ("true" + k)[0] != 'f';
  }

  lemma NumberValueBack(n: int, d: int, k: string)
    requires NoDigit(k) && (d == 0 <==> n == 0) && InRange(n)
    ensures ParseValue(NumberText(n, d, k)) == Parsed(Number(n, 0), k)
  {
    var s := NumberText(n, d, k);
    NumberBack(n, d, k);
    if d != 0 && n >= 0 {
      DecimalStarts(n, k);
    }
    assert s != [] && (s[0] == '-' || Digit(s[0]));
    hide NumberText, ParseNumber;
    NotAWord(s);
  }

  lemma StringValueBack(t: string, k: string)
    requires Bytes(t)
    ensures ParseValue(Quoted(t, k)) == Parsed(Str(t), k)
  {
    QuotedBack(t, k);
    hide Quoted, ParseString;
    NotAWord(Quoted(t, k));
  }

  /** A list without elements, or with some. */
  lemma ArrayValueBack(inside: string, l: List, k: string)
    requires if l.Nil? then inside == [']'] + k
             else inside != [] && inside[0] as int > 32 && inside[0] != ']' && ParseList(inside) == Parsed(l, k)
    ensures ParseValue(['['] + inside) == Parsed(Array(l), k)
  {
    var s := ['['] + inside;
    assert s[1..] == inside;
    NotAWord(s);
    assert Skip(inside) == inside;
    if l.Nil? {
      assert inside[1..] == k;
    }
    hide ParseList;
  }

  lemma ObjectValueBack(inside: string, m: Members, k: string)
    requires if m.NoMembers? then Skip(inside) == ['}'] + k
             else Skip(inside) != [] && Skip(inside)[0] != '}' && ParseMembers(Skip(inside)) == Parsed(m, k)
    ensures ParseValue(['{'] + inside) == Parsed(Object(m), k)
  {
    var s := ['{'] + inside;
    hide ParseMembers, Skip, Starts;
    assert s[1..] == inside;
    NotAWord(s);
    if m.NoMembers? {
      assert (['}'] + k)[1..] == k;
    }
  }

  lemma Front(c: char, k: string)
    requires c as int > 32
    ensures Skip([c] + k) == [c] + k && First([c] + k) == c && ([c] + k)[1..] == k
  {
  }

  /** An element and what follows it. */
  lemma ElementBack(s: string, v: Json, after: string, rest: Option<(List, string)>, k: string)
    requires Skip(s) == s && ParseValue(s) == Parsed(v, after)
    requires match rest
             case None => after == [']'] + k
             case Some(q) => after != [] && after[0] == ',' && q.1 == k && ParseList(after[1..]) == Parsed(q.0, k)
    ensures ParseList(s) == Parsed(Cons(v, if rest.None? then Nil else rest.value.0), k)
  {
    if rest.None? {
      Front(']', k);
    } else {
      assert Skip(after) == after;
    }
    hide ParseValue, Skip;
  }

  lemma ListSkips(s: string)
    ensures ParseList(Skip(s)) == ParseList(s)
  {
    SkipTwice(s);
    hide Skip, ParseValue;
  }

  lemma MembersSkip(s: string)
    ensures ParseMembers(Skip(s)) == ParseMembers(s)
  {
    SkipTwice(s);
    hide Skip, ParseValue, ParseString;
  }

  lemma SkipTwice(s: string)
    ensures Skip(Skip(s)) == Skip(s)
  {
  }

  /** A member and what follows it. */
  lemma MemberBack(s: string, name: string, colon: string, v: Json, after: string, rest: Option<(Members, string)>, k: string)
    requires ParseString(Skip(s)) == Parsed(name, [':'] + colon)
    requires ParseValue(Skip(colon)) == Parsed(v, after)
    requires match rest
             case None => Skip(after) == ['}'] + k
             case Some(q) => after != [] && after[0] == ',' && q.1 == k && ParseMembers(after[1..]) == Parsed(q.0, k)
    ensures ParseMembers(s) == Parsed(Member(name, v, if rest.None? then NoMembers else rest.value.0), k)
  {
    Front(':', colon);
    if rest.None? {
      Front('}', k);
    } else {
      assert Skip(after) == after;
    }
    hide ParseValue, ParseString, Skip;
  }

  /** Every printable value, printed either way and followed by anything but a digit, is parsed
      back and the parser stops exactly at what follows. */
  lemma {:induction false} ValueBack(v: Json, depth: nat, fmt: bool, k: string)
    requires Printable(v) && NoDigit(k)
    ensures ParseValue(Text(v, depth, fmt, k)) == Parsed(Reread(v), k)
    decreases v, 0
  {
    hide ParseValue, ParseList, ParseMembers, ListText, MembersText, Quoted, NumberText;
    match v
    case Number(n, d) => NumberValueBack(n, d, k);
    case Str(s) => StringValueBack(s, k);
    case Array(l) =>
      if l.Cons? {
        var inside := ListText(l, depth + 1, fmt, [']'] + k);
        ListBack(l, depth + 1, fmt, k);
        ListStarts(l, depth + 1, fmt, [']'] + k);
        ArrayValueBack(inside, RereadList(l), k);
      } else {
        ArrayValueBack([']'] + k, Nil, k);
      }
    case Object(m) =>
      if m.Member? {
        var text := MembersText(m, depth + 1, fmt, Tabs(if fmt then depth else 0, ['}'] + k));
        var inside := When(fmt, ['\n'], text);
        MembersBack(m, depth + 1, fmt, if fmt then depth else 0, k);
        SkipWhen(fmt, '\n', text);
        MembersSkip(text);
        MembersStart(m, depth + 1, fmt, Tabs(if fmt then depth else 0, ['}'] + k));
        ObjectValueBack(inside, RereadMembers(m), k);
      } else {
        var end := Tabs(if fmt then depth - 1 else 0, ['}'] + k);
        SkipWhen(fmt, '\n', end);
        SkipTabs(if fmt then depth - 1 else 0, ['}'] + k);
        ObjectValueBack(When(fmt, ['\n'], end), NoMembers, k);
      }
    case _ => WordBack(k);
  }

  lemma ListStarts(l: List, depth: nat, fmt: bool, k: string)
    requires l.Cons?
    ensures var t := ListText(l, depth, fmt, k);
            t != [] && t[0] as int > 32 && t[0] != ']' && Skip(t) == t
  {
    TextStarts(l.item, depth, fmt, if l.next.Nil? then k else [','] + When(fmt, [' '], ListText(l.next, depth, fmt, k)));
  }

  lemma {:induction false} ListBack(l: List, depth: nat, fmt: bool, k: string)
    requires l.Cons? && PrintableList(l)
    ensures ParseList(ListText(l, depth, fmt, [']'] + k)) == Parsed(RereadList(l), k)
    decreases l, 1
  {
    var s := ListText(l, depth, fmt, [']'] + k);
    ListStarts(l, depth, fmt, [']'] + k);
    if l.next.Nil? {
      ValueBack(l.item, depth, fmt, [']'] + k);
      ElementBack(s, Reread(l.item), [']'] + k, None, k);
    } else {
      var more := ListText(l.next, depth, fmt, [']'] + k);
      var after := [','] + When(fmt, [' '], more);
      ListBack(l.next, depth, fmt, k);
      SkipWhen(fmt, ' ', more);
      ListSkips(more);
      ListSkips(When(fmt, [' '], more));
      ValueBack(l.item, depth, fmt, after);
      assert after[1..] == When(fmt, [' '], more);
      ElementBack(s, Reread(l.item), after, Some((RereadList(l.next), k)), k);
    }
  }

  lemma MembersStart(m: Members, depth: nat, fmt: bool, k: string)
    requires m.Member?
    ensures var t := Skip(MembersText(m, depth, fmt, k)); t != [] && t[0] == '"'
  {
    var text := [':'] + When(fmt, ['\t'], Text(m.item, depth, fmt,
      if m.next.NoMembers? then When(fmt, ['\n'], k) else [','] + When(fmt, ['\n'], MembersText(m.next, depth, fmt, k))));
    SkipTabs(if fmt then depth else 0, Quoted(m.name, text));
    assert Quoted(m.name, text)[0] == '"';
  }

  lemma {:induction false} MembersBack(m: Members, depth: nat, fmt: bool, tabs: int, k: string)
    requires m.Member? && PrintableMembers(m)
    ensures ParseMembers(MembersText(m, depth, fmt, Tabs(tabs, ['}'] + k))) == Parsed(RereadMembers(m), k)
    decreases m, 1
  {
    var end := Tabs(tabs, ['}'] + k);
    var s := MembersText(m, depth, fmt, end);
    var after := if m.next.NoMembers? then When(fmt, ['\n'], end)
                 else [','] + When(fmt, ['\n'], MembersText(m.next, depth, fmt, end));
    var value := Text(m.item, depth, fmt, after);
    var colon := When(fmt, ['\t'], value);
    SkipTabs(if fmt then depth else 0, Quoted(m.name, [':'] + colon));
    QuotedBack(m.name, [':'] + colon);
    SkipWhen(fmt, '\t', value);
    TextStarts(m.item, depth, fmt, after);
    EndNoDigit(fmt, tabs, k);
    ValueBack(m.item, depth, fmt, after);
    if m.next.NoMembers? {
      SkipWhen(fmt, '\n', end);
      SkipTabs(tabs, ['}'] + k);
      MemberBack(s, m.name, colon, Reread(m.item), after, None, k);
    } else {
      var more := MembersText(m.next, depth, fmt, end);
      MembersBack(m.next, depth, fmt, tabs, k);
      SkipWhen(fmt, '\n', more);
      MembersSkip(more);
      MembersSkip(When(fmt, ['\n'], more));
      assert after[1..] == When(fmt, ['\n'], more);
      MemberBack(s, m.name, colon, Reread(m.item), after, Some((RereadMembers(m.next), k)), k);
    }
  }

  lemma EndNoDigit(fmt: bool, tabs: int, k: string)
    ensures NoDigit(When(fmt, ['\n'], Tabs(tabs, ['}'] + k)))
  {
  }

  // ---------------------------------------------------------------- text and what follows it

  lemma Joined(a: string, b: string, k: string)
    ensures a + (b + k) == (a + b) + k
    ensures [] + k == k
  {
  }

  lemma {:induction false} DecimalThen(n: nat, a: string, k: string)
    ensures Decimal(n, a + k) == Decimal(n, a) + k
  {
    if n < 10 {
      Joined([DigitChar(n)], a, k);
    } else {
      Joined([DigitChar(n % 10)], a, k);
      DecimalThen(n / 10, [DigitChar(n % 10)] + a, k);
    }
  }

  lemma {:induction false} EscapedThen(s: string, a: string, k: string)
    ensures Escaped(s, a + k) == Escaped(s, a) + k
  {
    if s != [] {
      EscapedThen(s[1..], a, k);
      Joined(Escape(s[0]), Escaped(s[1..], a), k);
    }
  }

  lemma {:induction false} TabsThen(n: int, a: string, k: string)
    ensures Tabs(n, a + k) == Tabs(n, a) + k
    decreases n
  {
    if n > 0 {
      TabsThen(n - 1, a, k);
      Joined(['\t'], Tabs(n - 1, a), k);
    }
  }

  lemma WhenThen(fmt: bool, s: string, a: string, k: string)
    ensures When(fmt, s, a + k) == When(fmt, s, a) + k
  {
    Joined(s, a, k);
  }

  lemma QuotedThen(s: string, a: string, k: string)
    ensures Quoted(s, a + k) == Quoted(s, a) + k
  {
    Joined(['"'], a, k);
    EscapedThen(s, ['"'] + a, k);
    Joined(['"'], Escaped(s, ['"'] + a), k);
  }

  lemma NumberThen(n: int, d: int, a: string, k: string)
    ensures NumberText(n, d, a + k) == NumberText(n, d, a) + k
  {
    if d == 0 {
      Joined(['0'], a, k);
    } else if n < 0 {
      DecimalThen(-n, a, k);
      Joined(['-'], Decimal(-n, a), k);
    } else {
      DecimalThen(n, a, k);
    }
  }

  /** What follows a text does not change it. */
  lemma {:induction false} TextThen(v: Json, depth: nat, fmt: bool, a: string, k: string)
    ensures Text(v, depth, fmt, a + k) == Text(v, depth, fmt, a) + k
    decreases v, 0
  {
    match v
    case Null => Joined("null", a, k);
    case False => Joined("false", a, k);
    case True => Joined("true", a, k);
    case Number(n, d) => NumberThen(n, d, a, k);
    case Str(s) => QuotedThen(s, a, k);
    case Array(l) =>
      Joined([']'], a, k);
      if l.Cons? {
        ListThen(l, depth + 1, fmt, [']'] + a, k);
        Joined(['['], ListText(l, depth + 1, fmt, [']'] + a), k);
      } else {
        Joined(['['], [']'] + a, k);
      }
    case Object(m) =>
      Joined(['}'], a, k);
      var tabs := if !fmt then 0 else if m.Member? then depth else depth - 1;
      var end := Tabs(tabs, ['}'] + a);
      TabsThen(tabs, ['}'] + a, k);
      if m.Member? {
        MembersThen(m, depth + 1, fmt, end, k);
        WhenThen(fmt, ['\n'], MembersText(m, depth + 1, fmt, end), k);
        Joined(['{'], When(fmt, ['\n'], MembersText(m, depth + 1, fmt, end)), k);
      } else {
        WhenThen(fmt, ['\n'], end, k);
        Joined(['{'], When(fmt, ['\n'], end), k);
      }
  }

  lemma {:induction false} ListThen(l: List, depth: nat, fmt: bool, a: string, k: string)
    requires l.Cons?
    ensures ListText(l, depth, fmt, a + k) == ListText(l, depth, fmt, a) + k
    decreases l, 1
  {
    if l.next.Nil? {
      TextThen(l.item, depth, fmt, a, k);
    } else {
      var more := ListText(l.next, depth, fmt, a);
      ListThen(l.next, depth, fmt, a, k);
      WhenThen(fmt, [' '], more, k);
      Joined([','], When(fmt, [' '], more), k);
      TextThen(l.item, depth, fmt, [','] + When(fmt, [' '], more), k);
    }
  }

  lemma {:induction false} MembersThen(m: Members, depth: nat, fmt: bool, a: string, k: string)
    requires m.Member?
    ensures MembersText(m, depth, fmt, a + k) == MembersText(m, depth, fmt, a) + k
    decreases m, 1
  {
    var after := if m.next.NoMembers? then When(fmt, ['\n'], a)
                 else [','] + When(fmt, ['\n'], MembersText(m.next, depth, fmt, a));
    if m.next.NoMembers? {
      WhenThen(fmt, ['\n'], a, k);
    } else {
      var more := MembersText(m.next, depth, fmt, a);
      MembersThen(m.next, depth, fmt, a, k);
      WhenThen(fmt, ['\n'], more, k);
      Joined([','], When(fmt, ['\n'], more), k);
    }
    TextThen(m.item, depth, fmt, after, k);
    var value := Text(m.item, depth, fmt, after);
    WhenThen(fmt, ['\t'], value, k);
    Joined([':'], When(fmt, ['\t'], value), k);
    QuotedThen(m.name, [':'] + When(fmt, ['\t'], value), k);
    TabsThen(if fmt then depth else 0, Quoted(m.name, [':'] + When(fmt, ['\t'], value)), k);
  }

  /** Printing a value and parsing the text, with anything but a digit after it, gives the value
      with its numbers reread, and leaves what was after it. */
  lemma PrintThenParse(v: Json, fmt: bool, rest: string)
    requires Printable(v) && NoDigit(rest)
    ensures Parse(Print(v, fmt) + rest, false) == Parsed(Reread(v), rest)
    ensures Parse(Print(v, fmt) + rest, true) == if Skip(rest) == [] then Parsed(Reread(v), []) else Rejected
  {
    TextThen(v, 0, fmt, [], rest);
    Joined([], rest, rest);
    TextStarts(v, 0, fmt, rest);
    ValueBack(v, 0, fmt, rest);
  }

  // ---------------------------------------------------------------- printing what was parsed

  /** A value with every number zero. */
  function Zeroed(v: Json): Json {
    match v
    case Number(_, _) => Number(0, 0)
    case Array(l) => Array(ZeroedList(l))
    case Object(m) => Object(ZeroedMembers(m))
    case _ => v
  }

  function ZeroedList(l: List): List {
    if l.Nil? then Nil else Cons(Zeroed(l.item), ZeroedList(l.next))
  }

  function ZeroedMembers(m: Members): Members {
    if m.NoMembers? then NoMembers else Member(m.name, Zeroed(m.item), ZeroedMembers(m.next))
  }

  /** A parsed value prints as if all its numbers were zero, because printing looks at the double
      that parsing leaves at zero. */
  lemma {:induction false} RereadPrintsZeros(v: Json, depth: nat, fmt: bool, k: string)
    requires Printable(v)
    ensures Text(Reread(v), depth, fmt, k) == Text(Zeroed(v), depth, fmt, k)
    ensures Printable(Zeroed(v)) && Reread(Zeroed(v)) == Zeroed(v)
    decreases v, 0
  {
    match v
    case Array(l) => ListPrintsZeros(l, depth + 1, fmt, [']'] + k);
    case Object(m) => MembersPrintZeros(m, depth + 1, fmt, Tabs(if fmt then depth else 0, ['}'] + k));
    case _ =>
  }

  lemma {:induction false} ListPrintsZeros(l: List, depth: nat, fmt: bool, k: string)
    requires PrintableList(l)
    ensures l.Cons? ==> ListText(RereadList(l), depth, fmt, k) == ListText(ZeroedList(l), depth, fmt, k)
    ensures PrintableList(ZeroedList(l)) && RereadList(ZeroedList(l)) == ZeroedList(l)
    decreases l, 1
  {
    if l.Cons? {
      ListPrintsZeros(l.next, depth, fmt, k);
      RereadPrintsZeros(l.item, depth, fmt,
        if l.next.Nil? then k else [','] + When(fmt, [' '], ListText(RereadList(l.next), depth, fmt, k)));
    }
  }

  lemma {:induction false} MembersPrintZeros(m: Members, depth: nat, fmt: bool, k: string)
    requires PrintableMembers(m)
    ensures m.Member? ==> MembersText(RereadMembers(m), depth, fmt, k) == MembersText(ZeroedMembers(m), depth, fmt, k)
    ensures PrintableMembers(ZeroedMembers(m)) && RereadMembers(ZeroedMembers(m)) == ZeroedMembers(m)
    decreases m, 1
  {
    if m.Member? {
      MembersPrintZeros(m.next, depth, fmt, k);
      RereadPrintsZeros(m.item, depth, fmt,
        if m.next.NoMembers? then When(fmt, ['\n'], k)
        else [','] + When(fmt, ['\n'], MembersText(RereadMembers(m.next), depth, fmt, k)));
    }
  }

  /** No number but zero. */
  predicate AllZero(v: Json) {
    match v
    case Number(n, _) => n == 0
    case Array(l) => AllZeroList(l)
    case Object(m) => AllZeroMembers(m)
    case _ => true
  }

  predicate AllZeroList(l: List) {
    l.Cons? ==> AllZero(l.item) && AllZeroList(l.next)
  }

  predicate AllZeroMembers(m: Members) {
    m.Member? ==> AllZero(m.item) && AllZeroMembers(m.next)
  }

  lemma {:induction false} ZeroedExact(v: Json)
    requires Printable(v)
    ensures Reread(v) == Zeroed(v) <==> AllZero(v)
    ensures v == Zeroed(v) <==> AllZero(v)
    decreases v, 0
  {
    match v
    case Array(l) => ZeroedListExact(l);
    case Object(m) => ZeroedMembersExact(m);
    case _ =>
  }

  lemma {:induction false} ZeroedListExact(l: List)
    requires PrintableList(l)
    ensures RereadList(l) == ZeroedList(l) <==> AllZeroList(l)
    ensures l == ZeroedList(l) <==> AllZeroList(l)
    decreases l, 1
  {
    if l.Cons? {
      ZeroedExact(l.item);
      ZeroedListExact(l.next);
    }
  }

  lemma {:induction false} ZeroedMembersExact(m: Members)
    requires PrintableMembers(m)
    ensures RereadMembers(m) == ZeroedMembers(m) <==> AllZeroMembers(m)
    ensures m == ZeroedMembers(m) <==> AllZeroMembers(m)
    decreases m, 1
  {
    if m.Member? {
      ZeroedExact(m.item);
      ZeroedMembersExact(m.next);
    }
  }

  /** Printing a parsed text gives the text back exactly when it holds no number but zero. */
  lemma ReprintExact(v: Json, fmt: bool)
    requires Printable(v)
    ensures Print(Reread(v), fmt) == Print(v, fmt) <==> AllZero(v)
  {
    RereadPrintsZeros(v, 0, fmt, []);
    ZeroedExact(v);
    if Print(Reread(v), fmt) == Print(v, fmt) {
      ValueBack(v, 0, fmt, []);
      ValueBack(Zeroed(v), 0, fmt, []);
    }
  }

  // ---------------------------------------------------------------- no NUL in a text

  lemma {:induction false} DecimalBytes(n: nat, k: string)
    requires Bytes(k)
    ensures Bytes(Decimal(n, k))
  {
    if n >= 10 {
      DecimalBytes(n / 10, [DigitChar(n % 10)] + k);
    }
  }

  lemma {:induction false} EscapedBytes(s: string, k: string)
    requires Bytes(s) && Bytes(k)
    ensures Bytes(Escaped(s, k))
  {
    if s != [] {
      EscapedBytes(s[1..], k);
    }
  }

  lemma {:induction false} TabsBytes(n: int, k: string)
    requires Bytes(k)
    ensures Bytes(Tabs(n, k))
    decreases n
  {
    if n > 0 {
      TabsBytes(n - 1, k);
    }
  }

  lemma {:induction false} TextBytes(v: Json, depth: nat, fmt: bool, k: string)
    requires Printable(v) && Bytes(k)
    ensures Bytes(Text(v, depth, fmt, k))
    decreases v, 0
  {
    hide Decimal, Escaped, Tabs, ListText, MembersText;
    match v
    case Number(n, d) => DecimalBytes(if n < 0 then -n else n, k);
    case Str(s) => EscapedBytes(s, ['"'] + k);
    case Array(l) => ListBytes(l, depth + 1, fmt, [']'] + k);
    case Object(m) =>
      TabsBytes(if fmt then depth - 1 else 0, ['}'] + k);
      TabsBytes(if fmt then depth else 0, ['}'] + k);
      MembersBytes(m, depth + 1, fmt, Tabs(if fmt then depth else 0, ['}'] + k));
    case _ =>
  }

  lemma {:induction false} ListBytes(l: List, depth: nat, fmt: bool, k: string)
    requires PrintableList(l) && Bytes(k)
    ensures l.Cons? ==> Bytes(ListText(l, depth, fmt, k))
    decreases l, 1
  {
    if l.Cons? {
      ListBytes(l.next, depth, fmt, k);
      TextBytes(l.item, depth, fmt,
        if l.next.Nil? then k else [','] + When(fmt, [' '], ListText(l.next, depth, fmt, k)));
    }
  }

  lemma {:induction false} MembersBytes(m: Members, depth: nat, fmt: bool, k: string)
    requires PrintableMembers(m) && Bytes(k)
    ensures m.Member? ==> Bytes(MembersText(m, depth, fmt, k))
    decreases m, 1
  {
    if m.Member? {
      MembersBytes(m.next, depth, fmt, k);
      var after := if m.next.NoMembers? then When(fmt, ['\n'], k)
                   else [','] + When(fmt, ['\n'], MembersText(m.next, depth, fmt, k));
      TextBytes(m.item, depth, fmt, after);
      var colon := [':'] + When(fmt, ['\t'], Text(m.item, depth, fmt, after));
      EscapedBytes(m.name, ['"'] + colon);
      TabsBytes(if fmt then depth else 0, Quoted(m.name, colon));
    }
  }
}
