/** Nothing but what looks like JSON is accepted by the parsers of cJSON.c: which texts they take for
    a value, and where they are laxer than RFC 8259. */
module JsonSound {
  import opened Common
  import opened JsonParse
  import opened JsonRoundTrip
  import opened JsonText

  /** What is passed over between tokens: not only white space, all control characters. */
  predicate Gap(s: string) {
    forall i :: 0 <= i < |s| ==> s[i] as int <= 32
  }

  predicate AllDigits(s: string) {
    forall i :: 0 <= i < |s| ==> '0' <= s[i] <= '9'
  }

  /** The number that digits stand for in base 10. */
  function Places(s: string): nat
    requires AllDigits(s)
  {
    if s == [] then 0 else Places(s[..|s| - 1]) * 10 + (s[|s| - 1] as int - '0' as int)
  }

  /** A sign and digits. Both may be missing, and a zero may stand before other digits. */
  predicate Figures(text: string, v: Json) {
    exists sign: nat :: sign <= 1 && sign <= |text| && FiguresFrom(text, v, sign)
  }

  predicate FiguresFrom(text: string, v: Json, sign: nat)
    requires sign <= |text|
  {
    && text != [] && text[..sign] == (if sign == 1 then "-" else "") && AllDigits(text[sign..])
    && Places(text[sign..]) <= 0x7fff_ffff
    && v == Number(if sign == 1 then 0 - Places(text[sign..]) else Places(text[sign..]), 0)
  }

  datatype Loose =
    | Leaf(text: string, v: Json)
    | Bracketed(gap: string, items: Entries)
    | Braced(gap: string, pairs: Named)

  datatype Entries = NoEntry | Entry(before: string, tree: Loose, after: string, next: Entries)

  datatype Named =
    NoName | Name(before: string, text: string, name: string, colon: string, between: string, tree: Loose, after: string, next: Named)

  /** A word, a number, or a string as `parse_string` reads it. */
  predicate LeafOk(text: string, v: Json, k: string) {
    || (text == "null" && v == Null) || (text == "false" && v == False) || (text == "true" && v == True)
    || Figures(text, v) || (v.Str? && Quotation(text, v.valuestring, k))
  }

  predicate Quotation(text: string, octets: string, k: string) {
    text != [] && text[0] == '"' && ParseString(text + k) == Parsed(octets, k)
  }

  predicate Ok(t: Loose, k: string)
    decreases t, 0
  {
    match t
    case Leaf(text, v) => LeafOk(text, v, k)
    case Bracketed(gap, entries) => Gap(gap) && (entries.Entry? ==> OkEntries(entries, k))
    case Braced(gap, pairs) => Gap(gap) && (pairs.Name? ==> OkNamed(pairs, k))
  }

  predicate OkEntries(e: Entries, k: string)
    requires e.Entry?
    decreases e, 1
  {
    Gap(e.before) && Gap(e.after) && Ok(e.tree, e.after + AfterEntry(e, k)) && (e.next.Entry? ==> OkEntries(e.next, k))
  }

  predicate OkNamed(p: Named, k: string)
    requires p.Name?
    decreases p, 1
  {
    && Gap(p.before) && Gap(p.colon) && Gap(p.between) && Gap(p.after)
    && Quotation(p.text, p.name, p.colon + ([':'] + (p.between + Text(p.tree, p.after + AfterName(p, k)))))
    && Ok(p.tree, p.after + AfterName(p, k)) && (p.next.Name? ==> OkNamed(p.next, k))
  }

  function Text(t: Loose, k: string): string
    decreases t, 0
  {
    match t
    case Leaf(text, _) => text + k
    case Bracketed(gap, entries) => ['['] + if entries.NoEntry? then gap + ([']'] + k) else EntriesText(entries, k)
    case Braced(gap, pairs) => ['{'] + if pairs.NoName? then gap + (['}'] + k) else NamedText(pairs, k)
  }

  function AfterEntry(e: Entries, k: string): string
    requires e.Entry?
    decreases e, 0
  {
    if e.next.NoEntry? then [']'] + k else [','] + EntriesText(e.next, k)
  }

  function EntriesText(e: Entries, k: string): string
    requires e.Entry?
    decreases e, 1
  {
    e.before + Text(e.tree, e.after + AfterEntry(e, k))
  }

  function AfterName(p: Named, k: string): string
    requires p.Name?
    decreases p, 0
  {
    if p.next.NoName? then ['}'] + k else [','] + NamedText(p.next, k)
  }

  function NamedText(p: Named, k: string): string
    requires p.Name?
    decreases p, 1
  {
    p.before + (p.text + (p.colon + ([':'] + (p.between + Text(p.tree, p.after + AfterName(p, k))))))
  }

  function Meaning(t: Loose): Json {
    match t
    case Leaf(_, v) => v
    case Bracketed(_, entries) => Array(EntriesMeaning(entries))
    case Braced(_, pairs) => Object(NamedMeaning(pairs))
  }

  function EntriesMeaning(e: Entries): List {
    if e.NoEntry? then Nil else Cons(Meaning(e.tree), EntriesMeaning(e.next))
  }

  function NamedMeaning(p: Named): Members {
    if p.NoName? then NoMembers else Member(p.name, Meaning(p.tree), NamedMeaning(p.next))
  }

  // ---------------------------------------------------------------- tokens

  /** What `skip` passes over. */
  lemma {:induction false} Skipped(s: string) returns (w: string)
    ensures Gap(w) && s == w + Skip(s)
  {
    if s != [] && s[0] as int <= 32 {
      var v := Skipped(s[1..]);
      w := [s[0]] + v;
      assert s == [s[0]] + s[1..] && w + Skip(s) == [s[0]] + (v + Skip(s));
    } else {
      w := [];
      assert [] + s == s;
    }
  }

  lemma OneMoreDigit(done: string, c: char)
    requires AllDigits(done) && Digit(c)
    ensures AllDigits(done + [c]) && Places(done + [c]) == Places(done) * 10 + DigitValue(c)
  {
    assert (done + [c])[..|done|] == done;
  }

  /** The digits that the loop of `parse_number` takes. */
  lemma {:induction false} DigitsTaken(acc: nat, done: string, s: string) returns (text: string)
    requires AllDigits(done) && acc == Places(done) && Digits(acc, s).Parsed?
    ensures s == text + Digits(acc, s).rest && AllDigits(done + text) && Places(done + text) == Digits(acc, s).value
    decreases |s|
  {
    if Digit(First(s)) {
      var more, n := done + [s[0]], acc * 10 + DigitValue(s[0]);
      OneMoreDigit(done, s[0]);
      assert Digits(acc, s) == Digits(n, s[1..]);
      hide Digits, Places, AllDigits;
      var rest := DigitsTaken(n, more, s[1..]);
      text := [s[0]] + rest;
      Regroup(done, [s[0]], rest);
      FrontOf(s);
      Regroup([s[0]], rest, Digits(acc, s).rest);
    } else {
      text := [];
      assert done + [] == done && [] + s == s;
    }
  }

  lemma {:induction false} DigitsBounded(acc: nat, s: string)
    requires acc <= 0x7fff_ffff && Digits(acc, s).Parsed?
    ensures Digits(acc, s).value <= 0x7fff_ffff
    decreases |s|
  {
    if Digit(First(s)) {
      DigitsBounded(acc * 10 + DigitValue(s[0]), s[1..]);
    }
  }

  lemma ZeroFirst(text: string)
    requires AllDigits(text)
    ensures AllDigits(['0'] + text) && Places(['0'] + text) == Places(text)
    decreases |text|
  {
    var s := ['0'] + text;
    if text == [] {
      assert s == ['0'] && s[..0] == [];
    } else {
      ZeroFirst(text[..|text| - 1]);
      assert s[..|s| - 1] == ['0'] + text[..|text| - 1];
    }
  }

  /** What `parse_number` reads behind the sign. */
  function Unsigned(t: string): Outcome<nat> {
    var u := if First(t) == '0' then t[1..] else t;
    if Digit(First(u)) && u[0] != '0' then Digits(0, u) else Parsed(0, u)
  }

  lemma UnsignedSound(t: string) returns (text: string)
    requires Unsigned(t).Parsed?
    ensures AllDigits(text) && Places(text) == Unsigned(t).value <= 0x7fff_ffff && t == text + Unsigned(t).rest
    ensures Digit(First(t)) ==> text != []
  {
    var u := if First(t) == '0' then t[1..] else t;
    text := [];
    if Digit(First(u)) && u[0] != '0' {
      text := DigitsTaken(0, [], u);
      DigitsBounded(0, u);
      assert [] + text == text;
    }
    hide Digits;
    assert u == text + Unsigned(t).rest;
    if First(t) == '0' {
      ZeroFirst(text);
      FrontOf(t);
      Regroup(['0'], text, Unsigned(t).rest);
      text := ['0'] + text;
    }
  }

  lemma Regroup(a: string, b: string, c: string)
    ensures a + (b + c) == a + b + c
  {
  }

  lemma NumberParts(s: string)
    requires s != []
    ensures var minus := s[0] == '-';
      var n := Unsigned(if minus then s[1..] else s);
      ParseNumber(s) == if n.Undefined? then Undefined else Parsed(Number(if minus then 0 - n.value else n.value, 0), n.rest)
  {
    hide Digits;
  }

  lemma FiguresMinus(all: string)
    requires AllDigits(all) && Places(all) <= 0x7fff_ffff
    ensures Figures(['-'] + all, Number(0 - Places(all), 0))
  {
    var text := ['-'] + all;
    assert text[1..] == all && text[..1] == ['-'];
    hide Places, AllDigits;
    assert FiguresFrom(text, Number(0 - Places(all), 0), 1);
  }

  lemma FiguresPlain(all: string)
    requires all != [] && AllDigits(all) && Places(all) <= 0x7fff_ffff
    ensures Figures(all, Number(Places(all), 0))
  {
    assert all[0..] == all && all[..0] == [];
    hide Places, AllDigits;
    assert FiguresFrom(all, Number(Places(all), 0), 0);
  }

  /** A number is a sign and digits. */
  lemma NumberSound(s: string) returns (text: string)
    requires First(s) == '-' || Digit(First(s))
    requires ParseNumber(s).Parsed?
    ensures Figures(text, ParseNumber(s).value) && s == text + ParseNumber(s).rest
  {
    NumberParts(s);
    hide Unsigned, ParseNumber, Places, AllDigits, Figures;
    if s[0] == '-' {
      var all := UnsignedSound(s[1..]);
      FiguresMinus(all);
      FrontOf(s);
      Regroup(['-'], all, ParseNumber(s).rest);
      text := ['-'] + all;
    } else {
      text := UnsignedSound(s);
      FiguresPlain(text);
    }
  }

  lemma {:induction false} CharacterTaken(s: string)
    requires ParseString(s).Parsed?
    ensures s != [] && s[0] == '"' && |ParseString(s).rest| < |s|
    ensures ParseString(s).rest == s[|s| - |ParseString(s).rest|..]
  {
    UnquoteRest(s[1..]);
    var k := Unquote(s[1..]).rest;
    assert s[|s| - |k|..] == s[1..][|s| - 1 - |k|..];
  }

  lemma PieceRest(t: string)
    requires t != [] && Piece(t).Parsed?
    ensures var k := Piece(t).rest; |k| < |t| && k == t[|t| - |k|..]
  {
    hide Hex4, Utf8;
  }

  lemma {:induction false} UnquoteRest(s: string)
    requires Unquote(s).Parsed?
    ensures var k := Unquote(s).rest; |k| <= |s| && k == s[|s| - |k|..]
    decreases |s|
  {
    if s != [] && s[0] != '"' {
      PieceRest(s);
      var p := Piece(s);
      hide Piece;
      UnquoteRest(p.rest);
      var k := Unquote(s).rest;
      assert p.rest[|p.rest| - |k|..] == s[|s| - |k|..];
    }
  }

  /** A string starts with a quote, and its text is what the parser went over. */
  lemma StringSound(s: string) returns (text: string)
    requires ParseString(s).Parsed?
    ensures s == text + ParseString(s).rest && Quotation(text, ParseString(s).value, ParseString(s).rest)
  {
    CharacterTaken(s);
    var k := ParseString(s).rest;
    text := s[..|s| - |k|];
    assert text + k == s;
    hide ParseString;
  }

  // ---------------------------------------------------------------- values

  lemma WordTaken(s: string, word: string)
    requires Starts(s, word)
    ensures s == word + s[|word|..]
  {
    assert s == s[..|word|] + s[|word|..];
  }

  lemma FrontOf(s: string)
    requires s != []
    ensures s == [s[0]] + s[1..]
  {
  }

  lemma ArrayParts(s: string)
    requires First(s) == '[' && ParseValue(s).Parsed?
    ensures var t := Skip(s[1..]);
      if First(t) == ']' then ParseValue(s) == Parsed(Array(Nil), t[1..])
      else ParseList(s[1..]).Parsed? && ParseValue(s) == Parsed(Array(ParseList(s[1..]).value), ParseList(s[1..]).rest)
  {
    ListSkips(s[1..]);
    NotAWord(s);
    hide Starts, ParseList, ParseMembers, ParseString, ParseNumber, Skip;
  }

  lemma ObjectParts(s: string)
    requires First(s) == '{' && ParseValue(s).Parsed?
    ensures var t := Skip(s[1..]);
      if First(t) == '}' then ParseValue(s) == Parsed(Object(NoMembers), t[1..])
      else ParseMembers(s[1..]).Parsed? && ParseValue(s) == Parsed(Object(ParseMembers(s[1..]).value), ParseMembers(s[1..]).rest)
  {
    MembersSkip(s[1..]);
    NotAWord(s);
    hide Starts, ParseList, ParseMembers, ParseString, ParseNumber, Skip;
  }

  lemma LeafSound(s: string) returns (t: Loose)
    requires ParseValue(s).Parsed? && First(s) != '[' && First(s) != '{'
    ensures Ok(t, ParseValue(s).rest) && Text(t, ParseValue(s).rest) == s && Meaning(t) == ParseValue(s).value
  {
    hide ParseString, ParseNumber, Quotation, Figures, ParseList, ParseMembers, Skip;
    if Starts(s, "null") {
      WordTaken(s, "null");
      t := Leaf("null", Null);
    } else if Starts(s, "false") {
      WordTaken(s, "false");
      t := Leaf("false", False);
    } else if Starts(s, "true") {
      WordTaken(s, "true");
      t := Leaf("true", True);
    } else {
      var text;
      if First(s) == '"' {
        text := StringSound(s);
      } else {
        text := NumberSound(s);
      }
      t := Leaf(text, ParseValue(s).value);
    }
  }

  /** Every text that is accepted is a value of the loose grammar, up to what the parser leaves. */
  lemma {:induction false} ValueSound(s: string) returns (t: Loose)
    requires ParseValue(s).Parsed?
    ensures Ok(t, ParseValue(s).rest) && Text(t, ParseValue(s).rest) == s && Meaning(t) == ParseValue(s).value
    decreases |s|, 0, 1
  {
    if First(s) == '[' {
      t := ArraySound(s);
    } else if First(s) == '{' {
      t := ObjectSound(s);
    } else {
      t := LeafSound(s);
    }
    hide *;
  }

  lemma {:induction false} ArraySound(s: string) returns (t: Loose)
    requires ParseValue(s).Parsed? && First(s) == '['
    ensures Ok(t, ParseValue(s).rest) && Text(t, ParseValue(s).rest) == s && Meaning(t) == ParseValue(s).value
    decreases |s|, 0, 0
  {
    hide ParseValue, ParseList, Skip;
    FrontOf(s);
    ArrayParts(s);
    var w := Skipped(s[1..]);
    var u := Skip(s[1..]);
    if First(u) == ']' {
      FrontOf(u);
      t := Bracketed(w, NoEntry);
    } else {
      var e := EntriesSound(s[1..]);
      hide OkEntries, EntriesText, EntriesMeaning;
      t := Bracketed([], e);
    }
  }

  lemma {:induction false} ObjectSound(s: string) returns (t: Loose)
    requires ParseValue(s).Parsed? && First(s) == '{'
    ensures Ok(t, ParseValue(s).rest) && Text(t, ParseValue(s).rest) == s && Meaning(t) == ParseValue(s).value
    decreases |s|, 0, 0
  {
    hide ParseValue, ParseMembers, Skip;
    FrontOf(s);
    ObjectParts(s);
    var w := Skipped(s[1..]);
    var u := Skip(s[1..]);
    if First(u) == '}' {
      FrontOf(u);
      t := Braced(w, NoName);
    } else {
      var p := NamedSound(s[1..]);
      hide OkNamed, NamedText, NamedMeaning;
      t := Braced([], p);
    }
  }

  lemma ListParts(s: string)
    requires ParseList(s).Parsed?
    ensures ParseValue(Skip(s)).Parsed?
    ensures var p := ParseValue(Skip(s));
            var u := Skip(p.rest);
            && u != [] && (u[0] == ',' || u[0] == ']') && |u| < |s|
            && if u[0] == ',' then ParseList(u[1..]).Parsed?
                 && ParseList(s) == Parsed(Cons(p.value, ParseList(u[1..]).value), ParseList(u[1..]).rest)
               else ParseList(s) == Parsed(Cons(p.value, Nil), u[1..])
  {
    hide ParseValue, Skip;
  }

  lemma {:induction false} EntriesSound(s: string) returns (e: Entries)
    requires ParseList(s).Parsed?
    ensures e.Entry? && OkEntries(e, ParseList(s).rest) && EntriesText(e, ParseList(s).rest) == s
    ensures EntriesMeaning(e) == ParseList(s).value
    decreases |s|, 1
  {
    hide ParseValue, ParseList, Skip, Ok, Text;
    ListParts(s);
    var p := ParseValue(Skip(s));
    var u := Skip(p.rest);
    var before := Skipped(s);
    var tree := ValueSound(Skip(s));
    var after := Skipped(p.rest);
    FrontOf(u);
    if u[0] == ',' {
      var next := EntriesSound(u[1..]);
      e := Entry(before, tree, after, next);
    } else {
      e := Entry(before, tree, after, NoEntry);
    }
  }

  lemma MembersParts(s: string)
    requires ParseMembers(s).Parsed?
    ensures ParseString(Skip(s)).Parsed?
    ensures var c := Skip(ParseString(Skip(s)).rest);
            && c != [] && c[0] == ':' && ParseValue(Skip(c[1..])).Parsed?
            && var p := ParseValue(Skip(c[1..]));
            var u := Skip(p.rest);
            && u != [] && (u[0] == ',' || u[0] == '}') && |u| < |s| && |Skip(c[1..])| < |s|
            && if u[0] == ',' then ParseMembers(u[1..]).Parsed?
                 && ParseMembers(s) == Parsed(Member(ParseString(Skip(s)).value, p.value, ParseMembers(u[1..]).value),
                                              ParseMembers(u[1..]).rest)
               else ParseMembers(s) == Parsed(Member(ParseString(Skip(s)).value, p.value, NoMembers), u[1..])
  {
    hide ParseValue, ParseString, Skip;
  }

  lemma {:induction false} NamedSound(s: string) returns (p: Named)
    requires ParseMembers(s).Parsed?
    ensures p.Name? && OkNamed(p, ParseMembers(s).rest) && NamedText(p, ParseMembers(s).rest) == s
    ensures NamedMeaning(p) == ParseMembers(s).value
    decreases |s|, 1
  {
    hide ParseValue, ParseMembers, ParseString, Skip, Ok, Text, Quotation;
    MembersParts(s);
    var name := ParseString(Skip(s));
    var c := Skip(name.rest);
    var v := ParseValue(Skip(c[1..]));
    var u := Skip(v.rest);
    var before := Skipped(s);
    var text := StringSound(Skip(s));
    var colon := Skipped(name.rest);
    FrontOf(c);
    var between := Skipped(c[1..]);
    var tree := ValueSound(Skip(c[1..]));
    var after := Skipped(v.rest);
    FrontOf(u);
    if u[0] == ',' {
      var next := NamedSound(u[1..]);
      p := Name(before, text, name.value, colon, between, tree, after, next);
    } else {
      p := Name(before, text, name.value, colon, between, tree, after, NoName);
    }
  }

  /** `cJSON_ParseWithOpts` accepts nothing but a value between gaps; with its flag set, nothing
      follows. */
  lemma ParseSound(s: string, requireEnd: bool) returns (before: string, t: Loose, after: string)
    requires Parse(s, requireEnd).Parsed?
    ensures Gap(before) && Ok(t, after) && s == before + Text(t, after) && Meaning(t) == Parse(s, requireEnd).value
    ensures if requireEnd then Gap(after) && Parse(s, true).rest == [] else Parse(s, false).rest == after
  {
    hide ParseValue, Skip, Ok, Text, Meaning;
    before := Skipped(s);
    t := ValueSound(Skip(s));
    after := ParseValue(Skip(s)).rest;
    var w := Skipped(after);
    assert requireEnd ==> w + [] == w;
  }

  // ---------------------------------------------------------------- strings

  /** Any character but a quote and a backslash stands for itself in a string, and so does any after
      a backslash that is none of six letters. */
  lemma LaxCharacters(c: char, k: string)
    ensures c != '"' && c != '\\' ==> Piece([c] + k) == Parsed([c], k)
    ensures c !in "bfnrtu" ==> Piece(['\\', c] + k) == Parsed([c], k)
  {
    assert ([c] + k)[1..] == k && (['\\', c] + k)[1..] == [c] + k;
    hide ParseU;
  }

  /** A string that no quote ends is taken to the end of the text. */
  lemma {:induction false} OpenString(s: string)
    requires forall i :: 0 <= i < |s| ==> s[i] != '"' && s[i] != '\\'
    ensures ParseString(['"'] + s) == Parsed(s, [])
  {
    assert (['"'] + s)[1..] == s;
    OpenUnquote(s);
    hide Unquote, Count;
  }

  lemma {:induction false} OpenUnquote(s: string)
    requires forall i :: 0 <= i < |s| ==> s[i] != '"' && s[i] != '\\'
    ensures Unquote(s) == Parsed(s, []) && Count(s) == Parsed(|s|, [])
  {
    if s != [] {
      OpenUnquote(s[1..]);
      FrontOf(s);
    }
  }
}
