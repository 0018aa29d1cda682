/** JSON texts as RFC 8259 writes them, with white space wherever it may stand and every kind of
    escape, and what the parsers of cJSON.c make of them. Numbers are integers in the range of int. */
module JsonGrammar {
  import opened Common
  import opened JsonParse
  import opened JsonRoundTrip
  import opened JsonStrings
  import opened JsonText
  import opened JsonUnicode

  // ---------------------------------------------------------------- texts

  /** White space (section 2): space, tab, line feed and carriage return. */
  predicate White(s: string) {
    forall i :: 0 <= i < |s| ==> s[i] == ' ' || s[i] == '\t' || s[i] == '\n' || s[i] == '\r'
  }

  /** A part of a string (section 7): a character, a short escape, or the escapes of a code point with
      their digits in either case. */
  datatype Part =
    | Plainly(c: char)
    | Shortly(c: char)
    | Code(uc: nat, upper: seq<bool>)
    | Pair(uc: nat, high: seq<bool>, low: seq<bool>)
  {
    predicate Valid() {
      match this
      case Plainly(c) => 0x20 <= c as int < 0x100 && c != '"' && c != '\\'
      case Shortly(c) => c in "\"\\/bfnrt"
      case Code(uc, upper) => 0 < uc < 0x1_0000 && !Surrogate(uc) && |upper| == 4
      case Pair(uc, high, low) => 0x1_0000 <= uc < 0x11_0000 && |high| == |low| == 4
    }

    function Text(k: string): string
      requires Valid()
    {
      match this
      case Plainly(c) => [c] + k
      case Shortly(c) => ['\\', c] + k
      case Code(uc, upper) => ['\\'] + (['u'] + (FourOf(uc, upper) + k))
      case Pair(uc, high, low) =>
        ['\\'] + (['u'] + (FourOf(HighHalf(uc), high) + (['\\', 'u'] + (FourOf(LowHalf(uc), low) + k))))
    }

    /** The octets a part stands for. */
    function Octets(): string
      requires Valid()
    {
      match this
      case Plainly(c) => [c]
      case Shortly(c) =>
        if c == 'b' then ['\U{0008}'] else if c == 'f' then ['\U{000C}'] else if c == 'n' then ['\U{000A}']
        else if c == 'r' then ['\U{000D}'] else if c == 't' then ['\U{0009}'] else [c]
      case Code(uc, _) => Utf8(uc)
      case Pair(uc, _, _) => Utf8(uc)
    }
  }

  predicate ValidParts(ps: seq<Part>) {
    forall i :: 0 <= i < |ps| ==> ps[i].Valid()
  }

  function PartsText(ps: seq<Part>, k: string): string
    requires ValidParts(ps)
  {
    if ps == [] then k else ps[0].Text(PartsText(ps[1..], k))
  }

  function PartsOctets(ps: seq<Part>): string
    requires ValidParts(ps)
  {
    if ps == [] then [] else ps[0].Octets() + PartsOctets(ps[1..])
  }

  function StringText(ps: seq<Part>, k: string): string
    requires ValidParts(ps)
  {
    ['"'] + PartsText(ps, ['"'] + k)
  }

  /** A value with the white space of its text (sections 2 to 7). */
  datatype Tree =
    | NullTree
    | FalseTree
    | TrueTree
    | NumberTree(negative: bool, n: nat)
    | StringTree(parts: seq<Part>)
    | ArrayTree(inside: string, items: Items)
    | ObjectTree(inside: string, pairs: Pairs)

  datatype Items = NoItems | Item(before: string, tree: Tree, after: string, next: Items)

  datatype Pairs =
    NoPairs | NamedTree(before: string, name: seq<Part>, colon: string, between: string, tree: Tree, after: string, next: Pairs)

  predicate Valid(t: Tree) {
    match t
    case NumberTree(_, n) => n <= 0x7fff_ffff
    case StringTree(ps) => ValidParts(ps)
    case ArrayTree(w, items) => White(w) && ValidItems(items)
    case ObjectTree(w, pairs) => White(w) && ValidPairs(pairs)
    case _ => true
  }

  predicate ValidItems(items: Items) {
    items.Item? ==> White(items.before) && Valid(items.tree) && White(items.after) && ValidItems(items.next)
  }

  predicate ValidPairs(p: Pairs) {
    p.NamedTree? ==>
      && White(p.before) && ValidParts(p.name) && White(p.colon) && White(p.between) && Valid(p.tree) && White(p.after)
      && ValidPairs(p.next)
  }

  function Render(t: Tree, k: string): string
    requires Valid(t)
    decreases t, 0
  {
    match t
    case NullTree => "null" + k
    case FalseTree => "false" + k
    case TrueTree => "true" + k
    case NumberTree(negative, n) => if negative then ['-'] + Decimal(n, k) else Decimal(n, k)
    case StringTree(ps) => StringText(ps, k)
    case ArrayTree(w, items) => ['['] + if items.NoItems? then w + ([']'] + k) else RenderItems(items, k)
    case ObjectTree(w, pairs) => ['{'] + if pairs.NoPairs? then w + (['}'] + k) else RenderPairs(pairs, k)
  }

  function RenderItems(items: Items, k: string): string
    requires ValidItems(items) && items.Item?
    decreases items, 1
  {
    items.before + Render(items.tree,
      items.after + if items.next.NoItems? then [']'] + k else [','] + RenderItems(items.next, k))
  }

  function RenderPairs(p: Pairs, k: string): string
    requires ValidPairs(p) && p.NamedTree?
    decreases p, 1
  {
    p.before + StringText(p.name, p.colon + ([':'] + (p.between + Render(p.tree,
      p.after + if p.next.NoPairs? then ['}'] + k else [','] + RenderPairs(p.next, k)))))
  }

  function Signed(negative: bool, n: int): int {
    if negative then 0 - n else n
  }

  /** The item a text stands for; the double of a number is not read. */
  function Meaning(t: Tree): Json
    requires Valid(t)
  {
    match t
    case NullTree => Null
    case FalseTree => False
    case TrueTree => True
    case NumberTree(negative, n) => Number(Signed(negative, n), 0)
    case StringTree(ps) => Str(PartsOctets(ps))
    case ArrayTree(_, items) => Array(ItemsMeaning(items))
    case ObjectTree(_, pairs) => Object(PairsMeaning(pairs))
  }

  function ItemsMeaning(items: Items): List
    requires ValidItems(items)
  {
    if items.NoItems? then Nil else Cons(Meaning(items.tree), ItemsMeaning(items.next))
  }

  function PairsMeaning(p: Pairs): Members
    requires ValidPairs(p)
  {
    if p.NoPairs? then NoMembers else Member(PartsOctets(p.name), Meaning(p.tree), PairsMeaning(p.next))
  }

  // ---------------------------------------------------------------- strings

  /** A turn of either loop of `parse_string` on the text `t` of a part that stands for `octets`. */
  predicate OneTurn(t: string, octets: string, k: string) {
    && t != [] && t[0] != '"' && Piece(t) == Parsed(octets, k)
    && (Count(k).Parsed? ==> Count(t).Parsed? && Count(t).value >= Count(k).value + |octets| && Count(t).rest == Count(k).rest)
  }

  lemma PlainRead(c: char, k: string)
    requires Plainly(c).Valid()
    ensures OneTurn([c] + k, [c], k)
  {
    assert ([c] + k)[1..] == k;
  }

  lemma ShortRead(c: char, k: string)
    requires Shortly(c).Valid()
    ensures OneTurn(['\\', c] + k, Shortly(c).Octets(), k)
  {
    var t := ['\\', c] + k;
    assert t[1..] == [c] + k && t[1..][1..] == k && t[2..] == k;
    hide ParseU;
  }

  /** How the two loops start an escape. */
  lemma EscapeTurn(d: string, n: Outcome<nat>)
    requires n == Count(d)
    ensures var t := ['\\', 'u'] + d;
      && t == ['\\'] + (['u'] + d) && Piece(t) == ParseU(['u'] + d)
      && (n.Parsed? ==> Count(t) == Parsed(1 + n.value, n.rest))
  {
    var t := ['\\', 'u'] + d;
    assert t[1..] == ['u'] + d && t[2..] == d;
    hide ParseU;
  }

  lemma CodeRead(uc: nat, upper: seq<bool>, k: string)
    requires Code(uc, upper).Valid()
    ensures OneTurn(Code(uc, upper).Text(k), Utf8(uc), k)
  {
    var d := FourOf(uc, upper) + k;
    var t := ['\\'] + (['u'] + d);
    EscapeIs(uc, upper, k);
    CountFour(uc, upper, k);
    EscapeTurn(d, Count(d));
    hide Hex4, FourOf, Utf8, ParseU, Count;
  }

  lemma PairRead(uc: nat, high: seq<bool>, low: seq<bool>, k: string)
    requires Pair(uc, high, low).Valid()
    ensures OneTurn(Pair(uc, high, low).Text(k), Utf8(uc), k)
  {
    var e := FourOf(LowHalf(uc), low) + k;
    var f := ['\\', 'u'] + e;
    var d := FourOf(HighHalf(uc), high) + f;
    var t := ['\\'] + (['u'] + d);
    PairIs(uc, high, low, k);
    CountFour(HighHalf(uc), high, f);
    CountFour(LowHalf(uc), low, k);
    EscapeTurn(e, Count(e));
    EscapeTurn(d, Count(d));
    hide Hex4, FourOf, Utf8, ParseU, HighHalf, LowHalf, Count;
  }

  /** One part is read by one turn of either loop. */
  lemma PartRead(p: Part, k: string)
    requires p.Valid()
    ensures OneTurn(p.Text(k), p.Octets(), k)
  {
    hide OneTurn;
    match p
    case Plainly(c) => PlainRead(c, k);
    case Shortly(c) => ShortRead(c, k);
    case Code(uc, upper) => CodeRead(uc, upper, k);
    case Pair(uc, high, low) => PairRead(uc, high, low, k);
  }

  /** Four digits count four. */
  lemma CountFour(n: nat, upper: seq<bool>, k: string)
    requires n < 0x1_0000 && |upper| == 4
    ensures var s := FourOf(n, upper);
      Count(k).Parsed? ==> Count(s + k).Parsed? && Count(s + k).value == 4 + Count(k).value && Count(s + k).rest == Count(k).rest
  {
    var s := FourOf(n, upper) + k;
    assert s[4..] == k;
    PlainDigits(n, upper);
    CountRun(s, 4);
    hide FourOf;
  }

  lemma PlainDigits(n: nat, upper: seq<bool>)
    requires n < 0x1_0000 && |upper| == 4
    ensures forall i :: 0 <= i < 4 ==> FourOf(n, upper)[i] != '"' && FourOf(n, upper)[i] != '\\'
  {
    PlainDigit(n / 4096, upper[0]);
    PlainDigit(n / 256 % 16, upper[1]);
    PlainDigit(n / 16 % 16, upper[2]);
    PlainDigit(n % 16, upper[3]);
    hide DigitOf;
  }

  lemma PlainDigit(d: nat, upper: bool)
    requires d < 16
    ensures DigitOf(d, upper) != '"' && DigitOf(d, upper) != '\\'
  {
  }

  lemma {:induction false} CountRun(t: string, n: nat)
    requires n <= |t| && forall i :: 0 <= i < n ==> t[i] != '"' && t[i] != '\\'
    ensures Count(t[n..]).Parsed? ==>
      Count(t).Parsed? && Count(t).value == n + Count(t[n..]).value && Count(t).rest == Count(t[n..]).rest
  {
    if n > 0 {
      CountRun(t[1..], n - 1);
      assert t[1..][n - 1..] == t[n..];
    } else {
      assert t[0..] == t;
    }
  }

  lemma {:induction false} PartsRead(ps: seq<Part>, k: string)
    requires ValidParts(ps)
    ensures var t := PartsText(ps, ['"'] + k);
      && Unquote(t) == Parsed(PartsOctets(ps), k)
      && Count(t).Parsed? && Count(t).value >= |PartsOctets(ps)|
  {
    if ps == [] {
      assert (['"'] + k)[1..] == k;
    } else {
      hide Piece, Unquote, Count, Part.Text, Part.Octets;
      PartsRead(ps[1..], k);
      PartRead(ps[0], PartsText(ps[1..], ['"'] + k));
      UnquoteTurn(PartsText(ps, ['"'] + k));
    }
  }

  /** A string is read as the octets of its parts. */
  lemma StringRead(ps: seq<Part>, k: string)
    requires ValidParts(ps)
    ensures ParseString(StringText(ps, k)) == Parsed(PartsOctets(ps), k)
  {
    PartsRead(ps, k);
    assert StringText(ps, k)[1..] == PartsText(ps, ['"'] + k);
    hide Unquote, Count, PartsText, PartsOctets;
  }

  // ---------------------------------------------------------------- white space and values

  lemma {:induction false} SkipWhite(w: string, k: string)
    requires White(w)
    ensures Skip(w + k) == Skip(k)
  {
    if w == [] {
      assert w + k == k;
    } else {
      SkipWhite(w[1..], k);
      assert (w + k)[1..] == w[1..] + k;
    }
  }

  /** No text of a value starts with white space or a bracket or brace that closes. */
  lemma RenderStarts(t: Tree, k: string)
    requires Valid(t)
    ensures var s := Render(t, k); s != [] && s[0] as int > 32 && s[0] != ']' && s[0] != '}' && Skip(s) == s
  {
    if t.NumberTree? {
      DecimalStarts(t.n, k);
    }
  }

  lemma NumberRead(negative: bool, n: nat, k: string)
    requires NoDigit(k) && n <= 0x7fff_ffff
    ensures var s := if negative then ['-'] + Decimal(n, k) else Decimal(n, k);
      ParseValue(s) == Parsed(Number(Signed(negative, n), 0), k)
  {
    var d := Decimal(n, k);
    var s := if negative then ['-'] + d else d;
    DecimalStarts(n, k);
    DigitsOfDecimal(n, k);
    ZeroDigits(n, k);
    NotAWord(s);
    assert negative ==> s[1..] == d;
    hide Decimal, Digits, Starts;
  }

  lemma ZeroDigits(n: nat, k: string)
    requires NoDigit(k)
    ensures n == 0 ==> Decimal(n, k)[1..] == k && Decimal(n, k)[0] == '0'
    ensures Digits(n, k) == Parsed(n, k)
  {
  }

  /** What follows a value in an array or an object starts with no digit. */
  lemma AfterNoDigit(after: string, c: char, k: string)
    requires White(after) && !Digit(c)
    ensures NoDigit(after + ([c] + k))
  {
  }

  /** Every text of the grammar is parsed as what it means, and the parser stops where it ends. */
  lemma {:induction false} TreeRead(t: Tree, k: string)
    requires Valid(t) && NoDigit(k)
    ensures ParseValue(Render(t, k)) == Parsed(Meaning(t), k)
    decreases t, 0
  {
    hide ParseList, ParseMembers, ParseString, Skip, RenderItems, RenderPairs, StringText, Decimal;
    match t
    case NullTree => WordBack(k);
    case FalseTree => WordBack(k);
    case TrueTree => WordBack(k);
    case NumberTree(negative, n) => NumberRead(negative, n, k);
    case StringTree(ps) =>
      StringRead(ps, k);
      StringOpens(ps, k);
      StringIsValue(StringText(ps, k), PartsOctets(ps), k);
    case ArrayTree(w, items) =>
      var inside := if items.NoItems? then w + ([']'] + k) else RenderItems(items, k);
      if items.NoItems? {
        SkipWhite(w, [']'] + k);
        Front(']', k);
      } else {
        ItemsRead(items, k);
      }
      ArrayIsValue(inside, ItemsMeaning(items), k);
    case ObjectTree(w, pairs) =>
      var inside := if pairs.NoPairs? then w + (['}'] + k) else RenderPairs(pairs, k);
      if pairs.NoPairs? {
        SkipWhite(w, ['}'] + k);
        Front('}', k);
      } else {
        PairsRead(pairs, k);
        MembersSkip(inside);
      }
      ObjectValueBack(inside, PairsMeaning(pairs), k);
  }

  lemma StringIsValue(s: string, octets: string, k: string)
    requires s != [] && s[0] == '"' && ParseString(s) == Parsed(octets, k)
    ensures ParseValue(s) == Parsed(Str(octets), k)
  {
    NotAWord(s);
    hide ParseString, Starts;
  }

  lemma ArrayIsValue(inside: string, l: List, k: string)
    requires if l.Nil? then Skip(inside) == [']'] + k
             else Skip(inside) != [] && Skip(inside)[0] != ']' && ParseList(inside) == Parsed(l, k)
    ensures ParseValue(['['] + inside) == Parsed(Array(l), k)
  {
    var s := ['['] + inside;
    assert s[1..] == inside;
    ListSkips(inside);
    hide ParseList, Skip, Starts;
    NotAWord(s);
    if l.Nil? {
      assert ([']'] + k)[1..] == k;
    }
  }

  /** An element, and what follows it: a bracket, or a comma and more. */
  lemma ListElement(s: string, v: Json, after: string, more: Option<(string, List)>, k: string)
    requires ParseValue(Skip(s)) == Parsed(v, after)
    requires match more
             case None => Skip(after) == [']'] + k
             case Some(m) => Skip(after) == [','] + m.0 && ParseList(m.0) == Parsed(m.1, k)
    ensures ParseList(s) == Parsed(Cons(v, if more.None? then Nil else more.value.1), k)
  {
    if more.None? {
      Front(']', k);
    } else {
      Front(',', more.value.0);
    }
    hide ParseValue, Skip;
  }

  /** The elements of an array, from the white space before the first on. */
  lemma {:induction false} ItemsRead(items: Items, k: string)
    requires ValidItems(items) && items.Item?
    ensures var s := RenderItems(items, k);
      Skip(s) != [] && Skip(s)[0] != ']' && ParseList(s) == Parsed(ItemsMeaning(items), k)
    decreases items, 1
  {
    hide ParseValue, ParseList, Skip, Render;
    var rest := if items.next.NoItems? then [] else RenderItems(items.next, k);
    var more := if items.next.NoItems? then [']'] + k else [','] + rest;
    var after := items.after + more;
    AfterNoDigit(items.after, if items.next.NoItems? then ']' else ',', if items.next.NoItems? then k else rest);
    TreeRead(items.tree, after);
    RenderStarts(items.tree, after);
    SkipWhite(items.before, Render(items.tree, after));
    SkipWhite(items.after, more);
    if items.next.NoItems? {
      Front(']', k);
      ListElement(RenderItems(items, k), Meaning(items.tree), after, None, k);
    } else {
      ItemsRead(items.next, k);
      Front(',', rest);
      ListElement(RenderItems(items, k), Meaning(items.tree), after, Some((rest, ItemsMeaning(items.next))), k);
    }
  }

  /** A member, and what follows it: a brace, or a comma and more. */
  lemma MemberElement(s: string, name: string, a: string, b: string, v: Json, after: string,
                      more: Option<(string, Members)>, k: string)
    requires ParseString(Skip(s)) == Parsed(name, a) && Skip(a) == [':'] + b
    requires ParseValue(Skip(b)) == Parsed(v, after)
    requires match more
             case None => Skip(after) == ['}'] + k
             case Some(m) => Skip(after) == [','] + m.0 && ParseMembers(m.0) == Parsed(m.1, k)
    ensures ParseMembers(s) == Parsed(Member(name, v, if more.None? then NoMembers else more.value.1), k)
  {
    Front(':', b);
    if more.None? {
      Front('}', k);
    } else {
      Front(',', more.value.0);
    }
    hide ParseValue, ParseString, Skip;
  }

  /** The members of an object, from the white space before the first on. */
  lemma {:induction false} PairsRead(p: Pairs, k: string)
    requires ValidPairs(p) && p.NamedTree?
    ensures var s := RenderPairs(p, k);
      Skip(s) != [] && Skip(s)[0] != '}' && ParseMembers(s) == Parsed(PairsMeaning(p), k)
    decreases p, 1
  {
    hide ParseValue, ParseMembers, ParseString, Skip, Render, PartsText, PartsOctets;
    var rest := if p.next.NoPairs? then [] else RenderPairs(p.next, k);
    var more := if p.next.NoPairs? then ['}'] + k else [','] + rest;
    var after := p.after + more;
    var b := p.between + Render(p.tree, after);
    var a := p.colon + ([':'] + b);
    AfterNoDigit(p.after, if p.next.NoPairs? then '}' else ',', if p.next.NoPairs? then k else rest);
    TreeRead(p.tree, after);
    RenderStarts(p.tree, after);
    StringRead(p.name, a);
    SkipQuote(p.before, p.name, a);
    SkipWhite(p.colon, [':'] + b);
    Front(':', b);
    SkipWhite(p.between, Render(p.tree, after));
    SkipWhite(p.after, more);
    if p.next.NoPairs? {
      Front('}', k);
      MemberElement(RenderPairs(p, k), PartsOctets(p.name), a, b, Meaning(p.tree), after, None, k);
    } else {
      PairsRead(p.next, k);
      Front(',', rest);
      MemberElement(RenderPairs(p, k), PartsOctets(p.name), a, b, Meaning(p.tree), after,
                    Some((rest, PairsMeaning(p.next))), k);
    }
  }

  lemma StringOpens(ps: seq<Part>, k: string)
    requires ValidParts(ps)
    ensures StringText(ps, k) != [] && StringText(ps, k)[0] == '"'
  {
  }

  lemma SkipQuote(w: string, ps: seq<Part>, k: string)
    requires White(w) && ValidParts(ps)
    ensures Skip(w + StringText(ps, k)) == StringText(ps, k) && StringText(ps, k)[0] == '"'
  {
    SkipWhite(w, StringText(ps, k));
    Front('"', PartsText(ps, ['"'] + k));
  }

  /** `cJSON_Parse` on any text of the grammar, with white space around it. */
  lemma TextRead(before: string, t: Tree, after: string, requireEnd: bool)
    requires White(before) && Valid(t) && White(after)
    ensures Parse(before + Render(t, after), requireEnd) == Parsed(Meaning(t), if requireEnd then [] else after)
  {
    RenderStarts(t, after);
    SkipWhite(before, Render(t, after));
    TreeRead(t, after);
    SkipWhite(after, []);
    assert after + [] == after;
    hide ParseValue, Render, Skip;
  }
}
