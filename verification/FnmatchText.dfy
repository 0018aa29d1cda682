/** How patterns are written (POSIX 1003.2-1992, section 2.13), what fnmatch.c reads in them, and
    what FNM_PATHNAME asks of a string. */
module FnmatchText {
  import opened FnmatchGlob

  // ---------------------------------------------------------------- texts

  /** A character, or a backslash and a character. */
  datatype Spelled = Spelled(c: char, quoted: bool) {
    function Text(k: string): string {
      (if quoted then ['\\', c] else [c]) + k
    }

    /** `esc` allows quoting. A backslash alone is then none. */
    predicate Valid(esc: bool) {
      if quoted then esc else esc ==> c != '\\'
    }

    predicate Is(d: char) {
      !quoted && c == d
    }
  }

  datatype Member = One(lo: Spelled) | Span(lo: Spelled, hi: Spelled) {
    function Text(k: string): string {
      if One? then lo.Text(k) else lo.Text(['-'] + hi.Text(k))
    }

    /** A slash is quoted in a set, and a closing bracket quoted or the first. */
    predicate Valid(first: bool, esc: bool) {
      && lo.Valid(esc) && !lo.Is('/') && (lo.Is(']') ==> first)
      && (Span? ==> hi.Valid(esc) && !hi.Is(']'))
    }

    function Chars(): Range {
      Range(lo.c, if One? then lo.c else hi.c)
    }
  }

  /** A minus is quoted in a set, except first, after a span, or before the closing bracket. */
  predicate ValidMembers(ms: seq<Member>, first: bool, closes: bool, esc: bool) {
    ms != [] ==>
      && ms[0].Valid(first, esc) && ValidMembers(ms[1..], false, closes, esc)
      && (ms[0].One? && |ms| > 1 && ms[1].lo.Is('-') ==> closes && |ms| == 2 && ms[1].One?)
  }

  function MembersText(ms: seq<Member>, k: string): string {
    if ms == [] then k else ms[0].Text(MembersText(ms[1..], k))
  }

  function MembersRanges(ms: seq<Member>): seq<Range> {
    if ms == [] then [] else [ms[0].Chars()] + MembersRanges(ms[1..])
  }

  /** The sign that negates a set: one of two, or none. */
  datatype Sign = NoSign | Bang | Circumflex {
    function Text(): string {
      match this
      case NoSign => []
      case Bang => ['!']
      case Circumflex => ['^']
    }
  }

  datatype Item = Letter(x: Spelled) | Question | Asterisk | Set(sign: Sign, members: seq<Member>) {
    predicate Valid(esc: bool) {
      match this
      case Letter(x) => x.Valid(esc) && !x.Is('?') && !x.Is('*') && !x.Is('[')
      case Set(sign, ms) => ms != [] && ValidMembers(ms, true, true, esc) && Signed(sign, ms)
      case _ => true
    }

    function Text(k: string): string {
      match this
      case Letter(x) => x.Text(k)
      case Question => ['?'] + k
      case Asterisk => ['*'] + k
      case Set(sign, ms) => ['['] + (sign.Text() + MembersText(ms, [']'] + k))
    }

    function Glob(rest: Glob): Glob {
      match this
      case Letter(x) => Lit(x.c, x.quoted, rest)
      case Question => Any(rest)
      case Asterisk => Star(rest)
      case Set(sign, ms) => OneOf(!sign.NoSign?, MembersRanges(ms), rest)
    }
  }

  /** Without a sign, the first character is none. */
  predicate Signed(sign: Sign, ms: seq<Member>) {
    ms != [] && (sign.NoSign? ==> !ms[0].lo.Is('!') && !ms[0].lo.Is('^'))
  }

  predicate ValidItems(items: seq<Item>, esc: bool) {
    forall i :: 0 <= i < |items| ==> items[i].Valid(esc)
  }

  function PatternText(items: seq<Item>, k: string): string {
    if items == [] then k else items[0].Text(PatternText(items[1..], k))
  }

  function PatternGlob(items: seq<Item>, g: Glob): Glob {
    if items == [] then g else items[0].Glob(PatternGlob(items[1..], g))
  }

  // ---------------------------------------------------------------- sets

  lemma UnquoteSpelled(x: Spelled, k: string, esc: bool)
    requires x.Valid(esc)
    ensures Unquote(x.Text(k), esc) == Quoted(x.c, k)
    ensures x.Text(k) != [] && (x.Text(k)[0] == if x.quoted then '\\' else x.c)
  {
    assert x.quoted ==> x.Text(k)[2..] == k;
    assert !x.quoted ==> x.Text(k)[1..] == k;
  }

  /** Ranges before what the rest of a bracket gives. */
  function PutAll(rs: seq<Range>, b: Bracket): Bracket {
    if b.Closed? then b.(ranges := rs + b.ranges) else b
  }

  lemma OneRead(m: Member, k: string, first: bool, esc: bool)
    requires m.One? && m.Valid(first, esc) && (|k| > 1 && k[0] == '-' ==> k[1] == ']')
    ensures Ranges(m.Text(k), first, esc) == Put(m.Chars(), Ranges(k, false, esc))
  {
    UnquoteSpelled(m.lo, k, esc);
    hide Unquote, Put, Spelled.Text;
  }

  lemma SpanRead(m: Member, k: string, first: bool, esc: bool)
    requires m.Span? && m.Valid(first, esc)
    ensures Ranges(m.Text(k), first, esc) == Put(m.Chars(), Ranges(k, false, esc))
  {
    var q := ['-'] + m.hi.Text(k);
    UnquoteSpelled(m.lo, q, esc);
    UnquoteSpelled(m.hi, k, esc);
    assert q[1..] == m.hi.Text(k) && q[1] == m.hi.Text(k)[0];
    hide Unquote, Put, Spelled.Text;
  }

  /** Whatever ends them, members are read one by one. */
  lemma {:induction false} MembersRead(ms: seq<Member>, k: string, first: bool, esc: bool)
    requires ValidMembers(ms, first, k != [] && k[0] == ']', esc) && (k != [] ==> k[0] != '-') && (first ==> ms != [])
    ensures Ranges(MembersText(ms, k), first, esc) == PutAll(MembersRanges(ms), Ranges(k, false, esc))
    decreases |ms|
  {
    if ms == [] {
      hide Ranges;
    } else {
      var t := MembersText(ms[1..], k);
      MembersRead(ms[1..], k, false, esc);
      MembersStart(ms[1..], k);
      hide Ranges, MembersText, Member.Valid;
      assert MembersText(ms, k) == ms[0].Text(t) by {
        MembersUnfold(ms, k);
      }
      if ms[0].One? {
        OneRead(ms[0], t, first, esc);
      } else {
        SpanRead(ms[0], t, first, esc);
      }
      PutOnto(ms[0].Chars(), MembersRanges(ms[1..]), Ranges(k, false, esc));
    }
  }

  lemma MembersUnfold(ms: seq<Member>, k: string)
    requires ms != []
    ensures MembersText(ms, k) == ms[0].Text(MembersText(ms[1..], k))
  {
  }

  lemma PutOnto(r: Range, rs: seq<Range>, b: Bracket)
    ensures Put(r, PutAll(rs, b)) == PutAll([r] + rs, b)
  {
    if b.Closed? {
      assert [r] + (rs + b.ranges) == [r] + rs + b.ranges;
    }
  }

  /** The first character of members, and what follows a minus alone. */
  lemma MembersStart(ms: seq<Member>, k: string)
    ensures ms != [] ==> MembersText(ms, k) != [] && (MembersText(ms, k)[0] == if ms[0].lo.quoted then '\\' else ms[0].lo.c)
    ensures |ms| == 1 && ms[0] == One(Spelled('-', false)) ==> MembersText(ms, k) == ['-'] + k
    ensures ms == [] ==> MembersText(ms, k) == k
  {
  }

  lemma BracketRead(sign: Sign, ms: seq<Member>, k: string, esc: bool)
    requires ms != [] && ValidMembers(ms, true, k != [] && k[0] == ']', esc) && Signed(sign, ms)
    requires k != [] ==> k[0] != '-'
    ensures var t := sign.Text() + MembersText(ms, k);
      Negated(t) == !sign.NoSign? && BracketAt(t, esc) == PutAll(MembersRanges(ms), Ranges(k, false, esc))
  {
    var m := MembersText(ms, k);
    MembersRead(ms, k, true, esc);
    MembersStart(ms, k);
    assert sign.NoSign? ==> sign.Text() + m == m;
    assert !sign.NoSign? ==> (sign.Text() + m)[1..] == m;
    hide MembersText, MembersRanges, Ranges, ValidMembers, PutAll;
  }

  /** A bracket is the set its members say, whichever sign negates it. */
  lemma SetRead(sign: Sign, ms: seq<Member>, k: string, esc: bool)
    requires Set(sign, ms).Valid(esc)
    ensures var t := sign.Text() + MembersText(ms, [']'] + k);
      Negated(t) == !sign.NoSign? && BracketAt(t, esc) == Closed(MembersRanges(ms), k)
  {
    var e := [']'] + k;
    assert e[1..] == k && MembersRanges(ms) + [] == MembersRanges(ms) && Ranges(e, false, esc) == Closed([], k);
    hide MembersText, MembersRanges, Ranges, ValidMembers, BracketAt, Negated;
    BracketRead(sign, ms, e, esc);
  }

  /** A bracket that no bracket closes matches nothing, and one with a slash inside is a character. */
  lemma NoSetRead(sign: Sign, ms: seq<Member>, k: string, esc: bool)
    requires ms != [] && ValidMembers(ms, true, false, esc) && Signed(sign, ms) && (k != [] ==> k[0] == '/')
    ensures var t := sign.Text() + MembersText(ms, k);
      Parse(['['] + t, esc) == if k == [] then Never else Lit('[', false, Parse(t, esc))
  {
    var t := sign.Text() + MembersText(ms, k);
    assert Ranges(k, false, esc) == if k == [] then Open else Slash;
    OpeningBracket(t, esc);
    hide MembersText, MembersRanges, Ranges, ValidMembers, BracketAt, Negated, Parse;
    BracketRead(sign, ms, k, esc);
  }

  lemma OpeningBracket(t: string, esc: bool)
    ensures BracketAt(t, esc).Open? ==> Parse(['['] + t, esc) == Never
    ensures BracketAt(t, esc).Slash? ==> Parse(['['] + t, esc) == Lit('[', false, Parse(t, esc))
  {
    assert (['['] + t)[1..] == t;
    hide BracketAt, Negated;
  }

  // ---------------------------------------------------------------- patterns

  lemma ItemRead(item: Item, k: string, esc: bool)
    requires item.Valid(esc)
    ensures Parse(item.Text(k), esc) == item.Glob(Parse(k, esc))
  {
    var t := item.Text(k);
    match item
    case Letter(x) =>
      assert !x.quoted ==> t[1..] == k;
      assert x.quoted ==> t[2..] == k;
    case Question => assert t[1..] == k;
    case Asterisk => assert t[1..] == k;
    case Set(sign, ms) =>
      SetRead(sign, ms, k, esc);
      assert t[1..] == sign.Text() + MembersText(ms, [']'] + k);
      hide MembersText, BracketAt, Negated, Sign.Text, ValidMembers;
  }

  /** Every pattern is read as what is written. */
  lemma {:induction false} PatternRead(items: seq<Item>, k: string, esc: bool)
    requires ValidItems(items, esc)
    ensures Parse(PatternText(items, k), esc) == PatternGlob(items, Parse(k, esc))
  {
    if items != [] {
      PatternRead(items[1..], k, esc);
      ItemRead(items[0], PatternText(items[1..], k), esc);
      hide Parse, Item.Text, Item.Glob, Item.Valid;
    }
  }

  /** A backslash at the end, where it may quote. */
  lemma BackslashEnd(items: seq<Item>)
    requires ValidItems(items, true)
    ensures Parse(PatternText(items, ['\\']), true) == PatternGlob(items, Dangling)
  {
    PatternRead(items, ['\\'], true);
  }

  // ---------------------------------------------------------------- paths

  /** The glob has a slash of its own. */
  predicate HasSlash(g: Glob) {
    match g
    case Lit(c, _, rest) => c == '/' || HasSlash(rest)
    case Any(rest) => HasSlash(rest)
    case Star(rest) => HasSlash(rest)
    case OneOf(_, _, rest) => HasSlash(rest)
    case _ => false
  }

  /** The glob before its first slash, and the one behind. */
  function Front(g: Glob): Glob
    requires HasSlash(g)
  {
    match g
    case Lit(c, quoted, rest) => if c == '/' then End else Lit(c, quoted, Front(rest))
    case Any(rest) => Any(Front(rest))
    case Star(rest) => Star(Front(rest))
    case OneOf(negate, ranges, rest) => OneOf(negate, ranges, Front(rest))
  }

  function Behind(g: Glob): Glob
    requires HasSlash(g)
  {
    match g
    case Lit(c, _, rest) => if c == '/' then rest else Behind(rest)
    case Any(rest) => Behind(rest)
    case Star(rest) => Behind(rest)
    case OneOf(_, _, rest) => Behind(rest)
  }

  /** `n` is where the first slash of `s` is. */
  predicate SlashAt(s: string, n: nat) {
    n < |s| && s[n] == '/' && forall i :: 0 <= i < n ==> s[i] != '/'
  }

  /** The name before the first slash matches the glob before its first slash, by the rules without
      FNM_PATHNAME, and the rest the rest. */
  lemma {:induction false} PathByNames(g: Glob, s: string, n: nat)
    requires HasSlash(g) && SlashAt(s, n)
    ensures Matches(g, s, true) <==> Matches(Front(g), s[..n], false) && Matches(Behind(g), s[n + 1..], true)
    decreases g, |s|
  {
    assert n > 0 ==> s[1..][n..] == s[n + 1..] && s[..n][1..] == s[1..][..n - 1] && s[..n][0] == s[0];
    assert n > 0 ==> SlashAt(s[1..], n - 1);
    match g
    case Lit(c, _, rest) => if n > 0 && c != '/' { PathByNames(rest, s[1..], n - 1); }
    case Any(rest) => if n > 0 { PathByNames(rest, s[1..], n - 1); }
    case OneOf(_, _, rest) => if n > 0 { PathByNames(rest, s[1..], n - 1); }
    case Star(rest) =>
      StarUnfold(rest, s, true);
      StarUnfold(Front(rest), s[..n], false);
      PathByNames(rest, s, n);
      if n > 0 { PathByNames(g, s[1..], n - 1); }
  }

  /** A glob without a slash, or a string without one: the last name of a path. */
  lemma {:induction false} PathLastName(g: Glob, s: string)
    requires !HasSlash(g)
    ensures Matches(g, s, true) <==> '/' !in s && Matches(g, s, false)
    decreases g, |s|
  {
    if s != [] {
      assert s == [s[0]] + s[1..];
    }
    match g
    case Lit(_, _, rest) => if s != [] { PathLastName(rest, s[1..]); }
    case Any(rest) => if s != [] { PathLastName(rest, s[1..]); }
    case OneOf(_, _, rest) => if s != [] { PathLastName(rest, s[1..]); }
    case Star(rest) =>
      StarUnfold(rest, s, true);
      StarUnfold(rest, s, false);
      PathLastName(rest, s);
      if s != [] { PathLastName(g, s[1..]); }
    case _ =>
  }

  /** A path has a slash for each slash of the glob. */
  lemma {:induction false} PathNeedsSlash(g: Glob, s: string)
    requires HasSlash(g) && '/' !in s
    ensures !Matches(g, s, true)
    decreases g, |s|
  {
    match g
    case Lit(_, _, rest) => if s != [] && g.c != '/' { PathNeedsSlash(rest, s[1..]); }
    case Any(rest) => if s != [] { PathNeedsSlash(rest, s[1..]); }
    case OneOf(_, _, rest) => if s != [] { PathNeedsSlash(rest, s[1..]); }
    case Star(rest) =>
      StarUnfold(rest, s, true);
      PathNeedsSlash(rest, s);
      if s != [] { PathNeedsSlash(g, s[1..]); }
  }
}
