/** `cJSON_Minify` on any text with comments, and on the texts of RFC 8259. */
module JsonChunks {
  import opened Common
  import opened JsonGrammar
  import opened JsonMinify
  import opened JsonParse
  import opened JsonRoundTrip
  import opened JsonText
  import opened JsonUnicode

  // ---------------------------------------------------------------- comments, quotations, the rest

  /** A character of a quotation, or a backslash and any character. */
  datatype Mark = Bare(c: char) | Escaped(c: char) {
    predicate Valid() {
      Bare? ==> c != '"' && c != '\\'
    }

    function Text(k: string): string {
      (if Bare? then [c] else ['\\', c]) + k
    }
  }

  function MarksText(marks: seq<Mark>, k: string): string {
    if marks == [] then k else marks[0].Text(MarksText(marks[1..], k))
  }

  /** What a text is made of. */
  datatype Chunk =
    | Space(c: char)
    | LineComment(inside: string)
    | BlockComment(inside: string)
    | Quotation(marks: seq<Mark>)
    | Other(c: char)
  {
    /** `k` is the text that follows. */
    predicate Valid(k: string) {
      match this
      case Space(c) => c in " \t\r\n"
      case LineComment(inside) => '\n' !in inside && (k != [] ==> k[0] == '\n')
      case BlockComment(inside) => NoEnd(['*'] + inside)
      case Quotation(marks) => forall i :: 0 <= i < |marks| ==> marks[i].Valid()
      case Other(c) => c !in " \t\r\n\"" && (c == '/' && k != [] ==> k[0] != '/' && k[0] != '*')
    }

    function Text(k: string): string {
      match this
      case Space(c) => [c] + k
      case LineComment(inside) => "//" + (inside + k)
      case BlockComment(inside) => "/*" + (inside + ("*/" + k))
      case Quotation(marks) => ['"'] + MarksText(marks, ['"'] + k)
      case Other(c) => [c] + k
    }

    /** What of it is no white space and no comment. */
    function Kept(): string {
      match this
      case Quotation(marks) => ['"'] + MarksText(marks, ['"'])
      case Other(c) => [c]
      case _ => []
    }
  }

  /** No star is followed by a slash. The star that opens a comment counts: `/` right behind it ends
      the comment. */
  predicate NoEnd(s: string) {
    forall i :: 0 <= i < |s| - 1 ==> !(s[i] == '*' && s[i + 1] == '/')
  }

  function ChunksText(chunks: seq<Chunk>, k: string): string {
    if chunks == [] then k else chunks[0].Text(ChunksText(chunks[1..], k))
  }

  predicate ValidChunks(chunks: seq<Chunk>, k: string) {
    chunks != [] ==> chunks[0].Valid(ChunksText(chunks[1..], k)) && ValidChunks(chunks[1..], k)
  }

  function ChunksKept(chunks: seq<Chunk>): string {
    if chunks == [] then [] else chunks[0].Kept() + ChunksKept(chunks[1..])
  }

  lemma {:induction false} LineSkipped(inside: string, k: string)
    requires '\n' !in inside && (k != [] ==> k[0] == '\n')
    ensures AfterLine(inside + k) == k
  {
    if inside == [] {
      assert inside + k == k;
    } else {
      assert (inside + k)[1..] == inside[1..] + k;
      LineSkipped(inside[1..], k);
    }
  }

  lemma {:induction false} BlockSkipped(inside: string, k: string)
    requires NoEnd(inside)
    ensures AfterBlock(inside + ("*/" + k)) == Some(k)
  {
    var t := "*/" + k;
    var s := inside + t;
    assert t[0] == '*' && t[1] == '/' && t[2..] == k;
    if inside == [] {
      assert s == t && First(t[1..]) == '/';
    } else {
      assert s[1..] == inside[1..] + t;
      assert First(s[1..]) == if |inside| > 1 then inside[1] else '*';
      assert NoEnd(inside[1..]) by {
        assert forall i :: 0 <= i < |inside| - 2 ==> inside[1..][i] == inside[i + 1];
      }
      BlockSkipped(inside[1..], k);
    }
  }

  lemma {:induction false} MarksKept(marks: seq<Mark>, k: string)
    requires forall i :: 0 <= i < |marks| ==> marks[i].Valid()
    ensures Literal(MarksText(marks, ['"'] + k)) == Some(Passed(MarksText(marks, ['"']), k))
  {
    if marks == [] {
      assert (['"'] + k)[1..] == k && (['"'] + k)[..1] == ['"'];
    } else {
      MarksKept(marks[1..], k);
      if marks[0].Bare? {
        LiteralOne(marks[0].c, MarksText(marks[1..], ['"'] + k));
      } else {
        LiteralPair(marks[0].c, MarksText(marks[1..], ['"'] + k));
      }
      hide Literal;
    }
  }

  lemma QuotationKept(t: string, lit: string, k: string)
    requires Literal(t) == Some(Passed(lit, k))
    ensures Minified(['"'] + t) == Prepend(['"'] + lit, Minified(k))
  {
    assert (['"'] + t)[1..] == t && (['"'] + t)[..1] == ['"'];
  }

  /** One chunk, before any text. */
  lemma ChunkMinified(chunk: Chunk, k: string)
    requires chunk.Valid(k)
    ensures Minified(chunk.Text(k)) == Prepend(chunk.Kept(), Minified(k))
  {
    NothingBefore(Minified(k));
    match chunk
    case Space(c) => MinifyWhite(c, k);
    case LineComment(inside) =>
      var s := "//" + (inside + k);
      assert s[1..] == ['/'] + (inside + k) && (['/'] + inside) + k == s[1..];
      LineSkipped(['/'] + inside, k);
      CommentGone(s);
    case BlockComment(inside) =>
      var s := "/*" + (inside + ("*/" + k));
      assert s[1..] == (['*'] + inside) + ("*/" + k);
      BlockSkipped(['*'] + inside, k);
      CommentGone(s);
    case Quotation(marks) =>
      MarksKept(marks, k);
      QuotationKept(MarksText(marks, ['"'] + k), MarksText(marks, ['"']), k);
    case Other(c) => OtherKept(c, k);
  }

  lemma NothingBefore(b: Option<string>)
    ensures Prepend([], b) == b
  {
    if b.Some? {
      assert [] + b.value == b.value;
    }
  }

  lemma CommentGone(s: string)
    requires |s| >= 2 && s[0] == '/'
    ensures s[1] == '/' ==> Minified(s) == Minified(AfterLine(s[1..]))
    ensures s[1] == '*' ==> AfterBlock(s) == AfterBlock(s[1..])
    ensures s[1] == '*' && AfterBlock(s[1..]).Some? ==> Minified(s) == Minified(AfterBlock(s[1..]).value)
  {
  }

  lemma OtherKept(c: char, k: string)
    requires c !in " \t\r\n\"" && (c == '/' && k != [] ==> k[0] != '/' && k[0] != '*')
    ensures Minified([c] + k) == Prepend([c], Minified(k))
  {
    assert ([c] + k)[1..] == k && ([c] + k)[..1] == [c];
  }

  /** Comments and white space go, everything else stays as it is and where it is. */
  lemma {:induction false} ChunksMinified(chunks: seq<Chunk>)
    requires ValidChunks(chunks, [])
    ensures Minified(ChunksText(chunks, [])) == Some(ChunksKept(chunks))
    decreases |chunks|
  {
    if chunks != [] {
      ChunksMinified(chunks[1..]);
      ChunkMinified(chunks[0], ChunksText(chunks[1..], []));
      hide Minified, Chunk.Text, Chunk.Kept, Chunk.Valid;
    }
  }

  // ---------------------------------------------------------------- texts of RFC 8259

  /** The same value without white space. */
  function Tight(t: Tree): Tree {
    match t
    case ArrayTree(_, items) => ArrayTree([], TightItems(items))
    case ObjectTree(_, pairs) => ObjectTree([], TightPairs(pairs))
    case _ => t
  }

  function TightItems(items: Items): Items {
    if items.NoItems? then NoItems else Item([], Tight(items.tree), [], TightItems(items.next))
  }

  function TightPairs(p: Pairs): Pairs {
    if p.NoPairs? then NoPairs else NamedTree([], p.name, [], [], Tight(p.tree), [], TightPairs(p.next))
  }

  lemma {:induction false} TightMeans(t: Tree)
    requires Valid(t)
    ensures Valid(Tight(t)) && Meaning(Tight(t)) == Meaning(t)
    decreases t, 1
  {
    match t
    case ArrayTree(_, items) => TightItemsMean(items);
    case ObjectTree(_, pairs) => TightPairsMean(pairs);
    case _ =>
  }

  lemma {:induction false} TightItemsMean(items: Items)
    requires ValidItems(items)
    ensures ValidItems(TightItems(items)) && ItemsMeaning(TightItems(items)) == ItemsMeaning(items)
    ensures items.Item? <==> TightItems(items).Item?
    decreases items, 0
  {
    if items.Item? {
      TightMeans(items.tree);
      TightItemsMean(items.next);
    }
  }

  lemma {:induction false} TightPairsMean(p: Pairs)
    requires ValidPairs(p)
    ensures ValidPairs(TightPairs(p)) && PairsMeaning(TightPairs(p)) == PairsMeaning(p)
    ensures p.NamedTree? <==> TightPairs(p).NamedTree?
    decreases p, 0
  {
    if p.NamedTree? {
      TightMeans(p.tree);
      TightPairsMean(p.next);
    }
  }

  lemma {:induction false} SpaceGone(w: string, k: string)
    requires JsonGrammar.White(w)
    ensures Minified(w + k) == Minified(k)
  {
    if w == [] {
      assert w + k == k;
    } else {
      SpaceGone(w[1..], k);
      assert w + k == [w[0]] + (w[1..] + k);
      MinifyWhite(w[0], w[1..] + k);
    }
  }

  lemma PartKept(p: Part, k: string)
    requires p.Valid() && Literal(k).Some?
    ensures Literal(p.Text(k)) == Some(Passed(p.Text(Literal(k).value.value), Literal(k).value.rest))
  {
    match p
    case Plainly(c) => LiteralOne(c, k);
    case Shortly(c) => LiteralPair(c, k);
    case Code(uc, upper) => CodeKept(FourOf(uc, upper), uc, upper, k);
    case Pair(uc, high, low) => PairKept(HighHalf(uc), high, LowHalf(uc), low, k);
  }

  lemma PairKept(n: nat, high: seq<bool>, n': nat, low: seq<bool>, k: string)
    requires n < 0x1_0000 && n' < 0x1_0000 && |high| == |low| == 4 && Literal(k).Some?
    ensures Literal(['\\'] + (['u'] + (FourOf(n, high) + (['\\', 'u'] + (FourOf(n', low) + k)))))
         == Some(Passed(['\\'] + (['u'] + (FourOf(n, high) + (['\\', 'u'] + (FourOf(n', low) + Literal(k).value.value)))),
                        Literal(k).value.rest))
  {
    hide *;
    var second, rest := FourOf(n', low) + k, FourOf(n', low) + Literal(k).value.value;
    CodeKept(FourOf(n', low), n', low, k);
    assert ['\\', 'u'] + second == ['\\'] + (['u'] + second);
    assert ['\\', 'u'] + rest == ['\\'] + (['u'] + rest);
    CodeKept(FourOf(n, high), n, high, ['\\', 'u'] + second);
  }

  lemma CodeKept(four: string, n: nat, upper: seq<bool>, k: string)
    requires n < 0x1_0000 && |upper| == 4 && four == FourOf(n, upper) && Literal(k).Some?
    ensures Literal(['\\'] + (['u'] + (four + k)))
         == Some(Passed(['\\'] + (['u'] + (four + Literal(k).value.value)), Literal(k).value.rest))
  {
    var v := Literal(k).value.value;
    PlainDigits(n, upper);
    hide Literal, FourOf;
    LiteralWord(four, k);
    LiteralPair('u', four + k);
    assert ['\\', 'u'] + (four + k) == ['\\'] + (['u'] + (four + k));
    assert ['\\', 'u'] + (four + v) == ['\\'] + (['u'] + (four + v));
  }

  lemma {:induction false} PartsKept(ps: seq<Part>, k: string)
    requires ValidParts(ps)
    ensures Literal(PartsText(ps, ['"'] + k)) == Some(Passed(PartsText(ps, ['"']), k))
  {
    if ps == [] {
      assert (['"'] + k)[1..] == k && (['"'] + k)[..1] == ['"'];
    } else {
      PartsKept(ps[1..], k);
      PartKept(ps[0], PartsText(ps[1..], ['"'] + k));
      hide Literal, Part.Text;
    }
  }

  lemma PartThen(p: Part, a: string, k: string)
    requires p.Valid()
    ensures p.Text(a + k) == p.Text(a) + k
  {
    match p
    case Plainly(c) => Joined([c], a, k);
    case Shortly(c) => Joined(['\\', c], a, k);
    case Code(uc, upper) => CodeThen(FourOf(uc, upper), a, k);
    case Pair(uc, high, low) =>
      var f, e := FourOf(HighHalf(uc), high), FourOf(LowHalf(uc), low);
      hide FourOf, HighHalf, LowHalf;
      Joined(e, a, k);
      Joined(['\\', 'u'], e + a, k);
      CodeThen(f, ['\\', 'u'] + (e + a), k);
  }

  lemma CodeThen(four: string, a: string, k: string)
    ensures ['\\'] + (['u'] + (four + (a + k))) == ['\\'] + (['u'] + (four + a)) + k
  {
    Joined(four, a, k);
    Joined(['u'], four + a, k);
    Joined(['\\'], ['u'] + (four + a), k);
  }

  lemma {:induction false} PartsThen(ps: seq<Part>, a: string, k: string)
    requires ValidParts(ps)
    ensures PartsText(ps, a + k) == PartsText(ps, a) + k
  {
    if ps != [] {
      PartsThen(ps[1..], a, k);
      PartThen(ps[0], PartsText(ps[1..], a), k);
      hide Part.Text;
    }
  }

  lemma StringKept(ps: seq<Part>, k: string)
    requires ValidParts(ps) && Minified(k).Some?
    ensures Minified(StringText(ps, k)) == Some(StringText(ps, Minified(k).value))
  {
    PartsKept(ps, k);
    hide PartsText, Literal, Minified;
    QuotationKept(PartsText(ps, ['"'] + k), PartsText(ps, ['"']), k);
    PartsThen(ps, ['"'], Minified(k).value);
    Joined(['"'], PartsText(ps, ['"']), Minified(k).value);
  }

  lemma DigitsKept(n: nat, k: string)
    requires Minified(k).Some?
    ensures Minified(Decimal(n, k)) == Some(Decimal(n, Minified(k).value))
  {
    var m := Minified(k).value;
    DecimalCopied(n, []);
    DecimalThen(n, [], k);
    DecimalThen(n, [], m);
    Joined([], k, k);
    Joined([], m, m);
    MinifyWord(Decimal(n, []), k);
    hide Minified, Decimal;
  }

  /** Minifying a text of the grammar takes its white space away, and nothing else. */
  lemma {:induction false} TreeMinified(t: Tree, k: string)
    requires Valid(t) && Minified(k).Some? && Valid(Tight(t))
    ensures Minified(Render(t, k)) == Some(Render(Tight(t), Minified(k).value))
    decreases t, 0
  {
    var m := Minified(k).value;
    hide Minified, StringText, Decimal;
    match t
    case NullTree => MinifyWord("null", k);
    case FalseTree => MinifyWord("false", k);
    case TrueTree => MinifyWord("true", k);
    case NumberTree(negative, n) =>
      DigitsKept(n, k);
      if negative { MinifyCopied('-', Decimal(n, k)); }
    case StringTree(ps) => StringKept(ps, k);
    case ArrayTree(w, items) =>
      if items.NoItems? {
        MinifyCopied(']', k);
        SpaceGone(w, [']'] + k);
        MinifyCopied('[', w + ([']'] + k));
        assert [] + ([']'] + m) == [']'] + m;
      } else {
        ItemsMinified(items, k);
        MinifyCopied('[', RenderItems(items, k));
      }
    case ObjectTree(w, pairs) =>
      if pairs.NoPairs? {
        MinifyCopied('}', k);
        SpaceGone(w, ['}'] + k);
        MinifyCopied('{', w + (['}'] + k));
        assert [] + (['}'] + m) == ['}'] + m;
      } else {
        PairsMinified(pairs, k);
        MinifyCopied('{', RenderPairs(pairs, k));
      }
  }

  lemma {:induction false} ItemsMinified(items: Items, k: string)
    requires ValidItems(items) && items.Item? && Minified(k).Some? && ValidItems(TightItems(items))
    ensures Minified(RenderItems(items, k)) == Some(RenderItems(TightItems(items), Minified(k).value))
    decreases items, 1
  {
    var m := Minified(k).value;
    hide Minified, Render;
    var next := items.next;
    var more := if next.NoItems? then [']'] + k else [','] + RenderItems(next, k);
    if next.NoItems? {
      MinifyCopied(']', k);
    } else {
      ItemsMinified(next, k);
      MinifyCopied(',', RenderItems(next, k));
    }
    SpaceGone(items.after, more);
    TreeMinified(items.tree, items.after + more);
    SpaceGone(items.before, Render(items.tree, items.after + more));
    var tight := if next.NoItems? then [']'] + m else [','] + RenderItems(TightItems(next), m);
    assert [] + tight == tight && [] + Render(Tight(items.tree), tight) == Render(Tight(items.tree), tight);
  }

  lemma {:induction false} PairsMinified(p: Pairs, k: string)
    requires ValidPairs(p) && p.NamedTree? && Minified(k).Some? && ValidPairs(TightPairs(p))
    ensures Minified(RenderPairs(p, k)) == Some(RenderPairs(TightPairs(p), Minified(k).value))
    decreases p, 1
  {
    var m := Minified(k).value;
    hide Minified, Render, StringText;
    var next := p.next;
    var more := if next.NoPairs? then ['}'] + k else [','] + RenderPairs(next, k);
    if next.NoPairs? {
      MinifyCopied('}', k);
    } else {
      PairsMinified(next, k);
      MinifyCopied(',', RenderPairs(next, k));
    }
    var value := Render(p.tree, p.after + more);
    SpaceGone(p.after, more);
    TreeMinified(p.tree, p.after + more);
    SpaceGone(p.between, value);
    MinifyCopied(':', p.between + value);
    SpaceGone(p.colon, [':'] + (p.between + value));
    StringKept(p.name, p.colon + ([':'] + (p.between + value)));
    SpaceGone(p.before, StringText(p.name, p.colon + ([':'] + (p.between + value))));
    var tight := if next.NoPairs? then ['}'] + m else [','] + RenderPairs(TightPairs(next), m);
    TightPair(p.name, Tight(p.tree), tight);
  }

  lemma TightPair(name: seq<Part>, t: Tree, k: string)
    requires ValidParts(name) && Valid(t)
    ensures [] + StringText(name, [] + ([':'] + ([] + Render(t, [] + k)))) == StringText(name, [':'] + Render(t, k))
  {
    assert [] + k == k && [] + Render(t, k) == Render(t, k);
    assert [] + ([':'] + Render(t, k)) == [':'] + Render(t, k);
    hide Render, StringText;
    var s := StringText(name, [':'] + Render(t, k));
    assert [] + s == s;
  }

  /** Minifying keeps what a text means: the parser reads the same value from both. */
  lemma MinifyKeepsMeaning(before: string, t: Tree, after: string)
    requires JsonGrammar.White(before) && Valid(t) && JsonGrammar.White(after)
    ensures Valid(Tight(t)) && Minified(before + Render(t, after)) == Some(Render(Tight(t), []))
    ensures Parse(Render(Tight(t), []), true) == Parse(before + Render(t, after), true) == Parsed(Meaning(t), [])
  {
    TightMeans(t);
    assert Minified([]) == Some([]) && after + [] == after;
    hide Minified, Parse, Render;
    SpaceGone(after, []);
    TreeMinified(t, after);
    SpaceGone(before, Render(t, after));
    TextRead(before, t, after, true);
    TextRead([], Tight(t), [], true);
    assert [] + Render(Tight(t), []) == Render(Tight(t), []);
  }
}
