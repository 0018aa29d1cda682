/** `cJSON_Minify`: what it makes of a text, in place, and of printed values. */
module JsonMinify {
  import opened Common
  import opened JsonParse
  import opened JsonRoundTrip
  import opened JsonText

  // ---------------------------------------------------------------- the result as a function

  /** The text after a comment to the end of the line. */
  function AfterLine(s: string): (r: string)
    ensures |r| <= |s|
  {
    if s == [] || s[0] == '\n' then s else AfterLine(s[1..])
  }

  /** The text after a comment between marks; `None` for a comment that is not closed, where the
      source steps past the end of the text. */
  function AfterBlock(s: string): (r: Option<string>)
    ensures r.Some? ==> |r.value| < |s|
  {
    if s == [] then None
    else if s[0] == '*' && First(s[1..]) == '/' then Some(s[2..])
    else AfterBlock(s[1..])
  }

  /** What is taken over from a text, and the text behind it. */
  datatype Passed = Passed(value: string, rest: string)

  /** Splits off the rest of a string literal with its closing quote, escapes kept as they are;
      `None` for one that is not closed, where the source steps past the end of the text. */
  function Literal(s: string): (r: Option<Passed>)
    ensures r.Some? ==> |r.value.rest| + |r.value.value| == |s| && r.value.value != []
    decreases |s|
  {
    if s == [] then None
    else if s[0] == '"' then Some(Passed(s[..1], s[1..]))
    else if s[0] == '\\' then
      if |s| == 1 then None
      else
        match Literal(s[2..])
        case None => None
        case Some(p) => Some(Passed(s[..2] + p.value, p.rest))
    else
      match Literal(s[1..])
      case None => None
      case Some(p) => Some(Passed(s[..1] + p.value, p.rest))
  }

  predicate White(c: char) {
    c == ' ' || c == '\t' || c == '\r' || c == '\n'
  }

  function Prepend(a: string, b: Option<string>): Option<string> {
    if b.Some? then Some(a + b.value) else None
  }

  function Minified(s: string): (r: Option<string>)
    ensures r.Some? ==> |r.value| <= |s|
    decreases |s|
  {
    if s == [] then Some([])
    else if White(s[0]) then Minified(s[1..])
    else if s[0] == '/' && First(s[1..]) == '/' then
      assert s[0] != '\n';
      Minified(AfterLine(s[1..]))
    else if s[0] == '/' && First(s[1..]) == '*' then
      var t := AfterBlock(s);
      if t.None? then None else Minified(t.value)
    else if s[0] == '"' then
      match Literal(s[1..])
      case None => None
      case Some(p) => Prepend(s[..1] + p.value, Minified(p.rest))
    else Prepend(s[..1], Minified(s[1..]))
  }

  // ---------------------------------------------------------------- printed values

  /** A character that is copied. */
  predicate Copied(c: char) {
    !White(c) && c != '/' && c != '"'
  }

  lemma MinifyCopied(c: char, k: string)
    requires Copied(c)
    ensures Minified([c] + k) == Prepend([c], Minified(k))
  {
    assert ([c] + k)[1..] == k && ([c] + k)[..1] == [c];
  }

  lemma MinifyWhite(c: char, k: string)
    requires White(c)
    ensures Minified([c] + k) == Minified(k)
  {
    assert ([c] + k)[1..] == k;
  }

  lemma MinifyWhen(fmt: bool, c: char, k: string)
    requires White(c)
    ensures Minified(When(fmt, [c], k)) == Minified(k)
  {
    if fmt {
      MinifyWhite(c, k);
    }
  }

  lemma {:induction false} MinifyTabs(n: int, k: string)
    ensures Minified(Tabs(n, k)) == Minified(k)
    decreases n
  {
    if n > 0 {
      MinifyTabs(n - 1, k);
      MinifyWhite('\t', Tabs(n - 1, k));
    }
  }

  /** A word without white space, slashes or quotes. */
  lemma {:induction false} MinifyWord(w: string, k: string)
    requires forall i :: 0 <= i < |w| ==> Copied(w[i])
    ensures Minified(w + k) == Prepend(w, Minified(k))
  {
    if w == [] {
      assert w + k == k;
      if Minified(k).Some? {
        Joined([], [], Minified(k).value);
      }
    } else {
      assert w + k == [w[0]] + (w[1..] + k);
      MinifyCopied(w[0], w[1..] + k);
      MinifyWord(w[1..], k);
      assert w == [w[0]] + w[1..];
      if Minified(k).Some? {
        Joined([w[0]], w[1..], Minified(k).value);
      }
    }
  }

  lemma {:induction false} DecimalCopied(n: nat, a: string)
    requires forall i :: 0 <= i < |a| ==> Copied(a[i])
    ensures forall i :: 0 <= i < |Decimal(n, a)| ==> Copied(Decimal(n, a)[i])
  {
    if n >= 10 {
      DecimalCopied(n / 10, [DigitChar(n % 10)] + a);
    }
  }

  lemma MinifyNumber(n: int, d: int, k: string)
    requires Minified(k).Some?
    ensures Minified(NumberText(n, d, k)) == Some(NumberText(n, d, Minified(k).value))
  {
    var m := Minified(k).value;
    var w := NumberText(n, d, []);
    DecimalCopied(if n < 0 then -n else n, []);
    NumberThen(n, d, [], k);
    NumberThen(n, d, [], m);
    Joined([], k, k);
    Joined([], m, m);
    MinifyWord(w, k);
  }

  lemma EscapeShape(c: char)
    ensures if Plain(c) then Escape(c) == [c] && c != '"' && c != '\\'
            else |Escape(c)| >= 2 && Escape(c)[0] == '\\'
                 && forall i :: 2 <= i < |Escape(c)| ==> Escape(c)[i] != '"' && Escape(c)[i] != '\\'
  {
  }

  lemma LiteralOne(c: char, k: string)
    requires c != '"' && c != '\\' && Literal(k).Some?
    ensures Literal([c] + k) == Some(Passed([c] + Literal(k).value.value, Literal(k).value.rest))
  {
    assert ([c] + k)[1..] == k && ([c] + k)[..1] == [c];
  }

  /** Characters that neither close nor escape. */
  lemma {:induction false} LiteralWord(w: string, k: string)
    requires (forall i :: 0 <= i < |w| ==> w[i] != '"' && w[i] != '\\') && Literal(k).Some?
    ensures Literal(w + k) == Some(Passed(w + Literal(k).value.value, Literal(k).value.rest))
  {
    var v := Literal(k).value.value;
    if w == [] {
      assert w + k == k && w + v == v;
    } else {
      LiteralWord(w[1..], k);
      LiteralOne(w[0], w[1..] + k);
      assert w + k == [w[0]] + (w[1..] + k) && w + v == [w[0]] + (w[1..] + v);
    }
  }

  lemma LiteralPair(b: char, t: string)
    requires Literal(t).Some?
    ensures Literal(['\\', b] + t) == Some(Passed(['\\', b] + Literal(t).value.value, Literal(t).value.rest))
  {
    var s := ['\\', b] + t;
    assert s[2..] == t && s[..2] == ['\\', b];
  }

  lemma LiteralEscape(c: char, k: string)
    requires Literal(k).Some?
    ensures Literal(Escape(c) + k) == Some(Passed(Escape(c) + Literal(k).value.value, Literal(k).value.rest))
  {
    EscapeShape(c);
    hide Escape, Literal;
    if Plain(c) {
      LiteralOne(c, k);
    } else {
      var e := Escape(c);
      LiteralWord(e[2..], k);
      LiteralPair(e[1], e[2..] + k);
      assert e == ['\\', e[1]] + e[2..];
      Joined(['\\', e[1]], e[2..], k);
      Joined(['\\', e[1]], e[2..], Literal(k).value.value);
    }
  }

  /** The inside of a quoted string is kept octet for octet. */
  lemma {:induction false} LiteralEscaped(s: string, k: string)
    ensures Literal(Escaped(s, ['"'] + k)) == Some(Passed(Escaped(s, ['"']), k))
  {
    if s == [] {
      assert (['"'] + k)[1..] == k && (['"'] + k)[..1] == ['"'];
    } else {
      LiteralEscaped(s[1..], k);
      LiteralEscape(s[0], Escaped(s[1..], ['"'] + k));
    }
  }

  lemma MinifyQuoted(s: string, k: string)
    requires Minified(k).Some?
    ensures Minified(Quoted(s, k)) == Some(Quoted(s, Minified(k).value))
  {
    var m := Minified(k).value;
    var q := Quoted(s, k);
    LiteralEscaped(s, k);
    assert q[1..] == Escaped(s, ['"'] + k) && q[..1] == ['"'];
    EscapedThen(s, ['"'], m);
    Joined(['"'], Escaped(s, ['"']), m);
  }

  /** Minifying printed text gives the text printed without formatting. */
  lemma {:induction false} MinifyText(v: Json, depth: nat, fmt: bool, k: string, depth': nat)
    requires Minified(k).Some?
    ensures Minified(Text(v, depth, fmt, k)) == Some(Text(v, depth', false, Minified(k).value))
    decreases v, 0
  {
    var m := Minified(k).value;
    match v
    case Null => MinifyWord("null", k);
    case False => MinifyWord("false", k);
    case True => MinifyWord("true", k);
    case Number(n, d) => MinifyNumber(n, d, k);
    case Str(s) => MinifyQuoted(s, k);
    case Array(l) =>
      MinifyCopied(']', k);
      if l.Cons? {
        MinifyList(l, depth + 1, fmt, [']'] + k, depth' + 1);
        MinifyCopied('[', ListText(l, depth + 1, fmt, [']'] + k));
      } else {
        MinifyCopied('[', [']'] + k);
      }
    case Object(mm) => MinifyObject(mm, depth, fmt, k, depth');
  }

  lemma {:induction false} MinifyObject(mm: Members, depth: nat, fmt: bool, k: string, depth': nat)
    requires Minified(k).Some?
    ensures Minified(Text(Object(mm), depth, fmt, k)) == Some(Text(Object(mm), depth', false, Minified(k).value))
    decreases mm, 2
  {
    hide MembersText, Minified;
    var tabs := if !fmt then 0 else if mm.Member? then depth else depth - 1;
    var end := Tabs(tabs, ['}'] + k);
    MinifyCopied('}', k);
    MinifyTabs(tabs, ['}'] + k);
    var inside := if mm.Member? then MembersText(mm, depth + 1, fmt, end) else end;
    if mm.Member? {
      MinifyMembers(mm, depth + 1, fmt, end, depth' + 1);
    }
    MinifyWhen(fmt, '\n', inside);
    MinifyCopied('{', When(fmt, ['\n'], inside));
  }

  lemma {:induction false} MinifyList(l: List, depth: nat, fmt: bool, k: string, depth': nat)
    requires l.Cons? && Minified(k).Some?
    ensures Minified(ListText(l, depth, fmt, k)) == Some(ListText(l, depth', false, Minified(k).value))
    decreases l, 1
  {
    if l.next.Nil? {
      MinifyText(l.item, depth, fmt, k, depth');
    } else {
      var more := ListText(l.next, depth, fmt, k);
      MinifyList(l.next, depth, fmt, k, depth');
      MinifyWhen(fmt, ' ', more);
      MinifyCopied(',', When(fmt, [' '], more));
      MinifyText(l.item, depth, fmt, [','] + When(fmt, [' '], more), depth');
    }
  }

  lemma {:induction false} MinifyMembers(mm: Members, depth: nat, fmt: bool, k: string, depth': nat)
    requires mm.Member? && Minified(k).Some?
    ensures Minified(MembersText(mm, depth, fmt, k)) == Some(MembersText(mm, depth', false, Minified(k).value))
    decreases mm, 1
  {
    var more := if mm.next.NoMembers? then k else MembersText(mm.next, depth, fmt, k);
    MinifyWhen(fmt, '\n', more);
    if mm.next.Member? {
      MinifyMembers(mm.next, depth, fmt, k, depth');
      MinifyCopied(',', When(fmt, ['\n'], more));
    }
    var after := if mm.next.NoMembers? then When(fmt, ['\n'], k) else [','] + When(fmt, ['\n'], more);
    MinifyText(mm.item, depth, fmt, after, depth');
    var value := Text(mm.item, depth, fmt, after);
    MinifyWhen(fmt, '\t', value);
    MinifyCopied(':', When(fmt, ['\t'], value));
    var colon := [':'] + When(fmt, ['\t'], value);
    MinifyQuoted(mm.name, colon);
    MinifyTabs(if fmt then depth else 0, Quoted(mm.name, colon));
    hide Text, Quoted;
  }

  /** `cJSON_Minify` turns `cJSON_Print` into `cJSON_PrintUnformatted`, and leaves the latter as it is. */
  lemma MinifyPrint(v: Json, fmt: bool)
    ensures Minified(Print(v, fmt)) == Some(Print(v, false))
  {
    MinifyText(v, 0, fmt, [], 0);
  }

  // ---------------------------------------------------------------- in place

  /** The text `s` in memory, from offset `j` of its buffer on. */
  predicate Holds(json: array<char>, j: nat, s: string)
    reads json
  {
    && j + |s| < json.Length
    && json[j..j + |s|] == s && json[j + |s|] == '\0'
    && forall i :: 0 <= i < |s| ==> s[i] != '\0'
  }

  lemma HoldsNext(json: array<char>, j: nat, s: string, n: nat)
    requires Holds(json, j, s) && n <= |s|
    ensures Holds(json, j + n, s[n..])
    ensures forall k :: 0 <= k <= |s| ==> json[j + k] == if k < |s| then s[k] else '\0'
  {
  }

  lemma HoldsFirst(json: array<char>, j: nat, s: string)
    requires Holds(json, j, s)
    ensures j < json.Length && json[j] == First(s) && (First(s) == '\0' <==> s == [])
  {
    HoldsNext(json, j, s, 0);
  }

  /** The loop over a comment to the end of the line. */
  method SkipLine(json: array<char>, from: nat, ghost s: string) returns (j: nat)
    requires Holds(json, from, s)
    ensures from <= j && j == from + |s| - |AfterLine(s)| && Holds(json, j, AfterLine(s))
  {
    j := from;
    ghost var t := s;
    HoldsNext(json, j, t, 0);
    while json[j] != '\0' && json[j] != '\n'
      invariant Holds(json, j, t) && AfterLine(t) == AfterLine(s) && j + |t| == from + |s| && j <= from + |s|
      invariant json[j] == First(t) && (First(t) == '\0' <==> t == [])
      decreases |t|
    {
      HoldsNext(json, j, t, 1);
      j, t := j + 1, t[1..];
    }
  }

  /** The loop over a comment between marks. */
  method SkipBlock(json: array<char>, from: nat, ghost s: string) returns (j: nat)
    requires Holds(json, from, s) && AfterBlock(s).Some?
    ensures from <= j && j == from + |s| - |AfterBlock(s).value| && Holds(json, j, AfterBlock(s).value)
  {
    j := from;
    ghost var t := s;
    HoldsTwo(json, j, t);
    BlockTurn(t);
    hide *;
    while json[j] != '\0' && !(json[j] == '*' && json[j + 1] == '/')
      invariant Holds(json, j, t) && AfterBlock(t) == AfterBlock(s) && j + |t| == from + |s|
      invariant AtBlock(json, j, t) && InBlock(t)
      invariant j + 1 < json.Length && t != []
      decreases |t|
    {
      BlockGoesOn(json, j, t);
      j, t := j + 1, t[1..];
      HoldsTwo(json, j, t);
      BlockTurn(t);
    }
    BlockEnds(json, j, t);
    j := j + 2;
  }

  /** The two characters the loop looks at. */
  predicate AtBlock(json: array<char>, j: nat, t: string)
    reads json
  {
    t != [] && j + 1 < json.Length && json[j] == t[0] != '\0' && json[j + 1] == First(t[1..])
  }

  predicate InBlock(t: string) {
    t != [] && AfterBlock(t) == if t[0] == '*' && First(t[1..]) == '/' then Some(t[2..]) else AfterBlock(t[1..])
  }

  lemma HoldsTwo(json: array<char>, j: nat, t: string)
    requires Holds(json, j, t) && AfterBlock(t).Some?
    ensures AtBlock(json, j, t)
    ensures j + 1 < json.Length && t != []
  {
    HoldsNext(json, j, t, 0);
  }

  lemma BlockTurn(t: string)
    requires AfterBlock(t).Some?
    ensures InBlock(t)
  {
  }

  lemma BlockGoesOn(json: array<char>, j: nat, t: string)
    requires Holds(json, j, t) && AtBlock(json, j, t) && InBlock(t) && AfterBlock(t).Some?
    requires !(json[j] == '*' && json[j + 1] == '/')
    ensures AfterBlock(t) == AfterBlock(t[1..]) && Holds(json, j + 1, t[1..])
  {
    hide AfterBlock;
    HoldsNext(json, j, t, 1);
  }

  lemma BlockEnds(json: array<char>, j: nat, t: string)
    requires Holds(json, j, t) && AtBlock(json, j, t) && InBlock(t)
    requires json[j] == '\0' || (json[j] == '*' && json[j + 1] == '/')
    ensures AfterBlock(t) == Some(t[2..]) && Holds(json, j + 2, t[2..]) && |t| >= 2
  {
    hide AfterBlock;
    HoldsNext(json, j, t, 2);
  }

  /** Moves one character down to the write cursor. */
  method CopyOne(json: array<char>, into: nat, j: nat, ghost s: string)
    requires into <= j && Holds(json, j, s) && s != []
    modifies json
    ensures json[..into + 1] == old(json[..into]) + s[..1] && Holds(json, j + 1, s[1..])
  {
    HoldsNext(json, j, s, 1);
    json[into] := json[j];
    assert json[j + 1..j + |s|] == s[1..];
  }

  /** What the loop over a string literal copies in one turn. */
  function Unit(t: string): nat
    requires t != []
  {
    if t[0] == '\\' then 2 else 1
  }

  lemma LiteralTurn(done: string, t: string)
    requires t != [] && t[0] != '"' && Literal(t).Some?
    ensures Unit(t) < |t| && Literal(t[Unit(t)..]).Some?
    ensures done + Literal(t).value.value == (done + t[..Unit(t)]) + Literal(t[Unit(t)..]).value.value
    ensures Literal(t).value.rest == Literal(t[Unit(t)..]).value.rest
  {
    Joined(done, t[..Unit(t)], Literal(t[Unit(t)..]).value.value);
  }

  /** Moves two characters. */
  method CopyTwo(json: array<char>, into: nat, j: nat, ghost s: string)
    requires into <= j && Holds(json, j, s) && |s| >= 2
    modifies json
    ensures json[..into + 2] == old(json[..into]) + s[..2] && Holds(json, j + 2, s[2..])
  {
    CopyOne(json, into, j, s);
    CopyOne(json, into + 1, j + 1, s[1..]);
    assert s[..1] + s[1..][..1] == s[..2] && s[1..][1..] == s[2..];
    Joined(old(json[..into]), s[..1], s[1..][..1]);
  }

  /** The loop over a string literal after its opening quote, and its closing quote. */
  method CopyLiteral(json: array<char>, into: nat, from: nat, ghost s: string) returns (i: nat, j: nat)
    requires into <= from && Holds(json, from, s) && Literal(s).Some?
    modifies json
    ensures i <= j && j == from + |s| - |Literal(s).value.rest|
    ensures i <= json.Length && json[..i] == old(json[..into]) + Literal(s).value.value
    ensures Holds(json, j, Literal(s).value.rest)
  {
    i, j := into, from;
    ghost var t, done := s, "";
    ghost var before := json[..into];
    assert before + done == before && done + Literal(t).value.value == Literal(s).value.value;
    HoldsFirst(json, j, t);
    LiteralCloses(t);
    assert Copying(json, i, j, s, t, before, done);
    hide *;
    while json[j] != '\0' && json[j] != '"'
      invariant j < json.Length && j + |t| == from + |s| && t != [] && json[j] == t[0] != '\0'
      invariant Copying(json, i, j, s, t, before, done)
      decreases |t|
    {
      i, j, t, done := LiteralStep(json, i, j, s, t, done, before);
    }
    i, j := LiteralEnd(json, i, j, s, t, done, before);
  }

  /** `done` of the literal is copied behind `before`, and `t` is still to be read. */
  predicate Copying(json: array<char>, i: nat, j: nat, s: string, t: string, before: string, done: string)
    reads json
  {
    && i <= j && Holds(json, j, t) && Literal(t).Some? && Literal(s).Some?
    && Literal(s).value.value == done + Literal(t).value.value && Literal(s).value.rest == Literal(t).value.rest
    && json[..i] == before + done
  }

  /** The closing quote. */
  method LiteralEnd(json: array<char>, into: nat, from: nat, ghost s: string, ghost t: string, ghost done: string, ghost before: string)
    returns (i: nat, j: nat)
    requires Copying(json, into, from, s, t, before, done) && t != [] && t[0] == '"'
    modifies json
    ensures i <= j && j == from + |t| - |Literal(s).value.rest|
    ensures i <= json.Length && json[..i] == before + Literal(s).value.value
    ensures Holds(json, j, Literal(s).value.rest)
  {
    LiteralCloses(t);
    Joined(before, done, t[..1]);
    hide Holds, Literal;
    CopyOne(json, into, from, t);
    i, j := into + 1, from + 1;
  }

  lemma LiteralCloses(t: string)
    requires Literal(t).Some?
    ensures t != [] && (t[0] == '"' ==> Literal(t) == Some(Passed(t[..1], t[1..])))
  {
  }

  /** One turn over a string literal. */
  method LiteralStep(json: array<char>, into: nat, from: nat, ghost s: string, ghost t: string, ghost done: string, ghost before: string)
    returns (i: nat, j: nat, ghost t': string, ghost done': string)
    requires Copying(json, into, from, s, t, before, done) && t != [] && t[0] != '"'
    modifies json
    ensures Copying(json, i, j, s, t', before, done')
    ensures j < json.Length && j + |t'| == from + |t| && |t'| < |t| && t' != [] && json[j] == t'[0] != '\0'
  {
    HoldsFirst(json, from, t);
    LiteralTurn(done, t);
    ghost var n := Unit(t);
    Joined(before, done, t[..n]);
    LiteralCloses(t[n..]);
    hide Holds, Literal;
    if json[from] == '\\' {
      CopyTwo(json, into, from, t);
      i, j := into + 2, from + 2;
    } else {
      CopyOne(json, into, from, t);
      i, j := into + 1, from + 1;
    }
    done', t' := done + t[..n], t[n..];
    HoldsFirst(json, j, t');
  }

  // ---------------------------------------------------------------- the whole text

  /** `out` is the result so far and `t` what is left to read. */
  predicate SoFar(s: string, out: string, t: string) {
    Minified(t).Some? && Minified(s) == Some(out + Minified(t).value)
  }

  lemma SoFarCopied(s: string, out: string, t: string, n: nat)
    requires SoFar(s, out, t) && n <= |t| && Minified(t) == Prepend(t[..n], Minified(t[n..]))
    ensures SoFar(s, out + t[..n], t[n..])
  {
    Joined(out, t[..n], Minified(t[n..]).value);
  }

  /** One turn of the loop of `cJSON_Minify`. */
  method MinifyTurn(json: array<char>, into: nat, from: nat, ghost s: string, ghost t: string)
    returns (i: nat, j: nat, ghost rest: string)
    requires into <= from && Holds(json, from, t) && t != [] && SoFar(s, json[..into], t)
    modifies json
    ensures i <= j && Holds(json, j, rest) && |rest| < |t| && j + |rest| == from + |t|
    ensures i <= json.Length && SoFar(s, json[..i], rest)
  {
    HoldsFirst(json, from, t);
    HoldsNext(json, from, t, 1);
    HoldsFirst(json, from + 1, t[1..]);
    MinifyCases(t);
    SoFarCases(s, json[..into], t);
    hide *;
    i, j := into, from;
    var c, d := json[j], json[j + 1];
    if c == ' ' || c == '\t' || c == '\r' || c == '\n' {
      return i, j + 1, t[1..];
    }
    if c == '/' && d == '/' {
      j := SkipLine(json, j, t);
      return i, j, AfterLine(t);
    }
    if c == '/' && d == '*' {
      j := SkipBlock(json, j, t);
      return i, j, AfterBlock(t).value;
    }
    if c == '"' {
      i, j, rest := MinifyLiteral(json, into, from, s, t);
      return;
    }
    CopyOne(json, i, j, t);
    return i + 1, j + 1, t[1..];
  }

  lemma MinifyCases(t: string)
    requires t != [] && Minified(t).Some?
    ensures t[0] == '/' && First(t[1..]) == '/' ==> |AfterLine(t)| < |t|
    ensures t[0] == '/' && First(t[1..]) == '*' ==> AfterBlock(t).Some? && |AfterBlock(t).value| < |t|
  {
  }

  lemma SoFarCases(s: string, out: string, t: string)
    requires t != [] && SoFar(s, out, t)
    ensures t[0] == ' ' || t[0] == '\t' || t[0] == '\r' || t[0] == '\n' ==> SoFar(s, out, t[1..])
    ensures t[0] == '/' && First(t[1..]) == '/' ==> SoFar(s, out, AfterLine(t))
    ensures t[0] == '/' && First(t[1..]) == '*' ==> AfterBlock(t).Some? && SoFar(s, out, AfterBlock(t).value)
    ensures !White(t[0]) && t[0] != '"' && !(t[0] == '/' && (First(t[1..]) == '/' || First(t[1..]) == '*'))
      ==> SoFar(s, out + t[..1], t[1..])
    ensures White(t[0]) ==> t[0] == ' ' || t[0] == '\t' || t[0] == '\r' || t[0] == '\n'
  {
    if !White(t[0]) && t[0] != '"' && !(t[0] == '/' && (First(t[1..]) == '/' || First(t[1..]) == '*')) {
      SoFarCopied(s, out, t, 1);
    } else if t[0] == '/' && First(t[1..]) == '/' {
      assert AfterLine(t) == AfterLine(t[1..]);
    }
  }

  /** A string literal, with both quotes. */
  method MinifyLiteral(json: array<char>, into: nat, from: nat, ghost s: string, ghost t: string)
    returns (i: nat, j: nat, ghost rest: string)
    requires into <= from && Holds(json, from, t) && t != [] && t[0] == '"' && SoFar(s, json[..into], t)
    modifies json
    ensures i <= j && Holds(json, j, rest) && |rest| < |t| && j + |rest| == from + |t|
    ensures i <= json.Length && SoFar(s, json[..i], rest)
  {
    ghost var p := Literal(t[1..]).value;
    ghost var out := json[..into];
    LiteralSoFar(s, out, t);
    hide Minified, SoFar, Literal, Holds;
    CopyOne(json, into, from, t);
    i, j := CopyLiteral(json, into + 1, from + 1, t[1..]);
    rest := p.rest;
  }

  lemma LiteralSoFar(s: string, out: string, t: string)
    requires t != [] && t[0] == '"' && SoFar(s, out, t)
    ensures Literal(t[1..]).Some?
    ensures var p := Literal(t[1..]).value; SoFar(s, (out + t[..1]) + p.value, p.rest)
  {
    var p := Literal(t[1..]).value;
    assert Minified(t) == Prepend(t[..1] + p.value, Minified(p.rest));
    Joined(out, t[..1], p.value);
    Joined(out, t[..1] + p.value, Minified(p.rest).value);
  }

  /** `cJSON_Minify` on a text whose literals and comments are closed: the write cursor stays
      behind the read cursor, and the buffer ends up holding the minified text. */
  method Minify(json: array<char>, ghost s: string)
    requires Holds(json, 0, s) && Minified(s).Some?
    modifies json
    ensures Holds(json, 0, Minified(s).value)
  {
    var into, j := 0, 0;
    ghost var t := s;
    assert json[..0] == [] && [] + Minified(s).value == Minified(s).value;
    assert SoFar(s, json[..0], s);
    HoldsFirst(json, 0, s);
    MinifiedBytes(s);
    hide *;
    while json[j] != '\0'
      invariant 0 <= into <= j < json.Length && Holds(json, j, t) && j + |t| == |s|
      invariant json[j] == First(t) && (First(t) == '\0' <==> t == []) && SoFar(s, json[..into], t)
      decreases |t|
    {
      into, j, t := MinifyTurn(json, into, j, s, t);
      HoldsFirst(json, j, t);
    }
    Terminate(json, into, s);
  }

  /** The NUL behind the result. */
  method Terminate(json: array<char>, into: nat, ghost s: string)
    requires into < json.Length && SoFar(s, json[..into], []) && Minified(s).Some?
    requires forall i :: 0 <= i < |Minified(s).value| ==> Minified(s).value[i] != '\0'
    modifies json
    ensures Holds(json, 0, Minified(s).value)
  {
    ghost var out := json[..into];
    assert out + [] == out;
    json[into] := '\0';
    assert json[..into] == out && json[0..into] == out;
  }

  lemma {:induction false} LiteralBytes(s: string)
    requires forall i :: 0 <= i < |s| ==> s[i] != '\0'
    ensures Literal(s).Some? ==> forall i :: 0 <= i < |Literal(s).value.value| ==> Literal(s).value.value[i] != '\0'
    ensures Literal(s).Some? ==> Literal(s).value.rest == s[|s| - |Literal(s).value.rest|..]
    decreases |s|
  {
    if s != [] && s[0] != '"' && Literal(s).Some? {
      LiteralBytes(s[Unit(s)..]);
    }
  }

  lemma {:induction false} CommentRest(s: string)
    ensures AfterLine(s) == s[|s| - |AfterLine(s)|..]
    ensures AfterBlock(s).Some? ==> AfterBlock(s).value == s[|s| - |AfterBlock(s).value|..]
  {
    if s != [] {
      CommentRest(s[1..]);
    }
  }

  lemma {:induction false} MinifiedBytes(s: string)
    requires (forall i :: 0 <= i < |s| ==> s[i] != '\0') && Minified(s).Some?
    ensures forall i :: 0 <= i < |Minified(s).value| ==> Minified(s).value[i] != '\0'
    decreases |s|
  {
    if s != [] {
      CommentRest(s);
      CommentRest(s[1..]);
      LiteralBytes(s[1..]);
      if White(s[0]) {
        MinifiedBytes(s[1..]);
      } else if s[0] == '/' && First(s[1..]) == '/' {
        MinifiedBytes(AfterLine(s[1..]));
      } else if s[0] == '/' && First(s[1..]) == '*' {
        MinifiedBytes(AfterBlock(s).value);
      } else if s[0] == '"' {
        MinifiedBytes(Literal(s[1..]).value.rest);
      } else {
        MinifiedBytes(s[1..]);
      }
    }
  }
}
