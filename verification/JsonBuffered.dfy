/** The printers of cJSON.c into a `printbuffer`: they write the same text as the spec, grow the
    buffer as they go, and keep what was printed before. */
module JsonBuffered {
  import opened Common
  import opened JsonBuffer
  import opened JsonRoundTrip
  import opened JsonText

  /** Room for a text at the offset, and for the most that `ensure` asks beyond it. */
  predicate Fits(offset: nat, text: string) {
    offset + |text| + 24 <= MAX
  }

  /** After a printer: `a` of the text is before the offset and the rest stands at it. */
  ghost predicate Printed(p: PrintBuffer, before: string, text: string, a: nat)
    reads p, p.buffer
  {
    p.Valid() && a <= |text| && p.Done() == before + text[..a] && p.Ahead(text[a..])
  }

  // ---------------------------------------------------------------- numbers

  function Pow10(m: nat): nat {
    if m == 0 then 1 else 10 * Pow10(m - 1)
  }

  lemma {:induction false} DecimalLength(n: nat, k: string, m: nat)
    requires m > 0 && n < Pow10(m)
    ensures |Decimal(n, k)| <= m + |k|
    decreases m
  {
    if n >= 10 {
      DecimalLength(n / 10, [DigitChar(n % 10)] + k, m - 1);
    }
  }

  lemma Pow10Ten()
    ensures Pow10(10) == 10_000_000_000
  {
    assert Pow10(5) == 100_000;
  }

  /** `print_number`. */
  method PrintNumber(p: PrintBuffer, n: int, d: int)
    requires p.Valid() && Printable(Number(n, d)) && Fits(p.offset, NumberText(n, d, []))
    modifies p, p.buffer
    ensures Printed(p, old(p.Done()), NumberText(n, d, []), 0)
    ensures p.buffer == old(p.buffer) || fresh(p.buffer)
  {
    var text := NumberText(n, d, []);
    assert text[..0] == [] && text[0..] == text && p.Done() + [] == p.Done();
    if d == 0 {
      p.PutString(text, 2);
    } else {
      Pow10Ten();
      DecimalLength(if n < 0 then -n else n, [], 10);
      p.PutString(text, 21);
    }
  }

  // ---------------------------------------------------------------- strings

  /** `len` of the loops of `print_string_ptr`. */
  function EscapedSize(c: char): nat {
    if c in {'"', '\\', BACKSPACE, FORM_FEED, '\n', '\r', '\t'} then 2
    else if c as int < 32 then 6 else 1
  }

  lemma EscapeSize(c: char)
    ensures |Escape(c)| == EscapedSize(c)
  {
  }

  lemma {:induction false} EscapedPlain(s: string, k: string)
    requires forall i :: 0 <= i < |s| ==> Plain(s[i])
    ensures Escaped(s, k) == s + k
  {
    if s != [] {
      EscapedPlain(s[1..], k);
      assert s + k == [s[0]] + (s[1..] + k);
    } else {
      assert s + k == k;
    }
  }

  lemma EscapedStep(s: string, i: nat, k: string)
    requires i < |s|
    ensures Escaped(s[i..], k) == Escape(s[i]) + Escaped(s[i + 1..], k)
  {
    assert s[i..][1..] == s[i + 1..];
  }

  /** The first loop: whether anything needs an escape. */
  method NeedsEscapes(s: string) returns (flag: bool)
    ensures flag <==> exists i :: 0 <= i < |s| && !Plain(s[i])
  {
    flag := false;
    for i := 0 to |s|
      invariant flag <==> exists j :: 0 <= j < i && !Plain(s[j])
    {
      flag := flag || s[i] as int < 32 || s[i] == '"' || s[i] == '\\';
    }
  }

  /** The second loop: the length of the escaped string. */
  method EscapedLength(s: string) returns (len: nat)
    ensures len == |Escaped(s, [])|
  {
    len := 0;
    assert s[0..] == s;
    for i := 0 to |s|
      invariant len + |Escaped(s[i..], [])| == |Escaped(s, [])|
    {
      EscapedStep(s, i, []);
      EscapeSize(s[i]);
      len := len + EscapedSize(s[i]);
    }
  }

  /** The third loop: the escaped string, a quote and a NUL behind what is in the buffer. */
  method WriteEscaped(buffer: array<char>, start: nat, s: string)
    requires start + |Escaped(s, [])| + 2 <= buffer.Length
    modifies buffer
    ensures buffer[..start + |Escaped(s, [])| + 2] == old(buffer[..start]) + Escaped(s, []) + ['"', '\0']
  {
    var at := start;
    ghost var before, whole := buffer[..start], Escaped(s, []);
    assert s[0..] == s && s[|s|..] == [] && Escaped(s[|s|..], []) == [];
    hide *;
    for i := 0 to |s|
      invariant start <= at <= buffer.Length
      invariant buffer[..at] + Escaped(s[i..], []) == before + whole
    {
      EscapedStep(s, i, []);
      at := EscapeOne(buffer, at, s[i], Escaped(s[i + 1..], []), before + whole);
    }
    assert buffer[..at] + [] == buffer[..at];
    Memcpy(buffer, at, ['"', '\0']);
  }

  /** One character, escaped. */
  method EscapeOne(buffer: array<char>, at: nat, c: char, ghost rest: string, ghost all: string) returns (at': nat)
    requires at <= buffer.Length && buffer[..at] + (Escape(c) + rest) == all && |all| <= buffer.Length
    modifies buffer
    ensures at <= at' <= buffer.Length && buffer[..at'] + rest == all
  {
    hide Escape;
    Joined(buffer[..at], Escape(c), rest);
    assert |buffer[..at] + (Escape(c) + rest)| == at + |Escape(c)| + |rest|;
    Memcpy(buffer, at, Escape(c));
    at' := at + |Escape(c)|;
  }

  lemma QuotedIs(s: string)
    ensures Quoted(s, []) == ['"'] + (Escaped(s, []) + ['"'])
  {
    EscapedThen(s, [], ['"']);
    assert ['"'] + [] == ['"'] && [] + ['"'] == ['"'];
  }

  /** The escaping half of `print_string_ptr`. */
  method PutEscaped(p: PrintBuffer, s: string, len: nat)
    requires p.Valid() && len == |Escaped(s, [])| && Fits(p.offset, Quoted(s, []))
    modifies p`buffer, p.buffer
    ensures p.Ahead(Quoted(s, [])) && p.Done() == old(p.Done()) && p.offset == old(p.offset)
    ensures p.buffer == old(p.buffer) || fresh(p.buffer)
  {
    QuotedIs(s);
    hide Quoted, Escaped;
    p.Ensure(len + 3);
    ghost var done, e := p.Done(), Escaped(s, []);
    Memcpy(p.buffer, p.offset, ['"']);
    WriteEscaped(p.buffer, p.offset + 1, s);
    QuoteParts(done, e);
    StandsAhead(p, done, Quoted(s, []));
  }

  lemma QuoteParts(done: string, e: string)
    ensures (done + ['"']) + e + ['"', '\0'] == done + (['"'] + (e + ['"'])) + ['\0']
  {
  }

  /** `print_string_ptr`. */
  method PrintStringPtr(p: PrintBuffer, s: string)
    requires p.Valid() && Bytes(s) && Fits(p.offset, Quoted(s, []))
    modifies p, p.buffer
    ensures Printed(p, old(p.Done()), Quoted(s, []), 0)
    ensures p.buffer == old(p.buffer) || fresh(p.buffer)
  {
    ghost var text := Quoted(s, []);
    QuotedIs(s);
    assert text[..0] == [] && text[0..] == text && p.Done() + [] == p.Done();
    var flag := NeedsEscapes(s);
    if !flag {
      EscapedPlain(s, []);
      assert s + [] == s;
      hide Quoted, Escaped;
      p.PutString(['"'] + (s + ['"']), |s| + 3);
    } else {
      hide Quoted, Escaped;
      var len := EscapedLength(s);
      PutEscaped(p, s, len);
    }
  }

  lemma StandsAhead(p: PrintBuffer, done: string, text: string)
    requires p.Valid() && |done| == p.offset && p.offset + |text| < p.buffer.Length
    requires p.buffer[..p.offset + |text| + 1] == done + text + ['\0']
    ensures p.Ahead(text) && p.Done() == done
  {
    var all := p.buffer[..p.offset + |text| + 1];
    assert p.buffer[p.offset..p.offset + |text|] == all[p.offset..p.offset + |text|];
    assert p.buffer[p.offset + |text|] == all[p.offset + |text|];
    assert p.buffer[..p.offset] == all[..p.offset];
  }

  // ---------------------------------------------------------------- values

  lemma PrintedSuffix(text: string, a: nat)
    requires a <= |text| && Bytes(text)
    ensures Bytes(text[a..]) && text[..a] + text[a..] == text
  {
  }

  /** A printed text, and the offset moved past it. */
  method AdvanceOver(p: PrintBuffer, ghost before: string, ghost text: string, ghost a: nat)
    requires Printed(p, before, text, a) && Bytes(text)
    modifies p`offset
    ensures p.Valid() && p.Done() == before + text
  {
    PrintedSuffix(text, a);
    Joined(before, text[..a], text[a..]);
    p.Advance(text[a..]);
  }

  /** A text that is written at once. */
  method PrintWord(p: PrintBuffer, word: string, needed: nat)
    requires p.Valid() && |word| < needed && p.offset + needed <= MAX
    modifies p, p.buffer
    ensures Printed(p, old(p.Done()), word, 0)
    ensures p.buffer == old(p.buffer) || fresh(p.buffer)
  {
    assert word[..0] == [] && word[0..] == word && p.Done() + [] == p.Done();
    p.PutString(word, needed);
  }

  /** `print_value` with a buffer. */
  method PrintValue(p: PrintBuffer, v: Json, depth: nat, fmt: bool) returns (ghost a: nat)
    requires p.Valid() && Printable(v) && Fits(p.offset, Text(v, depth, fmt, []))
    modifies p, p.buffer
    ensures Printed(p, old(p.Done()), Text(v, depth, fmt, []), a)
    ensures p.buffer == old(p.buffer) || fresh(p.buffer)
    decreases v, 0
  {
    a := 0;
    match v
    case Null => assert "null" + [] == "null"; PrintWord(p, "null", 5);
    case False => assert "false" + [] == "false"; PrintWord(p, "false", 6);
    case True => assert "true" + [] == "true"; PrintWord(p, "true", 5);
    case Number(n, d) => PrintNumber(p, n, d);
    case Str(s) => PrintStringPtr(p, s);
    case Array(l) => a := PrintArray(p, l, depth, fmt);
    case Object(m) => a := PrintObject(p, m, depth, fmt);
  }

  /** What is printed and what is to come make up the text, and there is room for it. */
  ghost predicate Ongoing(done: string, before: string, text: string, rest: string) {
    done + rest == before + text && Fits(|before|, text)
  }

  lemma OngoingNext(done: string, before: string, text: string, piece: string, rest: string)
    requires Ongoing(done, before, text, piece + rest)
    ensures Ongoing(done + piece, before, text, rest) && Fits(|done|, piece)
  {
    Joined(done, piece, rest);
    assert |done + (piece + rest)| == |before + text|;
  }

  lemma OngoingEnds(done: string, before: string, text: string)
    ensures Ongoing(done, before, text, []) ==> done == before + text
    ensures Fits(|before|, text) ==> Ongoing(before, before, text, text)
  {
    assert done + [] == done;
  }

  /** `print_array` with a buffer. */
  method PrintArray(p: PrintBuffer, l: List, depth: nat, fmt: bool) returns (ghost a: nat)
    requires p.Valid() && PrintableList(l) && Fits(p.offset, Text(Array(l), depth, fmt, []))
    modifies p, p.buffer
    ensures Printed(p, old(p.Done()), Text(Array(l), depth, fmt, []), a)
    ensures p.buffer == old(p.buffer) || fresh(p.buffer)
    decreases l, 3
  {
    ghost var before, text := p.Done(), Text(Array(l), depth, fmt, []);
    if l.Nil? {
      assert text == "[]";
      PrintWord(p, "[]", 3);
      return 0;
    }
    ArrayText(l, depth, fmt);
    hide *;
    PrintWithElements(p, l, depth, fmt);
    PrintedParts(p, before, ['['], ListText(l, depth + 1, fmt, []), [']']);
    a := 1 + |ListText(l, depth + 1, fmt, [])|;
  }

  lemma ArrayText(l: List, depth: nat, fmt: bool)
    requires l.Cons?
    ensures Text(Array(l), depth, fmt, []) == ['['] + (ListText(l, depth + 1, fmt, []) + [']'])
  {
    ListThen(l, depth + 1, fmt, [], [']']);
    assert [']'] + [] == [']'] && [] + [']'] == [']'];
  }

  /** An array with elements: the brackets and what is between them. */
  method PrintWithElements(p: PrintBuffer, l: List, depth: nat, fmt: bool)
    requires p.Valid() && l.Cons? && PrintableList(l)
    requires Fits(p.offset, ['['] + (ListText(l, depth + 1, fmt, []) + [']']))
    modifies p, p.buffer
    ensures p.Ahead([']']) && p.Done() == (old(p.Done()) + ['[']) + ListText(l, depth + 1, fmt, [])
    ensures p.buffer == old(p.buffer) || fresh(p.buffer)
    decreases l, 2
  {
    hide ListText, PrintableList;
    ghost var before := p.Done();
    p.Emit(['['], 1);
    PrintElements(p, l, depth + 1, fmt);
    assert |p.Done()| == |before| + 1 + |ListText(l, depth + 1, fmt, [])|;
    p.PutString([']'], 2);
  }

  function Comma(more: bool, fmt: bool): string {
    if !more then [] else if fmt then [',', ' '] else [',']
  }

  /** The text of one element. */
  function ElementText(l: List, depth: nat, fmt: bool): string
    requires l.Cons?
  {
    Text(l.item, depth, fmt, []) + Comma(l.next.Cons?, fmt)
  }

  /** One element of an array, and what separates it from the next. */
  method PrintElement(p: PrintBuffer, l: List, depth: nat, fmt: bool)
    requires p.Valid() && l.Cons? && PrintableList(l) && Fits(p.offset, ElementText(l, depth, fmt))
    modifies p, p.buffer
    ensures p.Valid() && p.Done() == old(p.Done()) + ElementText(l, depth, fmt)
    ensures p.buffer == old(p.buffer) || fresh(p.buffer)
    decreases l, 0
  {
    ghost var now, text := p.Done(), Text(l.item, depth, fmt, []);
    TextBytes(l.item, depth, fmt, []);
    Joined(now, text, Comma(l.next.Cons?, fmt));
    assert text + [] == text;
    hide Text, Printable;
    ghost var a := PrintValue(p, l.item, depth, fmt);
    AdvanceOver(p, now, text, a);
    if l.next.Cons? {
      var comma := Comma(true, fmt);
      p.Emit(comma, |comma| + 1);
    }
  }

  /** The loop of `print_array` over its children. */
  method PrintElements(p: PrintBuffer, l: List, depth: nat, fmt: bool)
    requires p.Valid() && l.Cons? && PrintableList(l) && Fits(p.offset, ListText(l, depth, fmt, []))
    modifies p, p.buffer
    ensures p.Valid() && p.Done() == old(p.Done()) + ListText(l, depth, fmt, [])
    ensures p.buffer == old(p.buffer) || fresh(p.buffer)
    decreases l, 1
  {
    ghost var before, text := p.Done(), ListText(l, depth, fmt, []);
    OngoingEnds(before, before, text);
    assert |before| == p.offset;
    var child := l;
    hide Ongoing, Text, ListText, Printable;
    while child.Cons?
      invariant p.Valid() && PrintableList(child) && (child == l || child < l)
      invariant Ongoing(p.Done(), before, text, RestOfList(child, depth, fmt))
      invariant p.buffer == old(p.buffer) || fresh(p.buffer)
      decreases child
    {
      ListParts(child, depth, fmt);
      OngoingNext(p.Done(), before, text, ElementText(child, depth, fmt), RestOfList(child.next, depth, fmt));
      PrintElement(p, child, depth, fmt);
      child := child.next;
    }
    OngoingEnds(p.Done(), before, text);
  }

  function RestOfList(l: List, depth: nat, fmt: bool): string {
    if l.Nil? then [] else ListText(l, depth, fmt, [])
  }

  lemma ListParts(l: List, depth: nat, fmt: bool)
    requires l.Cons?
    ensures ListText(l, depth, fmt, []) == ElementText(l, depth, fmt) + RestOfList(l.next, depth, fmt)
  {
    var rest := RestOfList(l.next, depth, fmt);
    var k := Comma(l.next.Cons?, fmt) + rest;
    AfterElement(l, depth, fmt);
    assert ListText(l, depth, fmt, []) == Text(l.item, depth, fmt, k);
    assert ElementText(l, depth, fmt) == Text(l.item, depth, fmt, []) + Comma(l.next.Cons?, fmt);
    hide *;
    TextThen(l.item, depth, fmt, [], k);
    Joined([], [], k);
    Joined(Text(l.item, depth, fmt, []), Comma(l.next.Cons?, fmt), rest);
  }

  lemma AfterElement(l: List, depth: nat, fmt: bool)
    requires l.Cons?
    ensures Comma(l.next.Cons?, fmt) + RestOfList(l.next, depth, fmt)
         == if l.next.Nil? then [] else [','] + When(fmt, [' '], ListText(l.next, depth, fmt, []))
  {
  }

  // ---------------------------------------------------------------- objects

  function Opening(fmt: bool): string {
    if fmt then ['{', '\n'] else ['{']
  }

  function Colon(fmt: bool): string {
    if fmt then [':', '\t'] else [':']
  }

  /** What follows a member. */
  function Separator(more: bool, fmt: bool): string {
    (if more then [','] else []) + if fmt then ['\n'] else []
  }

  lemma {:induction false} TabsLength(n: int)
    ensures |Tabs(n, [])| == if n < 0 then 0 else n
    decreases n
  {
    if n > 0 {
      TabsLength(n - 1);
    }
  }

  lemma ObjectParts(m: Members, depth: nat, fmt: bool)
    ensures var text := Text(Object(m), depth, fmt, []);
      if m.NoMembers? then text == Opening(fmt) + (Tabs(if fmt then depth - 1 else 0, []) + ['}'])
      else text == Opening(fmt) + (MembersText(m, depth + 1, fmt, []) + (Tabs(if fmt then depth else 0, []) + ['}']))
  {
    var tabs := if !fmt then 0 else if m.Member? then depth else depth - 1;
    hide Tabs, MembersText;
    TabsThen(tabs, [], ['}']);
    assert [] + ['}'] == ['}'] && ['}'] + [] == ['}'];
    var end := Tabs(tabs, []) + ['}'];
    assert Tabs(tabs, ['}']) == end;
    if m.Member? {
      MembersThen(m, depth + 1, fmt, [], end);
      assert [] + end == end;
      var inside := MembersText(m, depth + 1, fmt, []) + end;
      assert ['{'] + When(fmt, ['\n'], inside) == Opening(fmt) + inside;
    } else {
      assert ['{'] + When(fmt, ['\n'], end) == Opening(fmt) + end;
    }
  }

  /** `print_object` with a buffer. */
  method PrintObject(p: PrintBuffer, m: Members, depth: nat, fmt: bool) returns (ghost a: nat)
    requires p.Valid() && PrintableMembers(m) && Fits(p.offset, Text(Object(m), depth, fmt, []))
    modifies p, p.buffer
    ensures Printed(p, old(p.Done()), Text(Object(m), depth, fmt, []), a)
    ensures p.buffer == old(p.buffer) || fresh(p.buffer)
    decreases m, 4
  {
    ObjectParts(m, depth, fmt);
    if m.NoMembers? {
      hide Text, Opening, Tabs;
      PrintEmptyObject(p, depth, fmt);
      return 0;
    }
    ghost var before, text := p.Done(), Text(Object(m), depth, fmt, []);
    hide *;
    PrintWithMembers(p, m, depth, fmt);
    PrintedParts(p, before, Opening(fmt), MembersText(m, depth + 1, fmt, []), Tabs(if fmt then depth else 0, []) + ['}']);
    a := |Opening(fmt)| + |MembersText(m, depth + 1, fmt, [])|;
  }

  lemma PrintedParts(p: PrintBuffer, before: string, opening: string, inside: string, end: string)
    requires p.Valid() && p.Done() == (before + opening) + inside && p.Ahead(end)
    ensures Printed(p, before, opening + (inside + end), |opening| + |inside|)
  {
    var text := opening + (inside + end);
    assert (before + opening) + inside == before + text[..|opening| + |inside|];
    assert text[|opening| + |inside|..] == end;
  }

  /** Two braces, with a line and tabs between them when formatting. */
  method PrintEmptyObject(p: PrintBuffer, depth: nat, fmt: bool)
    requires p.Valid() && Fits(p.offset, Opening(fmt) + (Tabs(if fmt then depth - 1 else 0, []) + ['}']))
    modifies p, p.buffer
    ensures Printed(p, old(p.Done()), Opening(fmt) + (Tabs(if fmt then depth - 1 else 0, []) + ['}']), 0)
    ensures p.buffer == old(p.buffer) || fresh(p.buffer)
  {
    TabsLength(if fmt then depth - 1 else 0);
    hide Tabs;
    PrintWord(p, Opening(fmt) + (Tabs(if fmt then depth - 1 else 0, []) + ['}']), if fmt then depth + 4 else 3);
  }

  /** An object with members: the braces and what is between them. */
  method PrintWithMembers(p: PrintBuffer, m: Members, depth: nat, fmt: bool)
    requires p.Valid() && m.Member? && PrintableMembers(m)
    requires Fits(p.offset, Opening(fmt) + (MembersText(m, depth + 1, fmt, []) + (Tabs(if fmt then depth else 0, []) + ['}'])))
    modifies p, p.buffer
    ensures p.Ahead(Tabs(if fmt then depth else 0, []) + ['}'])
    ensures p.Done() == (old(p.Done()) + Opening(fmt)) + MembersText(m, depth + 1, fmt, [])
    ensures p.buffer == old(p.buffer) || fresh(p.buffer)
    decreases m, 3
  {
    TabsLength(if fmt then depth else 0);
    OpeningSize(fmt);
    hide Text, MembersText, Tabs, PrintableMembers, Opening;
    ghost var before := p.Done();
    p.Emit(Opening(fmt), |Opening(fmt)| + 1);
    PrintMembers(p, m, depth + 1, fmt);
    assert |p.Done()| == |before| + |Opening(fmt)| + |MembersText(m, depth + 1, fmt, [])|;
    p.PutString(Tabs(if fmt then depth else 0, []) + ['}'], if fmt then depth + 2 else 2);
  }

  lemma OpeningSize(fmt: bool)
    ensures 0 < |Opening(fmt)| <= 2
  {
  }

  /** What comes before the value of a member. */
  function NameText(m: Members, depth: nat, fmt: bool): string
    requires m.Member?
  {
    Tabs(if fmt then depth else 0, []) + Quoted(m.name, []) + Colon(fmt)
  }

  /** The text of one member. */
  function MemberText(m: Members, depth: nat, fmt: bool): string
    requires m.Member?
  {
    NameText(m, depth, fmt) + (Text(m.item, depth, fmt, []) + Separator(m.next.Member?, fmt))
  }

  /** The tabs before a member. */
  method Indent(p: PrintBuffer, depth: nat, fmt: bool)
    requires p.Valid() && Fits(p.offset, Tabs(if fmt then depth else 0, []))
    modifies p, p.buffer
    ensures p.Valid() && p.Done() == old(p.Done()) + Tabs(if fmt then depth else 0, [])
    ensures p.offset == old(p.offset) + |Tabs(if fmt then depth else 0, [])|
    ensures p.buffer == old(p.buffer) || fresh(p.buffer)
  {
    TabsLength(if fmt then depth else 0);
    if fmt && depth > 0 {
      p.Emit(Tabs(depth, []), depth);
    } else {
      assert p.Done() + [] == p.Done();
    }
  }

  /** A name, with the offset moved past it. */
  method PrintKey(p: PrintBuffer, name: string)
    requires p.Valid() && Bytes(name) && Fits(p.offset, Quoted(name, []))
    modifies p, p.buffer
    ensures p.Valid() && p.Done() == old(p.Done()) + Quoted(name, [])
    ensures p.offset == old(p.offset) + |Quoted(name, [])|
    ensures p.buffer == old(p.buffer) || fresh(p.buffer)
  {
    ghost var now := p.Done();
    EscapedBytes(name, ['"']);
    assert ['"'] + [] == ['"'] && Bytes(Quoted(name, []));
    hide Quoted, Escaped;
    PrintStringPtr(p, name);
    AdvanceOver(p, now, Quoted(name, []), 0);
    assert |now + Quoted(name, [])| == |now| + |Quoted(name, [])|;
  }

  /** Tabs, the name and its colon. */
  method PrintName(p: PrintBuffer, m: Members, depth: nat, fmt: bool)
    requires p.Valid() && m.Member? && Bytes(m.name) && Fits(p.offset, NameText(m, depth, fmt))
    modifies p, p.buffer
    ensures p.Valid() && p.Done() == old(p.Done()) + NameText(m, depth, fmt)
    ensures p.buffer == old(p.buffer) || fresh(p.buffer)
  {
    ghost var before, tabs, name := p.Done(), Tabs(if fmt then depth else 0, []), Quoted(m.name, []);
    assert NameText(m, depth, fmt) == tabs + name + Colon(fmt);
    assert before + (tabs + name + Colon(fmt)) == ((before + tabs) + name) + Colon(fmt);
    ColonSize(fmt);
    hide Quoted, Tabs, Colon, NameText;
    Indent(p, depth, fmt);
    PrintKey(p, m.name);
    p.Emit(Colon(fmt), |Colon(fmt)|);
  }

  lemma ColonSize(fmt: bool)
    ensures 0 < |Colon(fmt)| <= 2
  {
  }

  /** The value of a member, and what separates it from the next. */
  method PrintItem(p: PrintBuffer, m: Members, depth: nat, fmt: bool)
    requires p.Valid() && m.Member? && PrintableMembers(m)
    requires Fits(p.offset, Text(m.item, depth, fmt, []) + Separator(m.next.Member?, fmt))
    modifies p, p.buffer
    ensures p.Valid() && p.Done() == old(p.Done()) + (Text(m.item, depth, fmt, []) + Separator(m.next.Member?, fmt))
    ensures p.buffer == old(p.buffer) || fresh(p.buffer)
    decreases m, 0
  {
    ghost var now, item := p.Done(), Text(m.item, depth, fmt, []);
    var separator := Separator(m.next.Member?, fmt);
    TextBytes(m.item, depth, fmt, []);
    Joined(now, item, separator);
    hide Text, Printable;
    ghost var a := PrintValue(p, m.item, depth, fmt);
    AdvanceOver(p, now, item, a);
    p.Emit(separator, |separator| + 1);
  }

  /** The loop of `print_object` over its children. */
  method PrintMembers(p: PrintBuffer, m: Members, depth: nat, fmt: bool)
    requires p.Valid() && m.Member? && PrintableMembers(m) && Fits(p.offset, MembersText(m, depth, fmt, []))
    modifies p, p.buffer
    ensures p.Valid() && p.Done() == old(p.Done()) + MembersText(m, depth, fmt, [])
    ensures p.buffer == old(p.buffer) || fresh(p.buffer)
    decreases m, 2
  {
    ghost var before, text := p.Done(), MembersText(m, depth, fmt, []);
    OngoingEnds(before, before, text);
    assert |before| == p.offset;
    var child := m;
    hide Ongoing, Text, MembersText, Printable, MemberText;
    while child.Member?
      invariant p.Valid() && PrintableMembers(child) && (child == m || child < m)
      invariant Ongoing(p.Done(), before, text, RestOfMembers(child, depth, fmt))
      invariant p.buffer == old(p.buffer) || fresh(p.buffer)
      decreases child
    {
      MembersParts(child, depth, fmt);
      OngoingNext(p.Done(), before, text, MemberText(child, depth, fmt), RestOfMembers(child.next, depth, fmt));
      PrintMember(p, child, depth, fmt);
      child := child.next;
    }
    OngoingEnds(p.Done(), before, text);
  }

  /** One member of an object. */
  method PrintMember(p: PrintBuffer, m: Members, depth: nat, fmt: bool)
    requires p.Valid() && m.Member? && PrintableMembers(m) && Fits(p.offset, MemberText(m, depth, fmt))
    modifies p, p.buffer
    ensures p.Valid() && p.Done() == old(p.Done()) + MemberText(m, depth, fmt)
    ensures p.buffer == old(p.buffer) || fresh(p.buffer)
    decreases m, 1
  {
    ghost var before := p.Done();
    ghost var item := Text(m.item, depth, fmt, []) + Separator(m.next.Member?, fmt);
    Joined(before, NameText(m, depth, fmt), item);
    hide NameText, Text, Separator;
    PrintName(p, m, depth, fmt);
    PrintItem(p, m, depth, fmt);
  }

  function RestOfMembers(m: Members, depth: nat, fmt: bool): string {
    if m.NoMembers? then [] else MembersText(m, depth, fmt, [])
  }

  lemma MembersParts(m: Members, depth: nat, fmt: bool)
    requires m.Member?
    ensures MembersText(m, depth, fmt, []) == MemberText(m, depth, fmt) + RestOfMembers(m.next, depth, fmt)
  {
    hide *;
    var rest := RestOfMembers(m.next, depth, fmt);
    var after := Separator(m.next.Member?, fmt) + rest;
    var item, name, tabs := Text(m.item, depth, fmt, []), Quoted(m.name, []), Tabs(if fmt then depth else 0, []);
    var colon := Colon(fmt) + (item + after);
    MembersUnfold(m, depth, fmt);
    TextThen(m.item, depth, fmt, [], after);
    Joined([], after, after);
    ColonWhen(fmt, item + after);
    QuotedThen(m.name, [], colon);
    Joined([], colon, colon);
    TabsThen(if fmt then depth else 0, [], name + colon);
    Joined([], name + colon, name + colon);
    MemberAssoc(tabs, name, Colon(fmt), item, Separator(m.next.Member?, fmt), rest);
    MemberTextIs(m, depth, fmt);
  }

  lemma MembersUnfold(m: Members, depth: nat, fmt: bool)
    requires m.Member?
    ensures MembersText(m, depth, fmt, [])
         == Tabs(if fmt then depth else 0, Quoted(m.name, [':'] + When(fmt, ['\t'],
              Text(m.item, depth, fmt, Separator(m.next.Member?, fmt) + RestOfMembers(m.next, depth, fmt)))))
  {
    AfterMember(m, depth, fmt);
    hide Tabs, Quoted, Text, When, Separator, RestOfMembers;
  }

  lemma MemberTextIs(m: Members, depth: nat, fmt: bool)
    requires m.Member?
    ensures MemberText(m, depth, fmt)
         == Tabs(if fmt then depth else 0, []) + Quoted(m.name, []) + Colon(fmt)
            + (Text(m.item, depth, fmt, []) + Separator(m.next.Member?, fmt))
  {
    hide Tabs, Quoted, Text, Separator;
  }

  lemma ColonWhen(fmt: bool, k: string)
    ensures [':'] + When(fmt, ['\t'], k) == Colon(fmt) + k
  {
  }

  lemma AfterMember(m: Members, depth: nat, fmt: bool)
    requires m.Member?
    ensures Separator(m.next.Member?, fmt) + RestOfMembers(m.next, depth, fmt)
         == if m.next.NoMembers? then When(fmt, ['\n'], [])
            else [','] + When(fmt, ['\n'], MembersText(m.next, depth, fmt, []))
  {
  }

  lemma MemberAssoc(a: string, b: string, c: string, d: string, e: string, f: string)
    ensures a + (b + (c + (d + (e + f)))) == (a + b + c + (d + e)) + f
  {
  }

  // ---------------------------------------------------------------- the whole text

  /** `cJSON_PrintBuffered`: whatever the size it starts with, the buffer ends up with the text
      that the other printers give, and its NUL. */
  method PrintBuffered(v: Json, prebuffer: nat, fmt: bool) returns (buffer: array<char>)
    requires Printable(v) && 0 < prebuffer <= MAX && Fits(0, Print(v, fmt))
    ensures var text := Print(v, fmt);
      |text| < buffer.Length && buffer[..|text|] == text && buffer[|text|] == '\0'
  {
    var p := new PrintBuffer(prebuffer);
    ghost var text := Print(v, fmt);
    ghost var a := PrintValue(p, v, 0, fmt);
    buffer := p.buffer;
    TextBytes(v, 0, fmt, []);
    PrintedSuffix(text, a);
    WholeText(p, text, a);
    hide *;
  }

  lemma WholeText(p: PrintBuffer, text: string, a: nat)
    requires Printed(p, [], text, a) && Bytes(text)
    ensures |text| < p.buffer.Length && p.buffer[..|text|] == text && p.buffer[|text|] == '\0'
  {
    PrintedSuffix(text, a);
    assert p.buffer[..p.offset + |text[a..]|] == p.buffer[..p.offset] + p.buffer[p.offset..p.offset + |text[a..]|];
    assert [] + text[..a] == text[..a];
  }
}
