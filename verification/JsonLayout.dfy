/** The form of printed text: separators, lines and indentation, and which escapes and digits are
    written. */
module JsonLayout {
  import opened JsonRoundTrip
  import JsonSound
  import opened JsonText
  import opened JsonUnicode

  // ---------------------------------------------------------------- arrays and objects

  /** Texts with a separator between each two. */
  function Join(parts: seq<string>, separator: string): string {
    if parts == [] then []
    else if |parts| == 1 then parts[0]
    else parts[0] + separator + Join(parts[1..], separator)
  }

  function Indent(n: nat): string {
    seq(n, _ => '\t')
  }

  function ItemTexts(l: List, depth: nat, fmt: bool): seq<string> {
    if l.Nil? then [] else [Text(l.item, depth, fmt, [])] + ItemTexts(l.next, depth, fmt)
  }

  /** A member: its quoted name, a colon, and its value behind a tab when formatting. */
  function Line(m: Members, depth: nat, fmt: bool): string
    requires m.Member?
  {
    (if fmt then Indent(depth) else []) + Quoted(m.name, []) + [':'] + (if fmt then ['\t'] else [])
    + Text(m.item, depth, fmt, [])
  }

  function Lines(m: Members, depth: nat, fmt: bool): seq<string> {
    if m.NoMembers? then [] else [Line(m, depth, fmt)] + Lines(m.next, depth, fmt)
  }

  lemma Regroup(a: string, b: string, c: string)
    ensures a + b + c == a + (b + c)
    ensures [] + a == a && a + [] == a
  {
  }

  lemma {:induction false} ListJoined(l: List, depth: nat, fmt: bool)
    requires l.Cons?
    ensures ListText(l, depth, fmt, []) == Join(ItemTexts(l, depth, fmt), if fmt then ", " else ",")
    decreases l
  {
    var first := Text(l.item, depth, fmt, []);
    var parts := ItemTexts(l, depth, fmt);
    assert parts[0] == first && parts[1..] == ItemTexts(l.next, depth, fmt);
    if l.next.Cons? {
      ListJoined(l.next, depth, fmt);
      var more := ListText(l.next, depth, fmt, []);
      var sep := if fmt then ", " else ",";
      assert [','] + When(fmt, [' '], more) == sep + more;
      Regroup(first, sep, more);
      ItemThen(l.item, depth, fmt, sep + more);
      hide Text;
    }
  }

  lemma ItemThen(v: Json, depth: nat, fmt: bool, k: string)
    ensures Text(v, depth, fmt, k) == Text(v, depth, fmt, []) + k
  {
    TextThen(v, depth, fmt, [], k);
    assert [] + k == k;
    hide Text;
  }

  /** An array is its elements between brackets, with commas, and blanks when formatting. */
  lemma ArrayLayout(l: List, depth: nat, fmt: bool)
    ensures Text(Array(l), depth, fmt, []) ==
      ['['] + Join(ItemTexts(l, depth + 1, fmt), if fmt then ", " else ",") + [']']
  {
    if l.Cons? {
      ListJoined(l, depth + 1, fmt);
      ListThen(l, depth + 1, fmt, [], [']']);
      assert [']'] + [] == [']'] && [] + [']'] == [']'];
      Regroup(['['], ListText(l, depth + 1, fmt, []), [']']);
      hide ListText, Join;
    }
  }

  lemma {:induction false} TabsIndent(n: nat, k: string)
    ensures Tabs(n, k) == Indent(n) + k
  {
    if n == 0 {
      assert Indent(0) + k == k;
    } else {
      TabsIndent(n - 1, k);
      assert Indent(n) == ['\t'] + Indent(n - 1);
      Regroup(['\t'], Indent(n - 1), k);
    }
  }

  /** A line and what follows it. */
  lemma LineThen(m: Members, depth: nat, fmt: bool, k: string)
    requires m.Member?
    ensures Tabs(if fmt then depth else 0, Quoted(m.name, [':'] + When(fmt, ['\t'], Text(m.item, depth, fmt, k))))
         == Line(m, depth, fmt) + k
  {
    var value := Text(m.item, depth, fmt, []);
    var tab := if fmt then ['\t'] else [];
    var indent := if fmt then Indent(depth) else [];
    var q := Quoted(m.name, []);
    ItemThen(m.item, depth, fmt, k);
    TabsIndent(if fmt then depth else 0, Quoted(m.name, [':'] + When(fmt, ['\t'], value + k)));
    QuotedThen(m.name, [], [':'] + When(fmt, ['\t'], value + k));
    hide Text, Quoted, Tabs, Indent;
    assert When(fmt, ['\t'], value + k) == tab + (value + k);
    assert [] + ([':'] + (tab + (value + k))) == [':'] + (tab + (value + k));
    FiveParts(indent, q, [':'], tab, value, k);
    Regroup(q + ([':'] + (tab + (value + k))), [], []);
  }

  lemma FiveParts(a: string, b: string, c: string, d: string, e: string, k: string)
    ensures a + (b + (c + (d + (e + k)))) == a + b + c + d + e + k
  {
    Regroup(a + b + c + d, e, k);
    Regroup(a + b + c, d, e + k);
    Regroup(a + b, c, d + (e + k));
    Regroup(a, b, c + (d + (e + k)));
  }

  lemma {:induction false} MembersJoined(m: Members, depth: nat, fmt: bool, k: string)
    requires m.Member?
    ensures MembersText(m, depth, fmt, k)
         == Join(Lines(m, depth, fmt), if fmt then ",\n" else ",") + ((if fmt then ['\n'] else []) + k)
    decreases m
  {
    var sep := if fmt then ",\n" else ",";
    if m.next.NoMembers? {
      LineThen(m, depth, fmt, When(fmt, ['\n'], k));
      Regroup([], k, []);
      hide Text, Quoted, Tabs, Line;
    } else {
      var more := MembersText(m.next, depth, fmt, k);
      var end := (if fmt then ['\n'] else []) + k;
      LineThen(m, depth, fmt, [','] + When(fmt, ['\n'], more));
      assert [','] + When(fmt, ['\n'], more) == sep + more;
      LinesJoin(m, depth, fmt, sep);
      assert MembersText(m, depth, fmt, k) == Line(m, depth, fmt) + (sep + more) by {
        hide Text, Quoted, Tabs, Line, Lines, Join;
      }
      hide *;
      MembersJoined(m.next, depth, fmt, k);
      var rest := Join(Lines(m.next, depth, fmt), sep);
      Regroup(Line(m, depth, fmt), sep, rest + end);
      Regroup(Line(m, depth, fmt) + sep, rest, end);
    }
  }

  lemma LinesJoin(m: Members, depth: nat, fmt: bool, sep: string)
    requires m.Member? && m.next.Member?
    ensures Join(Lines(m, depth, fmt), sep) == Line(m, depth, fmt) + sep + Join(Lines(m.next, depth, fmt), sep)
  {
    var lines := Lines(m, depth, fmt);
    assert lines[0] == Line(m, depth, fmt) && lines[1..] == Lines(m.next, depth, fmt);
    hide Line;
  }

  /** An object is its members between braces, with commas; when formatting each has a line of its
      own, a tab deeper than the closing brace. An empty object closes a tab less deep than that. */
  lemma ObjectLayout(m: Members, depth: nat, fmt: bool)
    ensures Text(Object(m), depth, fmt, []) ==
      if !fmt then ['{'] + Join(Lines(m, depth + 1, fmt), ",") + ['}']
      else if m.NoMembers? then "{\n" + Indent(if depth > 0 then depth - 1 else 0) + ['}']
      else "{\n" + Join(Lines(m, depth + 1, fmt), ",\n") + "\n" + Indent(depth) + ['}']
  {
    assert ['}'] + [] == ['}'];
    if m.NoMembers? {
      TabsIndent(if fmt && depth > 0 then depth - 1 else 0, ['}']);
      assert "{\n" == ['{'] + ['\n'];
      Regroup(['{'], ['\n'], Indent(if depth > 0 then depth - 1 else 0) + ['}']);
      Regroup("{\n", Indent(if depth > 0 then depth - 1 else 0), ['}']);
    } else {
      var end := Tabs(if fmt then depth else 0, ['}']);
      TabsIndent(if fmt then depth else 0, ['}']);
      MembersJoined(m, depth + 1, fmt, end);
      hide MembersText, Lines, Join, Indent;
      Braces(Join(Lines(m, depth + 1, fmt), ",\n"), Indent(depth));
      Regroup(['{'], Join(Lines(m, depth + 1, fmt), ","), ['}']);
      assert !fmt ==> end == ['}'] && [] + end == end;
    }
  }

  lemma Braces(lines: string, indent: string)
    ensures ['{'] + (['\n'] + (lines + (['\n'] + (indent + ['}'])))) == "{\n" + lines + "\n" + indent + ['}']
  {
    assert "{\n" == ['{'] + ['\n'] && "\n" == ['\n'];
    FiveParts(['{'], ['\n'], lines, ['\n'], indent, ['}']);
  }

  // ---------------------------------------------------------------- strings and numbers

  /** Only quotes, backslashes and control characters are escaped, five of those by a letter and the
      others by four digits in lower case. */
  lemma EscapeForms(c: char)
    ensures c as int >= 32 && c != '"' && c != '\\' ==> Escape(c) == [c]
    ensures Escape('"') == "\\\"" && Escape('\\') == "\\\\"
    ensures Escape('\U{0008}') == "\\b" && Escape('\U{0009}') == "\\t" && Escape('\U{000A}') == "\\n"
    ensures Escape('\U{000C}') == "\\f" && Escape('\U{000D}') == "\\r"
    ensures c as int < 8 || c as int == 11 || 14 <= c as int < 32 ==>
      Escape(c) == ['\\', 'u'] + FourOf(c as int, [false, false, false, false])
  {
    if c as int < 8 || c as int == 11 || 14 <= c as int < 32 {
      ControlForm(c as int);
    }
    hide FourOf, HexChar;
  }

  lemma ControlForm(n: nat)
    requires n < 32
    ensures ['\\', 'u'] + FourOf(n, [false, false, false, false]) == ['\\', 'u', '0', '0', HexChar(n / 16), HexChar(n % 16)]
  {
    assert n / 4096 == 0 && n / 256 % 16 == 0 && n / 16 % 16 == n / 16;
    HexForm(n / 16);
    HexForm(n % 16);
    HexForm(0);
    hide DigitOf, HexChar;
  }

  lemma HexForm(d: nat)
    requires d < 16
    ensures DigitOf(d, false) == HexChar(d) && HexChar(0) == '0'
  {
  }

  lemma {:induction false} DecimalPlaces(n: nat)
    ensures var s := Decimal(n, []);
      && s != [] && JsonSound.AllDigits(s)
      && JsonSound.Places(s) == n && (n > 0 ==> s[0] != '0') && (n == 0 ==> s == ['0'])
  {
    var d := [DigitChar(n % 10)];
    if n < 10 {
      assert d + [] == d && d[..0] == [];
    } else {
      DecimalPlaces(n / 10);
      DecimalThen(n / 10, [], d);
      assert [] + d == d && d + [] == d;
      var s := Decimal(n / 10, []) + d;
      assert s[..|s| - 1] == Decimal(n / 10, []);
    }
  }

  /** A number is its decimal places, without a zero in front; one whose double is zero is "0". */
  lemma NumberLayout(n: int, d: int)
    ensures d == 0 ==> NumberText(n, d, []) == "0"
    ensures d != 0 ==>
      var s := if n < 0 then NumberText(n, d, [])[1..] else NumberText(n, d, []);
      && s != [] && JsonSound.AllDigits(s) && (n != 0 ==> s[0] != '0')
      && (n < 0 ==> NumberText(n, d, [])[0] == '-') && JsonSound.Places(s) == if n < 0 then -n else n
  {
    DecimalPlaces(if n < 0 then -n else n);
    hide JsonSound.Places, Decimal;
  }
}
