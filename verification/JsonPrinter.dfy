/** The printers of cJSON.c without a buffer: each entry is printed on its own, and an output of
    the summed length is composed from them. */
module JsonPrinter {
  import opened Common
  import opened JsonBuffer
  import opened JsonBuffered
  import opened JsonRoundTrip
  import opened JsonText

  // ---------------------------------------------------------------- entries

  /** Texts in a row, from number `i` on. */
  function Row(pieces: seq<string>, i: nat): string
    requires i <= |pieces|
    decreases |pieces| - i
  {
    if i == |pieces| then [] else pieces[i] + Row(pieces, i + 1)
  }

  lemma {:induction false} RowSnoc(pieces: seq<string>, piece: string, i: nat)
    requires i <= |pieces|
    ensures Row(pieces + [piece], i) == Row(pieces, i) + piece
    decreases |pieces| - i
  {
    if i == |pieces| {
      assert Row(pieces + [piece], i) == piece + [] && [] + piece == piece + [];
    } else {
      RowSnoc(pieces, piece, i + 1);
      Joined(pieces[i], Row(pieces, i + 1), piece);
    }
  }

  /** The copying loop of the printers: one piece after another into an output that is long
      enough. */
  method Compose(out: array<char>, start: nat, pieces: seq<string>) returns (ptr: nat)
    requires start + |Row(pieces, 0)| <= out.Length
    modifies out
    ensures ptr == start + |Row(pieces, 0)| && out[..ptr] == old(out[..start]) + Row(pieces, 0)
  {
    ptr := start;
    ghost var before, all := out[..start], out[..start] + Row(pieces, 0);
    assert Row(pieces, |pieces|) == [];
    var i := 0;
    while i < |pieces|
      invariant 0 <= i <= |pieces| && ptr <= out.Length && out[..ptr] + Row(pieces, i) == all
    {
      Joined(out[..ptr], pieces[i], Row(pieces, i + 1));
      assert |out[..ptr] + (pieces[i] + Row(pieces, i + 1))| == ptr + |pieces[i]| + |Row(pieces, i + 1)|;
      Memcpy(out, ptr, pieces[i]);
      ptr := ptr + |pieces[i]|;
      i := i + 1;
    }
    assert out[..ptr] + [] == out[..ptr];
  }

  // ---------------------------------------------------------------- values

  /** `print_value` without a buffer. */
  method PrintValue(v: Json, depth: nat, fmt: bool) returns (out: string)
    requires Printable(v)
    ensures out == Text(v, depth, fmt, [])
    decreases v, 0
  {
    match v
    case Null => assert "null" + [] == "null"; out := "null";
    case False => assert "false" + [] == "false"; out := "false";
    case True => assert "true" + [] == "true"; out := "true";
    case Number(n, d) => out := NumberText(n, d, []);
    case Str(s) => out := PrintString(s);
    case Array(l) => out := PrintArray(l, depth, fmt);
    case Object(m) => out := PrintObject(m, depth, fmt);
  }

  /** `print_string_ptr` without a buffer: the output has the length computed for it. */
  method PrintString(s: string) returns (out: string)
    requires Bytes(s)
    ensures out == Quoted(s, [])
  {
    QuotedIs(s);
    var flag := NeedsEscapes(s);
    if !flag {
      EscapedPlain(s, []);
      assert s + [] == s;
      return ['"'] + (s + ['"']);
    }
    var len := EscapedLength(s);
    var str := new char[len + 3](_ => '\0');
    str[0] := '"';
    assert str[..1] == ['"'];
    WriteEscaped(str, 1, s);
    out := str[..len + 2];
    assert out == str[..1 + len + 2][..len + 2];
    assert ['"'] + Escaped(s, []) + ['"', '\0'] == (['"'] + (Escaped(s, []) + ['"'])) + ['\0'];
  }

  /** `print_array` without a buffer. */
  method PrintArray(l: List, depth: nat, fmt: bool) returns (text: string)
    requires PrintableList(l)
    ensures text == Text(Array(l), depth, fmt, [])
    decreases l, 2
  {
    if l.Nil? {
      assert Text(Array(l), depth, fmt, []) == "[]";
      return "[]";
    }
    ArrayText(l, depth, fmt);
    var entries, len := ArrayEntries(l, depth, fmt);
    ghost var inside := ListText(l, depth + 1, fmt, []);
    hide *;
    text := Enclose(['['], entries, [']'], len, inside);
  }

  /** An output of length `len`: the opening, the pieces, the end and a NUL. */
  method Enclose(opening: string, pieces: seq<string>, end: string, len: nat, ghost inside: string) returns (text: string)
    requires inside == Row(pieces, 0) && |opening| + |inside| + |end| < len
    ensures text == opening + (inside + end)
  {
    hide Row;
    var out := new char[len](_ => '\0');
    assert out[..0] == [] && [] + opening == opening;
    Memcpy(out, 0, opening);
    var ptr := Compose(out, |opening|, pieces);
    Memcpy(out, ptr, end + ['\0']);
    var n := ptr + |end|;
    text := out[..n];
    assert out[..n] == out[..n + 1][..n];
    assert (opening + inside) + (end + ['\0']) == (opening + (inside + end)) + ['\0'];
  }

  /** The texts of the elements with their separators, and the length `print_array` adds up. */
  method ArrayEntries(l: List, depth: nat, fmt: bool) returns (pieces: seq<string>, len: nat)
    requires l.Cons? && PrintableList(l)
    ensures Row(pieces, 0) == ListText(l, depth + 1, fmt, [])
    ensures 1 + |Row(pieces, 0)| + 1 < len
    decreases l, 1
  {
    pieces, len := [], 5;
    var child := l;
    ghost var text := ListText(l, depth + 1, fmt, []);
    assert text == Row(pieces, 0) + RestOfList(child, depth + 1, fmt);
    while child.Cons?
      invariant PrintableList(child) && (child == l || child < l)
      invariant Row(pieces, 0) + RestOfList(child, depth + 1, fmt) == text
      invariant |Row(pieces, 0)| + 5 <= len
      decreases child
    {
      var ret := PrintElement(child, depth + 1, fmt);
      ListParts(child, depth + 1, fmt);
      RowSnoc(pieces, ret.0, 0);
      Joined(Row(pieces, 0), ret.0, RestOfList(child.next, depth + 1, fmt));
      pieces := pieces + [ret.0];
      len := len + ret.1;
      child := child.next;
    }
    assert Row(pieces, 0) + [] == Row(pieces, 0);
  }

  /** An entry with its separator, and what it adds to the length. */
  method PrintElement(l: List, depth: nat, fmt: bool) returns (r: (string, nat))
    requires l.Cons? && PrintableList(l)
    ensures r.0 == ElementText(l, depth, fmt) && |r.0| <= r.1
    decreases l, 0
  {
    var ret := PrintValue(l.item, depth, fmt);
    hide Text;
    r := (ret + Comma(l.next.Cons?, fmt), |ret| + 2 + if fmt then 1 else 0);
  }

  /** `print_object` without a buffer. */
  method PrintObject(m: Members, depth: nat, fmt: bool) returns (text: string)
    requires PrintableMembers(m)
    ensures text == Text(Object(m), depth, fmt, [])
    decreases m, 2
  {
    ObjectParts(m, depth, fmt);
    if m.NoMembers? {
      return Opening(fmt) + (Tabs(if fmt then depth - 1 else 0, []) + ['}']);
    }
    var pieces, len := ObjectEntries(m, depth, fmt);
    TabsLength(if fmt then depth else 0);
    assert |Opening(fmt)| == if fmt then 2 else 1;
    ghost var inside := MembersText(m, depth + 1, fmt, []);
    var end := Tabs(if fmt then depth else 0, []) + ['}'];
    assert |end| == 1 + if fmt then depth else 0;
    hide *;
    text := Enclose(Opening(fmt), pieces, end, len, inside);
  }

  /** The texts of the members, and the length `print_object` adds up. */
  method ObjectEntries(m: Members, depth: nat, fmt: bool) returns (pieces: seq<string>, len: nat)
    requires m.Member? && PrintableMembers(m)
    ensures Row(pieces, 0) == MembersText(m, depth + 1, fmt, [])
    ensures (if fmt then 2 else 1) + |Row(pieces, 0)| + (1 + if fmt then depth else 0) < len
    decreases m, 1
  {
    pieces, len := [], 7 + if fmt then depth + 1 else 0;
    var child := m;
    ghost var text := MembersText(m, depth + 1, fmt, []);
    assert text == Row(pieces, 0) + RestOfMembers(child, depth + 1, fmt);
    while child.Member?
      invariant PrintableMembers(child) && (child == m || child < m)
      invariant Row(pieces, 0) + RestOfMembers(child, depth + 1, fmt) == text
      invariant |Row(pieces, 0)| + 7 + (if fmt then depth + 1 else 0) <= len
      decreases child
    {
      var ret := PrintMember(child, depth + 1, fmt);
      MembersParts(child, depth + 1, fmt);
      RowSnoc(pieces, ret.0, 0);
      Joined(Row(pieces, 0), ret.0, RestOfMembers(child.next, depth + 1, fmt));
      pieces := pieces + [ret.0];
      len := len + ret.1;
      child := child.next;
    }
    assert Row(pieces, 0) + [] == Row(pieces, 0);
  }

  /** A member with its separator, and what it adds to the length. */
  method PrintMember(m: Members, depth: nat, fmt: bool) returns (r: (string, nat))
    requires m.Member? && PrintableMembers(m)
    ensures r.0 == MemberText(m, depth, fmt) && |r.0| <= r.1
    decreases m, 0
  {
    var str := PrintString(m.name);
    var ret := PrintValue(m.item, depth, fmt);
    TabsLength(if fmt then depth else 0);
    hide Text, Quoted, Tabs;
    var tabs := Tabs(if fmt then depth else 0, []);
    r := (tabs + str + Colon(fmt) + (ret + Separator(m.next.Member?, fmt)),
          |ret| + |str| + 2 + if fmt then 2 + depth else 0);
  }

  /** `cJSON_Print`, `cJSON_PrintUnformatted` and `cJSON_PrintBuffered` agree on every value, every
      size of the first buffer and either format. */
  method PrintersAgree(v: Json, prebuffer: nat, fmt: bool) returns (a: string, b: string)
    requires Printable(v) && 0 < prebuffer <= MAX && Fits(0, Print(v, fmt))
    ensures a == b == Print(v, fmt)
  {
    a := PrintValue(v, 0, fmt);
    var buffer := PrintBuffered(v, prebuffer, fmt);
    b := buffer[..|a|];
  }
}
