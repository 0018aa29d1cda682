/** The parsers of cJSON.c as they run: a pointer into the text, loops that move it, and items
    chained one after the other. */
module JsonParser {
  import opened Common
  import opened JsonParse
  import opened JsonStrings
  import opened JsonText

  /** An item and the offset after it, or a null pointer. A run is cut off where it would read past
      the NUL of the text, write past the end of an output, or leave the range of int. */
  datatype Result<+T> = Nothing | Cut | At(value: T, at: nat) {
    function PropagateFailure<U>(): (r: Result<U>)
      requires !At?
    {
      if Nothing? then Nothing else Cut
    }
  }

  /** A method's result at offset `i` is what the function makes of the text from there on. */
  predicate Answers<T(==)>(s: string, i: nat, r: Result<T>, spec: Outcome<T>) {
    match r
    case Nothing => spec.Rejected?
    case Cut => spec.Undefined?
    case At(value, at) => i <= at <= |s| && spec == Parsed(value, s[at..])
  }

  function Char(s: string, i: nat): char {
    if i < |s| then s[i] else '\0'
  }

  lemma FirstChar(s: string, i: nat)
    requires i <= |s|
    ensures First(s[i..]) == Char(s, i)
    ensures i < |s| ==> s[i..] != [] && s[i..][1..] == s[i + 1..]
    ensures i == |s| ==> s[i..] == []
  {
  }

  /** `skip`. */
  method SkipAt(s: string, i: nat) returns (j: nat)
    requires i <= |s|
    ensures i <= j <= |s| && s[j..] == Skip(s[i..])
  {
    j := i;
    while j < |s| && s[j] as int <= 32
      invariant i <= j <= |s| && Skip(s[j..]) == Skip(s[i..])
    {
      FirstChar(s, j);
      j := j + 1;
    }
    FirstChar(s, j);
  }

  // ---------------------------------------------------------------- numbers

  /** The loop over digits. */
  method DigitsAt(s: string, i: nat) returns (r: Result<nat>)
    requires i <= |s|
    ensures Answers(s, i, r, Digits(0, s[i..]))
  {
    var n: nat, j: nat := 0, i;
    while Digit(Char(s, j))
      invariant i <= j <= |s| && Digits(n, s[j..]) == Digits(0, s[i..])
      decreases |s| - j
    {
      FirstChar(s, j);
      n := n * 10 + DigitValue(s[j]);
      if n > 0x7fff_ffff {
        return Cut;
      }
      j := j + 1;
    }
    FirstChar(s, j);
    r := At(n, j);
  }

  function Signed(negative: bool, n: Outcome<nat>): Outcome<Json> {
    if !n.Parsed? then n.PropagateFailure()
    else
      var valueint: int := n.value;
      Parsed(Number(if negative then -valueint else valueint, 0), n.rest)
  }

  /** The sign, the zero and the digits of a number, in place. */
  lemma NumberAt(s: string, i: nat)
    requires i <= |s|
    ensures var j := if Char(s, i) == '-' then i + 1 else i;
            var k := if Char(s, j) == '0' then j + 1 else j;
      && k <= |s|
      && ParseNumber(s[i..])
      == Signed(Char(s, i) == '-', if '1' <= Char(s, k) <= '9' then Digits(0, s[k..]) else Parsed(0, s[k..]))
  {
    var j := if Char(s, i) == '-' then i + 1 else i;
    var k := if Char(s, j) == '0' then j + 1 else j;
    FirstChar(s, i);
    FirstChar(s, j);
    FirstChar(s, k);
    hide Digits;
  }

  /** `parse_number`. */
  method ParseNumberAt(s: string, i: nat) returns (r: Result<Json>)
    requires i <= |s|
    ensures Answers(s, i, r, ParseNumber(s[i..]))
  {
    hide Digits, ParseNumber;
    NumberAt(s, i);
    var negative := false;
    var j := i;
    if Char(s, j) == '-' {
      negative := true;
      j := j + 1;
    }
    if Char(s, j) == '0' {
      j := j + 1;
    }
    var n := At(0, j);
    if '1' <= Char(s, j) <= '9' {
      n := DigitsAt(s, j);
      if n.Cut? {
        return Cut;
      }
    }
    var valueint: int := n.value;
    r := At(Number(if negative then -valueint else valueint, 0), n.at);
  }

  // ---------------------------------------------------------------- strings

  function Added(n: nat, r: Outcome<nat>): Outcome<nat> {
    if r.Parsed? then Parsed(n + r.value, r.rest) else r
  }

  /** A turn of the first loop of `parse_string`. */
  lemma CountAt(s: string, ptr: nat, n: nat)
    requires ptr < |s| && s[ptr] != '"'
    ensures Added(n, Count(s[ptr..])) ==
      if s[ptr] != '\\' then Added(n + 1, Count(s[ptr + 1..]))
      else if ptr + 1 == |s| then Undefined
      else Added(n + 1, Count(s[ptr + 2..]))
  {
    FirstChar(s, ptr);
    if s[ptr] == '\\' {
      if ptr + 1 == |s| {
        assert s[ptr..] == ['\\'];
      } else {
        assert s[ptr..][2..] == s[ptr + 2..];
      }
    }
  }

  lemma CountEnd(s: string, ptr: nat, n: nat)
    requires ptr <= |s| && (ptr < |s| ==> s[ptr] == '"')
    ensures Added(n, Count(s[ptr..])) == Parsed(n, s[ptr..])
  {
    FirstChar(s, ptr);
  }

  /** The first loop of `parse_string`. */
  method ScanString(s: string, start: nat) returns (len: Result<nat>)
    requires start <= |s|
    ensures Answers(s, start, len, Count(s[start..]))
  {
    var n: nat, ptr: nat := 0, start;
    assert Added(0, Count(s[start..])) == Count(s[start..]);
    hide Count, Added;
    while ptr < |s| && s[ptr] != '"'
      invariant start <= ptr <= |s| && Added(n, Count(s[ptr..])) == Count(s[start..])
      decreases |s| - ptr
    {
      CountAt(s, ptr, n);
      n := n + 1;
      if s[ptr] == '\\' {
        ptr := ptr + 1;
        if ptr == |s| {
          return Cut;
        }
      }
      ptr := ptr + 1;
    }
    CountEnd(s, ptr, n);
    len := At(n, ptr);
  }

  /** What is written already, and the outcome of the rest. */
  function Prefixed(done: string, r: Outcome<string>): Outcome<string> {
    if r.Parsed? then Parsed(done + r.value, r.rest) else r
  }

  /** A turn of the second loop of `parse_string`. */
  lemma TurnAt(s: string, ptr: nat, done: string)
    requires ptr < |s| && s[ptr] != '"'
    ensures s[ptr..] != []
    ensures var p, whole := Piece(s[ptr..]), Prefixed(done, Unquote(s[ptr..]));
      if p.Undefined? then whole == Undefined
      else ptr < |s| - |p.rest| && whole == Prefixed(done + p.value, Unquote(s[|s| - |p.rest|..]))
  {
    var t := s[ptr..];
    hide Piece;
    PieceStrides(t);
    if Piece(t).Parsed? {
      UnquoteTurn(t);
      DropTwice(s, ptr, Stride(t));
      if Unquote(Piece(t).rest).Parsed? {
        Reassociate(done, Piece(t).value, Unquote(Piece(t).rest).value);
      }
      hide Unquote;
    }
  }

  lemma Reassociate(a: string, b: string, c: string)
    ensures a + (b + c) == (a + b) + c
  {
  }

  /** `q` as far as an output of `len` characters holds it. */
  function Fitted(q: Outcome<string>, len: nat): Outcome<string> {
    if q.Parsed? && |q.value| <= len then q else Undefined
  }

  lemma PrefixedNothing(q: Outcome<string>)
    requires !q.Rejected?
    ensures Prefixed([], q) == q
  {
    if q.Parsed? {
      assert [] + q.value == q.value;
    }
  }

  /** The end of the second loop. */
  lemma CopyEnd(s: string, start: nat, ptr: nat, done: string, len: nat)
    requires start <= ptr <= |s| && (ptr < |s| ==> s[ptr] == '"')
    requires Unquote(s[start..]) == Prefixed(done, Unquote(s[ptr..]))
    ensures var r := if |done| > len then Cut else At(done, if ptr < |s| then ptr + 1 else ptr);
      Answers(s, start, r, Fitted(Unquote(s[start..]), len))
  {
    FirstChar(s, ptr);
    assert done + [] == done;
    assert Unquote(s[ptr..]) == Parsed([], s[if ptr < |s| then ptr + 1 else ptr..]);
    hide Unquote;
  }

  lemma CutAnswers(s: string, start: nat, q: Outcome<string>)
    requires q == Undefined
    ensures Answers(s, start, Cut, q)
  {
  }

  /** What is written already is too long. */
  lemma TooLong(whole: Outcome<string>, done: string, r: Outcome<string>, len: nat)
    requires whole == Prefixed(done, r) && |done| > len && !r.Rejected?
    ensures Fitted(whole, len) == Undefined
  {
  }

  /** What the second loop does next at `ptr`, with `done` written in an output of `size`: the
      piece that goes to the output and the place after it, or nothing when the run is cut off. */
  method NextPiece(s: string, ptr: nat, ghost done: string, n: nat, size: nat)
    returns (cut: bool, piece: string, ptr': nat)
    requires ptr < |s| && s[ptr] != '"' && n == |done| && size > 0
    ensures cut ==> Fitted(Prefixed(done, Unquote(s[ptr..])), size - 1) == Undefined
    ensures !cut ==> ptr < ptr' <= |s| && n + |piece| <= size
    ensures !cut ==> Prefixed(done, Unquote(s[ptr..])) == Prefixed(done + piece, Unquote(s[ptr'..]))
  {
    assert Fitted(Undefined, size - 1) == Undefined;
    hide *;
    TurnAt(s, ptr, done);
    cut, piece, ptr' := true, [], ptr;
    var p := Piece(s[ptr..]);
    if p.Parsed? {
      piece, ptr' := p.value, |s| - |p.rest|;
      cut := n + |piece| > size;
      if cut {
        TooLong(Prefixed(done, Unquote(s[ptr..])), done + piece, Unquote(s[ptr'..]), size - 1);
      }
    }
  }

  /** The second loop of `parse_string`, with an output of `len` characters and a NUL. */
  method CopyString(s: string, start: nat, len: nat) returns (r: Result<string>)
    requires start <= |s|
    ensures Answers(s, start, r, Fitted(Unquote(s[start..]), len))
  {
    var out := new char[len + 1](_ => '\0');
    var ptr: nat, ptr2: nat := start, 0;
    ghost var whole, done: string := Unquote(s[start..]), [];
    PrefixedNothing(whole);
    hide *;
    while ptr < |s| && s[ptr] != '"'
      invariant start <= ptr <= |s| && ptr2 == |done| <= out.Length && out[..ptr2] == done
      invariant whole == Prefixed(done, Unquote(s[ptr..]))
      decreases |s| - ptr
    {
      var cut, piece, next := NextPiece(s, ptr, done, ptr2, len + 1);
      if cut {
        CutAnswers(s, start, Fitted(whole, len));
        return Cut;
      }
      Memcpy(out, ptr2, piece);
      done := done + piece;
      ptr, ptr2 := next, ptr2 + |piece|;
    }
    CopyEnd(s, start, ptr, done, len);
    if ptr2 == out.Length {
      return Cut;
    }
    out[ptr2] := '\0';
    r := At(out[..ptr2], if ptr < |s| then ptr + 1 else ptr);
  }

  /** `parse_string`. */
  method ParseStringAt(s: string, i: nat) returns (r: Result<string>)
    requires i <= |s|
    ensures Answers(s, i, r, ParseString(s[i..]))
  {
    FirstChar(s, i);
    if Char(s, i) != '"' {
      return Nothing;
    }
    var len := ScanString(s, i + 1);
    if len.Cut? {
      return Cut;
    }
    r := CopyString(s, i + 1, len.value);
  }

  // ---------------------------------------------------------------- arrays

  /** A chain of items, then a list. */
  function Chained(items: seq<Json>, tail: List): List
    decreases |items|
  {
    if items == [] then tail else Cons(items[0], Chained(items[1..], tail))
  }

  lemma {:induction false} ChainedSnoc(items: seq<Json>, v: Json, tail: List)
    ensures Chained(items + [v], tail) == Chained(items, Cons(v, tail))
    decreases |items|
  {
    if items == [] {
      assert (items + [v])[1..] == [];
    } else {
      assert (items + [v])[1..] == items[1..] + [v];
      ChainedSnoc(items[1..], v, tail);
    }
  }

  /** What `parse_list` makes of the text after an element. */
  function AfterItem(t: string): Outcome<List> {
    if First(t) == ',' then ParseList(t[1..])
    else if First(t) == ']' then Parsed(Nil, t[1..])
    else Rejected
  }

  function WithItems(items: seq<Json>, o: Outcome<List>): Outcome<List> {
    if !o.Parsed? then o else Parsed(Chained(items, o.value), o.rest)
  }

  /** An element at `i`, and the place after it. */
  lemma ItemParsed(s: string, i: nat, items: seq<Json>, v: Json, at: nat, j: nat)
    requires i <= at <= j <= |s| && ParseValue(Skip(s[i..])) == Parsed(v, s[at..]) && s[j..] == Skip(s[at..])
    ensures WithItems(items, ParseList(s[i..])) == WithItems(items + [v], AfterItem(s[j..]))
  {
    var o := AfterItem(s[j..]);
    assert ParseList(s[i..]) == if !o.Parsed? then o else Parsed(Cons(v, o.value), o.rest);
    if o.Parsed? {
      ChainedSnoc(items, v, o.value);
    }
  }

  lemma NoItem(s: string, i: nat, items: seq<Json>)
    requires i <= |s| && !ParseValue(Skip(s[i..])).Parsed?
    ensures WithItems(items, ParseList(s[i..])) == ParseValue(Skip(s[i..])).PropagateFailure()
  {
  }

  /** After an entry: a comma and the next one, the end, or neither. */
  lemma ItemEnd(s: string, items: seq<Json>, j: nat)
    requires j <= |s|
    ensures WithItems(items, AfterItem(s[j..])) ==
      if Char(s, j) == ',' then WithItems(items, ParseList(s[j + 1..]))
      else if Char(s, j) == ']' then Parsed(Chained(items, Nil), s[j + 1..])
      else Rejected
  {
    FirstChar(s, j);
    hide ParseList, Chained;
  }

  /** The loop of `parse_array`, from its first element on. */
  method ParseListAt(s: string, start: nat) returns (r: Result<List>)
    requires start <= |s|
    ensures Answers(s, start, r, ParseList(s[start..]))
    decreases |s| - start, 6
  {
    ghost var whole := ParseList(s[start..]);
    var items, i, more := [], start, true;
    assert WithItems([], whole) == whole;
    r := Nothing;
    hide *;
    while more
      invariant start <= i <= |s|
      invariant more ==> whole == WithItems(items, ParseList(s[i..]))
      invariant !more ==> Answers(s, start, r, whole)
      decreases more, |s| - i
    {
      more, r, items, i := ItemTurn(s, start, i, items, whole);
    }
  }

  /** One turn of the loop of `parse_array`. */
  method ItemTurn(s: string, start: nat, i: nat, items: seq<Json>, ghost whole: Outcome<List>)
    returns (more: bool, r: Result<List>, items': seq<Json>, i': nat)
    requires start <= i <= |s| && whole == WithItems(items, ParseList(s[i..]))
    ensures start <= i' <= |s|
    ensures more ==> i < i' && whole == WithItems(items', ParseList(s[i'..]))
    ensures !more ==> Answers(s, start, r, whole)
    decreases |s| - i, 5
  {
    hide ParseList, ParseValue, Skip, AfterItem, WithItems, Chained;
    more, r, items', i' := false, Nothing, items, i;
    var at := SkipAt(s, i);
    var v := ParseValueAt(s, at);
    if !v.At? {
      NoItem(s, i, items);
      r := v.PropagateFailure();
      return;
    }
    var j := SkipAt(s, v.at);
    ItemParsed(s, i, items, v.value, v.at, j);
    items' := items + [v.value];
    ItemEnd(s, items', j);
    if Char(s, j) == ',' {
      return true, Nothing, items', j + 1;
    }
    if Char(s, j) == ']' {
      return false, At(Chained(items', Nil), j + 1), items', j;
    }
  }

  /** `parse_value`. */
  method ParseValueAt(s: string, i: nat) returns (r: Result<Json>)
    requires i <= |s|
    ensures Answers(s, i, r, ParseValue(s[i..]))
    decreases |s| - i, 3
  {
    FirstChar(s, i);
    var c := Char(s, i);
    if StartsAt(s, i, "null") {
      return At(Null, i + 4);
    }
    if StartsAt(s, i, "false") {
      return At(False, i + 5);
    }
    if StartsAt(s, i, "true") {
      return At(True, i + 4);
    }
    if c == '"' {
      var t := ParseStringAt(s, i);
      return if !t.At? then t.PropagateFailure() else At(Str(t.value), t.at);
    }
    if c == '-' || '0' <= c <= '9' {
      r := ParseNumberAt(s, i);
      return;
    }
    if c == '[' {
      r := ParseArrayAt(s, i);
    } else if c == '{' {
      r := ParseObjectAt(s, i);
    } else {
      r := Nothing;
    }
  }

  /** `parse_array` at its opening bracket. */
  method ParseArrayAt(s: string, i: nat) returns (r: Result<Json>)
    requires i < |s| && s[i] == '['
    ensures Answers(s, i, r, ParseValue(s[i..]))
    decreases |s| - i, 2
  {
    ArrayValue(s, i);
    var j := SkipAt(s, i + 1);
    FirstChar(s, j);
    if Char(s, j) == ']' {
      return At(Array(Nil), j + 1);
    }
    var l := ParseListAt(s, j);
    r := if !l.At? then l.PropagateFailure() else At(Array(l.value), l.at);
  }

  lemma NoWord(s: string, i: nat)
    requires i < |s| && s[i] != 'n' && s[i] != 'f' && s[i] != 't'
    ensures !Starts(s[i..], "null") && !Starts(s[i..], "false") && !Starts(s[i..], "true")
  {
  }

  lemma ArrayValue(s: string, i: nat)
    requires i < |s| && s[i] == '['
    ensures ParseValue(s[i..]) ==
      var t := Skip(s[i + 1..]);
      if First(t) == ']' then Parsed(Array(Nil), t[1..])
      else if !ParseList(t).Parsed? then ParseList(t).PropagateFailure()
      else Parsed(Array(ParseList(t).value), ParseList(t).rest)
  {
    FirstChar(s, i);
    NoWord(s, i);
    hide ParseList, Skip;
  }

  // ---------------------------------------------------------------- objects

  /** A chain of named items, then members. */
  function Linked(items: seq<(string, Json)>, tail: Members): Members
    decreases |items|
  {
    if items == [] then tail else Member(items[0].0, items[0].1, Linked(items[1..], tail))
  }

  lemma {:induction false} LinkedSnoc(items: seq<(string, Json)>, v: (string, Json), tail: Members)
    ensures Linked(items + [v], tail) == Linked(items, Member(v.0, v.1, tail))
    decreases |items|
  {
    if items == [] {
      assert (items + [v])[1..] == [];
    } else {
      assert (items + [v])[1..] == items[1..] + [v];
      LinkedSnoc(items[1..], v, tail);
    }
  }

  /** What `parse_object` makes of the text after a member. */
  function AfterMember(t: string): Outcome<Members> {
    if First(t) == ',' then ParseMembers(t[1..])
    else if First(t) == '}' then Parsed(NoMembers, t[1..])
    else Rejected
  }

  function WithMembers(items: seq<(string, Json)>, o: Outcome<Members>): Outcome<Members> {
    if !o.Parsed? then o else Parsed(Linked(items, o.value), o.rest)
  }

  /** A member read in one go: name, colon and value. */
  function NamedValue(t: string): Outcome<(string, Json)> {
    var name := ParseString(Skip(t));
    if !name.Parsed? then name.PropagateFailure()
    else
      var u := Skip(name.rest);
      if First(u) != ':' then Rejected
      else
        var p := ParseValue(Skip(u[1..]));
        if !p.Parsed? then p.PropagateFailure() else Parsed((name.value, p.value), p.rest)
  }

  lemma MembersByName(t: string)
    ensures ParseMembers(t) ==
      var p := NamedValue(t);
      if !p.Parsed? then p.PropagateFailure()
      else
        var o := AfterMember(Skip(p.rest));
        if !o.Parsed? then o else Parsed(Member(p.value.0, p.value.1, o.value), o.rest)
  {
    hide Skip, ParseString, ParseValue;
  }

  /** `parse_string`, the colon and `parse_value` of a member. */
  method NamedValueAt(s: string, i: nat) returns (r: Result<(string, Json)>)
    requires i <= |s|
    ensures Answers(s, i, r, NamedValue(s[i..]))
    decreases |s| - i, 4
  {
    hide Skip, ParseString, ParseValue;
    var at := SkipAt(s, i);
    var name := ParseStringAt(s, at);
    if !name.At? {
      return name.PropagateFailure();
    }
    var j := SkipAt(s, name.at);
    FirstChar(s, j);
    if Char(s, j) != ':' {
      return Nothing;
    }
    var k := SkipAt(s, j + 1);
    var v := ParseValueAt(s, k);
    r := if !v.At? then v.PropagateFailure() else At((name.value, v.value), v.at);
  }

  lemma MemberParsed(s: string, i: nat, items: seq<(string, Json)>, v: (string, Json), at: nat, j: nat)
    requires i <= at <= j <= |s| && NamedValue(s[i..]) == Parsed(v, s[at..]) && s[j..] == Skip(s[at..])
    ensures WithMembers(items, ParseMembers(s[i..])) == WithMembers(items + [v], AfterMember(s[j..]))
  {
    MembersByName(s[i..]);
    var o := AfterMember(s[j..]);
    if o.Parsed? {
      LinkedSnoc(items, v, o.value);
    }
    hide AfterMember, NamedValue, ParseMembers, Skip;
  }

  /** After an entry: a comma and the next one, the end, or neither. */
  lemma MemberEnd(s: string, items: seq<(string, Json)>, j: nat)
    requires j <= |s|
    ensures WithMembers(items, AfterMember(s[j..])) ==
      if Char(s, j) == ',' then WithMembers(items, ParseMembers(s[j + 1..]))
      else if Char(s, j) == '}' then Parsed(Linked(items, NoMembers), s[j + 1..])
      else Rejected
  {
    FirstChar(s, j);
    hide ParseMembers, Linked;
  }

  lemma NoMember(s: string, i: nat, items: seq<(string, Json)>)
    requires i <= |s| && !NamedValue(s[i..]).Parsed?
    ensures WithMembers(items, ParseMembers(s[i..])) == NamedValue(s[i..]).PropagateFailure()
  {
    MembersByName(s[i..]);
  }

  /** The loop of `parse_object`, from its first member on. */
  method ParseMembersAt(s: string, start: nat) returns (r: Result<Members>)
    requires start <= |s|
    ensures Answers(s, start, r, ParseMembers(s[start..]))
    decreases |s| - start, 6
  {
    ghost var whole := ParseMembers(s[start..]);
    var items, i, more := [], start, true;
    assert WithMembers([], whole) == whole;
    r := Nothing;
    hide *;
    while more
      invariant start <= i <= |s|
      invariant more ==> whole == WithMembers(items, ParseMembers(s[i..]))
      invariant !more ==> Answers(s, start, r, whole)
      decreases more, |s| - i
    {
      more, r, items, i := MemberTurn(s, start, i, items, whole);
    }
  }

  /** One turn of the loop of `parse_object`. */
  method MemberTurn(s: string, start: nat, i: nat, items: seq<(string, Json)>, ghost whole: Outcome<Members>)
    returns (more: bool, r: Result<Members>, items': seq<(string, Json)>, i': nat)
    requires start <= i <= |s| && whole == WithMembers(items, ParseMembers(s[i..]))
    ensures start <= i' <= |s|
    ensures more ==> i < i' && whole == WithMembers(items', ParseMembers(s[i'..]))
    ensures !more ==> Answers(s, start, r, whole)
    decreases |s| - i, 5
  {
    hide ParseMembers, NamedValue, Skip, AfterMember, WithMembers, Linked;
    more, r, items', i' := false, Nothing, items, i;
    var v := NamedValueAt(s, i);
    if !v.At? {
      NoMember(s, i, items);
      r := v.PropagateFailure();
      return;
    }
    var j := SkipAt(s, v.at);
    NamedAdvances(s, i, v.at);
    MemberParsed(s, i, items, v.value, v.at, j);
    items' := items + [v.value];
    MemberEnd(s, items', j);
    if Char(s, j) == ',' {
      return true, Nothing, items', j + 1;
    }
    if Char(s, j) == '}' {
      return false, At(Linked(items', NoMembers), j + 1), items', j;
    }
  }

  lemma NamedAdvances(s: string, i: nat, at: nat)
    requires i <= |s| && at <= |s| && NamedValue(s[i..]).Parsed? && NamedValue(s[i..]).rest == s[at..]
    ensures i < at
  {
    hide Skip, ParseString, ParseValue;
  }

  /** `parse_object` at its opening brace. */
  method ParseObjectAt(s: string, i: nat) returns (r: Result<Json>)
    requires i < |s| && s[i] == '{'
    ensures Answers(s, i, r, ParseValue(s[i..]))
    decreases |s| - i, 2
  {
    ObjectValue(s, i);
    var j := SkipAt(s, i + 1);
    FirstChar(s, j);
    if Char(s, j) == '}' {
      return At(Object(NoMembers), j + 1);
    }
    var m := ParseMembersAt(s, j);
    r := if !m.At? then m.PropagateFailure() else At(Object(m.value), m.at);
  }

  lemma ObjectValue(s: string, i: nat)
    requires i < |s| && s[i] == '{'
    ensures ParseValue(s[i..]) ==
      var t := Skip(s[i + 1..]);
      if First(t) == '}' then Parsed(Object(NoMembers), t[1..])
      else if !ParseMembers(t).Parsed? then ParseMembers(t).PropagateFailure()
      else Parsed(Object(ParseMembers(t).value), ParseMembers(t).rest)
  {
    FirstChar(s, i);
    NoWord(s, i);
    hide ParseMembers, Skip;
  }

  // ---------------------------------------------------------------- entry points

  /** `cJSON_ParseWithOpts`, with the end of what was parsed. */
  method ParseWithOpts(s: string, requireEnd: bool) returns (r: Result<Json>)
    ensures Answers(s, 0, r, Parse(s, requireEnd))
  {
    assert s[0..] == s;
    var i := SkipAt(s, 0);
    r := ParseValueAt(s, i);
    if r.At? && requireEnd {
      var end := SkipAt(s, r.at);
      FirstChar(s, end);
      r := if end < |s| then Nothing else At(r.value, end);
    }
  }

  /** `!strncmp(value, word, ...)`. */
  predicate StartsAt(s: string, i: nat, word: string)
    requires i <= |s|
    ensures StartsAt(s, i, word) == Starts(s[i..], word)
    ensures StartsAt(s, i, word) ==> i + |word| <= |s| && s[i + |word|..] == s[i..][|word|..]
  {
    i + |word| <= |s| && s[i..i + |word|] == word
  }
}
