/** The two loops of `parse_string`. The first counts an output for every escape; the second
    passes over four characters after a `\u` whatever they are, so it can step over the quote that
    stopped the first one. Exactly then the length counted does not bound what is written. */
module JsonStrings {
  import opened JsonParse

  // ---------------------------------------------------------------- strides

  /** A first half of a surrogate pair, from its backslash on, with a second escape behind it. */
  predicate PairAhead(t: string) {
    |t| >= 8 && 0xD800 <= Hex4(t[2..]) <= 0xDBFF && t[6] == '\\' && t[7] == 'u'
  }

  /** How many characters a turn of the second loop passes over. */
  function Stride(t: string): (n: nat)
    requires t != []
    ensures n > 0
  {
    if t[0] != '\\' then 1
    else if |t| == 1 || t[1] != 'u' then 2
    else if PairAhead(t) then 12
    else 6
  }

  /** Whether an escape of the second loop reaches over the end of `body`. */
  predicate Overruns(body: string)
    decreases |body|
  {
    if body == [] || body[0] == '"' then false
    else if Stride(body) > |body| then true
    else Overruns(body[Stride(body)..])
  }

  /** The first loop goes through `body` from end to end, counting `n`. */
  predicate Through(body: string, n: nat) {
    Count(body) == Parsed(n, [])
  }

  /** What the first loop can stop at: the closing quote or the end of the text. */
  predicate Closed(more: string) {
    more == [] || more[0] == '"'
  }

  lemma JoinedSlices(a: string, b: string, n: nat)
    requires n <= |a|
    ensures (a + b)[n..] == a[n..] + b
  {
  }

  lemma DropTwice(t: string, a: nat, b: nat)
    requires a + b <= |t|
    ensures t[a..][b..] == t[a + b..]
  {
  }

  lemma Hex4Local(a: string, more: string)
    requires Closed(more)
    ensures Hex4(a + more) == Hex4(a)
  {
  }

  /** A stride does not depend on what is behind the closing quote. */
  lemma StrideLocal(body: string, more: string)
    requires body != [] && Closed(more)
    ensures Stride(body + more) == Stride(body)
  {
    if |body| >= 2 {
      JoinedSlices(body, more, 2);
      Hex4Local(body[2..], more);
      hide Hex4;
    }
  }

  /** A turn of the second loop passes over its stride, or leaves the text. */
  lemma PieceStrides(t: string)
    requires t != [] && t[0] != '"'
    ensures Piece(t).Undefined? <==> Stride(t) > |t|
    ensures Piece(t).Parsed? ==> Piece(t).rest == t[Stride(t)..]
  {
    if t[0] == '\\' && |t| >= 2 {
      DropTwice(t, 1, 1);
      if t[1] == 'u' {
        UStrides(t);
      }
    }
    hide ParseU;
  }

  lemma UStrides(t: string)
    requires |t| >= 2 && t[0] == '\\' && t[1] == 'u'
    ensures ParseU(t[1..]).Undefined? <==> Stride(t) > |t|
    ensures ParseU(t[1..]).Parsed? ==> ParseU(t[1..]).rest == t[Stride(t)..]
  {
    DropTwice(t, 1, 1);
    if |t| >= 6 {
      DropTwice(t, 1, 5);
      if |t| >= 8 {
        assert t[6..][..2] == [t[6], t[7]];
      }
      if |t| >= 12 {
        DropTwice(t, 6, 6);
      }
    }
    hide Hex4, Utf8;
  }

  // ---------------------------------------------------------------- the loops side by side

  /** The loops at one place: the first is there too, or at the backslash before it. */
  predicate Abreast(body: string, late: bool, n: nat) {
    if late then body != [] && n > 0 && Through(body[1..], n - 1) else Through(body, n)
  }

  /** One character on. */
  lemma GlideOne(body: string, late: bool, n: nat) returns (late': bool, n': nat)
    requires body != [] && Abreast(body, late, n)
    ensures n' <= n && Abreast(body[1..], late', n')
    ensures if late || body[0] != '\\' then n' == n - 1 && !late' else late'
  {
    if late || body[0] != '\\' {
      late', n' := false, n - 1;
    } else {
      late', n' := true, n;
      assert body[1..][1..] == body[2..];
    }
  }

  lemma {:induction false} Glide(body: string, late: bool, n: nat, k: nat) returns (late': bool, n': nat)
    requires k <= |body| && Abreast(body, late, n)
    ensures n' <= n && Abreast(body[k..], late', n')
    decreases k
  {
    if k == 0 {
      late', n' := late, n;
      assert body[0..] == body;
    } else {
      hide Abreast;
      late', n' := GlideOne(body, late, n);
      late', n' := Glide(body[1..], late', n', k - 1);
      DropTwice(body, 1, k - 1);
    }
  }

  /** Over four digits the first loop counts four. */
  lemma GlideDigits(t: string, n: nat)
    requires FourDigits(t) && Through(t, n)
    ensures n >= 4 && Through(t[4..], n - 4)
  {
    assert t[1..][1..] == t[2..] && t[2..][1..] == t[3..] && t[3..][1..] == t[4..];
    assert Through(t[1..], n - 1);
    assert Through(t[2..], n - 2);
    assert Through(t[3..], n - 3);
  }

  /** A `\u` with four digits counts at least five. */
  lemma GlideU(t: string, late: bool, n: nat)
    requires |t| >= 6 && t[0] == '\\' && t[1] == 'u' && FourDigits(t[2..]) && Abreast(t, late, n)
    ensures n >= 5 && exists n': nat :: n' <= n - 5 && Abreast(t[6..], false, n')
  {
    assert t[1..][1..] == t[2..];
    var m := if late then n - 2 else n - 1;
    assert Through(t[2..], m);
    hide Count;
    GlideDigits(t[2..], m);
    DropTwice(t, 2, 4);
    assert Abreast(t[6..], false, m - 4);
  }

  lemma HexU(t: string, more: string)
    requires |t| >= 6 && Closed(more) && Hex4((t + more)[2..]) > 0
    ensures FourDigits(t[2..]) && Hex4((t + more)[2..]) == Hex4(t[2..])
  {
    JoinedSlices(t, more, 2);
    Hex4Local(t[2..], more);
    hide Hex4;
  }

  /** What a `\u` writes: nothing without digits, and never more than four octets. */
  lemma UWrites(t: string)
    requires |t| >= 2 && t[0] == '\\' && t[1] == 'u' && ParseU(t[1..]).Parsed?
    ensures |ParseU(t[1..]).value| <= 4 && (ParseU(t[1..]).value != [] ==> Hex4(t[2..]) > 0)
  {
    DropTwice(t, 1, 1);
    hide Hex4, Starts;
  }

  lemma TurnU(body: string, more: string, late: bool, n: nat) returns (late': bool, n': nat)
    requires |body| >= 2 && body[0] == '\\' && body[1] == 'u' && Closed(more)
    requires Abreast(body, late, n) && Stride(body) <= |body| && Piece(body + more).Parsed?
    ensures |Piece(body + more).value| + n' <= n && Abreast(body[Stride(body)..], late', n')
  {
    var t := body + more;
    var k := Stride(body);
    JoinedSlices(body, more, 2);
    assert Piece(t) == ParseU(t[1..]);
    hide Piece, ParseU, Abreast;
    UWrites(t);
    if Hex4(t[2..]) == 0 {
      late', n' := Glide(body, late, n, k);
    } else {
      HexU(body, more);
      GlideU(body, late, n);
      var m: nat :| m <= n - 5 && Abreast(body[6..], false, m);
      late', n' := Glide(body[6..], false, m, k - 6);
      DropTwice(body, 6, k - 6);
    }
  }

  /** What a turn of the second loop writes has been counted. */
  lemma TurnCounted(body: string, more: string, late: bool, n: nat) returns (late': bool, n': nat)
    requires body != [] && body[0] != '"' && Closed(more)
    requires Abreast(body, late, n) && Stride(body) <= |body| && Piece(body + more).Parsed?
    ensures |Piece(body + more).value| + n' <= n && Abreast(body[Stride(body)..], late', n')
  {
    if body[0] == '\\' && body[1] == 'u' {
      late', n' := TurnU(body, more, late, n);
    } else {
      assert |Piece(body + more).value| <= 1;
      hide Piece, Abreast;
      late', n' := GlideOne(body, late, n);
      if body[0] == '\\' {
        late', n' := GlideOne(body[1..], late', n');
        DropTwice(body, 1, 1);
      }
    }
  }

  /** A turn that does not overrun. */
  lemma TurnStays(body: string, more: string)
    requires body != [] && body[0] != '"' && Closed(more) && Stride(body) <= |body|
    ensures Piece(body + more).Parsed? && Piece(body + more).rest == body[Stride(body)..] + more
  {
    hide Piece, Stride;
    StrideLocal(body, more);
    PieceStrides(body + more);
    JoinedSlices(body, more, Stride(body));
  }

  lemma UnquoteTurn(t: string)
    requires t != [] && t[0] != '"' && Piece(t).Parsed?
    ensures var q := Unquote(Piece(t).rest);
      Unquote(t) == if q.Undefined? then Undefined else Parsed(Piece(t).value + q.value, q.rest)
  {
    hide Piece;
  }

  /** Without an overrun the second loop stays in the text and writes no more than was counted. */
  lemma {:induction false} StaysCounted(body: string, more: string, late: bool, n: nat)
    requires Closed(more) && Abreast(body, late, n) && !Overruns(body)
    ensures Unquote(body + more).Parsed? && |Unquote(body + more).value| <= n
    decreases |body|
  {
    if body == [] {
      assert body + more == more;
    } else if body[0] != '"' {
      assert !Overruns(body[Stride(body)..]);
      hide *;
      TurnStays(body, more);
      var late', n' := TurnCounted(body, more, late, n);
      StaysCounted(body[Stride(body)..], more, late', n');
      UnquoteTurn(body + more);
    }
  }

  // ---------------------------------------------------------------- overruns

  predicate Plains(s: string) {
    forall i :: 0 <= i < |s| ==> s[i] == 'a'
  }

  lemma {:induction false} PlainsRead(s: string)
    requires Plains(s)
    ensures Unquote(s) == Parsed(s, [])
    decreases |s|
  {
    if s != [] {
      PlainsRead(s[1..]);
      assert [s[0]] + s[1..] == s;
    }
  }

  /** A turn that overruns leaves the text, or goes on behind the closing quote. */
  lemma TurnOver(body: string, plains: string)
    requires body != [] && body[0] != '"' && Stride(body) > |body| && Plains(plains) && |plains| >= 12
    ensures Piece(body).Undefined?
    ensures var r := Piece(body + (['"'] + plains)); r.Parsed? && Plains(r.rest) && |r.rest| + 12 >= |plains|
  {
    var more := ['"'] + plains;
    var k := Stride(body);
    assert k <= 12;
    hide Piece, Stride;
    PieceStrides(body);
    StrideLocal(body, more);
    PieceStrides(body + more);
    assert (body + more)[k..] == plains[k - |body| - 1..];
  }

  /** With an overrun the second loop leaves the text when that ends at the body, and writes almost
      all of the plain characters that follow a closing quote. */
  lemma {:induction false} RunsOver(body: string, plains: string)
    requires Overruns(body) && Plains(plains) && |plains| >= 12
    ensures Unquote(body).Undefined?
    ensures var r := Unquote(body + (['"'] + plains)); r.Parsed? ==> |r.value| + 12 >= |plains|
    decreases |body|
  {
    var more := ['"'] + plains;
    var t := body + more;
    if Stride(body) > |body| {
      hide Stride, Piece, Overruns;
      TurnOver(body, plains);
      PlainsRead(Piece(t).rest);
    } else {
      assert Overruns(body[Stride(body)..]);
      hide *;
      TurnStays(body, more);
      TurnStays(body, []);
      assert body + [] == body && body[Stride(body)..] + [] == body[Stride(body)..];
      RunsOver(body[Stride(body)..], plains);
      UnquoteTurn(t);
      UnquoteTurn(body);
    }
  }

  // ---------------------------------------------------------------- exactly

  lemma CountMore(head: string, tail: string)
    requires head != [] && head[0] != '"' && |head| == if head[0] == '\\' then 2 else 1
    ensures Count(head + tail) == if Count(tail).Undefined? then Undefined else Parsed(1 + Count(tail).value, Count(tail).rest)
  {
    assert (head + tail)[|head|..] == tail;
  }

  lemma {:induction false} CountLocal(body: string, n: nat, more: string)
    requires Through(body, n) && Closed(more)
    ensures Count(body + more) == Parsed(n, more)
    decreases |body|
  {
    if body == [] {
      assert body + more == more;
    } else {
      var k := if body[0] == '\\' then 2 else 1;
      var head, tail := body[..k], body[k..];
      assert body == head + tail && body + more == head + (tail + more);
      hide Count;
      CountMore(head, tail);
      CountLocal(tail, n - 1, more);
      CountMore(head, tail + more);
    }
  }

  lemma ThroughMore(head: string, body: string, n: nat)
    requires Through(body, n)
    requires head != [] && head[0] != '"' && |head| == if head[0] == '\\' then 2 else 1
    ensures Through(head + body, n + 1)
  {
    CountMore(head, body);
    hide Count;
  }

  /** Every text the first loop gets through is a body and what it stopped at. */
  lemma {:induction false} CountSplit(t: string) returns (body: string)
    requires Count(t).Parsed?
    ensures t == body + Count(t).rest && Closed(Count(t).rest) && Through(body, Count(t).value)
    decreases |t|, 1
  {
    if t == [] || t[0] == '"' {
      body := [];
    } else {
      var k := if t[0] == '\\' then 2 else 1;
      assert k <= |t|;
      body := SplitTurn(t[..k], t[k..]);
      assert t[..k] + t[k..] == t;
    }
  }

  lemma {:induction false} SplitTurn(head: string, tail: string) returns (body: string)
    requires head != [] && head[0] != '"' && |head| == if head[0] == '\\' then 2 else 1
    requires Count(head + tail).Parsed?
    ensures var r := Count(head + tail); head + tail == body + r.rest && Closed(r.rest) && Through(body, r.value)
    decreases |head| + |tail|, 0
  {
    hide Count, Through, Closed;
    CountMore(head, tail);
    var b := CountSplit(tail);
    body := head + b;
    ThroughMore(head, b, Count(tail).value);
    assert head + (b + Count(tail).rest) == body + Count(tail).rest;
  }

  /** What follows the quote that opens a string. */
  lemma ParseStringAfter(t: string)
    ensures ParseString(['"'] + t) ==
      if Count(t).Parsed? && Unquote(t).Parsed? && |Unquote(t).value| <= Count(t).value then Unquote(t) else Undefined
  {
    assert (['"'] + t)[1..] == t;
  }

  /** The string parser stays within its text and its output, whatever follows the closing quote,
      exactly when no escape reaches over that quote; and likewise for a string that ends with the
      text. */
  lemma StringStaysExact(body: string, n: nat)
    requires Through(body, n)
    ensures (forall rest: string :: ParseString(['"'] + (body + (['"'] + rest))).Parsed?) <==> !Overruns(body)
    ensures ParseString(['"'] + body).Parsed? <==> !Overruns(body)
  {
    hide ParseString, Count, Unquote, Overruns, Through;
    if Overruns(body) {
      var plains := seq(n + 13, _ => 'a');
      OverrunFails(body, n, plains);
      assert !ParseString(['"'] + (body + (['"'] + plains))).Parsed?;
    } else {
      forall rest: string ensures ParseString(['"'] + (body + (['"'] + rest))).Parsed? {
        StringStays(body, n, ['"'] + rest);
      }
      StringStays(body, n, []);
      assert body + [] == body;
    }
  }

  lemma OverrunFails(body: string, n: nat, plains: string)
    requires Through(body, n) && Overruns(body) && |plains| == n + 13 && plains == seq(|plains|, _ => 'a')
    ensures ParseString(['"'] + (body + (['"'] + plains))) == Undefined
    ensures ParseString(['"'] + body) == Undefined
  {
    assert Plains(plains);
    hide ParseString, Count, Unquote, Overruns;
    RunsOver(body, plains);
    CountLocal(body, n, ['"'] + plains);
    ParseStringAfter(body + (['"'] + plains));
    ParseStringAfter(body);
  }

  lemma StringStays(body: string, n: nat, more: string)
    requires Through(body, n) && Closed(more) && !Overruns(body)
    ensures ParseString(['"'] + (body + more)).Parsed?
  {
    assert Abreast(body, false, n);
    hide *;
    CountLocal(body, n, more);
    StaysCounted(body, more, false, n);
    ParseStringAfter(body + more);
  }

  /** Every escape is complete: a `\u` has four hexadecimal digits. */
  predicate Proper(body: string)
    decreases |body|
  {
    if body == [] then true
    else if body[0] != '\\' then Proper(body[1..])
    else if |body| == 1 then false
    else if body[1] == 'u' then FourDigits(body[2..]) && Proper(body[6..])
    else Proper(body[2..])
  }

  lemma ProperNext(body: string)
    requires Proper(body) && body != [] && body[0] != '"'
    ensures Stride(body) <= |body| && Proper(body[Stride(body)..])
  {
    if body[0] == '\\' && body[1] == 'u' && PairAhead(body) {
      var second := body[6..];
      assert second[0] == '\\' && second[1] == 'u';
      assert FourDigits(second[2..]) && Proper(second[6..]);
      DropTwice(body, 6, 6);
    }
    hide Hex4;
  }

  /** Complete escapes do not overrun. */
  lemma {:induction false} ProperStays(body: string)
    requires Proper(body)
    ensures !Overruns(body)
    decreases |body|
  {
    if body != [] && body[0] != '"' {
      ProperNext(body);
      ProperStays(body[Stride(body)..]);
    }
  }

  /** Four characters that are no digits are dropped with their escape. */
  lemma NoDigitsDropped(rest: string)
    ensures ParseString(['"'] + (['\\', 'u', 'Z', 'Z', 'Z', 'Z'] + (['"'] + rest))) == Parsed([], rest)
  {
    var body := ['\\', 'u', 'Z', 'Z', 'Z', 'Z'];
    var t := body + (['"'] + rest);
    assert body[2..] == ['Z', 'Z', 'Z', 'Z'];
    ThroughFour('Z');
    assert Through(body, 5);
    CountLocal(body, 5, ['"'] + rest);
    ParseStringAfter(t);
    assert t[1..][1..] == t[2..] && t[2] == 'Z' && t[1..][5..] == ['"'] + rest;
    assert Piece(t) == Parsed([], ['"'] + rest);
    assert (['"'] + rest)[1..] == rest;
    assert Unquote(['"'] + rest) == Parsed([], rest);
    hide Piece, Unquote;
    UnquoteTurn(t);
    assert Unquote(t) == Parsed([], rest);
  }

  lemma ThroughFour(c: char)
    requires c != '"' && c != '\\'
    ensures Through([c, c], 2) && Through([c, c, c, c], 4)
  {
    assert [c, c][1..] == [c] && [c][1..] == [];
    assert Through([], 0) && Through([c], 1) && Through([c, c], 2);
    var t := [c, c, c, c];
    assert t[1..] == [c, c, c] && t[1..][1..] == [c, c];
    assert Through(t[1..], 3);
  }

  /** Two digits and a quote: the escape jumps over the quote, and more than three characters
      behind it do not fit the output. */
  lemma ShortEscapeOverruns(plains: string)
    requires Plains(plains) && plains != []
    ensures ParseString(['"'] + (['\\', 'u', '1', '1'] + (['"'] + plains)))
         == if |plains| <= 4 then Parsed(plains[1..], []) else Undefined
  {
    var body := ['\\', 'u', '1', '1'];
    var t := body + (['"'] + plains);
    assert body[2..] == ['1', '1'];
    ThroughFour('1');
    assert Through(body, 3);
    CountLocal(body, 3, ['"'] + plains);
    ParseStringAfter(t);
    assert t[1..][1..] == t[2..] && t[2..][2] == '"' && t[1..][5..] == plains[1..];
    assert Piece(t) == Parsed([], plains[1..]);
    hide Piece, Unquote;
    PlainsRead(plains[1..]);
    UnquoteTurn(t);
    assert [] + plains[1..] == plains[1..];
  }
}
