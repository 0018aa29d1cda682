/** fnmatch.c: bracket expressions, the matching loop with its recursion for stars, and its
    budget. */
module Fnmatch {
  import opened FnmatchBudget
  import opened FnmatchGlob

  /** The character a pointer at offset `i` reads. */
  function At(s: string, i: nat): char
    requires i <= |s|
  {
    if i < |s| then s[i] else EOS
  }

  /** What `rangematch` returns: NULL, the marker for a slash, or the pattern after the bracket. */
  datatype RangeResult = Null | SlashInside | After(at: nat)

  /** The answer `rangematch` owes for a bracket. */
  function Answer(p: string, b: Bracket, negate: bool, test: char): RangeResult
    requires b.Closed? ==> |b.rest| <= |p|
  {
    match b
    case Open => Null
    case Slash => SlashInside
    case Closed(ranges, rest) => if InRanges(test, ranges) != negate then After(|p| - |rest|) else Null
  }

  /** What is left of the loop of `rangematch` when `ok` tells whether a range before had `test`. */
  predicate Owes(p: string, whole: Bracket, rest: Bracket, test: char, ok: bool) {
    match whole
    case Open => rest.Open?
    case Slash => rest.Slash?
    case Closed(ranges, after) =>
      rest.Closed? && rest.rest == after && (InRanges(test, ranges) <==> ok || InRanges(test, rest.ranges))
  }

  lemma InPut(test: char, r: Range, ranges: seq<Range>)
    ensures InRanges(test, [r] + ranges) <==> r.lo <= test <= r.hi || InRanges(test, ranges)
  {
    if r.lo <= test <= r.hi {
      assert ([r] + ranges)[0] == r;
    }
    if InRanges(test, ranges) {
      var k :| 0 <= k < |ranges| && ranges[k].lo <= test <= ranges[k].hi;
      assert ([r] + ranges)[k + 1] == ranges[k];
    }
  }

  /** One turn of the loop of `rangematch`, from offset `i`. */
  datatype Turn = Stop(result: RangeResult) | Next(at: nat, has: bool)

  /** What a turn must do: settle the answer, or leave the rest of the bracket to the next one. */
  predicate TurnKeeps(p: string, i: nat, b: Bracket, test: char, t: Turn, esc: bool)
    requires i <= |p|
  {
    match t
    case Stop(r) => (r == Null && b.Open?) || (r == SlashInside && b.Slash?)
                    || (b.Closed? && b.ranges == [] && |b.rest| <= |p| && r == After(|p| - |b.rest|))
    case Next(at, has) => i < at <= |p| && Owes(p, b, Ranges(p[at..], false, esc), test, has)
  }

  /** The character at `start`, which a backslash may quote, and the offset after it. */
  method QuotedAt(p: string, start: nat, esc: bool) returns (c: char, i: nat)
    requires Ascii(p) && start <= |p|
    ensures c == EOS ==> Unquote(p[start..], esc).Nothing?
    ensures c != EOS ==> start < i <= |p| && Unquote(p[start..], esc) == Quoted(c, p[i..])
  {
    ghost var q := p[start..];
    c, i := At(p, start), start + 1;
    if c == '\\' && esc {
      c := At(p, i);
      i := i + 1;
    }
    if c != EOS {
      assert q[i - start..] == p[i..];
    }
  }

  /** A range of one character, or of two with a minus between them. */
  lemma RangeOf(q: string, first: bool, esc: bool)
    requires q != [] && q[0] != '/' && (first || q[0] != ']') && Unquote(q, esc).Quoted?
    ensures var Quoted(lo, r) := Unquote(q, esc);
      Ranges(q, first, esc) ==
        if |r| > 1 && r[0] == '-' && r[1] != ']' then
          if Unquote(r[1..], esc).Nothing? then Open
          else Put(Range(lo, Unquote(r[1..], esc).c), Ranges(Unquote(r[1..], esc).rest, false, esc))
        else Put(Range(lo, lo), Ranges(r, false, esc))
  {
    hide Unquote, Put;
  }

  /** A range is put before the rest of the bracket. */
  lemma TurnOn(p: string, start: nat, b: Bracket, test: char, r: Range, at: nat, esc: bool)
    requires start < at <= |p| && b == Put(r, Ranges(p[at..], false, esc))
    ensures TurnKeeps(p, start, b, test, Next(at, r.lo <= test <= r.hi), esc)
  {
    InTurn(test, r, p[at..], esc);
    hide Ranges, InRanges;
  }

  method RangeTurn(p: string, start: nat, test: char, need: bool, esc: bool) returns (t: Turn)
    requires Ascii(p) && start <= |p|
    ensures TurnKeeps(p, start, Ranges(p[start..], need, esc), test, t, esc)
  {
    ghost var q, b := p[start..], Ranges(p[start..], need, esc);
    var c := At(p, start);
    assert c == EOS <==> q == [];
    assert q != [] ==> q[0] == c && q[1..] == p[start + 1..];
    if !(c != ']' || need) {
      return Stop(After(start + 1));
    }
    if c == '/' {
      return Stop(SlashInside);
    }
    var i;
    c, i := QuotedAt(p, start, esc);
    if c == EOS {
      return Stop(Null);
    }
    RangeOf(q, need, esc);
    ghost var r := p[i..];
    assert r != [] ==> r[0] == p[i];
    assert |r| > 1 ==> r[1] == p[i + 1] && r[1..] == p[i + 1..];
    hide Ranges, Unquote, Put, TurnKeeps, Ascii;
    if At(p, i) == '-' {
      var c2 := At(p, i + 1);
      if c2 != EOS && c2 != ']' {
        c2, i := QuotedAt(p, i + 1, esc);
        if c2 == EOS {
          OpenTurn(p, start, test, esc);
          return Stop(Null);
        }
        TurnOn(p, start, b, test, Range(c, c2), i, esc);
        return Next(i, c <= test <= c2);
      }
    }
    TurnOn(p, start, b, test, Range(c, c), i, esc);
    t := Next(i, c == test);
  }

  lemma OpenTurn(p: string, start: nat, test: char, esc: bool)
    requires start <= |p|
    ensures TurnKeeps(p, start, Open, test, Stop(Null), esc)
  {
  }

  lemma InTurn(test: char, r: Range, q: string, esc: bool)
    ensures Ranges(q, false, esc).Closed? ==>
      (InRanges(test, Put(r, Ranges(q, false, esc)).ranges) <==> r.lo <= test <= r.hi || InRanges(test, Ranges(q, false, esc).ranges))
  {
    var b := Ranges(q, false, esc);
    if b.Closed? {
      InPut(test, r, b.ranges);
    }
  }

  lemma OwesNext(p: string, whole: Bracket, b: Bracket, rest: Bracket, test: char, ok: bool, has: bool)
    requires Owes(p, whole, b, test, ok) && Owes(p, b, rest, test, has)
    ensures Owes(p, whole, rest, test, ok || has)
  {
  }

  /** `rangematch`. */
  method Rangematch(p: string, test: char, esc: bool) returns (r: RangeResult)
    requires Ascii(p)
    ensures r == Answer(p, BracketAt(p, esc), Negated(p), test)
  {
    var negate := At(p, 0) == '!' || At(p, 0) == '^';
    var i := if negate then 1 else 0;
    var ok, need := false, true;
    ghost var whole := BracketAt(p, esc);
    assert p[0..] == p;
    assert whole == Ranges(p[i..], need, esc);
    assert negate == Negated(p);
    hide *;
    while true
      invariant i <= |p|
      invariant Owes(p, whole, Ranges(p[i..], need, esc), test, ok)
      decreases |p| - i
    {
      var t := RangeTurn(p, i, test, need, esc);
      if t.Stop? {
        Settled(p, i, whole, Ranges(p[i..], need, esc), test, ok, negate, t, esc);
        return if t.result.After? then if ok == negate then Null else t.result else t.result;
      }
      Carried(p, i, whole, Ranges(p[i..], need, esc), test, ok, t, esc);
      i, need, ok := t.at, false, ok || t.has;
    }
  }

  lemma Settled(p: string, i: nat, whole: Bracket, b: Bracket, test: char, ok: bool, negate: bool, t: Turn, esc: bool)
    requires i <= |p| && t.Stop? && Owes(p, whole, b, test, ok) && TurnKeeps(p, i, b, test, t, esc)
    requires whole.Closed? ==> |whole.rest| <= |p|
    ensures Answer(p, whole, negate, test) == if t.result.After? && ok == negate then Null else t.result
  {
  }

  lemma Carried(p: string, i: nat, whole: Bracket, b: Bracket, test: char, ok: bool, t: Turn, esc: bool)
    requires i <= |p| && t.Next? && Owes(p, whole, b, test, ok) && TurnKeeps(p, i, b, test, t, esc)
    ensures i < t.at <= |p| && Owes(p, whole, Ranges(p[t.at..], false, esc), test, ok || t.has)
  {
    OwesNext(p, whole, b, Ranges(p[t.at..], false, esc), test, ok, t.has);
  }

  // ---------------------------------------------------------------- one pattern character

  /** A pattern character that takes the string character at `j` leads from `start` to `i`, with
      `n` nested calls left; one that does not ends the walk. */
  ghost predicate StepKeeps(p: string, start: nat, s: string, j: nat, pathname: bool, n: nat, ok: bool, i: nat, esc: bool)
    requires start <= |p| && j <= |s|
  {
    if ok then
      && j < |s| && start < i <= |p| && (Dangles(Parse(p[start..], esc)) <==> Dangles(Parse(p[i..], esc)))
      && Walk(Parse(p[start..], esc), s[j..], pathname, n) == Walk(Parse(p[i..], esc), s[j + 1..], pathname, n)
    else Walk(Parse(p[start..], esc), s[j..], pathname, n) == FNM_NOMATCH
  }

  /** What a character that takes `t[0]` comes to. */
  lemma StepTaken(g: Glob, rest: Glob, t: string, pathname: bool, n: nat)
    requires t != []
    requires match g
             case Lit(c, _, r) => r == rest && t[0] == c
             case Any(r) => r == rest && OneChar(t, pathname)
             case OneOf(negate, ranges, r) => r == rest && OneChar(t, pathname) && InRanges(t[0], ranges) != negate
             case _ => false
    ensures Walk(g, t, pathname, n) == Walk(rest, t[1..], pathname, n) && (Dangles(g) <==> Dangles(rest))
  {
  }

  /** And one that does not. */
  lemma StepRefused(g: Glob, t: string, pathname: bool, n: nat)
    requires match g
             case Lit(c, _, _) => t == [] || t[0] != c
             case Any(_) => !OneChar(t, pathname)
             case OneOf(negate, ranges, _) => !(OneChar(t, pathname) && InRanges(t[0], ranges) != negate)
             case Never => true
             case _ => false
    ensures Walk(g, t, pathname, n) == FNM_NOMATCH
  {
  }

  /** The glob of a pattern that starts with a bracket, and where `rangematch` leaves off. */
  lemma BracketGlob(p: string, start: nat, test: char, esc: bool)
    requires start < |p| && p[start] == '['
    ensures var inside := p[start + 1..];
            var b := BracketAt(inside, esc);
      && Parse(p[start..], esc) == (if b.Open? then Never else if b.Slash? then Lit('[', false, Parse(inside, esc))
                               else OneOf(Negated(inside), b.ranges, Parse(b.rest, esc)))
      && var r := Answer(inside, b, Negated(inside), test);
         r.After? ==> b.Closed? && r.at <= |inside| && p[start + 1 + r.at..] == b.rest
  {
    var inside := p[start + 1..];
    assert p[start..][1..] == inside;
    hide Parse, BracketAt;
    BracketRest(inside, esc);
    var b := BracketAt(inside, esc);
    if b.Closed? {
      assert inside[|inside| - |b.rest|..] == p[start + 1 + (|inside| - |b.rest|)..];
    }
  }

  /** No bracket takes the end of the string or, with FNM_PATHNAME, a slash. */
  lemma BracketRefuses(g: Glob, t: string, pathname: bool, n: nat)
    requires g.Never? || g.OneOf? || (g.Lit? && g.c == '[')
    requires t == [] || (t[0] == '/' && pathname)
    ensures Walk(g, t, pathname, n) == FNM_NOMATCH
  {
    StepRefused(g, t, pathname, n);
  }

  /** A bracket at the end of the string or, with FNM_PATHNAME, at a slash. */
  lemma BracketNothing(p: string, start: nat, s: string, j: nat, pathname: bool, n: nat, esc: bool)
    requires start < |p| && j <= |s| && p[start] == '[' && (j == |s| || (s[j] == '/' && pathname))
    ensures StepKeeps(p, start, s, j, pathname, n, false, start + 1, esc)
  {
    BracketGlob(p, start, 'a', esc);
    hide Parse, Walk, BracketAt, InRanges;
    BracketRefuses(Parse(p[start..], esc), s[j..], pathname, n);
  }

  /** What the answer of `rangematch` comes to. */
  lemma BracketSettles(p: string, start: nat, s: string, j: nat, pathname: bool, n: nat, r: RangeResult, esc: bool)
    requires start < |p| && j < |s| && p[start] == '[' && !(s[j] == '/' && pathname)
    requires r == Answer(p[start + 1..], BracketAt(p[start + 1..], esc), Negated(p[start + 1..]), s[j])
    ensures StepKeeps(p, start, s, j, pathname, n,
                      r.After? || (r.SlashInside? && s[j] == '['),
                      start + 1 + if r.After? then r.at else 0, esc)
  {
    var g, t := Parse(p[start..], esc), s[j..];
    BracketGlob(p, start, s[j], esc);
    assert t[0] == s[j] && t[1..] == s[j + 1..];
    hide Parse, Walk, BracketAt, InRanges, Dangles, Negated;
    if r.After? || (r.SlashInside? && s[j] == '[') {
      StepTaken(g, g.rest, t, pathname, n);
    } else {
      StepRefused(g, t, pathname, n);
    }
  }

  /** An opening bracket at `start`. */
  method StepBracket(p: string, start: nat, s: string, j: nat, pathname: bool, ghost n: nat, esc: bool) returns (ok: bool, i: nat)
    requires Ascii(p) && Ascii(s) && start < |p| && j <= |s| && p[start] == '['
    ensures StepKeeps(p, start, s, j, pathname, n, ok, i, esc)
  {
    i := start + 1;
    assert Ascii(p[i..]) && (At(s, j) == EOS <==> j == |s|);
    hide *;
    if At(s, j) == EOS || (At(s, j) == '/' && pathname) {
      AtIs(s, j);
      BracketNothing(p, start, s, j, pathname, n, esc);
      return false, i;
    }
    var r := Rangematch(p[i..], At(s, j), esc);
    AtIs(s, j);
    BracketSettles(p, start, s, j, pathname, n, r, esc);
    if r == Null {
      return false, i;
    }
    if r == SlashInside {
      return At(s, j) == '[', i;
    }
    return true, i + r.at;
  }

  lemma AtIs(s: string, j: nat)
    requires j <= |s|
    ensures At(s, j) == if j < |s| then s[j] else EOS
  {
  }

  /** `?`, a bracket, a quoted or a plain character at `start` of the pattern, against the string
      from `j` on. */
  method StepChar(p: string, start: nat, s: string, j: nat, pathname: bool, ghost n: nat, esc: bool) returns (ok: bool, i: nat)
    requires Ascii(p) && Ascii(s) && start < |p| && j <= |s| && p[start] != '*' && !Dangles(Parse(p[start..], esc))
    ensures StepKeeps(p, start, s, j, pathname, n, ok, i, esc)
  {
    ghost var q, t := p[start..], s[j..];
    assert q[1..] == p[start + 1..] && (t != [] ==> t[1..] == s[j + 1..] && t[0] == s[j]);
    i := start + 1;
    var c := p[start];
    if c == '[' {
      ok, i := StepBracket(p, start, s, j, pathname, n, esc);
      return;
    }
    if c == '?' {
      assert Parse(q, esc) == Any(Parse(p[i..], esc));
      hide Parse, Walk, Dangles;
      ok := !(At(s, j) == EOS || (At(s, j) == '/' && pathname));
    } else {
      ghost var quoted := c == '\\' && esc;
      if c == '\\' && esc {
        assert |q| > 1 && q[2..] == p[start + 2..];
        c := At(p, i);
        i := i + 1;
      }
      assert Parse(q, esc) == Lit(c, quoted, Parse(p[i..], esc));
      hide Parse, Walk, Dangles;
      ok := c == At(s, j);
    }
    if ok {
      StepTaken(Parse(q, esc), Parse(p[i..], esc), t, pathname, n);
    } else {
      StepRefused(Parse(q, esc), t, pathname, n);
    }
  }

  predicate Suffix(a: string, p: string) {
    |a| <= |p| && a == p[|p| - |a|..]
  }

  lemma SuffixOf(a: string, b: string, p: string)
    requires Suffix(a, b) && Suffix(b, p)
    ensures Suffix(a, p)
  {
  }

  lemma UnquoteSuffix(p: string, esc: bool)
    ensures Unquote(p, esc).Quoted? ==> Suffix(Unquote(p, esc).rest, p)
    ensures p != [] ==> Suffix(p[1..], p)
  {
  }

  /** The pattern after a bracket is a tail of the pattern. */
  lemma BracketRest(p: string, esc: bool)
    ensures BracketAt(p, esc).Closed? ==> Suffix(BracketAt(p, esc).rest, p)
  {
    hide Ranges, Suffix;
    if Negated(p) {
      RangesRest(p[1..], true, esc);
      UnquoteSuffix(p, esc);
      if BracketAt(p, esc).Closed? {
        SuffixOf(BracketAt(p, esc).rest, p[1..], p);
      }
    } else {
      RangesRest(p, true, esc);
    }
  }

  lemma {:induction false} RangesRest(p: string, first: bool, esc: bool)
    ensures Ranges(p, first, esc).Closed? ==> Suffix(Ranges(p, first, esc).rest, p)
    decreases |p|
  {
    UnquoteSuffix(p, esc);
    hide Suffix;
    var b := Ranges(p, first, esc);
    if b.Closed? && !(p[0] == ']' && !first) {
      var q := Unquote(p, esc).rest;
      if |q| > 1 && q[0] == '-' && q[1] != ']' {
        var r := Unquote(q[1..], esc).rest;
        UnquoteSuffix(q, esc);
        UnquoteSuffix(q[1..], esc);
        RangesRest(r, false, esc);
        SuffixOf(b.rest, r, q[1..]);
        SuffixOf(b.rest, q[1..], q);
      } else {
        RangesRest(q, false, esc);
      }
      SuffixOf(b.rest, q, p);
    }
  }

  // ---------------------------------------------------------------- the whole pattern

  /** Collapses the stars at `start`. */
  method SkipStars(p: string, start: nat, ghost t: string, ghost pathname: bool, ghost n: nat, esc: bool) returns (i: nat)
    requires start < |p| && p[start] == '*'
    ensures start < i <= |p| && At(p, i) != '*'
    ensures Walk(Parse(p[start..], esc), t, pathname, n) == Walk(Star(Parse(p[i..], esc)), t, pathname, n)
    ensures Dangles(Parse(p[start..], esc)) <==> Dangles(Parse(p[i..], esc))
  {
    i := start + 1;
    StarFirst(p, start, esc);
    StarsWalk(Parse(p[i..], esc), t, pathname, n);
    hide Parse, Walk, Dangles;
    while At(p, i) == '*'
      invariant start < i <= |p|
      invariant Walk(Parse(p[start..], esc), t, pathname, n) == Walk(Star(Parse(p[i..], esc)), t, pathname, n)
      invariant Dangles(Parse(p[start..], esc)) <==> Dangles(Parse(p[i..], esc))
      decreases |p| - i
    {
      if i == |p| {
        assert false;
      }
      StarFirst(p, i, esc);
      StarsWalk(Parse(p[i + 1..], esc), t, pathname, n);
      i := i + 1;
    }
  }

  lemma StarsWalk(g: Glob, t: string, pathname: bool, n: nat)
    ensures Walk(Star(Star(g)), t, pathname, n) == Walk(Star(g), t, pathname, n)
    ensures Dangles(Star(g)) <==> Dangles(g)
  {
  }


  lemma StarFirst(p: string, i: nat, esc: bool)
    requires i < |p| && p[i] == '*'
    ensures Parse(p[i..], esc) == Star(Parse(p[i + 1..], esc))
  {
    assert p[i..][1..] == p[i + 1..];
  }

  /** `strchr(string, '/')`, or the end of the string for a null pointer. */
  method FindSlash(s: string, from: nat) returns (at: nat)
    requires from <= |s|
    ensures from <= at <= |s| && s[at..] == FromSlash(s[from..])
  {
    at := from;
    while at < |s| && s[at] != '/'
      invariant from <= at <= |s| && FromSlash(s[at..]) == FromSlash(s[from..])
    {
      assert s[at..][1..] == s[at + 1..];
      at := at + 1;
    }
  }

  /** The loop for a star that does not end the pattern: the rest of the pattern at every place
      the star can stretch to. */
  method TryStar(p: string, s: string, start: nat, pathname: bool, recursion: nat, esc: bool) returns (r: nat)
    requires Ascii(p) && Ascii(s) && start <= |s| && !Dangles(Parse(p, esc))
    ensures r == Tries(Parse(p, esc), s[start..], pathname, recursion)
    decreases |p|, 2
  {
    var j := start;
    while j < |s|
      invariant start <= j <= |s| && Tries(Parse(p, esc), s[j..], pathname, recursion) == Tries(Parse(p, esc), s[start..], pathname, recursion)
    {
      assert Ascii(s[j..]) && s[j..][1..] == s[j + 1..];
      hide Ascii, Dangles, Parse, Budgeted;
      var e := Fnmatchx(p, s[j..], pathname, recursion, esc);
      if e != FNM_NOMATCH {
        return e;
      }
      if s[j] == '/' && pathname {
        return FNM_NOMATCH;
      }
      j := j + 1;
    }
    r := FNM_NOMATCH;
  }

  /** A star at `start`, against the string from `j` on: an answer, or with a slash after the star
      the place of the next slash. */
  method StarAt(p: string, start: nat, s: string, j: nat, pathname: bool, recursion: nat, esc: bool)
    returns (done: bool, r: nat, i: nat, j': nat)
    requires Ascii(p) && Ascii(s) && start < |p| && j <= |s| && p[start] == '*' && !Dangles(Parse(p[start..], esc))
    ensures done ==> r == Walk(Parse(p[start..], esc), s[j..], pathname, recursion)
    ensures !done ==>
      && start < i <= |p| && j <= j' <= |s| && !Dangles(Parse(p[i..], esc))
      && Walk(Parse(p[start..], esc), s[j..], pathname, recursion) == Walk(Parse(p[i..], esc), s[j'..], pathname, recursion)
    decreases |p|, 0
  {
    i := SkipStars(p, start, s[j..], pathname, recursion, esc);
    j', done := j, true;
    var c := At(p, i);
    AfterStar(p, i, pathname, esc);
    assert Ascii(p[i..]);
    ghost var g := Parse(p[i..], esc);
    hide Parse, Ascii, Dangles;
    if c == EOS {
      if pathname {
        var at := FindSlash(s, j);
        r := if at == |s| then MATCH else FNM_NOMATCH;
      } else {
        r := MATCH;
      }
    } else if c == '/' && pathname {
      j' := FindSlash(s, j);
      if j' < |s| {
        return false, FNM_NOMATCH, i, j';
      }
      r := FNM_NOMATCH;
    } else {
      assert Walk(Star(g), s[j..], pathname, recursion) == Tries(g, s[j..], pathname, recursion);
      hide Walk, Tries;
      r := TryStar(p[i..], s, j, pathname, recursion, esc);
    }
  }

  /** What the character behind a run of stars says about the rest of the glob. */
  lemma AfterStar(p: string, i: nat, pathname: bool, esc: bool)
    requires Ascii(p) && i <= |p| && At(p, i) != '*'
    ensures Parse(p[i..], esc).End? <==> At(p, i) == EOS
    ensures !Parse(p[i..], esc).Star? && (JumpsTo(Parse(p[i..], esc), pathname) <==> At(p, i) == '/' && pathname)
  {
  }

  /** `fnmatchx` on a pattern without a backslash that ends it and quotes nothing. */
  method Fnmatchx(p: string, s: string, pathname: bool, recursion: nat, esc: bool) returns (r: nat)
    requires Ascii(p) && Ascii(s) && !Dangles(Parse(p, esc))
    ensures r == Budgeted(Parse(p, esc), s, pathname, recursion)
    ensures Right(r, Matches(Parse(p, esc), s, pathname))
    decreases |p|, 1
  {
    BudgetedRight(Parse(p, esc), s, pathname, recursion);
    if recursion == 0 {
      return FNM_NORES;
    }
    var i: nat, j: nat, left: nat := 0, 0, recursion - 1;
    assert p[0..] == p && s[0..] == s;
    hide Matches, Parse, Walk, Dangles, Right;
    while true
      invariant i <= |p| && j <= |s| && !Dangles(Parse(p[i..], esc))
      invariant Walk(Parse(p[i..], esc), s[j..], pathname, left) == Walk(Parse(p, esc), s, pathname, left)
      decreases |p| - i
    {
      if At(p, i) == EOS {
        WalkEnd(p, i, s, j, pathname, left, esc);
        return if At(s, j) == EOS then MATCH else FNM_NOMATCH;
      }
      var i': nat, j': nat;
      if p[i] == '*' {
        var done;
        done, r, i', j' := StarAt(p, i, s, j, pathname, left, esc);
        if done {
          return;
        }
      } else {
        var ok;
        ok, i' := StepChar(p, i, s, j, pathname, left, esc);
        if !ok {
          return FNM_NOMATCH;
        }
        j' := j + 1;
      }
      i, j := i', j';
    }
  }

  lemma WalkEnd(p: string, i: nat, s: string, j: nat, pathname: bool, n: nat, esc: bool)
    requires Ascii(p) && Ascii(s) && i <= |p| && j <= |s| && At(p, i) == EOS
    ensures Walk(Parse(p[i..], esc), s[j..], pathname, n) == if At(s, j) == EOS then MATCH else FNM_NOMATCH
  {
  }

  /** `fnmatch`: 0 only for strings of the pattern and 1 only for others. The answer that there are
      too many stars is given only for patterns with more than 63 runs of them that recurse. */
  method FnmatchString(p: string, s: string, pathname: bool, esc: bool) returns (r: nat)
    requires Ascii(p) && Ascii(s) && !Dangles(Parse(p, esc))
    ensures r == Budgeted(Parse(p, esc), s, pathname, 64)
    ensures r == 0 ==> Matches(Parse(p, esc), s, pathname)
    ensures r == 1 ==> !Matches(Parse(p, esc), s, pathname)
    ensures r == 3 ==> Exhausts(Parse(p, esc), pathname, 63)
    ensures !Exhausts(Parse(p, esc), pathname, 63) ==> r == if Matches(Parse(p, esc), s, pathname) then 0 else 1
  {
    r := Fnmatchx(p, s, pathname, 64, esc);
    if r == FNM_NORES {
      WalkExhausts(Parse(p, esc), s, pathname, 63);
    }
  }

  lemma {:induction false} ParseAscii(p: string, esc: bool)
    requires Ascii(p)
    ensures AsciiGlob(Parse(p, esc))
    decreases |p|
  {
    if p != [] {
      ParseAscii(p[1..], esc);
      if |p| > 1 {
        ParseAscii(p[2..], esc);
      }
      if p[0] == '[' && BracketAt(p[1..], esc).Closed? {
        BracketRest(p[1..], esc);
        ParseAscii(BracketAt(p[1..], esc).rest, esc);
      }
      hide BracketAt;
    }
  }

  /** The patterns for which some string gets the answer that there are too many stars are exactly
      those with more than 63 runs of stars that recurse, behind nothing that cannot be matched. */
  lemma BudgetOfPattern(p: string, pathname: bool, esc: bool)
    requires Ascii(p)
    ensures (exists s :: Ascii(s) && Budgeted(Parse(p, esc), s, pathname, 64) == 3) <==> Exhausts(Parse(p, esc), pathname, 63)
  {
    ParseAscii(p, esc);
    BudgetExact(Parse(p, esc), pathname, 63);
  }
}
