/** What fnmatch.c answers for a glob with a budget of nested calls: right answers, and exactly the
    globs for which the budget can run out. */
module FnmatchBudget {
  import opened FnmatchGlob

  const MATCH: nat := 0
  const FNM_NOMATCH: nat := 1
  const FNM_NORES: nat := 3

  /** A star before this does not recurse: it goes to the next slash. */
  predicate JumpsTo(g: Glob, pathname: bool) {
    pathname && g.Lit? && g.c == '/' && !g.quoted
  }

  /** A call with `n` calls left in the budget. */
  function Budgeted(g: Glob, s: string, pathname: bool, n: nat): nat
    decreases g, 1, 0
  {
    if n == 0 then FNM_NORES else Walk(g, s, pathname, n - 1)
  }

  /** Through the pattern up to its end or a star that recurses, with `n` nested calls left. */
  function Walk(g: Glob, s: string, pathname: bool, n: nat): nat
    decreases g, 0, 0
  {
    match g
    case End => if s == [] then MATCH else FNM_NOMATCH
    case Lit(c, _, rest) => if s != [] && s[0] == c then Walk(rest, s[1..], pathname, n) else FNM_NOMATCH
    case Any(rest) => if OneChar(s, pathname) then Walk(rest, s[1..], pathname, n) else FNM_NOMATCH
    case OneOf(negate, ranges, rest) =>
      if OneChar(s, pathname) && InRanges(s[0], ranges) != negate then Walk(rest, s[1..], pathname, n) else FNM_NOMATCH
    case Star(rest) =>
      if rest.Star? then Walk(rest, s, pathname, n)
      else if rest.End? then if pathname && FromSlash(s) != [] then FNM_NOMATCH else MATCH
      else if JumpsTo(rest, pathname) then
        if FromSlash(s) == [] then FNM_NOMATCH else Walk(rest, FromSlash(s), pathname, n)
      else Tries(rest, s, pathname, n)
    case Never => FNM_NOMATCH
    case Dangling => FNM_NOMATCH
  }

  /** What follows a star at every place it can stretch to, until one is not a mismatch. */
  function Tries(g: Glob, s: string, pathname: bool, n: nat): nat
    decreases g, 2, |s|
  {
    if s == [] then FNM_NOMATCH
    else
      var e := Budgeted(g, s, pathname, n);
      if e != FNM_NOMATCH then e
      else if pathname && s[0] == '/' then FNM_NOMATCH
      else Tries(g, s[1..], pathname, n)
  }

  // ---------------------------------------------------------------- the answers are right

  /** 0 and 1 are right. */
  ghost predicate Right(r: nat, matches: bool) {
    r in {0, 1, 3} && (r == 0 ==> matches) && (r == 1 ==> !matches)
  }

  lemma {:induction false} BudgetedRight(g: Glob, s: string, pathname: bool, n: nat)
    ensures Right(Budgeted(g, s, pathname, n), Matches(g, s, pathname))
    decreases g, 1, 0
  {
    if n > 0 {
      WalkRight(g, s, pathname, n - 1);
    }
    hide Walk, Matches;
  }

  lemma {:induction false} WalkRight(g: Glob, s: string, pathname: bool, n: nat)
    ensures Right(Walk(g, s, pathname, n), Matches(g, s, pathname))
    decreases g, 0, 0
  {
    match g
    case Star(rest) =>
      hide Matches;
      if rest.Star? {
        WalkRight(rest, s, pathname, n);
        StarStar(rest.rest, s, pathname);
      } else if rest.End? {
        StarEnd(s, pathname);
        SlashIn(s);
      } else if JumpsTo(rest, pathname) {
        WalkRight(rest, FromSlash(s), pathname, n);
        StarSlash(rest, s);
      } else {
        TriesRight(rest, s, pathname, n);
      }
    case Lit(c, _, rest) =>
      if s != [] {
        WalkRight(rest, s[1..], pathname, n);
      }
    case Any(rest) =>
      if s != [] {
        WalkRight(rest, s[1..], pathname, n);
      }
    case OneOf(_, _, rest) =>
      if s != [] {
        WalkRight(rest, s[1..], pathname, n);
      }
    case _ =>
  }

  lemma {:induction false} SlashIn(s: string)
    ensures FromSlash(s) != [] <==> '/' in s
  {
    if s != [] {
      SlashIn(s[1..]);
      assert s == [s[0]] + s[1..];
    }
  }

  lemma {:induction false} TriesRight(g: Glob, s: string, pathname: bool, n: nat)
    requires !g.End? && !g.Star?
    ensures Right(Tries(g, s, pathname, n), Matches(Star(g), s, pathname))
    decreases g, 2, |s|
  {
    NeedsChar(g, pathname);
    StarUnfold(g, s, pathname);
    hide Matches, Budgeted;
    if s != [] {
      BudgetedRight(g, s, pathname, n);
      TriesRight(g, s[1..], pathname, n);
    }
  }

  // ---------------------------------------------------------------- when the budget runs out

  /** A character a bracket takes. */
  ghost predicate Takes(c: char, negate: bool, ranges: seq<Range>, pathname: bool) {
    0 < c as int < 128 && OneChar([c], pathname) && InRanges(c, ranges) != negate
  }

  /** The pattern has more than `n` runs of stars that recurse, and no character before the last of
      those that nothing can match. */
  ghost predicate Exhausts(g: Glob, pathname: bool, n: nat) {
    match g
    case End => false
    case Never => false
    case Dangling => false
    case Lit(_, _, rest) => Exhausts(rest, pathname, n)
    case Any(rest) => Exhausts(rest, pathname, n)
    case OneOf(negate, ranges, rest) => (exists c :: Takes(c, negate, ranges, pathname)) && Exhausts(rest, pathname, n)
    case Star(rest) =>
      if rest.Star? || JumpsTo(rest, pathname) then Exhausts(rest, pathname, n)
      else !rest.End? && (n == 0 || Exhausts(rest, pathname, n - 1))
  }

  /** All characters of a pattern are those of a C string of ASCII characters. */
  predicate AsciiGlob(g: Glob) {
    match g
    case End => true
    case Never => true
    case Dangling => true
    case Lit(c, _, rest) => 0 < c as int < 128 && AsciiGlob(rest)
    case Any(rest) => AsciiGlob(rest)
    case OneOf(_, _, rest) => AsciiGlob(rest)
    case Star(rest) => AsciiGlob(rest)
  }

  /** The budget runs out only for such patterns. */
  lemma {:induction false} WalkExhausts(g: Glob, s: string, pathname: bool, n: nat)
    requires Ascii(s) && Walk(g, s, pathname, n) == FNM_NORES
    ensures Exhausts(g, pathname, n)
    decreases g, 0, 0
  {
    match g
    case Lit(_, _, rest) => WalkExhausts(rest, s[1..], pathname, n);
    case Any(rest) => WalkExhausts(rest, s[1..], pathname, n);
    case OneOf(negate, ranges, rest) =>
      assert Takes(s[0], negate, ranges, pathname);
      WalkExhausts(rest, s[1..], pathname, n);
    case Star(rest) =>
      if rest.Star? {
        WalkExhausts(rest, s, pathname, n);
      } else if JumpsTo(rest, pathname) {
        FromSlashAscii(s);
        WalkExhausts(rest, FromSlash(s), pathname, n);
      } else {
        TriesExhausts(rest, s, pathname, n);
      }
  }

  lemma {:induction false} FromSlashAscii(s: string)
    requires Ascii(s)
    ensures Ascii(FromSlash(s))
  {
    if s != [] {
      FromSlashAscii(s[1..]);
    }
  }

  lemma {:induction false} TriesExhausts(g: Glob, s: string, pathname: bool, n: nat)
    requires Ascii(s) && Tries(g, s, pathname, n) == FNM_NORES
    ensures n == 0 || Exhausts(g, pathname, n - 1)
    decreases g, 2, |s|
  {
    if n > 0 {
      if Budgeted(g, s, pathname, n) == FNM_NORES {
        WalkExhausts(g, s, pathname, n - 1);
      } else {
        TriesExhausts(g, s[1..], pathname, n);
      }
    }
  }

  /** A string for which the budget runs out: every star takes nothing. */
  lemma {:induction false} Exhausting(g: Glob, pathname: bool, n: nat) returns (s: string)
    requires AsciiGlob(g) && Exhausts(g, pathname, n)
    ensures s != [] && Ascii(s) && Walk(g, s, pathname, n) == FNM_NORES
    decreases g
  {
    match g
    case Lit(c, _, rest) =>
      var t := Exhausting(rest, pathname, n);
      s := [c] + t;
      assert s[1..] == t;
    case Any(rest) =>
      var t := Exhausting(rest, pathname, n);
      s := ['a'] + t;
      assert s[1..] == t;
    case OneOf(negate, ranges, rest) =>
      var c :| Takes(c, negate, ranges, pathname);
      var t := Exhausting(rest, pathname, n);
      s := [c] + t;
      assert s[1..] == t;
    case Star(rest) =>
      if rest.Star? {
        s := Exhausting(rest, pathname, n);
      } else if JumpsTo(rest, pathname) {
        s := Exhausting(rest, pathname, n);
        assert FromSlash(s) == s;
      } else {
        s := ['a'];
        if n > 0 {
          s := Exhausting(rest, pathname, n - 1);
        }
        assert Budgeted(rest, s, pathname, n) == FNM_NORES;
        assert Tries(rest, s, pathname, n) == FNM_NORES;
      }
  }

  /** The budget of `n + 1` calls can run out for a pattern exactly when it has more than `n` runs
      of stars that recurse, behind nothing that cannot be matched. */
  lemma BudgetExact(g: Glob, pathname: bool, n: nat)
    requires AsciiGlob(g)
    ensures (exists s :: Ascii(s) && Budgeted(g, s, pathname, n + 1) == 3) <==> Exhausts(g, pathname, n)
  {
    if Exhausts(g, pathname, n) {
      var s := Exhausting(g, pathname, n);
      assert Ascii(s) && Budgeted(g, s, pathname, n + 1) == FNM_NORES;
    }
    if s :| Ascii(s) && Budgeted(g, s, pathname, n + 1) == FNM_NORES {
      WalkExhausts(g, s, pathname, n);
    }
  }

  // ---------------------------------------------------------------- too many stars

  /** `n` times a star and an `a`. */
  function StarsAndAs(n: nat): string {
    if n == 0 then [] else ['*', 'a'] + StarsAndAs(n - 1)
  }

  function As(n: nat): string {
    if n == 0 then [] else ['a'] + As(n - 1)
  }

  /** As many stars as the budget has calls: the string of as many characters is one of the
      pattern, and still the answer is that there are too many stars. */
  lemma {:induction false} TooManyStars(n: nat, pathname: bool, esc: bool)
    requires n > 0
    ensures Budgeted(Parse(StarsAndAs(n), esc), As(n), pathname, n) == 3
    ensures Matches(Parse(StarsAndAs(n), esc), As(n), pathname)
  {
    var p, s := StarsAndAs(n), As(n);
    var rest := Parse(StarsAndAs(n - 1), esc);
    assert p[1..] == ['a'] + StarsAndAs(n - 1) && p[1..][1..] == StarsAndAs(n - 1);
    assert Parse(p, esc) == Star(Lit('a', false, rest));
    assert s[1..] == As(n - 1);
    var g := Lit('a', false, rest);
    if n == 1 {
      assert rest == End && s[1..] == [];
    } else {
      TooManyStars(n - 1, pathname, esc);
    }
    assert Matches(g, s, pathname);
    StarUnfold(g, s, pathname);
    hide Matches, Parse;
    if n > 1 {
      assert Walk(g, s, pathname, n - 2) == Walk(rest, As(n - 1), pathname, n - 2);
    }
    assert Budgeted(g, s, pathname, n - 1) == FNM_NORES;
    assert Tries(g, s, pathname, n - 1) == FNM_NORES;
  }
}
