/** What a pattern of fnmatch.c means: its parse, and the strings it matches (POSIX 1003.2-1992,
    section B.6), with or without FNM_PATHNAME and FNM_NOESCAPE. */
module FnmatchGlob {
  const EOS: char := '\0'

  /** C strings of ASCII characters. */
  predicate Ascii(s: string) {
    forall i :: 0 <= i < |s| ==> 0 < s[i] as int < 128
  }

  /** The characters from `lo` to `hi`. */
  datatype Range = Range(lo: char, hi: char)

  datatype Glob =
    | End
    | Lit(c: char, quoted: bool, rest: Glob)   // quoted by a backslash
    | Any(rest: Glob)
    | Star(rest: Glob)
    | OneOf(negate: bool, ranges: seq<Range>, rest: Glob)
    | Never      // an open bracket
    | Dangling   // a backslash that ends the pattern

  predicate InRanges(c: char, ranges: seq<Range>) {
    exists k :: 0 <= k < |ranges| && ranges[k].lo <= c <= ranges[k].hi
  }

  /** `pathname` is FNM_PATHNAME: a slash is matched by a slash alone. */
  predicate OneChar(s: string, pathname: bool) {
    s != [] && !(pathname && s[0] == '/')
  }

  /** The strings of a glob. */
  ghost predicate Matches(g: Glob, s: string, pathname: bool) {
    match g
    case End => s == []
    case Lit(c, _, rest) => s != [] && s[0] == c && Matches(rest, s[1..], pathname)
    case Any(rest) => OneChar(s, pathname) && Matches(rest, s[1..], pathname)
    case OneOf(negate, ranges, rest) =>
      OneChar(s, pathname) && InRanges(s[0], ranges) != negate && Matches(rest, s[1..], pathname)
    case Star(rest) =>
      exists k :: 0 <= k <= |s| && (pathname ==> '/' !in s[..k]) && Matches(rest, s[k..], pathname)
    case Never => false
    case Dangling => false
  }

  // ---------------------------------------------------------------- brackets

  /** What follows an opening bracket: a closed set with the pattern after it, a slash before the
      bracket closes, or the end of the pattern. */
  datatype Bracket = Closed(ranges: seq<Range>, rest: string) | Slash | Open

  /** A character that may be quoted: `esc` is set unless FNM_NOESCAPE is. */
  datatype Quoted = Quoted(c: char, rest: string) | Nothing

  function Unquote(p: string, esc: bool): (q: Quoted)
    ensures q.Quoted? ==> |q.rest| < |p|
  {
    if p == [] then Nothing
    else if !esc || p[0] != '\\' then Quoted(p[0], p[1..])
    else if |p| == 1 then Nothing
    else Quoted(p[1], p[2..])
  }

  /** A closing bracket that comes first is one of the set. */
  function Ranges(p: string, first: bool, esc: bool): (b: Bracket)
    ensures b.Closed? ==> |b.rest| < |p|
    decreases |p|
  {
    if p == [] then Open
    else if p[0] == ']' && !first then Closed([], p[1..])
    else if p[0] == '/' then Slash
    else
      match Unquote(p, esc)
      case Nothing => Open
      case Quoted(lo, q) =>
        if |q| > 1 && q[0] == '-' && q[1] != ']' then
          match Unquote(q[1..], esc)
          case Nothing => Open
          case Quoted(hi, r) => Put(Range(lo, hi), Ranges(r, false, esc))
        else Put(Range(lo, lo), Ranges(q, false, esc))
  }

  function Put(r: Range, b: Bracket): Bracket {
    if b.Closed? then b.(ranges := [r] + b.ranges) else b
  }

  function Negated(p: string): bool {
    p != [] && (p[0] == '!' || p[0] == '^')
  }

  /** The bracket that starts at `p`, past its negation sign. */
  function BracketAt(p: string, esc: bool): (b: Bracket)
    ensures b.Closed? ==> |b.rest| < |p|
  {
    Ranges(if Negated(p) then p[1..] else p, true, esc)
  }

  // ---------------------------------------------------------------- patterns

  function Parse(p: string, esc: bool): Glob
    decreases |p|
  {
    if p == [] then End
    else if p[0] == '?' then Any(Parse(p[1..], esc))
    else if p[0] == '*' then Star(Parse(p[1..], esc))
    else if p[0] == '[' then
      var b := BracketAt(p[1..], esc);
      if b.Open? then Never
      else if b.Slash? then Lit('[', false, Parse(p[1..], esc))
      else OneOf(Negated(p[1..]), b.ranges, Parse(b.rest, esc))
    else if esc && p[0] == '\\' then
      if |p| == 1 then Dangling else Lit(p[1], true, Parse(p[2..], esc))
    else Lit(p[0], false, Parse(p[1..], esc))
  }

  /** The pattern has a backslash at its end that quotes nothing. */
  predicate Dangles(g: Glob) {
    match g
    case Dangling => true
    case End => false
    case Never => false
    case Lit(_, _, rest) => Dangles(rest)
    case Any(rest) => Dangles(rest)
    case Star(rest) => Dangles(rest)
    case OneOf(_, _, rest) => Dangles(rest)
  }

  // ---------------------------------------------------------------- stars

  /** A star takes no character, or one that is not a slash it must not take, and goes on. */
  lemma StarUnfold(g: Glob, s: string, pathname: bool)
    ensures Matches(Star(g), s, pathname)
       <==> Matches(g, s, pathname) || (OneChar(s, pathname) && Matches(Star(g), s[1..], pathname))
  {
    if Matches(Star(g), s, pathname) {
      var k :| 0 <= k <= |s| && (pathname ==> '/' !in s[..k]) && Matches(g, s[k..], pathname);
      if k == 0 {
        assert s[0..] == s;
      } else {
        var t := s[1..];
        assert t[k - 1..] == s[k..] && s[0] in s[..k];
        assert pathname ==> '/' !in t[..k - 1] by {
          assert forall c :: c in t[..k - 1] ==> c in s[..k];
        }
      }
    }
    if Matches(g, s, pathname) {
      assert s[0..] == s && s[..0] == [];
    }
    if OneChar(s, pathname) && Matches(Star(g), s[1..], pathname) {
      var t := s[1..];
      var k :| 0 <= k <= |t| && (pathname ==> '/' !in t[..k]) && Matches(g, t[k..], pathname);
      assert t[k..] == s[k + 1..] && s[..k + 1] == [s[0]] + t[..k];
    }
  }

  /** Stars in a row are one star. */
  lemma {:induction false} StarStar(g: Glob, s: string, pathname: bool)
    ensures Matches(Star(Star(g)), s, pathname) <==> Matches(Star(g), s, pathname)
    decreases |s|
  {
    StarUnfold(Star(g), s, pathname);
    StarUnfold(g, s, pathname);
    if s != [] {
      StarStar(g, s[1..], pathname);
    }
  }

  /** A star at the end takes everything but a slash it must not take. */
  lemma {:induction false} StarEnd(s: string, pathname: bool)
    ensures Matches(Star(End), s, pathname) <==> !pathname || '/' !in s
    decreases |s|
  {
    StarUnfold(End, s, pathname);
    if s != [] {
      StarEnd(s[1..], pathname);
      assert s == [s[0]] + s[1..];
    }
  }

  /** A star before a slash goes to the first slash. */
  lemma {:induction false} StarSlash(g: Glob, s: string)
    requires g.Lit? && g.c == '/'
    ensures Matches(Star(g), s, true) <==> FromSlash(s) != [] && Matches(g, FromSlash(s), true)
    decreases |s|
  {
    StarUnfold(g, s, true);
    if s != [] && s[0] != '/' {
      StarSlash(g, s[1..]);
    }
  }

  /** `strchr(s, '/')`, or nothing for a null pointer. */
  function FromSlash(s: string): (r: string)
    ensures |r| <= |s|
  {
    if s == [] || s[0] == '/' then s else FromSlash(s[1..])
  }

  /** What is not the end or a star needs a character. */
  lemma NeedsChar(g: Glob, pathname: bool)
    requires !g.End? && !g.Star?
    ensures !Matches(g, [], pathname)
  {
  }
}
