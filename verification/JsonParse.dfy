/** What the parsers of cJSON.c make of a text, for integer numbers. */
module JsonParse {
  import opened JsonText

  /** The character at the front, or the NUL that ends the text. */
  function First(s: string): char {
    if s == [] then '\0' else s[0]
  }

  /** `skip`. */
  function Skip(s: string): (r: string)
    ensures |r| <= |s|
    ensures r == [] || r[0] as int > 32
  {
    if s != [] && s[0] as int <= 32 then Skip(s[1..]) else s
  }

  predicate Starts(s: string, word: string) {
    |s| >= |word| && s[..|word|] == word
  }

  /** A text is rejected, takes the source out of what C defines (it would read past the NUL, write
      past an allocation or leave the range of int), or is parsed up to a rest. */
  datatype Outcome<+T> = Rejected | Undefined | Parsed(value: T, rest: string) {
    function PropagateFailure<U>(): (r: Outcome<U>)
      requires !Parsed?
    {
      if Rejected? then Rejected else Undefined
    }
  }

  // ---------------------------------------------------------------- numbers

  predicate Digit(c: char) {
    '0' <= c <= '9'
  }

  function DigitValue(c: char): nat
    requires Digit(c)
  {
    c as int - '0' as int
  }

  /** The loop over digits, from `acc` on. */
  function Digits(acc: nat, s: string): (r: Outcome<nat>)
    ensures !r.Rejected? && (r.Parsed? ==> |r.rest| <= |s|)
    decreases |s|
  {
    if !Digit(First(s)) then Parsed(acc, s)
    else
      var n := acc * 10 + DigitValue(s[0]);
      if n > 0x7fff_ffff then Undefined else Digits(n, s[1..])
  }

  /** `parse_number`: a sign, one zero, and digits that do not start with another. */
  function ParseNumber(s: string): (r: Outcome<Json>)
    ensures !r.Rejected? && (r.Parsed? ==> |r.rest| <= |s|)
  {
    var t := if First(s) == '-' then s[1..] else s;
    var u := if First(t) == '0' then t[1..] else t;
    var n := if Digit(First(u)) && u[0] != '0' then Digits(0, u) else Parsed(0, u);
    if n.Undefined? then Undefined
    else
      var valueint: int := n.value;
      Parsed(Number(if First(s) == '-' then -valueint else valueint, 0), n.rest)
  }

  // ---------------------------------------------------------------- strings

  predicate HexDigit(c: char) {
    '0' <= c <= '9' || 'A' <= c <= 'F' || 'a' <= c <= 'f'
  }

  function HexValue(c: char): (v: nat)
    requires HexDigit(c)
    ensures v < 16
  {
    if c <= '9' then c as int - '0' as int
    else if c <= 'F' then c as int - 'A' as int + 10
    else c as int - 'a' as int + 10
  }

  predicate FourDigits(s: string) {
    |s| >= 4 && HexDigit(s[0]) && HexDigit(s[1]) && HexDigit(s[2]) && HexDigit(s[3])
  }

  /** `parse_hex4`: anything but four hexadecimal digits is 0. */
  function Hex4(s: string): (h: nat)
    ensures h < 0x1_0000 && (h > 0 ==> FourDigits(s))
  {
    if FourDigits(s)
    then 4096 * HexValue(s[0]) + 256 * HexValue(s[1]) + 16 * HexValue(s[2]) + HexValue(s[3]) else 0
  }

  /** The UTF-8 octets of a code point. */
  function Utf8(uc: nat): (s: string)
    requires uc < 0x11_0000
    ensures |s| <= 4 && (uc < 0x1_0000 ==> |s| <= 3)
  {
    if uc < 0x80 then [uc as char]
    else if uc < 0x800 then [(0xC0 + uc / 64) as char, (0x80 + uc % 64) as char]
    else if uc < 0x1_0000 then [(0xE0 + uc / 4096) as char, (0x80 + uc / 64 % 64) as char, (0x80 + uc % 64) as char]
    else [(0xF0 + uc / 0x4_0000) as char, (0x80 + uc / 4096 % 64) as char, (0x80 + uc / 64 % 64) as char, (0x80 + uc % 64) as char]
  }

  /** A `\u` escape, from its `u` on: the octets it stands for, none for an invalid code or an
      incomplete pair. Four characters after each `u` are passed over, whatever they are. */
  function ParseU(s: string): (r: Outcome<string>)
    requires s != []
    ensures !r.Rejected? && (r.Parsed? ==> |r.rest| + 5 <= |s|)
  {
    var uc := Hex4(s[1..]);
    if |s| < 5 then Undefined
    else
      var t := s[5..];
      if 0xDC00 <= uc <= 0xDFFF || uc == 0 then Parsed([], t)
      else if uc < 0xD800 || 0xDBFF < uc then Parsed(Utf8(uc), t)
      else if !Starts(t, ['\\', 'u']) then Parsed([], t)
      else if |t| < 6 then Undefined
      else
        var uc2 := Hex4(t[2..]);
        if uc2 < 0xDC00 || 0xDFFF < uc2 then Parsed([], t[6..])
        else Parsed(Utf8(0x1_0000 + (uc - 0xD800) * 1024 + (uc2 - 0xDC00)), t[6..])
  }

  /** An escape after its backslash. */
  function Unescape(s: string): (r: Outcome<string>)
    ensures !r.Rejected? && (r.Parsed? ==> |r.rest| < |s|)
  {
    if s == [] then Undefined
    else if s[0] == 'u' then ParseU(s)
    else
      var c := if s[0] == 'b' then BACKSPACE else if s[0] == 'f' then FORM_FEED else if s[0] == 'n' then '\n'
               else if s[0] == 'r' then '\r' else if s[0] == 't' then '\t' else s[0];
      Parsed([c], s[1..])
  }

  /** A turn of the second loop of `parse_string`: what it writes, and the text it leaves. */
  function Piece(t: string): (r: Outcome<string>)
    requires t != []
    ensures !r.Rejected? && (r.Parsed? ==> |r.rest| < |t|)
  {
    if t[0] == '\\' then Unescape(t[1..]) else Parsed([t[0]], t[1..])
  }

  /** The second loop of `parse_string`: everything it writes, up to its closing quote or the end
      of the text. */
  function Unquote(s: string): (r: Outcome<string>)
    ensures !r.Rejected? && (r.Parsed? ==> |r.rest| <= |s|)
    decreases |s|
  {
    if s == [] then Parsed([], [])
    else if s[0] == '"' then Parsed([], s[1..])
    else
      var p := Piece(s);
      if p.Undefined? then Undefined
      else
        var q := Unquote(p.rest);
        if q.Undefined? then Undefined else Parsed(p.value + q.value, q.rest)
  }

  /** The first loop of `parse_string`: its count, and the text where it stops. */
  function Count(t: string): (r: Outcome<nat>)
    ensures !r.Rejected?
    ensures r.Parsed? ==> |r.rest| <= |t| && (r.rest != [] ==> r.rest[0] == '"')
    decreases |t|
  {
    if t == [] || t[0] == '"' then Parsed(0, t)
    else if t == ['\\'] then Undefined
    else
      var r := Count(if t[0] == '\\' then t[2..] else t[1..]);
      if r.Undefined? then Undefined else Parsed(1 + r.value, r.rest)
  }

  /** `parse_string`: an output of as many characters as the first loop counts, and a NUL. */
  function ParseString(s: string): (r: Outcome<string>)
    ensures r.Parsed? ==> |r.rest| < |s|
  {
    if First(s) != '"' then Rejected
    else
      var n, q := Count(s[1..]), Unquote(s[1..]);
      if n.Parsed? && q.Parsed? && |q.value| <= n.value then q else Undefined
  }

  // ---------------------------------------------------------------- values

  /** `parse_value`. */
  function ParseValue(s: string): (r: Outcome<Json>)
    ensures r.Parsed? ==> |r.rest| < |s|
    decreases |s|, 0
  {
    if Starts(s, "null") then Parsed(Null, s[4..])
    else if Starts(s, "false") then Parsed(False, s[5..])
    else if Starts(s, "true") then Parsed(True, s[4..])
    else if First(s) == '"' then
      var p := ParseString(s);
      if !p.Parsed? then p.PropagateFailure() else Parsed(Str(p.value), p.rest)
    else if First(s) == '-' || Digit(First(s)) then ParseNumber(s)
    else if First(s) == '[' then
      var t := Skip(s[1..]);
      if First(t) == ']' then Parsed(Array(Nil), t[1..])
      else
        var p := ParseList(t);
        if !p.Parsed? then p.PropagateFailure() else Parsed(Array(p.value), p.rest)
    else if First(s) == '{' then
      var t := Skip(s[1..]);
      if First(t) == '}' then Parsed(Object(NoMembers), t[1..])
      else
        var p := ParseMembers(t);
        if !p.Parsed? then p.PropagateFailure() else Parsed(Object(p.value), p.rest)
    else Rejected
  }

  /** The elements of an array, up to its bracket. */
  function ParseList(s: string): (r: Outcome<List>)
    ensures r.Parsed? ==> |r.rest| < |s|
    decreases |s|, 1
  {
    var p := ParseValue(Skip(s));
    if !p.Parsed? then p.PropagateFailure()
    else
      var t := Skip(p.rest);
      if First(t) == ',' then
        var q := ParseList(t[1..]);
        if !q.Parsed? then q else Parsed(Cons(p.value, q.value), q.rest)
      else if First(t) == ']' then Parsed(Cons(p.value, Nil), t[1..])
      else Rejected
  }

  /** The members of an object, up to its brace. */
  function ParseMembers(s: string): (r: Outcome<Members>)
    ensures r.Parsed? ==> |r.rest| < |s|
    decreases |s|, 1
  {
    var name := ParseString(Skip(s));
    if !name.Parsed? then name.PropagateFailure()
    else
      var t := Skip(name.rest);
      if First(t) != ':' then Rejected
      else
        var p := ParseValue(Skip(t[1..]));
        if !p.Parsed? then p.PropagateFailure()
        else
          var u := Skip(p.rest);
          if First(u) == ',' then
            var q := ParseMembers(u[1..]);
            if !q.Parsed? then q else Parsed(Member(name.value, p.value, q.value), q.rest)
          else if First(u) == '}' then Parsed(Member(name.value, p.value, NoMembers), u[1..])
          else Rejected
  }

  /** `cJSON_ParseWithOpts`, with the end of the parsed text. */
  function Parse(s: string, requireEnd: bool): Outcome<Json> {
    var r := ParseValue(Skip(s));
    if !r.Parsed? || !requireEnd then r
    else if Skip(r.rest) == [] then Parsed(r.value, [])
    else Rejected
  }
}
