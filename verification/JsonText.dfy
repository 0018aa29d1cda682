/** cJSON items, and the text that cJSON.c prints for them. */
module JsonText {
  const BACKSPACE: char := '\U{0008}'
  const FORM_FEED: char := '\U{000C}'

  /** An item. `child` is the chain of items an array or object points at. A number keeps an
      integer and a double; only doubles that are integers are modelled. */
  datatype Json =
    | Null
    | False
    | True
    | Number(valueint: int, valuedouble: int)
    | Str(valuestring: string)
    | Array(child: List)
    | Object(members: Members)

  datatype List = Nil | Cons(item: Json, next: List)

  datatype Members = NoMembers | Member(name: string, item: Json, next: Members)

  /** C strings: no character is NUL. */
  predicate Bytes(s: string) {
    forall i :: 0 <= i < |s| ==> 0 < s[i] as int < 256
  }

  /** What `cJSON_CreateNumber` makes of an integer, and C strings: nothing printed as a double. */
  predicate Printable(v: Json) {
    match v
    case Number(n, d) => d == n && -0x7fff_ffff <= n <= 0x7fff_ffff
    case Str(s) => Bytes(s)
    case Array(l) => PrintableList(l)
    case Object(m) => PrintableMembers(m)
    case _ => true
  }

  predicate PrintableList(l: List) {
    l.Cons? ==> Printable(l.item) && PrintableList(l.next)
  }

  predicate PrintableMembers(m: Members) {
    m.Member? ==> Bytes(m.name) && Printable(m.item) && PrintableMembers(m.next)
  }

  // ---------------------------------------------------------------- numbers and strings

  function DigitChar(d: nat): char
    requires d < 10
  {
    ('0' as int + d) as char
  }

  /** The decimal digits of `n`, then `k`. */
  function Decimal(n: nat, k: string): string {
    if n < 10 then [DigitChar(n)] + k else Decimal(n / 10, [DigitChar(n % 10)] + k)
  }

  /** `print_number`: "%d" of the integer, or "0" when the double is zero; then `k`. */
  function NumberText(valueint: int, valuedouble: int, k: string): string {
    if valuedouble == 0 then ['0'] + k
    else if valueint < 0 then ['-'] + Decimal(-valueint, k)
    else Decimal(valueint, k)
  }

  function HexChar(d: nat): char
    requires d < 16
  {
    if d < 10 then ('0' as int + d) as char else ('a' as int + d - 10) as char
  }

  predicate Plain(c: char) {
    31 < c as int && c != '"' && c != '\\'
  }

  /** What `print_string_ptr` writes for a character. */
  function Escape(c: char): (s: string)
    ensures s != []
  {
    if Plain(c) then [c]
    else if c == '\\' then ['\\', '\\']
    else if c == '"' then ['\\', '"']
    else if c == BACKSPACE then ['\\', 'b']
    else if c == FORM_FEED then ['\\', 'f']
    else if c == '\n' then ['\\', 'n']
    else if c == '\r' then ['\\', 'r']
    else if c == '\t' then ['\\', 't']
    else ['\\', 'u', '0', '0', HexChar(c as int / 16), HexChar(c as int % 16)]
  }

  /** The characters of `s`, escaped where JSON wants it, then `k`. */
  function Escaped(s: string, k: string): string {
    if s == [] then k else Escape(s[0]) + Escaped(s[1..], k)
  }

  function Quoted(s: string, k: string): string {
    ['"'] + Escaped(s, ['"'] + k)
  }

  // ---------------------------------------------------------------- values

  function Tabs(n: int, k: string): string
    decreases n
  {
    if n <= 0 then k else ['\t'] + Tabs(n - 1, k)
  }

  /** `s` when formatting, then `k`. */
  function When(fmt: bool, s: string, k: string): string {
    if fmt then s + k else k
  }

  /** The text of a value at a nesting depth, then `k`. */
  function Text(v: Json, depth: nat, fmt: bool, k: string): string
    decreases v, 0
  {
    match v
    case Null => "null" + k
    case False => "false" + k
    case True => "true" + k
    case Number(n, d) => NumberText(n, d, k)
    case Str(s) => Quoted(s, k)
    case Array(l) => ['['] + (if l.Nil? then [']'] + k else ListText(l, depth + 1, fmt, [']'] + k))
    case Object(m) =>
      ['{'] + When(fmt, ['\n'],
        if m.NoMembers? then Tabs(if fmt then depth - 1 else 0, ['}'] + k)
        else MembersText(m, depth + 1, fmt, Tabs(if fmt then depth else 0, ['}'] + k)))
  }

  function ListText(l: List, depth: nat, fmt: bool, k: string): string
    requires l.Cons?
    decreases l, 1
  {
    Text(l.item, depth, fmt,
         if l.next.Nil? then k else [','] + When(fmt, [' '], ListText(l.next, depth, fmt, k)))
  }

  function MembersText(m: Members, depth: nat, fmt: bool, k: string): string
    requires m.Member?
    decreases m, 1
  {
    Tabs(if fmt then depth else 0,
         Quoted(m.name, [':'] + When(fmt, ['\t'],
           Text(m.item, depth, fmt,
                if m.next.NoMembers? then When(fmt, ['\n'], k)
                else [','] + When(fmt, ['\n'], MembersText(m.next, depth, fmt, k))))))
  }

  /** `cJSON_Print` and `cJSON_PrintUnformatted`. */
  function Print(v: Json, fmt: bool): string {
    Text(v, 0, fmt, [])
  }
}
