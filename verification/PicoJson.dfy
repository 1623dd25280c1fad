/** The JSON printer and parser (3rdparty/picojson/picojson.h). Characters are bytes; numbers are
    the tokens they print as. */
module PicoJson {
  import opened Wrappers

  datatype Value =
    | Null
    | Bool(b: bool)
    | Number(token: string)
    | Str(s: string)
    | Arr(items: seq<Value>)
    | Obj(members: map<string, Value>)

  /** A value with an order in which its objects are enumerated. */
  datatype Doc =
    | NullDoc
    | BoolDoc(b: bool)
    | NumberDoc(token: string)
    | StrDoc(s: string)
    | ArrDoc(items: Items)
    | ObjDoc(members: Members)

  datatype Items = NoItems | Item(head: Doc, tail: Items)
  datatype Members = NoMembers | Member(key: string, value: Doc, tail: Members)

  function ToValue(d: Doc): Value
    decreases d, 1
  {
    match d
    case NullDoc => Null
    case BoolDoc(b) => Bool(b)
    case NumberDoc(t) => Number(t)
    case StrDoc(s) => Str(s)
    case ArrDoc(items) => Arr(ItemValues(items))
    case ObjDoc(members) => Obj(Insert(map[], members))
  }

  function ItemValues(items: Items): seq<Value>
    decreases items, 0
  {
    match items
    case NoItems => []
    case Item(d, rest) => [ToValue(d)] + ItemValues(rest)
  }

  /** The members put into a map one after the other. */
  function Insert(m: map<string, Value>, members: Members): map<string, Value>
    decreases members, 0
  {
    match members
    case NoMembers => m
    case Member(k, d, rest) => Insert(m[k := ToValue(d)], rest)
  }

  // ----- numbers -----------------------------------------------------------------------------

  predicate IsNumberChar(c: char) {
    ('0' <= c <= '9') || c == '+' || c == '-' || c == 'e' || c == 'E' || c == '.'
  }

  predicate StartsNumber(c: char) { ('0' <= c <= '9') || c == '-' }

  /** A token that prints a number: it is read back as a whole. */
  predicate NumberToken(t: string, converts: string -> bool) {
    |t| > 0 && StartsNumber(t[0]) && (forall i :: 0 <= i < |t| ==> IsNumberChar(t[i])) && converts(t)
  }

  /** All numbers in d are tokens that convert back. */
  predicate Printable(d: Doc, converts: string -> bool) {
    match d
    case NumberDoc(t) => NumberToken(t, converts)
    case ArrDoc(items) => PrintableItems(items, converts)
    case ObjDoc(members) => PrintableMembers(members, converts)
    case _ => true
  }

  predicate PrintableItems(items: Items, converts: string -> bool) {
    items.Item? ==> Printable(items.head, converts) && PrintableItems(items.tail, converts)
  }

  predicate PrintableMembers(members: Members, converts: string -> bool) {
    members.Member? ==> Printable(members.value, converts) && PrintableMembers(members.tail, converts)
  }

  // ----- printing ----------------------------------------------------------------------------

  function HexDigit(n: int): char
    requires 0 <= n < 16
  {
    if n < 10 then '0' + n as char else 'a' + (n - 10) as char
  }

  /** Four lower-case hexadecimal digits. */
  function Hex4(n: int): string
    requires 0 <= n < 0x10000
  {
    [HexDigit(n / 0x1000), HexDigit(n / 0x100 % 0x10), HexDigit(n / 0x10 % 0x10), HexDigit(n % 0x10)]
  }

  /** serialize_str_char */
  function Escape(c: char): string {
    if c == '\"' then "\\\""
    else if c == '\\' then "\\\\"
    else if c == '/' then "\\/"
    else if c == 8 as char then "\\b"
    else if c == 12 as char then "\\f"
    else if c == '\n' then "\\n"
    else if c == '\r' then "\\r"
    else if c == '\t' then "\\t"
    else if c as int < 0x20 || c as int == 0x7f then "\\u" + Hex4(c as int)
    else [c]
  }

  function EscapeAll(s: string): string {
    if |s| == 0 then "" else Escape(s[0]) + EscapeAll(s[1..])
  }

  /** serialize_str */
  function Quoted(s: string): string { "\"" + EscapeAll(s) + "\"" }

  function Spaces(n: nat): string { if n == 0 then "" else " " + Spaces(n - 1) }

  /** _indent; an indent of -1 is the compact form. */
  function Indent(indent: int): string { if indent < 0 then "" else "\n" + Spaces(indent * 2) }

  function Deeper(indent: int): int { if indent < 0 then indent else indent + 1 }

  /** _serialize without the final newline. */
  function PrintBody(d: Doc, indent: int): string
    decreases d, 0
  {
    match d
    case NullDoc => "null"
    case BoolDoc(b) => if b then "true" else "false"
    case NumberDoc(t) => t
    case StrDoc(s) => Quoted(s)
    case ArrDoc(items) =>
      "[" + PrintItems(items, Deeper(indent)) + (if items.NoItems? then "" else Indent(indent)) + "]"
    case ObjDoc(members) =>
      "{" + PrintMembers(members, Deeper(indent)) + (if members.NoMembers? then "" else Indent(indent)) + "}"
  }

  /** _serialize: the outermost pretty form ends with a newline. */
  function Print(d: Doc, indent: int): string
    decreases d, 1
  {
    PrintBody(d, indent) + if indent == 0 then "\n" else ""
  }

  function PrintItems(items: Items, indent: int): string
    decreases items, 0
  {
    match items
    case NoItems => ""
    case Item(d, rest) =>
      Indent(indent) + Print(d, indent) + (if rest.NoItems? then "" else "," + PrintItems(rest, indent))
  }

  function PrintMembers(members: Members, indent: int): string
    decreases members, 0
  {
    match members
    case NoMembers => ""
    case Member(k, d, rest) =>
      Indent(indent) + Quoted(k) + ":" + (if indent < 0 then "" else " ") + Print(d, indent) +
      (if rest.NoMembers? then "" else "," + PrintMembers(rest, indent))
  }

  // ----- parsing, as functions of the remaining text -----------------------------------------

  predicate IsSpace(c: char) { c == ' ' || c == '\t' || c == '\n' || c == '\r' }

  function SkipWs(s: string): (r: string)
    ensures |r| <= |s|
  {
    if |s| > 0 && IsSpace(s[0]) then SkipWs(s[1..]) else s
  }

  /** expect: what follows c, after white space. */
  function Expect(s: string, c: char): (r: Option<string>)
    ensures r.Some? ==> |r.value| < |s|
  {
    var t := SkipWs(s);
    if |t| > 0 && t[0] == c then Some(t[1..]) else None
  }

  /** match: what follows the pattern. */
  function Match(s: string, pattern: string): (r: Option<string>)
    ensures r.Some? ==> |r.value| <= |s|
  {
    if |pattern| <= |s| && s[..|pattern|] == pattern then Some(s[|pattern|..]) else None
  }

  function HexValue(c: char): (r: int)
    ensures -1 <= r < 16
  {
    if '0' <= c <= '9' then (c - '0') as int
    else if 'A' <= c <= 'F' then (c - 'A') as int + 10
    else if 'a' <= c <= 'f' then (c - 'a') as int + 10
    else -1
  }

  /** _parse_quadhex */
  function QuadHex(s: string): Option<int> {
    if |s| < 4 || HexValue(s[0]) < 0 || HexValue(s[1]) < 0 || HexValue(s[2]) < 0 || HexValue(s[3]) < 0 then None
    else Some(((HexValue(s[0]) * 16 + HexValue(s[1])) * 16 + HexValue(s[2])) * 16 + HexValue(s[3]))
  }

  /** UTF-8 bytes of a code point. */
  function Utf8(u: int): string
    requires 0 <= u < 0x110000
  {
    if u < 0x80 then [u as char]
    else if u < 0x800 then [(0xc0 + u / 0x40) as char, (0x80 + u % 0x40) as char]
    else if u < 0x10000 then [(0xe0 + u / 0x1000) as char, (0x80 + u / 0x40 % 0x40) as char, (0x80 + u % 0x40) as char]
    else [(0xf0 + u / 0x40000) as char, (0x80 + u / 0x1000 % 0x40) as char, (0x80 + u / 0x40 % 0x40) as char,
          (0x80 + u % 0x40) as char]
  }

  lemma {:induction false} QuadHexRange(s: string)
    ensures QuadHex(s).Some? ==> 0 <= QuadHex(s).value < 0x10000
  {}

  /** The second half of a surrogate pair. */
  function LowSurrogate(s: string): (r: Option<int>)
    ensures r.Some? ==> |s| >= 6 && 0xdc00 <= r.value <= 0xdfff
  {
    if |s| < 2 || s[0] != '\\' || s[1] != 'u' then None
    else
      var n := QuadHex(s[2..]);
      if n.Some? && 0xdc00 <= n.value <= 0xdfff then n else None
  }

  /** _parse_codepoint: the bytes and what follows. */
  function CodePoint(s: string): (r: Option<(string, string)>)
    ensures r.Some? ==> |r.value.1| <= |s|
  {
    var first := QuadHex(s);
    QuadHexRange(s);
    if first.None? then None
    else if 0xd800 <= first.value <= 0xdfff then
      if 0xdc00 <= first.value then None
      else
        var second := LowSurrogate(s[4..]);
        if second.None? then None
        else Some((Utf8((first.value - 0xd800) * 0x400 + (second.value - 0xdc00) + 0x10000), s[4..][6..]))
    else Some((Utf8(first.value), s[4..]))
  }

  /** The character after a backslash, when it stands for one. */
  function Unescape(c: char): Option<char> {
    if c == '\"' || c == '\\' || c == '/' then Some(c)
    else if c == 'b' then Some(8 as char)
    else if c == 'f' then Some(12 as char)
    else if c == 'n' then Some('\n')
    else if c == 'r' then Some('\r')
    else if c == 't' then Some('\t')
    else None
  }

  /** _parse_string, after the opening quote. */
  function StringBody(s: string, out: string): (r: Option<(string, string)>)
    ensures r.Some? ==> |r.value.1| < |s|
    decreases |s|
  {
    if |s| == 0 || s[0] < ' ' then None
    else if s[0] == '\"' then Some((out, s[1..]))
    else if s[0] == '\\' then
      if |s| == 1 then None
      else if s[1] == 'u' then
        var u := CodePoint(s[2..]);
        if u.None? then None else StringBody(u.value.1, out + u.value.0)
      else
        var c := Unescape(s[1]);
        if c.None? then None else StringBody(s[2..], out + [c.value])
    else StringBody(s[1..], out + [s[0]])
  }

  /** _parse_number: the longest run of number characters. */
  function NumberRun(s: string): (r: string)
    ensures |r| <= |s|
  {
    if |s| > 0 && IsNumberChar(s[0]) then [s[0]] + NumberRun(s[1..]) else ""
  }

  /** _parse: the value and what follows it. */
  function Parse(s0: string, converts: string -> bool): (r: Option<(Value, string)>)
    ensures r.Some? ==> |r.value.1| < |s0|
    decreases |s0|, 1
  {
    var s := SkipWs(s0);
    if |s| == 0 then None
    else if s[0] == 'n' then Literal(s[1..], "ull", Null)
    else if s[0] == 'f' then Literal(s[1..], "alse", Bool(false))
    else if s[0] == 't' then Literal(s[1..], "rue", Bool(true))
    else if s[0] == '\"' then
      var b := StringBody(s[1..], "");
      if b.None? then None else Some((Str(b.value.0), b.value.1))
    else if s[0] == '[' then
      var close := Expect(s[1..], ']');
      if close.Some? then Some((Arr([]), close.value)) else ParseItems(s[1..], [], converts)
    else if s[0] == '{' then
      var close := Expect(s[1..], '}');
      if close.Some? then Some((Obj(map[]), close.value)) else ParseMembers(s[1..], map[], converts)
    else if StartsNumber(s[0]) then
      var t := NumberRun(s);
      if converts(t) then Some((Number(t), s[|t|..])) else None
    else None
  }

  function Literal(s: string, pattern: string, v: Value): (r: Option<(Value, string)>)
    ensures r.Some? ==> |r.value.1| <= |s|
  {
    var m := Match(s, pattern);
    if m.None? then None else Some((v, m.value))
  }

  /** The loop of _parse_array. */
  function ParseItems(s: string, items: seq<Value>, converts: string -> bool): (r: Option<(Value, string)>)
    ensures r.Some? ==> |r.value.1| < |s|
    decreases |s|, 2
  {
    var item := Parse(s, converts);
    if item.None? then None
    else
      var (v, rest) := item.value;
      var more := Expect(rest, ',');
      if more.Some? then ParseItems(more.value, items + [v], converts)
      else
        var close := Expect(rest, ']');
        if close.None? then None else Some((Arr(items + [v]), close.value))
  }

  /** The loop of _parse_object. */
  function ParseMembers(s: string, members: map<string, Value>, converts: string -> bool): (r: Option<(Value, string)>)
    ensures r.Some? ==> |r.value.1| < |s|
    decreases |s|, 2
  {
    var open := Expect(s, '\"');
    if open.None? then None
    else
      var key := StringBody(open.value, "");
      if key.None? then None
      else
        var colon := Expect(key.value.1, ':');
        if colon.None? then None
        else
          var item := Parse(colon.value, converts);
          if item.None? then None
          else
            var (v, rest) := item.value;
            var more := Expect(rest, ',');
            if more.Some? then ParseMembers(more.value, members[key.value.0 := v], converts)
            else
              var close := Expect(rest, '}');
              if close.None? then None else Some((Obj(members[key.value.0 := v]), close.value))
  }
}
