/** The input cursor and the parser that advances it (3rdparty/picojson/picojson.h), each method
    tied to a function of the remaining text. */
module PicoJsonParser {
  import opened Wrappers
  import opened PicoJson
  import opened PicoJsonRoundTrip

  function Newlines(s: string): nat {
    if |s| == 0 then 0 else Newlines(s[..|s| - 1]) + if s[|s| - 1] == '\n' then 1 else 0
  }

  /** A cursor whose last character read may be put back. */
  class Input {
    const text: string
    var cur: nat
    var consumed: bool
    var line: int

    ghost predicate Valid()
      reads this
    {
      cur <= |text| && (consumed ==> cur < |text|) && line == 1 + Newlines(text[..cur])
    }

    /** What is still to be read. */
    ghost function Remaining(): string
      requires Valid()
      reads this
    {
      if consumed then text[cur + 1..] else text[cur..]
    }

    constructor (text: string)
      ensures Valid() && this.text == text && Remaining() == text
    {
      this.text, this.cur, this.consumed, this.line := text, 0, false, 1;
    }

    /** getc; None is the end of the text. */
    method GetC() returns (ch: Option<char>)
      requires Valid()
      modifies this
      ensures Valid()
      ensures |old(Remaining())| == 0 ==> ch.None? && !consumed && Remaining() == old(Remaining())
      ensures |old(Remaining())| > 0 ==>
                ch == Some(old(Remaining())[0]) && consumed && text[cur] == ch.value &&
                Remaining() == old(Remaining())[1..]
    {
      if consumed {
        assert text[..cur + 1][..cur] == text[..cur];
        if text[cur] == '\n' { line := line + 1; }
        cur := cur + 1;
      }
      if cur == |text| {
        consumed := false;
        return None;
      }
      consumed := true;
      return Some(text[cur]);
    }

    /** ungetc: the last character read is to be read again. */
    method UngetC()
      requires Valid()
      modifies this
      ensures Valid() && !consumed && cur == old(cur)
      ensures Remaining() == if old(consumed) then [text[cur]] + old(Remaining()) else old(Remaining())
    {
      consumed := false;
    }

    /** skip_ws */
    method SkipSpace()
      requires Valid()
      modifies this
      ensures Valid() && !consumed && Remaining() == SkipWs(old(Remaining()))
    {
      while true
        invariant Valid() && SkipWs(Remaining()) == SkipWs(old(Remaining()))
        decreases |Remaining()|
      {
        ghost var before := Remaining();
        var ch := GetC();
        if ch.None? || !IsSpace(ch.value) {
          UngetC();
          assert Remaining() == before;
          return;
        }
      }
    }

    /** expect */
    method ExpectChar(c: char) returns (ok: bool)
      requires Valid()
      modifies this
      ensures Valid() && ok == Expect(old(Remaining()), c).Some?
      ensures Remaining() == if ok then Expect(old(Remaining()), c).value else SkipWs(old(Remaining()))
    {
      SkipSpace();
      ghost var before := Remaining();
      var ch := GetC();
      ok := ch == Some(c);
      if !ok {
        UngetC();
        assert Remaining() == before;
      }
    }

    /** match: what agrees with the pattern is consumed, also when it does not match as a whole. */
    method MatchText(pattern: string) returns (ok: bool)
      requires Valid()
      modifies this
      ensures Valid() && ok == Match(old(Remaining()), pattern).Some?
      ensures Remaining() == AfterCommon(old(Remaining()), pattern)
      ensures ok ==> Remaining() == Match(old(Remaining()), pattern).value
    {
      ghost var before := Remaining();
      MatchSteps(before, pattern);
      for i := 0 to |pattern|
        invariant Valid() && MatchRun(Remaining(), pattern[i..]) == MatchRun(before, pattern)
        invariant AfterCommon(Remaining(), pattern[i..]) == AfterCommon(before, pattern)
      {
        assert pattern[i..][1..] == pattern[i + 1..];
        var ch := GetC();
        if ch != Some(pattern[i]) {
          UngetC();
          return false;
        }
      }
      return true;
    }
  }

  /** The text after the longest prefix that it shares with the pattern. */
  ghost function AfterCommon(s: string, pattern: string): string {
    if |s| == 0 || |pattern| == 0 || s[0] != pattern[0] then s else AfterCommon(s[1..], pattern[1..])
  }

  /** match, one character at a time. */
  ghost function MatchRun(s: string, pattern: string): Option<string> {
    if |pattern| == 0 then Some(s)
    else if |s| == 0 || s[0] != pattern[0] then None
    else MatchRun(s[1..], pattern[1..])
  }

  lemma {:induction false} MatchSteps(s: string, pattern: string)
    ensures MatchRun(s, pattern) == Match(s, pattern)
  {
    if |pattern| > 0 && |s| > 0 && s[0] == pattern[0] {
      MatchSteps(s[1..], pattern[1..]);
      var n := |pattern| - 1;
      if n <= |s[1..]| {
        assert s[..n + 1] == [s[0]] + s[1..][..n] && pattern == [pattern[0]] + pattern[1..];
        assert s[1..][n..] == s[n + 1..];
      }
    }
  }

  lemma {:induction false} SkipTwice(s: string, c: char)
    ensures SkipWs(SkipWs(s)) == SkipWs(s) && Expect(SkipWs(s), c) == Expect(s, c)
  {
    if |s| > 0 && IsSpace(s[0]) { SkipTwice(s[1..], c); }
  }

  // ----- strings -----------------------------------------------------------------------------

  /** n more digits, one at a time, and what follows. */
  ghost function HexRun(s: string, n: nat, code: int): Option<(int, string)> {
    if n == 0 then Some((code, s))
    else if |s| == 0 || HexValue(s[0]) < 0 then None
    else HexRun(s[1..], n - 1, code * 16 + HexValue(s[0]))
  }

  lemma {:induction false} QuadHexSteps(s: string)
    ensures HexRun(s, 4, 0) == if QuadHex(s).Some? then Some((QuadHex(s).value, s[4..])) else None
  {
    HexStep(s, 4, 0);
    if |s| >= 1 { HexStep(s[1..], 3, HexValue(s[0])); }
    if |s| >= 2 { assert s[1..][1..] == s[2..]; HexStep(s[2..], 2, HexValue(s[0]) * 16 + HexValue(s[1])); }
    if |s| >= 3 {
      assert s[2..][1..] == s[3..];
      HexStep(s[3..], 1, (HexValue(s[0]) * 16 + HexValue(s[1])) * 16 + HexValue(s[2]));
    }
    if |s| >= 4 { assert s[3..][1..] == s[4..]; }
  }

  lemma {:induction false} HexStep(s: string, n: nat, code: int)
    requires n > 0
    ensures HexRun(s, n, code) ==
            if |s| == 0 || HexValue(s[0]) < 0 then None else HexRun(s[1..], n - 1, code * 16 + HexValue(s[0]))
  {}

  /** _parse_quadhex */
  method ParseQuadHex(input: Input) returns (n: Option<int>)
    requires input.Valid()
    modifies input
    ensures input.Valid() && n == QuadHex(old(input.Remaining()))
    ensures n.Some? ==> |old(input.Remaining())| >= 4 && input.Remaining() == old(input.Remaining())[4..]
  {
    QuadHexSteps(input.Remaining());
    var code := 0;
    for i := 0 to 4
      invariant input.Valid() && HexRun(input.Remaining(), 4 - i, code) == HexRun(old(input.Remaining()), 4, 0)
    {
      var ch := input.GetC();
      if ch.None? { return None; }
      var h := HexValue(ch.value);
      if h < 0 {
        input.UngetC();
        return None;
      }
      code := code * 16 + h;
    }
    return Some(code);
  }

  /** The second half of a surrogate pair. */
  method ParseLowSurrogate(input: Input) returns (n: Option<int>)
    requires input.Valid()
    modifies input
    ensures input.Valid() && n == LowSurrogate(old(input.Remaining()))
    ensures n.Some? ==> input.Remaining() == old(input.Remaining())[6..]
  {
    ghost var before := input.Remaining();
    var slash := input.GetC();
    if slash != Some('\\') { input.UngetC(); return None; }
    var letter := input.GetC();
    if letter != Some('u') { input.UngetC(); return None; }
    assert input.Remaining() == before[2..];
    n := ParseQuadHex(input);
    if n.None? || !(0xdc00 <= n.value <= 0xdfff) { return None; }
    assert before[2..][4..] == before[6..];
  }

  /** _parse_codepoint: the bytes to append. */
  method ParseCodepoint(input: Input) returns (bytes: Option<string>)
    requires input.Valid()
    modifies input
    ensures input.Valid() && bytes.Some? == CodePoint(old(input.Remaining())).Some?
    ensures bytes.Some? ==> CodePoint(old(input.Remaining())).value == (bytes.value, input.Remaining())
  {
    ghost var before := input.Remaining();
    var first := ParseQuadHex(input);
    if first.None? { return None; }
    QuadHexRange(before);
    var code := first.value;
    if 0xd800 <= code <= 0xdfff {
      if 0xdc00 <= code { return None; }
      var second := ParseLowSurrogate(input);
      if second.None? { return None; }
      code := (code - 0xd800) * 0x400 + (second.value - 0xdc00) + 0x10000;
    }
    return Some(Utf8(code));
  }

  /** _parse_string */
  method ParseString(input: Input) returns (s: Option<string>)
    requires input.Valid()
    modifies input
    ensures input.Valid() && s.Some? == StringBody(old(input.Remaining()), "").Some?
    ensures s.Some? ==> StringBody(old(input.Remaining()), "").value == (s.value, input.Remaining())
  {
    var out := "";
    while true
      invariant input.Valid() && StringBody(input.Remaining(), out) == StringBody(old(input.Remaining()), "")
      decreases |input.Remaining()|
    {
      var ch := input.GetC();
      if ch.None? || ch.value < ' ' {
        input.UngetC();
        return None;
      } else if ch.value == '\"' {
        return Some(out);
      } else if ch.value == '\\' {
        var letter := input.GetC();
        if letter.None? { return None; }
        if letter.value == 'u' {
          var bytes := ParseCodepoint(input);
          if bytes.None? { return None; }
          out := out + bytes.value;
        } else {
          var c := Unescape(letter.value);
          if c.None? { return None; }
          out := out + [c.value];
        }
      } else {
        out := out + [ch.value];
      }
    }
  }

  ghost function NumberRest(s: string): string {
    if |s| > 0 && IsNumberChar(s[0]) then NumberRest(s[1..]) else s
  }

  lemma {:induction false} NumberRestIs(s: string)
    ensures NumberRest(s) == s[|NumberRun(s)|..]
  {
    if |s| > 0 && IsNumberChar(s[0]) {
      NumberRestIs(s[1..]);
      assert s[1..][|NumberRun(s[1..])|..] == s[|NumberRun(s)|..];
    }
  }

  /** _parse_number: the longest run of number characters. */
  method ParseNumber(input: Input) returns (token: string)
    requires input.Valid()
    modifies input
    ensures input.Valid() && token == NumberRun(old(input.Remaining()))
    ensures input.Remaining() == old(input.Remaining())[|token|..]
  {
    NumberRestIs(input.Remaining());
    token := "";
    EmptyParts(NumberRun(input.Remaining()));
    while true
      invariant input.Valid() && NumberRest(input.Remaining()) == NumberRest(old(input.Remaining()))
      invariant token + NumberRun(input.Remaining()) == NumberRun(old(input.Remaining()))
      decreases |input.Remaining()|
    {
      ghost var here := input.Remaining();
      var ch := input.GetC();
      if ch.None? || !IsNumberChar(ch.value) {
        input.UngetC();
        assert input.Remaining() == here;
        EmptyParts(token);
        return;
      }
      Assoc(token, [ch.value], NumberRun(here[1..]));
      token := token + [ch.value];
    }
  }

  // ----- values ------------------------------------------------------------------------------

  /** _parse */
  method ParseValue(input: Input, converts: string -> bool) returns (v: Option<Value>)
    requires input.Valid()
    modifies input
    ensures input.Valid() && v.Some? == Parse(old(input.Remaining()), converts).Some?
    ensures v.Some? ==> Parse(old(input.Remaining()), converts).value == (v.value, input.Remaining())
    decreases |input.Remaining()|, 2
  {
    input.SkipSpace();
    ghost var here := input.Remaining();
    var ch := input.GetC();
    if ch.None? {
      input.UngetC();
      return None;
    }
    assert here == [ch.value] + input.Remaining();
    ParseCases(old(input.Remaining()), ch.value, input.Remaining(), converts);
    match ch.value {
      case 'n' => v := ParseLiteral(input, "ull", Null);
      case 'f' => v := ParseLiteral(input, "alse", Bool(false));
      case 't' => v := ParseLiteral(input, "rue", Bool(true));
      case '\"' =>
        var s := ParseString(input);
        v := if s.Some? then Some(Str(s.value)) else None;
      case '[' => v := ParseArray(input, converts);
      case '{' => v := ParseObject(input, converts);
      case _ =>
        input.UngetC();
        assert input.Remaining() == here;
        v := ParseToken(input, converts);
    }
  }

  /** What the parser does where no other value starts. */
  ghost function Token(s: string, converts: string -> bool): Option<(Value, string)> {
    if |s| > 0 && StartsNumber(s[0]) && converts(NumberRun(s)) then
      Some((Number(NumberRun(s)), s[|NumberRun(s)|..]))
    else None
  }

  method ParseToken(input: Input, converts: string -> bool) returns (v: Option<Value>)
    requires input.Valid() && !input.consumed && |input.Remaining()| > 0
    modifies input
    ensures input.Valid() && v.Some? == Token(old(input.Remaining()), converts).Some?
    ensures v.Some? ==> Token(old(input.Remaining()), converts).value == (v.value, input.Remaining())
  {
    if !StartsNumber(input.text[input.cur]) { return None; }
    var token := ParseNumber(input);
    v := if converts(token) then Some(Number(token)) else None;
  }

  /** The cases of the parser, by the first character. */
  lemma {:induction false} ParseCases(s: string, c: char, rest: string, converts: string -> bool)
    requires SkipWs(s) == [c] + rest
    ensures c == 'n' ==> Parse(s, converts) == Literal(rest, "ull", Null)
    ensures c == 'f' ==> Parse(s, converts) == Literal(rest, "alse", Bool(false))
    ensures c == 't' ==> Parse(s, converts) == Literal(rest, "rue", Bool(true))
    ensures c == '\"' ==>
              var b := StringBody(rest, "");
              Parse(s, converts) == if b.None? then None else Some((Str(b.value.0), b.value.1))
    ensures c == '[' ==> Parse(s, converts) == AfterBracket(rest, converts)
    ensures c == '{' ==> Parse(s, converts) == AfterBrace(rest, converts)
    ensures c != 'n' && c != 'f' && c != 't' && c != '\"' && c != '[' && c != '{' ==>
            Parse(s, converts) == Token([c] + rest, converts)
  {
    assert ([c] + rest)[1..] == rest;
  }

  method ParseLiteral(input: Input, pattern: string, value: Value) returns (v: Option<Value>)
    requires input.Valid()
    modifies input
    ensures input.Valid() && v.Some? == Literal(old(input.Remaining()), pattern, value).Some?
    ensures v.Some? ==> Literal(old(input.Remaining()), pattern, value).value == (v.value, input.Remaining())
  {
    var ok := input.MatchText(pattern);
    v := if ok then Some(value) else None;
  }

  /** What the array parser does after its bracket. */
  ghost function AfterBracket(s: string, converts: string -> bool): Option<(Value, string)> {
    if Expect(s, ']').Some? then Some((Arr([]), Expect(s, ']').value)) else ParseItems(s, [], converts)
  }

  /** _parse_array */
  method ParseArray(input: Input, converts: string -> bool) returns (v: Option<Value>)
    requires input.Valid()
    modifies input
    ensures input.Valid() && v.Some? == AfterBracket(old(input.Remaining()), converts).Some?
    ensures v.Some? ==> AfterBracket(old(input.Remaining()), converts).value == (v.value, input.Remaining())
    decreases |input.Remaining()|, 3
  {
    ghost var start := input.Remaining();
    var close := input.ExpectChar(']');
    if close { return Some(Arr([])); }
    ItemsSkip(start, [], converts);
    var items: seq<Value> := [];
    while true
      invariant input.Valid() && |input.Remaining()| <= |start|
      invariant ParseItems(input.Remaining(), items, converts) == ParseItems(start, [], converts)
      decreases |input.Remaining()|
    {
      var item := ParseValue(input, converts);
      if item.None? { return None; }
      ghost var after := input.Remaining();
      var more := input.ExpectChar(',');
      if !more {
        SkipTwice(after, ']');
        close := input.ExpectChar(']');
        return if close then Some(Arr(items + [item.value])) else None;
      }
      items := items + [item.value];
    }
  }

  lemma {:induction false} ItemsSkip(s: string, items: seq<Value>, converts: string -> bool)
    ensures ParseItems(SkipWs(s), items, converts) == ParseItems(s, items, converts)
  {
    ParseSkip(s, converts);
  }

  lemma {:induction false} ParseSkip(s: string, converts: string -> bool)
    ensures Parse(SkipWs(s), converts) == Parse(s, converts)
  {
    SkipTwice(s, ',');
  }

  ghost function AfterBrace(s: string, converts: string -> bool): Option<(Value, string)> {
    if Expect(s, '}').Some? then Some((Obj(map[]), Expect(s, '}').value)) else ParseMembers(s, map[], converts)
  }

  /** _parse_object */
  method ParseObject(input: Input, converts: string -> bool) returns (v: Option<Value>)
    requires input.Valid()
    modifies input
    ensures input.Valid() && v.Some? == AfterBrace(old(input.Remaining()), converts).Some?
    ensures v.Some? ==> AfterBrace(old(input.Remaining()), converts).value == (v.value, input.Remaining())
    decreases |input.Remaining()|, 3
  {
    ghost var start := input.Remaining();
    var close := input.ExpectChar('}');
    if close { return Some(Obj(map[])); }
    MembersSkip(start, map[], converts);
    var members: map<string, Value> := map[];
    while true
      invariant input.Valid() && |input.Remaining()| <= |start|
      invariant ParseMembers(input.Remaining(), members, converts) == ParseMembers(start, map[], converts)
      decreases |input.Remaining()|
    {
      var open := input.ExpectChar('\"');
      if !open { return None; }
      var key := ParseString(input);
      if key.None? { return None; }
      var colon := input.ExpectChar(':');
      if !colon { return None; }
      var item := ParseValue(input, converts);
      if item.None? { return None; }
      ghost var after := input.Remaining();
      var more := input.ExpectChar(',');
      members := members[key.value := item.value];
      if !more {
        SkipTwice(after, '}');
        close := input.ExpectChar('}');
        return if close then Some(Obj(members)) else None;
      }
    }
  }

  lemma {:induction false} MembersSkip(s: string, members: map<string, Value>, converts: string -> bool)
    ensures ParseMembers(SkipWs(s), members, converts) == ParseMembers(s, members, converts)
  {
    SkipTwice(s, '\"');
  }

  // ----- printing ----------------------------------------------------------------------------

  /** serialize_str */
  method SerializeStr(s: string) returns (t: string)
    ensures t == Quoted(s)
  {
    t := "\"";
    for i := 0 to |s|
      invariant t + EscapeAll(s[i..]) == "\"" + EscapeAll(s)
    {
      assert s[i..][1..] == s[i + 1..];
      Assoc(t, Escape(s[i]), EscapeAll(s[i + 1..]));
      t := t + Escape(s[i]);
    }
    EmptyParts(t);
    t := t + "\"";
  }

  /** The separator before a list that continues. */
  ghost function Sep(first: bool): string { if first then "" else "," }

  /** The loop of an array. */
  method SerializeItems(items: Items, indent: int) returns (t: string)
    ensures t == PrintItems(items, indent)
    decreases items, 0
  {
    t := "";
    var rest, first := items, true;
    EmptyParts(PrintItems(items, indent));
    while rest.Item?
      invariant rest == items || rest < items
      invariant rest.Item? ==> t + (Sep(first) + PrintItems(rest, indent)) == PrintItems(items, indent)
      invariant rest.NoItems? ==> t == PrintItems(items, indent)
      decreases rest
    {
      ghost var before := t;
      if !first { t := t + ","; }
      ItemsGrow(before, t, first, rest, indent);
      t := t + Indent(indent);
      var one := Serialize(rest.head, indent);
      t := t + one;
      rest, first := rest.tail, false;
    }
  }

  lemma {:induction false} ItemsGrow(before: string, t: string, first: bool, rest: Items, indent: int)
    requires rest.Item? && t == if first then before else before + ","
    ensures var next := t + Indent(indent) + Print(rest.head, indent);
            before + (Sep(first) + PrintItems(rest, indent)) ==
            if rest.tail.NoItems? then next else next + (Sep(false) + PrintItems(rest.tail, indent))
  {
    var one := Indent(indent) + Print(rest.head, indent);
    var more := if rest.tail.NoItems? then "" else "," + PrintItems(rest.tail, indent);
    EmptyParts(PrintItems(rest, indent));
    Assoc(before, ",", PrintItems(rest, indent));
    Assoc(t, one, more);
    Assoc(t, Indent(indent), Print(rest.head, indent));
    EmptyParts(t + one);
  }

  /** The loop of an object. */
  method SerializeMembers(members: Members, indent: int) returns (t: string)
    ensures t == PrintMembers(members, indent)
    decreases members, 0
  {
    t := "";
    var rest, first := members, true;
    EmptyParts(PrintMembers(members, indent));
    while rest.Member?
      invariant rest == members || rest < members
      invariant rest.Member? ==> t + (Sep(first) + PrintMembers(rest, indent)) == PrintMembers(members, indent)
      invariant rest.NoMembers? ==> t == PrintMembers(members, indent)
      decreases rest
    {
      ghost var before := t;
      if !first { t := t + ","; }
      MembersGrow(before, t, first, rest, indent);
      t := t + Indent(indent);
      var key := SerializeStr(rest.key);
      t := t + key + ":";
      if indent >= 0 { t := t + " "; }
      var one := Serialize(rest.value, indent);
      t := t + one;
      rest, first := rest.tail, false;
    }
  }

  lemma {:induction false} MembersGrow(before: string, t: string, first: bool, rest: Members, indent: int)
    requires rest.Member? && t == if first then before else before + ","
    ensures var keyed := t + Indent(indent) + Quoted(rest.key) + ":";
            var next := (if indent >= 0 then keyed + " " else keyed) + Print(rest.value, indent);
            before + (Sep(first) + PrintMembers(rest, indent)) ==
            if rest.tail.NoMembers? then next else next + (Sep(false) + PrintMembers(rest.tail, indent))
  {
    var gap := if indent < 0 then "" else " ";
    var body := Print(rest.value, indent);
    var one := Indent(indent) + Quoted(rest.key) + ":" + gap + body;
    var more := if rest.tail.NoMembers? then "" else "," + PrintMembers(rest.tail, indent);
    EmptyParts(PrintMembers(rest, indent));
    Assoc(before, ",", PrintMembers(rest, indent));
    Assoc(t, one, more);
    Assoc(t, Indent(indent) + Quoted(rest.key) + ":" + gap, body);
    Assoc(t, Indent(indent) + Quoted(rest.key) + ":", gap);
    Assoc(t, Indent(indent) + Quoted(rest.key), ":");
    Assoc(t, Indent(indent), Quoted(rest.key));
    EmptyParts(t + Indent(indent) + Quoted(rest.key) + ":");
    EmptyParts(t + one);
  }

  /** _serialize */
  method Serialize(d: Doc, indent: int) returns (t: string)
    ensures t == Print(d, indent)
    decreases d, 1
  {
    match d {
      case StrDoc(s) => t := SerializeStr(s);
      case ArrDoc(items) =>
        var inner := SerializeItems(items, Deeper(indent));
        t := "[" + inner + (if items.NoItems? then "" else Indent(indent)) + "]";
      case ObjDoc(members) =>
        var inner := SerializeMembers(members, Deeper(indent));
        t := "{" + inner + (if members.NoMembers? then "" else Indent(indent)) + "}";
      case NullDoc => t := "null";
      case BoolDoc(b) => t := if b then "true" else "false";
      case NumberDoc(token) => t := token;
    }
    t := t + if indent == 0 then "\n" else "";
  }

  /** Printing and then parsing: the value comes back, and nothing but a final newline is left. */
  method Reparse(d: Doc, pretty: bool, converts: string -> bool) returns (v: Option<Value>)
    requires Printable(d, converts)
    ensures v == Some(ToValue(d))
  {
    var text := Serialize(d, if pretty then 0 else -1);
    var input := new Input(text);
    EmptyParts(text);
    RoundTrip(d, pretty, "", converts);
    v := ParseValue(input, converts);
  }
}
