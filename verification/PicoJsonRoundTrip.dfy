/** Parsing what was printed gives the value back (3rdparty/picojson/picojson.h). */
module PicoJsonRoundTrip {
  import opened Wrappers
  import opened PicoJson

  // ----- regrouping --------------------------------------------------------------------------

  lemma {:induction false} Assoc(a: string, b: string, c: string)
    ensures (a + b) + c == a + (b + c)
  {}

  lemma {:induction false} Assoc5(a: string, b: string, c: string, d: string, e: string)
    ensures (((a + b) + c) + d) + e == a + (b + (c + (d + e)))
  {
    Assoc(a + b + c, d, e);
    Assoc(a + b, c, d + e);
    Assoc(a, b, c + (d + e));
  }

  lemma {:induction false} EmptyParts(a: string)
    ensures a + "" == a && "" + a == a
  {}

  // ----- strings -----------------------------------------------------------------------------

  lemma {:induction false} HexDigitValue(n: int)
    requires 0 <= n < 16
    ensures HexValue(HexDigit(n)) == n
  {}

  lemma {:induction false} HexDigitsSum(n: int)
    requires 0 <= n < 0x10000
    ensures ((n / 0x1000 * 16 + n / 0x100 % 0x10) * 16 + n / 0x10 % 0x10) * 16 + n % 0x10 == n
  {}

  /** Four printed digits are read back. */
  lemma {:induction false} Hex4Read(n: int, t: string)
    requires 0 <= n < 0x10000
    ensures QuadHex(Hex4(n) + t) == Some(n) && (Hex4(n) + t)[4..] == t
  {
    HexDigitValue(n / 0x1000);
    HexDigitValue(n / 0x100 % 0x10);
    HexDigitValue(n / 0x10 % 0x10);
    HexDigitValue(n % 0x10);
    HexDigitsSum(n);
  }

  /** A backslash and a letter. */
  lemma {:induction false} PairRead(x: char, c: char, t: string, out: string)
    requires Unescape(x) == Some(c) && x != 'u'
    ensures StringBody(['\\', x] + t, out) == StringBody(t, out + [c])
  {
    assert (['\\', x] + t)[2..] == t;
  }

  /** A backslash, u and four digits. */
  lemma {:induction false} ControlRead(n: int, t: string, out: string)
    requires 0 <= n < 0x80
    ensures StringBody("\\u" + Hex4(n) + t, out) == StringBody(t, out + [n as char])
  {
    var s := "\\u" + Hex4(n) + t;
    assert s[2..] == Hex4(n) + t;
    Hex4Read(n, t);
    assert CodePoint(s[2..]) == Some((Utf8(n), t));
  }

  lemma {:induction false} PlainRead(c: char, t: string, out: string)
    requires c >= ' ' && c != '\"' && c != '\\'
    ensures StringBody([c] + t, out) == StringBody(t, out + [c])
  {
    assert ([c] + t)[1..] == t;
  }

  /** The three forms of an escaped character. */
  lemma {:induction false} EscapeForms(c: char)
    ensures || (|Escape(c)| == 2 && Escape(c) == ['\\', Escape(c)[1]] && Unescape(Escape(c)[1]) == Some(c) &&
              Escape(c)[1] != 'u')
            || (Escape(c) == [c] && c >= ' ' && c != '\"' && c != '\\')
            || (c as int < 0x80 && Escape(c) == "\\u" + Hex4(c as int))
  {}

  /** One escaped character is read as that character. */
  lemma {:induction false} EscapeRead(c: char, t: string, out: string)
    ensures StringBody(Escape(c) + t, out) == StringBody(t, out + [c])
  {
    EscapeForms(c);
    if |Escape(c)| == 2 {
      PairRead(Escape(c)[1], c, t, out);
    } else if |Escape(c)| == 1 {
      PlainRead(c, t, out);
    } else {
      ControlRead(c as int, t, out);
    }
  }

  lemma {:induction false} EscapedText(s: string, tail: string)
    requires |s| > 0
    ensures EscapeAll(s) + "\"" + tail == Escape(s[0]) + (EscapeAll(s[1..]) + "\"" + tail)
  {
    Assoc(Escape(s[0]), EscapeAll(s[1..]), "\"");
    Assoc(Escape(s[0]), EscapeAll(s[1..]) + "\"", tail);
  }

  lemma {:induction false} HeadTail(out: string, s: string)
    requires |s| > 0
    ensures (out + [s[0]]) + s[1..] == out + s
  {
    assert s == [s[0]] + s[1..];
    Assoc(out, [s[0]], s[1..]);
  }

  /** Every string, escaped and quoted, is read back. */
  lemma {:induction false} StringRead(s: string, tail: string, out: string)
    ensures StringBody(EscapeAll(s) + "\"" + tail, out) == Some((out + s, tail))
  {
    if |s| == 0 {
      EmptyParts("\"");
      assert ("\"" + tail)[1..] == tail;
      EmptyParts(out);
    } else {
      EscapedText(s, tail);
      EscapeRead(s[0], EscapeAll(s[1..]) + "\"" + tail, out);
      StringRead(s[1..], tail, out + [s[0]]);
      HeadTail(out, s);
    }
  }

  // ----- white space -------------------------------------------------------------------------

  ghost predicate AllSpace(w: string) { forall i :: 0 <= i < |w| ==> IsSpace(w[i]) }

  lemma {:induction false} SkipSpace(w: string, t: string)
    requires AllSpace(w)
    ensures SkipWs(w + t) == SkipWs(t)
  {
    if |w| == 0 {
      assert w + t == t;
    } else {
      assert (w + t)[1..] == w[1..] + t;
      SkipSpace(w[1..], t);
    }
  }

  lemma {:induction false} SpacesAreSpace(n: nat)
    ensures AllSpace(Spaces(n))
  {
    if n > 0 { SpacesAreSpace(n - 1); }
  }

  lemma {:induction false} IndentIsSpace(indent: int)
    ensures AllSpace(Indent(indent))
  {
    if indent >= 0 { SpacesAreSpace(indent * 2); }
  }

  /** White space before a value or a sign does not matter. */
  lemma {:induction false} ParseAfterSpace(w: string, t: string, converts: string -> bool)
    requires AllSpace(w)
    ensures Parse(w + t, converts) == Parse(t, converts)
    ensures forall c :: Expect(w + t, c) == Expect(t, c)
  {
    SkipSpace(w, t);
  }

  lemma {:induction false} ExpectSign(w: string, c: char, t: string)
    requires AllSpace(w) && !IsSpace(c)
    ensures Expect(w + [c] + t, c) == Some(t)
    ensures forall d :: d != c ==> Expect(w + [c] + t, d) == None
  {
    assert w + [c] + t == w + ([c] + t);
    SkipSpace(w, [c] + t);
    assert ([c] + t)[1..] == t;
  }

  // ----- numbers -----------------------------------------------------------------------------

  /** What follows a value does not continue a number. */
  predicate EndsNumber(t: string) { |t| == 0 || !IsNumberChar(t[0]) }

  lemma {:induction false} NumberRead(token: string, t: string)
    requires (forall i :: 0 <= i < |token| ==> IsNumberChar(token[i])) && EndsNumber(t)
    ensures NumberRun(token + t) == token
  {
    if |token| == 0 {
      assert token + t == t;
    } else {
      assert (token + t)[1..] == token[1..] + t;
      NumberRead(token[1..], t);
    }
  }

  // ----- values ------------------------------------------------------------------------------

  predicate ValueStart(c: char) {
    c == 'n' || c == 't' || c == 'f' || c == '\"' || c == '[' || c == '{' || StartsNumber(c)
  }

  lemma {:induction false} BodyStart(d: Doc, indent: int, converts: string -> bool)
    requires Printable(d, converts)
    ensures |PrintBody(d, indent)| > 0 && ValueStart(PrintBody(d, indent)[0])
  {}

  /** A printed value is read back, and what follows is left. */
  lemma {:induction false} BodyRead(d: Doc, indent: int, tail: string, converts: string -> bool)
    requires Printable(d, converts) && indent >= -1 && EndsNumber(tail)
    ensures Parse(PrintBody(d, indent) + tail, converts) == Some((ToValue(d), tail))
    decreases d, 1
  {
    assert "null" == ['n'] + "ull" && "true" == ['t'] + "rue" && "false" == ['f'] + "alse";
    match d {
      case NullDoc => LiteralRead('n', "ull", tail, converts);
      case BoolDoc(b) =>
        if b { LiteralRead('t', "rue", tail, converts); } else { LiteralRead('f', "alse", tail, converts); }
      case NumberDoc(t) => TokenRead(t, tail, converts);
      case StrDoc(s) => QuotedRead(s, tail, converts);
      case ArrDoc(items) => ArrayRead(items, indent, tail, converts);
      case ObjDoc(members) => ObjectRead(members, indent, tail, converts);
    }
  }

  lemma {:induction false} LiteralRead(c: char, pattern: string, tail: string, converts: string -> bool)
    requires (c == 'n' && pattern == "ull") || (c == 't' && pattern == "rue") || (c == 'f' && pattern == "alse")
    ensures Parse([c] + pattern + tail, converts) == Some((if c == 'n' then Null else Bool(c == 't'), tail))
  {
    var s := [c] + pattern + tail;
    assert s[1..] == pattern + tail && (pattern + tail)[|pattern|..] == tail;
    assert SkipWs(s) == s;
  }

  lemma {:induction false} TokenRead(t: string, tail: string, converts: string -> bool)
    requires NumberToken(t, converts) && EndsNumber(tail)
    ensures Parse(t + tail, converts) == Some((Number(t), tail))
  {
    NumberRead(t, tail);
    assert SkipWs(t + tail) == t + tail && (t + tail)[|t|..] == tail;
  }

  lemma {:induction false} QuotedRead(s: string, tail: string, converts: string -> bool)
    ensures Parse(Quoted(s) + tail, converts) == Some((Str(s), tail))
  {
    var inner := EscapeAll(s) + "\"" + tail;
    Assoc("\"", EscapeAll(s), "\"");
    Assoc("\"", EscapeAll(s) + "\"", tail);
    assert SkipWs("\"" + inner) == "\"" + inner && ("\"" + inner)[1..] == inner;
    StringRead(s, tail, "");
    EmptyParts(s);
  }

  lemma {:induction false} ArrayText(items: Items, indent: int, tail: string)
    ensures var w := if items.NoItems? then "" else Indent(indent);
            PrintBody(ArrDoc(items), indent) + tail == ['['] + (PrintItems(items, Deeper(indent)) + (w + [']'] + tail))
  {}

  lemma {:induction false} ArrayRead(items: Items, indent: int, tail: string, converts: string -> bool)
    requires PrintableItems(items, converts) && indent >= -1
    ensures Parse(PrintBody(ArrDoc(items), indent) + tail, converts) == Some((ToValue(ArrDoc(items)), tail))
    decreases items, 2
  {
    var w := if items.NoItems? then "" else Indent(indent);
    var inner := PrintItems(items, Deeper(indent)) + (w + [']'] + tail);
    ArrayText(items, indent, tail);
    IndentIsSpace(indent);
    OpenArray(inner, converts);
    if items.NoItems? {
      assert inner == "" + [']'] + tail;
      ExpectSign("", ']', tail);
    } else {
      ItemsStart(items, Deeper(indent), w + [']'] + tail, converts);
      ItemsRead(items, Deeper(indent), w, [], tail, converts);
      assert [] + ItemValues(items) == ItemValues(items);
    }
  }

  /** What the parser does at an opening bracket. */
  lemma {:induction false} OpenArray(inner: string, converts: string -> bool)
    ensures Parse(['['] + inner, converts) ==
            if Expect(inner, ']').Some? then Some((Arr([]), Expect(inner, ']').value))
            else ParseItems(inner, [], converts)
  {
    var s := ['['] + inner;
    assert SkipWs(s) == s && s[1..] == inner;
  }

  /** What the parser does at an opening brace. */
  lemma {:induction false} OpenObject(inner: string, converts: string -> bool)
    ensures Parse(['{'] + inner, converts) ==
            if Expect(inner, '}').Some? then Some((Obj(map[]), Expect(inner, '}').value))
            else ParseMembers(inner, map[], converts)
  {
    var s := ['{'] + inner;
    assert SkipWs(s) == s && s[1..] == inner;
  }

  /** After white space, a text that starts otherwise is not the sign. */
  lemma {:induction false} NotSign(w: string, t: string, c: char)
    requires AllSpace(w) && |t| > 0 && !IsSpace(t[0]) && t[0] != c
    ensures Expect(w + t, c) == None
  {
    SkipSpace(w, t);
  }

  /** A non-empty list does not look like the closing bracket. */
  lemma {:induction false} ItemsStart(items: Items, indent: int, t: string, converts: string -> bool)
    requires items.Item? && PrintableItems(items, converts) && indent != 0
    ensures Expect(PrintItems(items, indent) + t, ']') == None
  {
    BodyStart(items.head, indent, converts);
    IndentIsSpace(indent);
    if items.tail.NoItems? {
      LastItemText(items, indent, t);
      NotSign(Indent(indent), PrintBody(items.head, indent) + t, ']');
    } else {
      var after := "" + [','] + (PrintItems(items.tail, indent) + t);
      FirstItemText(items, indent, t);
      NotSign(Indent(indent), PrintBody(items.head, indent) + after, ']');
    }
  }

  /** The loop of the array parser, one item at a time. */
  lemma {:induction false} ItemsStep(s: string, v: Value, after: string, next: string, acc: seq<Value>,
      converts: string -> bool)
    requires Parse(s, converts) == Some((v, after))
    ensures Expect(after, ',') == Some(next) ==> ParseItems(s, acc, converts) == ParseItems(next, acc + [v], converts)
    ensures Expect(after, ',') == None && Expect(after, ']') == Some(next) ==>
              ParseItems(s, acc, converts) == Some((Arr(acc + [v]), next))
  {}

  /** An item after its indentation. */
  lemma {:induction false} ItemRead(d: Doc, indent: int, after: string, converts: string -> bool)
    requires Printable(d, converts) && indent >= -1 && EndsNumber(after)
    ensures Parse(Indent(indent) + (PrintBody(d, indent) + after), converts) == Some((ToValue(d), after))
    decreases d, 2
  {
    IndentIsSpace(indent);
    ParseAfterSpace(Indent(indent), PrintBody(d, indent) + after, converts);
    BodyRead(d, indent, after, converts);
  }

  lemma {:induction false} LastItemText(items: Items, indent: int, after: string)
    requires items.Item? && items.tail.NoItems? && indent != 0
    ensures PrintItems(items, indent) + after == Indent(indent) + (PrintBody(items.head, indent) + after)
  {
    EmptyParts(PrintBody(items.head, indent));
    EmptyParts(Indent(indent) + PrintBody(items.head, indent));
    Assoc(Indent(indent), PrintBody(items.head, indent), after);
  }

  lemma {:induction false} FirstItemText(items: Items, indent: int, after: string)
    requires items.Item? && items.tail.Item? && indent != 0
    ensures PrintItems(items, indent) + after ==
            Indent(indent) + (PrintBody(items.head, indent) + ("" + [','] + (PrintItems(items.tail, indent) + after)))
  {
    var body, rest := PrintBody(items.head, indent), PrintItems(items.tail, indent);
    EmptyParts(body);
    EmptyParts([',']);
    Assoc(Indent(indent) + body, "," + rest, after);
    Assoc(",", rest, after);
    Assoc(Indent(indent), body, "," + (rest + after));
  }

  lemma {:induction false} LastItemRead(d: Doc, indent: int, w: string, acc: seq<Value>, tail: string,
      converts: string -> bool)
    requires Printable(d, converts) && indent >= -1 && AllSpace(w)
    ensures ParseItems(Indent(indent) + (PrintBody(d, indent) + (w + [']'] + tail)), acc, converts) ==
            Some((Arr(acc + [ToValue(d)]), tail))
    decreases d, 3
  {
    var close := w + [']'] + tail;
    SpaceEndsNumber(w, ']', tail);
    ItemRead(d, indent, close, converts);
    ExpectSign(w, ']', tail);
    ItemsStep(Indent(indent) + (PrintBody(d, indent) + close), ToValue(d), close, tail, acc, converts);
  }

  lemma {:induction false} NextItemRead(d: Doc, indent: int, next: string, acc: seq<Value>, converts: string -> bool)
    requires Printable(d, converts) && indent >= -1
    ensures ParseItems(Indent(indent) + (PrintBody(d, indent) + ("" + [','] + next)), acc, converts) ==
            ParseItems(next, acc + [ToValue(d)], converts)
    decreases d, 3
  {
    var after := "" + [','] + next;
    ItemRead(d, indent, after, converts);
    ExpectSign("", ',', next);
    ItemsStep(Indent(indent) + (PrintBody(d, indent) + after), ToValue(d), after, next, acc, converts);
  }

  lemma {:induction false} ItemsRead(items: Items, indent: int, w: string, acc: seq<Value>, tail: string,
      converts: string -> bool)
    requires items.Item? && PrintableItems(items, converts) && indent >= -1 && indent != 0 && AllSpace(w)
    ensures ParseItems(PrintItems(items, indent) + (w + [']'] + tail), acc, converts) ==
            Some((Arr(acc + ItemValues(items)), tail))
    decreases items, 1
  {
    var d, rest, close := items.head, items.tail, w + [']'] + tail;
    if rest.NoItems? {
      LastItemText(items, indent, close);
      LastItemRead(d, indent, w, acc, tail, converts);
      assert ItemValues(items) == [ToValue(d)];
    } else {
      FirstItemText(items, indent, close);
      NextItemRead(d, indent, PrintItems(rest, indent) + close, acc, converts);
      ItemsRead(rest, indent, w, acc + [ToValue(d)], tail, converts);
      ValueNext(acc, ToValue(d), ItemValues(rest));
    }
  }

  lemma {:induction false} ValueNext(acc: seq<Value>, v: Value, rest: seq<Value>)
    ensures (acc + [v]) + rest == acc + ([v] + rest)
  {}

  lemma {:induction false} SpaceEndsNumber(w: string, c: char, tail: string)
    requires AllSpace(w) && !IsNumberChar(c)
    ensures EndsNumber(w + [c] + tail)
  {
    if |w| > 0 { assert IsSpace(w[0]); }
  }

  lemma {:induction false} ObjectText(members: Members, indent: int, tail: string)
    ensures var w := if members.NoMembers? then "" else Indent(indent);
            PrintBody(ObjDoc(members), indent) + tail ==
              ['{'] + (PrintMembers(members, Deeper(indent)) + (w + ['}'] + tail))
  {}

  lemma {:induction false} ObjectRead(members: Members, indent: int, tail: string, converts: string -> bool)
    requires PrintableMembers(members, converts) && indent >= -1
    ensures Parse(PrintBody(ObjDoc(members), indent) + tail, converts) == Some((ToValue(ObjDoc(members)), tail))
    decreases members, 2
  {
    var w := if members.NoMembers? then "" else Indent(indent);
    var inner := PrintMembers(members, Deeper(indent)) + (w + ['}'] + tail);
    ObjectText(members, indent, tail);
    IndentIsSpace(indent);
    OpenObject(inner, converts);
    if members.NoMembers? {
      assert inner == "" + ['}'] + tail;
      ExpectSign("", '}', tail);
    } else {
      MembersStart(members, Deeper(indent), w + ['}'] + tail);
      MembersRead(members, Deeper(indent), w, map[], tail, converts);
    }
  }

  /** A quoted key and its colon, after the indentation. */
  function KeyText(indent: int, key: string, t: string): string {
    Indent(indent) + ['\"'] + (EscapeAll(key) + "\"" + ("" + [':'] + t))
  }

  /** The loop of the object parser, one member at a time. */
  lemma {:induction false} MembersStep(indent: int, key: string, t: string, v: Value, after: string, next: string,
      acc: map<string, Value>, converts: string -> bool)
    requires Parse(t, converts) == Some((v, after))
    ensures Expect(after, ',') == Some(next) ==>
              ParseMembers(KeyText(indent, key, t), acc, converts) == ParseMembers(next, acc[key := v], converts)
    ensures Expect(after, ',') == None && Expect(after, '}') == Some(next) ==>
              ParseMembers(KeyText(indent, key, t), acc, converts) == Some((Obj(acc[key := v]), next))
  {
    var body := EscapeAll(key) + "\"" + ("" + [':'] + t);
    IndentIsSpace(indent);
    ExpectSign(Indent(indent), '\"', body);
    StringRead(key, "" + [':'] + t, "");
    assert "" + key == key;
    ExpectSign("", ':', t);
  }

  function Gap(indent: int): string { if indent < 0 then "" else " " }

  /** A value after the gap that follows its key. */
  lemma {:induction false} MemberRead(d: Doc, indent: int, after: string, converts: string -> bool)
    requires Printable(d, converts) && indent >= -1 && EndsNumber(after)
    ensures Parse(Gap(indent) + (PrintBody(d, indent) + after), converts) == Some((ToValue(d), after))
    decreases d, 2
  {
    ParseAfterSpace(Gap(indent), PrintBody(d, indent) + after, converts);
    BodyRead(d, indent, after, converts);
  }

  lemma {:induction false} LastMemberText(members: Members, indent: int, after: string)
    requires members.Member? && members.tail.NoMembers? && indent != 0
    ensures PrintMembers(members, indent) + after ==
            KeyText(indent, members.key, Gap(indent) + (PrintBody(members.value, indent) + after))
  {
    var body, gap := PrintBody(members.value, indent), Gap(indent);
    var key := Indent(indent) + Quoted(members.key) + ":";
    EmptyParts(body);
    EmptyParts(key + gap + body);
    Assoc(key + gap, body, after);
    Assoc(key, gap, body + after);
    KeyTextIs(indent, members.key, gap + (body + after));
  }

  lemma {:induction false} FirstMemberText(members: Members, indent: int, after: string)
    requires members.Member? && members.tail.Member? && indent != 0
    ensures PrintMembers(members, indent) + after ==
            KeyText(indent, members.key, Gap(indent) + (PrintBody(members.value, indent) +
                    ("" + [','] + (PrintMembers(members.tail, indent) + after))))
  {
    var body, gap, rest := PrintBody(members.value, indent), Gap(indent), PrintMembers(members.tail, indent);
    var key := Indent(indent) + Quoted(members.key) + ":";
    EmptyParts(body);
    EmptyParts([',']);
    Assoc5(key, gap, body, "," + rest, after);
    Assoc(",", rest, after);
    KeyTextIs(indent, members.key, gap + (body + ("," + (rest + after))));
  }

  lemma {:induction false} KeyTextIs(indent: int, key: string, t: string)
    ensures KeyText(indent, key, t) == Indent(indent) + Quoted(key) + ":" + t
  {
    var escaped := EscapeAll(key);
    EmptyParts([':']);
    Assoc(Indent(indent) + Quoted(key), ":", t);
    Assoc(Indent(indent), Quoted(key), ":" + t);
    Assoc("\"", escaped, "\"");
    Assoc("\"", escaped + "\"", ":" + t);
    Assoc(Indent(indent), "\"", escaped + "\"" + (":" + t));
  }

  lemma {:induction false} KeyStart(indent: int, key: string, t: string)
    ensures Expect(KeyText(indent, key, t), '}') == None
  {
    IndentIsSpace(indent);
    ExpectSign(Indent(indent), '\"', EscapeAll(key) + "\"" + ("" + [':'] + t));
  }

  lemma {:induction false} MembersStart(members: Members, indent: int, t: string)
    requires members.Member? && indent != 0
    ensures Expect(PrintMembers(members, indent) + t, '}') == None
  {
    if members.tail.NoMembers? {
      LastMemberText(members, indent, t);
      KeyStart(indent, members.key, Gap(indent) + (PrintBody(members.value, indent) + t));
    } else {
      FirstMemberText(members, indent, t);
      KeyStart(indent, members.key, Gap(indent) + (PrintBody(members.value, indent) +
               ("" + [','] + (PrintMembers(members.tail, indent) + t))));
    }
  }

  lemma {:induction false} LastMemberRead(k: string, d: Doc, indent: int, w: string, acc: map<string, Value>,
      tail: string, converts: string -> bool)
    requires Printable(d, converts) && indent >= -1 && AllSpace(w)
    ensures ParseMembers(KeyText(indent, k, Gap(indent) + (PrintBody(d, indent) + (w + ['}'] + tail))), acc,
              converts) ==
            Some((Obj(acc[k := ToValue(d)]), tail))
    decreases d, 3
  {
    var close := w + ['}'] + tail;
    SpaceEndsNumber(w, '}', tail);
    MemberRead(d, indent, close, converts);
    ExpectSign(w, '}', tail);
    MembersStep(indent, k, Gap(indent) + (PrintBody(d, indent) + close), ToValue(d), close, tail, acc, converts);
  }

  lemma {:induction false} NextMemberRead(k: string, d: Doc, indent: int, next: string, acc: map<string, Value>,
      converts: string -> bool)
    requires Printable(d, converts) && indent >= -1
    ensures ParseMembers(KeyText(indent, k, Gap(indent) + (PrintBody(d, indent) + ("" + [','] + next))), acc,
              converts) ==
            ParseMembers(next, acc[k := ToValue(d)], converts)
    decreases d, 3
  {
    var after := "" + [','] + next;
    MemberRead(d, indent, after, converts);
    ExpectSign("", ',', next);
    MembersStep(indent, k, Gap(indent) + (PrintBody(d, indent) + after), ToValue(d), after, next, acc, converts);
  }

  lemma {:induction false} MembersRead(members: Members, indent: int, w: string, acc: map<string, Value>, tail: string,
      converts: string -> bool)
    requires members.Member? && PrintableMembers(members, converts) && indent >= -1 && indent != 0 && AllSpace(w)
    ensures ParseMembers(PrintMembers(members, indent) + (w + ['}'] + tail), acc, converts) ==
            Some((Obj(Insert(acc, members)), tail))
    decreases members, 1
  {
    var k, d, rest, close := members.key, members.value, members.tail, w + ['}'] + tail;
    if rest.NoMembers? {
      LastMemberText(members, indent, close);
      LastMemberRead(k, d, indent, w, acc, tail, converts);
      assert Insert(acc, members) == acc[k := ToValue(d)];
    } else {
      FirstMemberText(members, indent, close);
      NextMemberRead(k, d, indent, PrintMembers(rest, indent) + close, acc, converts);
      MembersRead(rest, indent, w, acc[k := ToValue(d)], tail, converts);
    }
  }

  /** serialize, compact or pretty: parsing gives the value back and leaves what follows it, for
      every order in which the objects were enumerated. */
  lemma {:induction false} RoundTrip(d: Doc, pretty: bool, tail: string, converts: string -> bool)
    requires Printable(d, converts) && EndsNumber(tail)
    ensures Parse(Print(d, if pretty then 0 else -1) + tail, converts) ==
            Some((ToValue(d), (if pretty then "\n" else "") + tail))
  {
    var indent := if pretty then 0 else -1;
    var after := (if pretty then "\n" else "") + tail;
    assert Print(d, indent) + tail == PrintBody(d, indent) + after;
    BodyRead(d, indent, after, converts);
  }

  // ----- enumeration order -------------------------------------------------------------------

  function KeysOf(members: Members): set<string> {
    match members
    case NoMembers => {}
    case Member(k, _, rest) => {k} + KeysOf(rest)
  }

  predicate Distinct(members: Members) {
    members.Member? ==> members.key !in KeysOf(members.tail) && Distinct(members.tail)
  }

  function ValueAt(members: Members, key: string): Value
    requires key in KeysOf(members)
  {
    if members.key == key then ToValue(members.value) else ValueAt(members.tail, key)
  }

  /** Distinct members become exactly the entries of the map. */
  lemma {:induction false} InsertEntries(m: map<string, Value>, members: Members)
    requires Distinct(members) && m.Keys !! KeysOf(members)
    ensures Insert(m, members).Keys == m.Keys + KeysOf(members)
    ensures forall k :: k in m ==> Insert(m, members)[k] == m[k]
    ensures forall k :: k in KeysOf(members) ==> Insert(m, members)[k] == ValueAt(members, k)
    decreases members
  {
    if members.Member? {
      InsertEntries(m[members.key := ToValue(members.value)], members.tail);
    }
  }

  /** Two enumerations of the same entries are the same object. */
  lemma {:induction false} OrderDoesNotMatter(a: Members, b: Members)
    requires Distinct(a) && Distinct(b) && KeysOf(a) == KeysOf(b)
    requires forall k :: k in KeysOf(a) ==> ValueAt(a, k) == ValueAt(b, k)
    ensures ToValue(ObjDoc(a)) == ToValue(ObjDoc(b))
  {
    InsertEntries(map[], a);
    InsertEntries(map[], b);
    assert Insert(map[], a) == Insert(map[], b);
  }

  // ----- code points -------------------------------------------------------------------------

  predicate Scalar(u: int) { 0 <= u < 0x110000 && !(0xd800 <= u < 0xe000) }

  /** The code point of a UTF-8 sequence, by its leading byte. */
  function Decoded(s: string): int
    requires |s| > 0
  {
    var b := s[0] as int;
    if b < 0x80 then b
    else if b < 0xe0 then (if |s| < 2 then -1 else (b - 0xc0) * 0x40 + s[1] as int - 0x80)
    else if b < 0xf0 then (if |s| < 3 then -1 else ((b - 0xe0) * 0x40 + s[1] as int - 0x80) * 0x40 + s[2] as int - 0x80)
    else if |s| < 4 then -1
    else (((b - 0xf0) * 0x40 + s[1] as int - 0x80) * 0x40 + s[2] as int - 0x80) * 0x40 + s[3] as int - 0x80
  }

  /** The bytes determine the code point. */
  lemma {:induction false} Utf8Decoded(u: int)
    requires Scalar(u)
    ensures Decoded(Utf8(u)) == u && forall i :: 0 <= i < |Utf8(u)| ==> Utf8(u)[i] as int < 0x100
  {
    assert u / 0x40 / 0x40 == u / 0x1000 && u / 0x1000 / 0x40 == u / 0x40000;
  }
}
