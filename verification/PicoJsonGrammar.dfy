/** Exactly what the JSON parser reads (3rdparty/picojson/picojson.h): a grammar of texts with their
    values, and proofs that every text of it is read as its value and that nothing else is read. */
module PicoJsonGrammar {
  import opened Wrappers
  import opened PicoJson
  import opened PicoJsonRoundTrip

  // ----- hexadecimal digits ----------------------------------------------------------------------

  const LOWER := "0123456789abcdef"
  const UPPER := "0123456789ABCDEF"

  /** c is the digit n, in either case. */
  predicate DigitIs(c: char, n: int) { 0 <= n < 16 && (c == LOWER[n] || c == UPPER[n]) }

  lemma {:induction false} DigitRead(c: char, n: int)
    requires DigitIs(c, n)
    ensures HexValue(c) == n
  {
    assert LOWER[..10] == "0123456789" && UPPER[..10] == "0123456789";
    assert n >= 10 ==> LOWER[n] == "abcdef"[n - 10] && UPPER[n] == "ABCDEF"[n - 10];
  }

  lemma {:induction false} ReadDigit(c: char)
    requires HexValue(c) >= 0
    ensures DigitIs(c, HexValue(c))
  {
    var n := HexValue(c);
    if n < 10 {
      assert c == '0' + n as char;
    } else if c <= 'F' {
      assert c == 'A' + (n - 10) as char;
    } else {
      assert c == 'a' + (n - 10) as char;
    }
  }

  /** The four digits of hex, each in either case, are d. */
  predicate DigitsAre(hex: string, d: seq<int>) {
    |hex| == 4 && |d| == 4 && forall i :: 0 <= i < 4 ==> DigitIs(hex[i], d[i])
  }

  function FromDigits(d: seq<int>): int
    requires |d| == 4
  {
    d[0] * 0x1000 + d[1] * 0x100 + d[2] * 0x10 + d[3]
  }

  /** Four digits, each in either case, that stand for n. */
  ghost predicate HexIs(hex: string, n: int) { exists d :: DigitsAre(hex, d) && n == FromDigits(d) }

  lemma {:induction false} DigitsRead(s: string, d: seq<int>)
    requires |s| >= 4 && DigitsAre(s[..4], d)
    ensures QuadHex(s) == Some(FromDigits(d))
  {
    forall i | 0 <= i < 4 ensures HexValue(s[i]) == d[i] && d[i] >= 0 { DigitRead(s[..4][i], d[i]); }
  }

  lemma {:induction false} ReadDigits(s: string)
    requires QuadHex(s).Some?
    ensures HexIs(s[..4], QuadHex(s).value)
  {
    var d := [HexValue(s[0]), HexValue(s[1]), HexValue(s[2]), HexValue(s[3])];
    forall i | 0 <= i < 4 ensures DigitIs(s[..4][i], d[i]) { ReadDigit(s[i]); }
    assert DigitsAre(s[..4], d);
  }

  lemma {:induction false} HexIsRead(s: string, n: int)
    requires |s| >= 4 && HexIs(s[..4], n)
    ensures QuadHex(s) == Some(n)
  {
    var d :| DigitsAre(s[..4], d) && n == FromDigits(d);
    DigitsRead(s, d);
  }

  /** Four digits are read as the number they stand for, and nothing else is read. */
  lemma {:induction false} QuadHexExact(s: string, n: int)
    ensures QuadHex(s) == Some(n) <==> |s| >= 4 && HexIs(s[..4], n)
  {
    if QuadHex(s) == Some(n) { ReadDigits(s); }
    if |s| >= 4 && HexIs(s[..4], n) { HexIsRead(s, n); }
  }

  // ----- strings ---------------------------------------------------------------------------------

  /** The characters after a backslash that stand for one character. */
  const SHORT: map<char, char> :=
    map['\"' := '\"', '\\' := '\\', '/' := '/', 'b' := 8 as char, 'f' := 12 as char, 'n' := '\n', 'r' := '\r',
        't' := '\t']

  /** A piece of a string: a character on its own, a short escape, a code point of four digits, or a
      surrogate pair. */
  datatype Piece = Bare(c: char) | Short(x: char) | Code(hex: string, n: int)
    | Pair(high: string, h: int, low: string, l: int)

  ghost predicate PieceOk(p: Piece) {
    match p
    case Bare(c) => c >= ' ' && c != '\"' && c != '\\'
    case Short(x) => x in SHORT
    case Code(hex, n) => HexIs(hex, n) && Scalar(n) && n < 0x10000
    case Pair(high, h, low, l) => HexIs(high, h) && HexIs(low, l) && 0xd800 <= h < 0xdc00 && 0xdc00 <= l < 0xe000
  }

  /** The bytes a piece stands for. */
  function PieceBytes(p: Piece): string {
    match p
    case Bare(c) => [c]
    case Short(x) => if x in SHORT then [SHORT[x]] else ""
    case Code(_, n) => if 0 <= n < 0x110000 then Utf8(n) else ""
    case Pair(_, h, _, l) =>
      if 0 <= Joined(h, l) < 0x110000 then Utf8(Joined(h, l)) else ""
  }

  /** The text of a piece, followed by more. */
  function PieceThen(p: Piece, more: string): string {
    match p
    case Bare(c) => [c] + more
    case Short(x) => ['\\', x] + more
    case Code(hex, _) => ['\\', 'u'] + (hex + more)
    case Pair(high, _, low, _) => ['\\', 'u'] + (high + (['\\', 'u'] + (low + more)))
  }

  ghost predicate PiecesOk(ps: seq<Piece>) { forall i :: 0 <= i < |ps| ==> PieceOk(ps[i]) }

  function PiecesBytes(ps: seq<Piece>): string {
    if |ps| == 0 then "" else PieceBytes(ps[0]) + PiecesBytes(ps[1..])
  }

  function PiecesThen(ps: seq<Piece>, more: string): string {
    if |ps| == 0 then more else PieceThen(ps[0], PiecesThen(ps[1..], more))
  }

  lemma {:induction false} HexThen(hex: string, n: int, more: string)
    requires HexIs(hex, n)
    ensures QuadHex(hex + more) == Some(n) && (hex + more)[4..] == more && 0 <= n < 0x10000
  {
    assert (hex + more)[..4] == hex;
    QuadHexExact(hex + more, n);
    QuadHexRange(hex + more);
  }

  lemma {:induction false} LowThen(low: string, l: int, more: string)
    requires HexIs(low, l) && 0xdc00 <= l < 0xe000
    ensures LowSurrogate(['\\', 'u'] + (low + more)) == Some(l) && (['\\', 'u'] + (low + more))[6..] == more
  {
    var rest := ['\\', 'u'] + (low + more);
    HexThen(low, l, more);
    assert rest[2..] == low + more && rest[6..] == (low + more)[4..];
  }

  function Joined(h: int, l: int): int { (h - 0xd800) * 0x400 + (l - 0xdc00) + 0x10000 }

  lemma {:induction false} PairPoint(s: string, h: int, l: int)
    requires QuadHex(s) == Some(h) && 0xd800 <= h < 0xdc00 && LowSurrogate(s[4..]) == Some(l)
    ensures CodePoint(s) == Some((Utf8(Joined(h, l)), s[4..][6..]))
  {}

  /** Four digits of a code point that is no surrogate are read as its UTF-8 bytes. */
  lemma {:induction false} BasicRead(hex: string, n: int, more: string)
    requires HexIs(hex, n) && Scalar(n) && n < 0x10000
    ensures CodePoint(hex + more) == Some((Utf8(n), more))
  {
    HexThen(hex, n, more);
  }

  /** A surrogate pair is read as the UTF-8 bytes of the code point beyond the basic plane. */
  lemma {:induction false} SurrogatesRead(high: string, h: int, low: string, l: int, more: string)
    requires HexIs(high, h) && HexIs(low, l) && 0xd800 <= h < 0xdc00 && 0xdc00 <= l < 0xe000
    ensures CodePoint(high + (['\\', 'u'] + (low + more))) == Some((Utf8(Joined(h, l)), more))
  {
    HexThen(high, h, ['\\', 'u'] + (low + more));
    LowThen(low, l, more);
    PairPoint(high + (['\\', 'u'] + (low + more)), h, l);
  }

  /** A piece is read as its bytes. */
  lemma {:induction false} PieceRead(p: Piece, more: string, out: string)
    requires PieceOk(p)
    ensures StringBody(PieceThen(p, more), out) == StringBody(more, out + PieceBytes(p))
  {
    var s := PieceThen(p, more);
    match p
    case Bare(c) => assert s[1..] == more;
    case Short(x) => assert s[2..] == more;
    case Code(hex, n) =>
      assert s[2..] == hex + more;
      BasicRead(hex, n, more);
    case Pair(high, _, low, _) =>
      assert s[2..] == high + (['\\', 'u'] + (low + more));
      SurrogatesRead(high, p.h, low, p.l, more);
  }

  /** Every string of the grammar is read as its bytes. */
  lemma {:induction false} StringComplete(ps: seq<Piece>, more: string, out: string)
    requires PiecesOk(ps)
    ensures StringBody(PiecesThen(ps, ['\"'] + more), out) == Some((out + PiecesBytes(ps), more))
    decreases |ps|
  {
    if |ps| == 0 {
      assert (['\"'] + more)[1..] == more;
      EmptyParts(out);
    } else {
      PieceRead(ps[0], PiecesThen(ps[1..], ['\"'] + more), out);
      StringComplete(ps[1..], more, out + PieceBytes(ps[0]));
      Assoc(out, PieceBytes(ps[0]), PiecesBytes(ps[1..]));
    }
  }

  /** What a code point was read from. */
  lemma {:induction false} CodePointSound(s: string) returns (p: Piece)
    requires CodePoint(s).Some?
    ensures PieceOk(p) && ['\\', 'u'] + s == PieceThen(p, CodePoint(s).value.1) && PieceBytes(p) == CodePoint(s).value.0
  {
    var n := QuadHex(s).value;
    QuadHexExact(s, n);
    QuadHexRange(s);
    assert s == s[..4] + s[4..];
    if 0xd800 <= n <= 0xdfff {
      p := PairSound(s);
    } else {
      p := Code(s[..4], n);
    }
  }

  lemma {:induction false} PairNeeds(s: string)
    requires CodePoint(s).Some? && QuadHex(s).Some? && 0xd800 <= QuadHex(s).value <= 0xdfff
    ensures QuadHex(s).value < 0xdc00 && LowSurrogate(s[4..]).Some?
  {}

  lemma {:induction false} PairSound(s: string) returns (p: Piece)
    requires CodePoint(s).Some? && QuadHex(s).Some? && 0xd800 <= QuadHex(s).value <= 0xdfff
    ensures PieceOk(p) && ['\\', 'u'] + s == PieceThen(p, CodePoint(s).value.1) && PieceBytes(p) == CodePoint(s).value.0
  {
    PairNeeds(s);
    var h, t := QuadHex(s).value, s[4..];
    var l := LowSurrogate(t).value;
    var low, more := LowSound(t);
    QuadHexExact(s, h);
    PairPoint(s, h, l);
    p := Pair(s[..4], h, low, l);
    assert s == s[..4] + t;
    assert PieceBytes(p) == Utf8(Joined(h, l));
  }

  lemma {:induction false} LowSound(t: string) returns (low: string, more: string)
    requires LowSurrogate(t).Some?
    ensures HexIs(low, LowSurrogate(t).value) && more == t[6..] && t == ['\\', 'u'] + (low + more)
  {
    low, more := t[2..6], t[6..];
    QuadHexExact(t[2..], LowSurrogate(t).value);
    assert t[2..][..4] == low;
  }

  /** Whatever is read as a string is one of the grammar. */
  lemma {:induction false} StringSound(s: string, out: string) returns (ps: seq<Piece>)
    requires StringBody(s, out).Some?
    ensures PiecesOk(ps) && s == PiecesThen(ps, ['\"'] + StringBody(s, out).value.1)
    ensures StringBody(s, out).value.0 == out + PiecesBytes(ps)
    decreases |s|
  {
    if s[0] == '\"' {
      ps := [];
      assert s == ['\"'] + s[1..];
      EmptyParts(out);
    } else {
      var p, rest := FirstPiece(s, out);
      var qs := StringSound(rest, out + PieceBytes(p));
      ps := [p] + qs;
      assert ps[1..] == qs;
      Assoc(out, PieceBytes(p), PiecesBytes(qs));
    }
  }

  lemma {:induction false} FirstPiece(s: string, out: string) returns (p: Piece, rest: string)
    requires StringBody(s, out).Some? && s[0] != '\"'
    ensures PieceOk(p) && s == PieceThen(p, rest) && |rest| < |s|
    ensures StringBody(s, out) == StringBody(rest, out + PieceBytes(p))
  {
    if s[0] != '\\' {
      p, rest := Bare(s[0]), s[1..];
    } else if s[1] == 'u' {
      p := CodePointSound(s[2..]);
      rest := CodePoint(s[2..]).value.1;
      assert s == ['\\', 'u'] + s[2..];
    } else {
      p, rest := Short(s[1]), s[2..];
      assert s == ['\\', s[1]] + s[2..];
    }
  }

  // ----- white space and numbers -------------------------------------------------------------------

  const SPACES := " \t\n\r"
  const NUMERIC := "0123456789+-.eE"
  const NUMERIC_START := "0123456789-"

  ghost predicate Blank(w: string) { forall i :: 0 <= i < |w| ==> w[i] in SPACES }

  lemma {:induction false} SpaceExact(c: char)
    ensures IsSpace(c) <==> c in SPACES
  {
    var spaces := SPACES;
    assert spaces[0] == ' ' && spaces[1] == '\t' && spaces[2] == '\n' && spaces[3] == '\r';
  }

  lemma {:induction false} BlankIsSpace(w: string)
    ensures Blank(w) <==> AllSpace(w)
  {
    forall i | 0 <= i < |w| ensures IsSpace(w[i]) <==> w[i] in SPACES { SpaceExact(w[i]); }
  }

  lemma {:induction false} NumericExact(c: char)
    ensures IsNumberChar(c) <==> c in NUMERIC
    ensures StartsNumber(c) <==> c in NUMERIC_START
  {
    var all, start := NUMERIC, NUMERIC_START;
    if '0' <= c <= '9' {
      var n := (c - '0') as int;
      assert all[n] == c && start[n] == c;
    }
    assert all[10] == '+' && all[11] == '-' && all[12] == '.' && all[13] == 'e' && all[14] == 'E' && start[10] == '-';
  }

  /** A token that converts, made of numeric characters. */
  ghost predicate TokenOk(t: string, converts: string -> bool) {
    |t| > 0 && t[0] in NUMERIC_START && (forall i :: 0 <= i < |t| ==> t[i] in NUMERIC) && converts(t)
  }

  lemma {:induction false} TokenIsNumber(t: string, converts: string -> bool)
    ensures TokenOk(t, converts) <==> NumberToken(t, converts)
  {
    if |t| > 0 { NumericExact(t[0]); }
    forall i | 0 <= i < |t| ensures IsNumberChar(t[i]) <==> t[i] in NUMERIC { NumericExact(t[i]); }
  }

  /** What follows a token does not go on with it. */
  predicate TokenEnds(more: string) { |more| == 0 || more[0] !in NUMERIC }

  lemma {:induction false} TokenEndsExact(more: string)
    ensures TokenEnds(more) <==> EndsNumber(more)
  {
    if |more| > 0 { NumericExact(more[0]); }
  }

  // ----- values --------------------------------------------------------------------------------------

  /** A value as it is written, with the white space before its signs. */
  datatype Tree =
    | NullTree
    | BoolTree(b: bool)
    | NumberTree(token: string)
    | StringTree(ps: seq<Piece>)
    | EmptyArray(w: string)
    | ArrayTree(elems: Elems, w: string)
    | EmptyObject(w: string)
    | ObjectTree(fields: Fields, w: string)

  /** The elements of an array: white space, a value, and white space before the comma. */
  datatype Elems = LastElem(w: string, t: Tree) | NextElem(w: string, t: Tree, w': string, rest: Elems)

  /** The members of an object: white space, a key, white space, a colon, white space, a value. */
  datatype Fields =
    | LastField(w: string, key: seq<Piece>, wc: string, wv: string, t: Tree)
    | NextField(w: string, key: seq<Piece>, wc: string, wv: string, t: Tree, w': string, rest: Fields)

  ghost predicate TreeOk(t: Tree, converts: string -> bool) {
    match t
    case NumberTree(token) => TokenOk(token, converts)
    case StringTree(ps) => PiecesOk(ps)
    case EmptyArray(w) => Blank(w)
    case ArrayTree(elems, w) => ElemsOk(elems, converts) && Blank(w)
    case EmptyObject(w) => Blank(w)
    case ObjectTree(fields, w) => FieldsOk(fields, converts) && Blank(w)
    case _ => true
  }

  ghost predicate ElemsOk(es: Elems, converts: string -> bool) {
    Blank(es.w) && TreeOk(es.t, converts) && (es.NextElem? ==> Blank(es.w') && ElemsOk(es.rest, converts))
  }

  ghost predicate FieldsOk(fs: Fields, converts: string -> bool) {
    && Blank(fs.w) && PiecesOk(fs.key) && Blank(fs.wc) && Blank(fs.wv) && TreeOk(fs.t, converts)
    && (fs.NextField? ==> Blank(fs.w') && FieldsOk(fs.rest, converts))
  }

  function TreeValue(t: Tree): Value {
    match t
    case NullTree => Null
    case BoolTree(b) => Bool(b)
    case NumberTree(token) => Number(token)
    case StringTree(ps) => Str(PiecesBytes(ps))
    case EmptyArray(_) => Arr([])
    case ArrayTree(elems, _) => Arr(ElemValues(elems))
    case EmptyObject(_) => Obj(map[])
    case ObjectTree(fields, _) => Obj(FieldValues(fields, map[]))
  }

  function ElemValues(es: Elems): seq<Value> {
    [TreeValue(es.t)] + if es.NextElem? then ElemValues(es.rest) else []
  }

  /** A later member replaces an earlier one of the same key. */
  function FieldValues(fs: Fields, before: map<string, Value>): map<string, Value> {
    var now := before[PiecesBytes(fs.key) := TreeValue(fs.t)];
    if fs.NextField? then FieldValues(fs.rest, now) else now
  }

  /** The text of a value, followed by more. */
  function TreeThen(t: Tree, more: string): string
    decreases t
  {
    match t
    case NullTree => ['n'] + ("ull" + more)
    case BoolTree(b) => if b then ['t'] + ("rue" + more) else ['f'] + ("alse" + more)
    case NumberTree(token) => token + more
    case StringTree(ps) => ['\"'] + PiecesThen(ps, ['\"'] + more)
    case EmptyArray(w) => ['['] + (w + ([']'] + more))
    case ArrayTree(elems, w) => ['['] + ElemsThen(elems, w + ([']'] + more))
    case EmptyObject(w) => ['{'] + (w + (['}'] + more))
    case ObjectTree(fields, w) => ['{'] + FieldsThen(fields, w + (['}'] + more))
  }

  function ElemsThen(es: Elems, more: string): string
    decreases es
  {
    es.w + TreeThen(es.t, if es.NextElem? then es.w' + ([','] + ElemsThen(es.rest, more)) else more)
  }

  function FieldsThen(fs: Fields, more: string): string
    decreases fs
  {
    fs.w + (['\"'] + PiecesThen(fs.key, ['\"'] + (fs.wc + ([':'] + (fs.wv +
      TreeThen(fs.t, if fs.NextField? then fs.w' + ([','] + FieldsThen(fs.rest, more)) else more))))))
  }

  // ----- every text of the grammar is read ------------------------------------------------------------

  lemma {:induction false} SignThen(w: string, c: char, t: string)
    requires Blank(w) && c !in SPACES
    ensures Expect(w + ([c] + t), c) == Some(t) && forall d :: d != c ==> Expect(w + ([c] + t), d) == None
    ensures c !in NUMERIC ==> TokenEnds(w + ([c] + t))
  {
    BlankIsSpace(w);
    SpaceExact(c);
    ExpectSign(w, c, t);
    Assoc(w, [c], t);
    if |w| > 0 {
      assert w[0] in SPACES && w[0] !in NUMERIC by { SpaceExact(w[0]); NumericExact(w[0]); }
    }
  }

  lemma {:induction false} SignsApart()
    ensures ',' !in SPACES && ':' !in SPACES && ']' !in SPACES && '}' !in SPACES && '\"' !in SPACES
    ensures ',' !in NUMERIC && ']' !in NUMERIC && '}' !in NUMERIC
  {
    SpaceExact(',');
    SpaceExact(':');
    SpaceExact(']');
    SpaceExact('}');
    SpaceExact('\"');
    NumericExact(',');
    NumericExact(']');
    NumericExact('}');
  }

  lemma {:induction false} TreeStart(t: Tree, more: string, converts: string -> bool)
    requires TreeOk(t, converts)
    ensures |TreeThen(t, more)| > 0 && ValueStart(TreeThen(t, more)[0])
  {
    if t.NumberTree? { TokenIsNumber(t.token, converts); }
  }

  lemma {:induction false} LiteralThen(c: char, pattern: string, more: string, converts: string -> bool)
    requires (c == 'n' && pattern == "ull") || (c == 't' && pattern == "rue") || (c == 'f' && pattern == "alse")
    ensures Parse([c] + (pattern + more), converts) == Some((if c == 'n' then Null else Bool(c == 't'), more))
  {
    LiteralRead(c, pattern, more, converts);
    Assoc([c], pattern, more);
  }

  lemma {:induction false} StringThen(ps: seq<Piece>, more: string, converts: string -> bool)
    requires PiecesOk(ps)
    ensures Parse(['\"'] + PiecesThen(ps, ['\"'] + more), converts) == Some((Str(PiecesBytes(ps)), more))
  {
    var inner := PiecesThen(ps, ['\"'] + more);
    var s := ['\"'] + inner;
    assert SkipWs(s) == s && s[1..] == inner;
    StringComplete(ps, more, "");
    EmptyParts(PiecesBytes(ps));
  }

  lemma {:induction false} AfterBlank(w: string, t: string, converts: string -> bool)
    requires Blank(w)
    ensures Parse(w + t, converts) == Parse(t, converts)
  {
    BlankIsSpace(w);
    ParseAfterSpace(w, t, converts);
  }

  /** Every value of the grammar is read as what it stands for, and what follows is left. */
  lemma {:induction false} TreeRead(t: Tree, more: string, converts: string -> bool)
    requires TreeOk(t, converts) && (t.NumberTree? ==> TokenEnds(more))
    ensures Parse(TreeThen(t, more), converts) == Some((TreeValue(t), more))
    decreases t, 0
  {
    SignsApart();
    match t {
      case NullTree => LiteralThen('n', "ull", more, converts);
      case BoolTree(b) =>
        if b { LiteralThen('t', "rue", more, converts); } else { LiteralThen('f', "alse", more, converts); }
      case NumberTree(token) =>
        TokenIsNumber(token, converts);
        TokenEndsExact(more);
        TokenRead(token, more, converts);
      case StringTree(ps) => StringThen(ps, more, converts);
      case EmptyArray(w) =>
        OpenArray(w + ([']'] + more), converts);
        SignThen(w, ']', more);
      case ArrayTree(elems, w) => ArrayThen(elems, w, more, converts);
      case EmptyObject(w) =>
        OpenObject(w + (['}'] + more), converts);
        SignThen(w, '}', more);
      case ObjectTree(fields, w) => ObjectThen(fields, w, more, converts);
    }
  }

  lemma {:induction false} ArrayThen(es: Elems, w: string, more: string, converts: string -> bool)
    requires ElemsOk(es, converts) && Blank(w)
    ensures Parse(['['] + ElemsThen(es, w + ([']'] + more)), converts) == Some((Arr(ElemValues(es)), more))
    decreases es, 1
  {
    var inner := ElemsThen(es, w + ([']'] + more));
    OpenArray(inner, converts);
    ElemsStart(es, w + ([']'] + more), converts);
    ElemsRead(es, w, more, [], converts);
    assert [] + ElemValues(es) == ElemValues(es);
  }

  lemma {:induction false} ElemsStart(es: Elems, more: string, converts: string -> bool)
    requires ElemsOk(es, converts)
    ensures Expect(ElemsThen(es, more), ']') == None
  {
    var after := if es.NextElem? then es.w' + ([','] + ElemsThen(es.rest, more)) else more;
    TreeStart(es.t, after, converts);
    BlankIsSpace(es.w);
    NotSign(es.w, TreeThen(es.t, after), ']');
  }

  lemma {:induction false} ElemRead(w: string, t: Tree, after: string, converts: string -> bool)
    requires Blank(w) && TreeOk(t, converts) && TokenEnds(after)
    ensures Parse(w + TreeThen(t, after), converts) == Some((TreeValue(t), after))
    decreases t, 1
  {
    AfterBlank(w, TreeThen(t, after), converts);
    TreeRead(t, after, converts);
  }

  lemma {:induction false} ElemsRead(es: Elems, w: string, more: string, acc: seq<Value>, converts: string -> bool)
    requires ElemsOk(es, converts) && Blank(w)
    ensures ParseItems(ElemsThen(es, w + ([']'] + more)), acc, converts) == Some((Arr(acc + ElemValues(es)), more))
    decreases es, 0
  {
    SignsApart();
    var close, v, s := w + ([']'] + more), TreeValue(es.t), ElemsThen(es, w + ([']'] + more));
    if es.LastElem? {
      SignThen(w, ']', more);
      ElemRead(es.w, es.t, close, converts);
      ItemsStep(s, v, close, more, acc, converts);
      assert ElemValues(es) == [v];
    } else {
      var next := ElemsThen(es.rest, close);
      SignThen(es.w', ',', next);
      ElemRead(es.w, es.t, es.w' + ([','] + next), converts);
      ItemsStep(s, v, es.w' + ([','] + next), next, acc, converts);
      ElemsRead(es.rest, w, more, acc + [v], converts);
      ValueNext(acc, v, ElemValues(es.rest));
    }
  }

  lemma {:induction false} ObjectThen(fs: Fields, w: string, more: string, converts: string -> bool)
    requires FieldsOk(fs, converts) && Blank(w)
    ensures Parse(['{'] + FieldsThen(fs, w + (['}'] + more)), converts) == Some((Obj(FieldValues(fs, map[])), more))
    decreases fs, 1
  {
    SignsApart();
    var inner := FieldsThen(fs, w + (['}'] + more));
    OpenObject(inner, converts);
    FieldsStart(fs, w + (['}'] + more));
    FieldsRead(fs, w, more, map[], converts);
  }

  lemma {:induction false} FieldsStart(fs: Fields, more: string)
    requires Blank(fs.w)
    ensures Expect(FieldsThen(fs, more), '}') == None
  {
    SignsApart();
    SignThen(fs.w, '\"', FieldsThen(fs, more)[|fs.w| + 1..]);
    assert FieldsThen(fs, more) == fs.w + (['\"'] + FieldsThen(fs, more)[|fs.w| + 1..]);
  }

  /** A key and its value. */
  function FieldThen(w: string, key: seq<Piece>, wc: string, rest: string): string {
    w + (['\"'] + PiecesThen(key, ['\"'] + (wc + ([':'] + rest))))
  }

  lemma {:induction false} FieldStep(w: string, key: seq<Piece>, wc: string, rest: string, v: Value, after: string,
      next: string, acc: map<string, Value>, converts: string -> bool)
    requires Blank(w) && PiecesOk(key) && Blank(wc) && Parse(rest, converts) == Some((v, after))
    ensures Expect(after, ',') == Some(next) ==>
              ParseMembers(FieldThen(w, key, wc, rest), acc, converts) ==
              ParseMembers(next, acc[PiecesBytes(key) := v], converts)
    ensures Expect(after, ',') == None && Expect(after, '}') == Some(next) ==>
              ParseMembers(FieldThen(w, key, wc, rest), acc, converts) ==
              Some((Obj(acc[PiecesBytes(key) := v]), next))
  {
    SignsApart();
    var colon := wc + ([':'] + rest);
    SignThen(w, '\"', PiecesThen(key, ['\"'] + colon));
    StringComplete(key, colon, "");
    EmptyParts(PiecesBytes(key));
    SignThen(wc, ':', rest);
  }

  lemma {:induction false} FieldsRead(fs: Fields, w: string, more: string, acc: map<string, Value>,
      converts: string -> bool)
    requires FieldsOk(fs, converts) && Blank(w)
    ensures ParseMembers(FieldsThen(fs, w + (['}'] + more)), acc, converts) == Some((Obj(FieldValues(fs, acc)), more))
    decreases fs, 0
  {
    SignsApart();
    var close, v := w + (['}'] + more), TreeValue(fs.t);
    if fs.LastField? {
      SignThen(w, '}', more);
      ElemRead(fs.wv, fs.t, close, converts);
      FieldStep(fs.w, fs.key, fs.wc, fs.wv + TreeThen(fs.t, close), v, close, more, acc, converts);
    } else {
      var next := FieldsThen(fs.rest, close);
      var after := fs.w' + ([','] + next);
      SignThen(fs.w', ',', next);
      ElemRead(fs.wv, fs.t, after, converts);
      FieldStep(fs.w, fs.key, fs.wc, fs.wv + TreeThen(fs.t, after), v, after, next, acc, converts);
      FieldsRead(fs.rest, w, more, acc[PiecesBytes(fs.key) := v], converts);
    }
  }

  // ----- nothing else is read ----------------------------------------------------------------------------

  lemma {:induction false} SkipSound(s: string) returns (w: string)
    ensures Blank(w) && s == w + SkipWs(s)
  {
    if |s| > 0 && IsSpace(s[0]) {
      var rest := SkipSound(s[1..]);
      w := [s[0]] + rest;
      SpaceExact(s[0]);
      assert s == [s[0]] + s[1..];
      Assoc([s[0]], rest, SkipWs(s));
    } else {
      w := "";
      EmptyParts(s);
    }
  }

  lemma {:induction false} ExpectSound(s: string, c: char) returns (w: string)
    requires Expect(s, c).Some?
    ensures Blank(w) && s == w + ([c] + Expect(s, c).value)
  {
    w := SkipSound(s);
    var t := SkipWs(s);
    assert t == [c] + t[1..];
  }

  lemma {:induction false} LiteralSound(s: string, pattern: string, v: Value)
    requires Literal(s, pattern, v).Some?
    ensures Literal(s, pattern, v).value.0 == v && s == pattern + Literal(s, pattern, v).value.1
  {
    assert s == s[..|pattern|] + s[|pattern|..];
  }

  lemma {:induction false} RunSound(s: string)
    ensures s == NumberRun(s) + s[|NumberRun(s)|..] && EndsNumber(s[|NumberRun(s)|..])
    ensures forall i :: 0 <= i < |NumberRun(s)| ==> IsNumberChar(NumberRun(s)[i])
  {
    if |s| > 0 && IsNumberChar(s[0]) {
      RunSound(s[1..]);
      assert s == [s[0]] + s[1..];
      var run := NumberRun(s[1..]);
      Assoc([s[0]], run, s[1..][|run|..]);
      assert s[|run| + 1..] == s[1..][|run|..];
    } else {
      EmptyParts(s);
    }
  }

  /** The value after white space. */
  lemma {:induction false} TreeFound(s: string, converts: string -> bool) returns (t: Tree)
    requires Parse(s, converts).Some? && SkipWs(s) == s
    ensures var (v, more) := Parse(s, converts).value;
            TreeOk(t, converts) && v == TreeValue(t) && s == TreeThen(t, more) && (t.NumberTree? ==> TokenEnds(more))
    decreases |s|, 1
  {
    assert s == [s[0]] + s[1..];
    if s[0] == 'n' {
      LiteralSound(s[1..], "ull", Null);
      t := NullTree;
    } else if s[0] == 'f' {
      LiteralSound(s[1..], "alse", Bool(false));
      t := BoolTree(false);
    } else if s[0] == 't' {
      LiteralSound(s[1..], "rue", Bool(true));
      t := BoolTree(true);
    } else if s[0] == '\"' {
      var ps := StringSound(s[1..], "");
      EmptyParts(PiecesBytes(ps));
      t := StringTree(ps);
    } else if s[0] == '[' {
      t := ArrayFound(s, converts);
    } else if s[0] == '{' {
      t := ObjectFound(s, converts);
    } else {
      t := NumberFound(s, converts);
    }
  }

  lemma {:induction false} NumberFound(s: string, converts: string -> bool) returns (t: Tree)
    requires Parse(s, converts).Some? && SkipWs(s) == s && StartsNumber(s[0])
    ensures var (v, more) := Parse(s, converts).value;
            TreeOk(t, converts) && v == TreeValue(t) && s == TreeThen(t, more) && TokenEnds(more) && t.NumberTree?
  {
    var token := NumberRun(s);
    RunSound(s);
    TokenIsNumber(token, converts);
    TokenEndsExact(s[|token|..]);
    t := NumberTree(token);
  }

  lemma {:induction false} ArrayFound(s: string, converts: string -> bool) returns (t: Tree)
    requires Parse(s, converts).Some? && SkipWs(s) == s && s[0] == '['
    ensures var (v, more) := Parse(s, converts).value;
            TreeOk(t, converts) && v == TreeValue(t) && s == TreeThen(t, more) && !t.NumberTree?
    decreases |s|, 0
  {
    assert s == ['['] + s[1..];
    OpenArray(s[1..], converts);
    if Expect(s[1..], ']').Some? {
      var w := ExpectSound(s[1..], ']');
      t := EmptyArray(w);
    } else {
      var es, w := ElemsSound(s[1..], [], converts);
      t := ArrayTree(es, w);
      assert [] + ElemValues(es) == ElemValues(es);
    }
  }

  lemma {:induction false} ObjectFound(s: string, converts: string -> bool) returns (t: Tree)
    requires Parse(s, converts).Some? && SkipWs(s) == s && s[0] == '{'
    ensures var (v, more) := Parse(s, converts).value;
            TreeOk(t, converts) && v == TreeValue(t) && s == TreeThen(t, more) && !t.NumberTree?
    decreases |s|, 0
  {
    assert s == ['{'] + s[1..];
    OpenObject(s[1..], converts);
    if Expect(s[1..], '}').Some? {
      var w := ExpectSound(s[1..], '}');
      t := EmptyObject(w);
    } else {
      var fs, w := FieldsSound(s[1..], map[], converts);
      t := ObjectTree(fs, w);
    }
  }

  /** Whatever is read as a value is one of the grammar, after white space. */
  lemma {:induction false} TreeSound(s: string, converts: string -> bool) returns (w: string, t: Tree)
    requires Parse(s, converts).Some?
    ensures var (v, more) := Parse(s, converts).value;
            && Blank(w) && TreeOk(t, converts) && v == TreeValue(t) && s == w + TreeThen(t, more)
            && (t.NumberTree? ==> TokenEnds(more))
    decreases |s|, 2
  {
    w := SkipSound(s);
    var u := SkipWs(s);
    SkippedOnce(s);
    assert Parse(s, converts) == Parse(u, converts);
    t := TreeFound(u, converts);
  }

  lemma {:induction false} SkippedOnce(s: string)
    ensures SkipWs(SkipWs(s)) == SkipWs(s)
  {
    if |s| > 0 && IsSpace(s[0]) { SkippedOnce(s[1..]); }
  }

  lemma {:induction false} ElemsSound(s: string, items: seq<Value>, converts: string -> bool)
    returns (es: Elems, w: string)
    requires ParseItems(s, items, converts).Some?
    ensures var (v, more) := ParseItems(s, items, converts).value;
            ElemsOk(es, converts) && Blank(w) && v == Arr(items + ElemValues(es)) &&
            s == ElemsThen(es, w + ([']'] + more))
    decreases |s|, 3
  {
    var (v, rest) := Parse(s, converts).value;
    var before, t := TreeSound(s, converts);
    if Expect(rest, ',').Some? {
      var next := Expect(rest, ',').value;
      var comma := ExpectSound(rest, ',');
      var tail;
      tail, w := ElemsSound(next, items + [v], converts);
      es := NextElem(before, t, comma, tail);
      ValueNext(items, v, ElemValues(tail));
    } else {
      w := ExpectSound(rest, ']');
      es := LastElem(before, t);
      assert ElemValues(es) == [v];
    }
  }

  lemma {:induction false} FieldsSound(s: string, members: map<string, Value>, converts: string -> bool)
    returns (fs: Fields, w: string)
    requires ParseMembers(s, members, converts).Some?
    ensures var (v, more) := ParseMembers(s, members, converts).value;
            FieldsOk(fs, converts) && Blank(w) && v == Obj(FieldValues(fs, members)) &&
            s == FieldsThen(fs, w + (['}'] + more))
    decreases |s|, 3
  {
    var open := Expect(s, '\"').value;
    var key := StringBody(open, "").value;
    var value := Expect(key.1, ':').value;
    var (v, rest) := Parse(value, converts).value;
    var before := ExpectSound(s, '\"');
    var ps := StringSound(open, "");
    EmptyParts(PiecesBytes(ps));
    var wc := ExpectSound(key.1, ':');
    var wv, t := TreeSound(value, converts);
    if Expect(rest, ',').Some? {
      var comma := ExpectSound(rest, ',');
      var tail;
      tail, w := FieldsSound(Expect(rest, ',').value, members[key.0 := v], converts);
      fs := NextField(before, ps, wc, wv, t, comma, tail);
    } else {
      w := ExpectSound(rest, '}');
      fs := LastField(before, ps, wc, wv, t);
    }
  }

  /** The text s is white space, a value of the grammar and then more. */
  ghost predicate Begins(s: string, w: string, t: Tree, more: string, converts: string -> bool) {
    Blank(w) && TreeOk(t, converts) && s == w + TreeThen(t, more) && (t.NumberTree? ==> TokenEnds(more))
  }

  /** The parser reads a value and leaves a rest exactly if the text begins with that value as the
      grammar writes it. */
  lemma {:induction false} ParseExact(s: string, v: Value, more: string, converts: string -> bool)
    ensures Parse(s, converts) == Some((v, more)) <==>
            exists w, t :: Begins(s, w, t, more, converts) && v == TreeValue(t)
  {
    if Parse(s, converts) == Some((v, more)) {
      var w, t := TreeSound(s, converts);
      assert Begins(s, w, t, more, converts);
    }
    if exists w, t :: Begins(s, w, t, more, converts) && v == TreeValue(t) {
      var w, t :| Begins(s, w, t, more, converts) && v == TreeValue(t);
      AfterBlank(w, TreeThen(t, more), converts);
      TreeRead(t, more, converts);
    }
  }
}
