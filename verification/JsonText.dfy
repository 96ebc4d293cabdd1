/** JSON text: the grammar of RFC 8259, and the value a text denotes. */
module JsonText {
  import opened Strings
  import opened Decimal
  import opened Json

  // ----- Numbers (section 6) -----

  datatype Exponent = Exponent(marker: char, sign: string, digits: string)

  predicate IsSign(s: string) {
    |s| <= 1 && (|s| == 1 ==> s[0] == '+' || s[0] == '-')
  }

  datatype NumberLit = NumberLit(negative: bool, whole: string, fraction: Option<string>, exponent: Option<Exponent>) {
    predicate WellFormed() {
      && whole != "" && AllDigits(whole) && (whole[0] == '0' ==> whole == "0")
      && (fraction.Some? ==> fraction.value != "" && AllDigits(fraction.value))
      && (exponent.Some? ==>
            && (exponent.value.marker == 'e' || exponent.value.marker == 'E') && IsSign(exponent.value.sign)
            && exponent.value.digits != "" && AllDigits(exponent.value.digits))
    }

    function FractionDigits(): string {
      if fraction.Some? then fraction.value else ""
    }

    function ExponentText(): string {
      if exponent.Some? then exponent.value.sign + exponent.value.digits else "0"
    }

    function Mantissa(): string {
      whole + (if fraction.Some? then "." + fraction.value else "")
    }

    function Unsigned(): string {
      Mantissa() + if exponent.Some? then [exponent.value.marker] + ExponentText() else ""
    }

    function Text(): string {
      (if negative then "-" else "") + Unsigned()
    }
  }

  /** The number grammar of section 6. */
  ghost predicate IsNumber(s: string) {
    exists lit: NumberLit :: lit.WellFormed() && lit.Text() == s
  }

  // ----- Strings (section 7) -----

  predicate IsHex(c: char) {
    '0' <= c <= '9' || 'a' <= c <= 'f' || 'A' <= c <= 'F'
  }

  function HexOf(c: char): (n: nat)
    requires IsHex(c)
    ensures n < 16
  {
    if c <= '9' then c as int - '0' as int
    else if c <= 'F' then c as int - 'A' as int + 10
    else c as int - 'a' as int + 10
  }

  predicate IsHex4(s: string) {
    |s| >= 4 && IsHex(s[0]) && IsHex(s[1]) && IsHex(s[2]) && IsHex(s[3])
  }

  function Hex4Of(s: string): (n: nat)
    requires IsHex4(s)
    ensures n < 0x1_0000
  {
    0x1000 * HexOf(s[0]) + 0x100 * HexOf(s[1]) + 0x10 * HexOf(s[2]) + HexOf(s[3])
  }

  predicate IsShortEscape(c: char) {
    c == '"' || c == '\\' || c == '/' || c == 'b' || c == 'f' || c == 'n' || c == 'r' || c == 't'
  }

  /** What may stand between the quotes of a JSON string. */
  predicate IsBody(s: string)
    decreases |s|
  {
    s == "" ||
    if s[0] == '\\' then
      |s| >= 2 &&
      if s[1] == 'u' then IsHex4(s[2..]) && IsBody(s[6..]) else IsShortEscape(s[1]) && IsBody(s[2..])
    else s[0] >= ' ' && s[0] != '"' && IsBody(s[1..])
  }

  /** Section 7 of RFC 8259: no control characters, a backslash only before one of nine characters, and otherwise anything but a quote. */
  lemma {:induction false} BodiesAre(s: string)
    ensures IsBody(s) ==> forall i :: 0 <= i < |s| ==> s[i] as int >= 0x20
    ensures IsBody(s) && s != "" && s[0] == '\\' ==>
              |s| >= 2 && (s[1] == '"' || s[1] == '\\' || s[1] == '/' || s[1] == 'b' || s[1] == 'f' || s[1] == 'n' || s[1] == 'r' || s[1] == 't' || s[1] == 'u')
    ensures IsBody(s) && s != "" ==> s[0] != '"'
    ensures (forall i :: 0 <= i < |s| ==> s[i] as int >= 0x20 && s[i] != '"' && s[i] != '\\') ==> IsBody(s)
    decreases |s|
  {
    if s != "" {
      BodiesAre(s[1..]);
      if s[0] == '\\' && |s| >= 2 {
        BodiesAre(s[2..]);
        if s[1] == 'u' && IsHex4(s[2..]) { BodiesAre(s[6..]); }
      }
    }
  }

  predicate IsSurrogate(n: nat) {
    0xd800 <= n < 0xe000
  }

  function Rune(n: nat): char
    requires n < 0x11_0000
  {
    if IsSurrogate(n) then 0xfffd as char else n as char
  }

  function Unescaped(c: char): char {
    match c
    case 'b' => 8 as char
    case 'f' => 12 as char
    case 'n' => '\n'
    case 'r' => '\r'
    case 't' => '\t'
    case _ => c
  }

  /** json.Unmarshal of a string: lone surrogates become the replacement character. */
  function Decode(s: string): string
    requires IsBody(s)
    decreases |s|
  {
    if s == "" then ""
    else if s[0] != '\\' then [s[0]] + Decode(s[1..])
    else if s[1] != 'u' then [Unescaped(s[1])] + Decode(s[2..])
    else
      var high := Hex4Of(s[2..]);
      var tail := s[6..];
      assert IsBody(tail);
      var low := if tail != "" && tail[0] == '\\' && tail[1] == 'u' then Hex4Of(tail[2..]) else 0;
      if 0xd800 <= high < 0xdc00 && 0xdc00 <= low < 0xe000 then
        [(0x1_0000 + (high - 0xd800) * 0x400 + (low - 0xdc00)) as char] + Decode(tail[6..])
      else [Rune(high)] + Decode(tail)
  }

  function HexDigit(n: nat): (c: char)
    requires n < 16
    ensures IsHex(c) && HexOf(c) == n
  {
    "0123456789abcdef"[n]
  }

  /** encoding/json with SetEscapeHTML(false). */
  function EncodeChar(c: char): string {
    if c == '"' || c == '\\' then ['\\', c]
    else if c == 8 as char then "\\b"
    else if c == 12 as char then "\\f"
    else if c == '\n' then "\\n"
    else if c == '\r' then "\\r"
    else if c == '\t' then "\\t"
    else if c < ' ' then ['\\', 'u', '0', '0', HexDigit(c as int / 16), HexDigit(c as int % 16)]
    else if c as int == 0x2028 then "\\u2028"
    else if c as int == 0x2029 then "\\u2029"
    else [c]
  }

  function Encode(s: string): string {
    if s == "" then "" else EncodeChar(s[0]) + Encode(s[1..])
  }

  /** Encoding loses nothing: the encoder's output is a valid body that decodes to its input. */
  lemma {:induction false} DecodeEncode(s: string)
    ensures IsBody(Encode(s)) && Decode(Encode(s)) == s
  {
    if s != "" {
      DecodeEncode(s[1..]);
      DecodeEncodedChar(s[0], Encode(s[1..]));
    }
  }

  lemma {:induction false} DecodeEncodedChar(c: char, rest: string)
    requires IsBody(rest)
    ensures IsBody(EncodeChar(c) + rest) && Decode(EncodeChar(c) + rest) == [c] + Decode(rest)
  {
    var e := EncodeChar(c);
    if |e| == 6 {
      DecodeUnicodeEscape(e, rest);
    } else if |e| == 2 {
      DecodeShortEscape(e, rest);
    } else {
      assert e == [c] && (e + rest)[1..] == rest;
    }
  }

  lemma {:induction false} DecodeShortEscape(e: string, rest: string)
    requires |e| == 2 && e[0] == '\\' && IsShortEscape(e[1]) && IsBody(rest)
    ensures IsBody(e + rest) && Decode(e + rest) == [Unescaped(e[1])] + Decode(rest)
  {
    assert (e + rest)[2..] == rest;
  }

  lemma {:induction false} DecodeUnicodeEscape(e: string, rest: string)
    requires |e| == 6 && e[0] == '\\' && e[1] == 'u' && IsHex4(e[2..]) && !IsSurrogate(Hex4Of(e[2..]))
    requires IsBody(rest)
    ensures IsBody(e + rest) && Decode(e + rest) == [Hex4Of(e[2..]) as char] + Decode(rest)
  {
    var s := e + rest;
    assert s[6..] == rest;
    assert s[2..][0] == e[2..][0] && s[2..][1] == e[2..][1] && s[2..][2] == e[2..][2] && s[2..][3] == e[2..][3];
    assert Hex4Of(s[2..]) == Hex4Of(e[2..]);
  }

  /** The code point as `\u` and four digits. */
  function UnicodeEscape(n: nat, upper: bool): string
    requires n < 0x1_0000
  {
    ['\\', 'u', AnyHexDigit(n / 0x1000, upper), AnyHexDigit(n / 0x100 % 16, upper), AnyHexDigit(n / 16 % 16, upper), AnyHexDigit(n % 16, upper)]
  }

  function AnyHexDigit(n: nat, upper: bool): char
    requires n < 16
  {
    if upper then "0123456789ABCDEF"[n] else "0123456789abcdef"[n]
  }

  /** Any character can be written so; beyond the first plane, as a surrogate pair (section 7 of RFC 8259). */
  function Escaped(c: char, upper: bool): string {
    var n := c as int;
    if n < 0x1_0000 then UnicodeEscape(n, upper)
    else UnicodeEscape(0xd800 + (n - 0x1_0000) / 0x400, upper) + UnicodeEscape(0xdc00 + (n - 0x1_0000) % 0x400, upper)
  }

  lemma EscapeDigits(n: nat, upper: bool, rest: string)
    requires n < 0x1_0000
    ensures var s := UnicodeEscape(n, upper) + rest;
            |s| >= 6 && s[0] == '\\' && s[1] == 'u' && IsHex4(s[2..]) && Hex4Of(s[2..]) == n && s[6..] == rest
  {
    var e := UnicodeEscape(n, upper);
    var s := e + rest;
    HexDigits(n / 0x1000, upper);
    HexDigits(n / 0x100 % 16, upper);
    HexDigits(n / 16 % 16, upper);
    HexDigits(n % 16, upper);
    HexPlaces(n);
    DropOfConcat(e, rest);
    FourDigits(s, s[2], s[3], s[4], s[5]);
  }

  lemma FourDigits(s: string, a: char, b: char, c: char, d: char)
    requires |s| >= 6 && s[2] == a && s[3] == b && s[4] == c && s[5] == d && IsHex(a) && IsHex(b) && IsHex(c) && IsHex(d)
    ensures IsHex4(s[2..]) && Hex4Of(s[2..]) == 0x1000 * HexOf(a) + 0x100 * HexOf(b) + 0x10 * HexOf(c) + HexOf(d)
  {
  }

  lemma HexPlaces(n: nat)
    requires n < 0x1_0000
    ensures n == 0x1000 * (n / 0x1000) + 0x100 * (n / 0x100 % 16) + 0x10 * (n / 16 % 16) + n % 16
  {
    var m := n / 16;
    assert n == 16 * m + n % 16;
    var k := m / 16;
    assert k == n / 0x100 && m == 16 * k + m % 16;
    assert k / 16 == n / 0x1000 && k == 16 * (k / 16) + k % 16;
  }

  lemma HexDigits(n: nat, upper: bool)
    requires n < 16
    ensures IsHex(AnyHexDigit(n, upper)) && HexOf(AnyHexDigit(n, upper)) == n
  {
  }

  /** Such an escape is read as the character it names, in digits of either case. */
  lemma EscapedIsRead(c: char, upper: bool, rest: string)
    requires IsBody(rest) && (rest != "" ==> rest[0] != '\\')
    ensures IsBody(Escaped(c, upper) + rest) && Decode(Escaped(c, upper) + rest) == [c] + Decode(rest)
  {
    if c as int < 0x1_0000 { BasicIsRead(c, upper, rest); } else { OtherPlaneIsRead(c, upper, rest); }
  }

  lemma BasicIsRead(c: char, upper: bool, rest: string)
    requires c as int < 0x1_0000 && IsBody(rest) && (rest != "" ==> rest[0] != '\\')
    ensures var s := UnicodeEscape(c as int, upper) + rest; IsBody(s) && Decode(s) == [c] + Decode(rest)
  {
    EscapeDigits(c as int, upper, rest);
    SingleIsBody(UnicodeEscape(c as int, upper) + rest, rest);
    SingleDecodes(UnicodeEscape(c as int, upper) + rest, rest);
  }

  lemma OtherPlaneIsRead(c: char, upper: bool, rest: string)
    requires c as int >= 0x1_0000 && IsBody(rest)
    ensures IsBody(Escaped(c, upper) + rest) && Decode(Escaped(c, upper) + rest) == [c] + Decode(rest)
  {
    var over := c as int - 0x1_0000;
    var high, low := 0xd800 + over / 0x400, 0xdc00 + over % 0x400;
    PairNames(c);
    EscapedAsPair(c, upper);
    PairIsRead(high, low, upper, rest);
    ReadTogether(Escaped(c, upper), UnicodeEscape(high, upper), UnicodeEscape(low, upper), rest, c);
  }

  lemma PairNames(c: char)
    requires c as int >= 0x1_0000
    ensures var over := c as int - 0x1_0000;
            && 0 <= over / 0x400 < 0x400 && 0 <= over % 0x400 < 0x400
            && 0x1_0000 + (0xd800 + over / 0x400 - 0xd800) * 0x400 + (0xdc00 + over % 0x400 - 0xdc00) == c as int
  {
  }

  lemma EscapedAsPair(c: char, upper: bool)
    requires c as int >= 0x1_0000
    ensures var over := c as int - 0x1_0000;
            over / 0x400 < 0x400 && over % 0x400 < 0x400
            && Escaped(c, upper) == UnicodeEscape(0xd800 + over / 0x400, upper) + UnicodeEscape(0xdc00 + over % 0x400, upper)
  {
  }

  lemma ReadTogether(both: string, a: string, b: string, rest: string, c: char)
    requires both == a + b && IsBody(rest) && IsBody(a + (b + rest)) && Decode(a + (b + rest)) == [c] + Decode(rest)
    ensures IsBody(both + rest) && Decode(both + rest) == [c] + Decode(rest)
  {
    Regroup(a, b, rest);
  }

  lemma PairIsRead(high: nat, low: nat, upper: bool, rest: string)
    requires 0xd800 <= high < 0xdc00 && 0xdc00 <= low < 0xe000 && IsBody(rest)
    ensures var s := UnicodeEscape(high, upper) + (UnicodeEscape(low, upper) + rest);
            IsBody(s) && Decode(s) == [(0x1_0000 + (high - 0xd800) * 0x400 + (low - 0xdc00)) as char] + Decode(rest)
  {
    var tail := UnicodeEscape(low, upper) + rest;
    EscapeDigits(low, upper, rest);
    EscapeDigits(high, upper, tail);
    SingleIsBody(tail, rest);
    PairDecodes(UnicodeEscape(high, upper) + tail, tail, rest);
  }

  lemma SingleIsBody(s: string, rest: string)
    requires |s| >= 6 && s[0] == '\\' && s[1] == 'u' && IsHex4(s[2..]) && s[6..] == rest && IsBody(rest)
    ensures IsBody(s)
  {
  }

  lemma SingleDecodes(s: string, rest: string)
    requires |s| >= 6 && s[0] == '\\' && s[1] == 'u' && IsHex4(s[2..]) && s[6..] == rest && IsBody(rest) && IsBody(s)
    requires rest != "" ==> rest[0] != '\\'
    ensures Decode(s) == [Rune(Hex4Of(s[2..]))] + Decode(rest)
  {
  }

  lemma PairDecodes(s: string, tail: string, rest: string)
    requires |s| >= 6 && s[0] == '\\' && s[1] == 'u' && IsHex4(s[2..]) && s[6..] == tail
    requires |tail| >= 6 && tail[0] == '\\' && tail[1] == 'u' && IsHex4(tail[2..]) && tail[6..] == rest
    requires IsBody(rest) && IsBody(tail)
    requires 0xd800 <= Hex4Of(s[2..]) < 0xdc00 && 0xdc00 <= Hex4Of(tail[2..]) < 0xe000
    ensures IsBody(s)
    ensures Decode(s) == [(0x1_0000 + (Hex4Of(s[2..]) - 0xd800) * 0x400 + (Hex4Of(tail[2..]) - 0xdc00)) as char] + Decode(rest)
  {
  }

  /** A surrogate without its partner is read as the replacement character. */
  lemma LoneSurrogate(n: nat, upper: bool, rest: string)
    requires 0xd800 <= n < 0xe000 && IsBody(rest) && (rest != "" ==> rest[0] != '\\')
    ensures IsBody(UnicodeEscape(n, upper) + rest) && Decode(UnicodeEscape(n, upper) + rest) == [0xfffd as char] + Decode(rest)
  {
    EscapeDigits(n, upper, rest);
    SingleIsBody(UnicodeEscape(n, upper) + rest, rest);
    SingleDecodes(UnicodeEscape(n, upper) + rest, rest);
  }

  /** The short escapes. */
  lemma ShortEscapesAreRead(rest: string)
    requires IsBody(rest)
    ensures Decode("\\\"" + rest) == ['"'] + Decode(rest) && Decode("\\\\" + rest) == ['\\'] + Decode(rest) && Decode("\\/" + rest) == ['/'] + Decode(rest)
    ensures Decode("\\b" + rest) == [8 as char] + Decode(rest) && Decode("\\f" + rest) == [12 as char] + Decode(rest)
    ensures Decode("\\n" + rest) == [10 as char] + Decode(rest) && Decode("\\r" + rest) == [13 as char] + Decode(rest)
    ensures Decode("\\t" + rest) == [9 as char] + Decode(rest)
  {
    DecodeShortEscape("\\\"", rest);
    DecodeShortEscape("\\\\", rest);
    DecodeShortEscape("\\/", rest);
    DecodeShortEscape("\\b", rest);
    DecodeShortEscape("\\f", rest);
    DecodeShortEscape("\\n", rest);
    DecodeShortEscape("\\r", rest);
    DecodeShortEscape("\\t", rest);
  }

  // ----- Texts -----

  predicate IsBlankChar(c: char) {
    c == ' ' || c == '\t' || c == '\r' || c == '\n'
  }

  /** Section 2 of RFC 8259: space, tab, line feed, carriage return. */
  lemma BlankCharsAre(c: char)
    ensures IsBlankChar(c) <==> c as int == 0x20 || c as int == 0x09 || c as int == 0x0a || c as int == 0x0d
  {
  }

  predicate IsBlank(s: string) {
    forall i :: 0 <= i < |s| ==> IsBlankChar(s[i])
  }

  /** A value with the whitespace around it. */
  datatype Doc = Doc(pre: string, node: Node, post: string)

  datatype Node =
    | Word(word: string)
    | Number(lit: NumberLit)
    | Text(body: string)
    | EmptyArray(gap: string)
    | Array(elements: Items)
    | EmptyObject(gap: string)
    | Object(members: Members)

  datatype Items = LastItem(doc: Doc) | Item(doc: Doc, others: Items)

  datatype Name = Name(pre: string, body: string, post: string)

  datatype Members = LastMember(name: Name, doc: Doc) | Member(name: Name, doc: Doc, others: Members)

  predicate WellFormedDoc(d: Doc) {
    IsBlank(d.pre) && IsBlank(d.post) && WellFormedNode(d.node)
  }

  predicate WellFormedNode(n: Node) {
    match n
    case Word(word) => word in {"null", "true", "false"}
    case Number(lit) => lit.WellFormed()
    case Text(body) => IsBody(body)
    case EmptyArray(gap) => IsBlank(gap)
    case Array(elements) => WellFormedItems(elements)
    case EmptyObject(gap) => IsBlank(gap)
    case Object(members) => WellFormedMembers(members)
  }

  predicate WellFormedItems(items: Items) {
    WellFormedDoc(items.doc) && (items.Item? ==> WellFormedItems(items.others))
  }

  predicate WellFormedName(name: Name) {
    IsBlank(name.pre) && IsBody(name.body) && IsBlank(name.post)
  }

  predicate WellFormedMembers(members: Members) {
    WellFormedName(members.name) && WellFormedDoc(members.doc) && (members.Member? ==> WellFormedMembers(members.others))
  }

  function Quoted(body: string): string {
    "\"" + body + "\""
  }

  function Render(d: Doc): string {
    d.pre + RenderNode(d.node) + d.post
  }

  function RenderNode(n: Node): string {
    match n
    case Word(word) => word
    case Number(lit) => lit.Text()
    case Text(body) => Quoted(body)
    case EmptyArray(gap) => "[" + gap + "]"
    case Array(elements) => "[" + RenderItems(elements) + "]"
    case EmptyObject(gap) => "{" + gap + "}"
    case Object(members) => "{" + RenderMembers(members) + "}"
  }

  function RenderItems(items: Items): string {
    match items
    case LastItem(doc) => Render(doc)
    case Item(doc, others) => Render(doc) + "," + RenderItems(others)
  }

  function RenderName(name: Name): string {
    name.pre + Quoted(name.body) + name.post + ":"
  }

  function RenderMembers(members: Members): string {
    match members
    case LastMember(name, doc) => RenderName(name) + Render(doc)
    case Member(name, doc, others) => RenderName(name) + Render(doc) + "," + RenderMembers(others)
  }

  // ----- Nesting -----

  /** encoding/json reads no text whose objects and arrays nest deeper than this. */
  const MAX_NESTING: nat := 10000

  function Max(a: nat, b: nat): nat {
    if a < b then b else a
  }

  function Nesting(d: Doc): nat {
    NodeNesting(d.node)
  }

  function NodeNesting(n: Node): nat {
    match n
    case EmptyArray(_) => 1
    case Array(elements) => 1 + ItemsNesting(elements)
    case EmptyObject(_) => 1
    case Object(members) => 1 + MembersNesting(members)
    case _ => 0
  }

  function ItemsNesting(items: Items): nat {
    Max(Nesting(items.doc), if items.Item? then ItemsNesting(items.others) else 0)
  }

  function MembersNesting(members: Members): nat {
    Max(Nesting(members.doc), if members.Member? then MembersNesting(members.others) else 0)
  }

  /** A value in n arrays. */
  function InArrays(n: nat, inside: Node): Node {
    if n == 0 then inside else Array(LastItem(Doc("", InArrays(n - 1, inside), "")))
  }

  /** Ten thousand levels are read, and not one more. */
  lemma {:induction false} DeepestIsRead(n: nat)
    ensures Conforming(Doc("", InArrays(n, Word("null")), "")) <==> n <= 10000
  {
    NestingOfArrays(n);
  }

  lemma {:induction false} NestingOfArrays(n: nat)
    ensures NodeNesting(InArrays(n, Word("null"))) == n && WellFormedNode(InArrays(n, Word("null")))
  {
    if n > 0 {
      NestingOfArrays(n - 1);
      var d := Doc("", InArrays(n - 1, Word("null")), "");
      assert WellFormedDoc(d) && Nesting(d) == n - 1;
      assert WellFormedItems(LastItem(d)) && ItemsNesting(LastItem(d)) == n - 1;
    }
  }

  predicate Conforming(d: Doc) {
    WellFormedDoc(d) && Nesting(d) <= MAX_NESTING
  }

  /** The text can be read as this document. */
  predicate Reads(d: Doc, text: string) {
    Conforming(d) && Render(d) == text
  }

  /** json.Valid: the grammar of RFC 8259, with the nesting bounded. */
  ghost predicate Valid(text: string) {
    exists d: Doc :: Reads(d, text)
  }

  // ----- Meaning -----

  function Denote(d: Doc): Json
    requires WellFormedDoc(d)
  {
    DenoteNode(d.node)
  }

  function DenoteNode(n: Node): Json
    requires WellFormedNode(n)
  {
    match n
    case Word(word) => if word == "null" then Null else Bool(word == "true")
    case Number(lit) => Num(lit.Text())
    case Text(body) => Str(Decode(body))
    case EmptyArray(_) => Arr([])
    case Array(elements) => Arr(DenoteItems(elements))
    case EmptyObject(_) => Obj(map[])
    case Object(members) => Obj(DenoteMembers(members))
  }

  /** The three literals, numbers and strings. */
  lemma LiteralsDenote(lit: NumberLit, body: string)
    requires lit.WellFormed() && IsBody(body)
    ensures DenoteNode(Word("null")) == Null && DenoteNode(Word("true")) == Bool(true) && DenoteNode(Word("false")) == Bool(false)
    ensures DenoteNode(Number(lit)) == Num(lit.Text()) && DenoteNode(Text(body)) == Str(Decode(body))
  {
  }

  function DenoteItems(items: Items): seq<Json>
    requires WellFormedItems(items)
  {
    [Denote(items.doc)] + if items.Item? then DenoteItems(items.others) else []
  }

  /** The last of several members with one name wins. */
  function DenoteMembers(members: Members): map<string, Json>
    requires WellFormedMembers(members)
  {
    map[Decode(members.name.body) := Denote(members.doc)] + if members.Member? then DenoteMembers(members.others) else map[]
  }
}
