/** Scrubbing secrets from serialized JSON (internal/cli/secret_headers.go). */
module Scanner {
  import opened Strings
  import opened Json
  import opened JsonText
  import opened Recording

  datatype Problem = InvalidJson | UnterminatedEscape | UnterminatedString | BadString

  datatype Outcome = Output(text: string) | Broken(problem: Problem)

  // ----- The scan -----

  datatype Ending = Ends(length: nat) | Open(problem: Problem)

  function Plus(n: nat, e: Ending): Ending {
    if e.Ends? then Ends(n + e.length) else e
  }

  /** The length of the rest of a string token, its closing quote included. */
  function StringEnding(s: string): Ending
    decreases |s|
  {
    if s == "" then Open(UnterminatedString)
    else if s[0] == '\\' then
      if |s| < 2 then Open(UnterminatedEscape) else Plus(2, StringEnding(s[2..]))
    else if s[0] == '"' then Ends(1)
    else Plus(1, StringEnding(s[1..]))
  }

  lemma {:induction false} EndingIsQuote(s: string)
    ensures StringEnding(s).Ends? ==> 1 <= StringEnding(s).length <= |s| && s[StringEnding(s).length - 1] == '"'
    decreases |s|
  {
    if s != "" {
      if s[0] == '\\' {
        if |s| >= 2 { EndingIsQuote(s[2..]); }
      } else if s[0] != '"' {
        EndingIsQuote(s[1..]);
      }
    }
  }

  /** The first character that is not whitespace is a colon. */
  predicate ColonNext(s: string) {
    s != "" && if IsBlankChar(s[0]) then ColonNext(s[1..]) else s[0] == ':'
  }

  function Prepend(front: string, o: Outcome): Outcome {
    if o.Output? then Output(front + o.text) else o
  }

  function RedactBody(redact: string -> string, body: string): string
    requires IsBody(body)
  {
    var decoded := Decode(body);
    if redact(decoded) == decoded then body else Encode(redact(decoded))
  }

  /** What replaces a string token, given the text behind it: names are left alone. */
  function TokenScan(redact: string -> string, body: string, rest: string): Outcome {
    if ColonNext(rest) then Output(Quoted(body))
    else if !IsBody(body) then Broken(BadString)
    else Output(Quoted(RedactBody(redact, body)))
  }

  /** What the scan makes of the text from here on. */
  function Scan(redact: string -> string, s: string): Outcome
    decreases |s|
  {
    if s == "" then Output("")
    else if s[0] != '"' then Prepend([s[0]], Scan(redact, s[1..]))
    else ScanQuoted(redact, s)
  }

  function ScanQuoted(redact: string -> string, s: string): Outcome
    requires s != ""
    decreases |s|, 0
  {
    var ending := StringEnding(s[1..]);
    if ending.Open? then Broken(ending.problem)
    else
      EndingIsQuote(s[1..]);
      var body, rest := s[1..ending.length], s[1 + ending.length..];
      var token := TokenScan(redact, body, rest);
      if token.Broken? then token else Prepend(token.text, Scan(redact, rest))
  }

  /** The index-driven loop. */
  method ScanText(redact: string -> string, data: string) returns (r: Outcome)
    ensures r == Scan(redact, data)
  {
    var output := "";
    var index := 0;
    ghost var rest := data;
    while index < |data|
      invariant 0 <= index <= |data| && rest == data[index..]
      invariant Prepend(output, Scan(redact, rest)) == Scan(redact, data)
    {
      assert data[index] == rest[0];
      if data[index] != '"' {
        PrependPrepend(output, [rest[0]], Scan(redact, rest[1..]));
        output := output + [data[index]];
        index, rest := index + 1, rest[1..];
        continue;
      }
      var text, next := ScanString(redact, data, index);
      if text.Broken? {
        return text;
      }
      PrependPrepend(output, text.text, Scan(redact, data[next..]));
      output, index, rest := output + text.text, next, data[next..];
    }
    return Output(output);
  }

  /** One string token: its replacement, and where the scan goes on. */
  method ScanString(redact: string -> string, data: string, start: nat) returns (text: Outcome, index: nat)
    requires start < |data| && data[start] == '"'
    ensures text.Broken? ==> Scan(redact, data[start..]) == text
    ensures text.Output? ==> start < index <= |data| && Scan(redact, data[start..]) == Prepend(text.text, Scan(redact, data[index..]))
  {
    ghost var s := data[start..];
    var ending := FindEnd(data, start + 1);
    DropDrop(data, start, 1);
    assert Scan(redact, s) == ScanQuoted(redact, s);
    if ending.Open? {
      return Broken(ending.problem), start;
    }
    EndingIsQuote(data[start + 1..]);
    index := start + 1 + ending.length;
    TokenSlices(data, start, ending.length);
    text := TokenText(redact, data[start..index], data, index, s[1..ending.length]);
  }

  method TokenText(redact: string -> string, raw: string, data: string, index: nat, ghost token: string) returns (r: Outcome)
    requires raw == Quoted(token) && index <= |data|
    ensures r == TokenScan(redact, token, data[index..])
  {
    Unquoted(token);
    var next := index;
    while next < |data| && IsBlankChar(data[next])
      invariant index <= next <= |data|
      invariant ColonNext(data[index..]) == ColonNext(data[next..])
    {
      DropDrop(data, next, 1);
      next := next + 1;
    }
    if next < |data| && data[next] == ':' {
      return Output(raw);
    }
    var body := raw[1..|raw| - 1];
    if !IsBody(body) {
      return Broken(BadString);
    }
    var decoded := Decode(body);
    var redacted := redact(decoded);
    if redacted == decoded {
      return Output(raw);
    }
    return Output("\"" + Encode(redacted) + "\"");
  }

  method FindEnd(data: string, start: nat) returns (e: Ending)
    requires start <= |data|
    ensures e == StringEnding(data[start..])
  {
    var index := start;
    while index < |data|
      invariant start <= index <= |data|
      invariant StringEnding(data[start..]) == Plus(index - start, StringEnding(data[index..]))
    {
      DropDrop(data, index, 1);
      if data[index] == '\\' {
        if index + 1 >= |data| {
          return Open(UnterminatedEscape);
        }
        DropDrop(data, index, 2);
        index := index + 2;
      } else if data[index] == '"' {
        return Ends(index + 1 - start);
      } else {
        index := index + 1;
      }
    }
    return Open(UnterminatedString);
  }

  lemma DropDrop(s: string, i: nat, n: nat)
    requires i + n <= |s|
    ensures s[i..][n..] == s[i + n..]
    ensures n > 0 ==> s[i..][0] == s[i]
  {
  }

  lemma Unquoted(body: string)
    ensures |Quoted(body)| == |body| + 2 && Quoted(body)[1..|Quoted(body)| - 1] == body
  {
  }

  lemma TokenSlices(data: string, start: nat, length: nat)
    requires 1 <= length && start + 1 + length <= |data| && data[start] == '"' && data[start + 1..][length - 1] == '"'
    ensures data[start..][1 + length..] == data[start + 1 + length..]
    ensures data[start..start + 1 + length] == Quoted(data[start..][1..length])
  {
    DropDrop(data, start, 1 + length);
    QuotedSlice(data[start..], length);
    TakeOfDrop(data, start, 1 + length);
  }

  lemma TakeOfDrop(s: string, i: nat, n: nat)
    requires i + n <= |s|
    ensures s[i..][..n] == s[i..i + n]
  {
  }

  lemma QuotedSlice(s: string, length: nat)
    requires 1 <= length < |s| && s[0] == '"' && s[length] == '"'
    ensures s[..1 + length] == Quoted(s[1..length])
  {
    assert s[..1 + length] == ['"'] + s[1..length] + ['"'];
  }

  // ----- What the scan means -----

  /** The text with every string value redacted, and nothing else changed. */
  function Redacted(redact: string -> string, d: Doc): Doc
    requires WellFormedDoc(d)
  {
    Doc(d.pre, RedactedNode(redact, d.node), d.post)
  }

  function RedactedNode(redact: string -> string, n: Node): Node
    requires WellFormedNode(n)
  {
    match n
    case Text(body) => Text(RedactBody(redact, body))
    case Array(elements) => Array(RedactedItems(redact, elements))
    case Object(members) => Object(RedactedMembers(redact, members))
    case _ => n
  }

  function RedactedItems(redact: string -> string, items: Items): Items
    requires WellFormedItems(items)
  {
    match items
    case LastItem(doc) => LastItem(Redacted(redact, doc))
    case Item(doc, others) => Item(Redacted(redact, doc), RedactedItems(redact, others))
  }

  function RedactedMembers(redact: string -> string, members: Members): Members
    requires WellFormedMembers(members)
  {
    match members
    case LastMember(name, doc) => LastMember(name, Redacted(redact, doc))
    case Member(name, doc, others) => Member(name, Redacted(redact, doc), RedactedMembers(redact, others))
  }

  predicate NoQuote(s: string) {
    forall i :: 0 <= i < |s| ==> s[i] != '"'
  }

  /** In front of `rest`, the scan turns `text` into `output`. */
  predicate Yields(redact: string -> string, text: string, output: string, rest: string) {
    Scan(redact, text + rest) == Prepend(output, Scan(redact, rest))
  }

  lemma PrependPrepend(a: string, b: string, o: Outcome)
    ensures Prepend(a, Prepend(b, o)) == Prepend(a + b, o)
  {
    if o.Output? { Regroup(a, b, o.text); }
  }

  lemma YieldsBoth(redact: string -> string, a: string, aOut: string, b: string, bOut: string, rest: string)
    requires Yields(redact, a, aOut, b + rest) && Yields(redact, b, bOut, rest)
    ensures Yields(redact, a + b, aOut + bOut, rest)
  {
    Regroup(a, b, rest);
    PrependPrepend(aOut, bOut, Scan(redact, rest));
  }

  lemma {:induction false} ScanPlain(redact: string -> string, s: string, rest: string)
    requires NoQuote(s)
    ensures Yields(redact, s, s, rest)
  {
    if s == "" {
      assert s + rest == rest;
      PrependNothing(Scan(redact, rest));
    } else {
      ScanPlain(redact, s[1..], rest);
      ConcatTail(s, rest);
      PrependPrepend([s[0]], s[1..], Scan(redact, rest));
      assert [s[0]] + s[1..] == s;
    }
  }

  lemma PrependNothing(o: Outcome)
    ensures Prepend("", o) == o
  {
    if o.Output? { assert "" + o.text == o.text; }
  }

  lemma {:induction false} BodyEnds(body: string, rest: string)
    requires IsBody(body)
    ensures StringEnding(body + ("\"" + rest)) == Ends(|body| + 1)
    decreases |body|
  {
    var tail := "\"" + rest;
    if body == "" {
      assert body + tail == tail;
    } else if body[0] == '\\' && body[1] == 'u' {
      BodyEnds(body[6..], rest);
      ConcatDrop(body, tail, 6);
      HexIsPlain(body + tail);
    } else if body[0] == '\\' {
      BodyEnds(body[2..], rest);
      ConcatDrop(body, tail, 2);
    } else {
      BodyEnds(body[1..], rest);
      ConcatDrop(body, tail, 1);
    }
  }

  lemma ConcatDrop(a: string, b: string, n: nat)
    requires 0 < n <= |a|
    ensures (a + b)[n..] == a[n..] + b && (a + b)[..n] == a[..n] && (a + b)[0] == a[0]
    ensures n >= 2 ==> (a + b)[1] == a[1]
    ensures n == 6 ==> (a + b)[2] == a[2] && (a + b)[3] == a[3] && (a + b)[4] == a[4] && (a + b)[5] == a[5]
  {
  }

  /** The four digits of a \u escape are passed one by one. */
  lemma HexIsPlain(s: string)
    requires |s| >= 6 && s[0] == '\\' && s[1] == 'u' && IsHex(s[2]) && IsHex(s[3]) && IsHex(s[4]) && IsHex(s[5])
    ensures StringEnding(s) == Plus(6, StringEnding(s[6..]))
  {
    DropDrop(s, 2, 1);
    DropDrop(s, 3, 1);
    DropDrop(s, 4, 1);
    DropDrop(s, 5, 1);
    assert StringEnding(s[5..]) == Plus(1, StringEnding(s[6..]));
    assert StringEnding(s[4..]) == Plus(2, StringEnding(s[6..]));
    assert StringEnding(s[3..]) == Plus(3, StringEnding(s[6..]));
    assert StringEnding(s[2..]) == Plus(4, StringEnding(s[6..]));
  }

  lemma ScanToken(redact: string -> string, body: string, rest: string)
    requires IsBody(body)
    ensures Yields(redact, Quoted(body), Quoted(if ColonNext(rest) then body else RedactBody(redact, body)), rest)
  {
    var s := Quoted(body) + rest;
    QuotedTail(body, rest);
    BodyEnds(body, rest);
    assert Scan(redact, s) == ScanQuoted(redact, s);
  }

  lemma QuotedTail(body: string, rest: string)
    ensures var s := Quoted(body) + rest;
            && |s| == |body| + 2 + |rest| && s[0] == '"' && s[1..] == body + ("\"" + rest)
            && s[1..|body| + 1] == body && s[1 + (|body| + 1)..] == rest
  {
  }

  lemma {:induction false} BlankThenColon(blank: string, rest: string)
    requires IsBlank(blank)
    ensures ColonNext(blank + rest) == ColonNext(rest)
  {
    if blank == "" {
      assert blank + rest == rest;
    } else {
      BlankThenColon(blank[1..], rest);
      ConcatTail(blank, rest);
    }
  }

  lemma NumberHasNoQuote(lit: NumberLit)
    requires lit.WellFormed()
    ensures NoQuote(lit.Text())
  {
    assert NoQuote(lit.whole) && NoQuote(lit.FractionDigits()) && NoQuote(lit.ExponentText());
    assert NoQuote(lit.Mantissa());
  }

  lemma {:induction false} ScanDoc(redact: string -> string, d: Doc, rest: string)
    requires WellFormedDoc(d) && !ColonNext(rest)
    ensures Yields(redact, Render(d), Render(Redacted(redact, d)), rest)
    decreases d, 1
  {
    var node, nodeOut, after := RenderNode(d.node), RenderNode(RedactedNode(redact, d.node)), d.post + rest;
    BlankThenColon(d.post, rest);
    ScanPlain(redact, d.pre, node + after);
    ScanNode(redact, d.node, after);
    YieldsBoth(redact, d.pre, d.pre, node, nodeOut, after);
    ScanPlain(redact, d.post, rest);
    YieldsBoth(redact, d.pre + node, d.pre + nodeOut, d.post, d.post, rest);
  }

  lemma {:induction false} ScanNode(redact: string -> string, n: Node, rest: string)
    requires WellFormedNode(n) && !ColonNext(rest)
    ensures Yields(redact, RenderNode(n), RenderNode(RedactedNode(redact, n)), rest)
    decreases n, 0
  {
    match n
    case Text(body) => ScanToken(redact, body, rest);
    case Number(lit) =>
      NumberHasNoQuote(lit);
      ScanPlain(redact, lit.Text(), rest);
    case Word(word) => ScanPlain(redact, word, rest);
    case EmptyArray(gap) => ScanPlain(redact, "[" + gap + "]", rest);
    case EmptyObject(gap) => ScanPlain(redact, "{" + gap + "}", rest);
    case Array(elements) =>
      ScanItems(redact, elements, "]" + rest);
      ScanInside(redact, "[", RenderItems(elements), RenderItems(RedactedItems(redact, elements)), "]", rest);
    case Object(members) =>
      ScanMembers(redact, members, "}" + rest);
      ScanInside(redact, "{", RenderMembers(members), RenderMembers(RedactedMembers(redact, members)), "}", rest);
  }

  /** Brackets, or any other text without quotes, around text whose scan is known. */
  lemma ScanInside(redact: string -> string, open: string, inside: string, output: string, close: string, rest: string)
    requires NoQuote(open) && NoQuote(close) && Yields(redact, inside, output, close + rest)
    ensures Yields(redact, open + inside + close, open + output + close, rest)
  {
    ScanPlain(redact, open, inside + (close + rest));
    YieldsBoth(redact, open, open, inside, output, close + rest);
    ScanPlain(redact, close, rest);
    YieldsBoth(redact, open + inside, open + output, close, close, rest);
  }

  /** A value, a comma, and what follows in the list. */
  lemma ScanThen(redact: string -> string, first: string, firstOut: string, others: string, othersOut: string, rest: string)
    requires Yields(redact, first, firstOut, "," + (others + rest)) && Yields(redact, others, othersOut, rest)
    ensures Yields(redact, first + "," + others, firstOut + "," + othersOut, rest)
  {
    ScanPlain(redact, ",", others + rest);
    YieldsBoth(redact, first, firstOut, ",", ",", others + rest);
    YieldsBoth(redact, first + ",", firstOut + ",", others, othersOut, rest);
  }

  lemma CommaIsNoColon(rest: string)
    ensures !ColonNext("," + rest)
  {
  }

  lemma {:induction false} ScanItems(redact: string -> string, items: Items, rest: string)
    requires WellFormedItems(items) && !ColonNext(rest)
    ensures Yields(redact, RenderItems(items), RenderItems(RedactedItems(redact, items)), rest)
    decreases items, 2
  {
    match items
    case LastItem(doc) => ScanDoc(redact, doc, rest);
    case Item(doc, others) =>
      CommaIsNoColon(RenderItems(others) + rest);
      ScanItems(redact, others, rest);
      ScanDoc(redact, doc, "," + (RenderItems(others) + rest));
      ScanThen(redact, Render(doc), Render(Redacted(redact, doc)), RenderItems(others), RenderItems(RedactedItems(redact, others)), rest);
  }

  lemma ScanName(redact: string -> string, name: Name, rest: string)
    requires WellFormedName(name)
    ensures Yields(redact, RenderName(name), RenderName(name), rest)
  {
    var quoted, colon := Quoted(name.body), ":" + rest;
    var after := name.post + colon;
    BlankThenColon(name.post, colon);
    ScanPlain(redact, name.pre, quoted + after);
    ScanToken(redact, name.body, after);
    YieldsBoth(redact, name.pre, name.pre, quoted, quoted, after);
    ScanPlain(redact, name.post, colon);
    YieldsBoth(redact, name.pre + quoted, name.pre + quoted, name.post, name.post, colon);
    ScanPlain(redact, ":", rest);
    YieldsBoth(redact, name.pre + quoted + name.post, name.pre + quoted + name.post, ":", ":", rest);
  }

  lemma {:induction false} ScanMembers(redact: string -> string, members: Members, rest: string)
    requires WellFormedMembers(members) && !ColonNext(rest)
    ensures Yields(redact, RenderMembers(members), RenderMembers(RedactedMembers(redact, members)), rest)
    decreases members, 2
  {
    match members
    case LastMember(name, doc) =>
      ScanDoc(redact, doc, rest);
      ScanNamed(redact, name, Render(doc), Render(Redacted(redact, doc)), rest);
    case Member(name, doc, others) =>
      CommaIsNoColon(RenderMembers(others) + rest);
      ScanMembers(redact, others, rest);
      ScanDoc(redact, doc, "," + (RenderMembers(others) + rest));
      ScanNamed(redact, name, Render(doc), Render(Redacted(redact, doc)), "," + (RenderMembers(others) + rest));
      ScanThen(redact, RenderName(name) + Render(doc), RenderName(name) + Render(Redacted(redact, doc)),
               RenderMembers(others), RenderMembers(RedactedMembers(redact, others)), rest);
  }

  lemma ScanNamed(redact: string -> string, name: Name, value: string, output: string, rest: string)
    requires WellFormedName(name) && Yields(redact, value, output, rest)
    ensures Yields(redact, RenderName(name) + value, RenderName(name) + output, rest)
  {
    ScanName(redact, name, value + rest);
    YieldsBoth(redact, RenderName(name), RenderName(name), value, output, rest);
  }

  // ----- redactJSON -----

  predicate AllSpace(s: string) {
    forall i :: 0 <= i < |s| ==> IsSpace(s[i])
  }

  /** The whitespace that TrimSpace takes off. */
  function Lead(s: string): string {
    LeftSpaceLength(s);
    s[..|s| - |TrimLeftSpace(s)|]
  }

  function Trail(s: string): string {
    RightSpaceLength(TrimLeftSpace(s));
    TrimLeftSpace(s)[|TrimSpace(s)|..]
  }

  lemma {:induction false} LeftSpaceLength(s: string)
    ensures |TrimLeftSpace(s)| <= |s|
  {
    if s != "" { LeftSpaceLength(s[1..]); }
  }

  lemma {:induction false} RightSpaceLength(s: string)
    ensures |TrimRightSpace(s)| <= |s|
  {
    if s != "" { RightSpaceLength(s[..|s| - 1]); }
  }

  lemma {:induction false} LeftSpace(s: string)
    ensures AllSpace(Lead(s)) && s == Lead(s) + TrimLeftSpace(s)
  {
    if s != "" && IsSpace(s[0]) {
      LeftSpace(s[1..]);
      assert Lead(s) == [s[0]] + Lead(s[1..]);
    }
  }

  lemma {:induction false} RightSpace(s: string)
    ensures |TrimRightSpace(s)| <= |s| && AllSpace(s[|TrimRightSpace(s)|..]) && s == TrimRightSpace(s) + s[|TrimRightSpace(s)|..]
  {
    if s != "" && IsSpace(s[|s| - 1]) {
      var front := s[..|s| - 1];
      RightSpace(front);
      var n := |TrimRightSpace(front)|;
      assert s[n..] == front[n..] + [s[|s| - 1]];
    }
  }

  lemma TrimmedParts(s: string)
    ensures s == Lead(s) + TrimSpace(s) + Trail(s) && AllSpace(Lead(s)) && AllSpace(Trail(s))
    ensures var t := TrimSpace(s); t != "" ==> !IsSpace(t[0]) && !IsSpace(t[|t| - 1])
  {
    LeftSpace(s);
    RightSpace(TrimLeftSpace(s));
    LeftEnd(s);
    RightEnd(TrimLeftSpace(s));
  }

  lemma {:induction false} LeftEnd(s: string)
    ensures TrimLeftSpace(s) != "" ==> !IsSpace(TrimLeftSpace(s)[0])
  {
    if s != "" { LeftEnd(s[1..]); }
  }

  lemma {:induction false} RightEnd(s: string)
    ensures TrimRightSpace(s) <= s
    ensures var t := TrimRightSpace(s); t != "" ==> !IsSpace(t[|t| - 1])
  {
    if s != "" && IsSpace(s[|s| - 1]) { RightEnd(s[..|s| - 1]); }
  }

  lemma {:induction false} SpaceHasNoColon(s: string)
    requires AllSpace(s)
    ensures !ColonNext(s) && NoQuote(s)
  {
    if s != "" { SpaceHasNoColon(s[1..]); }
  }

  /** The scan of a JSON text, with whatever whitespace around it, never fails and redacts its string values only. */
  lemma ScanOfJson(redact: string -> string, lead: string, d: Doc, trail: string)
    requires WellFormedDoc(d) && AllSpace(lead) && AllSpace(trail)
    ensures Scan(redact, lead + Render(d) + trail) == Output(lead + Render(Redacted(redact, d)) + trail)
  {
    SpaceHasNoColon(lead);
    SpaceHasNoColon(trail);
    ScanDoc(redact, d, trail);
    ScanPlain(redact, trail, "");
    assert trail + "" == trail;
    ScanPlain(redact, lead, Render(d) + trail);
    assert lead + Render(d) + trail == lead + (Render(d) + trail);
    assert lead + (Render(Redacted(redact, d)) + trail) == lead + Render(Redacted(redact, d)) + trail;
  }

  /** Redaction of JSON output; without configured secrets the text is copied. */
  method RedactJson(lib: Library, redact: string -> string, configured: bool, data: string) returns (r: Outcome)
    requires forall s :: lib.jsonValid(s) <==> Valid(s)
    ensures !configured ==> r == Output(data)
    ensures configured && !Valid(TrimSpace(data)) ==> r == Broken(InvalidJson)
    ensures configured ==> forall d :: Reads(d, TrimSpace(data)) ==>
                                         r == Output(Lead(data) + Render(Redacted(redact, d)) + Trail(data))
  {
    if !configured {
      return Output(data);
    }
    if !lib.jsonValid(TrimSpace(data)) {
      return Broken(InvalidJson);
    }
    r := ScanText(redact, data);
    forall d | Reads(d, TrimSpace(data))
      ensures r == Output(Lead(data) + Render(Redacted(redact, d)) + Trail(data))
    {
      TrimmedParts(data);
      ScanOfJson(redact, Lead(data), d, Trail(data));
    }
  }

  // ----- What redaction keeps -----

  /** A string value decodes to its redaction, and keeps its spelling when that is the same string. */
  lemma RedactBodyDecodes(redact: string -> string, body: string)
    requires IsBody(body)
    ensures IsBody(RedactBody(redact, body)) && Decode(RedactBody(redact, body)) == redact(Decode(body))
  {
    DecodeEncode(redact(Decode(body)));
  }

  datatype Lexeme = Plain(text: string) | Key(body: string) | StringValue(body: string)

  function Lexemes(d: Doc): seq<Lexeme> {
    [Plain(d.pre)] + NodeLexemes(d.node) + [Plain(d.post)]
  }

  function NodeLexemes(n: Node): seq<Lexeme> {
    match n
    case Text(body) => [StringValue(body)]
    case Array(elements) => [Plain("[")] + ItemsLexemes(elements) + [Plain("]")]
    case Object(members) => [Plain("{")] + MembersLexemes(members) + [Plain("}")]
    case _ => [Plain(RenderNode(n))]
  }

  function ItemsLexemes(items: Items): seq<Lexeme> {
    Lexemes(items.doc) + if items.Item? then [Plain(",")] + ItemsLexemes(items.others) else []
  }

  function NameLexemes(name: Name): seq<Lexeme> {
    [Plain(name.pre)] + [Key(name.body)] + [Plain(name.post)] + [Plain(":")]
  }

  function MembersLexemes(members: Members): seq<Lexeme> {
    NameLexemes(members.name) + Lexemes(members.doc)
    + if members.Member? then [Plain(",")] + MembersLexemes(members.others) else []
  }

  /** One lexeme against its counterpart in the output. */
  predicate Counterpart(redact: string -> string, a: Lexeme, b: Lexeme) {
    if a.StringValue? then
      && b.StringValue? && IsBody(a.body) && IsBody(b.body) && Decode(b.body) == redact(Decode(a.body))
      && (redact(Decode(a.body)) == Decode(a.body) ==> b == a)
    else b == a
  }

  predicate Counterparts(redact: string -> string, a: seq<Lexeme>, b: seq<Lexeme>) {
    |a| == |b| && forall i :: 0 <= i < |a| ==> Counterpart(redact, a[i], b[i])
  }

  /** Keys, numbers, literals, punctuation and whitespace stay as they are, each in its place; the output can be read again. */
  lemma {:induction false} LexemesAreKept(redact: string -> string, d: Doc)
    requires WellFormedDoc(d)
    ensures WellFormedDoc(Redacted(redact, d)) && Nesting(Redacted(redact, d)) == Nesting(d)
    ensures Counterparts(redact, Lexemes(d), Lexemes(Redacted(redact, d)))
    decreases d, 1
  {
    NodeLexemesAreKept(redact, d.node);
  }

  lemma {:induction false} NodeLexemesAreKept(redact: string -> string, n: Node)
    requires WellFormedNode(n)
    ensures WellFormedNode(RedactedNode(redact, n)) && NodeNesting(RedactedNode(redact, n)) == NodeNesting(n)
    ensures Counterparts(redact, NodeLexemes(n), NodeLexemes(RedactedNode(redact, n)))
    decreases n, 0
  {
    match n
    case Text(body) => RedactBodyDecodes(redact, body);
    case Array(elements) => ItemsLexemesAreKept(redact, elements);
    case Object(members) => MembersLexemesAreKept(redact, members);
    case _ =>
  }

  lemma {:induction false} ItemsLexemesAreKept(redact: string -> string, items: Items)
    requires WellFormedItems(items)
    ensures WellFormedItems(RedactedItems(redact, items)) && ItemsNesting(RedactedItems(redact, items)) == ItemsNesting(items)
    ensures Counterparts(redact, ItemsLexemes(items), ItemsLexemes(RedactedItems(redact, items)))
    decreases items, 2
  {
    LexemesAreKept(redact, items.doc);
    if items.Item? { ItemsLexemesAreKept(redact, items.others); }
  }

  lemma {:induction false} MembersLexemesAreKept(redact: string -> string, members: Members)
    requires WellFormedMembers(members)
    ensures WellFormedMembers(RedactedMembers(redact, members))
    ensures MembersNesting(RedactedMembers(redact, members)) == MembersNesting(members)
    ensures Counterparts(redact, MembersLexemes(members), MembersLexemes(RedactedMembers(redact, members)))
    decreases members, 2
  {
    LexemesAreKept(redact, members.doc);
    if members.Member? { MembersLexemesAreKept(redact, members.others); }
  }

  function LexemeText(lexeme: Lexeme): string {
    match lexeme
    case Plain(text) => text
    case Key(body) => Quoted(body)
    case StringValue(body) => Quoted(body)
  }

  function Spelling(lexemes: seq<Lexeme>): string {
    if lexemes == [] then "" else LexemeText(lexemes[0]) + Spelling(lexemes[1..])
  }

  lemma {:induction false} SpellingConcat(a: seq<Lexeme>, b: seq<Lexeme>)
    ensures Spelling(a + b) == Spelling(a) + Spelling(b)
  {
    if a == [] {
      assert a + b == b;
      assert "" + Spelling(b) == Spelling(b);
    } else {
      SpellingConcat(a[1..], b);
      ConcatTail(a, b);
      Regroup(LexemeText(a[0]), Spelling(a[1..]), Spelling(b));
    }
  }

  /** The lexemes are the text: put together they spell it. */
  lemma {:induction false} LexemesSpellText(d: Doc)
    ensures Spelling(Lexemes(d)) == Render(d)
    decreases d, 1
  {
    NodeLexemesSpellText(d.node);
    SpellingInside(d.pre, NodeLexemes(d.node), d.post);
  }

  lemma SpellingOne(lexeme: Lexeme)
    ensures Spelling([lexeme]) == LexemeText(lexeme)
  {
    assert [lexeme][1..] == [];
    assert LexemeText(lexeme) + "" == LexemeText(lexeme);
  }

  lemma SpellingInside(open: string, inside: seq<Lexeme>, close: string)
    ensures Spelling([Plain(open)] + inside + [Plain(close)]) == open + Spelling(inside) + close
  {
    SpellingConcat([Plain(open)] + inside, [Plain(close)]);
    SpellingConcat([Plain(open)], inside);
    SpellingOne(Plain(open));
    SpellingOne(Plain(close));
  }

  lemma {:induction false} NodeLexemesSpellText(n: Node)
    ensures Spelling(NodeLexemes(n)) == RenderNode(n)
    decreases n, 0
  {
    match n
    case Array(elements) =>
      ItemsLexemesSpellText(elements);
      SpellingInside("[", ItemsLexemes(elements), "]");
    case Object(members) =>
      MembersLexemesSpellText(members);
      SpellingInside("{", MembersLexemes(members), "}");
    case _ => SpellingOne(NodeLexemes(n)[0]);
  }

  lemma {:induction false} ItemsLexemesSpellText(items: Items)
    ensures Spelling(ItemsLexemes(items)) == RenderItems(items)
    decreases items, 2
  {
    LexemesSpellText(items.doc);
    if items.Item? {
      ItemsLexemesSpellText(items.others);
      var others := [Plain(",")] + ItemsLexemes(items.others);
      SpellingConcat([Plain(",")], ItemsLexemes(items.others));
      SpellingConcat(Lexemes(items.doc), others);
    } else {
      assert ItemsLexemes(items) == Lexemes(items.doc);
    }
  }

  lemma {:induction false} MembersLexemesSpellText(members: Members)
    ensures Spelling(MembersLexemes(members)) == RenderMembers(members)
    decreases members, 2
  {
    var name := NameLexemes(members.name);
    NameSpells(members.name);
    LexemesSpellText(members.doc);
    SpellingConcat(name, Lexemes(members.doc));
    if members.Member? {
      MembersLexemesSpellText(members.others);
      SpellingConcat([Plain(",")], MembersLexemes(members.others));
      SpellingConcat(name + Lexemes(members.doc), [Plain(",")] + MembersLexemes(members.others));
    } else {
      assert MembersLexemes(members) == name + Lexemes(members.doc);
    }
  }

  lemma NameSpells(name: Name)
    ensures Spelling(NameLexemes(name)) == RenderName(name)
  {
    SpellingInside(name.pre, [Key(name.body)], name.post);
    SpellingOne(Key(name.body));
    SpellingConcat([Plain(name.pre)] + [Key(name.body)] + [Plain(name.post)], [Plain(":")]);
    SpellingOne(Plain(":"));
  }

  /** Redaction of a decoded value: its strings, not its names. */
  function MapStrings(redact: string -> string, j: Json): Json {
    match j
    case Str(text) => Str(redact(text))
    case Arr(items) => Arr(seq(|items|, i requires 0 <= i < |items| => MapStrings(redact, items[i])))
    case Obj(fields) => Obj(map k | k in fields :: MapStrings(redact, fields[k]))
    case _ => j
  }

  /** The output denotes the value of the input with its strings redacted. */
  lemma {:induction false} RedactionDenotes(redact: string -> string, d: Doc)
    requires WellFormedDoc(d)
    ensures WellFormedDoc(Redacted(redact, d)) && Denote(Redacted(redact, d)) == MapStrings(redact, Denote(d))
    decreases d, 1
  {
    NodeDenotes(redact, d.node);
  }

  lemma {:induction false} NodeDenotes(redact: string -> string, n: Node)
    requires WellFormedNode(n)
    ensures WellFormedNode(RedactedNode(redact, n)) && DenoteNode(RedactedNode(redact, n)) == MapStrings(redact, DenoteNode(n))
    decreases n, 0
  {
    match n
    case Text(body) => RedactBodyDecodes(redact, body);
    case Array(elements) => ItemsDenote(redact, elements);
    case Object(members) => MembersDenote(redact, members);
    case _ =>
  }

  lemma {:induction false} ItemsDenote(redact: string -> string, items: Items)
    requires WellFormedItems(items)
    ensures WellFormedItems(RedactedItems(redact, items))
    ensures Arr(DenoteItems(RedactedItems(redact, items))) == MapStrings(redact, Arr(DenoteItems(items)))
    decreases items, 2
  {
    RedactionDenotes(redact, items.doc);
    if items.Item? {
      ItemsDenote(redact, items.others);
      MapStringsFirst(redact, Denote(items.doc), DenoteItems(items.others));
    }
  }

  lemma {:induction false} MembersDenote(redact: string -> string, members: Members)
    requires WellFormedMembers(members)
    ensures WellFormedMembers(RedactedMembers(redact, members))
    ensures Obj(DenoteMembers(RedactedMembers(redact, members))) == MapStrings(redact, Obj(DenoteMembers(members)))
    decreases members, 2
  {
    RedactionDenotes(redact, members.doc);
    var name := Decode(members.name.body);
    if members.Member? {
      MembersDenote(redact, members.others);
      MapStringsField(redact, name, Denote(members.doc), DenoteMembers(members.others));
    } else {
      MapStringsField(redact, name, Denote(members.doc), map[]);
    }
  }

  lemma MapStringsFirst(redact: string -> string, first: Json, others: seq<Json>)
    ensures MapStrings(redact, Arr([first] + others)) == Arr([MapStrings(redact, first)] + MapStrings(redact, Arr(others)).items)
  {
  }

  lemma MapStringsField(redact: string -> string, name: string, value: Json, others: map<string, Json>)
    ensures MapStrings(redact, Obj(map[name := value] + others)) ==
            Obj(map[name := MapStrings(redact, value)] + MapStrings(redact, Obj(others)).fields)
  {
  }
}
