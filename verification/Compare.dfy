/** Comparing two responses, and the verdict on a replayed exchange (internal/diff). */
module Compare {
  import opened Strings
  import opened Json
  import opened Recording
  import opened Locations
  import opened JsonChanges
  import opened BodyDiff
  import opened UniqueNames
  import JsonText

  // ----- Headers -----

  function HeaderName(name: string): string {
    HeaderLocation(name).path
  }

  /** The order in which normalizeHeaders visits names: by normalized name, then as written. */
  predicate HeaderLess(a: string, b: string) {
    if HeaderName(a) == HeaderName(b) then Less(a, b) else Less(HeaderName(a), HeaderName(b))
  }

  lemma HeaderLessIsStrictTotal()
    ensures StrictTotal(HeaderLess)
  {
    forall a ensures !HeaderLess(a, a) { LessIrreflexive(a); }
    forall a, b, c | HeaderLess(a, b) && HeaderLess(b, c) ensures HeaderLess(a, c) { HeaderLessTransitive(a, b, c); }
    forall a, b ensures a == b || HeaderLess(a, b) || HeaderLess(b, a) {
      LessTotal(HeaderName(a), HeaderName(b));
      LessTotal(a, b);
    }
  }

  lemma HeaderLessTransitive(a: string, b: string, c: string)
    requires HeaderLess(a, b) && HeaderLess(b, c)
    ensures HeaderLess(a, c)
  {
    var x, y, z := HeaderName(a), HeaderName(b), HeaderName(c);
    LessIrreflexive(x);
    if x == y && y == z {
      LessTransitive(a, b, c);
    } else if x != y && y != z {
      LessTransitive(x, y, z);
      if x == z { LessTransitive(x, y, x); }
    }
  }

  /** The values of several spellings of one name, joined in that order. */
  function Gather(headers: Header, names: seq<string>): seq<string>
    requires forall n :: n in names ==> n in headers
  {
    if names == [] then [] else
      assert forall n :: n in names[..|names| - 1] ==> n in names;
      assert names[|names| - 1] in names;
      Gather(headers, names[..|names| - 1]) + headers[names[|names| - 1]]
  }

  ghost function Spellings(headers: Header, name: string): set<string> {
    set k | k in headers && HeaderName(k) == name
  }

  ghost function SpellingsInOrder(headers: Header, name: string): (r: seq<string>)
    ensures forall n :: n in r <==> n in Spellings(headers, name)
  {
    SortedKeysMembers(Spellings(headers, name));
    SortedKeys(Spellings(headers, name))
  }

  /** Header names without regard to case: all values of all spellings, spellings in byte order. */
  ghost function Normalized(headers: Header): Header {
    map n | n in (set k | k in headers :: HeaderName(k)) :: Gather(headers, SpellingsInOrder(headers, n))
  }

  /** Of a list of names, those that normalize to `name`. */
  function Select(names: seq<string>, name: string): (r: seq<string>)
    ensures forall n :: n in r <==> n in names && HeaderName(n) == name
  {
    if names == [] then [] else
      var last := names[|names| - 1];
      var front := Select(names[..|names| - 1], name);
      assert names == names[..|names| - 1] + [last];
      if HeaderName(last) == name then front + [last] else front
  }

  lemma {:induction false} SelectAscends(names: seq<string>, name: string)
    requires Ascending(HeaderLess, names)
    ensures Ascending(Less, Select(names, name))
  {
    if names != [] {
      var front, last := names[..|names| - 1], names[|names| - 1];
      SelectAscends(front, name);
      forall n | n in Select(front, name) ensures HeaderName(last) == name ==> Less(n, last) {
        var i :| 0 <= i < |front| && front[i] == n;
        assert HeaderLess(names[i], names[|names| - 1]);
      }
    }
  }

  method SortHeaderNames(headers: Header) returns (names: seq<string>)
    ensures Ascending(HeaderLess, names) && forall n :: n in names <==> n in headers
  {
    var visited := RangeKeys(headers.Keys);
    names := Sort(HeaderLess, visited);
    HeaderLessIsStrictTotal();
    SortAscends(HeaderLess, visited);
  }

  lemma SelectIsSpellings(headers: Header, names: seq<string>, name: string)
    requires Ascending(HeaderLess, names) && forall n :: n in names <==> n in headers
    ensures Select(names, name) == SpellingsInOrder(headers, name)
  {
    SelectAscends(names, name);
    AscendingKeys(Spellings(headers, name), Select(names, name));
  }

  lemma AscendingKeys(keys: set<string>, s: seq<string>)
    requires Ascending(Less, s) && forall k :: k in s <==> k in keys
    ensures s == SortedKeys(keys)
  {
    LessIsStrictTotal();
    SortedKeysAscend(keys);
    SortedKeysMembers(keys);
    AscendingIsUnique(Less, s, SortedKeys(keys));
  }

  lemma SelectStep(names: seq<string>, i: nat, name: string)
    requires i < |names|
    ensures Select(names[..i + 1], name) == if HeaderName(names[i]) == name then Select(names[..i], name) + [names[i]] else Select(names[..i], name)
  {
    assert names[..i + 1][..i] == names[..i];
  }

  lemma GatherStep(headers: Header, names: seq<string>, last: string)
    requires last in headers && forall n :: n in names ==> n in headers
    ensures forall n :: n in names + [last] ==> n in headers
    ensures Gather(headers, names + [last]) == Gather(headers, names) + headers[last]
  {
    assert (names + [last])[..|names|] == names;
  }

  /** After `names` have been visited, each spelling's values are filed under its normalized name. */
  ghost predicate Filed(headers: Header, names: seq<string>, normalized: Header)
    requires forall n :: n in names ==> n in headers
  {
    forall n :: (n in normalized <==> Select(names, n) != []) && (n in normalized ==> normalized[n] == Gather(headers, Select(names, n)))
  }

  method NormalizeHeaders(headers: Header) returns (normalized: Header)
    ensures normalized == Normalized(headers)
  {
    var names := SortHeaderNames(headers);
    normalized := map[];
    for i := 0 to |names|
      invariant Filed(headers, names[..i], normalized)
    {
      var name := HeaderName(names[i]);
      var earlier := if name in normalized then normalized[name] else [];
      ghost var before := normalized;
      normalized := normalized[name := earlier + headers[names[i]]];
      FileStep(headers, names, i, before, normalized);
    }
    assert names[..|names|] == names;
    forall n ensures Select(names, n) == SpellingsInOrder(headers, n) { SelectIsSpellings(headers, names, n); }
    FiledIsNormalized(headers, names, normalized);
  }

  lemma FileStep(headers: Header, names: seq<string>, i: nat, before: Header, after: Header)
    requires i < |names| && forall n :: n in names ==> n in headers
    requires Filed(headers, names[..i], before)
    requires var name := HeaderName(names[i]);
             after == before[name := (if name in before then before[name] else []) + headers[names[i]]]
    ensures Filed(headers, names[..i + 1], after)
  {
    forall n ensures (n in after <==> Select(names[..i + 1], n) != []) && (n in after ==> after[n] == Gather(headers, Select(names[..i + 1], n))) {
      SelectStep(names, i, n);
      assert n in before <==> Select(names[..i], n) != [];
      if n == HeaderName(names[i]) { GatherStep(headers, Select(names[..i], n), names[i]); }
    }
  }

  lemma FiledIsNormalized(headers: Header, names: seq<string>, normalized: Header)
    requires forall n :: n in names <==> n in headers
    requires forall n :: Select(names, n) == SpellingsInOrder(headers, n)
    requires Filed(headers, names, normalized)
    ensures normalized == Normalized(headers)
  {
    NormalizedIsFiled(headers, names);
    FiledInOneWay(headers, names, normalized, Normalized(headers));
  }

  lemma NormalizedIsFiled(headers: Header, names: seq<string>)
    requires forall n :: n in names <==> n in headers
    requires forall n :: Select(names, n) == SpellingsInOrder(headers, n)
    ensures Filed(headers, names, Normalized(headers))
  {
    forall n ensures n in Normalized(headers) <==> Select(names, n) != [] { FiledName(headers, names, n); }
  }

  lemma FiledInOneWay(headers: Header, names: seq<string>, a: Header, b: Header)
    requires forall n :: n in names ==> n in headers
    requires Filed(headers, names, a) && Filed(headers, names, b)
    ensures a == b
  {
    forall n ensures n in a <==> n in b { assert n in a <==> Select(names, n) != []; }
  }

  lemma FiledName(headers: Header, names: seq<string>, name: string)
    requires forall n :: n in names <==> n in headers
    ensures Select(names, name) != [] <==> name in Normalized(headers)
  {
    if Select(names, name) != [] {
      var k := Select(names, name)[0];
      assert k in Select(names, name);
    }
    if k :| k in headers && HeaderName(k) == name {
      assert k in Select(names, name);
    }
  }

  /** What one header name adds to the report. */
  function HeaderChange(rules: Rules, b: Header, c: Header, name: string): seq<Difference> {
    var location := HeaderLocation(name);
    if Ignores(rules, location) then []
    else if name !in b && name in c then [Difference(HeaderAdded, location, Missing, OfHeader(c[name]))]
    else if name in b && name !in c then [Difference(HeaderRemoved, location, OfHeader(b[name]), Missing)]
    else if name in b && name in c && b[name] != c[name] then [Difference(HeaderChanged, location, OfHeader(b[name]), OfHeader(c[name]))]
    else []
  }

  function HeaderChanges(rules: Rules, b: Header, c: Header, names: seq<string>): seq<Difference> {
    if names == [] then [] else
    HeaderChanges(rules, b, c, names[..|names| - 1]) + HeaderChange(rules, b, c, names[|names| - 1])
  }

  /** Every name that is not ignored has the same values, in the same order, on both sides. */
  ghost predicate HeadersAgree(rules: Rules, b: Header, c: Header) {
    forall n :: NameAgrees(rules, b, c, n)
  }

  predicate NameAgrees(rules: Rules, b: Header, c: Header, name: string) {
    Ignores(rules, HeaderLocation(name)) || (name in b && name in c && b[name] == c[name]) || (name !in b && name !in c)
  }

  lemma {:induction false} HeaderChangesEmpty(rules: Rules, b: Header, c: Header, names: seq<string>)
    ensures HeaderChanges(rules, b, c, names) == [] <==> forall n :: n in names ==> HeaderChange(rules, b, c, n) == []
  {
    if names != [] {
      HeaderChangesEmpty(rules, b, c, names[..|names| - 1]);
      assert names == names[..|names| - 1] + [names[|names| - 1]];
    }
  }

  lemma HeaderChangesStep(rules: Rules, b: Header, c: Header, names: seq<string>, i: nat)
    requires i < |names|
    ensures HeaderChanges(rules, b, c, names[..i + 1]) == HeaderChanges(rules, b, c, names[..i]) + HeaderChange(rules, b, c, names[i])
  {
    assert names[..i + 1][..i] == names[..i];
  }

  lemma NoHeaderChanges(rules: Rules, b: Header, c: Header, names: seq<string>)
    requires forall n :: n in names <==> n in b || n in c
    ensures HeaderChanges(rules, b, c, names) == [] <==> HeadersAgree(rules, b, c)
  {
    HeaderChangesEmpty(rules, b, c, names);
    forall n ensures HeaderChange(rules, b, c, n) == [] <==> NameAgrees(rules, b, c, n) { }
  }

  /** The report for two sets of headers: names in order, whatever order their maps are visited in. */
  ghost function HeaderReport(rules: Rules, b: Header, c: Header): seq<Difference> {
    HeaderChanges(rules, Normalized(b), Normalized(c), SortedKeys(Normalized(b).Keys + Normalized(c).Keys))
  }

  ghost predicate SameHeaders(rules: Rules, b: Header, c: Header) {
    HeadersAgree(rules, Normalized(b), Normalized(c))
  }

  method CompareHeaders(baseline: Header, current: Header, rules: Rules) returns (differences: seq<Difference>)
    ensures differences == HeaderReport(rules, baseline, current)
    ensures differences == [] <==> SameHeaders(rules, baseline, current)
  {
    var b := NormalizeHeaders(baseline);
    var c := NormalizeHeaders(current);
    var names := SortKeys(b.Keys + c.Keys);
    differences := CompareNames(b, c, names, rules);
    NoHeaderChanges(rules, b, c, names);
  }

  method CompareNames(b: Header, c: Header, names: seq<string>, rules: Rules) returns (differences: seq<Difference>)
    ensures differences == HeaderChanges(rules, b, c, names)
  {
    differences := [];
    for i := 0 to |names|
      invariant differences == HeaderChanges(rules, b, c, names[..i])
    {
      var name := names[i];
      var location := HeaderLocation(name);
      HeaderChangesStep(rules, b, c, names, i);
      if Ignores(rules, location) {
        continue;
      }
      if name !in b && name in c {
        differences := differences + [Difference(HeaderAdded, location, Missing, OfHeader(c[name]))];
      } else if name in b && name !in c {
        differences := differences + [Difference(HeaderRemoved, location, OfHeader(b[name]), Missing)];
      } else if name in b && name in c && b[name] != c[name] {
        differences := differences + [Difference(HeaderChanged, location, OfHeader(b[name]), OfHeader(c[name]))];
      }
    }
    assert names[..|names|] == names;
  }

  /** What the report says of one name: kind and sides are those of the two headers, and there is something to say. */
  ghost predicate SaysOfHeader(rules: Rules, b: Header, c: Header, name: string, d: Difference) {
    && d.location == HeaderLocation(name) && !Ignores(rules, d.location)
    && (if name in b then d.before == OfHeader(b[name]) else d.before == Missing)
    && (if name in c then d.after == OfHeader(c[name]) else d.after == Missing)
    && (d.kind == HeaderAdded <==> name !in b && name in c)
    && (d.kind == HeaderRemoved <==> name in b && name !in c)
    && (d.kind == HeaderChanged <==> name in b && name in c && b[name] != c[name])
    && (d.kind == HeaderAdded || d.kind == HeaderRemoved || d.kind == HeaderChanged)
  }

  /** Each name that is not ignored and differs has exactly its difference in the report, and there are no others. */
  lemma {:induction false} HeaderReportIs(rules: Rules, b: Header, c: Header, names: seq<string>, d: Difference)
    requires forall n :: n in names ==> n in b || n in c
    ensures d in HeaderChanges(rules, b, c, names) <==> exists n :: n in names && SaysOfHeader(rules, b, c, n, d)
  {
    if names != [] {
      var front, last := names[..|names| - 1], names[|names| - 1];
      SnocMembers(names);
      HeaderReportIs(rules, b, c, front, d);
      HeaderChangeIs(rules, b, c, last, d);
    }
  }

  lemma HeaderChangeIs(rules: Rules, b: Header, c: Header, name: string, d: Difference)
    requires name in b || name in c
    ensures d in HeaderChange(rules, b, c, name) <==> SaysOfHeader(rules, b, c, name, d)
  {
  }

  /** Two spellings of one name: their values follow each other in the byte order of the spellings. */
  lemma TwoSpellings(headers: Header, first: string, second: string)
    requires Spellings(headers, HeaderName(first)) == {first, second} && Less(first, second)
    ensures HeaderName(first) in Normalized(headers) && Normalized(headers)[HeaderName(first)] == headers[first] + headers[second]
  {
    assert first in Spellings(headers, HeaderName(first)) && second in Spellings(headers, HeaderName(first));
    AscendingKeys({first, second}, [first, second]);
    GatherTwo(headers, first, second);
  }

  lemma GatherTwo(headers: Header, first: string, second: string)
    requires first in headers && second in headers
    ensures Gather(headers, [first, second]) == headers[first] + headers[second]
  {
    assert [first, second] == [first] + [second] && [first] == [] + [first];
    GatherStep(headers, [], first);
    GatherStep(headers, [first], second);
    assert [] + headers[first] == headers[first];
  }

  /** A single spelling keeps its values. */
  lemma OneSpelling(headers: Header, name: string)
    requires Spellings(headers, HeaderName(name)) == {name}
    ensures HeaderName(name) in Normalized(headers) && Normalized(headers)[HeaderName(name)] == headers[name]
  {
    assert name in Spellings(headers, HeaderName(name));
    AscendingKeys({name}, [name]);
    assert [name][..0] == [];
    assert Gather(headers, [name]) == [] + headers[name];
  }

  // ----- Bodies -----

  datatype Side = Baseline | Current

  datatype Failure =
    | ReplayFailed(message: string)
    | NoResponse
    | BodyUnavailable(side: Side, withheld: bool, capturedSize: int, observedSize: int, truncated: bool, complete: bool)

  predicate Comparable(r: Response) {
    !r.truncated && r.complete
  }

  /** The failure carries the side, its sizes and its flags; an incomplete marker body is one that redaction withheld. */
  predicate Describes(failure: Failure, side: Side, response: Response) {
    && failure.BodyUnavailable? && failure.side == side
    && failure.capturedSize == |response.body| && failure.observedSize == response.observedSize
    && failure.truncated == response.truncated && failure.complete == response.complete
    && (failure.withheld <==> !response.complete && response.body == WITHHELD)
  }

  method EnsureComparableBody(side: Side, response: Response) returns (failure: Option<Failure>)
    ensures failure.None? <==> Comparable(response)
    ensures failure.Some? ==> Describes(failure.value, side, response) && (failure.value.truncated || !failure.value.complete)
  {
    if !response.truncated && response.complete {
      return None;
    }
    return Some(BodyUnavailable(side, !response.complete && response.body == WITHHELD, |response.body|, response.observedSize,
                                response.truncated, response.complete));
  }

  /** Two complete bodies agree: as JSON outside ignored pointers when both are JSON, byte for byte otherwise. */
  ghost predicate BodiesAgree(lib: Library, rules: Rules, b: Bytes, c: Bytes) {
    match (lib.decodeJson(b), lib.decodeJson(c))
    case (Some(x), Some(y)) => EqualOutside(rules, [], x, y)
    case _ => b == c
  }

  /** The differences of two available bodies: of JSON bodies pruned, of other bodies one, with size and digest of either side. */
  ghost function AvailableReport(lib: Library, rules: Rules, b: Bytes, c: Bytes): seq<Difference> {
    match (lib.decodeJson(b), lib.decodeJson(c))
    case (Some(x), Some(y)) => Kept(rules, [], TreeDiff(x, y))
    case _ => if b == c then [] else [Difference(BodyChanged, BodyLocation(""), Snapshot(lib, b), Snapshot(lib, c))]
  }

  function Snapshot(lib: Library, body: Bytes): Value {
    OfBody(|body|, Digest(lib, body))
  }

  /** The differences that bodies add to the report: none when they are ignored, or not available on both sides. */
  ghost function BodyReport(lib: Library, rules: Rules, b: Response, c: Response): seq<Difference> {
    if BodyIgnored(rules) || !Comparable(b) || !Comparable(c) then [] else AvailableReport(lib, rules, b.body, c.body)
  }

  method CompareBody(baseline: Response, current: Response, rules: Rules, lib: Library)
    returns (differences: seq<Difference>, failure: Option<Failure>)
    requires forall s :: lib.jsonValid(s) <==> JsonText.Valid(s)
    ensures differences == BodyReport(lib, rules, baseline, current)
    ensures failure.None? <==> Conclusive(rules, baseline, current)
    ensures failure.Some? ==> if Comparable(baseline) then Describes(failure.value, Current, current) else Describes(failure.value, Baseline, baseline)
    ensures failure.None? && !BodyIgnored(rules) ==> (differences == [] <==> BodiesAgree(lib, rules, baseline.body, current.body))
  {
    var root := BodyLocation("");
    if Ignores(rules, root) {
      return [], None;
    }
    failure := EnsureComparableBody(Baseline, baseline);
    if failure.Some? {
      return [], failure;
    }
    failure := EnsureComparableBody(Current, current);
    if failure.Some? {
      return [], failure;
    }
    var baselineJson, currentJson := lib.decodeJson(baseline.body), lib.decodeJson(current.body);
    if baselineJson.Some? && currentJson.Some? {
      KeptEmptyIffEqualOutside(rules, [], baselineJson.value, currentJson.value);
    }
    if baseline.body == current.body {
      if baselineJson.Some? { SameJsonIsEmpty(rules, baselineJson.value); }
      return [], None;
    }
    if baselineJson.Some? && currentJson.Some? {
      differences := CompareJsonValues("", baselineJson.value, currentJson.value, rules, lib.jsonValid, []);
      return differences, None;
    }
    return [Difference(BodyChanged, root, Snapshot(lib, baseline.body), Snapshot(lib, current.body))], None;
  }

  function Digest(lib: Library, body: Bytes): seq<int> {
    var sum := lib.sha256(body);
    seq(|sum|, i requires 0 <= i < |sum| => sum[i] as int)
  }

  /** The byte-equality shortcut gives what the full comparison would give. */
  lemma SameJsonIsEmpty(rules: Rules, j: Json)
    ensures Kept(rules, [], TreeDiff(j, j)) == []
  {
    SemanticallyEqualReflexive(j);
    EmptyIffEqual(j, j);
  }

  // ----- What the texts say -----

  /** The body is UTF-8 and can be read as this document. */
  ghost predicate BodyReads(lib: Library, r: Response, d: JsonText.Doc) {
    lib.validUtf8(r.body) && JsonText.Reads(d, lib.text(r.body))
  }

  /** Two JSON bodies are compared by what the grammar says they denote. */
  lemma TextsAreCompared(lib: Library, rules: Rules, b: Response, c: Response, x: JsonText.Doc, y: JsonText.Doc)
    requires lib.ReadsJson() && BodyReads(lib, b, x) && BodyReads(lib, c, y)
    requires Comparable(b) && Comparable(c) && !BodyIgnored(rules)
    ensures BodyReport(lib, rules, b, c) == Kept(rules, [], TreeDiff(JsonText.Denote(x), JsonText.Denote(y)))
  {
    DecodesTo(lib, b.body, x);
    DecodesTo(lib, c.body, y);
    ReportOfJson(lib, rules, b, c, JsonText.Denote(x), JsonText.Denote(y));
  }

  lemma ReportOfJson(lib: Library, rules: Rules, b: Response, c: Response, x: Json, y: Json)
    requires Comparable(b) && Comparable(c) && !BodyIgnored(rules)
    requires lib.decodeJson(b.body) == Some(x) && lib.decodeJson(c.body) == Some(y)
    ensures BodyReport(lib, rules, b, c) == Kept(rules, [], TreeDiff(x, y))
  {
  }

  /**
    If the baseline gives every name one value, an empty report covers all its text: whatever it says anywhere,
    the current body says too. NothingIsLost shows that without this condition decoding has lost something.
   */
  lemma AgreementCoversText(lib: Library, b: Response, c: Response, x: JsonText.Doc, y: JsonText.Doc, path: Tokens, value: Json)
    returns (other: Json)
    requires lib.ReadsJson() && BodyReads(lib, b, x) && BodyReads(lib, c, y) && Comparable(b) && Comparable(c)
    requires OneValue(x.node) && BodyReport(lib, Rules([]), b, c) == []
    requires Says(x.node, path, value)
    ensures Says(y.node, path, other) && SemanticallyEqual(value, other)
  {
    TextsAreCompared(lib, Rules([]), b, c, x, y);
    NoRulesKeepAll(JsonText.Denote(x), JsonText.Denote(y));
    SaidIsHeld(x.node, path, value);
    EqualEverywhere(JsonText.Denote(x), JsonText.Denote(y), path);
    other := Get(JsonText.Denote(y), path).value;
    HeldIsSaid(y.node, path, other);
  }

  /** With a conflict it does not: `{"a":null,"a":true}` and `{"a":true}` compare as equal under any rules. */
  lemma ConflictGoesUnnoticed(lib: Library, rules: Rules, b: Response, c: Response)
    requires lib.Faithful() && Comparable(b) && Comparable(c)
    requires b.body == lib.bytes("{\"a\":null,\"a\":true}") && c.body == lib.bytes("{\"a\":true}")
    ensures BodyReport(lib, rules, b, c) == []
    ensures exists x, y :: BodyReads(lib, b, x) && BodyReads(lib, c, y) && Says(x.node, ["a"], Null) && !Says(y.node, ["a"], Null)
  {
    var no, yes := JsonText.Word("null"), JsonText.Word("true");
    var x, y := TwiceA(no, yes), OnceA(yes);
    ConflictReads();
    assert BodyReads(lib, b, x) && BodyReads(lib, c, y);
    if !BodyIgnored(rules) {
      TextsAreCompared(lib, rules, b, c, x, y);
      SameJsonIsEmpty(rules, JsonText.Denote(y));
    }
  }

  lemma ConflictReads()
    ensures var no, yes := JsonText.Word("null"), JsonText.Word("true");
            && JsonText.Reads(TwiceA(no, yes), "{\"a\":null,\"a\":true}") && JsonText.Reads(OnceA(yes), "{\"a\":true}")
            && JsonText.Denote(TwiceA(no, yes)) == JsonText.Denote(OnceA(yes))
            && Says(TwiceA(no, yes).node, ["a"], Null) && !Says(OnceA(yes).node, ["a"], Null)
  {
    var no, yes := JsonText.Word("null"), JsonText.Word("true");
    RepeatedNames(no, yes);
    OneNameReads(yes);
    ConflictSpelled();
    if Says(OnceA(yes).node, ["a"], Null) { SaidIsHeld(OnceA(yes).node, ["a"], Null); }
  }

  lemma ConflictSpelled()
    ensures "{" + ("\"a\":" + "null" + "," + ("\"a\":" + "true")) + "}" == "{\"a\":null,\"a\":true}"
    ensures "{" + ("\"a\":" + "true") + "}" == "{\"a\":true}"
  {
  }

  // ----- The comparison and the verdict -----

  method CompareStatus(baseline: int, current: int, rules: Rules) returns (differences: seq<Difference>)
    ensures differences == [] <==> Ignores(rules, StatusLocation()) || baseline == current
    ensures differences != [] ==> differences == [Difference(StatusChanged, StatusLocation(), OfStatus(baseline), OfStatus(current))]
  {
    var location := StatusLocation();
    if Ignores(rules, location) {
      return [];
    }
    if baseline == current {
      return [];
    }
    return [Difference(StatusChanged, location, OfStatus(baseline), OfStatus(current))];
  }

  ghost predicate StatusAgrees(rules: Rules, b: Response, c: Response) {
    Ignores(rules, StatusLocation()) || b.statusCode == c.statusCode
  }

  ghost predicate BodyIgnored(rules: Rules) {
    Ignores(rules, BodyLocation(""))
  }

  /** The behaviour the rules do not exclude is the same. */
  ghost predicate Agree(lib: Library, rules: Rules, b: Response, c: Response) {
    && StatusAgrees(rules, b, c)
    && SameHeaders(rules, b.headers, c.headers)
    && (BodyIgnored(rules) || BodiesAgree(lib, rules, b.body, c.body))
  }

  ghost predicate Conclusive(rules: Rules, b: Response, c: Response) {
    BodyIgnored(rules) || (Comparable(b) && Comparable(c))
  }

  ghost function StatusReport(rules: Rules, b: Response, c: Response): seq<Difference> {
    if StatusAgrees(rules, b, c) then [] else [Difference(StatusChanged, StatusLocation(), OfStatus(b.statusCode), OfStatus(c.statusCode))]
  }

  /** The whole report: the status first, then the headers by name, then the body in its own order. */
  ghost function Report(lib: Library, rules: Rules, b: Response, c: Response): seq<Difference> {
    StatusReport(rules, b, c) + HeaderReport(rules, b.headers, c.headers) + BodyReport(lib, rules, b, c)
  }

  method CompareResponses(baseline: Response, current: Response, rules: Rules, lib: Library)
    returns (differences: seq<Difference>, failure: Option<Failure>)
    requires forall s :: lib.jsonValid(s) <==> JsonText.Valid(s)
    ensures differences == Report(lib, rules, baseline, current)
    ensures failure.None? <==> Conclusive(rules, baseline, current)
    ensures failure.Some? ==> if Comparable(baseline) then Describes(failure.value, Current, current) else Describes(failure.value, Baseline, baseline)
    ensures failure.None? ==> (differences == [] <==> Agree(lib, rules, baseline, current))
    ensures failure.Some? ==> (differences == [] <==> StatusAgrees(rules, baseline, current)
                                                      && SameHeaders(rules, baseline.headers, current.headers))
  {
    var status := CompareStatus(baseline.statusCode, current.statusCode, rules);
    var headers := CompareHeaders(baseline.headers, current.headers, rules);
    var body;
    body, failure := CompareBody(baseline, current, rules, lib);
    differences := status + headers + body;
    NothingOfThree(status, headers, body);
  }

  lemma NothingOfThree(a: seq<Difference>, b: seq<Difference>, c: seq<Difference>)
    ensures a + b + c == [] <==> a == [] && b == [] && c == []
  {
    assert |a + b + c| == |a| + |b| + |c|;
  }

  /** A replay: it may have failed before, or after, a response arrived. */
  datatype Execution = Execution(response: Option<Response>, error: Option<string>)

  datatype Outcome = Equivalent | Changed | Failed

  datatype ExchangeResult = ExchangeResult(differences: seq<Difference>, failure: Option<Failure>) {
    function Outcome(): Outcome {
      if failure.Some? then Failed else if differences == [] then Equivalent else Changed
    }
  }

  /** The verdict is exactly what the outcome names promise. */
  method CompareExecution(baseline: Response, execution: Execution, rules: Rules, lib: Library) returns (result: ExchangeResult)
    requires forall s :: lib.jsonValid(s) <==> JsonText.Valid(s)
    ensures result.Outcome() == Failed <==>
            execution.response.None? || execution.error.Some? || !Conclusive(rules, baseline, execution.response.value)
    ensures result.Outcome() == Equivalent <==>
            && execution.response.Some? && execution.error.None?
            && Conclusive(rules, baseline, execution.response.value)
            && Agree(lib, rules, baseline, execution.response.value)
    ensures result.differences == if execution.response.Some? then Report(lib, rules, baseline, execution.response.value) else []
    ensures execution.error.Some? ==> result.failure == Some(ReplayFailed(execution.error.value))
    ensures execution.error.None? && execution.response.Some? && result.failure.Some? ==>
              if Comparable(baseline) then Describes(result.failure.value, Current, execution.response.value)
              else Describes(result.failure.value, Baseline, baseline)
    ensures execution.error.None? && execution.response.None? ==> result.failure == Some(NoResponse)
  {
    if execution.response.None? {
      var failure := if execution.error.Some? then ReplayFailed(execution.error.value) else NoResponse;
      return ExchangeResult([], Some(failure));
    }
    var differences, comparisonFailure := CompareResponses(baseline, execution.response.value, rules, lib);
    if execution.error.Some? {
      return ExchangeResult(differences, Some(ReplayFailed(execution.error.value)));
    }
    return ExchangeResult(differences, comparisonFailure);
  }
}
