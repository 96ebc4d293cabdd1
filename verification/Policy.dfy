/** The redaction policy: its application to bodies, its inference from recorded markers, and the stored sizes. */
module Policy {
  import opened Strings
  import opened Json
  import opened Recording
  import opened Pointers
  import opened Rewrite
  import opened Sanitize
  import opened Redaction
  import opened JsonChanges
  import opened BodyDiff
  import opened Locations

  /** sanitize.Rules. */
  datatype Policy = Policy(headers: seq<string>, json: seq<string>, query: seq<string>, form: seq<string>)

  /** http.Header.Get under a canonical name. */
  function GetHeader(headers: Header, name: string): string {
    if name in headers && headers[name] != [] then headers[name][0] else ""
  }

  /** Only the first value of a header counts, and an absent header has the empty value. */
  lemma FirstValueCounts(headers: Header, name: string, value: string, others: seq<string>)
    ensures GetHeader(headers[name := [value] + others], name) == value
    ensures GetHeader(headers[name := []], name) == "" && (name !in headers ==> GetHeader(headers, name) == "")
  {
  }

  /** The JSON media types. */
  lemma JsonKinds(kind: string)
    ensures IsJsonKind(kind) <==> kind == "application/json" || exists front :: kind == front + "+json"
  {
    if front :| kind == front + "+json" { SuffixIs(kind, front, "+json"); }
    if HasSuffix(kind, "+json") { SuffixIs(kind, kind[..|kind| - 5], "+json"); }
  }

  predicate IsJsonKind(kind: string) {
    kind == "application/json" || HasSuffix(kind, "+json")
  }

  predicate IsFormKind(kind: string) {
    kind == "application/x-www-form-urlencoded"
  }

  function MediaKind(lib: Library, headers: Header): string {
    lib.mediaType(GetHeader(headers, "Content-Type")).0
  }

  function Redactions(paths: seq<string>): map<string, string> {
    map p | p in paths :: MARKER
  }

  // ----- Rules.Body -----

  predicate BodyRules(policy: Policy) {
    policy.json != [] || policy.form != []
  }

  /** The body can be read at all: it is whole, and not compressed. */
  predicate Readable(headers: Header, complete: bool) {
    complete && GetHeader(headers, "Content-Encoding") == ""
  }

  /** What redaction makes of a body, given that the libraries are faithful where the body is read. */
  ghost predicate IsSanitized(lib: Library, policy: Policy, body: Bytes, headers: Header, complete: bool, result: Bytes) {
    if body == [] || !BodyRules(policy) then result == body
    else if !Readable(headers, complete) then result == WITHHELD
    else lib.Faithful() ==>
           var kind := MediaKind(lib, headers);
           if IsJsonKind(kind) then
             if policy.json == [] then result == body
             else if !CanReplace(lib, body, Redactions(policy.json), false) then result == WITHHELD
             else lib.strictJson(result) && lib.decodeJson(result) == Some(Rewritten(lib, body, Redactions(policy.json)))
           else if IsFormKind(kind) then
             if policy.form == [] then result == body
             else if !lib.validUtf8(body) || lib.parseQuery(lib.text(body)).None? then result == WITHHELD
             else lib.parseQuery(lib.text(result)) == Some(WithValues(lib.parseQuery(lib.text(body)).value, Redactions(policy.form)))
           else result == WITHHELD
  }

  /** Every JSON rule of the policy leads nowhere in the value, or to the marker. */
  ghost predicate JsonIsProtected(policy: Policy, j: Json) {
    forall p :: p in policy.json ==> IsPointer(p) && (Get(j, TokensOf(p)) == None || Get(j, TokensOf(p)) == Some(Str(MARKER)))
  }

  /** Every value under a form rule of the policy is the marker. */
  ghost predicate FormIsProtected(policy: Policy, form: Form) {
    forall k, i :: k in policy.form && k in form && 0 <= i < |form[k]| ==> form[k][i] == MARKER
  }

  /** Nothing that the policy protects can be read from what is kept of a body. */
  ghost predicate Protected(lib: Library, policy: Policy, headers: Header, kept: Bytes) {
    || kept == [] || kept == WITHHELD
    || var kind := MediaKind(lib, headers);
       if kind == "application/json" || HasSuffix(kind, "+json") then
         policy.json == [] || (lib.decodeJson(kept).Some? && JsonIsProtected(policy, lib.decodeJson(kept).value))
       else
         && kind == "application/x-www-form-urlencoded"
         && (policy.form == [] || (lib.parseQuery(lib.text(kept)).Some? && FormIsProtected(policy, lib.parseQuery(lib.text(kept)).value)))
  }

  /** A body with rules for it is never kept with a protected field in it, nor when its fields cannot be told. */
  lemma SanitizedIsProtected(lib: Library, policy: Policy, body: Bytes, headers: Header, complete: bool, result: Bytes)
    requires lib.Faithful() && BodyRules(policy) && IsSanitized(lib, policy, body, headers, complete, result)
    ensures Protected(lib, policy, headers, result)
  {
    var kind := MediaKind(lib, headers);
    if body != [] && Readable(headers, complete) && IsJsonKind(kind) && CanReplace(lib, body, Redactions(policy.json), false) {
      forall p | p in policy.json
        ensures IsPointer(p) && Get(Rewritten(lib, body, Redactions(policy.json)), TokensOf(p)) in {None, Some(Str(MARKER))}
      {
        assert p in Redactions(policy.json);
        RedactedFieldsAreHidden(lib, body, policy.json, p);
      }
    }
  }

  /** Redaction of a body; whatever cannot be redacted safely is withheld as a whole. */
  method SanitizeBody(lib: Library, policy: Policy, body: Bytes, headers: Header, complete: bool) returns (result: Bytes)
    ensures IsSanitized(lib, policy, body, headers, complete, result)
    ensures lib.Faithful() && BodyRules(policy) ==> Protected(lib, policy, headers, result)
  {
    result := RedactBody(lib, policy, body, headers, complete);
    if lib.Faithful() && BodyRules(policy) { SanitizedIsProtected(lib, policy, body, headers, complete, result); }
  }

  method RedactBody(lib: Library, policy: Policy, body: Bytes, headers: Header, complete: bool) returns (result: Bytes)
    ensures IsSanitized(lib, policy, body, headers, complete, result)
  {
    if body == [] || (policy.json == [] && policy.form == []) {
      return body;
    }
    if !complete || GetHeader(headers, "Content-Encoding") != "" {
      return WITHHELD;
    }
    var kind := lib.mediaType(GetHeader(headers, "Content-Type")).0;
    if kind == "application/json" || HasSuffix(kind, "+json") {
      if policy.json == [] {
        return body;
      }
      var rewritten := ReplaceJsonBody(lib, body, Redactions(policy.json), false);
      if rewritten.Err? {
        return WITHHELD;
      }
      return rewritten.value;
    }
    if kind == "application/x-www-form-urlencoded" {
      if policy.form == [] {
        return body;
      }
      if !lib.validUtf8(body) {
        return WITHHELD;
      }
      var encoded := ReplaceValues(lib, lib.text(body), Redactions(policy.form), false);
      if encoded.Err? {
        return WITHHELD;
      }
      WithValuesKeepsShape(lib.parseQuery(lib.text(body)).value, Redactions(policy.form));
      return lib.bytes(encoded.value);
    }
    return WITHHELD;
  }

  /** A redacted JSON body hides every listed field: it is gone, or it reads as the marker. */
  lemma RedactedFieldsAreHidden(lib: Library, body: Bytes, paths: seq<string>, path: string)
    requires CanReplace(lib, body, Redactions(paths), false) && path in paths
    ensures Get(Rewritten(lib, body, Redactions(paths)), TokensOf(path)) in {None, Some(Str(MARKER))}
  {
    var values := Redactions(paths);
    AtTokensOfPath(values, values.Keys, path);
    ListedPathsAreCovered(lib.decodeJson(body).value, AtTokens(values, values.Keys), TokensOf(path));
  }

  /** Bodies that differ at redacted fields only are one body afterwards, so comparing them reports nothing. */
  lemma RedactionHidesDifferences(lib: Library, a: Bytes, b: Bytes, paths: seq<string>, rules: Rules)
    requires CanReplace(lib, a, Redactions(paths), false) && CanReplace(lib, b, Redactions(paths), false)
    requires SameOutside(lib.decodeJson(a).value, lib.decodeJson(b).value, AtTokens(Redactions(paths), Redactions(paths).Keys), [])
    ensures Rewritten(lib, a, Redactions(paths)) == Rewritten(lib, b, Redactions(paths))
    ensures Kept(rules, [], TreeDiff(Rewritten(lib, a, Redactions(paths)), Rewritten(lib, b, Redactions(paths)))) == []
  {
    var values := Redactions(paths);
    SubstIffSameOutside(lib.decodeJson(a).value, lib.decodeJson(b).value, AtTokens(values, values.Keys), []);
    SemanticallyEqualReflexive(Rewritten(lib, a, values));
    EmptyIffEqual(Rewritten(lib, a, values), Rewritten(lib, b, values));
  }

  // ----- Rules.URL and Rules.ApplyHeaders -----

  /** The query part of Rules.URL, for a URL that parses. */
  method SanitizeQuery(lib: Library, policy: Policy, rawQuery: string) returns (r: string)
    requires lib.Faithful()
    ensures policy.query == [] ==> r == rawQuery
    ensures policy.query != [] && lib.parseQuery(rawQuery).None? ==> QueryWithheld(lib, r)
    ensures policy.query != [] && lib.parseQuery(rawQuery).Some? ==>
              && lib.parseQuery(r) == Some(WithValues(lib.parseQuery(rawQuery).value, Redactions(policy.query)))
              && forall k, i :: k in policy.query && k in lib.parseQuery(r).value && 0 <= i < |lib.parseQuery(r).value[k]| ==>
                                  lib.parseQuery(r).value[k][i] == MARKER
  {
    if policy.query == [] {
      return rawQuery;
    }
    var query := ReplaceValues(lib, rawQuery, Redactions(policy.query), false);
    if query.Err? {
      return lib.encodeQuery(WITHHELD_QUERY);
    }
    WithValuesKeepsShape(lib.parseQuery(rawQuery).value, Redactions(policy.query));
    return query.value;
  }

  /** A header that is redacted: one of the standard credentials, or one the policy lists, whatever the case of its letters. */
  predicate Sensitive(policy: Policy, name: string) {
    Lower(name) in SENSITIVE || exists i :: 0 <= i < |policy.headers| && Lower(policy.headers[i]) == Lower(name)
  }

  /** Every value of a sensitive header is the marker; the others are as they were. */
  ghost predicate HeadersRedacted(policy: Policy, headers: Header, r: Header) {
    r.Keys == headers.Keys
    && forall n :: n in headers && n in r ==> ValuesRedacted(Sensitive(policy, n), headers[n], r[n])
  }

  predicate ValuesRedacted(sensitive: bool, values: seq<string>, r: seq<string>) {
    |r| == |values| && forall i :: 0 <= i < |r| ==> r[i] == if sensitive then MARKER else values[i]
  }

  method ApplyHeaders(policy: Policy, headers: Header) returns (r: Header)
    ensures HeadersRedacted(policy, headers, r)
  {
    r := map[];
    var names := RangeKeys(headers.Keys);
    for i := 0 to |names|
      invariant forall n :: n in r <==> n in names[..i]
      invariant forall n :: n in r && n in headers ==> ValuesRedacted(Sensitive(policy, n), headers[n], r[n])
    {
      var name := names[i];
      assert name in names && names[..i + 1] == names[..i] + [name];
      var sensitive := IsSensitive(policy, name);
      r := r[name := if sensitive then Repeat(MARKER, |headers[name]|) else headers[name]];
    }
    assert names[..|names|] == names;
  }

  method IsSensitive(policy: Policy, name: string) returns (sensitive: bool)
    ensures sensitive == Sensitive(policy, name)
  {
    if Lower(name) in SENSITIVE {
      return true;
    }
    for i := 0 to |policy.headers|
      invariant forall k :: 0 <= k < i ==> Lower(policy.headers[k]) != Lower(name)
    {
      if Lower(policy.headers[i]) == Lower(name) {
        return true;
      }
    }
    return false;
  }

  /** The standard credentials. */
  predicate IsCredential(lower: string) {
    lower == "authorization" || lower == "proxy-authorization" || lower == "cookie" || lower == "set-cookie"
  }

  /** They are sensitive under any policy, the listed names under this one, and nothing else is. */
  lemma CredentialsAreSensitive(policy: Policy, name: string)
    ensures Sensitive(policy, name) <==> IsCredential(Lower(name)) || exists h :: h in policy.headers && EqualFold(h, name)
  {
    forall h ensures EqualFold(h, name) <==> Lower(h) == Lower(name) { LowerFolds(h, name); }
    if h :| h in policy.headers && EqualFold(h, name) {
      var i :| 0 <= i < |policy.headers| && policy.headers[i] == h;
    }
    if i :| 0 <= i < |policy.headers| && Lower(policy.headers[i]) == Lower(name) {
      assert policy.headers[i] in policy.headers && EqualFold(policy.headers[i], name);
    }
  }

  // ----- Sizes -----

  /** Schema 1: no more is captured than observed, and a body is truncated exactly when less is. */
  predicate SizesFit(captured: int, observed: int, truncated: bool) {
    captured <= observed && (truncated <==> captured < observed)
  }

  /** CaptureBody: the bytes that were never captured stay as many as they were. */
  method CaptureBody(lib: Library, policy: Policy, body: Bytes, headers: Header, observed: int, truncated: bool, complete: bool)
    returns (sanitized: Bytes, newObserved: int, newComplete: bool)
    ensures SizesFit(|body|, observed, truncated) ==>
              && SizesFit(|sanitized|, newObserved, truncated)
              && newObserved - |sanitized| == observed - |body|
    ensures sanitized == body ==> newObserved == observed
    ensures sanitized != body && truncated ==> SizesFit(|sanitized|, newObserved, truncated)
    ensures newComplete <==> complete && !(sanitized == WITHHELD && BodyRules(policy) && body != [])
    ensures IsSanitized(lib, policy, body, headers, complete && !truncated, sanitized)
    ensures lib.Faithful() && BodyRules(policy) ==> Protected(lib, policy, headers, sanitized)
    ensures !BodyRules(policy) ==> sanitized == body
    ensures BodyRules(policy) && body != [] && (truncated || !complete || GetHeader(headers, "Content-Encoding") != "") ==>
              sanitized == WITHHELD && !newComplete
  {
    sanitized := SanitizeBody(lib, policy, body, headers, complete && !truncated);
    newObserved, newComplete := observed, complete;
    if sanitized == WITHHELD && (policy.json != [] || policy.form != []) && body != [] {
      newComplete := false;
    }
    if body != sanitized {
      var omitted := if observed - |body| > 0 then observed - |body| else 0;
      if truncated && omitted == 0 {
        omitted := 1;
      }
      newObserved := |sanitized| + omitted;
    }
  }

  datatype MetadataProblem = LengthMismatch | ObservedTooSmall | NotMarkedTruncated | FalselyTruncated

  /** validateBodyMetadata accepts exactly the sizes of schema 1. */
  method ValidateBodyMetadata(body: Bytes, observed: int, captured: int, truncated: bool) returns (problem: Option<MetadataProblem>)
    ensures problem == None <==> captured == |body| && SizesFit(captured, observed, truncated)
    ensures problem == Some(LengthMismatch) <==> captured != |body|
    ensures problem == Some(ObservedTooSmall) <==> captured == |body| && observed < captured
    ensures problem == Some(NotMarkedTruncated) <==> captured == |body| && observed > captured && !truncated
    ensures problem == Some(FalselyTruncated) <==> captured == |body| && observed == captured && truncated
  {
    if captured != |body| {
      return Some(LengthMismatch);
    }
    if observed < captured {
      return Some(ObservedTooSmall);
    }
    if observed > captured && !truncated {
      return Some(NotMarkedTruncated);
    }
    if observed == captured && truncated {
      return Some(FalselyTruncated);
    }
    return None;
  }

  // ----- Merge -----

  /** Capture-time and current rules together. */
  ghost function Merged(a: Policy, b: Policy): Policy {
    Policy(Union(a.headers, b.headers), Union(a.json, b.json), Union(a.query, b.query), Union(a.form, b.form))
  }

  ghost function Union(left: seq<string>, right: seq<string>): seq<string> {
    SortedKeys(Elems(left) + Elems(right))
  }

  method MergeNames(left: seq<string>, right: seq<string>) returns (combined: seq<string>)
    ensures combined == Union(left, right)
  {
    var seen: set<string> := {};
    for i := 0 to |left|
      invariant seen == Elems(left[..i])
    {
      assert left[..i + 1] == left[..i] + [left[i]];
      seen := seen + {left[i]};
    }
    assert left[..|left|] == left;
    for i := 0 to |right|
      invariant seen == Elems(left) + Elems(right[..i])
    {
      assert right[..i + 1] == right[..i] + [right[i]];
      seen := seen + {right[i]};
    }
    assert right[..|right|] == right;
    combined := SortKeys(seen);
  }

  /** The names of either list, once each and in order. */
  ghost predicate InEither(left: seq<string>, right: seq<string>, r: seq<string>) {
    Ascending(Less, r) && forall x :: x in r <==> x in left || x in right
  }

  method Merge(a: Policy, b: Policy) returns (r: Policy)
    ensures r == Merged(a, b)
    ensures InEither(a.headers, b.headers, r.headers) && InEither(a.json, b.json, r.json)
    ensures InEither(a.query, b.query, r.query) && InEither(a.form, b.form, r.form)
  {
    UnionIsEither(a.headers, b.headers);
    UnionIsEither(a.json, b.json);
    UnionIsEither(a.query, b.query);
    UnionIsEither(a.form, b.form);
    var headers := MergeNames(a.headers, b.headers);
    var json := MergeNames(a.json, b.json);
    var query := MergeNames(a.query, b.query);
    var form := MergeNames(a.form, b.form);
    return Policy(headers, json, query, form);
  }

  /** The order of merging does not show, and merging again adds nothing. */
  lemma MergeLaws(a: Policy, b: Policy, c: Policy)
    ensures Merged(a, b) == Merged(b, a)
    ensures Merged(Merged(a, b), c) == Merged(a, Merged(b, c))
    ensures Merged(Merged(a, b), a) == Merged(a, b)
  {
    UnionLaws(a.headers, b.headers, c.headers);
    UnionLaws(a.json, b.json, c.json);
    UnionLaws(a.query, b.query, c.query);
    UnionLaws(a.form, b.form, c.form);
  }

  lemma UnionMembers(left: seq<string>, right: seq<string>)
    ensures Elems(Union(left, right)) == Elems(left) + Elems(right)
    ensures forall x :: x in Union(left, right) <==> x in left || x in right
  {
    SortedKeysMembers(Elems(left) + Elems(right));
  }

  lemma UnionIsEither(left: seq<string>, right: seq<string>)
    ensures InEither(left, right, Union(left, right))
  {
    SortedKeysAscend(Elems(left) + Elems(right));
    UnionMembers(left, right);
  }

  lemma UnionLaws(a: seq<string>, b: seq<string>, c: seq<string>)
    ensures Union(a, b) == Union(b, a) && Union(Union(a, b), c) == Union(a, Union(b, c)) && Union(Union(a, b), a) == Union(a, b)
  {
    UnionMembers(a, b);
    UnionMembers(b, c);
    assert Elems(a) + Elems(b) == Elems(b) + Elems(a);
    assert (Elems(a) + Elems(b)) + Elems(c) == Elems(a) + (Elems(b) + Elems(c));
    assert (Elems(a) + Elems(b)) + Elems(a) == Elems(a) + Elems(b);
  }

  /** Neither policy can disable the other: what either lists is hidden under both. */
  lemma MergedPolicyHides(lib: Library, a: Policy, b: Policy, body: Bytes, path: string)
    requires CanReplace(lib, body, Redactions(Merged(a, b).json), false) && (path in a.json || path in b.json)
    ensures IsPointer(path) && Get(Rewritten(lib, body, Redactions(Merged(a, b).json)), TokensOf(path)) in {None, Some(Str(MARKER))}
  {
    UnionMembers(a.json, b.json);
    assert path in Redactions(Merged(a, b).json);
    RedactedFieldsAreHidden(lib, body, Merged(a, b).json, path);
  }

  // ----- Inference from recorded markers -----

  const SENSITIVE := {"authorization", "proxy-authorization", "cookie", "set-cookie"}

  /** The body is JSON that can be inspected, and `path` leads to a marker in it. */
  predicate MarkedInJson(lib: Library, headers: Header, body: Bytes, path: string) {
    IsJsonKind(MediaKind(lib, headers)) && lib.strictJson(body) && lib.decodeJson(body).Some? && Marked(lib.decodeJson(body).value, [], path)
  }

  predicate MarkedInForm(lib: Library, headers: Header, body: Bytes, key: string) {
    && !IsJsonKind(MediaKind(lib, headers)) && IsFormKind(MediaKind(lib, headers))
    && lib.parseQuery(lib.text(body)).Some? && HasMarkerAt(lib.parseQuery(lib.text(body)).value, key)
  }

  predicate HasMarkerAt(form: Form, key: string) {
    key in form && MARKER in form[key]
  }

  /** The sorted list of the earlier rules and the added ones, each added once more. */
  ghost predicate Extends(rules: seq<string>, r: seq<string>, added: string -> bool) {
    && InOrder(r)
    && forall x :: multiset(r)[x] == multiset(rules)[x] + (if added(x) then 1 else 0)
  }

  /** That determines the list, so no iteration order can show in it. */
  lemma ExtendsInOneWay(rules: seq<string>, r: seq<string>, s: seq<string>, added: string -> bool)
    requires Extends(rules, r, added) && Extends(rules, s, added)
    ensures r == s
    ensures forall x :: x in r <==> x in rules || added(x)
  {
    assert forall x :: multiset(r)[x] == multiset(s)[x];
    InOrderIsUnique(r, s);
    forall x ensures x in r <==> x in rules || added(x) {
      assert x in r <==> multiset(r)[x] > 0;
      assert x in rules <==> multiset(rules)[x] > 0;
    }
  }

  lemma SortedWith(rules: seq<string>, marked: seq<string>, added: string -> bool)
    requires Distinct(marked) && forall x :: x in marked <==> added(x)
    ensures Extends(rules, Sort(Less, rules + marked), added)
    ensures forall x :: x in Sort(Less, rules + marked) <==> x in rules || added(x)
  {
    var r := Sort(Less, rules + marked);
    SortIsInOrder(rules + marked);
    forall x ensures multiset(r)[x] == multiset(rules)[x] + (if added(x) then 1 else 0) { DistinctCounts(marked, x); }
    ExtendsInOneWay(rules, r, r, added);
  }

  lemma SortedAlone(rules: seq<string>, added: string -> bool)
    requires forall x :: !added(x)
    ensures Extends(rules, Sort(Less, rules), added)
    ensures forall x :: x in Sort(Less, rules) <==> x in rules
  {
    SortedWith(rules, [], added);
    assert rules + [] == rules;
  }

  /** WithRecordedMarkers adds exactly the locations that hold a marker, and sorts. */
  method WithRecordedMarkers(lib: Library, policy: Policy, headers: Header, body: Bytes) returns (r: Policy)
    ensures Extends(policy.headers, r.headers, n => HasMarkerAt(headers, n) && Lower(n) !in SENSITIVE)
    ensures Extends(policy.json, r.json, p => MarkedInJson(lib, headers, body, p))
    ensures Extends(policy.form, r.form, k => MarkedInForm(lib, headers, body, k))
    ensures r.query == policy.query
    ensures forall n :: n in r.headers <==> n in policy.headers || (HasMarkerAt(headers, n) && Lower(n) !in SENSITIVE)
    ensures forall p :: p in r.json <==> p in policy.json || MarkedInJson(lib, headers, body, p)
    ensures forall k :: k in r.form <==> k in policy.form || MarkedInForm(lib, headers, body, k)
  {
    var names := MarkedHeaders(headers);
    SortedWith(policy.headers, names, n => HasMarkerAt(headers, n) && Lower(n) !in SENSITIVE);
    var jsonRules := SortedJsonRules(lib, policy.json, headers, body);
    var formRules := SortedFormRules(lib, policy.form, headers, body);
    return Policy(Sort(Less, policy.headers + names), jsonRules, policy.query, formRules);
  }

  method MarkedHeaders(headers: Header) returns (marked: seq<string>)
    ensures Distinct(marked) && forall n :: n in marked <==> HasMarkerAt(headers, n) && Lower(n) !in SENSITIVE
  {
    marked := [];
    var names := RangeKeys(headers.Keys);
    for i := 0 to |names|
      invariant Distinct(marked) && forall n :: n in marked <==> n in names[..i] && HasMarkerAt(headers, n) && Lower(n) !in SENSITIVE
    {
      assert names[..i + 1] == names[..i] + [names[i]];
      assert names[i] in names && names[i] !in names[..i];
      if Lower(names[i]) in SENSITIVE {
        continue;
      }
      if MARKER in headers[names[i]] {
        marked := marked + [names[i]];
      }
    }
    assert names[..|names|] == names;
  }

  method SortedJsonRules(lib: Library, rules: seq<string>, headers: Header, body: Bytes) returns (r: seq<string>)
    ensures Extends(rules, r, p => MarkedInJson(lib, headers, body, p))
    ensures forall p :: p in r <==> p in rules || MarkedInJson(lib, headers, body, p)
  {
    if IsJsonKind(MediaKind(lib, headers)) && lib.strictJson(body) && lib.decodeJson(body).Some? {
      var pointers := MarkerPointers(lib.decodeJson(body).value, "", []);
      SortedWith(rules, pointers, p => MarkedInJson(lib, headers, body, p));
      return Sort(Less, rules + pointers);
    }
    SortedAlone(rules, p => MarkedInJson(lib, headers, body, p));
    return Sort(Less, rules);
  }

  method SortedFormRules(lib: Library, rules: seq<string>, headers: Header, body: Bytes) returns (r: seq<string>)
    ensures Extends(rules, r, k => MarkedInForm(lib, headers, body, k))
    ensures forall k :: k in r <==> k in rules || MarkedInForm(lib, headers, body, k)
  {
    var kind := MediaKind(lib, headers);
    if !IsJsonKind(kind) && IsFormKind(kind) && lib.parseQuery(lib.text(body)).Some? {
      var marked := MarkedKeys(lib.parseQuery(lib.text(body)).value);
      SortedWith(rules, marked, k => MarkedInForm(lib, headers, body, k));
      return Sort(Less, rules + marked);
    }
    SortedAlone(rules, k => MarkedInForm(lib, headers, body, k));
    return Sort(Less, rules);
  }

  method MarkedKeys(form: Form) returns (marked: seq<string>)
    ensures Distinct(marked) && forall k :: k in marked <==> HasMarkerAt(form, k)
  {
    marked := [];
    var keys := RangeKeys(form.Keys);
    for i := 0 to |keys|
      invariant Distinct(marked) && forall k :: k in marked <==> k in keys[..i] && HasMarkerAt(form, k)
    {
      assert keys[..i + 1] == keys[..i] + [keys[i]];
      assert keys[i] in keys && keys[i] !in keys[..i];
      if MARKER in form[keys[i]] {
        marked := marked + [keys[i]];
      }
    }
    assert keys[..|keys|] == keys;
  }

  /** A parameter of this raw query holds a marker. */
  predicate MarkedInQuery(lib: Library, rawQuery: string, key: string) {
    lib.parseQuery(rawQuery).Some? && HasMarkerAt(lib.parseQuery(rawQuery).value, key)
  }

  /** WithRecordedQuery; a URL or query that does not parse leaves the policy as it is. */
  method WithRecordedQuery(lib: Library, policy: Policy, url: string) returns (r: Policy)
    ensures r.headers == policy.headers && r.json == policy.json && r.form == policy.form
    ensures lib.queryOf(url).None? || lib.parseQuery(lib.queryOf(url).value).None? ==> r == policy
    ensures lib.queryOf(url).Some? && lib.parseQuery(lib.queryOf(url).value).Some? ==>
              && Extends(policy.query, r.query, k => MarkedInQuery(lib, lib.queryOf(url).value, k))
              && forall k :: k in r.query <==> k in policy.query || MarkedInQuery(lib, lib.queryOf(url).value, k)
  {
    var rawQuery := lib.queryOf(url);
    if rawQuery == None {
      return policy;
    }
    var query := WithMarkedQuery(lib, policy.query, rawQuery.value);
    return policy.(query := query);
  }

  method WithMarkedQuery(lib: Library, rules: seq<string>, rawQuery: string) returns (r: seq<string>)
    ensures lib.parseQuery(rawQuery).None? ==> r == rules
    ensures lib.parseQuery(rawQuery).Some? ==> Extends(rules, r, k => MarkedInQuery(lib, rawQuery, k))
    ensures forall k :: k in r <==> k in rules || MarkedInQuery(lib, rawQuery, k)
  {
    var values := lib.parseQuery(rawQuery);
    if values == None {
      return rules;
    }
    var marked := MarkedKeys(values.value);
    SortedWith(rules, marked, k => MarkedInQuery(lib, rawQuery, k));
    return Sort(Less, rules + marked);
  }
}
