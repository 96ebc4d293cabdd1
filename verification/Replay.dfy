/** Rebuilding a redacted request from runtime values (internal/replay/replacements.go, internal/cli/config.go). */
module Replay {
  import opened Strings
  import opened Json
  import opened Recording
  import opened Sanitize
  import opened Redaction
  import opened Policy

  datatype Replacements = Replacements(json: map<string, string>, query: map<string, string>, form: map<string, string>)

  const NOTHING := Replacements(map[], map[], map[])

  // ----- Which rules apply -----

  /** What the classification of a request looks at. */
  datatype Subject = Subject(rawQuery: string, contentType: string, contentEncoding: string, body: Bytes)

  function SubjectOf(rawQuery: string, headers: Header, body: Bytes): Subject {
    Subject(rawQuery, GetHeader(headers, "Content-Type"), GetHeader(headers, "Content-Encoding"), body)
  }

  predicate BodyMatters(r: Replacements, s: Subject) {
    s.body != [] && (r.json != map[] || r.form != map[])
  }

  /** For every rule it can be told whether its field is present. */
  ghost predicate Classifiable(lib: Library, r: Replacements, s: Subject) {
    && (r.query != map[] ==> !QueryWithheld(lib, s.rawQuery) && lib.parseQuery(s.rawQuery).Some?)
    && (BodyMatters(r, s) ==>
          && s.contentEncoding == "" && lib.mediaType(s.contentType).1
          && var kind := lib.mediaType(s.contentType).0;
             if IsJsonKind(kind) then r.json != map[] ==> lib.strictJson(s.body) && lib.decodeJson(s.body).Some? && CanProbe(lib.decodeJson(s.body).value, r.json.Keys)
             else IsFormKind(kind) && (r.form != map[] ==> lib.validUtf8(s.body) && lib.parseQuery(lib.text(s.body)).Some?))
  }

  ghost function FieldsIn(form: Form, values: map<string, string>): map<string, string> {
    map k | k in values && k in form :: values[k]
  }

  /** The rules whose field is present. */
  ghost function Selected(lib: Library, r: Replacements, s: Subject): Replacements
    requires Classifiable(lib, r, s)
  {
    var kind := lib.mediaType(s.contentType).0;
    Replacements(
      if BodyMatters(r, s) && IsJsonKind(kind) && r.json != map[] then Present(lib.decodeJson(s.body).value, r.json, r.json.Keys) else map[],
      if r.query != map[] then FieldsIn(lib.parseQuery(s.rawQuery).value, r.query) else map[],
      if BodyMatters(r, s) && !IsJsonKind(kind) && r.form != map[] then FieldsIn(lib.parseQuery(lib.text(s.body)).value, r.form) else map[])
  }

  method Applicable(lib: Library, r: Replacements, rawQuery: string, headers: Header, body: Bytes) returns (result: Result<Replacements>)
    ensures result.Ok? <==> Classifiable(lib, r, SubjectOf(rawQuery, headers, body))
    ensures result.Ok? ==> result.value == Selected(lib, r, SubjectOf(rawQuery, headers, body))
    ensures result.Err? ==> result.problem != MissingRuntimeValue && result.problem != MissingTarget && result.problem != RemainingMarkers
    ensures result == Err(QueryWasWithheld) <==> r.query != map[] && QueryWithheld(lib, rawQuery)
    ensures result == Err(EncodedBody) ==> body != [] && GetHeader(headers, "Content-Encoding") != ""
    ensures result == Err(InvalidContentType) ==> body != [] && !lib.mediaType(GetHeader(headers, "Content-Type")).1
    ensures result == Err(UnsupportedContentType) ==>
              var kind := lib.mediaType(GetHeader(headers, "Content-Type")).0; body != [] && !IsJsonKind(kind) && !IsFormKind(kind)
  {
    var matched := NOTHING;
    if r.query != map[] {
      if QueryWithheld(lib, rawQuery) {
        return Err(QueryWasWithheld);
      }
      var fields := ExistingValues(lib, rawQuery, r.query);
      if fields.Err? {
        return Err(fields.problem);
      }
      FoundIsFieldsIn(lib.parseQuery(rawQuery).value, r.query, fields.value);
      matched := matched.(query := fields.value);
    }
    if body == [] || (r.json == map[] && r.form == map[]) {
      return Ok(matched);
    }
    if GetHeader(headers, "Content-Encoding") != "" {
      return Err(EncodedBody);
    }
    var kind, valid := lib.mediaType(GetHeader(headers, "Content-Type")).0, lib.mediaType(GetHeader(headers, "Content-Type")).1;
    if !valid {
      return Err(InvalidContentType);
    }
    if IsJsonKind(kind) {
      if r.json != map[] {
        var fields := ExistingJson(lib, body, r.json);
        if fields.Err? {
          return Err(fields.problem);
        }
        matched := matched.(json := fields.value);
      }
    } else if IsFormKind(kind) {
      if r.form != map[] {
        if !lib.validUtf8(body) {
          return Err(InvalidForm);
        }
        var fields := ExistingValues(lib, lib.text(body), r.form);
        if fields.Err? {
          return Err(fields.problem);
        }
        FoundIsFieldsIn(lib.parseQuery(lib.text(body)).value, r.form, fields.value);
        matched := matched.(form := fields.value);
      }
    } else {
      return Err(UnsupportedContentType);
    }
    return Ok(matched);
  }

  /** A rule is selected exactly when the request has its field, and keeps its value. */
  lemma SelectedIsPresent(lib: Library, r: Replacements, s: Subject)
    requires Classifiable(lib, r, s)
    ensures forall k :: k in Selected(lib, r, s).query <==> k in r.query && k in lib.parseQuery(s.rawQuery).value
    ensures var kind := lib.mediaType(s.contentType).0;
            && (forall p :: p in Selected(lib, r, s).json <==>
                  s.body != [] && IsJsonKind(kind) && p in r.json && Get(lib.decodeJson(s.body).value, TokensOf(p)).Some?)
            && (forall k :: k in Selected(lib, r, s).form <==>
                  s.body != [] && !IsJsonKind(kind) && k in r.form && k in lib.parseQuery(lib.text(s.body)).value)
    ensures Within(Selected(lib, r, s), r)
  {
  }

  /** A body is changed only if it can be read: it is not encoded, and JSON or a form. */
  lemma OnlyReadableBodiesChange(lib: Library, r: Replacements, s: Subject)
    requires Ready(lib, r, s) && Rebuildable(lib, Selected(lib, r, s), s.body) && RebuiltBytes(lib, Selected(lib, r, s), s.body) != s.body
    ensures s.body != [] && s.contentEncoding == "" && lib.mediaType(s.contentType).1
    ensures var kind := lib.mediaType(s.contentType).0;
            || kind == "application/json" || HasSuffix(kind, "+json") || kind == "application/x-www-form-urlencoded"
  {
  }

  /** A query that was withheld at capture is refused wherever there are rules for queries. */
  lemma WithheldQueryIsRefused(lib: Library, r: Replacements, s: Subject)
    requires lib.parseQuery(s.rawQuery) == Some(map["redacted" := ["<REDACTED>"]]) && r.query != map[]
    ensures !Classifiable(lib, r, s)
  {
  }

  lemma FoundIsFieldsIn(form: Form, values: map<string, string>, matched: map<string, string>)
    requires Found(form, values, matched)
    ensures matched == FieldsIn(form, values)
  {
  }

  predicate SameKeys(a: Replacements, b: Replacements) {
    a.json.Keys == b.json.Keys && a.query.Keys == b.query.Keys && a.form.Keys == b.form.Keys
  }

  /** Values play no part in the choice: expressions and resolved values select the same fields. */
  lemma SelectionDependsOnKeys(lib: Library, a: Replacements, b: Replacements, s: Subject)
    requires SameKeys(a, b)
    ensures Classifiable(lib, a, s) <==> Classifiable(lib, b, s)
    ensures Classifiable(lib, a, s) ==> SameKeys(Selected(lib, a, s), Selected(lib, b, s))
    ensures Classifiable(lib, b, s) ==> Within(Selected(lib, b, s), b)
  {
    ClassifiableDependsOnKeys(lib, a, b, s);
    if Classifiable(lib, a, s) {
      NoKeysNoMap(a.json, b.json);
      NoKeysNoMap(a.query, b.query);
      NoKeysNoMap(a.form, b.form);
    }
  }

  lemma ClassifiableDependsOnKeys(lib: Library, a: Replacements, b: Replacements, s: Subject)
    requires SameKeys(a, b)
    ensures Classifiable(lib, a, s) <==> Classifiable(lib, b, s)
  {
    NoKeysNoMap(a.json, b.json);
    NoKeysNoMap(a.query, b.query);
    NoKeysNoMap(a.form, b.form);
  }

  lemma NoKeysNoMap(a: map<string, string>, b: map<string, string>)
    requires a.Keys == b.Keys
    ensures a == map[] <==> b == map[]
  {
    assert a == map[] <==> a.Keys == {};
    assert b == map[] <==> b.Keys == {};
  }

  /** `a` holds some of the entries of `b`. */
  predicate SomeOf(a: map<string, string>, b: map<string, string>) {
    forall k :: k in a.Keys ==> k in b && a[k] == b[k]
  }

  predicate Within(a: Replacements, b: Replacements) {
    SomeOf(a.json, b.json) && SomeOf(a.query, b.query) && SomeOf(a.form, b.form)
  }

  predicate AllGiven(values: map<string, string>) {
    forall k :: k in values.Keys ==> values[k] != ""
  }

  predicate AllValuesGiven(r: Replacements) {
    AllGiven(r.json) && AllGiven(r.query) && AllGiven(r.form)
  }

  // ----- Rebuilding the request -----

  /** A marker is left where the outgoing request can be inspected. */
  ghost predicate MarkerLeft(lib: Library, rawQuery: string, headers: Header, body: Bytes) {
    || (lib.parseQuery(rawQuery).Some? && exists k :: MarkedInQuery(lib, rawQuery, k))
    || (GetHeader(headers, "Content-Encoding") == "" &&
        ((exists p :: MarkedInJson(lib, headers, body, p)) || (exists k :: MarkedInForm(lib, headers, body, k))))
  }

  method RejectRemainingMarkers(lib: Library, rawQuery: string, headers: Header, body: Bytes) returns (problem: Option<Problem>)
    ensures problem == if MarkerLeft(lib, rawQuery, headers, body) then Some(RemainingMarkers) else None
  {
    var query := WithMarkedQuery(lib, [], rawQuery);
    var markers := Policy([], [], query, []);
    if GetHeader(headers, "Content-Encoding") == "" {
      markers := WithRecordedMarkers(lib, markers, headers, body);
    }
    assert markers.query != [] ==> markers.query[0] in markers.query;
    assert markers.json != [] ==> markers.json[0] in markers.json;
    assert markers.form != [] ==> markers.form[0] in markers.form;
    if markers.json != [] || markers.form != [] || markers.query != [] {
      return Some(RemainingMarkers);
    }
    return None;
  }

  method FirstMissing(values: map<string, string>) returns (missing: bool)
    ensures missing <==> !AllGiven(values)
  {
    var fields := RangeKeys(values.Keys);
    for i := 0 to |fields|
      invariant forall k :: k in fields[..i] && k in values ==> values[k] != ""
    {
      assert fields[i] in fields;
      if values[fields[i]] == "" {
        return true;
      }
      assert fields[..i + 1] == fields[..i] + [fields[i]];
    }
    assert fields[..|fields|] == fields;
    return false;
  }

  /** What Replacements.apply makes of the recorded body. */
  ghost predicate BodyRebuilt(lib: Library, chosen: Replacements, recorded: Bytes, sent: Bytes) {
    if chosen.json != map[] then
      && lib.decodeJson(recorded).Some? && AllPointers(chosen.json.Keys)
      && lib.decodeJson(sent) == Some(Rewritten(lib, recorded, chosen.json))
    else if chosen.form != map[] then
      lib.parseQuery(lib.text(recorded)).Some? && lib.parseQuery(lib.text(sent)) == Some(WithValues(lib.parseQuery(lib.text(recorded)).value, chosen.form))
    else sent == recorded
  }

  /** The body can be rebuilt: every chosen field is there, and can be written. */
  ghost predicate Rebuildable(lib: Library, chosen: Replacements, recorded: Bytes) {
    if chosen.json != map[] then CanReplace(lib, recorded, chosen.json, true)
    else if chosen.form != map[] then
      lib.parseQuery(lib.text(recorded)).Some? && chosen.form.Keys <= lib.parseQuery(lib.text(recorded)).value.Keys
    else true
  }

  /** The bytes it is rebuilt to. */
  ghost function RebuiltBytes(lib: Library, chosen: Replacements, recorded: Bytes): Bytes
    requires Rebuildable(lib, chosen, recorded)
  {
    if chosen.json != map[] then
      if AnyResolves(lib.decodeJson(recorded).value, chosen.json.Keys) then lib.encodeJson(Rewritten(lib, recorded, chosen.json)) else recorded
    else if chosen.form != map[] then lib.bytes(lib.encodeQuery(WithValues(lib.parseQuery(lib.text(recorded)).value, chosen.form)))
    else recorded
  }

  /** With these rules the request still shows a marker when it is rebuilt. */
  ghost predicate MarkerStays(lib: Library, chosen: Replacements, rawQuery: string, headers: Header, recorded: Bytes) {
    && Rebuildable(lib, chosen, recorded)
    && MarkerLeft(lib, RebuiltQuery(lib, chosen, rawQuery), headers, RebuiltBytes(lib, chosen, recorded))
  }

  /** Rules for the subject, each with a value. */
  ghost predicate Ready(lib: Library, r: Replacements, s: Subject) {
    Classifiable(lib, r, s) && AllValuesGiven(Selected(lib, r, s))
  }

  /** The parts of http.Request that apply changes. */
  class OutgoingRequest {
    const headers: Header
    var rawQuery: string
    var body: Bytes
    var contentLength: int

    constructor (headers: Header, rawQuery: string, body: Bytes)
      ensures this.headers == headers && this.rawQuery == rawQuery && this.body == body && contentLength == |body|
    {
      this.headers := headers;
      this.rawQuery := rawQuery;
      this.body := body;
      this.contentLength := |body|;
    }

    /** Replacements.apply. */
    method Apply(lib: Library, r: Replacements) returns (problem: Option<Problem>)
      requires lib.Faithful() && contentLength == |body|
      modifies this
      ensures contentLength == |body|
      ensures var s := SubjectOf(old(rawQuery), headers, old(body));
              && (problem == Some(MissingRuntimeValue) <==> Classifiable(lib, r, s) && !AllValuesGiven(Selected(lib, r, s)))
              && (problem.None? ==>
                    && Classifiable(lib, r, s) && AllValuesGiven(Selected(lib, r, s))
                    && BodyRebuilt(lib, Selected(lib, r, s), old(body), body)
                    && rawQuery == RebuiltQuery(lib, Selected(lib, r, s), old(rawQuery)))
      ensures var s := SubjectOf(old(rawQuery), headers, old(body));
              && (problem.None? <==> Ready(lib, r, s) && Rebuildable(lib, Selected(lib, r, s), old(body))
                                     && !MarkerStays(lib, Selected(lib, r, s), old(rawQuery), headers, old(body)))
              && (problem == Some(RemainingMarkers) <==> Ready(lib, r, s) && MarkerStays(lib, Selected(lib, r, s), old(rawQuery), headers, old(body)))
              && (Ready(lib, r, s) && RulesApart(r) ==> Rebuildable(lib, Selected(lib, r, s), old(body)))
              && (problem.None? ==> body == RebuiltBytes(lib, Selected(lib, r, s), old(body)))
      ensures problem.None? ==> !MarkerLeft(lib, rawQuery, headers, body)
      ensures problem.Some? ==> body == old(body)
      ensures var s := SubjectOf(old(rawQuery), headers, old(body));
              rawQuery == if Ready(lib, r, s) then RebuiltQuery(lib, Selected(lib, r, s), old(rawQuery)) else old(rawQuery)
      ensures RulesApart(r) ==> problem != Some(MissingTarget)
    {
      var recorded := body;
      var matched := Choose(lib, r, rawQuery, headers, recorded);
      if matched.Err? {
        return Some(matched.problem);
      }
      var chosen := matched.value;
      if chosen.query != map[] {
        rawQuery := ReplaceQuery(lib, chosen, rawQuery);
      }
      var rebuilt := RebuildBody(lib, chosen, rawQuery, headers, recorded);
      if rebuilt.Err? {
        return Some(rebuilt.problem);
      }
      body := rebuilt.value;
      contentLength := |rebuilt.value|;
      return None;
    }
  }

  ghost predicate RulesApart(r: Replacements) {
    forall p :: p in r.json ==> !LiesBelow(p, r.json.Keys)
  }

  ghost function RebuiltQuery(lib: Library, chosen: Replacements, rawQuery: string): string {
    if chosen.query != map[] && lib.parseQuery(rawQuery).Some?
    then lib.encodeQuery(WithValues(lib.parseQuery(rawQuery).value, chosen.query)) else rawQuery
  }

  /** The chosen fields are there to be replaced. */
  ghost predicate Replaceable(lib: Library, chosen: Replacements, rawQuery: string, body: Bytes, apart: bool) {
    && (chosen.query != map[] ==> lib.parseQuery(rawQuery).Some? && chosen.query.Keys <= lib.parseQuery(rawQuery).value.Keys)
    && (chosen.form != map[] ==> lib.parseQuery(lib.text(body)).Some? && chosen.form.Keys <= lib.parseQuery(lib.text(body)).value.Keys)
    && (chosen.json != map[] && apart ==> CanReplace(lib, body, chosen.json, true))
  }

  /** The first part of apply: the rules that apply, each with a value. */
  method Choose(lib: Library, r: Replacements, rawQuery: string, headers: Header, body: Bytes) returns (result: Result<Replacements>)
    ensures var s := SubjectOf(rawQuery, headers, body);
            && (result.Ok? <==> Classifiable(lib, r, s) && AllValuesGiven(Selected(lib, r, s)))
            && (result == Err(MissingRuntimeValue) <==> Classifiable(lib, r, s) && !AllValuesGiven(Selected(lib, r, s)))
            && (result.Ok? ==> result.value == Selected(lib, r, s))
    ensures result.Ok? ==> Replaceable(lib, result.value, rawQuery, body, RulesApart(r))
    ensures result.Err? ==> result.problem != MissingTarget && result.problem != RemainingMarkers
  {
    result := Applicable(lib, r, rawQuery, headers, body);
    if result.Err? {
      return;
    }
    ChosenFields(lib, r, SubjectOf(rawQuery, headers, body));
    var missingQuery := FirstMissing(result.value.query);
    var missingJson := FirstMissing(result.value.json);
    var missingForm := FirstMissing(result.value.form);
    if missingQuery || missingJson || missingForm {
      return Err(MissingRuntimeValue);
    }
  }

  method ReplaceQuery(lib: Library, chosen: Replacements, rawQuery: string) returns (query: string)
    requires chosen.query != map[] && lib.parseQuery(rawQuery).Some? && chosen.query.Keys <= lib.parseQuery(rawQuery).value.Keys
    ensures query == RebuiltQuery(lib, chosen, rawQuery)
  {
    var replaced := ReplaceValues(lib, rawQuery, chosen.query, true);
    query := replaced.value;
  }

  /** The rest of apply: the body to send, unless it or the query still holds a marker. */
  method RebuildBody(lib: Library, chosen: Replacements, rawQuery: string, headers: Header, recorded: Bytes) returns (r: Result<Bytes>)
    requires lib.Faithful()
    ensures r.Ok? <==> Rebuildable(lib, chosen, recorded) && !MarkerLeft(lib, rawQuery, headers, RebuiltBytes(lib, chosen, recorded))
    ensures r == Err(RemainingMarkers) <==>
              Rebuildable(lib, chosen, recorded) && MarkerLeft(lib, rawQuery, headers, RebuiltBytes(lib, chosen, recorded))
    ensures r.Ok? ==> r.value == RebuiltBytes(lib, chosen, recorded) && BodyRebuilt(lib, chosen, recorded, r.value)
    ensures r.Err? ==> r.problem != MissingRuntimeValue
    ensures r == Err(MissingTarget) ==>
              if chosen.json != map[] then !CanReplace(lib, recorded, chosen.json, true)
              else chosen.form != map[] && !(lib.parseQuery(lib.text(recorded)).Some? && chosen.form.Keys <= lib.parseQuery(lib.text(recorded)).value.Keys)
  {
    var updated := recorded;
    if chosen.json != map[] {
      var replaced := ReplaceJsonBody(lib, recorded, chosen.json, true);
      if replaced.Err? {
        return replaced;
      }
      updated := replaced.value;
    } else if chosen.form != map[] {
      var encoded := ReplaceValues(lib, lib.text(recorded), chosen.form, true);
      if encoded.Err? {
        return Err(encoded.problem);
      }
      WithValuesKeepsShape(lib.parseQuery(lib.text(recorded)).value, chosen.form);
      updated := lib.bytes(encoded.value);
    }
    var problem := RejectRemainingMarkers(lib, rawQuery, headers, updated);
    if problem.Some? {
      return Err(problem.value);
    }
    return Ok(updated);
  }

  /** The chosen fields exist, so replacing them cannot miss unless two JSON rules overlap. */
  lemma ChosenFields(lib: Library, r: Replacements, s: Subject)
    requires Classifiable(lib, r, s)
    ensures Replaceable(lib, Selected(lib, r, s), s.rawQuery, s.body, RulesApart(r))
  {
    var chosen := Selected(lib, r, s);
    if chosen.json != map[] && RulesApart(r) { ProbedPathsCanBeReplaced(lib, s.body, r.json, chosen.json); }
  }
}
