/** The check made before any traffic is sent (internal/cli/config.go). */
module Preflight {
  import opened Strings
  import opened Json
  import opened Recording
  import opened Pointers
  import opened Rewrite
  import opened Sanitize
  import opened Policy
  import opened Replay

  // ----- validateConfig: JSON replacement paths -----

  /** Accepts the paths exactly when each is a pointer and none lies below another. */
  method ValidatePaths(paths: set<string>) returns (valid: bool)
    ensures valid <==> AllPointers(paths) && forall p :: p in paths ==> !LiesBelow(p, paths)
  {
    var keys := SortKeys(paths);
    valid := EachIsPointer(keys);
    if !valid {
      return;
    }
    valid := NoLaterBelow(keys);
    if valid {
      forall p | p in paths ensures !LiesBelow(p, paths) { LaterPathsOnly(paths, keys, p); }
    } else {
      var m, n :| 0 <= m < n < |keys| && HasPrefix(keys[n], keys[m] + "/");
      assert keys[n] in keys && keys[m] in keys;
      assert LiesBelow(keys[n], paths);
    }
  }

  method EachIsPointer(keys: seq<string>) returns (valid: bool)
    ensures valid <==> forall i :: 0 <= i < |keys| ==> IsPointer(keys[i])
  {
    for i := 0 to |keys|
      invariant forall k :: 0 <= k < i ==> IsPointer(keys[k])
    {
      var parts := Pointer(keys[i]);
      if parts == None {
        return false;
      }
    }
    return true;
  }

  /** Each path against the later ones. */
  method NoLaterBelow(keys: seq<string>) returns (valid: bool)
    ensures valid <==> forall m, n :: 0 <= m < n < |keys| ==> !HasPrefix(keys[n], keys[m] + "/")
  {
    for i := 0 to |keys|
      invariant forall m, n :: 0 <= m < i && m < n < |keys| ==> !HasPrefix(keys[n], keys[m] + "/")
    {
      for j := i + 1 to |keys|
        invariant forall n :: i < n < j ==> !HasPrefix(keys[n], keys[i] + "/")
      {
        if HasPrefix(keys[j], keys[i] + "/") {
          return false;
        }
      }
    }
    return true;
  }

  /** In sorted order only an earlier path can be a prefix. */
  lemma LaterPathsOnly(paths: set<string>, keys: seq<string>, p: string)
    requires keys == SortedKeys(paths) && p in paths
    requires forall m, n :: 0 <= m < n < |keys| ==> !HasPrefix(keys[n], keys[m] + "/")
    ensures !LiesBelow(p, paths)
  {
    SortedKeysMembers(paths);
    assert p in keys;
    var n :| 0 <= n < |keys| && keys[n] == p;
    forall q | q in paths ensures !HasPrefix(p, q + "/") {
      if HasPrefix(p, q + "/") { SortedPrefix(paths, keys, n, q); }
    }
  }

  // ----- environmentReference -----

  predicate NameStart(c: char) {
    c == '_' || 'a' <= c <= 'z' || 'A' <= c <= 'Z'
  }

  predicate ValidName(name: string) {
    && name != "" && NameStart(name[0])
    && forall i :: 1 <= i < |name| ==> NameStart(name[i]) || '0' <= name[i] <= '9'
  }

  /** strings.Cut at the first occurrence of a non-empty separator. */
  function Cut(s: string, sep: string): (string, string, bool)
    requires sep != ""
    decreases |s|
  {
    if HasPrefix(s, sep) then ("", s[|sep|..], true)
    else if s == "" then ("", "", false)
    else
      var (before, after, found) := Cut(s[1..], sep);
      ([s[0]] + before, after, found)
  }

  lemma {:induction false} CutParts(s: string, sep: string)
    requires sep != ""
    ensures var (before, after, found) := Cut(s, sep); if found then s == before + sep + after else before == s && after == ""
    decreases |s|
  {
    if HasPrefix(s, sep) {
      assert "" + sep + s[|sep|..] == s;
    } else if s != "" {
      CutParts(s[1..], sep);
      var (before, after, found) := Cut(s[1..], sep);
      HeadAndTail(s);
      Regroup([s[0]], before, sep);
      Regroup([s[0]], before + sep, after);
    }
  }

  predicate Plain(s: string) {
    forall i :: 0 <= i < |s| ==> s[i] != '$' && s[i] != '{' && s[i] != '}'
  }

  /** A reference with literal text around it: prefix, variable name, suffix. */
  function EnvironmentReference(expression: string): Option<(string, string, string)> {
    var (prefix, rest, ok) := Cut(expression, "${");
    var (name, suffix, closed) := Cut(rest, "}");
    if !ok || !closed || !ValidName(name) || !Plain(prefix + suffix) then None else Some((prefix, name, suffix))
  }

  /** A name is an underscore or an ASCII letter, then such or ASCII digits; plain text has none of three characters. */
  lemma NamesAre(name: string, text: string)
    ensures ValidName(name) <==>
            && name != "" && !(48 <= name[0] as int <= 57)
            && forall i :: 0 <= i < |name| ==> var n := name[i] as int; 48 <= n <= 57 || 65 <= n <= 90 || n == 95 || 97 <= n <= 122
    ensures Plain(text) <==> '$' !in text && '{' !in text && '}' !in text
  {
  }

  /** An expression has a reference exactly when it can be written so, and then in one way. */
  lemma ReferenceIsUnique(expression: string, prefix: string, name: string, suffix: string)
    ensures EnvironmentReference(expression) == Some((prefix, name, suffix)) <==>
            expression == prefix + "${" + name + "}" + suffix && ValidName(name) && Plain(prefix) && Plain(suffix)
  {
    PlainConcat(prefix, suffix);
    if EnvironmentReference(expression) == Some((prefix, name, suffix)) {
      var rest := name + "}" + suffix;
      CutParts(expression, "${");
      CutParts(Cut(expression, "${").1, "}");
      assert expression == prefix + "${" + rest;
      assert prefix + "${" + rest == prefix + "${" + name + "}" + suffix;
    }
    if expression == prefix + "${" + name + "}" + suffix && ValidName(name) && Plain(prefix) && Plain(suffix) {
      ReferenceIsFound(prefix, name, suffix);
    }
  }

  lemma ReferenceIsFound(prefix: string, name: string, suffix: string)
    requires ValidName(name) && Plain(prefix) && Plain(suffix)
    ensures EnvironmentReference(prefix + "${" + name + "}" + suffix) == Some((prefix, name, suffix))
  {
    var rest := name + "}" + suffix;
    assert prefix + "${" + name + "}" + suffix == prefix + ("${" + rest);
    CutAt(prefix, "${", rest);
    NameIsPlain(name);
    assert rest == name + ("}" + suffix);
    CutAt(name, "}", suffix);
    PlainConcat(prefix, suffix);
  }

  lemma PlainConcat(a: string, b: string)
    ensures Plain(a + b) <==> Plain(a) && Plain(b)
  {
    if Plain(a + b) {
      assert forall i :: 0 <= i < |a| ==> a[i] == (a + b)[i];
      assert forall i :: 0 <= i < |b| ==> b[i] == (a + b)[|a| + i];
    }
  }

  lemma NameIsPlain(name: string)
    requires ValidName(name)
    ensures Plain(name)
  {
  }

  lemma {:induction false} CutAt(front: string, sep: string, rest: string)
    requires sep == "${" || sep == "}"
    requires Plain(front)
    ensures Cut(front + (sep + rest), sep) == (front, rest, true)
  {
    var s := front + (sep + rest);
    if front == "" {
      assert s == sep + rest;
      assert s[..|sep|] == sep && s[|sep|..] == rest;
    } else {
      assert s[0] == front[0] && s[..|sep|][0] == s[0];
      assert s[1..] == front[1..] + (sep + rest);
      CutAt(front[1..], sep, rest);
      assert [front[0]] + front[1..] == front;
    }
  }

  // ----- Resolving the values that are needed -----

  /** The value is the expression with its variable filled in. */
  predicate ComesFrom(value: string, expression: string, environment: map<string, string>) {
    match EnvironmentReference(expression)
    case Some((prefix, name, suffix)) => name in environment && value == prefix + environment[name] + suffix
    case None => false
  }

  /** The expression refers to a variable that is set and not empty. */
  predicate Resolvable(expression: string, environment: map<string, string>) {
    match EnvironmentReference(expression)
    case Some((_, name, _)) => name in environment && environment[name] != ""
    case None => false
  }

  function ResolvableIn(environment: map<string, string>): string -> bool {
    expression => Resolvable(expression, environment)
  }

  /** The three kinds of fields that rules can name. */
  datatype Group = JsonGroup | QueryGroup | FormGroup

  function In(r: Replacements, group: Group): map<string, string> {
    match group
    case JsonGroup => r.json
    case QueryGroup => r.query
    case FormGroup => r.form
  }

  predicate Each(ok: string -> bool, fields: map<string, string>) {
    forall k :: k in fields ==> ok(fields[k])
  }

  predicate EachValue(ok: string -> bool, r: Replacements) {
    Each(ok, r.json) && Each(ok, r.query) && Each(ok, r.form)
  }

  method ResolveField(expression: string, environment: map<string, string>) returns (r: Option<string>)
    ensures r.Some? <==> Resolvable(expression, environment)
    ensures r.Some? ==> r.value != "" && ComesFrom(r.value, expression, environment)
  {
    var reference := EnvironmentReference(expression);
    if reference == None {
      return None;
    }
    var (prefix, name, suffix) := reference.value;
    if name !in environment || environment[name] == "" {
      return None;
    }
    var value := prefix + environment[name] + suffix;
    assert |value| > 0;
    return Some(value);
  }

  /** The keys of a map in order; the order decides only which problem is reported first. */
  method Keys(fields: map<string, string>) returns (r: seq<string>)
    ensures forall k :: k in r <==> k in fields
  {
    r := SortKeys(fields.Keys);
  }

  /** resolveRequestConfig for one group of fields. */
  method ResolveFields(expressions: map<string, string>, environment: map<string, string>) returns (r: Option<map<string, string>>)
    ensures r.Some? <==> Each(ResolvableIn(environment), expressions)
    ensures r.Some? ==> r.value.Keys == expressions.Keys && AllGiven(r.value)
    ensures r.Some? ==> forall k :: k in expressions ==> ComesFrom(r.value[k], expressions[k], environment)
  {
    var resolved: map<string, string> := map[];
    var fields := Keys(expressions);
    for i := 0 to |fields|
      invariant forall j :: 0 <= j < i ==> fields[j] in resolved
      invariant resolved.Keys <= expressions.Keys && AllGiven(resolved)
      invariant forall k :: k in resolved ==> Resolvable(expressions[k], environment) && ComesFrom(resolved[k], expressions[k], environment)
    {
      assert fields[i] in fields;
      var value := ResolveField(expressions[fields[i]], environment);
      if value == None {
        return None;
      }
      resolved := resolved[fields[i] := value.value];
    }
    forall k | k in expressions ensures k in resolved { assert k in fields; }
    return Some(resolved);
  }

  /** A recorded request as the preflight sees it; the raw query is None when the URL does not parse. */
  datatype Recorded = Recorded(rawQuery: Option<string>, request: Request)

  /** Requests that execution refuses to send at all. */
  predicate Unsendable(e: Recorded) {
    e.request.truncated || !e.request.complete || e.rawQuery.None?
  }

  function RecordedSubject(e: Recorded): Subject
    requires e.rawQuery.Some?
  {
    SubjectOf(e.rawQuery.value, e.request.headers, e.request.body)
  }

  /** The rules that replay will apply to this exchange; None when it refuses the exchange for another reason. */
  ghost function Choice(lib: Library, raw: Replacements, e: Recorded): Option<Replacements> {
    if Unsendable(e) || !Classifiable(lib, raw, RecordedSubject(e)) then None else Some(Selected(lib, raw, RecordedSubject(e)))
  }

  /** A request that is cut short or has no readable URL asks for nothing; any other that can be classified asks for its fields. */
  lemma ChoiceIs(lib: Library, raw: Replacements, e: Recorded)
    ensures e.request.truncated || !e.request.complete || e.rawQuery == None ==> Choice(lib, raw, e) == None
    ensures !e.request.truncated && e.request.complete && e.rawQuery.Some? ==>
              (Choice(lib, raw, e).Some? <==> Classifiable(lib, raw, RecordedSubject(e)))
  {
  }

  predicate Covers(needed: Replacements, choice: Option<Replacements>) {
    choice.Some? ==>
      choice.value.json.Keys <= needed.json.Keys && choice.value.query.Keys <= needed.query.Keys && choice.value.form.Keys <= needed.form.Keys
  }

  predicate EachChosen(ok: string -> bool, choice: Option<Replacements>) {
    choice.Some? ==> EachValue(ok, choice.value)
  }

  method Inspect(lib: Library, raw: Replacements, e: Recorded) returns (choice: Option<Replacements>)
    ensures choice == Choice(lib, raw, e)
    ensures choice.Some? ==> Within(choice.value, raw)
  {
    if e.request.truncated || !e.request.complete {
      return None;
    }
    if e.rawQuery == None {
      return None;
    }
    var matched := Applicable(lib, raw, e.rawQuery.value, e.request.headers, e.request.body);
    if matched.Err? {
      return None;
    }
    SelectionDependsOnKeys(lib, raw, raw, RecordedSubject(e));
    return Some(matched.value);
  }

  /** Some selected exchange has this field, so that its rule will be applied. */
  ghost predicate Wanted(lib: Library, raw: Replacements, exchanges: seq<Recorded>, group: Group, field: string) {
    exists i :: 0 <= i < |exchanges| && Chooses(Choice(lib, raw, exchanges[i]), group, field)
  }

  predicate Chooses(choice: Option<Replacements>, group: Group, field: string) {
    choice.Some? && field in In(choice.value, group)
  }

  /** The needed rules, with those of one more exchange. */
  function With(needed: Replacements, choice: Option<Replacements>): Replacements {
    if choice == None then needed else
      Replacements(needed.json + choice.value.json, needed.query + choice.value.query, needed.form + choice.value.form)
  }

  lemma WithCovers(raw: Replacements, needed: Replacements, choice: Option<Replacements>, ok: string -> bool)
    requires Within(needed, raw) && (choice.Some? ==> Within(choice.value, raw))
    ensures Within(With(needed, choice), raw) && Covers(With(needed, choice), choice)
    ensures Covers(With(needed, choice), Some(needed))
    ensures EachValue(ok, With(needed, choice)) <==> EachValue(ok, needed) && EachChosen(ok, choice)
  {
    if choice.Some? {
      EachInUnion(raw.json, needed.json, choice.value.json, ok);
      EachInUnion(raw.query, needed.query, choice.value.query, ok);
      EachInUnion(raw.form, needed.form, choice.value.form, ok);
    }
  }

  lemma EachInUnion(raw: map<string, string>, a: map<string, string>, b: map<string, string>, ok: string -> bool)
    requires SomeOf(a, raw) && SomeOf(b, raw)
    ensures SomeOf(a + b, raw) && a.Keys <= (a + b).Keys && b.Keys <= (a + b).Keys
    ensures Each(ok, a + b) <==> Each(ok, a) && Each(ok, b)
  {
    forall k | k in a ensures k in a + b && (a + b)[k] == a[k] { }
    forall k | k in b ensures k in a + b && (a + b)[k] == b[k] { }
  }

  lemma CoversMore(before: Replacements, after: Replacements, choices: seq<Option<Replacements>>)
    requires Covers(after, Some(before)) && forall c :: c in choices ==> Covers(before, c)
    ensures forall c :: c in choices ==> Covers(after, c)
  {
  }

  lemma ChosenMore(needed: Replacements, choice: Option<Replacements>, choices: seq<Option<Replacements>>)
    requires forall group, field :: field in In(needed, group) <==> exists i :: 0 <= i < |choices| && Chooses(choices[i], group, field)
    ensures var more := choices + [choice];
            forall group, field :: field in In(With(needed, choice), group) <==> exists i :: 0 <= i < |more| && Chooses(more[i], group, field)
  {
    var more := choices + [choice];
    forall group, field
      ensures field in In(With(needed, choice), group) <==> exists i :: 0 <= i < |more| && Chooses(more[i], group, field)
    {
      assert field in In(With(needed, choice), group) <==> field in In(needed, group) || Chooses(choice, group, field);
      if i :| 0 <= i < |choices| && Chooses(choices[i], group, field) { assert more[i] == choices[i]; }
      if Chooses(choice, group, field) { assert more[|choices|] == choice; }
    }
  }

  /** The rules that some of the exchanges need. */
  method Collect(lib: Library, raw: Replacements, exchanges: seq<Recorded>, ghost ok: string -> bool)
    returns (needed: Replacements, ghost choices: seq<Option<Replacements>>)
    ensures Within(needed, raw)
    ensures |choices| == |exchanges| && forall j :: 0 <= j < |choices| ==> choices[j] == Choice(lib, raw, exchanges[j])
    ensures forall c :: c in choices ==> Covers(needed, c)
    ensures forall group, field :: field in In(needed, group) <==> exists i :: 0 <= i < |choices| && Chooses(choices[i], group, field)
    ensures EachValue(ok, needed) <==> forall c :: c in choices ==> EachChosen(ok, c)
  {
    needed, choices := NOTHING, [];
    for i := 0 to |exchanges|
      invariant |choices| == i && forall j :: 0 <= j < i ==> choices[j] == Choice(lib, raw, exchanges[j])
      invariant Within(needed, raw) && forall c :: c in choices ==> Covers(needed, c)
      invariant EachValue(ok, needed) <==> forall c :: c in choices ==> EachChosen(ok, c)
      invariant forall group, field :: field in In(needed, group) <==> exists i :: 0 <= i < |choices| && Chooses(choices[i], group, field)
    {
      var choice := Inspect(lib, raw, exchanges[i]);
      WithCovers(raw, needed, choice, ok);
      CoversMore(needed, With(needed, choice), choices);
      ChosenMore(needed, choice, choices);
      needed, choices := With(needed, choice), choices + [choice];
    }
  }

  /** Every rule keeps its key; a rule no selected request needs has no value. */
  function Retain(rules: map<string, string>, resolved: map<string, string>): map<string, string> {
    map k | k in rules :: if k in resolved then resolved[k] else ""
  }

  /**
    resolveApplicableReplacements succeeds exactly when every field of every selected request that will be
    replaced has a variable that is set and not empty. Then for each selected request, sent with the
    media type and encoding it was recorded with, every field that will be replaced has a value.
   */
  method ResolveApplicable(lib: Library, raw: Replacements, exchanges: seq<Recorded>, environment: map<string, string>)
    returns (r: Option<Replacements>)
    ensures r.Some? <==> forall e :: e in exchanges ==> EachChosen(ResolvableIn(environment), Choice(lib, raw, e))
    ensures r.Some? ==> SameKeys(r.value, raw)
    ensures r.Some? ==> forall group, field :: field in In(raw, group) ==>
                          IsResolved(Wanted(lib, raw, exchanges, group, field), In(r.value, group)[field], In(raw, group)[field], environment)
    ensures r.Some? ==> forall e :: e in exchanges ==> Supplied(lib, r.value, e)
  {
    if raw.json == map[] && raw.query == map[] && raw.form == map[] {
      forall e | e in exchanges { NoRulesNoNeeds(lib, raw, e, ResolvableIn(environment)); }
      return Some(raw);
    }
    ghost var choices;
    var needed;
    needed, choices := Collect(lib, raw, exchanges, ResolvableIn(environment));
    r := ResolveNeeded(raw, needed, environment);
    assert forall c :: c in choices ==> exists e :: e in exchanges && c == Choice(lib, raw, e);
    forall group, field ensures field in In(needed, group) <==> Wanted(lib, raw, exchanges, group, field) {
      NeededIsWanted(lib, raw, exchanges, choices, group, field);
    }
    if r.Some? {
      forall e | e in exchanges { NeededIsGiven(lib, raw, e, needed, r.value); }
    }
  }

  lemma NeededIsWanted(lib: Library, raw: Replacements, exchanges: seq<Recorded>, choices: seq<Option<Replacements>>, group: Group, field: string)
    requires |choices| == |exchanges| && forall j :: 0 <= j < |choices| ==> choices[j] == Choice(lib, raw, exchanges[j])
    ensures (exists i :: 0 <= i < |choices| && Chooses(choices[i], group, field)) <==> Wanted(lib, raw, exchanges, group, field)
  {
  }

  /** A wanted rule has its expression filled in; the others have no value. */
  predicate IsResolved(wanted: bool, value: string, expression: string, environment: map<string, string>) {
    if wanted then value != "" && ComesFrom(value, expression, environment) else value == ""
  }

  /** Every rule that replay will apply to the exchange has a value. */
  ghost predicate Supplied(lib: Library, resolved: Replacements, e: Recorded) {
    var choice := Choice(lib, resolved, e);
    choice.Some? ==> AllValuesGiven(choice.value)
  }

  lemma NoRulesNoNeeds(lib: Library, raw: Replacements, e: Recorded, ok: string -> bool)
    requires raw == NOTHING
    ensures EachChosen(ok, Choice(lib, raw, e)) && Supplied(lib, raw, e)
  {
  }

  method ResolveNeeded(raw: Replacements, needed: Replacements, environment: map<string, string>) returns (r: Option<Replacements>)
    requires Within(needed, raw)
    ensures r.Some? <==> EachValue(ResolvableIn(environment), needed)
    ensures r.Some? ==> SameKeys(r.value, raw) && Fills(needed, r.value)
    ensures r.Some? ==> forall group, field :: field in In(raw, group) ==>
                          IsResolved(field in In(needed, group), In(r.value, group)[field], In(raw, group)[field], environment)
  {
    var json := ResolveGroup(raw.json, needed.json, environment);
    var query := ResolveGroup(raw.query, needed.query, environment);
    var form := ResolveGroup(raw.form, needed.form, environment);
    if json == None || query == None || form == None {
      return None;
    }
    return Some(Replacements(json.value, query.value, form.value));
  }

  method ResolveGroup(raw: map<string, string>, needed: map<string, string>, environment: map<string, string>)
    returns (r: Option<map<string, string>>)
    requires SomeOf(needed, raw)
    ensures r.Some? <==> Each(ResolvableIn(environment), needed)
    ensures r.Some? ==> r.value.Keys == raw.Keys && FillsFields(needed, r.value)
    ensures r.Some? ==> forall k :: k in raw ==> IsResolved(k in needed, r.value[k], raw[k], environment)
  {
    var resolved := ResolveFields(needed, environment);
    if resolved == None {
      return None;
    }
    return Some(Retain(raw, resolved.value));
  }

  predicate FillsFields(needed: map<string, string>, resolved: map<string, string>) {
    forall k :: k in needed && k in resolved ==> resolved[k] != ""
  }

  predicate Fills(needed: Replacements, resolved: Replacements) {
    FillsFields(needed.json, resolved.json) && FillsFields(needed.query, resolved.query) && FillsFields(needed.form, resolved.form)
  }

  lemma NeededIsGiven(lib: Library, raw: Replacements, e: Recorded, needed: Replacements, resolved: Replacements)
    requires Covers(needed, Choice(lib, raw, e)) && SameKeys(raw, resolved) && Fills(needed, resolved)
    ensures Supplied(lib, resolved, e)
  {
    if !Unsendable(e) {
      SelectionDependsOnKeys(lib, raw, resolved, RecordedSubject(e));
    }
  }

  /** The rule's value, wherever the exchange has the field. */
  lemma ChosenIsResolved(lib: Library, raw: Replacements, resolved: Replacements, exchanges: seq<Recorded>, environment: map<string, string>, e: Recorded)
    requires e in exchanges && SameKeys(raw, resolved) && !Unsendable(e) && Classifiable(lib, resolved, RecordedSubject(e))
    requires forall group, field :: field in In(raw, group) ==>
               IsResolved(Wanted(lib, raw, exchanges, group, field), In(resolved, group)[field], In(raw, group)[field], environment)
    ensures FilledIn(raw, Selected(lib, resolved, RecordedSubject(e)), environment)
  {
    SelectionDependsOnKeys(lib, raw, resolved, RecordedSubject(e));
    SelectionDependsOnKeys(lib, raw, raw, RecordedSubject(e));
    var chosen := Selected(lib, resolved, RecordedSubject(e));
    var i :| 0 <= i < |exchanges| && exchanges[i] == e;
    forall group, field | field in In(chosen, group)
      ensures Wanted(lib, raw, exchanges, group, field) && field in In(raw, group)
    {
      ChosenIsWanted(lib, raw, chosen, exchanges, i, group, field);
    }
    WantedIsFilledIn(lib, raw, resolved, chosen, exchanges, environment);
  }

  lemma WantedIsFilledIn(lib: Library, raw: Replacements, resolved: Replacements, chosen: Replacements, exchanges: seq<Recorded>,
                         environment: map<string, string>)
    requires SameKeys(raw, resolved) && Within(chosen, resolved)
    requires forall group, field :: field in In(chosen, group) ==> Wanted(lib, raw, exchanges, group, field) && field in In(raw, group)
    requires forall group, field :: field in In(raw, group) ==>
               IsResolved(Wanted(lib, raw, exchanges, group, field), In(resolved, group)[field], In(raw, group)[field], environment)
    ensures FilledIn(raw, chosen, environment)
  {
    forall group, field | field in In(chosen, group) ensures In(chosen, group)[field] == In(resolved, group)[field] { }
  }

  lemma ChosenIsWanted(lib: Library, raw: Replacements, chosen: Replacements, exchanges: seq<Recorded>, i: nat, group: Group, field: string)
    requires i < |exchanges| && Choice(lib, raw, exchanges[i]).Some? && SameKeys(Choice(lib, raw, exchanges[i]).value, chosen)
    requires field in In(chosen, group) && Within(Choice(lib, raw, exchanges[i]).value, raw)
    ensures Wanted(lib, raw, exchanges, group, field) && field in In(raw, group)
  {
    assert Chooses(Choice(lib, raw, exchanges[i]), group, field);
  }

  /** Each value is the rule's expression with its variable filled in. */
  ghost predicate FilledIn(raw: Replacements, chosen: Replacements, environment: map<string, string>) {
    forall group, field :: field in In(chosen, group) ==>
      field in In(raw, group) && ComesFrom(In(chosen, group)[field], In(raw, group)[field], environment)
  }

  /**
    Preflight, then execution: a request whose preflight passed never stops for a missing value, and what is sent is the
    recorded request with its fields replaced by the expressions of their rules, filled in.
   */
  method PreflightThenApply(lib: Library, raw: Replacements, exchanges: seq<Recorded>, environment: map<string, string>,
                            e: Recorded, headers: Header)
    returns (ready: bool, problem: Option<Problem>, rawQuery: string, body: Bytes, ghost chosen: Replacements)
    requires lib.Faithful() && e in exchanges && !Unsendable(e)
    requires GetHeader(headers, "Content-Type") == GetHeader(e.request.headers, "Content-Type")
    requires GetHeader(headers, "Content-Encoding") == GetHeader(e.request.headers, "Content-Encoding")
    ensures ready <==> forall x :: x in exchanges ==> EachChosen(ResolvableIn(environment), Choice(lib, raw, x))
    ensures !ready ==> problem == None
    ensures problem != Some(MissingRuntimeValue)
    ensures RulesApart(raw) ==> problem != Some(MissingTarget)
    ensures ready && problem.None? ==>
              && Choice(lib, raw, e).Some? && SameKeys(chosen, Choice(lib, raw, e).value) && FilledIn(raw, chosen, environment)
              && BodyRebuilt(lib, chosen, e.request.body, body) && rawQuery == RebuiltQuery(lib, chosen, e.rawQuery.value)
              && !MarkerLeft(lib, rawQuery, headers, body)
  {
    rawQuery, body, chosen := e.rawQuery.value, e.request.body, NOTHING;
    var replacements := ResolveApplicable(lib, raw, exchanges, environment);
    if replacements == None {
      return false, None, rawQuery, body, chosen;
    }
    var request := new OutgoingRequest(headers, rawQuery, body);
    assert SubjectOf(rawQuery, headers, body) == RecordedSubject(e);
    assert RulesApart(raw) ==> RulesApart(replacements.value);
    problem := request.Apply(lib, replacements.value);
    ready := true;
    if problem.None? {
      SelectionDependsOnKeys(lib, raw, replacements.value, RecordedSubject(e));
      ChosenIsResolved(lib, raw, replacements.value, exchanges, environment, e);
      rawQuery, body, chosen := request.rawQuery, request.body, Selected(lib, replacements.value, RecordedSubject(e));
    }
  }

  /** Said of one field of the sent body: it reads as its expression, filled in. */
  lemma SentFieldReads(lib: Library, raw: Replacements, chosen: Replacements, environment: map<string, string>, recorded: Bytes, sent: Bytes, path: string)
    requires FilledIn(raw, chosen, environment) && path in chosen.json
    requires BodyRebuilt(lib, chosen, recorded, sent) && Rebuildable(lib, chosen, recorded)
    ensures IsPointer(path) && lib.decodeJson(sent).Some? && path in raw.json
    ensures var field := Get(lib.decodeJson(sent).value, TokensOf(path));
            field.Some? && field.value.Str? && ComesFrom(field.value.text, raw.json[path], environment)
  {
    assert path in In(chosen, JsonGroup);
    AtTokensOfPath(chosen.json, chosen.json.Keys, path);
    ListedPathsAreCovered(lib.decodeJson(recorded).value, AtTokens(chosen.json, chosen.json.Keys), TokensOf(path));
    HiddenIsBelow(chosen.json, chosen.json.Keys, path);
  }
}
