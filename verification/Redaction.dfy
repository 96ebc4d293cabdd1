/** Probing, marker inference, and what capture does to bodies and their sizes (internal/sanitize). */
module Redaction {
  import opened Strings
  import opened Decimal
  import opened Json
  import opened Recording
  import opened Pointers
  import opened Rewrite
  import opened Sanitize

  // ----- ExistingJSON -----

  /** The probe can tell for every path whether its target exists. */
  ghost predicate CanProbe(j: Json, paths: set<string>) {
    forall p :: p in paths ==> IsPointer(p) && !MarkerAbove(j, TokensOf(p))
  }

  /** Of the rules at `paths`, those whose target exists. */
  ghost function Present(j: Json, values: map<string, string>, paths: set<string>): map<string, string> {
    map p | p in values && p in paths && Resolves(j, p) :: values[p]
  }

  /** The fields the body has, found without rewriting it. */
  method ExistingJson(lib: Library, body: Bytes, values: map<string, string>) returns (r: Result<map<string, string>>)
    ensures r.Ok? <==> lib.strictJson(body) && lib.decodeJson(body).Some? && CanProbe(lib.decodeJson(body).value, values.Keys)
    ensures r.Ok? ==> r.value == Present(lib.decodeJson(body).value, values, values.Keys)
    ensures r.Err? ==> r.problem == InvalidBody || r.problem == InvalidPath || r.problem == UnderMarker
    ensures r == Err(InvalidBody) <==> !lib.strictJson(body) || lib.decodeJson(body).None?
    ensures r == Err(InvalidPath) ==> !AllPointers(values.Keys)
    ensures r == Err(UnderMarker) ==> exists p :: p in values && IsPointer(p) && MarkerAbove(lib.decodeJson(body).value, TokensOf(p))
  {
    if !lib.strictJson(body) || lib.decodeJson(body) == None {
      return Err(InvalidBody);
    }
    r := ProbePaths(lib.decodeJson(body).value, values);
  }

  method ProbePaths(tree: Json, values: map<string, string>) returns (r: Result<map<string, string>>)
    ensures r.Ok? <==> CanProbe(tree, values.Keys)
    ensures r.Ok? ==> r.value == Present(tree, values, values.Keys)
    ensures r.Err? ==> r.problem == InvalidPath || r.problem == UnderMarker
    ensures r == Err(InvalidPath) ==> !AllPointers(values.Keys)
    ensures r == Err(UnderMarker) ==> exists p :: p in values && IsPointer(p) && MarkerAbove(tree, TokensOf(p))
  {
    var matched: map<string, string> := map[];
    var paths := SortKeys(values.Keys);
    ghost var done: set<string> := {};
    for i := 0 to |paths|
      invariant done == Elems(paths[..i]) && done <= values.Keys && CanProbe(tree, done)
      invariant matched == Present(tree, values, done)
    {
      var path := paths[i];
      SortedStep(values.Keys, paths, i);
      var parts := Pointer(path);
      if parts == None {
        return Err(InvalidPath);
      }
      var same, found, failed := ReplaceJson(tree, parts.value, None);
      if failed {
        return Err(UnderMarker);
      }
      if found {
        matched := matched[path := values[path]];
      }
      PresentStep(tree, values, done, path);
      done := done + {path};
    }
    assert paths[..|paths|] == paths;
    return Ok(matched);
  }

  lemma PresentStep(j: Json, values: map<string, string>, done: set<string>, path: string)
    requires path in values
    ensures Present(j, values, done + {path}) == if Resolves(j, path) then Present(j, values, done)[path := values[path]] else Present(j, values, done)
  {
  }

  /** What the probe found can always be replaced, when no two rules overlap; every target then reads back its value. */
  lemma ProbedPathsCanBeReplaced(lib: Library, body: Bytes, values: map<string, string>, matched: map<string, string>)
    requires lib.strictJson(body) && lib.decodeJson(body).Some? && AllPointers(values.Keys)
    requires forall p :: p in values ==> !LiesBelow(p, values.Keys)
    requires matched == Present(lib.decodeJson(body).value, values, values.Keys)
    ensures CanReplace(lib, body, matched, true)
    ensures forall p :: p in matched ==> Get(Rewritten(lib, body, matched), TokensOf(p)) == Some(Str(values[p]))
  {
    var tree := lib.decodeJson(body).value;
    forall p | p in matched ensures !LiesBelow(p, matched.Keys) {
      if LiesBelow(p, matched.Keys) { LiesBelowMore(p, matched.Keys, values.Keys); }
    }
    forall p | p in matched ensures Get(Rewritten(lib, body, matched), TokensOf(p)) == Some(Str(values[p])) {
      AtTokensOfPath(matched, matched.Keys, p);
      ListedPathsAreCovered(tree, AtTokens(matched, matched.Keys), TokensOf(p));
      HiddenIsBelow(matched, matched.Keys, p);
    }
  }

  // ----- Query strings and forms -----

  /** ReplaceValues: every occurrence of an existing key. */
  method ReplaceValues(lib: Library, raw: string, values: map<string, string>, required: bool) returns (r: Result<string>)
    ensures r.Ok? <==> lib.parseQuery(raw).Some? && (required ==> values.Keys <= lib.parseQuery(raw).value.Keys)
    ensures r.Ok? ==> r.value == lib.encodeQuery(WithValues(lib.parseQuery(raw).value, values))
    ensures r == Err(InvalidForm) <==> lib.parseQuery(raw).None?
    ensures r.Err? ==> r.problem == InvalidForm || r.problem == MissingTarget
  {
    var parsed := lib.parseQuery(raw);
    if parsed == None {
      return Err(InvalidForm);
    }
    var form := parsed.value;
    var keys := SortKeys(values.Keys);
    ghost var done: set<string> := {};
    for i := 0 to |keys|
      invariant done == Elems(keys[..i]) && done <= values.Keys
      invariant required ==> done <= parsed.value.Keys
      invariant form == WithSome(parsed.value, values, done)
    {
      var key := keys[i];
      SortedStep(values.Keys, keys, i);
      WithOneMore(parsed.value, values, done, key);
      done := done + {key};
      if key !in form {
        if required {
          return Err(MissingTarget);
        }
        continue;
      }
      form := form[key := Repeat(values[key], |form[key]|)];
    }
    assert keys[..|keys|] == keys;
    assert form == WithValues(parsed.value, values);
    return Ok(lib.encodeQuery(form));
  }

  function Repeat(value: string, n: nat): (r: seq<string>)
    ensures |r| == n && forall i :: 0 <= i < n ==> r[i] == value
  {
    seq(n, _ => value)
  }

  /** Each listed key keeps its number of occurrences; each occurrence gets the new value. */
  function WithSome(form: Form, values: map<string, string>, keys: set<string>): Form {
    map k | k in form :: if k in values && k in keys then Repeat(values[k], |form[k]|) else form[k]
  }

  function WithValues(form: Form, values: map<string, string>): Form {
    WithSome(form, values, values.Keys)
  }

  lemma WithOneMore(form: Form, values: map<string, string>, done: set<string>, key: string)
    requires key in values && key !in done
    ensures WithSome(form, values, done + {key})
         == if key in form then WithSome(form, values, done)[key := Repeat(values[key], |form[key]|)] else WithSome(form, values, done)
    ensures key in form ==> WithSome(form, values, done)[key] == form[key]
  {
  }

  /** A rule is found exactly when the form has its key, and keeps its value. */
  ghost predicate Found(form: Form, values: map<string, string>, matched: map<string, string>) {
    && (forall k :: k in matched <==> k in values && k in form)
    && (forall k :: k in matched && k in values ==> matched[k] == values[k])
  }

  method ExistingValues(lib: Library, raw: string, values: map<string, string>) returns (r: Result<map<string, string>>)
    ensures r.Ok? <==> lib.parseQuery(raw).Some?
    ensures r.Err? ==> r.problem == InvalidForm
    ensures r.Ok? ==> Found(lib.parseQuery(raw).value, values, r.value)
  {
    var parsed := lib.parseQuery(raw);
    if parsed == None {
      return Err(InvalidForm);
    }
    var matched: map<string, string> := map[];
    var keys := RangeKeys(values.Keys);
    for i := 0 to |keys|
      invariant forall k :: k in matched <==> k in keys[..i] && k in parsed.value
      invariant forall k :: k in matched ==> k in values && matched[k] == values[k]
    {
      var key := keys[i];
      assert key in keys && keys[..i + 1] == keys[..i] + [key];
      if key in parsed.value {
        matched := matched[key := values[key]];
      }
    }
    assert keys[..|keys|] == keys;
    return Ok(matched);
  }

  /**
    The probe of a form and its rewrite agree: what was found can be required, the rules that were not found
    would change nothing, and the rewritten form has the keys it had, each as often.
   */
  lemma FoundValuesSuffice(form: Form, values: map<string, string>, matched: map<string, string>)
    requires Found(form, values, matched)
    ensures matched.Keys <= form.Keys
    ensures WithValues(form, matched) == WithValues(form, values)
    ensures SameShape(form, WithValues(form, values))
    ensures forall k, i :: k in form && 0 <= i < |form[k]| ==>
                             WithValues(form, values)[k][i] == if k in matched then matched[k] else form[k][i]
  {
    assert WithValues(form, matched).Keys == form.Keys;
    forall k | k in form ensures WithValues(form, matched)[k] == WithValues(form, values)[k] { }
    WithValuesKeepsShape(form, values);
  }

  lemma WithValuesKeepsShape(form: Form, values: map<string, string>)
    ensures SameShape(form, WithValues(form, values))
  {
  }

  /** The whole-query omission marker. */
  predicate QueryWithheld(lib: Library, raw: string) {
    lib.parseQuery(raw) == Some(WITHHELD_QUERY)
  }

  // ----- Marker inference -----

  /** `path` leads through `prefix` to a marker in the value that stands there. */
  predicate Marked(value: Json, prefix: Tokens, path: string) {
    && IsPointer(path) && prefix <= TokensOf(path)
    && Get(value, TokensOf(path)[|prefix|..]) == Some(Str(MARKER))
  }

  lemma MarkedChild(value: Json, prefix: Tokens, path: string)
    requires IsPointer(path) && prefix <= TokensOf(path) && |prefix| < |TokensOf(path)|
    ensures var t := TokensOf(path)[|prefix|];
            Marked(value, prefix, path) <==> Child(value, t).Some? && Marked(Child(value, t).value, prefix + [t], path)
  {
    var tokens := TokensOf(path);
    assert prefix + [tokens[|prefix|]] == tokens[..|prefix| + 1];
    assert tokens[|prefix|..][1..] == tokens[|prefix| + 1..];
  }

  lemma MarkedInContainer(value: Json, prefix: Tokens, path: string)
    requires value.Obj? || value.Arr?
    ensures Marked(value, prefix, path) <==>
            exists t :: Child(value, t).Some? && Marked(Child(value, t).value, prefix + [t], path)
  {
    if Marked(value, prefix, path) {
      if TokensOf(path)[|prefix|..] != [] { MarkedChild(value, prefix, path); }
    }
    forall t | Child(value, t).Some? && Marked(Child(value, t).value, prefix + [t], path) ensures Marked(value, prefix, path) {
      assert TokensOf(path)[|prefix|] == (prefix + [t])[|prefix|] == t;
      assert prefix == (prefix + [t])[..|prefix|] == TokensOf(path)[..|prefix|];
      MarkedChild(value, prefix, path);
    }
  }

  /** markerPointers: exactly the non-root pointers that evaluate to the marker, each once, in whatever order maps are visited. */
  method MarkerPointers(value: Json, pointer: string, ghost prefix: Tokens) returns (paths: seq<string>)
    requires pointer == Print(prefix)
    ensures Distinct(paths) && forall p :: p in paths <==> Marked(value, prefix, p)
    decreases value, 1
  {
    paths := [];
    match value
    case Str(text) =>
      MarkedScalar(value, prefix);
      if pointer != "" && IsRedacted(text) {
        paths := [pointer];
      }
    case Obj(fields) =>
      paths := MarkerPointersOfFields(value, pointer, prefix);
    case Arr(items) =>
      paths := MarkerPointersOfItems(value, pointer, prefix);
    case _ =>
      MarkedScalar(value, prefix);
  }

  method MarkerPointersOfFields(value: Json, pointer: string, ghost prefix: Tokens) returns (paths: seq<string>)
    requires pointer == Print(prefix) && value.Obj?
    ensures Distinct(paths) && forall p :: p in paths <==> Marked(value, prefix, p)
    decreases value, 0
  {
    paths := [];
    var keys := RangeKeys(value.fields.Keys);
    for i := 0 to |keys|
      invariant Distinct(paths) && forall p :: p in paths <==> MarkedAmong(value, prefix, keys[..i], p)
    {
      PrintSnocIs(prefix, keys[i]);
      assert keys[i] in keys;
      var nested := MarkerPointers(value.fields[keys[i]], pointer + "/" + Escape(keys[i]), prefix + [keys[i]]);
      forall p ensures MarkedAmong(value, prefix, keys[..i + 1], p) <==> p in paths || p in nested { AmongOneMore(value, prefix, keys, i, p); }
      forall p | p in nested ensures p !in paths { MarkedBelowOne(value, prefix, keys, i, p); }
      DistinctConcat(paths, nested);
      paths := paths + nested;
    }
    assert keys[..|keys|] == keys;
    forall p ensures p in paths <==> Marked(value, prefix, p) { AmongAll(value, prefix, keys, p); }
  }

  method MarkerPointersOfItems(value: Json, pointer: string, ghost prefix: Tokens) returns (paths: seq<string>)
    requires pointer == Print(prefix) && value.Arr?
    ensures Distinct(paths) && forall p :: p in paths <==> Marked(value, prefix, p)
    decreases value, 0
  {
    paths := [];
    ghost var keys := seq(|value.items|, i requires 0 <= i < |value.items| => Itoa(i));
    forall i, j | 0 <= i < j < |keys| ensures keys[i] != keys[j] { ItoaInjective(i, j); }
    for i := 0 to |value.items|
      invariant Distinct(paths) && forall p :: p in paths <==> MarkedAmong(value, prefix, keys[..i], p)
    {
      PrintSnocIs(prefix, Itoa(i));
      ArrayIndexOfItoa(i, |value.items|);
      var nested := MarkerPointers(value.items[i], pointer + "/" + Escape(Itoa(i)), prefix + [Itoa(i)]);
      forall p ensures MarkedAmong(value, prefix, keys[..i + 1], p) <==> p in paths || p in nested { AmongOneMore(value, prefix, keys, i, p); }
      forall p | p in nested ensures p !in paths { MarkedBelowOne(value, prefix, keys, i, p); }
      DistinctConcat(paths, nested);
      paths := paths + nested;
    }
    assert keys[..|keys|] == keys;
    forall t | Child(value, t).Some? ensures t in keys { assert keys[ArrayIndex(t, |value.items|).value] == t; }
    forall p ensures p in paths <==> Marked(value, prefix, p) { AmongAll(value, prefix, keys, p); }
  }

  /** A marker below one of these children. */
  ghost predicate MarkedAmong(value: Json, prefix: Tokens, children: Tokens, path: string) {
    exists t :: t in children && Child(value, t).Some? && Marked(Child(value, t).value, prefix + [t], path)
  }

  lemma AmongOneMore(value: Json, prefix: Tokens, children: Tokens, i: nat, path: string)
    requires i < |children| && Child(value, children[i]).Some?
    ensures MarkedAmong(value, prefix, children[..i + 1], path) <==>
            MarkedAmong(value, prefix, children[..i], path) || Marked(Child(value, children[i]).value, prefix + [children[i]], path)
  {
    assert children[..i + 1] == children[..i] + [children[i]];
    assert children[i] in children[..i + 1];
  }

  /** No pointer leads through two children. */
  lemma MarkedBelowOne(value: Json, prefix: Tokens, children: Tokens, i: nat, path: string)
    requires i < |children| && Distinct(children) && Child(value, children[i]).Some?
    requires Marked(Child(value, children[i]).value, prefix + [children[i]], path)
    ensures !MarkedAmong(value, prefix, children[..i], path)
  {
    forall t | Child(value, t).Some? && Marked(Child(value, t).value, prefix + [t], path) ensures t == children[i] {
      MarkedPasses(Child(value, t).value, prefix, t, path);
      MarkedPasses(Child(value, children[i]).value, prefix, children[i], path);
    }
    assert children[i] !in children[..i];
  }

  lemma MarkedPasses(value: Json, prefix: Tokens, token: string, path: string)
    requires Marked(value, prefix + [token], path)
    ensures |TokensOf(path)| > |prefix| && TokensOf(path)[|prefix|] == token
  {
    assert TokensOf(path)[|prefix|] == (prefix + [token])[|prefix|];
  }

  lemma DistinctConcat(a: seq<string>, b: seq<string>)
    requires Distinct(a) && Distinct(b) && forall x :: x in b ==> x !in a
    ensures Distinct(a + b)
  {
    var s := a + b;
    forall i, j | 0 <= i < j < |s| ensures s[i] != s[j] {
      if i < |a| <= j { assert s[i] == a[i] && s[j] == b[j - |a|] && b[j - |a|] in b; }
    }
  }

  lemma AmongAll(value: Json, prefix: Tokens, children: Tokens, path: string)
    requires value.Obj? || value.Arr?
    requires forall t :: Child(value, t).Some? ==> t in children
    ensures MarkedAmong(value, prefix, children, path) <==> Marked(value, prefix, path)
  {
    MarkedInContainer(value, prefix, path);
  }

  lemma PrintSnocIs(prefix: Tokens, token: string)
    ensures Print(prefix + [token]) == Print(prefix) + "/" + Escape(token)
  {
    assert (prefix + [token])[..|prefix|] == prefix;
  }

  lemma MarkedScalar(value: Json, prefix: Tokens)
    requires !value.Obj? && !value.Arr?
    ensures forall p :: Marked(value, prefix, p) <==> value == Str(MARKER) && prefix != [] && p == Print(prefix)
  {
    forall p ensures Marked(value, prefix, p) <==> value == Str(MARKER) && prefix != [] && p == Print(prefix) {
      if Marked(value, prefix, p) {
        assert TokensOf(p)[|prefix|..] == [];
        assert TokensOf(p) == prefix;
        PrintParse(p);
      }
      if prefix != [] && p == Print(prefix) { ParsePrint(prefix); }
    }
  }
}
