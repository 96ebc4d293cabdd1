/** Redaction and replacement of recorded bodies (internal/sanitize), on top of the rewriting of decoded values. */
module Sanitize {
  import opened Strings
  import opened Json
  import opened Recording
  import opened Pointers
  import opened Rewrite
  import JsonText
  import UniqueNames

  datatype Problem =
    | InvalidBody | InvalidPath | MissingTarget | UnderMarker | InvalidForm
    | QueryWasWithheld | EncodedBody | InvalidContentType | UnsupportedContentType
    | MissingRuntimeValue | RemainingMarkers

  datatype Result<+T> = Ok(value: T) | Err(problem: Problem)

  // ----- validJSON -----

  /** A body that is UTF-8 and JSON, and repeats no name. */
  method ValidJson(lib: Library, body: Bytes) returns (valid: bool)
    requires lib.ReadsJson()
    ensures valid <==> lib.validUtf8(body) && lib.decodeJson(body).Some? && NamesAreUnique(lib.text(body))
    ensures valid == lib.strictJson(body)
  {
    if !lib.validUtf8(body) || lib.decodeJson(body) == None {
      return false;
    }
    ghost var d: JsonText.Doc :| JsonText.Reads(d, lib.text(body));
    var decoder := new UniqueNames.Decoder(lib.tokens(body));
    assert decoder.rest == UniqueNames.DocTokens(d) + [];
    valid := UniqueNames.UniqueJsonValue(decoder, d, []);
    forall e | JsonText.Reads(e, lib.text(body)) ensures UniqueNames.UniqueDoc(e) <==> UniqueNames.UniqueDoc(d) {
      UniqueNames.SameTokens(e, d, [], []);
    }
  }

  /** A body is rewritten only if its text loses nothing when it is decoded: conflicting members are refused. */
  lemma RewrittenBodiesLoseNothing(lib: Library, body: Bytes, values: map<string, string>, required: bool, d: JsonText.Doc)
    requires lib.ReadsJson() && JsonText.Reads(d, lib.text(body)) && CanReplace(lib, body, values, required)
    ensures lib.decodeJson(body) == Some(JsonText.Denote(d)) && UniqueNames.UniqueDoc(d) && UniqueNames.HoldsAll(d.node)
  {
    UniqueNames.UniqueHasOneValue(d.node);
    UniqueNames.NothingIsLost(d.node);
  }

  // ----- Pointer-keyed values as token-keyed values -----

  predicate AllPointers(paths: set<string>) {
    forall p :: p in paths ==> IsPointer(p)
  }

  function TokensOf(path: string): Tokens
    requires IsPointer(path)
  {
    Parse(path).value
  }

  ghost function TokenSet(paths: set<string>): (r: set<Tokens>)
    requires AllPointers(paths)
    ensures forall p :: p in r <==> p != [] && Print(p) in paths
  {
    var r := set path | path in paths :: TokensOf(path);
    assert forall p :: p in r ==> p != [] && Print(p) in paths by {
      forall path | path in paths ensures Print(TokensOf(path)) == path { PrintParse(path); }
    }
    assert forall p: Tokens :: p != [] && Print(p) in paths ==> p in r by {
      forall p: Tokens | p != [] && Print(p) in paths ensures p in r { ParsePrint(p); assert TokensOf(Print(p)) == p; }
    }
    r
  }

  /** The replacements `values` asks for at `paths`. */
  ghost function AtTokens(values: map<string, string>, paths: set<string>): (r: Values)
    requires paths <= values.Keys && AllPointers(paths)
    ensures AllText(r)
    ensures forall p :: p in r <==> p != [] && Print(p) in paths
    ensures forall p :: p in r ==> r[p] == Str(values[Print(p)])
  {
    map p | p in TokenSet(paths) :: Str(values[Print(p)])
  }

  lemma AtTokensOfPath(values: map<string, string>, paths: set<string>, path: string)
    requires paths <= values.Keys && AllPointers(paths) && IsPointer(path)
    ensures TokensOf(path) in AtTokens(values, paths) <==> path in paths
    ensures path in paths ==> AtTokens(values, paths)[TokensOf(path)] == Str(values[path])
  {
    PrintParse(path);
  }

  lemma AtTokensOneMore(values: map<string, string>, paths: set<string>, path: string)
    requires paths <= values.Keys && AllPointers(paths) && IsPointer(path) && path in values
    ensures AtTokens(values, paths + {path}) == AtTokens(values, paths)[TokensOf(path) := Str(values[path])]
  {
    var more, one := AtTokens(values, paths + {path}), AtTokens(values, paths);
    var expected := one[TokensOf(path) := Str(values[path])];
    forall p ensures (p in more <==> p in expected) && (p in more ==> more[p] == expected[p]) { AtTokensOneMoreAt(values, paths, path, p); }
    assert more == expected;
  }

  lemma AtTokensOneMoreAt(values: map<string, string>, paths: set<string>, path: string, p: Tokens)
    requires paths <= values.Keys && AllPointers(paths) && IsPointer(path) && path in values
    ensures var more, one := AtTokens(values, paths + {path}), AtTokens(values, paths);
            && (p in more <==> p in one || p == TokensOf(path))
            && (p in more ==> more[p] == if p == TokensOf(path) then Str(values[path]) else one[p])
  {
    NamesPath(p, path);
  }

  lemma NamesPath(p: Tokens, path: string)
    requires IsPointer(path)
    ensures p != [] && Print(p) == path <==> p == TokensOf(path)
  {
    PrintParse(path);
    if p != [] && Print(p) == path { ParsePrint(p); }
  }

  predicate Resolves(j: Json, path: string) {
    IsPointer(path) && Get(j, TokensOf(path)).Some?
  }

  ghost predicate AnyResolves(j: Json, paths: set<string>) {
    exists p :: p in paths && Resolves(j, p)
  }

  /** Some path of the set is a proper prefix, token by token. */
  ghost predicate LiesBelow(path: string, paths: set<string>) {
    exists p :: p in paths && HasPrefix(path, p + "/")
  }

  /** Being hidden by listed paths is lying below one of them, as text. */
  lemma HiddenIsBelow(values: map<string, string>, paths: set<string>, path: string)
    requires paths <= values.Keys && AllPointers(paths) && IsPointer(path)
    ensures Hidden(AtTokens(values, paths), [], TokensOf(path)) <==> LiesBelow(path, paths)
  {
    var tokens := TokensOf(path);
    PrintParse(path);
    forall n | 0 <= n < |tokens| && [] + tokens[..n] in AtTokens(values, paths) ensures LiesBelow(path, paths) {
      var q := tokens[..n];
      assert [] + q == q && q != tokens;
      PrefixIsTokenPrefix(q, tokens);
      if Print(q) == path { PrintInjective(q, tokens); }
      assert HasPrefix(path, Print(q) + "/");
    }
    forall p | p in paths && HasPrefix(path, p + "/") ensures Hidden(AtTokens(values, paths), [], tokens) {
      BelowIsPrefix(path, p);
      AtTokensOfPath(values, paths, p);
      var q := TokensOf(p);
      assert [] + tokens[..|q|] == q;
    }
  }

  lemma BelowIsPrefix(path: string, p: string)
    requires IsPointer(path) && IsPointer(p) && HasPrefix(path, p + "/")
    ensures TokensOf(p) <= TokensOf(path) && |TokensOf(p)| < |TokensOf(path)|
  {
    PrintParse(path);
    PrintParse(p);
    PrefixIsTokenPrefix(TokensOf(p), TokensOf(path));
    assert TokensOf(p) != TokensOf(path);
  }

  // ----- ReplaceJSON -----

  /** What the rewritten body decodes to. */
  ghost function Rewritten(lib: Library, body: Bytes, values: map<string, string>): Json
    requires lib.decodeJson(body).Some? && AllPointers(values.Keys)
  {
    Subst(lib.decodeJson(body).value, AtTokens(values, values.Keys), [])
  }

  ghost predicate CanReplace(lib: Library, body: Bytes, values: map<string, string>, required: bool) {
    && lib.strictJson(body) && lib.decodeJson(body).Some? && AllPointers(values.Keys)
    && (required ==> AllPresent(lib.decodeJson(body).value, values.Keys, values.Keys))
  }

  /** Each path resolves and lies below no other one. */
  ghost predicate AllPresent(j: Json, paths: set<string>, among: set<string>) {
    forall p :: p in paths ==> Resolves(j, p) && !LiesBelow(p, among)
  }

  /** The loop of ReplaceJSON over a decoded body. */
  method ReplacePaths(tree: Json, values: map<string, string>, required: bool) returns (r: Result<Json>, touched: bool)
    ensures r.Ok? <==> AllPointers(values.Keys) && (required ==> AllPresent(tree, values.Keys, values.Keys))
    ensures r.Ok? ==> r.value == Subst(tree, AtTokens(values, values.Keys), [])
    ensures r.Ok? ==> (touched <==> AnyResolves(tree, values.Keys))
    ensures r.Err? ==> r.problem == InvalidPath || r.problem == MissingTarget
    ensures r == Err(InvalidPath) ==> !AllPointers(values.Keys)
    ensures r == Err(MissingTarget) ==> required && exists p :: p in values && IsPointer(p) && (!Resolves(tree, p) || LiesBelow(p, values.Keys))
  {
    var result := tree;
    var paths := SortKeys(values.Keys);
    ghost var done: set<string> := {};
    NothingToReplace(tree, values);
    touched := false;
    for i := 0 to |paths|
      invariant done == Elems(paths[..i]) && done <= values.Keys && AllPointers(done)
      invariant result == Subst(tree, AtTokens(values, done), [])
      invariant touched <==> AnyResolves(tree, done)
      invariant required ==> AllPresent(tree, done, values.Keys)
    {
      var path := paths[i];
      SortedStep(values.Keys, paths, i);
      var parts := Pointer(path);
      if parts == None {
        return Err(InvalidPath), touched;
      }
      var updated, found, failed := ReplaceJson(result, parts.value, Some(Str(values[path])));
      ReplaceStep(tree, values, done, path);
      if !found && required {
        if LiesBelow(path, done) { LiesBelowMore(path, done, values.Keys); }
        return Err(MissingTarget), touched;
      }
      if !found && Resolves(tree, path) { OuterResolves(tree, done, path); }
      AnyResolvesMore(tree, done, path);
      touched := touched || found;
      done := done + {path};
      result := updated;
    }
    assert paths[..|paths|] == paths;
    return Ok(result), touched;
  }

  lemma AnyResolvesMore(j: Json, paths: set<string>, path: string)
    ensures AnyResolves(j, paths + {path}) <==> AnyResolves(j, paths) || Resolves(j, path)
  {
    if Resolves(j, path) { assert path in paths + {path}; }
  }

  lemma LiesBelowMore(path: string, some: set<string>, more: set<string>)
    requires some <= more && LiesBelow(path, some)
    ensures LiesBelow(path, more)
  {
  }

  method ReplaceJsonBody(lib: Library, body: Bytes, values: map<string, string>, required: bool) returns (r: Result<Bytes>)
    ensures r.Ok? <==> CanReplace(lib, body, values, required)
    ensures r.Err? ==> r.problem == InvalidBody || r.problem == InvalidPath || r.problem == MissingTarget
    ensures r == Err(InvalidBody) <==> !lib.strictJson(body) || lib.decodeJson(body).None?
    ensures r == Err(InvalidPath) ==> !AllPointers(values.Keys)
    ensures r == Err(MissingTarget) ==> required
    ensures r.Ok? && lib.Faithful() ==> lib.strictJson(r.value) && lib.decodeJson(r.value) == Some(Rewritten(lib, body, values))
    ensures r.Ok? ==> r.value == if AnyResolves(lib.decodeJson(body).value, values.Keys) then lib.encodeJson(Rewritten(lib, body, values)) else body
  {
    if !lib.strictJson(body) || lib.decodeJson(body) == None {
      return Err(InvalidBody);
    }
    var tree := lib.decodeJson(body).value;
    var updated, touched := ReplacePaths(tree, values, required);
    if updated.Err? {
      return Err(updated.problem);
    }
    if lib.Faithful() { SubstKeepsFit(tree, AtTokens(values, values.Keys), [], JsonText.MAX_NESTING); }
    if touched {
      return Ok(lib.encodeJson(updated.value));
    }
    NothingResolves(tree, values);
    return Ok(body);
  }

  lemma NothingResolves(j: Json, values: map<string, string>)
    requires AllPointers(values.Keys) && !AnyResolves(j, values.Keys)
    ensures Subst(j, AtTokens(values, values.Keys), []) == j
  {
    var at := AtTokens(values, values.Keys);
    forall q | [] + q in at ensures Get(j, q).None? {
      assert [] + q == q;
      ParsePrint(q);
      assert !Resolves(j, Print(q));
    }
    AbsentPathsChangeNothing(j, at, []);
  }

  lemma NothingToReplace(j: Json, values: map<string, string>)
    ensures AtTokens(values, {}) == map[] && Subst(j, AtTokens(values, {}), []) == j
  {
    NothingBelow(j, map[], []);
  }

  /** In the sorted order a path comes after everything it lies below. */
  lemma SortedStep(keys: set<string>, paths: seq<string>, i: nat)
    requires paths == SortedKeys(keys) && i < |paths|
    ensures paths[i] in keys && paths[i] !in Elems(paths[..i]) && Elems(paths[..i + 1]) == Elems(paths[..i]) + {paths[i]}
    ensures Elems(paths[..i]) <= keys
    ensures LiesBelow(paths[i], keys) ==> LiesBelow(paths[i], Elems(paths[..i]))
  {
    SortedKeysAscend(keys);
    SortedKeysMembers(keys);
    TakeOneMore(paths, i);
    forall q | q in keys && HasPrefix(paths[i], q + "/") ensures q in Elems(paths[..i]) { SortedPrefix(keys, paths, i, q); }
  }

  lemma TakeOneMore(paths: seq<string>, i: nat)
    requires i < |paths| && Distinct(paths)
    ensures paths[i] in paths && paths[i] !in Elems(paths[..i]) && Elems(paths[..i + 1]) == Elems(paths[..i]) + {paths[i]}
    ensures Elems(paths[..i]) <= Elems(paths)
  {
    assert paths[..i + 1] == paths[..i] + [paths[i]];
  }

  lemma SortedPrefix(keys: set<string>, paths: seq<string>, i: nat, q: string)
    requires paths == SortedKeys(keys) && i < |paths| && q in keys && HasPrefix(paths[i], q + "/")
    ensures q in Elems(paths[..i])
  {
    assert q == paths[i][..|q| + 1][..|q|] == paths[i][..|q|];
    PrefixIsLess(q, paths[i]);
    SortedKeysMembers(keys);
    assert q in paths;
    var n :| 0 <= n < |paths| && paths[n] == q;
    LesserIsEarlier(keys, n, i);
    assert paths[..i][n] == q;
  }

  lemma LesserIsEarlier(keys: set<string>, n: nat, i: nat)
    requires n < |SortedKeys(keys)| && i < |SortedKeys(keys)| && Less(SortedKeys(keys)[n], SortedKeys(keys)[i])
    ensures n < i
  {
    SortedKeysAscend(keys);
    LessIsStrictTotal();
  }

  /** One turn of the loop: what it finds, and what it makes of the tree. */
  lemma ReplaceStep(j: Json, values: map<string, string>, done: set<string>, path: string)
    requires done <= values.Keys && AllPointers(done) && path in values && path !in done && IsPointer(path)
    ensures var s := Subst(j, AtTokens(values, done), []);
            && (Get(s, TokensOf(path)).Some? <==> Resolves(j, path) && !LiesBelow(path, done))
            && Subst(j, AtTokens(values, done + {path}), [])
               == if Get(s, TokensOf(path)).Some? then Put(s, TokensOf(path), Str(values[path])) else s
  {
    var tokens := TokensOf(path);
    assert [] + tokens == tokens;
    AtTokensOfPath(values, done, path);
    AtTokensOneMore(values, done, path);
    SubstOneMore(j, AtTokens(values, done), [], tokens, Str(values[path]));
    GetSubst(j, AtTokens(values, done), [], tokens);
    HiddenIsBelow(values, done, path);
  }

  /** A path that resolves below a listed one shows that the listed one resolves too. */
  lemma OuterResolves(j: Json, done: set<string>, path: string)
    requires AllPointers(done) && Resolves(j, path) && LiesBelow(path, done)
    ensures AnyResolves(j, done)
  {
    var q :| q in done && HasPrefix(path, q + "/");
    var tokens, n := TokensOf(path), |TokensOf(q)|;
    BelowIsPrefix(path, q);
    GetSplit(j, TokensOf(q), tokens[n..]);
    assert TokensOf(q) + tokens[n..] == tokens;
    assert Resolves(j, q);
  }
}
