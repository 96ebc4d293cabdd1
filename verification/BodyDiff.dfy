/** The comparison of two decoded JSON bodies (internal/diff/body.go), pruned by ignored locations. */
module BodyDiff {
  import opened Strings
  import opened Decimal
  import opened Json
  import opened Numbers
  import opened Pointers
  import opened Locations
  import opened JsonChanges
  import JsonText

  datatype Value =
    | Missing
    | OfJson(json: Json)
    | OfStatus(code: int)
    | OfHeader(values: seq<string>)
    | OfBody(size: nat, sha256: seq<int>)

  datatype Difference = Difference(kind: Kind, location: Location, before: Value, after: Value)

  function ToValue(v: Option<Json>): Value {
    if v.Some? then OfJson(v.value) else Missing
  }

  /** A change of the value at `prefix`, as the report shows it. */
  function Reported(prefix: Tokens, d: Change): Difference {
    Difference(d.kind, BodyLocation(Print(prefix + d.path)), ToValue(d.before), ToValue(d.after))
  }

  /** The changes outside ignored locations, in order. */
  function Kept(rules: Rules, prefix: Tokens, changes: seq<Change>): seq<Difference> {
    if changes == [] then [] else
    (if Ignores(rules, Reported(prefix, changes[0]).location) then [] else [Reported(prefix, changes[0])])
    + Kept(rules, prefix, changes[1..])
  }

  lemma {:induction false} KeptConcat(rules: Rules, prefix: Tokens, a: seq<Change>, b: seq<Change>)
    ensures Kept(rules, prefix, a + b) == Kept(rules, prefix, a) + Kept(rules, prefix, b)
  {
    if a == [] {
      assert a + b == b;
    } else {
      ConcatTail(a, b);
      KeptConcat(rules, prefix, a[1..], b);
    }
  }

  lemma {:induction false} KeptUnder(rules: Rules, prefix: Tokens, token: string, changes: seq<Change>)
    ensures Kept(rules, prefix, Under(token, changes)) == Kept(rules, prefix + [token], changes)
  {
    if changes != [] {
      assert prefix + ([token] + changes[0].path) == prefix + [token] + changes[0].path;
      assert Under(token, changes)[1..] == Under(token, changes[1..]);
      KeptUnder(rules, prefix, token, changes[1..]);
    }
  }

  lemma IgnoredPathBelow(rules: Rules, prefix: Tokens, path: Tokens)
    requires Ignores(rules, BodyLocation(Print(prefix)))
    ensures Ignores(rules, BodyLocation(Print(prefix + path)))
  {
    IgnoresIsTokenPrefix(rules, prefix);
    IgnoresIsTokenPrefix(rules, prefix + path);
    var i :| 0 <= i < |rules.ignore| && CoversTokens(rules.ignore[i], prefix);
    assert CoversTokens(rules.ignore[i], prefix + path);
  }

  /** Nothing below an ignored location is kept, so not descending into it changes nothing. */
  lemma {:induction false} KeptIgnored(rules: Rules, prefix: Tokens, changes: seq<Change>)
    requires Ignores(rules, BodyLocation(Print(prefix)))
    ensures Kept(rules, prefix, changes) == []
  {
    if changes != [] {
      IgnoredPathBelow(rules, prefix, changes[0].path);
      KeptIgnored(rules, prefix, changes[1..]);
    }
  }

  lemma PrintSnoc(prefix: Tokens, token: string)
    ensures Print(prefix + [token]) == AppendJsonPointer(Print(prefix), token)
  {
    assert (prefix + [token])[..|prefix|] == prefix;
  }

  // ----- The comparison as written -----

  method JsonObjectKeys(baseline: map<string, Json>, current: map<string, Json>) returns (keys: seq<string>)
    ensures keys == SortedKeys(baseline.Keys + current.Keys)
  {
    keys := SortKeys(baseline.Keys + current.Keys);
  }

  /**
    compareJSONValues. The pointer is text and ignored locations are not visited; the result is still
    exactly the unpruned list of changes with the ignored ones filtered out.
   */
  method CompareJsonValues(pointer: string, baseline: Json, current: Json, rules: Rules,
                           jsonValid: string -> bool, ghost prefix: Tokens)
    returns (differences: seq<Difference>)
    requires forall s :: jsonValid(s) <==> JsonText.Valid(s)
    requires pointer == Print(prefix)
    ensures differences == Kept(rules, prefix, TreeDiff(baseline, current))
    decreases baseline, 1
  {
    if Ignores(rules, BodyLocation(pointer)) {
      KeptIgnored(rules, prefix, TreeDiff(baseline, current));
      return [];
    }
    assert prefix + [] == prefix;
    if baseline == Null || current == Null {
      if baseline == Null && current == Null {
        return [];
      }
      return [Difference(TypeChanged, BodyLocation(pointer), OfJson(baseline), OfJson(current))];
    }
    match (baseline, current) {
    case (Obj(_), Obj(_)) =>
      differences := CompareJsonObjects(pointer, baseline, current, rules, jsonValid, prefix);
      return;
    case (Arr(_), Arr(_)) =>
      differences := CompareJsonArrays(pointer, baseline, current, rules, jsonValid, prefix);
      return;
    case (Num(x), Num(y)) =>
      var equal := JsonNumbersEqual(x, y, jsonValid);
      if equal {
        return [];
      }
    case (Str(x), Str(y)) =>
      if x == y {
        return [];
      }
    case (Bool(x), Bool(y)) =>
      if x == y {
        return [];
      }
    case _ =>
      return [Difference(TypeChanged, BodyLocation(pointer), OfJson(baseline), OfJson(current))];
    }
    return [Difference(ValueChanged, BodyLocation(pointer), OfJson(baseline), OfJson(current))];
  }

  method CompareJsonObjects(pointer: string, baseline: Json, current: Json, rules: Rules,
                            jsonValid: string -> bool, ghost prefix: Tokens)
    returns (differences: seq<Difference>)
    requires forall s :: jsonValid(s) <==> JsonText.Valid(s)
    requires pointer == Print(prefix) && baseline.Obj? && current.Obj?
    ensures differences == Kept(rules, prefix, TreeDiff(baseline, current))
    decreases baseline, 0
  {
    var keys := JsonObjectKeys(baseline.fields, current.fields);
    ghost var upTo := ReportUpTo(rules, prefix, baseline, current);
    differences := [];
    for i := 0 to |keys|
      invariant differences == upTo[i]
    {
      var key := keys[i];
      var childPointer := AppendJsonPointer(pointer, key);
      var location := BodyLocation(childPointer);
      FieldStep(rules, prefix, baseline, current, upTo, i);
      if Ignores(rules, location) {
        continue;
      }
      if key !in baseline.fields && key in current.fields {
        differences := differences + [Difference(FieldAdded, location, Missing, OfJson(current.fields[key]))];
      } else if key in baseline.fields && key !in current.fields {
        differences := differences + [Difference(FieldRemoved, location, OfJson(baseline.fields[key]), Missing)];
      } else {
        var nested := CompareJsonValues(childPointer, baseline.fields[key], current.fields[key], rules, jsonValid, prefix + [key]);
        differences := differences + nested;
      }
    }
  }

  method CompareJsonArrays(pointer: string, baseline: Json, current: Json, rules: Rules,
                           jsonValid: string -> bool, ghost prefix: Tokens)
    returns (differences: seq<Difference>)
    requires forall s :: jsonValid(s) <==> JsonText.Valid(s)
    requires pointer == Print(prefix) && baseline.Arr? && current.Arr?
    ensures differences == Kept(rules, prefix, TreeDiff(baseline, current))
    decreases baseline, 0
  {
    var shared := if |baseline.items| < |current.items| then |baseline.items| else |current.items|;
    ghost var upTo := ReportUpTo(rules, prefix, baseline, current);
    differences := [];
    for index := 0 to shared
      invariant differences == upTo[index]
    {
      var childPointer := AppendJsonPointer(pointer, Itoa(index));
      PrintSnoc(prefix, Itoa(index));
      var nested := CompareJsonValues(childPointer, baseline.items[index], current.items[index], rules, jsonValid, prefix + [Itoa(index)]);
      ElementStep(rules, prefix, baseline, current, upTo, index);
      differences := differences + nested;
    }
    for index := shared to |baseline.items|
      invariant differences == upTo[index]
    {
      var location := BodyLocation(AppendJsonPointer(pointer, Itoa(index)));
      ElementStep(rules, prefix, baseline, current, upTo, index);
      if Ignores(rules, location) {
        continue;
      }
      differences := differences + [Difference(ElementRemoved, location, OfJson(baseline.items[index]), Missing)];
    }
    for index := shared to |current.items|
      invariant differences == upTo[if index < |baseline.items| then |baseline.items| else index]
    {
      var location := BodyLocation(AppendJsonPointer(pointer, Itoa(index)));
      ElementStep(rules, prefix, baseline, current, upTo, index);
      if Ignores(rules, location) {
        continue;
      }
      differences := differences + [Difference(ElementAdded, location, Missing, OfJson(current.items[index]))];
    }
  }

  /** The report after each child: it starts empty, grows by what that child adds, and ends complete. */
  ghost predicate IsReportUpTo(rules: Rules, prefix: Tokens, b: Json, c: Json, upTo: seq<seq<Difference>>)
    requires SameContainer(b, c)
  {
    var tokens := ChildTokens(b, c);
    && |upTo| == |tokens| + 1 && upTo[0] == [] && upTo[|tokens|] == Kept(rules, prefix, TreeDiff(b, c))
    && forall i :: 0 <= i < |tokens| ==> upTo[i + 1] == upTo[i] + KeptChild(rules, prefix, b, c, tokens[i])
  }

  lemma ReportUpTo(rules: Rules, prefix: Tokens, b: Json, c: Json) returns (upTo: seq<seq<Difference>>)
    requires SameContainer(b, c)
    ensures IsReportUpTo(rules, prefix, b, c, upTo)
  {
    var tokens := ChildTokens(b, c);
    upTo := seq(|tokens| + 1, i requires 0 <= i <= |tokens| => Kept(rules, prefix, Changes(b, c, tokens[..i])));
    assert tokens[..|tokens|] == tokens;
    forall i | 0 <= i < |tokens| ensures upTo[i + 1] == upTo[i] + KeptChild(rules, prefix, b, c, tokens[i]) {
      KeptStep(rules, prefix, b, c, tokens, i);
    }
  }

  /** What one child adds to the report. */
  ghost function KeptChild(rules: Rules, prefix: Tokens, b: Json, c: Json, token: string): seq<Difference>
    requires SameContainer(b, c)
  {
    var location := BodyLocation(AppendJsonPointer(Print(prefix), token));
    match (Child(b, token), Child(c, token))
    case (Some(x), Some(y)) => Kept(rules, prefix + [token], TreeDiff(x, y))
    case (x, y) =>
      if Ignores(rules, location) || (x.None? && y.None?) then []
      else [Difference(OneSidedKind(b, x.None?), location, ToValue(x), ToValue(y))]
  }

  lemma KeptChildIs(rules: Rules, prefix: Tokens, b: Json, c: Json, token: string)
    requires SameContainer(b, c)
    ensures Kept(rules, prefix, ChildChanges(b, c, token)) == KeptChild(rules, prefix, b, c, token)
    ensures Ignores(rules, BodyLocation(AppendJsonPointer(Print(prefix), token))) ==> KeptChild(rules, prefix, b, c, token) == []
  {
    if Child(b, token).Some? && Child(c, token).Some? {
      KeptInBoth(rules, prefix, b, c, token);
    } else if ChildChanges(b, c, token) != [] {
      PrintSnoc(prefix, token);
      KeptOne(rules, prefix, ChildChanges(b, c, token)[0]);
    }
  }

  lemma KeptInBoth(rules: Rules, prefix: Tokens, b: Json, c: Json, token: string)
    requires SameContainer(b, c) && Child(b, token).Some? && Child(c, token).Some?
    ensures Kept(rules, prefix, ChildChanges(b, c, token)) == KeptChild(rules, prefix, b, c, token)
    ensures Ignores(rules, BodyLocation(AppendJsonPointer(Print(prefix), token))) ==> KeptChild(rules, prefix, b, c, token) == []
  {
    var inner := TreeDiff(Child(b, token).value, Child(c, token).value);
    PrintSnoc(prefix, token);
    KeptUnder(rules, prefix, token, inner);
    if Ignores(rules, BodyLocation(Print(prefix + [token]))) { KeptIgnored(rules, prefix + [token], inner); }
  }

  lemma KeptOne(rules: Rules, prefix: Tokens, change: Change)
    ensures Kept(rules, prefix, [change]) ==
            if Ignores(rules, Reported(prefix, change).location) then [] else [Reported(prefix, change)]
  {
    assert [change][1..] == [];
  }

  lemma KeptStep(rules: Rules, prefix: Tokens, b: Json, c: Json, tokens: Tokens, i: nat)
    requires SameContainer(b, c) && i < |tokens|
    ensures Kept(rules, prefix, Changes(b, c, tokens[..i + 1]))
         == Kept(rules, prefix, Changes(b, c, tokens[..i])) + KeptChild(rules, prefix, b, c, tokens[i])
  {
    assert tokens[..i + 1][..i] == tokens[..i];
    ChangesStep(b, c, tokens[..i + 1]);
    KeptConcat(rules, prefix, Changes(b, c, tokens[..i]), ChildChanges(b, c, tokens[i]));
    KeptChildIs(rules, prefix, b, c, tokens[i]);
  }

  lemma FieldStep(rules: Rules, prefix: Tokens, b: Json, c: Json, upTo: seq<seq<Difference>>, i: nat)
    requires b.Obj? && c.Obj? && i < |ChildTokens(b, c)| && IsReportUpTo(rules, prefix, b, c, upTo)
    ensures var key := ChildTokens(b, c)[i];
            && (key in b.fields || key in c.fields)
            && upTo[i + 1] == upTo[i] + KeptChild(rules, prefix, b, c, key)
            && AppendJsonPointer(Print(prefix), key) == Print(prefix + [key])
            && (Ignores(rules, BodyLocation(AppendJsonPointer(Print(prefix), key))) ==> KeptChild(rules, prefix, b, c, key) == [])
  {
    var key := ChildTokens(b, c)[i];
    SortedKeysMembers(b.fields.Keys + c.fields.Keys);
    assert key in ChildTokens(b, c);
    PrintSnoc(prefix, key);
    KeptChildIs(rules, prefix, b, c, key);
  }

  lemma ElementStep(rules: Rules, prefix: Tokens, b: Json, c: Json, upTo: seq<seq<Difference>>, index: nat)
    requires b.Arr? && c.Arr? && (index < |b.items| || index < |c.items|) && IsReportUpTo(rules, prefix, b, c, upTo)
    ensures index + 1 < |upTo| && upTo[index + 1] == upTo[index] + KeptChild(rules, prefix, b, c, Itoa(index))
    ensures Ignores(rules, BodyLocation(AppendJsonPointer(Print(prefix), Itoa(index)))) ==> KeptChild(rules, prefix, b, c, Itoa(index)) == []
    ensures Child(b, Itoa(index)) == (if index < |b.items| then Some(b.items[index]) else None)
    ensures Child(c, Itoa(index)) == (if index < |c.items| then Some(c.items[index]) else None)
  {
    ArrayIndexOfItoa(index, |b.items|);
    ArrayIndexOfItoa(index, |c.items|);
    KeptChildIs(rules, prefix, b, c, Itoa(index));
    assert ChildTokens(b, c)[index] == Itoa(index);
  }

  // ----- What an empty result means -----

  /** Equal once everything at or below an ignored path is disregarded. */
  ghost predicate EqualOutside(rules: Rules, prefix: Tokens, b: Json, c: Json)
    decreases b
  {
    || IgnoresTokens(rules, prefix)
    || if SameContainer(b, c) then
         forall t :: t in ChildTokens(b, c) ==>
                       || IgnoresTokens(rules, prefix + [t])
                       || (Child(b, t).Some? && Child(c, t).Some? && EqualOutside(rules, prefix + [t], Child(b, t).value, Child(c, t).value))
       else SemanticallyEqual(b, c)
  }

  /** The pruned comparison is empty exactly when the values agree outside the ignored paths. */
  lemma {:induction false} KeptEmptyIffEqualOutside(rules: Rules, prefix: Tokens, b: Json, c: Json)
    ensures Kept(rules, prefix, TreeDiff(b, c)) == [] <==> EqualOutside(rules, prefix, b, c)
    decreases b
  {
    IgnoresIsTokenPrefix(rules, prefix);
    if IgnoresTokens(rules, prefix) {
      KeptIgnored(rules, prefix, TreeDiff(b, c));
    } else if SameContainer(b, c) {
      ChildTokensCover(b, c);
      KeptEmptyByChildren(rules, prefix, b, c, ChildTokens(b, c));
      forall t | t in ChildTokens(b, c)
        ensures Kept(rules, prefix, ChildChanges(b, c, t)) == [] <==>
                || IgnoresTokens(rules, prefix + [t])
                || (Child(b, t).Some? && Child(c, t).Some? && EqualOutside(rules, prefix + [t], Child(b, t).value, Child(c, t).value))
      {
        PrintSnoc(prefix, t);
        IgnoresIsTokenPrefix(rules, prefix + [t]);
        KeptChildIs(rules, prefix, b, c, t);
        if Child(b, t).Some? && Child(c, t).Some? {
          KeptEmptyIffEqualOutside(rules, prefix + [t], Child(b, t).value, Child(c, t).value);
        }
      }
    } else {
      assert prefix + [] == prefix;
    }
  }

  lemma {:induction false} KeptEmptyByChildren(rules: Rules, prefix: Tokens, b: Json, c: Json, ts: Tokens)
    requires SameContainer(b, c)
    ensures Kept(rules, prefix, Changes(b, c, ts)) == [] <==> forall t :: t in ts ==> Kept(rules, prefix, ChildChanges(b, c, t)) == []
    decreases |ts|
  {
    if ts != [] {
      var front, last := ts[..|ts| - 1], ts[|ts| - 1];
      KeptEmptyByChildren(rules, prefix, b, c, front);
      ChangesStep(b, c, ts);
      KeptConcat(rules, prefix, Changes(b, c, front), ChildChanges(b, c, last));
    }
  }

  /** Without rules nothing is dropped, so the comparison is empty exactly for semantically equal values. */
  lemma NoRulesKeepAll(b: Json, c: Json)
    ensures |Kept(Rules([]), [], TreeDiff(b, c))| == |TreeDiff(b, c)|
    ensures forall i :: 0 <= i < |TreeDiff(b, c)| ==> Kept(Rules([]), [], TreeDiff(b, c))[i] == Reported([], TreeDiff(b, c)[i])
    ensures Kept(Rules([]), [], TreeDiff(b, c)) == [] <==> SemanticallyEqual(b, c)
  {
    KeepAll([], TreeDiff(b, c));
    EmptyIffEqual(b, c);
  }

  lemma {:induction false} KeepAll(prefix: Tokens, changes: seq<Change>)
    ensures |Kept(Rules([]), prefix, changes)| == |changes|
    ensures forall i :: 0 <= i < |changes| ==> Kept(Rules([]), prefix, changes)[i] == Reported(prefix, changes[i])
  {
    if changes != [] {
      KeepAll(prefix, changes[1..]);
      var kept := Kept(Rules([]), prefix, changes);
      assert kept == [Reported(prefix, changes[0])] + Kept(Rules([]), prefix, changes[1..]);
      forall i | 1 <= i < |changes| ensures kept[i] == Reported(prefix, changes[i]) {
        assert changes[1..][i - 1] == changes[i];
      }
    }
  }

  // ----- The other way round -----

  function Swapped(d: Difference): Difference {
    Difference(MirrorKind(d.kind), d.location, d.after, d.before)
  }

  function SwapAll(differences: seq<Difference>): seq<Difference> {
    if differences == [] then [] else [Swapped(differences[0])] + SwapAll(differences[1..])
  }

  /** Under any rules, exchanging the two values exchanges before and after, added and removed, and nothing else. */
  lemma SwappedReport(rules: Rules, prefix: Tokens, b: Json, c: Json)
    ensures Kept(rules, prefix, TreeDiff(c, b)) == SwapAll(Kept(rules, prefix, TreeDiff(b, c)))
  {
    SwapMirrors(b, c);
    KeptMirrors(rules, prefix, TreeDiff(b, c));
  }

  lemma {:induction false} KeptMirrors(rules: Rules, prefix: Tokens, changes: seq<Change>)
    ensures Kept(rules, prefix, MirrorAll(changes)) == SwapAll(Kept(rules, prefix, changes))
  {
    if changes != [] {
      KeptMirrors(rules, prefix, changes[1..]);
      assert MirrorAll(changes)[1..] == MirrorAll(changes[1..]);
      assert Reported(prefix, Mirror(changes[0])) == Swapped(Reported(prefix, changes[0]));
      var rest := Kept(rules, prefix, changes[1..]);
      if Ignores(rules, Reported(prefix, changes[0]).location) {
        assert [] + rest == rest && [] + SwapAll(rest) == SwapAll(rest);
      } else {
        ConsIsOne(Reported(prefix, changes[0]), rest, rest);
      }
    }
  }

  // ----- The report in plain terms -----

  /** Without rules the report is empty exactly if the values are the same tree, but for the spelling of numbers. */
  lemma NothingToReport(b: Json, c: Json)
    ensures Kept(Rules([]), [], TreeDiff(b, c)) == [] <==> Leveled(b) == Leveled(c)
    ensures NumberFree(b) && NumberFree(c) ==> (Kept(Rules([]), [], TreeDiff(b, c)) == [] <==> b == c)
  {
    NoRulesKeepAll(b, c);
    EqualIffLeveled(b, c);
    if NumberFree(b) && NumberFree(c) { EqualIffSame(b, c); }
  }

  /** A reported difference: not ignored, and either side is what its pointer leads to in that value, or is missing there. */
  ghost predicate Reports(rules: Rules, b: Json, c: Json, d: Difference, path: Tokens) {
    && d.location == BodyLocation(Print(path)) && !Ignores(rules, d.location)
    && (match Get(b, path) case Some(x) => d.before == OfJson(x) case None => d.before == Missing)
    && (match Get(c, path) case Some(y) => d.after == OfJson(y) case None => d.after == Missing)
    && (d.kind == FieldAdded || d.kind == ElementAdded <==> Get(b, path).None?)
    && (d.kind == FieldRemoved || d.kind == ElementRemoved <==> Get(c, path).None?)
    && (d.kind == TypeChanged <==> Get(b, path).Some? && Get(c, path).Some? && TypeName(Get(b, path).value) != TypeName(Get(c, path).value))
    && (d.kind == ValueChanged ==> Get(b, path).Some? && Get(c, path).Some?)
  }

  /** Every reported difference is such a one. */
  lemma {:induction false} ReportIsSound(rules: Rules, b: Json, c: Json, i: nat) returns (path: Tokens)
    requires i < |Kept(rules, [], TreeDiff(b, c))|
    ensures Reports(rules, b, c, Kept(rules, [], TreeDiff(b, c))[i], path)
  {
    var d := KeptFrom(rules, [], TreeDiff(b, c), i);
    path := d.path;
    assert [] + path == path;
    ChangesAreSound(b, c, d);
    if d.before.Some? && d.after.Some? { SameTypeIs(d.before.value, d.after.value); }
  }

  lemma {:induction false} KeptFrom(rules: Rules, prefix: Tokens, changes: seq<Change>, i: nat) returns (d: Change)
    requires i < |Kept(rules, prefix, changes)|
    ensures d in changes && Kept(rules, prefix, changes)[i] == Reported(prefix, d) && !Ignores(rules, Reported(prefix, d).location)
  {
    var ignored := Ignores(rules, Reported(prefix, changes[0]).location);
    if !ignored && i == 0 {
      d := changes[0];
    } else {
      d := KeptFrom(rules, prefix, changes[1..], if ignored then i else i - 1);
    }
  }

  lemma {:induction false} KeptIfNotIgnored(rules: Rules, prefix: Tokens, changes: seq<Change>, d: Change)
    requires d in changes && !Ignores(rules, Reported(prefix, d).location)
    ensures Reported(prefix, d) in Kept(rules, prefix, changes)
  {
    if d != changes[0] { KeptIfNotIgnored(rules, prefix, changes[1..], d); }
  }

  /** Wherever the values differ, a difference is reported at, above or below that pointer, or its location is ignored. */
  lemma ReportIsComplete(rules: Rules, b: Json, c: Json, p: Tokens) returns (path: Tokens)
    requires Differ(b, c, p)
    ensures path <= p || p <= path
    ensures Ignores(rules, BodyLocation(Print(path))) || exists d :: d in Kept(rules, [], TreeDiff(b, c)) && d.location == BodyLocation(Print(path))
  {
    var d := ChangesAreComplete(b, c, p);
    path := d.path;
    assert [] + path == path;
    if !Ignores(rules, BodyLocation(Print(path))) { KeptIfNotIgnored(rules, [], TreeDiff(b, c), d); }
  }
}
