/** Pointer-addressed replacement in a decoded JSON value (internal/sanitize/fields.go). */
module Rewrite {
  import opened Strings
  import opened Decimal
  import opened Json
  import opened Recording

  // ----- Writing -----

  /** Writes one child: any member of an object, an existing element of an array. */
  function SetChild(j: Json, token: string, value: Json): Json {
    match j
    case Obj(fields) => Obj(fields[token := value])
    case Arr(items) =>
      (match ArrayIndex(token, |items|)
       case Some(n) => Arr(items[n := value])
       case None => j)
    case _ => j
  }

  function Put(j: Json, path: Tokens, value: Json): Json
    decreases path
  {
    if path == [] then value
    else match Child(j, path[0])
         case Some(x) => SetChild(j, path[0], Put(x, path[1..], value))
         case None => j
  }

  /** Writing an existing child: it reads back, the others stay, the last write wins, and writing what is there changes nothing. */
  lemma SetChildLaws(j: Json, t: string, x: Json, y: Json)
    requires Child(j, t).Some?
    ensures Child(SetChild(j, t, x), t) == Some(x)
    ensures forall u :: u != t ==> Child(SetChild(j, t, x), u) == Child(j, u)
    ensures SetChild(SetChild(j, t, x), t, y) == SetChild(j, t, y)
    ensures SetChild(j, t, Child(j, t).value) == j
  {
    if j.Arr? {
      var n := ArrayIndex(t, |j.items|).value;
      ArrayIndexOfItoa(n, |j.items|);
      forall u | u != t ensures Child(SetChild(j, t, x), u) == Child(j, u) {
        if ArrayIndex(u, |j.items|).Some? { assert ArrayIndex(u, |j.items|).value != n; }
      }
    }
  }

  /** The same along a path: it reads back, and every pointer that leads past it stays. */
  lemma {:induction false} PutLaws(j: Json, path: Tokens, value: Json, other: Tokens)
    requires Get(j, path).Some?
    ensures Get(Put(j, path, value), path) == Some(value)
    ensures !(path <= other) && !(other <= path) ==> Get(Put(j, path, value), other) == Get(j, other)
    decreases path
  {
    if path != [] {
      var t := path[0];
      var x := Child(j, t).value;
      SetChildLaws(j, t, Put(x, path[1..], value), x);
      PutLaws(x, path[1..], value, if other != [] then other[1..] else []);
      if other != [] && other[0] == t { PrefixesOfTails(path, other); }
    }
  }

  lemma PrefixesOfTails(a: Tokens, b: Tokens)
    requires a != [] && b != [] && a[0] == b[0]
    ensures a <= b <==> a[1..] <= b[1..]
  {
    HeadAndTail(a);
    HeadAndTail(b);
    if a[1..] <= b[1..] { assert a == [a[0]] + b[1..][..|a| - 1]; }
  }

  // ----- One path -----

  /** A scalar marker stands where the path would have to continue. */
  ghost predicate MarkerAbove(j: Json, path: Tokens) {
    exists n :: 0 <= n < |path| && Get(j, path[..n]) == Some(Str(MARKER))
  }

  lemma MarkerAboveStep(j: Json, path: Tokens)
    requires path != []
    ensures MarkerAbove(j, path) <==> j == Str(MARKER) || (Child(j, path[0]).Some? && MarkerAbove(Child(j, path[0]).value, path[1..]))
  {
    forall n | 0 < n < |path| ensures path[..n][1..] == path[1..][..n - 1] && path[..n][0] == path[0] { }
    if j == Str(MARKER) { assert path[..0] == [] && Get(j, path[..0]) == Some(j); }
    if Child(j, path[0]).Some? && MarkerAbove(Child(j, path[0]).value, path[1..]) {
      var m :| 0 <= m < |path[1..]| && Get(Child(j, path[0]).value, path[1..][..m]) == Some(Str(MARKER));
      assert path[..m + 1][1..] == path[1..][..m];
      assert Get(j, path[..m + 1]) == Some(Str(MARKER));
    }
    if MarkerAbove(j, path) && j != Str(MARKER) {
      var n :| 0 <= n < |path| && Get(j, path[..n]) == Some(Str(MARKER));
      assert path[..n] != [];
      assert Get(Child(j, path[0]).value, path[1..][..n - 1]) == Some(Str(MARKER));
    }
  }

  /**
    replaceJSON. With a value it rewrites the target; without one it only probes, and fails below a marker,
    where the fields of the original body can no longer be known.
   */
  method ReplaceJson(raw: Json, parts: Tokens, value: Option<Json>) returns (updated: Json, found: bool, failed: bool)
    ensures failed <==> value.None? && MarkerAbove(raw, parts)
    ensures found <==> Get(raw, parts).Some?
    ensures updated == if found && value.Some? then Put(raw, parts, value.value) else raw
    decreases parts
  {
    if parts == [] {
      if value.None? {
        return raw, true, false;
      }
      return value.value, true, false;
    }
    MarkerAboveStep(raw, parts);
    if raw.Obj? {
      var fields := raw.fields;
      if parts[0] !in fields {
        return raw, false, false;
      }
      updated, found, failed := ReplaceJson(fields[parts[0]], parts[1..], value);
      if failed || !found {
        return raw, found, failed;
      }
      if value.None? {
        return raw, true, false;
      }
      fields := fields[parts[0] := updated];
      return Obj(fields), true, false;
    }
    if raw.Arr? {
      var items := raw.items;
      var token := parts[0];
      var index := ParseInt(token);
      ArrayIndexChecks(token, |items|);
      if index == None || index.value < 0 || IntText(index.value) != token || index.value >= |items| {
        return raw, false, false;
      }
      updated, found, failed := ReplaceJson(items[index.value], parts[1..], value);
      if failed || !found {
        return raw, found, failed;
      }
      if value.None? {
        return raw, true, false;
      }
      items := items[index.value := updated];
      return Arr(items), true, false;
    }
    if value.None? {
      if raw.Str? && IsRedacted(raw.text) {
        return raw, false, true;
      }
    }
    return raw, false, false;
  }

  lemma ArrayIndexChecks(token: string, length: nat)
    ensures var index := ParseInt(token);
            if index == None || index.value < 0 || IntText(index.value) != token || index.value >= length
            then ArrayIndex(token, length) == None else ArrayIndex(token, length) == Some(index.value)
  {
  }

  // ----- Several paths at once -----

  type Values = map<Tokens, Json>

  ghost predicate AllText(values: Values) {
    forall p :: p in values.Keys ==> values[p].Str?
  }

  /** All replacements made together, from the top down: an outer path hides the inner ones. `at` is where j stands. */
  ghost function Subst(j: Json, values: Values, at: Tokens): Json
    decreases j
  {
    if at in values then values[at] else
    match j
    case Obj(fields) => Obj(map k | k in fields :: Subst(fields[k], values, at + [k]))
    case Arr(items) => Arr(seq(|items|, i requires 0 <= i < |items| => Subst(items[i], values, at + [Itoa(i)])))
    case _ => j
  }

  lemma SubstChild(j: Json, values: Values, at: Tokens, token: string)
    requires at !in values
    ensures Child(Subst(j, values, at), token)
         == if Child(j, token).Some? then Some(Subst(Child(j, token).value, values, at + [token])) else None
  {
  }

  /** A path that does not lead through `at` does not matter there. */
  lemma {:induction false} SubstElsewhere(j: Json, values: Values, p: Tokens, v: Json, at: Tokens)
    requires !(at <= p)
    ensures Subst(j, values[p := v], at) == Subst(j, values, at)
  {
    var more := values[p := v];
    match j
    case Obj(fields) =>
      forall k | k in fields ensures Subst(fields[k], more, at + [k]) == Subst(fields[k], values, at + [k]) {
        SubstElsewhere(fields[k], values, p, v, at + [k]);
      }
    case Arr(items) =>
      forall i | 0 <= i < |items| ensures Subst(items[i], more, at + [Itoa(i)]) == Subst(items[i], values, at + [Itoa(i)]) {
        SubstElsewhere(items[i], values, p, v, at + [Itoa(i)]);
      }
    case _ =>
  }

  /**
    Replacing one path after another, in any order, is replacing all of them together:
    a target inside a replaced value is no longer there, because replacement values are strings.
   */
  lemma {:induction false} SubstOneMore(j: Json, values: Values, at: Tokens, q: Tokens, v: Json)
    requires AllText(values) && v.Str? && at + q !in values
    ensures var s := Subst(j, values, at);
            Subst(j, values[at + q := v], at) == if Get(s, q).Some? then Put(s, q, v) else s
    decreases q
  {
    var s := Subst(j, values, at);
    if q == [] {
      assert at + q == at;
    } else if at !in values {
      var t := q[0];
      var more := values[at + q := v];
      assert at + q != at && at + q == at + [t] + q[1..];
      SubstChild(j, values, at, t);
      forall u | u != t ensures !(at + [u] <= at + q) {
        assert (at + q)[|at|] == t && (at + [u])[|at|] == u;
      }
      if Child(j, t).Some? {
        SubstOneMore(Child(j, t).value, values, at + [t], q[1..], v);
        SubstSetsChild(j, values, at + q, v, at, t);
        WriteThroughChild(s, q, v);
      } else {
        SubstSetsNothing(j, values, at + q, v, at, t);
      }
    }
  }

  lemma WriteThroughChild(s: Json, p: Tokens, v: Json)
    requires p != [] && Child(s, p[0]).Some?
    ensures var x := Child(s, p[0]).value;
            (if Get(s, p).Some? then Put(s, p, v) else s)
            == SetChild(s, p[0], if Get(x, p[1..]).Some? then Put(x, p[1..], v) else x)
  {
    var x := Child(s, p[0]).value;
    SetChildLaws(s, p[0], x, x);
  }

  lemma SubstSetsChild(j: Json, values: Values, p: Tokens, v: Json, at: Tokens, t: string)
    requires at !in values && at != p && Child(j, t).Some?
    requires forall u :: u != t ==> !(at + [u] <= p)
    ensures Subst(j, values[p := v], at) == SetChild(Subst(j, values, at), t, Subst(Child(j, t).value, values[p := v], at + [t]))
  {
    if j.Obj? { SubstSetsField(j, values, p, v, at, t); } else { SubstSetsItem(j, values, p, v, at, t); }
  }

  lemma SubstSetsField(j: Json, values: Values, p: Tokens, v: Json, at: Tokens, t: string)
    requires at !in values && at != p && j.Obj? && t in j.fields
    requires forall u :: u != t ==> !(at + [u] <= p)
    ensures Subst(j, values[p := v], at) == SetChild(Subst(j, values, at), t, Subst(j.fields[t], values[p := v], at + [t]))
  {
    var more := values[p := v];
    forall k | k in j.fields && k != t ensures Subst(j.fields[k], more, at + [k]) == Subst(j.fields[k], values, at + [k]) {
      SubstElsewhere(j.fields[k], values, p, v, at + [k]);
    }
    SameButOne(Subst(j, values, at).fields, Subst(j, more, at).fields, t);
  }

  lemma SameButOne(before: map<string, Json>, after: map<string, Json>, t: string)
    requires before.Keys == after.Keys && t in after
    requires forall k :: k in before && k != t && k in after ==> after[k] == before[k]
    ensures after == before[t := after[t]]
  {
  }

  lemma SubstSetsItem(j: Json, values: Values, p: Tokens, v: Json, at: Tokens, t: string)
    requires at !in values && at != p && j.Arr? && ArrayIndex(t, |j.items|).Some?
    requires forall u :: u != t ==> !(at + [u] <= p)
    ensures Subst(j, values[p := v], at) == SetChild(Subst(j, values, at), t, Subst(Child(j, t).value, values[p := v], at + [t]))
  {
    var more, n := values[p := v], ArrayIndex(t, |j.items|).value;
    forall i | 0 <= i < |j.items| && i != n ensures Subst(j.items[i], more, at + [Itoa(i)]) == Subst(j.items[i], values, at + [Itoa(i)]) {
      ItoaInjective(i, n);
      SubstElsewhere(j.items[i], values, p, v, at + [Itoa(i)]);
    }
    assert Subst(j, more, at).items == Subst(j, values, at).items[n := Subst(j.items[n], more, at + [t])];
  }

  lemma SubstSetsNothing(j: Json, values: Values, p: Tokens, v: Json, at: Tokens, t: string)
    requires at !in values && at != p && Child(j, t).None?
    requires forall u :: u != t ==> !(at + [u] <= p)
    ensures Subst(j, values[p := v], at) == Subst(j, values, at)
  {
    var more := values[p := v];
    match j
    case Obj(fields) =>
      forall k | k in fields ensures Subst(fields[k], more, at + [k]) == Subst(fields[k], values, at + [k]) {
        SubstElsewhere(fields[k], values, p, v, at + [k]);
      }
    case Arr(items) =>
      forall i | 0 <= i < |items| ensures Subst(items[i], more, at + [Itoa(i)]) == Subst(items[i], values, at + [Itoa(i)]) {
        ArrayIndexOfItoa(i, |items|);
        SubstElsewhere(items[i], values, p, v, at + [Itoa(i)]);
      }
    case _ =>
  }

  // ----- What the result looks like -----

  /** A proper prefix of at + q, not shorter than at, is itself replaced. */
  ghost predicate Hidden(values: Values, at: Tokens, q: Tokens) {
    exists n :: 0 <= n < |q| && at + q[..n] in values
  }

  lemma HiddenStep(values: Values, at: Tokens, q: Tokens)
    requires q != []
    ensures Hidden(values, at, q) <==> at in values || Hidden(values, at + [q[0]], q[1..])
  {
    forall n | 0 < n < |q| ensures at + q[..n] == at + [q[0]] + q[1..][..n - 1] { }
    assert q[..0] == [] && at + [] == at;
    if Hidden(values, at + [q[0]], q[1..]) {
      var m :| 0 <= m < |q[1..]| && at + [q[0]] + q[1..][..m] in values;
      assert at + q[..m + 1] in values;
    }
    if Hidden(values, at, q) && at !in values {
      var n :| 0 <= n < |q| && at + q[..n] in values;
      assert n > 0;
    }
  }

  /** A path resolves afterwards unless it was absent, or lies inside a replaced value. */
  lemma {:induction false} GetSubst(j: Json, values: Values, at: Tokens, q: Tokens)
    requires AllText(values)
    ensures Get(Subst(j, values, at), q)
         == if Get(j, q).Some? && !Hidden(values, at, q) then Some(Subst(Get(j, q).value, values, at + q)) else None
    decreases q
  {
    if q == [] {
      assert at + q == at;
    } else {
      HiddenStep(values, at, q);
      if at !in values {
        SubstChild(j, values, at, q[0]);
        assert at + q == at + [q[0]] + q[1..];
        if Child(j, q[0]).Some? { GetSubst(Child(j, q[0]).value, values, at + [q[0]], q[1..]); }
      }
    }
  }

  /** Coverage: a listed path is absent from the result or holds its replacement. */
  lemma ListedPathsAreCovered(j: Json, values: Values, p: Tokens)
    requires AllText(values) && p in values
    ensures Get(Subst(j, values, []), p) in {None, Some(values[p])}
    ensures Get(Subst(j, values, []), p).Some? <==> Get(j, p).Some? && !Hidden(values, [], p)
  {
    GetSubst(j, values, [], p);
    assert [] + p == p;
  }

  /** No listed path lies at, above or below `at`. */
  ghost predicate Unrelated(values: Values, at: Tokens) {
    forall p :: p in values.Keys ==> !(p <= at) && !(at <= p)
  }

  /** Frame: everything unrelated to the listed paths keeps its value. */
  lemma UnrelatedPathsAreKept(j: Json, values: Values, p: Tokens)
    requires AllText(values) && Unrelated(values, p)
    ensures Get(Subst(j, values, []), p) == Get(j, p)
  {
    GetSubst(j, values, [], p);
    assert [] + p == p;
    forall n | 0 <= n < |p| ensures [] + p[..n] !in values { assert [] + p[..n] == p[..n] <= p; }
    if Get(j, p).Some? { NothingBelow(Get(j, p).value, values, p); }
  }

  lemma {:induction false} NothingBelow(j: Json, values: Values, at: Tokens)
    requires forall p :: p in values.Keys ==> !(at <= p)
    ensures Subst(j, values, at) == j
  {
    match j
    case Obj(fields) =>
      forall k | k in fields ensures Subst(fields[k], values, at + [k]) == fields[k] { NothingBelow(fields[k], values, at + [k]); }
    case Arr(items) =>
      forall i | 0 <= i < |items| ensures Subst(items[i], values, at + [Itoa(i)]) == items[i] { NothingBelow(items[i], values, at + [Itoa(i)]); }
      assert Subst(j, values, at).items == items;
    case _ =>
  }

  lemma {:induction false} AbsentPathsChangeNothing(j: Json, values: Values, at: Tokens)
    requires forall q :: at + q in values ==> Get(j, q).None?
    ensures Subst(j, values, at) == j
  {
    assert at + [] == at;
    match j
    case Obj(fields) =>
      forall k | k in fields ensures Subst(fields[k], values, at + [k]) == fields[k] {
        AbsentBelowChild(j, values, at, k);
        AbsentPathsChangeNothing(fields[k], values, at + [k]);
      }
    case Arr(items) =>
      forall i | 0 <= i < |items| ensures Subst(items[i], values, at + [Itoa(i)]) == items[i] {
        ArrayIndexOfItoa(i, |items|);
        AbsentBelowChild(j, values, at, Itoa(i));
        AbsentPathsChangeNothing(items[i], values, at + [Itoa(i)]);
      }
      assert Subst(j, values, at).items == items;
    case _ =>
  }

  lemma AbsentBelowChild(j: Json, values: Values, at: Tokens, t: string)
    requires Child(j, t).Some? && forall q :: at + q in values ==> Get(j, q).None?
    ensures forall q :: at + [t] + q in values ==> Get(Child(j, t).value, q).None?
  {
    forall q | at + [t] + q in values ensures Get(Child(j, t).value, q).None? {
      assert at + [t] + q == at + ([t] + q);
      assert ([t] + q)[1..] == q;
    }
  }

  /** Shape: a container outside the replaced values keeps its keys, or its length. */
  lemma ContainersKeepTheirShape(j: Json, values: Values, p: Tokens)
    requires AllText(values) && p !in values && !Hidden(values, [], p) && Get(j, p).Some?
    ensures var before, after := Get(j, p).value, Get(Subst(j, values, []), p);
            && after.Some?
            && (before.Obj? <==> after.value.Obj?) && (before.Obj? ==> before.fields.Keys == after.value.fields.Keys)
            && (before.Arr? <==> after.value.Arr?) && (before.Arr? ==> |before.items| == |after.value.items|)
  {
    GetSubst(j, values, [], p);
    assert [] + p == p;
  }

  /** A second pass changes nothing. */
  lemma {:induction false} SubstIsIdempotent(j: Json, values: Values, at: Tokens)
    requires AllText(values)
    ensures Subst(Subst(j, values, at), values, at) == Subst(j, values, at)
  {
    if at !in values {
      var s := Subst(j, values, at);
      match j
      case Obj(fields) =>
        forall k | k in fields ensures Subst(s.fields[k], values, at + [k]) == s.fields[k] { SubstIsIdempotent(fields[k], values, at + [k]); }
        assert Subst(s, values, at).fields == s.fields;
      case Arr(items) =>
        forall i | 0 <= i < |items| ensures Subst(s.items[i], values, at + [Itoa(i)]) == s.items[i] { SubstIsIdempotent(items[i], values, at + [Itoa(i)]); }
        assert Subst(s, values, at).items == s.items;
      case _ =>
    }
  }

  // ----- Non-interference -----

  /** The two values are the same but for what stands at listed paths. */
  ghost predicate SameOutside(a: Json, b: Json, values: Values, at: Tokens)
    decreases a
  {
    || at in values
    || match (a, b)
       case (Obj(xs), Obj(ys)) => xs.Keys == ys.Keys && forall k :: k in xs.Keys && k in ys ==> SameOutside(xs[k], ys[k], values, at + [k])
       case (Arr(xs), Arr(ys)) => |xs| == |ys| && forall i :: 0 <= i < |xs| ==> SameOutside(xs[i], ys[i], values, at + [Itoa(i)])
       case _ => a == b
  }

  /** The result depends on the rest of the input, all of it, and on nothing that is listed. */
  lemma {:induction false} SubstIffSameOutside(a: Json, b: Json, values: Values, at: Tokens)
    ensures Subst(a, values, at) == Subst(b, values, at) <==> SameOutside(a, b, values, at)
    decreases a
  {
    if at !in values {
      match (a, b)
      case (Obj(xs), Obj(ys)) => SameFields(a, b, values, at);
      case (Arr(xs), Arr(ys)) => SameItems(a, b, values, at);
      case _ =>
    }
  }

  lemma {:induction false} SameFields(a: Json, b: Json, values: Values, at: Tokens)
    requires a.Obj? && b.Obj? && at !in values
    ensures Subst(a, values, at) == Subst(b, values, at) <==> SameOutside(a, b, values, at)
    decreases a, 0
  {
    var xs, ys := a.fields, b.fields;
    var ss, ts := Subst(a, values, at).fields, Subst(b, values, at).fields;
    forall k | k in xs && k in ys ensures ss[k] == ts[k] <==> SameOutside(xs[k], ys[k], values, at + [k]) {
      SubstIffSameOutside(xs[k], ys[k], values, at + [k]);
    }
    assert ss.Keys == xs.Keys && ts.Keys == ys.Keys;
    if SameOutside(a, b, values, at) { assert ss == ts; }
  }

  lemma {:induction false} SameItems(a: Json, b: Json, values: Values, at: Tokens)
    requires a.Arr? && b.Arr? && at !in values
    ensures Subst(a, values, at) == Subst(b, values, at) <==> SameOutside(a, b, values, at)
    decreases a, 0
  {
    var xs, ys := a.items, b.items;
    var ss, ts := Subst(a, values, at).items, Subst(b, values, at).items;
    forall i | 0 <= i < |xs| && i < |ys| ensures ss[i] == ts[i] <==> SameOutside(xs[i], ys[i], values, at + [Itoa(i)]) {
      SubstIffSameOutside(xs[i], ys[i], values, at + [Itoa(i)]);
    }
    if SameOutside(a, b, values, at) { assert ss == ts; }
  }

  /** In particular, whatever is written at an existing listed path, the result is the same. */
  lemma {:induction false} ListedValueDoesNotShow(j: Json, values: Values, at: Tokens, q: Tokens, v: Json)
    requires at + q in values && Get(j, q).Some?
    ensures Subst(Put(j, q, v), values, at) == Subst(j, values, at)
    decreases q
  {
    if q == [] {
      assert at + q == at;
    } else if at !in values {
      var t := q[0];
      assert at + q == at + [t] + q[1..];
      var x := Child(j, t).value;
      ListedValueDoesNotShow(x, values, at + [t], q[1..], v);
      assert Put(j, q, v) == SetChild(j, t, Put(x, q[1..], v));
      SubstOfSetChild(j, values, at, t, Put(x, q[1..], v));
    }
  }

  lemma SubstOfSetChild(j: Json, values: Values, at: Tokens, t: string, y: Json)
    requires at !in values && Child(j, t).Some?
    requires Subst(y, values, at + [t]) == Subst(Child(j, t).value, values, at + [t])
    ensures Subst(SetChild(j, t, y), values, at) == Subst(j, values, at)
  {
    match j
    case Obj(fields) =>
      SubstOfField(fields, values, at, t, y);
    case Arr(items) =>
      var n := ArrayIndex(t, |items|).value;
      SubstOfItem(items, values, at, n, y);
  }

  lemma SubstOfField(fields: map<string, Json>, values: Values, at: Tokens, t: string, y: Json)
    requires at !in values && t in fields
    requires Subst(y, values, at + [t]) == Subst(fields[t], values, at + [t])
    ensures Subst(Obj(fields[t := y]), values, at) == Subst(Obj(fields), values, at)
  {
    var before, after := Subst(Obj(fields), values, at).fields, Subst(Obj(fields[t := y]), values, at).fields;
    assert fields[t := y].Keys == fields.Keys;
    forall k | k in fields ensures after[k] == before[k] { }
    assert after == before;
  }

  lemma SubstOfItem(items: seq<Json>, values: Values, at: Tokens, n: nat, y: Json)
    requires at !in values && n < |items|
    requires Subst(y, values, at + [Itoa(n)]) == Subst(items[n], values, at + [Itoa(n)])
    ensures Subst(Arr(items[n := y]), values, at) == Subst(Arr(items), values, at)
  {
    assert Subst(Arr(items[n := y]), values, at).items == Subst(Arr(items), values, at).items;
  }

  /** Rewriting keeps every number a number, and nests no deeper. */
  lemma {:induction false} SubstKeepsFit(j: Json, values: Values, at: Tokens, depth: nat)
    requires AllText(values) && Fits(j, depth)
    ensures Fits(Subst(j, values, at), depth)
  {
    if at !in values {
      match j
      case Obj(fields) =>
        forall k | k in fields ensures Fits(Subst(fields[k], values, at + [k]), depth - 1) { SubstKeepsFit(fields[k], values, at + [k], depth - 1); }
      case Arr(items) =>
        forall i | 0 <= i < |items| ensures Fits(Subst(items[i], values, at + [Itoa(i)]), depth - 1) {
          SubstKeepsFit(items[i], values, at + [Itoa(i)], depth - 1);
        }
      case _ =>
    }
  }
}
