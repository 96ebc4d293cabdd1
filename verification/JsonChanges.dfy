/**
  What a semantic JSON comparison has to find, said without pointer strings, ignore rules or loops,
  and why that is the right list: it is empty for equal values, sound, free of overlaps, and complete.
 */
module JsonChanges {
  import opened Strings
  import opened Decimal
  import opened Json
  import opened Numbers
  import opened JsonText

  datatype Kind =
    | StatusChanged | HeaderAdded | HeaderRemoved | HeaderChanged | BodyChanged
    | FieldAdded | FieldRemoved | ElementAdded | ElementRemoved | TypeChanged | ValueChanged

  /** One difference: the tokens that lead to it, and the value on each side (None when absent). */
  datatype Change = Change(kind: Kind, path: Tokens, before: Option<Json>, after: Option<Json>)

  // ----- Semantic equality -----

  /** Arrays by position, objects by key, numbers by exact value, null only to null. */
  ghost predicate SemanticallyEqual(a: Json, b: Json) {
    match (a, b)
    case (Null, Null) => true
    case (Bool(x), Bool(y)) => x == y
    case (Num(x), Num(y)) => SameNumber(x, y)
    case (Str(x), Str(y)) => x == y
    case (Arr(xs), Arr(ys)) => |xs| == |ys| && forall i :: 0 <= i < |xs| ==> SemanticallyEqual(xs[i], ys[i])
    case (Obj(xs), Obj(ys)) => xs.Keys == ys.Keys && forall k :: k in xs.Keys && k in ys ==> SemanticallyEqual(xs[k], ys[k])
    case _ => false
  }

  lemma {:induction false} SemanticallyEqualReflexive(a: Json)
    ensures SemanticallyEqual(a, a)
  {
    match a
    case Arr(xs) => forall i | 0 <= i < |xs| ensures SemanticallyEqual(xs[i], xs[i]) { SemanticallyEqualReflexive(xs[i]); }
    case Obj(xs) => forall k | k in xs ensures SemanticallyEqual(xs[k], xs[k]) { SemanticallyEqualReflexive(xs[k]); }
    case _ =>
  }

  /** One number token for each exact value. */
  ghost function TokenOf(value: real): string
    requires exists t :: IsNumber(t) && ValueOf(t) == value
    ensures IsNumber(TokenOf(value)) && ValueOf(TokenOf(value)) == value
  {
    var t :| IsNumber(t) && ValueOf(t) == value;
    t
  }

  /** The tree with each number written as that token, and nothing else changed. */
  ghost function Leveled(j: Json): Json {
    match j
    case Num(token) => if IsNumber(token) then Num(TokenOf(ValueOf(token))) else j
    case Arr(items) => Arr(seq(|items|, i requires 0 <= i < |items| => Leveled(items[i])))
    case Obj(fields) => Obj(map k | k in fields :: Leveled(fields[k]))
    case _ => j
  }

  /** Semantic equality is plain equality of trees, but for the spelling of numbers. */
  lemma {:induction false} EqualIffLeveled(a: Json, b: Json)
    ensures SemanticallyEqual(a, b) <==> Leveled(a) == Leveled(b)
    decreases a, 1
  {
    if a.Arr? && b.Arr? {
      LeveledItems(a, b);
    } else if a.Obj? && b.Obj? {
      LeveledFields(a, b);
    }
  }

  lemma {:induction false} LeveledItems(a: Json, b: Json)
    requires a.Arr? && b.Arr?
    ensures SemanticallyEqual(a, b) <==> Leveled(a) == Leveled(b)
    decreases a, 0
  {
    var xs, ys := a.items, b.items;
    var ls, ms := Leveled(a).items, Leveled(b).items;
    forall i | 0 <= i < |xs| && i < |ys| ensures SemanticallyEqual(xs[i], ys[i]) <==> ls[i] == ms[i] { EqualIffLeveled(xs[i], ys[i]); }
    if SemanticallyEqual(a, b) { assert ls == ms; }
  }

  lemma {:induction false} LeveledFields(a: Json, b: Json)
    requires a.Obj? && b.Obj?
    ensures SemanticallyEqual(a, b) <==> Leveled(a) == Leveled(b)
    decreases a, 0
  {
    var xs, ys := a.fields, b.fields;
    var ls, ms := Leveled(a).fields, Leveled(b).fields;
    assert ls.Keys == xs.Keys && ms.Keys == ys.Keys;
    forall k | k in xs && k in ys ensures SemanticallyEqual(xs[k], ys[k]) <==> ls[k] == ms[k] { EqualIffLeveled(xs[k], ys[k]); }
    if SemanticallyEqual(a, b) { assert ls == ms; }
  }

  ghost predicate NumberFree(j: Json) {
    match j
    case Num(_) => false
    case Arr(items) => forall i :: 0 <= i < |items| ==> NumberFree(items[i])
    case Obj(fields) => forall k :: k in fields.Keys ==> NumberFree(fields[k])
    case _ => true
  }

  lemma {:induction false} NumberFreeIsLevel(j: Json)
    requires NumberFree(j)
    ensures Leveled(j) == j
  {
    match j
    case Arr(items) => forall i | 0 <= i < |items| ensures Leveled(items[i]) == items[i] { NumberFreeIsLevel(items[i]); }
    case Obj(fields) =>
      forall k | k in fields ensures Leveled(fields[k]) == fields[k] { NumberFreeIsLevel(fields[k]); }
      assert Leveled(j).fields == fields;
    case _ =>
  }

  /** On trees without numbers semantic equality is identity. */
  lemma EqualIffSame(a: Json, b: Json)
    requires NumberFree(a) && NumberFree(b)
    ensures SemanticallyEqual(a, b) <==> a == b
  {
    EqualIffLeveled(a, b);
    NumberFreeIsLevel(a);
    NumberFreeIsLevel(b);
  }

  // ----- The list of changes -----

  /** Both are objects, or both are arrays. */
  predicate SameContainer(b: Json, c: Json) {
    (b.Obj? && c.Obj?) || (b.Arr? && c.Arr?)
  }

  predicate SameType(b: Json, c: Json) {
    (b.Null? && c.Null?) || (b.Bool? && c.Bool?) || (b.Num? && c.Num?) || (b.Str? && c.Str?) || SameContainer(b, c)
  }

  /** The six types of JSON. */
  function TypeName(j: Json): string {
    match j
    case Null => "null"
    case Bool(_) => "boolean"
    case Num(_) => "number"
    case Str(_) => "string"
    case Arr(_) => "array"
    case Obj(_) => "object"
  }

  lemma SameTypeIs(b: Json, c: Json)
    ensures SameType(b, c) <==> TypeName(b) == TypeName(c)
  {
    assert TypeName(b)[0] == 'n' && TypeName(c)[0] == 'n' ==> (TypeName(b) == TypeName(c) <==> |TypeName(b)| == |TypeName(c)|);
  }

  function Indices(n: nat): (r: Tokens)
    ensures |r| == n && forall i :: 0 <= i < n ==> r[i] == Itoa(i)
  {
    seq(n, i requires 0 <= i < n => Itoa(i))
  }

  /** The children either side may have, in reporting order. */
  ghost function ChildTokens(b: Json, c: Json): Tokens
    requires SameContainer(b, c)
  {
    if b.Obj? then SortedKeys(b.fields.Keys + c.fields.Keys)
    else Indices(if |b.items| < |c.items| then |c.items| else |b.items|)
  }

  ghost function TreeDiff(b: Json, c: Json): seq<Change>
    decreases b, 2, 0
  {
    if SameContainer(b, c) then Changes(b, c, ChildTokens(b, c))
    else if SemanticallyEqual(b, c) then []
    else [Change(if SameType(b, c) then ValueChanged else TypeChanged, [], Some(b), Some(c))]
  }

  ghost function Changes(b: Json, c: Json, tokens: Tokens): seq<Change>
    requires SameContainer(b, c)
    decreases b, 1, |tokens|
  {
    if tokens == [] then [] else
    Changes(b, c, tokens[..|tokens| - 1]) + ChildChanges(b, c, tokens[|tokens| - 1])
  }

  ghost function ChildChanges(b: Json, c: Json, token: string): seq<Change>
    requires SameContainer(b, c)
    decreases b, 0, 0
  {
    match (Child(b, token), Child(c, token))
    case (Some(x), Some(y)) => Under(token, TreeDiff(x, y))
    case (None, None) => []
    case (x, y) => [Change(OneSidedKind(b, x.None?), [token], x, y)]
  }

  function OneSidedKind(parent: Json, added: bool): Kind {
    if parent.Obj? then (if added then FieldAdded else FieldRemoved) else if added then ElementAdded else ElementRemoved
  }

  /** The changes of a child, seen from its parent. */
  function Under(token: string, changes: seq<Change>): (r: seq<Change>)
    ensures |r| == |changes|
    ensures forall i :: 0 <= i < |r| ==> r[i] == changes[i].(path := [token] + changes[i].path)
  {
    seq(|changes|, i requires 0 <= i < |changes| => changes[i].(path := [token] + changes[i].path))
  }

  lemma ChangesStep(b: Json, c: Json, ts: Tokens)
    requires SameContainer(b, c) && ts != []
    ensures Changes(b, c, ts) == Changes(b, c, ts[..|ts| - 1]) + ChildChanges(b, c, ts[|ts| - 1])
    ensures forall t :: t in ts <==> t in ts[..|ts| - 1] || t == ts[|ts| - 1]
  {
    SnocMembers(ts);
  }

  // ----- Children -----

  lemma ChildTokensCover(b: Json, c: Json)
    requires SameContainer(b, c)
    ensures var ts := ChildTokens(b, c);
            && Distinct(ts)
            && forall t :: t in ts <==> Child(b, t).Some? || Child(c, t).Some?
  {
    if b.Obj? {
      SortedKeysAscend(b.fields.Keys + c.fields.Keys);
      SortedKeysMembers(b.fields.Keys + c.fields.Keys);
    } else {
      var ts := ChildTokens(b, c);
      forall i, j | 0 <= i < j < |ts| ensures ts[i] != ts[j] { ItoaInjective(i, j); }
      forall i | 0 <= i < |ts| ensures Child(b, ts[i]).Some? || Child(c, ts[i]).Some? {
        ArrayIndexOfItoa(i, |b.items|);
        ArrayIndexOfItoa(i, |c.items|);
      }
      forall t | Child(b, t).Some? || Child(c, t).Some? ensures t in ts {
        var n := if Child(b, t).Some? then ArrayIndex(t, |b.items|).value else ArrayIndex(t, |c.items|).value;
        assert ts[n] == t;
      }
    }
  }

  /** Semantic equality of two containers is agreement on every child. */
  lemma EqualByChildren(b: Json, c: Json)
    requires SameContainer(b, c)
    ensures SemanticallyEqual(b, c) <==>
            forall t :: t in ChildTokens(b, c) ==>
                          Child(b, t).Some? && Child(c, t).Some? && SemanticallyEqual(Child(b, t).value, Child(c, t).value)
  {
    var ts := ChildTokens(b, c);
    if b.Arr? {
      forall i | 0 <= i < |ts|
        ensures Child(b, ts[i]) == (if i < |b.items| then Some(b.items[i]) else None)
        ensures Child(c, ts[i]) == (if i < |c.items| then Some(c.items[i]) else None)
      {
        ArrayIndexOfItoa(i, |b.items|);
        ArrayIndexOfItoa(i, |c.items|);
      }
      if |b.items| != |c.items| {
        assert ts[if |b.items| < |c.items| then |b.items| else |c.items|] in ts;
      }
      forall i | 0 <= i < |ts| ensures ts[i] in ts { }
    } else {
      SortedKeysMembers(b.fields.Keys + c.fields.Keys);
    }
  }

  // ----- Empty exactly for equal values -----

  lemma {:induction false} EmptyIffEqual(b: Json, c: Json)
    ensures TreeDiff(b, c) == [] <==> SemanticallyEqual(b, c)
    decreases b
  {
    if SameContainer(b, c) {
      var ts := ChildTokens(b, c);
      ChildTokensCover(b, c);
      EqualByChildren(b, c);
      ChangesEmpty(b, c, ts);
      forall t | t in ts && Child(b, t).Some? && Child(c, t).Some?
        ensures ChildChanges(b, c, t) == [] <==> SemanticallyEqual(Child(b, t).value, Child(c, t).value)
      {
        EmptyIffEqual(Child(b, t).value, Child(c, t).value);
      }
    }
  }

  lemma {:induction false} ChangesEmpty(b: Json, c: Json, ts: Tokens)
    requires SameContainer(b, c)
    ensures Changes(b, c, ts) == [] <==> forall t :: t in ts ==> ChildChanges(b, c, t) == []
    decreases |ts|
  {
    if ts != [] {
      var front, last := ts[..|ts| - 1], ts[|ts| - 1];
      ChangesEmpty(b, c, front);
      ChangesStep(b, c, ts);
    }
  }

  /** A change in a list over several children comes from one of them. */
  lemma {:induction false} ChangeFromChild(b: Json, c: Json, ts: Tokens, d: Change)
    requires SameContainer(b, c)
    ensures d in Changes(b, c, ts) <==> exists t :: t in ts && d in ChildChanges(b, c, t)
    decreases |ts|
  {
    if ts != [] {
      var front, last := ts[..|ts| - 1], ts[|ts| - 1];
      ChangeFromChild(b, c, front, d);
      ChangesStep(b, c, ts);
      if d in ChildChanges(b, c, last) { assert last in ts; }
    }
  }

  // ----- Sound -----

  /** The kind says which sides have the value, and what the value's place is. */
  ghost predicate KindFits(d: Change, b: Json) {
    match d.kind
    case TypeChanged => d.before.Some? && d.after.Some? && !SameType(d.before.value, d.after.value)
    case ValueChanged => d.before.Some? && d.after.Some? && SameType(d.before.value, d.after.value) && !SameContainer(d.before.value, d.after.value)
    case FieldAdded => d.before.None? && d.after.Some? && ParentOf(b, d.path).Some? && ParentOf(b, d.path).value.Obj?
    case FieldRemoved => d.before.Some? && d.after.None? && ParentOf(b, d.path).Some? && ParentOf(b, d.path).value.Obj?
    case ElementAdded => d.before.None? && d.after.Some? && ParentOf(b, d.path).Some? && ParentOf(b, d.path).value.Arr?
    case ElementRemoved => d.before.Some? && d.after.None? && ParentOf(b, d.path).Some? && ParentOf(b, d.path).value.Arr?
    case _ => false
  }

  ghost function ParentOf(j: Json, path: Tokens): Option<Json> {
    if path == [] then None else Get(j, path[..|path| - 1])
  }

  ghost predicate Sound(b: Json, c: Json, d: Change) {
    && Get(b, d.path) == d.before && Get(c, d.path) == d.after
    && (d.before.Some? && d.after.Some? ==> !SemanticallyEqual(d.before.value, d.after.value))
    && KindFits(d, b)
  }

  /** Each reported side is what its pointer evaluates to, and the two sides differ. */
  lemma {:induction false} ChangesAreSound(b: Json, c: Json, d: Change)
    requires d in TreeDiff(b, c)
    ensures Sound(b, c, d)
    decreases b
  {
    if SameContainer(b, c) {
      ChangeFromChild(b, c, ChildTokens(b, c), d);
      var t :| t in ChildTokens(b, c) && d in ChildChanges(b, c, t);
      if Child(b, t).Some? && Child(c, t).Some? {
        var x, y := Child(b, t).value, Child(c, t).value;
        var i :| 0 <= i < |TreeDiff(x, y)| && Under(t, TreeDiff(x, y))[i] == d;
        ChangesAreSound(x, y, TreeDiff(x, y)[i]);
        SoundUnder(b, c, t, TreeDiff(x, y)[i]);
      } else {
        SoundOneSided(b, c, t, d);
      }
    }
  }

  lemma SoundOneSided(b: Json, c: Json, t: string, d: Change)
    requires SameContainer(b, c) && (Child(b, t).None? || Child(c, t).None?)
    requires d in ChildChanges(b, c, t)
    ensures Sound(b, c, d)
  {
    assert d.path == [t] && d.path[1..] == [] && d.path[..0] == [];
  }

  lemma SoundUnder(b: Json, c: Json, t: string, inner: Change)
    requires Child(b, t).Some? && Child(c, t).Some? && Sound(Child(b, t).value, Child(c, t).value, inner)
    ensures Sound(b, c, inner.(path := [t] + inner.path))
  {
    var path := [t] + inner.path;
    assert path[1..] == inner.path;
    if inner.path != [] {
      assert path[..|path| - 1] == [t] + inner.path[..|inner.path| - 1];
      assert path[..|path| - 1][1..] == inner.path[..|inner.path| - 1];
    }
  }

  // ----- In order -----

  /** Where a token stands among the children. */
  ghost predicate StandsAt(ts: Tokens, i: nat, d: Change) {
    i < |ts| && d.path != [] && d.path[0] == ts[i]
  }

  /** The changes of two containers follow the order of their children. */
  lemma ChangesAreOrdered(b: Json, c: Json, m: nat, n: nat) returns (i: nat, j: nat)
    requires SameContainer(b, c) && m <= n < |TreeDiff(b, c)|
    ensures i <= j && StandsAt(ChildTokens(b, c), i, TreeDiff(b, c)[m]) && StandsAt(ChildTokens(b, c), j, TreeDiff(b, c)[n])
    ensures b.Obj? ==> TreeDiff(b, c)[m].path[0] == TreeDiff(b, c)[n].path[0] || Less(TreeDiff(b, c)[m].path[0], TreeDiff(b, c)[n].path[0])
    ensures b.Arr? ==> TreeDiff(b, c)[m].path[0] == Itoa(i) && TreeDiff(b, c)[n].path[0] == Itoa(j)
  {
    i, j := ChildrenInOrder(b, c, ChildTokens(b, c), m, n);
    if b.Obj? {
      SortedKeysAscend(b.fields.Keys + c.fields.Keys);
    }
  }

  lemma {:induction false} ChildrenInOrder(b: Json, c: Json, ts: Tokens, m: nat, n: nat) returns (i: nat, j: nat)
    requires SameContainer(b, c) && m <= n < |Changes(b, c, ts)|
    ensures i <= j && StandsAt(ts, i, Changes(b, c, ts)[m]) && StandsAt(ts, j, Changes(b, c, ts)[n])
    decreases |ts|
  {
    var front, last := ts[..|ts| - 1], ts[|ts| - 1];
    ChangesStep(b, c, ts);
    var k := |Changes(b, c, front)|;
    if n < k {
      i, j := ChildrenInOrder(b, c, front, m, n);
    } else {
      ChildHeads(b, c, last);
      j := |ts| - 1;
      if m < k {
        i, j := ChildrenInOrder(b, c, front, m, m);
        j := |ts| - 1;
      } else {
        i := |ts| - 1;
      }
    }
  }

  lemma ChildHeads(b: Json, c: Json, token: string)
    requires SameContainer(b, c)
    ensures forall i :: 0 <= i < |ChildChanges(b, c, token)| ==> ChildChanges(b, c, token)[i].path != [] && ChildChanges(b, c, token)[i].path[0] == token
  {
  }

  // ----- Complete -----

  /** At this pointer only one side has a value, or both have and the values differ. */
  ghost predicate Differ(b: Json, c: Json, p: Tokens) {
    match (Get(b, p), Get(c, p))
    case (Some(x), Some(y)) => !SemanticallyEqual(x, y)
    case (x, y) => x != y
  }

  /** Wherever the two values differ there is a change: above, at or below that place. */
  lemma {:induction false} ChangesAreComplete(b: Json, c: Json, p: Tokens) returns (d: Change)
    requires Differ(b, c, p)
    ensures d in TreeDiff(b, c) && (d.path <= p || p <= d.path)
    ensures Get(b, p).None? || Get(c, p).None? ==> d.path <= p
    decreases p
  {
    if p == [] {
      EmptyIffEqual(b, c);
      d := TreeDiff(b, c)[0];
    } else if SameContainer(b, c) {
      var t := p[0];
      ChildTokensCover(b, c);
      var inner: Change;
      if Child(b, t).Some? && Child(c, t).Some? {
        inner := ChangesAreComplete(Child(b, t).value, Child(c, t).value, p[1..]);
        d := inner.(path := [t] + inner.path);
        var list := TreeDiff(Child(b, t).value, Child(c, t).value);
        var i :| 0 <= i < |list| && list[i] == inner;
        assert Under(t, list)[i] == d;
        PrefixesUnder(t, inner.path, p);
      } else {
        d := ChildChanges(b, c, t)[0];
        assert d.path == [t] && d.path <= p;
      }
      ChangeFromChild(b, c, ChildTokens(b, c), d);
    } else {
      if SemanticallyEqual(b, c) { EqualEverywhere(b, c, p); }
      d := TreeDiff(b, c)[0];
    }
  }

  lemma PrefixesUnder(t: string, path: Tokens, p: Tokens)
    requires p != [] && p[0] == t
    ensures [t] + path <= p <==> path <= p[1..]
    ensures p <= [t] + path <==> p[1..] <= path
  {
    HeadAndTail(p);
    assert p == [t] + p[1..];
  }

  /** And only there: at and above the place of a change the two values differ. */
  lemma ChangesAreReal(b: Json, c: Json, d: Change, p: Tokens)
    requires d in TreeDiff(b, c) && p <= d.path
    ensures Differ(b, c, p)
  {
    ChangesAreSound(b, c, d);
    var rest := RestOf(p, d.path);
    GetSplit(b, p, rest);
    GetSplit(c, p, rest);
    if Get(b, p).Some? && Get(c, p).Some? && SemanticallyEqual(Get(b, p).value, Get(c, p).value) {
      EqualEverywhere(Get(b, p).value, Get(c, p).value, rest);
    }
  }

  lemma RestOf(p: Tokens, path: Tokens) returns (rest: Tokens)
    requires p <= path
    ensures path == p + rest
  {
    rest := path[|p|..];
  }

  /** Equal values have equal values at every pointer. */
  lemma {:induction false} EqualEverywhere(a: Json, b: Json, p: Tokens)
    requires SemanticallyEqual(a, b)
    ensures !Differ(a, b, p)
    decreases p
  {
    if p != [] && Child(a, p[0]).Some? { EqualEverywhere(Child(a, p[0]).value, Child(b, p[0]).value, p[1..]); }
  }

  // ----- Free of overlaps -----

  ghost predicate Apart(changes: seq<Change>) {
    forall i, j :: 0 <= i < j < |changes| ==> !(changes[i].path <= changes[j].path) && !(changes[j].path <= changes[i].path)
  }

  /** No reported location lies at or below another one. */
  lemma {:induction false} ChangesAreApart(b: Json, c: Json)
    ensures Apart(TreeDiff(b, c))
    decreases b, |ChildTokensOrNone(b, c)| + 1
  {
    if SameContainer(b, c) {
      ChildTokensCover(b, c);
      ChangesOverApart(b, c, ChildTokens(b, c));
    }
  }

  ghost function ChildTokensOrNone(b: Json, c: Json): Tokens {
    if SameContainer(b, c) then ChildTokens(b, c) else []
  }

  lemma {:induction false} ChangesOverApart(b: Json, c: Json, ts: Tokens)
    requires SameContainer(b, c) && Distinct(ts)
    ensures Apart(Changes(b, c, ts))
    ensures forall d :: d in Changes(b, c, ts) ==> d.path != [] && d.path[0] in ts
    decreases b, |ts|
  {
    if ts != [] {
      var front, last := ts[..|ts| - 1], ts[|ts| - 1];
      ChangesOverApart(b, c, front);
      ChangesStep(b, c, ts);
      if Child(b, last).Some? && Child(c, last).Some? {
        ChangesAreApart(Child(b, last).value, Child(c, last).value);
        UnderApart(last, TreeDiff(Child(b, last).value, Child(c, last).value));
      }
      assert last !in front;
      ApartConcat(Changes(b, c, front), ChildChanges(b, c, last));
    }
  }

  lemma UnderApart(token: string, inner: seq<Change>)
    requires Apart(inner)
    ensures Apart(Under(token, inner))
  {
    var outer := Under(token, inner);
    forall i, j | 0 <= i < |outer| && 0 <= j < |outer| && outer[i].path <= outer[j].path ensures inner[i].path <= inner[j].path {
      assert outer[i].path[1..] == inner[i].path && outer[j].path[1..] == inner[j].path;
    }
  }

  lemma ApartConcat(a: seq<Change>, b: seq<Change>)
    requires Apart(a) && Apart(b)
    requires forall d :: d in a || d in b ==> d.path != []
    requires forall d, e :: d in a && e in b ==> d.path[0] != e.path[0]
    ensures Apart(a + b)
  {
    var all := a + b;
    forall i, j | 0 <= i < j < |all| ensures !(all[i].path <= all[j].path) && !(all[j].path <= all[i].path) {
      if i < |a| <= j { assert all[i] in a && all[j] in b; }
    }
  }

  // ----- Symmetric -----

  function MirrorKind(kind: Kind): Kind {
    match kind
    case FieldAdded => FieldRemoved
    case FieldRemoved => FieldAdded
    case ElementAdded => ElementRemoved
    case ElementRemoved => ElementAdded
    case _ => kind
  }

  function Mirror(d: Change): Change {
    Change(MirrorKind(d.kind), d.path, d.after, d.before)
  }

  function MirrorAll(changes: seq<Change>): (r: seq<Change>)
    ensures |r| == |changes| && forall i :: 0 <= i < |r| ==> r[i] == Mirror(changes[i])
  {
    seq(|changes|, i requires 0 <= i < |changes| => Mirror(changes[i]))
  }

  lemma MirrorConcat(a: seq<Change>, b: seq<Change>)
    ensures MirrorAll(a + b) == MirrorAll(a) + MirrorAll(b)
  {
  }

  lemma MirrorUnder(token: string, inner: seq<Change>)
    ensures MirrorAll(Under(token, inner)) == Under(token, MirrorAll(inner))
  {
  }

  /** Comparing the other way round reports the same places in the same order, with the sides exchanged. */
  lemma {:induction false} SwapMirrors(b: Json, c: Json)
    ensures TreeDiff(c, b) == MirrorAll(TreeDiff(b, c))
    decreases b, |ChildTokensOrNone(b, c)| + 1
  {
    SemanticallyEqualSymmetric(b, c);
    if SameContainer(b, c) {
      if b.Obj? { assert b.fields.Keys + c.fields.Keys == c.fields.Keys + b.fields.Keys; }
      assert ChildTokens(b, c) == ChildTokens(c, b);
      SwapChanges(b, c, ChildTokens(b, c));
    }
  }

  lemma {:induction false} SwapChanges(b: Json, c: Json, ts: Tokens)
    requires SameContainer(b, c)
    ensures Changes(c, b, ts) == MirrorAll(Changes(b, c, ts))
    decreases b, |ts|
  {
    if ts != [] {
      var last := ts[|ts| - 1];
      SwapChanges(b, c, ts[..|ts| - 1]);
      ChangesStep(b, c, ts);
      ChangesStep(c, b, ts);
      if Child(b, last).Some? && Child(c, last).Some? { SwapMirrors(Child(b, last).value, Child(c, last).value); }
      SwapChild(b, c, last);
      MirrorConcat(Changes(b, c, ts[..|ts| - 1]), ChildChanges(b, c, last));
    }
  }

  lemma SwapChild(b: Json, c: Json, token: string)
    requires SameContainer(b, c)
    requires Child(b, token).Some? && Child(c, token).Some? ==>
               TreeDiff(Child(c, token).value, Child(b, token).value) == MirrorAll(TreeDiff(Child(b, token).value, Child(c, token).value))
    ensures ChildChanges(c, b, token) == MirrorAll(ChildChanges(b, c, token))
  {
    if Child(b, token).Some? && Child(c, token).Some? {
      MirrorUnder(token, TreeDiff(Child(b, token).value, Child(c, token).value));
    }
  }

  lemma {:induction false} SemanticallyEqualSymmetric(a: Json, b: Json)
    ensures SemanticallyEqual(a, b) <==> SemanticallyEqual(b, a)
  {
    match (a, b)
    case (Arr(xs), Arr(ys)) =>
      forall i | 0 <= i < |xs| && i < |ys| ensures SemanticallyEqual(xs[i], ys[i]) <==> SemanticallyEqual(ys[i], xs[i]) {
        SemanticallyEqualSymmetric(xs[i], ys[i]);
      }
    case (Obj(xs), Obj(ys)) =>
      forall k | k in xs && k in ys ensures SemanticallyEqual(xs[k], ys[k]) <==> SemanticallyEqual(ys[k], xs[k]) {
        SemanticallyEqualSymmetric(xs[k], ys[k]);
      }
    case _ =>
  }
}
