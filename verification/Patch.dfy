/** The reported differences, carried out on the baseline, rebuild the current value. */
module Patch {
  import opened Strings
  import opened Decimal
  import opened Json
  import opened JsonChanges

  // ----- Carrying out a list of changes -----

  /** The changes that concern one child, seen from that child. */
  function Below(changes: seq<Change>, token: string): seq<Change> {
    if changes == [] then [] else
    (if changes[0].path != [] && changes[0].path[0] == token then [changes[0].(path := changes[0].path[1..])] else [])
    + Below(changes[1..], token)
  }

  /** The first change of the value itself. */
  function OfWhole(changes: seq<Change>): Option<Change> {
    if changes == [] then None
    else if changes[0].path == [] then Some(changes[0])
    else OfWhole(changes[1..])
  }

  function Heads(changes: seq<Change>): set<string> {
    set i | 0 <= i < |changes| && changes[i].path != [] :: changes[i].path[0]
  }

  /**
    The value with every change carried out at its place: replaced, added, or removed. A removed element takes
    out that element and no other; None when the value itself is removed.
   */
  function Carry(j: Json, changes: seq<Change>): Option<Json>
    decreases j, 1
  {
    match OfWhole(changes)
    case Some(d) => d.after
    case None =>
      match j
      case Obj(fields) => Some(Obj(map k | k in fields.Keys + Heads(changes) && CarryChild(j, changes, k).Some? :: CarryChild(j, changes, k).value))
      case Arr(items) => Some(Arr(CarryItems(j, changes, |items| + |changes|)))
      case _ => Some(j)
  }

  function CarryChild(j: Json, changes: seq<Change>, token: string): Option<Json>
    decreases j, 0, 0
  {
    match Child(j, token)
    case Some(x) => Carry(x, Below(changes, token))
    case None => if OfWhole(Below(changes, token)).Some? then OfWhole(Below(changes, token)).value.after else None
  }

  /** The elements that remain or are added at the first n positions. */
  function CarryItems(j: Json, changes: seq<Change>, n: nat): seq<Json>
    decreases j, 0, n + 1
  {
    if n == 0 then [] else
      var x := CarryChild(j, changes, Itoa(n - 1));
      CarryItems(j, changes, n - 1) + if x.Some? then [x.value] else []
  }

  // ----- The changes of one child -----

  lemma {:induction false} BelowConcat(a: seq<Change>, b: seq<Change>, token: string)
    ensures Below(a + b, token) == Below(a, token) + Below(b, token)
  {
    if a == [] {
      assert a + b == b;
    } else {
      ConcatTail(a, b);
      BelowConcat(a[1..], b, token);
    }
  }

  lemma {:induction false} BelowUnder(inner: seq<Change>, token: string, other: string)
    ensures Below(Under(token, inner), other) == if other == token then inner else []
  {
    if inner != [] {
      assert Under(token, inner)[1..] == Under(token, inner[1..]);
      ConsIsOne(token, inner[0].path, inner[0].path);
      BelowUnder(inner[1..], token, other);
      HeadAndTail(inner);
    }
  }

  /** What the list says about one child, seen from there. */
  ghost function ChildList(b: Json, c: Json, token: string): seq<Change>
    requires SameContainer(b, c)
  {
    match (Child(b, token), Child(c, token))
    case (Some(x), Some(y)) => TreeDiff(x, y)
    case (None, None) => []
    case (x, y) => [Change(OneSidedKind(b, x.None?), [], x, y)]
  }

  lemma BelowChildChanges(b: Json, c: Json, token: string, other: string)
    requires SameContainer(b, c)
    ensures Below(ChildChanges(b, c, token), other) == if other == token then ChildList(b, c, token) else []
  {
    if Child(b, token).Some? && Child(c, token).Some? {
      BelowUnder(TreeDiff(Child(b, token).value, Child(c, token).value), token, other);
    } else if ChildChanges(b, c, token) != [] {
      BelowOne(ChildChanges(b, c, token)[0], token, other);
    }
  }

  lemma BelowOne(d: Change, token: string, other: string)
    requires d.path == [token]
    ensures Below([d], other) == if other == token then [d.(path := [])] else []
  {
    assert [d][1..] == [] && [token][1..] == [];
  }

  lemma {:induction false} BelowChanges(b: Json, c: Json, ts: Tokens, token: string)
    requires SameContainer(b, c) && Distinct(ts)
    ensures Below(Changes(b, c, ts), token) == if token in ts then ChildList(b, c, token) else []
    decreases |ts|
  {
    if ts != [] {
      var front, last := ts[..|ts| - 1], ts[|ts| - 1];
      LastIsNew(ts);
      BelowChanges(b, c, front, token);
      ChangesStep(b, c, ts);
      BelowConcat(Changes(b, c, front), ChildChanges(b, c, last), token);
      BelowChildChanges(b, c, last, token);
    }
  }

  lemma LastIsNew(ts: Tokens)
    requires ts != [] && Distinct(ts)
    ensures ts[|ts| - 1] !in ts[..|ts| - 1] && Distinct(ts[..|ts| - 1])
  {
  }

  /** In the list of two containers, each child finds its own changes. */
  lemma BelowTreeDiff(b: Json, c: Json, token: string)
    requires SameContainer(b, c)
    ensures Below(TreeDiff(b, c), token) == ChildList(b, c, token)
  {
    ChildTokensCover(b, c);
    BelowChanges(b, c, ChildTokens(b, c), token);
  }

  lemma {:induction false} NotOfWhole(changes: seq<Change>)
    requires forall d :: d in changes ==> d.path != []
    ensures OfWhole(changes) == None
  {
    if changes != [] { NotOfWhole(changes[1..]); }
  }

  lemma ContainersAreNotReplaced(b: Json, c: Json)
    requires SameContainer(b, c)
    ensures OfWhole(TreeDiff(b, c)) == None
  {
    forall d | d in TreeDiff(b, c) ensures d.path != [] {
      ChangesAreSound(b, c, d);
      ChangeFromChild(b, c, ChildTokens(b, c), d);
    }
    NotOfWhole(TreeDiff(b, c));
  }

  // ----- Completeness -----

  /** The list loses nothing: the baseline with every difference carried out is the current value. */
  lemma {:induction false} PatchRebuilds(b: Json, c: Json)
    ensures Carry(b, TreeDiff(b, c)).Some? && SemanticallyEqual(Carry(b, TreeDiff(b, c)).value, c)
    decreases b, 1
  {
    var changes := TreeDiff(b, c);
    if SameContainer(b, c) {
      ContainersAreNotReplaced(b, c);
      forall t ensures CarriedAt(b, c, t) { ChildIsRebuilt(b, c, t); }
      if b.Obj? { FieldsAreRebuilt(b, c); } else { ItemsAreRebuilt(b, c); }
    } else if SemanticallyEqual(b, c) {
      assert changes == [];
    } else {
      assert OfWhole(changes) == Some(changes[0]);
      SemanticallyEqualReflexive(c);
    }
  }

  /** Carrying out the list gives this child its current value, or takes it out with it. */
  ghost predicate CarriedAt(b: Json, c: Json, token: string) {
    var x := CarryChild(b, TreeDiff(b, c), token);
    && (x.Some? <==> Child(c, token).Some?)
    && (x.Some? && Child(c, token).Some? ==> SemanticallyEqual(x.value, Child(c, token).value))
  }

  lemma {:induction false} ChildIsRebuilt(b: Json, c: Json, token: string)
    requires SameContainer(b, c)
    ensures CarriedAt(b, c, token)
    decreases b, 0
  {
    BelowTreeDiff(b, c, token);
    if Child(b, token).Some? && Child(c, token).Some? {
      PatchRebuilds(Child(b, token).value, Child(c, token).value);
    } else if Child(c, token).Some? {
      SemanticallyEqualReflexive(Child(c, token).value);
    }
  }

  lemma FieldsAreRebuilt(b: Json, c: Json)
    requires b.Obj? && c.Obj? && OfWhole(TreeDiff(b, c)) == None && forall t :: CarriedAt(b, c, t)
    ensures SemanticallyEqual(Carry(b, TreeDiff(b, c)).value, c)
  {
    var changes := TreeDiff(b, c);
    var r := Carry(b, changes).value;
    forall k ensures k in r.fields <==> k in c.fields {
      assert CarriedAt(b, c, k);
      if k in c.fields && k !in b.fields { AddedIsHead(changes, k); }
    }
    forall k | k in r.fields && k in c.fields ensures SemanticallyEqual(r.fields[k], c.fields[k]) { assert CarriedAt(b, c, k); }
  }

  lemma {:induction false} AddedIsHead(changes: seq<Change>, token: string)
    requires Below(changes, token) != []
    ensures token in Heads(changes)
  {
    if changes[0].path == [] || changes[0].path[0] != token {
      AddedIsHead(changes[1..], token);
      var i :| 0 <= i < |changes[1..]| && changes[1..][i].path != [] && changes[1..][i].path[0] == token;
      assert changes[i + 1].path[0] == token;
    }
  }

  lemma ItemsAreRebuilt(b: Json, c: Json)
    requires b.Arr? && c.Arr? && OfWhole(TreeDiff(b, c)) == None && forall t :: CarriedAt(b, c, t)
    ensures SemanticallyEqual(Carry(b, TreeDiff(b, c)).value, c)
  {
    var changes := TreeDiff(b, c);
    var n := |b.items| + |changes|;
    AdditionsAreListed(b, c);
    forall i | 0 <= i < n ensures ItemCarried(b, changes, c.items, i) { ItemIsCarried(b, c, i); }
    FirstItems(b, changes, c.items, n);
    ItemsRebuilt(b, changes, c.items);
  }

  lemma ItemsRebuilt(b: Json, changes: seq<Change>, items: seq<Json>)
    requires b.Arr? && OfWhole(changes) == None && |b.items| + |changes| >= |items|
    requires EqualUpTo(CarryItems(b, changes, |b.items| + |changes|), items, |b.items| + |changes|)
    ensures SemanticallyEqual(Carry(b, changes).value, Arr(items))
  {
  }

  /** The element at this position comes out as it should. */
  ghost predicate ItemCarried(j: Json, changes: seq<Change>, items: seq<Json>, i: nat) {
    var x := CarryChild(j, changes, Itoa(i));
    (x.Some? <==> i < |items|) && (x.Some? && i < |items| ==> SemanticallyEqual(x.value, items[i]))
  }

  lemma ItemIsCarried(b: Json, c: Json, i: nat)
    requires c.Arr? && SameContainer(b, c) && CarriedAt(b, c, Itoa(i))
    ensures ItemCarried(b, TreeDiff(b, c), c.items, i)
  {
    ArrayIndexOfItoa(i, |c.items|);
  }

  lemma {:induction false} FirstItems(j: Json, changes: seq<Change>, items: seq<Json>, n: nat)
    requires forall i :: 0 <= i < n ==> ItemCarried(j, changes, items, i)
    ensures EqualUpTo(CarryItems(j, changes, n), items, n)
  {
    if n > 0 {
      FirstItems(j, changes, items, n - 1);
      assert ItemCarried(j, changes, items, n - 1);
      EqualOneMore(CarryItems(j, changes, n - 1), CarryChild(j, changes, Itoa(n - 1)), items, n - 1);
    }
  }

  ghost predicate EqualUpTo(r: seq<Json>, items: seq<Json>, n: nat) {
    && |r| == (if n < |items| then n else |items|)
    && forall i :: 0 <= i < |r| && i < |items| ==> SemanticallyEqual(r[i], items[i])
  }

  lemma EqualOneMore(r: seq<Json>, x: Option<Json>, items: seq<Json>, n: nat)
    requires EqualUpTo(r, items, n)
    requires (x.Some? <==> n < |items|) && (x.Some? ==> SemanticallyEqual(x.value, items[n]))
    ensures EqualUpTo(r + (if x.Some? then [x.value] else []), items, n + 1)
  {
    var s := r + (if x.Some? then [x.value] else []);
    forall i | 0 <= i < |s| && i < |items| ensures SemanticallyEqual(s[i], items[i]) { assert i < |r| ==> s[i] == r[i]; }
  }

  /** Each element beyond the baseline has a change of its own. */
  lemma AdditionsAreListed(b: Json, c: Json)
    requires b.Arr? && c.Arr?
    ensures |b.items| + |TreeDiff(b, c)| >= |c.items|
  {
    if |c.items| > |b.items| { AdditionsUpTo(b, c, |c.items|); }
  }

  lemma {:induction false} AdditionsUpTo(b: Json, c: Json, n: nat)
    requires b.Arr? && c.Arr? && |b.items| <= n <= |c.items|
    ensures |b.items| + |Changes(b, c, Indices(n))| >= n
    decreases n
  {
    if n > |b.items| {
      AdditionsUpTo(b, c, n - 1);
      assert Indices(n)[..n - 1] == Indices(n - 1);
      ChangesStep(b, c, Indices(n));
      AdditionIsListed(b, c, n - 1);
    }
  }

  lemma AdditionIsListed(b: Json, c: Json, i: nat)
    requires b.Arr? && c.Arr? && |b.items| <= i < |c.items|
    ensures |ChildChanges(b, c, Itoa(i))| == 1
  {
    ArrayIndexOfItoa(i, |b.items|);
    ArrayIndexOfItoa(i, |c.items|);
  }
}
