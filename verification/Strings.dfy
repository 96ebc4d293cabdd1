/** The parts of Go's strings and sort packages that the rest of the model needs. */
module Strings {
  datatype Option<+T> = None | Some(value: T)

  // ----- Order and sorting -----

  /** Go's `<` on strings: lexicographic by code. */
  predicate Less(a: string, b: string)
    decreases |a|
  {
    b != "" && (a == "" || a[0] < b[0] || (a[0] == b[0] && Less(a[1..], b[1..])))
  }

  /** Lexicographic: after a common beginning the first string ends, or has the smaller character. */
  lemma {:induction false} LessIsLexicographic(a: string, b: string)
    ensures Less(a, b) <==> exists n :: DecidesAt(a, b, n)
  {
    if a != "" && b != "" && a[0] == b[0] {
      LessIsLexicographic(a[1..], b[1..]);
      if n :| DecidesAt(a[1..], b[1..], n) {
        assert a[..n + 1] == [a[0]] + a[1..][..n] && b[..n + 1] == [b[0]] + b[1..][..n];
        assert DecidesAt(a, b, n + 1);
      }
      if n :| DecidesAt(a, b, n) {
        assert n > 0;
        assert a[1..][..n - 1] == a[..n][1..] && b[1..][..n - 1] == b[..n][1..];
        assert DecidesAt(a[1..], b[1..], n - 1);
      }
    } else {
      if Less(a, b) { assert DecidesAt(a, b, 0); }
      if n :| DecidesAt(a, b, n) { DecidesHead(a, b, n); }
    }
  }

  lemma DecidesHead(a: string, b: string, n: int)
    requires DecidesAt(a, b, n)
    ensures n > 0 ==> a != "" && b != "" && a[0] == b[0]
  {
    if n > 0 { assert a[..n][0] == a[0] && b[..n][0] == b[0]; }
  }

  predicate DecidesAt(a: string, b: string, n: int) {
    0 <= n <= |a| && n < |b| && a[..n] == b[..n] && (n == |a| || a[n] < b[n])
  }

  ghost predicate StrictTotal(less: (string, string) -> bool) {
    && (forall a :: !less(a, a))
    && (forall a, b, c :: less(a, b) && less(b, c) ==> less(a, c))
    && (forall a, b :: a == b || less(a, b) || less(b, a))
  }

  lemma {:induction false} LessIsStrictTotal()
    ensures StrictTotal(Less)
  {
    forall a ensures !Less(a, a) { LessIrreflexive(a); }
    forall a, b, c | Less(a, b) && Less(b, c) ensures Less(a, c) { LessTransitive(a, b, c); }
    forall a, b ensures a == b || Less(a, b) || Less(b, a) { LessTotal(a, b); }
  }

  lemma {:induction false} LessIrreflexive(a: string)
    ensures !Less(a, a)
  {
    if a != "" { LessIrreflexive(a[1..]); }
  }

  lemma {:induction false} LessTransitive(a: string, b: string, c: string)
    requires Less(a, b) && Less(b, c)
    ensures Less(a, c)
  {
    if a != "" && a[0] == b[0] == c[0] { LessTransitive(a[1..], b[1..], c[1..]); }
  }

  lemma {:induction false} LessTotal(a: string, b: string)
    ensures a == b || Less(a, b) || Less(b, a)
  {
    if a != "" && b != "" && a[0] == b[0] {
      LessTotal(a[1..], b[1..]);
      assert a == [a[0]] + a[1..] && b == [b[0]] + b[1..];
    }
  }

  /** A proper prefix sorts before any string that extends it. */
  lemma {:induction false} PrefixIsLess(a: string, b: string)
    requires a <= b && a != b
    ensures Less(a, b)
  {
    if a != "" { PrefixIsLess(a[1..], b[1..]); }
  }

  ghost predicate Ascending(less: (string, string) -> bool, s: seq<string>) {
    forall i, j :: 0 <= i < j < |s| ==> less(s[i], s[j])
  }

  ghost function Elems<T>(s: seq<T>): set<T> {
    set x | x in s
  }

  ghost predicate Distinct<T>(s: seq<T>) {
    forall i, j :: 0 <= i < j < |s| ==> s[i] != s[j]
  }

  function Insert(less: (string, string) -> bool, x: string, s: seq<string>): seq<string> {
    if s == [] || less(x, s[0]) then [x] + s else [s[0]] + Insert(less, x, s[1..])
  }

  /** sort.Strings and sort.Slice on names that are all different. */
  function Sort(less: (string, string) -> bool, s: seq<string>): seq<string> {
    if s == [] then [] else Insert(less, s[0], Sort(less, s[1..]))
  }

  lemma {:induction false} InsertKeepsAscending(less: (string, string) -> bool, x: string, s: seq<string>)
    requires StrictTotal(less) && Ascending(less, s) && x !in s
    ensures Ascending(less, Insert(less, x, s))
    ensures Elems(Insert(less, x, s)) == Elems(s) + {x}
    ensures forall y :: y in Insert(less, x, s) <==> y == x || y in s
  {
    if s != [] && !less(x, s[0]) {
      InsertKeepsAscending(less, x, s[1..]);
      var t := Insert(less, x, s[1..]);
      forall j | 0 <= j < |t| ensures less(s[0], t[j]) { assert t[j] in t; }
      assert forall y :: y in s <==> y == s[0] || y in s[1..];
    } else {
      forall j | 0 <= j < |s| ensures less(x, s[j]) { }
    }
  }

  lemma {:induction false} SortAscends(less: (string, string) -> bool, s: seq<string>)
    requires StrictTotal(less) && Distinct(s)
    ensures Ascending(less, Sort(less, s)) && Elems(Sort(less, s)) == Elems(s)
    ensures forall y :: y in Sort(less, s) <==> y in s
  {
    if s != [] {
      SortAscends(less, s[1..]);
      assert s[0] !in s[1..];
      InsertKeepsAscending(less, s[0], Sort(less, s[1..]));
      assert forall y :: y in s <==> y == s[0] || y in s[1..];
    }
  }

  /** Sorting keeps the elements, repeated or not. */
  lemma {:induction false} SortKeepsElements(less: (string, string) -> bool, s: seq<string>)
    ensures forall y :: y in Sort(less, s) <==> y in s
  {
    if s != [] {
      SortKeepsElements(less, s[1..]);
      InsertKeepsElements(less, s[0], Sort(less, s[1..]));
      assert forall y :: y in s <==> y == s[0] || y in s[1..];
    }
  }

  lemma {:induction false} InsertKeepsElements(less: (string, string) -> bool, x: string, s: seq<string>)
    ensures forall y :: y in Insert(less, x, s) <==> y == x || y in s
  {
    if s != [] && !less(x, s[0]) {
      InsertKeepsElements(less, x, s[1..]);
      assert forall y :: y in s <==> y == s[0] || y in s[1..];
    }
  }

  /** Ascending, with repetitions. */
  ghost predicate InOrder(s: seq<string>) {
    forall i, j :: 0 <= i < j < |s| ==> !Less(s[j], s[i])
  }

  /** sort.Strings on any list. */
  lemma {:induction false} SortIsInOrder(s: seq<string>)
    ensures InOrder(Sort(Less, s)) && multiset(Sort(Less, s)) == multiset(s)
  {
    if s != [] {
      SortIsInOrder(s[1..]);
      InsertIsInOrder(s[0], Sort(Less, s[1..]));
      HeadCounts(s);
    }
  }

  lemma {:induction false} InsertIsInOrder(x: string, s: seq<string>)
    requires InOrder(s)
    ensures InOrder(Insert(Less, x, s)) && multiset(Insert(Less, x, s)) == multiset{x} + multiset(s)
  {
    if s != [] && !Less(x, s[0]) {
      InsertIsInOrder(x, s[1..]);
      HeadCounts(s);
      InsertKeepsElements(Less, x, s[1..]);
      FirstInOrder(s[0], Insert(Less, x, s[1..]));
    } else {
      NoneIsLess(x, s);
      FirstInOrder(x, s);
    }
  }

  lemma NoneIsLess(x: string, s: seq<string>)
    requires InOrder(s) && (s != [] ==> Less(x, s[0]))
    ensures forall y :: y in s ==> !Less(y, x)
  {
    forall j | 0 <= j < |s| ensures !Less(s[j], x) {
      if Less(s[j], x) { LessTransitive(s[j], x, s[0]); LessIrreflexive(s[0]); }
    }
  }

  lemma FirstInOrder(first: string, s: seq<string>)
    requires InOrder(s) && forall y :: y in s ==> !Less(y, first)
    ensures InOrder([first] + s) && multiset([first] + s) == multiset{first} + multiset(s)
  {
    var t := [first] + s;
    forall i, j | 0 <= i < j < |t| ensures !Less(t[j], t[i]) { assert t[j] == s[j - 1] && s[j - 1] in s; }
  }

  lemma HeadCounts(s: seq<string>)
    requires s != []
    ensures multiset(s) == multiset{s[0]} + multiset(s[1..])
    ensures multiset(s) - multiset{s[0]} == multiset(s[1..])
  {
    HeadAndTail(s);
  }

  /** A collection has one sorted list. */
  lemma {:induction false} InOrderIsUnique(a: seq<string>, b: seq<string>)
    requires InOrder(a) && InOrder(b) && multiset(a) == multiset(b)
    ensures a == b
  {
    if a == [] {
      assert |b| == |multiset(b)| == 0;
    } else {
      assert a[0] in multiset(b) && b[0] in multiset(a);
      var i :| 0 <= i < |b| && b[i] == a[0];
      var j :| 0 <= j < |a| && a[j] == b[0];
      LessTotal(a[0], b[0]);
      assert a[0] == b[0];
      HeadCounts(a);
      HeadCounts(b);
      InOrderIsUnique(a[1..], b[1..]);
    }
  }

  lemma {:induction false} DistinctCounts(s: seq<string>, x: string)
    requires Distinct(s)
    ensures multiset(s)[x] == if x in s then 1 else 0
  {
    if s != [] {
      HeadAndTail(s);
      DistinctCounts(s[1..], x);
      assert s[0] !in s[1..];
      assert x in s <==> x == s[0] || x in s[1..];
    }
  }

  /** A set has one ascending enumeration, so map iteration order cannot show through a sort. */
  lemma {:induction false} AscendingIsUnique(less: (string, string) -> bool, a: seq<string>, b: seq<string>)
    requires StrictTotal(less) && Ascending(less, a) && Ascending(less, b)
    requires forall x :: x in a <==> x in b
    ensures a == b
  {
    assert (a == [] || a[0] in a) && (b == [] || b[0] in b);
    if a != [] && b != [] {
      assert a[0] in b && b[0] in a;
      var i :| 0 <= i < |b| && b[i] == a[0];
      var j :| 0 <= j < |a| && a[j] == b[0];
      assert a[0] == b[0];
      assert forall x :: x in a[1..] <==> x in a && x != a[0];
      assert forall x :: x in b[1..] <==> x in b && x != b[0];
      AscendingIsUnique(less, a[1..], b[1..]);
    }
  }

  /** The ascending enumeration of a set. */
  ghost function Sorted(less: (string, string) -> bool, s: set<string>): seq<string> {
    if s == {} then [] else
      var x :| x in s;
      Insert(less, x, Sorted(less, s - {x}))
  }

  lemma {:induction false} SortedAscends(less: (string, string) -> bool, s: set<string>)
    requires StrictTotal(less)
    ensures Ascending(less, Sorted(less, s)) && Elems(Sorted(less, s)) == s
    ensures forall x :: x in Sorted(less, s) <==> x in s
  {
    if s != {} {
      var x :| x in s && Sorted(less, s) == Insert(less, x, Sorted(less, s - {x}));
      SortedAscends(less, s - {x});
      InsertKeepsAscending(less, x, Sorted(less, s - {x}));
    }
  }

  /** The keys of a map, as sort.Strings leaves them. */
  ghost function SortedKeys(s: set<string>): seq<string> {
    Sorted(Less, s)
  }

  lemma SortedKeysMembers(s: set<string>)
    ensures Elems(SortedKeys(s)) == s
    ensures forall x :: x in SortedKeys(s) <==> x in s
  {
    LessIsStrictTotal();
    SortedAscends(Less, s);
  }

  lemma SortedKeysAscend(s: set<string>)
    ensures Ascending(Less, SortedKeys(s)) && Distinct(SortedKeys(s))
  {
    LessIsStrictTotal();
    SortedAscends(Less, s);
  }

  /** Ranging over a Go map visits every key once, in no particular order. */
  method RangeKeys(s: set<string>) returns (r: seq<string>)
    ensures Distinct(r) && Elems(r) == s
    ensures forall x :: x in r <==> x in s
  {
    r := [];
    var rest := s;
    while rest != {}
      invariant rest <= s && Distinct(r)
      invariant forall x :: x in r <==> x in s - rest
      decreases rest
    {
      var x :| x in rest;
      assert x !in r;
      r := r + [x];
      rest := rest - {x};
    }
  }

  /** sort.Strings(keys of a map): the order in which the map was visited is lost. */
  method SortKeys(s: set<string>) returns (r: seq<string>)
    ensures r == SortedKeys(s) && Elems(r) == s
    ensures forall x :: x in r <==> x in s
  {
    var keys := RangeKeys(s);
    r := Sort(Less, keys);
    LessIsStrictTotal();
    SortAscends(Less, keys);
    SortedKeysAscend(s);
    SortedKeysMembers(s);
    AscendingIsUnique(Less, r, SortedKeys(s));
  }

  /** Membership in a list, one element from its end. */
  lemma SnocMembers<T>(s: seq<T>)
    requires s != []
    ensures forall x :: x in s <==> x in s[..|s| - 1] || x == s[|s| - 1]
  {
    var front := s[..|s| - 1];
    forall x | x in s ensures x in front || x == s[|s| - 1] {
      var i :| 0 <= i < |s| && s[i] == x;
      if i < |front| { assert front[i] == x; }
    }
    forall x | x in front ensures x in s {
      var i :| 0 <= i < |front| && front[i] == x;
      assert s[i] == x;
    }
  }

  // ----- Concatenation -----

  lemma Regroup<T>(a: seq<T>, b: seq<T>, c: seq<T>)
    ensures (a + b) + c == a + (b + c)
  {
  }

  lemma ConcatTail<T>(a: seq<T>, b: seq<T>)
    requires a != []
    ensures a + b != [] && (a + b)[0] == a[0] && (a + b)[1..] == a[1..] + b
  {
  }

  lemma HeadAndTail<T>(s: seq<T>)
    requires s != []
    ensures [s[0]] + s[1..] == s
  {
  }

  lemma ConsIsOne<T>(head: T, a: seq<T>, b: seq<T>)
    ensures ([head] + a)[0] == head && ([head] + a)[1..] == a
    ensures [head] + a == [head] + b ==> a == b
  {
    assert ([head] + a)[1..] == a && ([head] + b)[1..] == b;
  }

  lemma DropOfConcat<T>(a: seq<T>, b: seq<T>)
    ensures (a + b)[..|a|] == a && (a + b)[|a|..] == b
  {
  }

  // ----- Searching and rewriting -----

  predicate HasPrefix(s: string, prefix: string) {
    |prefix| <= |s| && s[..|prefix|] == prefix
  }

  /** strings.IndexAny with two characters: the least index of either, or |s|. */
  function IndexEither(s: string, a: char, b: char): (r: nat)
    ensures r <= |s| && (r < |s| ==> s[r] == a || s[r] == b)
    ensures forall i :: 0 <= i < r ==> s[i] != a && s[i] != b
  {
    if s == "" || s[0] == a || s[0] == b then 0 else 1 + IndexEither(s[1..], a, b)
  }

  lemma IndexEitherIs(s: string, a: char, b: char, n: nat)
    requires n <= |s| && (n < |s| ==> s[n] == a || s[n] == b)
    requires forall i :: 0 <= i < n ==> s[i] != a && s[i] != b
    ensures IndexEither(s, a, b) == n
  {
  }

  function ReplaceAll(s: string, from: string, to: string): string
    requires from != ""
    decreases |s|
  {
    if s == "" then ""
    else if HasPrefix(s, from) then to + ReplaceAll(s[|from|..], from, to)
    else [s[0]] + ReplaceAll(s[1..], from, to)
  }

  /** strings.Split on one character. */
  function Split(s: string, sep: char): (r: seq<string>)
    ensures r != []
  {
    if s == "" then [""]
    else if s[0] == sep then [""] + Split(s[1..], sep)
    else var r := Split(s[1..], sep); [[s[0]] + r[0]] + r[1..]
  }

  predicate HasSuffix(s: string, suffix: string) {
    |suffix| <= |s| && s[|s| - |suffix|..] == suffix
  }

  lemma SuffixIs(s: string, front: string, suffix: string)
    ensures s == front + suffix ==> HasSuffix(s, suffix)
    ensures HasSuffix(s, suffix) && front == s[..|s| - |suffix|] ==> s == front + suffix
  {
    if s == front + suffix { DropOfConcat(front, suffix); }
  }

  lemma PrefixIs(s: string, prefix: string)
    ensures HasPrefix(s, prefix) <==> prefix <= s
  {
  }

  function LowerChar(c: char): char {
    if 'A' <= c <= 'Z' then (c as int + 32) as char else c
  }

  /** strings.ToLower on ASCII text. */
  function Lower(s: string): (r: string)
    ensures |r| == |s| && forall i :: 0 <= i < |s| ==> r[i] == LowerChar(s[i])
  {
    seq(|s|, i requires 0 <= i < |s| => LowerChar(s[i]))
  }

  /** Two characters that are one letter of the alphabet in either case, or the same character. */
  predicate SameLetter(c: char, d: char) {
    || c == d
    || ('a' <= c <= 'z' && c as int == d as int + 32)
    || ('a' <= d <= 'z' && d as int == c as int + 32)
  }

  predicate EqualFold(a: string, b: string) {
    |a| == |b| && forall i :: 0 <= i < |a| ==> SameLetter(a[i], b[i])
  }

  /** Lower case is what decides equality without regard to case; it has no capital letter. */
  lemma LowerFolds(a: string, b: string)
    ensures Lower(a) == Lower(b) <==> EqualFold(a, b)
    ensures EqualFold(Lower(a), a) && forall i :: 0 <= i < |a| ==> !('A' <= Lower(a)[i] <= 'Z')
  {
    if EqualFold(a, b) { assert forall i :: 0 <= i < |a| ==> Lower(a)[i] == Lower(b)[i]; }
    if Lower(a) == Lower(b) { assert forall i :: 0 <= i < |a| ==> LowerChar(a[i]) == Lower(a)[i] == Lower(b)[i] == LowerChar(b[i]); }
  }

  /** unicode.IsSpace. */
  predicate IsSpace(c: char) {
    var n := c as int;
    9 <= n <= 13 || n == 0x20 || n == 0x85 || n == 0xa0 || n == 0x1680 || 0x2000 <= n <= 0x200a
    || n == 0x2028 || n == 0x2029 || n == 0x202f || n == 0x205f || n == 0x3000
  }

  /** The characters with the property White_Space, by code point. */
  const SPACES: seq<int> := [0x09, 0x0a, 0x0b, 0x0c, 0x0d, 0x20, 0x85, 0xa0, 0x1680, 0x2000, 0x2001, 0x2002, 0x2003, 0x2004, 0x2005,
                             0x2006, 0x2007, 0x2008, 0x2009, 0x200a, 0x2028, 0x2029, 0x202f, 0x205f, 0x3000]

  lemma SpacesAre(c: char)
    ensures IsSpace(c) <==> c as int in SPACES
  {
    var n := c as int;
    if IsSpace(c) {
      var i := if n <= 13 then n - 9 else if n == 0x20 then 5 else if n == 0x85 then 6 else if n == 0xa0 then 7 else if n == 0x1680 then 8
               else if n <= 0x200a then 9 + n - 0x2000 else if n == 0x2028 then 20 else if n == 0x2029 then 21
               else if n == 0x202f then 22 else if n == 0x205f then 23 else 24;
      assert SPACES[i] == n;
    }
  }

  function TrimLeftSpace(s: string): string {
    if s != "" && IsSpace(s[0]) then TrimLeftSpace(s[1..]) else s
  }

  function TrimRightSpace(s: string): string {
    if s != "" && IsSpace(s[|s| - 1]) then TrimRightSpace(s[..|s| - 1]) else s
  }

  /** strings.TrimSpace and bytes.TrimSpace. */
  function TrimSpace(s: string): string {
    TrimRightSpace(TrimLeftSpace(s))
  }
}
