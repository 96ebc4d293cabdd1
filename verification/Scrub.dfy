/** Scrubbing secrets from decoded data, before it is serialized (internal/cli/secret_headers.go). */
module Scrub {
  import opened Strings
  import opened Json
  import opened JsonText
  import opened Recording
  import Scanner

  // ----- redactData -----

  function BoolText(b: bool): string {
    if b then "true" else "false"
  }

  /** Strings and names are redacted; a number or boolean that shows a secret becomes the marker. */
  ghost function Scrubbed(redact: string -> string, j: Json): Json
    decreases j, 1
  {
    match j
    case Str(text) => Str(redact(text))
    case Num(token) => if redact(token) != token then Str(MARKER) else j
    case Bool(b) => if redact(BoolText(b)) != BoolText(b) then Str(MARKER) else j
    case Arr(items) => Arr(seq(|items|, i requires 0 <= i < |items| => Scrubbed(redact, items[i])))
    case Obj(fields) =>
      SortedKeysMembers(fields.Keys);
      Obj(ScrubbedFields(redact, j, SortedKeys(fields.Keys)))
    case Null => Null
  }

  /** The fields in order: of two names that redact alike, the later one stays. */
  ghost function ScrubbedFields(redact: string -> string, j: Json, keys: seq<string>): map<string, Json>
    requires j.Obj? && forall k :: k in keys ==> k in j.fields
    decreases j, 0, |keys|
  {
    if keys == [] then map[] else
      var key := keys[|keys| - 1];
      ScrubbedFields(redact, j, keys[..|keys| - 1])[redact(key) := Scrubbed(redact, j.fields[key])]
  }

  method RedactData(redact: string -> string, configured: bool, j: Json) returns (r: Json)
    ensures r == if configured then Scrubbed(redact, j) else j
    decreases j
  {
    if !configured {
      return j;
    }
    match j
    case Str(text) => return Str(redact(text));
    case Num(token) => return if redact(token) != token then Str(MARKER) else j;
    case Bool(b) => return if redact(BoolText(b)) != BoolText(b) then Str(MARKER) else j;
    case Arr(items) =>
      var output: seq<Json> := [];
      for i := 0 to |items|
        invariant |output| == i && forall k :: 0 <= k < i ==> output[k] == Scrubbed(redact, items[k])
      {
        var item := RedactData(redact, true, items[i]);
        output := output + [item];
      }
      return Arr(output);
    case Obj(fields) =>
      var keys := SortKeys(fields.Keys);
      var output: map<string, Json> := map[];
      for i := 0 to |keys|
        invariant output == ScrubbedFields(redact, j, keys[..i])
      {
        assert keys[i] in keys;
        var value := RedactData(redact, true, fields[keys[i]]);
        output := output[redact(keys[i]) := value];
        assert keys[..i + 1][..i] == keys[..i];
      }
      assert keys[..|keys|] == keys;
      return Obj(output);
    case Null => return Null;
  }

  // ----- Nothing secret is left -----

  /** Every string, name, number and boolean of the value satisfies `clean`. */
  ghost predicate AllClean(clean: string -> bool, j: Json) {
    match j
    case Str(text) => clean(text)
    case Num(token) => clean(token)
    case Bool(b) => clean(BoolText(b))
    case Arr(items) => forall i :: 0 <= i < |items| ==> AllClean(clean, items[i])
    case Obj(fields) => forall k :: k in fields.Keys ==> clean(k) && AllClean(clean, fields[k])
    case Null => true
  }

  /** If the redactor gives clean strings only, clean data is all that is left. */
  lemma {:induction false} ScrubbedIsClean(redact: string -> string, clean: string -> bool, j: Json)
    requires clean(MARKER) && forall s :: clean(redact(s))
    ensures AllClean(clean, Scrubbed(redact, j))
    decreases j, 1
  {
    match j
    case Num(token) => assert clean(redact(token));
    case Bool(b) => assert clean(redact(BoolText(b)));
    case Arr(items) =>
      forall i | 0 <= i < |items| ensures AllClean(clean, Scrubbed(redact, items[i])) { ScrubbedIsClean(redact, clean, items[i]); }
    case Obj(fields) =>
      SortedKeysMembers(fields.Keys);
      FieldsAreClean(redact, clean, j, SortedKeys(fields.Keys));
    case _ =>
  }

  lemma {:induction false} FieldsAreClean(redact: string -> string, clean: string -> bool, j: Json, keys: seq<string>)
    requires clean(MARKER) && forall s :: clean(redact(s))
    requires j.Obj? && forall k :: k in keys ==> k in j.fields
    ensures AllClean(clean, Obj(ScrubbedFields(redact, j, keys)))
    decreases j, 0, |keys|
  {
    if keys != [] {
      FieldsAreClean(redact, clean, j, keys[..|keys| - 1]);
      ScrubbedIsClean(redact, clean, j.fields[keys[|keys| - 1]]);
    }
  }

  function Settled(redact: string -> string): string -> bool {
    s => redact(s) == s
  }

  /** Data with nothing to redact is left alone, by this pass and by the pass over its serialized text. */
  lemma {:induction false} CleanDataStays(redact: string -> string, j: Json)
    requires AllClean(Settled(redact), j)
    ensures Scrubbed(redact, j) == j && Scanner.MapStrings(redact, j) == j
    decreases j, 1
  {
    match j
    case Arr(items) =>
      forall i | 0 <= i < |items| ensures Scrubbed(redact, items[i]) == items[i] && Scanner.MapStrings(redact, items[i]) == items[i] {
        CleanDataStays(redact, items[i]);
      }
    case Obj(fields) =>
      forall k | k in fields ensures Scanner.MapStrings(redact, fields[k]) == fields[k] { CleanDataStays(redact, fields[k]); }
      SortedKeysMembers(fields.Keys);
      CleanFieldsStay(redact, j, SortedKeys(fields.Keys));
      assert ScrubbedFields(redact, j, SortedKeys(fields.Keys)) == fields;
    case _ =>
  }

  lemma {:induction false} CleanFieldsStay(redact: string -> string, j: Json, keys: seq<string>)
    requires j.Obj? && AllClean(Settled(redact), j) && forall k :: k in keys ==> k in j.fields
    ensures ScrubbedFields(redact, j, keys) == map k | k in j.fields && k in keys :: j.fields[k]
    decreases j, 0, |keys|
  {
    if keys != [] {
      var key := keys[|keys| - 1];
      CleanFieldsStay(redact, j, keys[..|keys| - 1]);
      SnocMembers(keys);
      assert key in j.fields.Keys && Settled(redact)(key);
      CleanDataStays(redact, j.fields[key]);
    }
  }

  /** A redactor that settles in one step makes the whole pass settle in one step. */
  lemma ScrubbingTwiceIsOnce(redact: string -> string, j: Json)
    requires (forall s :: redact(redact(s)) == redact(s)) && redact(MARKER) == MARKER
    ensures Scrubbed(redact, Scrubbed(redact, j)) == Scrubbed(redact, j)
    ensures Scanner.MapStrings(redact, Scrubbed(redact, j)) == Scrubbed(redact, j)
  {
    ScrubbedIsClean(redact, Settled(redact), j);
    CleanDataStays(redact, Scrubbed(redact, j));
  }

  /** Where no number, boolean or name shows a secret, the pass redacts what the scan of the text would: the strings. */
  ghost predicate OnlyStringsShow(redact: string -> string, j: Json) {
    match j
    case Num(token) => redact(token) == token
    case Bool(b) => redact(BoolText(b)) == BoolText(b)
    case Arr(items) => forall i :: 0 <= i < |items| ==> OnlyStringsShow(redact, items[i])
    case Obj(fields) => forall k :: k in fields.Keys ==> redact(k) == k && OnlyStringsShow(redact, fields[k])
    case _ => true
  }

  lemma {:induction false} PassAgreesWithScan(redact: string -> string, j: Json)
    requires OnlyStringsShow(redact, j)
    ensures Scrubbed(redact, j) == Scanner.MapStrings(redact, j)
    decreases j, 1
  {
    match j
    case Arr(items) =>
      forall i | 0 <= i < |items| ensures Scrubbed(redact, items[i]) == Scanner.MapStrings(redact, items[i]) { PassAgreesWithScan(redact, items[i]); }
    case Obj(fields) =>
      SortedKeysMembers(fields.Keys);
      FieldsAgreeWithScan(redact, j, SortedKeys(fields.Keys));
      assert ScrubbedFields(redact, j, SortedKeys(fields.Keys)) == Scanner.MapStrings(redact, j).fields;
    case _ =>
  }

  lemma {:induction false} FieldsAgreeWithScan(redact: string -> string, j: Json, keys: seq<string>)
    requires j.Obj? && OnlyStringsShow(redact, j) && forall k :: k in keys ==> k in j.fields
    ensures ScrubbedFields(redact, j, keys) == map k | k in j.fields && k in keys :: Scanner.MapStrings(redact, j.fields[k])
    decreases j, 0, |keys|
  {
    if keys != [] {
      var key := keys[|keys| - 1];
      FieldsAgreeWithScan(redact, j, keys[..|keys| - 1]);
      SnocMembers(keys);
      assert key in j.fields.Keys;
      PassAgreesWithScan(redact, j.fields[key]);
    }
  }

  /** A number or boolean that shows a secret is not shown at all. */
  lemma ScalarsAreHidden(redact: string -> string, token: string, b: bool)
    ensures redact(token) != token ==> Scrubbed(redact, Num(token)) == Str("<REDACTED>")
    ensures redact(if b then "true" else "false") != (if b then "true" else "false") ==> Scrubbed(redact, Bool(b)) == Str("<REDACTED>")
  {
  }

  // ----- Names that redact alike -----

  /** Of the names that redact to one name, the greatest keeps its value, whatever order the map is visited in. */
  lemma GreatestNameWins(redact: string -> string, fields: map<string, Json>, key: string)
    requires key in fields
    requires forall other :: other in fields && redact(other) == redact(key) ==> other == key || Less(other, key)
    ensures var r := Scrubbed(redact, Obj(fields));
            r.Obj? && redact(key) in r.fields && r.fields[redact(key)] == Scrubbed(redact, fields[key])
  {
    var keys := SortedKeys(fields.Keys);
    SortedKeysMembers(fields.Keys);
    var i := PlaceOf(fields.Keys, key);
    forall j | i < j < |keys| ensures redact(keys[j]) != redact(key) {
      assert keys[j] in keys;
    }
    LastNameWins(redact, Obj(fields), keys, i);
  }

  lemma PlaceOf(names: set<string>, key: string) returns (i: nat)
    requires key in names
    ensures var keys := SortedKeys(names);
            i < |keys| && keys[i] == key && forall j :: i < j < |keys| ==> keys[j] != key && !Less(keys[j], key)
  {
    var keys := SortedKeys(names);
    SortedKeysAscend(names);
    SortedKeysMembers(names);
    assert key in keys;
    i :| 0 <= i < |keys| && keys[i] == key;
    forall j | i < j < |keys| ensures keys[j] != key && !Less(keys[j], key) { LessAsymmetric(key, keys[j]); }
  }

  lemma {:induction false} LessAsymmetric(a: string, b: string)
    requires Less(a, b)
    ensures !Less(b, a) && a != b
  {
    if a != "" && a[0] == b[0] { LessAsymmetric(a[1..], b[1..]); }
  }

  lemma {:induction false} LastNameWins(redact: string -> string, j: Json, keys: seq<string>, i: nat)
    requires j.Obj? && i < |keys| && forall k :: k in keys ==> k in j.fields
    requires forall n :: i < n < |keys| ==> redact(keys[n]) != redact(keys[i])
    ensures var r := ScrubbedFields(redact, j, keys);
            redact(keys[i]) in r && r[redact(keys[i])] == Scrubbed(redact, j.fields[keys[i]])
    decreases |keys|
  {
    if i < |keys| - 1 {
      LastNameWins(redact, j, keys[..|keys| - 1], i);
    }
  }

  // ----- lowerPercentEscapes -----

  function LowerHex(c: char): char {
    if 'A' <= c <= 'F' then (c as int + 32) as char else c
  }

  function Lowered(s: string): (r: string)
    ensures |r| == |s|
  {
    if |s| < 3 then s
    else if s[0] != '%' then [s[0]] + Lowered(s[1..])
    else ['%', LowerHex(s[1]), LowerHex(s[2])] + Lowered(s[3..])
  }

  method LowerPercentEscapes(value: string) returns (r: string)
    ensures r == Lowered(value)
  {
    var data := new char[|value|](i requires 0 <= i < |value| => value[i]);
    ghost var front, rest: string := "", value;
    var i := 0;
    while i + 2 < data.Length
      invariant |front| == i && fresh(data)
      invariant data[..] == front + rest
      invariant front + Lowered(rest) == Lowered(value)
    {
      assert data[i] == data[..][i] == rest[0];
      if data[i] != '%' {
        PastPlain(front, rest);
        front, rest := front + [rest[0]], rest[1..];
        i := i + 1;
        continue;
      }
      PastEscape(front, rest);
      LowerTwo(data, i);
      front, rest := front + LoweredEscape(rest), rest[3..];
      i := i + 3;
    }
    return data[..];
  }

  /** The inner loop: the two digits of an escape. */
  method LowerTwo(data: array<char>, i: nat)
    requires i + 2 < data.Length
    modifies data
    ensures data[..] == WithTwoLowered(old(data[..]), i)
  {
    for j := i + 1 to i + 3
      invariant forall k :: 0 <= k < data.Length ==> data[k] == if i < k < j then LowerHex(old(data[k])) else old(data[k])
    {
      if 'A' <= data[j] <= 'F' {
        data[j] := (data[j] as int + 32) as char;
      }
    }
  }

  function WithTwoLowered(s: string, i: nat): string
    requires i + 2 < |s|
  {
    s[..i + 1] + [LowerHex(s[i + 1]), LowerHex(s[i + 2])] + s[i + 3..]
  }

  function LoweredEscape(s: string): (r: string)
    requires |s| >= 3
    ensures |r| == 3
  {
    ['%', LowerHex(s[1]), LowerHex(s[2])]
  }

  lemma PastPlain(front: string, rest: string)
    requires |rest| >= 3 && rest[0] != '%'
    ensures front + rest == (front + [rest[0]]) + rest[1..]
    ensures front + Lowered(rest) == (front + [rest[0]]) + Lowered(rest[1..])
  {
    HeadAndTail(rest);
    Regroup(front, [rest[0]], rest[1..]);
    Regroup(front, [rest[0]], Lowered(rest[1..]));
  }

  lemma PastEscape(front: string, rest: string)
    requires |rest| >= 3 && rest[0] == '%'
    ensures WithTwoLowered(front + rest, |front|) == (front + LoweredEscape(rest)) + rest[3..]
    ensures front + Lowered(rest) == (front + LoweredEscape(rest)) + Lowered(rest[3..])
  {
    EscapeInPlace(front, rest);
    assert Lowered(rest) == LoweredEscape(rest) + Lowered(rest[3..]);
    Regroup(front, LoweredEscape(rest), Lowered(rest[3..]));
  }

  lemma EscapeInPlace(front: string, rest: string)
    requires |rest| >= 3 && rest[0] == '%'
    ensures WithTwoLowered(front + rest, |front|) == (front + LoweredEscape(rest)) + rest[3..]
  {
    var s := front + rest;
    var two := [LowerHex(rest[1]), LowerHex(rest[2])];
    assert s[..|front| + 1] == front + ['%'];
    assert s[|front| + 3..] == rest[3..];
    assert s[|front| + 1] == rest[1] && s[|front| + 2] == rest[2];
    Regroup(front, ['%'], two);
    assert ['%'] + two == LoweredEscape(rest);
  }

  /** What a percent-encoded text stands for; None when an escape is malformed. */
  function Unescape(s: string): Option<seq<int>> {
    if s == "" then Some([])
    else if s[0] != '%' then
      var r := Unescape(s[1..]);
      if r.Some? then Some([s[0] as int] + r.value) else None
    else if |s| < 3 || !IsHex(s[1]) || !IsHex(s[2]) then None
    else
      var r := Unescape(s[3..]);
      if r.Some? then Some([16 * HexOf(s[1]) + HexOf(s[2])] + r.value) else None
  }

  /** Only the spelling of escapes changes: the text stands for what it stood for. */
  lemma {:induction false} LoweredMeansTheSame(s: string)
    ensures Unescape(Lowered(s)) == Unescape(s)
  {
    if |s| >= 3 {
      if s[0] != '%' {
        LoweredMeansTheSame(s[1..]);
      } else {
        LoweredMeansTheSame(s[3..]);
        assert Lowered(s)[3..] == Lowered(s[3..]);
      }
    }
  }

  predicate UpperHexFree(s: string) {
    if |s| < 3 then true
    else if s[0] != '%' then UpperHexFree(s[1..])
    else !('A' <= s[1] <= 'F') && !('A' <= s[2] <= 'F') && UpperHexFree(s[3..])
  }

  /** No escape is left in upper case, and a text without one stays as it is. */
  lemma {:induction false} LoweredIsLower(s: string)
    ensures UpperHexFree(Lowered(s)) && (UpperHexFree(s) <==> Lowered(s) == s)
  {
    if |s| >= 3 {
      if s[0] != '%' {
        LoweredIsLower(s[1..]);
        assert Lowered(s)[1..] == Lowered(s[1..]);
        assert s == [s[0]] + s[1..];
      } else {
        LoweredIsLower(s[3..]);
        assert Lowered(s)[3..] == Lowered(s[3..]);
        assert s == [s[0], s[1], s[2]] + s[3..];
      }
    }
  }
}
