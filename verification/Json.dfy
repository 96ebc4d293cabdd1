/** Decoded JSON values, and evaluation of reference tokens in them. */
module Json {
  import opened Strings
  import opened Decimal

  /** What encoding/json with UseNumber decodes: a number keeps its token. */
  datatype Json =
    | Null
    | Bool(flag: bool)
    | Num(token: string)
    | Str(text: string)
    | Arr(items: seq<Json>)
    | Obj(fields: map<string, Json>)

  type Tokens = seq<string>

  /** The array position a reference token names: canonical decimal text, within range. */
  function ArrayIndex(token: string, length: nat): (r: Option<nat>)
    ensures r.Some? ==> r.value < length && token == Itoa(r.value)
    ensures r.None? ==> forall n: nat :: n < length ==> Itoa(n) != token
  {
    assert forall n: nat :: Itoa(n) == token ==> ParseInt(token) == Some(n) by {
      forall n: nat | Itoa(n) == token ensures ParseInt(token) == Some(n) { ParseIntText(n); assert IntText(n) == Itoa(n); }
    }
    match ParseInt(token)
    case Some(n) => if 0 <= n < length && IntText(n) == token then Some(n) else None
    case None => None
  }

  lemma ArrayIndexOfItoa(n: nat, length: nat)
    ensures ArrayIndex(Itoa(n), length) == if n < length then Some(n) else None
  {
    var r := ArrayIndex(Itoa(n), length);
    if r.Some? { ItoaInjective(r.value, n); }
  }

  /** One step of RFC 6901 section 4. */
  function Child(j: Json, token: string): (r: Option<Json>)
    ensures r.Some? ==> r.value < j
  {
    match j
    case Obj(fields) => if token in fields then Some(fields[token]) else None
    case Arr(items) =>
      (match ArrayIndex(token, |items|)
       case Some(n) => Some(items[n])
       case None => None)
    case _ => None
  }

  /** RFC 6901 evaluation of a list of reference tokens. */
  function Get(j: Json, path: Tokens): Option<Json>
    decreases path
  {
    if path == [] then Some(j)
    else match Child(j, path[0])
         case Some(c) => Get(c, path[1..])
         case None => None
  }

  lemma {:induction false} GetSplit(j: Json, a: Tokens, b: Tokens)
    ensures Get(j, a + b) == if Get(j, a).Some? then Get(Get(j, a).value, b) else None
    decreases a
  {
    if a == [] {
      assert a + b == b;
    } else {
      assert (a + b)[1..] == a[1..] + b;
      if Child(j, a[0]).Some? { GetSplit(Child(j, a[0]).value, a[1..], b); }
    }
  }
}
