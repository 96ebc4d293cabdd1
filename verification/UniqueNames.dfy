/** The check that no object of a body repeats a name (internal/sanitize/fields.go). */
module UniqueNames {
  import opened Strings
  import opened Decimal
  import opened Json
  import opened JsonText

  /** What json.Decoder.Token gives; names come as strings too. */
  datatype Token = OpenObject | CloseObject | OpenArray | CloseArray | Scalar(value: Json)

  function NodeTokens(n: Node): seq<Token>
    requires WellFormedNode(n)
  {
    match n
    case Array(elements) => [OpenArray] + ItemsTokens(elements) + [CloseArray]
    case Object(members) => [OpenObject] + MembersTokens(members) + [CloseObject]
    case EmptyArray(_) => [OpenArray, CloseArray]
    case EmptyObject(_) => [OpenObject, CloseObject]
    case _ => [Scalar(DenoteNode(n))]
  }

  function DocTokens(d: Doc): seq<Token>
    requires WellFormedDoc(d)
  {
    NodeTokens(d.node)
  }

  function ItemsTokens(items: Items): seq<Token>
    requires WellFormedItems(items)
  {
    DocTokens(items.doc) + if items.Item? then ItemsTokens(items.others) else []
  }

  function MembersTokens(members: Members): seq<Token>
    requires WellFormedMembers(members)
  {
    [Scalar(Str(Decode(members.name.body)))] + DocTokens(members.doc) + if members.Member? then MembersTokens(members.others) else []
  }

  predicate IsClose(t: Token) {
    t == CloseObject || t == CloseArray
  }

  lemma TokensStart(d: Doc)
    requires WellFormedDoc(d)
    ensures DocTokens(d) != [] && !IsClose(DocTokens(d)[0])
  {
  }

  // ----- What is checked -----

  function Names(members: Members): seq<string>
    requires WellFormedMembers(members)
  {
    [Decode(members.name.body)] + if members.Member? then Names(members.others) else []
  }

  /** No object in the value has two members with one name. */
  ghost predicate Unique(n: Node)
    requires WellFormedNode(n)
  {
    match n
    case Array(elements) => UniqueItems(elements)
    case Object(members) => Distinct(Names(members)) && UniqueMembers(members)
    case _ => true
  }

  ghost predicate UniqueDoc(d: Doc)
    requires WellFormedDoc(d)
  {
    Unique(d.node)
  }

  ghost predicate UniqueItems(items: Items)
    requires WellFormedItems(items)
  {
    UniqueDoc(items.doc) && (items.Item? ==> UniqueItems(items.others))
  }

  ghost predicate UniqueMembers(members: Members)
    requires WellFormedMembers(members)
  {
    UniqueDoc(members.doc) && (members.Member? ==> UniqueMembers(members.others))
  }

  // ----- The decoder and the check -----

  /** json.Decoder over text that is known to be valid. */
  class Decoder {
    var rest: seq<Token>

    constructor (tokens: seq<Token>)
      ensures rest == tokens
    {
      rest := tokens;
    }

    method Next() returns (token: Option<Token>)
      modifies this
      ensures old(rest) == [] ==> token == None && rest == []
      ensures old(rest) != [] ==> token == Some(old(rest)[0]) && rest == old(rest)[1..]
    {
      if rest == [] {
        return None;
      }
      token := Some(rest[0]);
      rest := rest[1..];
    }

    predicate More()
      reads this
    {
      rest != [] && !IsClose(rest[0])
    }
  }

  /** uniqueJSONValue: reads one value, and says whether all its objects have different names. */
  method UniqueJsonValue(decoder: Decoder, ghost d: Doc, ghost after: seq<Token>) returns (unique: bool)
    requires WellFormedDoc(d) && decoder.rest == DocTokens(d) + after
    modifies decoder
    ensures unique <==> UniqueDoc(d)
    ensures unique ==> decoder.rest == after
    decreases |decoder.rest|, 0
  {
    TokensAhead(d.node, after);
    var token := decoder.Next();
    if token == None {
      return false;
    }
    if token.value == OpenObject {
      unique := UniqueObject(decoder, MembersOf(d.node), after);
      if d.node.Object? { NewNamesAreDistinct(d.node.members, {}); }
    } else if token.value == OpenArray {
      unique := UniqueArray(decoder, ItemsOf(d.node), after);
    } else {
      unique := true;
    }
  }

  function MembersOf(n: Node): Option<Members> {
    if n.Object? then Some(n.members) else None
  }

  function ItemsOf(n: Node): Option<Items> {
    if n.Array? then Some(n.elements) else None
  }

  /** The first token tells what kind of value comes, and what is behind it. */
  lemma TokensAhead(n: Node, after: seq<Token>)
    requires WellFormedNode(n)
    ensures var tokens := NodeTokens(n) + after;
            && tokens != []
            && (tokens[0] == OpenObject <==> n.Object? || n.EmptyObject?)
            && (tokens[0] == OpenArray <==> n.Array? || n.EmptyArray?)
            && tokens[1..] == if n.Object? || n.EmptyObject? then AheadInObject(MembersOf(n), after)
                              else if n.Array? || n.EmptyArray? then AheadInArray(ItemsOf(n), after)
                              else after
  {
    match n
    case Object(members) =>
      MembersAheadIs(members, after);
      Enclosed(OpenObject, MembersTokens(members), CloseObject, after);
    case Array(elements) =>
      ItemsAheadIs(elements, after);
      Enclosed(OpenArray, ItemsTokens(elements), CloseArray, after);
    case _ =>
  }

  lemma Enclosed(open: Token, inside: seq<Token>, close: Token, after: seq<Token>)
    ensures var tokens := [open] + inside + [close] + after;
            tokens[0] == open && tokens[1..] == inside + ([close] + after)
  {
  }

  /** The tokens that are still to come in an object, and behind it. */
  ghost function AheadInObject(left: Option<Members>, after: seq<Token>): seq<Token>
    requires left.Some? ==> WellFormedMembers(left.value)
  {
    if left.Some? then MembersAhead(left.value, after) else [CloseObject] + after
  }

  ghost function MembersAhead(members: Members, after: seq<Token>): seq<Token>
    requires WellFormedMembers(members)
  {
    [Scalar(Str(Decode(members.name.body)))] + DocTokens(members.doc)
    + if members.Member? then MembersAhead(members.others, after) else [CloseObject] + after
  }

  lemma {:induction false} MembersAheadIs(members: Members, after: seq<Token>)
    requires WellFormedMembers(members)
    ensures MembersAhead(members, after) == MembersTokens(members) + ([CloseObject] + after)
  {
    var first := [Scalar(Str(Decode(members.name.body)))] + DocTokens(members.doc);
    if members.Member? {
      MembersAheadIs(members.others, after);
      Regroup(first, MembersTokens(members.others), [CloseObject] + after);
    } else {
      assert first + [] == first;
    }
  }

  ghost function AheadInArray(left: Option<Items>, after: seq<Token>): seq<Token>
    requires left.Some? ==> WellFormedItems(left.value)
  {
    if left.Some? then ItemsAhead(left.value, after) else [CloseArray] + after
  }

  ghost function ItemsAhead(items: Items, after: seq<Token>): seq<Token>
    requires WellFormedItems(items)
  {
    DocTokens(items.doc) + if items.Item? then ItemsAhead(items.others, after) else [CloseArray] + after
  }

  lemma {:induction false} ItemsAheadIs(items: Items, after: seq<Token>)
    requires WellFormedItems(items)
    ensures ItemsAhead(items, after) == ItemsTokens(items) + ([CloseArray] + after)
  {
    if items.Item? {
      ItemsAheadIs(items.others, after);
      Regroup(DocTokens(items.doc), ItemsTokens(items.others), [CloseArray] + after);
    } else {
      assert DocTokens(items.doc) + [] == DocTokens(items.doc);
    }
  }

  function OtherMembers(members: Members): Option<Members> {
    if members.Member? then Some(members.others) else None
  }

  function OtherItems(items: Items): Option<Items> {
    if items.Item? then Some(items.others) else None
  }

  /** The members in turn: each name is new, and each value unique. */
  ghost predicate NewNames(members: Members, seen: set<string>)
    requires WellFormedMembers(members)
  {
    var name := Decode(members.name.body);
    name !in seen && UniqueDoc(members.doc) && (members.Member? ==> NewNames(members.others, seen + {name}))
  }

  lemma {:induction false} NewNamesAreDistinct(members: Members, seen: set<string>)
    requires WellFormedMembers(members)
    ensures NewNames(members, seen) <==> Distinct(Names(members)) && UniqueMembers(members) && forall x :: x in Names(members) ==> x !in seen
  {
    var name := Decode(members.name.body);
    if members.Member? {
      NewNamesAreDistinct(members.others, seen + {name});
      DistinctCons(name, Names(members.others));
    }
  }

  lemma DistinctCons(name: string, others: seq<string>)
    ensures Distinct([name] + others) <==> name !in others && Distinct(others)
    ensures forall x :: x in [name] + others <==> x == name || x in others
  {
    var all := [name] + others;
    assert forall i :: 0 <= i < |others| ==> all[i + 1] == others[i];
    if Distinct(all) {
      forall i | 0 <= i < |others| ensures others[i] != name { assert all[0] != all[i + 1]; }
      forall i, j | 0 <= i < j < |others| ensures others[i] != others[j] { assert all[i + 1] != all[j + 1]; }
    }
  }

  /** One member: its name, unless that has been seen or the value is not unique. */
  method UniqueMember(decoder: Decoder, seen: set<string>, ghost members: Members, ghost after: seq<Token>) returns (r: Option<string>)
    requires WellFormedMembers(members)
    requires decoder.rest == [Scalar(Str(Decode(members.name.body)))] + DocTokens(members.doc) + after
    modifies decoder
    ensures r.Some? <==> Decode(members.name.body) !in seen && UniqueDoc(members.doc)
    ensures r.Some? ==> r.value == Decode(members.name.body) && decoder.rest == after
    decreases |decoder.rest|, 0
  {
    var key := decoder.Next();
    assert decoder.rest == DocTokens(members.doc) + after;
    if key == None || !key.value.Scalar? || !key.value.value.Str? || key.value.value.text in seen {
      return None;
    }
    var value := UniqueJsonValue(decoder, members.doc, after);
    return if value then Some(key.value.value.text) else None;
  }

  method UniqueObject(decoder: Decoder, ghost all: Option<Members>, ghost after: seq<Token>) returns (unique: bool)
    requires all.Some? ==> WellFormedMembers(all.value)
    requires decoder.rest == AheadInObject(all, after)
    modifies decoder
    ensures unique <==> (all.Some? ==> NewNames(all.value, {}))
    ensures unique ==> decoder.rest == after
    decreases |decoder.rest|, 1
  {
    var seen: set<string> := {};
    ghost var left := all;
    ghost var most := |decoder.rest|;
    while decoder.More()
      invariant left.Some? ==> WellFormedMembers(left.value)
      invariant decoder.rest == AheadInObject(left, after) && (decoder.More() <==> left.Some?)
      invariant |decoder.rest| <= most
      invariant (all.Some? ==> NewNames(all.value, {})) <==> (left.Some? ==> NewNames(left.value, seen))
      decreases |decoder.rest|
    {
      ghost var members := left.value;
      var name := UniqueMember(decoder, seen, members, AheadInObject(OtherMembers(members), after));
      if name == None {
        return false;
      }
      seen := seen + {name.value};
      left := OtherMembers(members);
    }
    var close := decoder.Next();
    return close != None;
  }

  method UniqueArray(decoder: Decoder, ghost all: Option<Items>, ghost after: seq<Token>) returns (unique: bool)
    requires all.Some? ==> WellFormedItems(all.value)
    requires decoder.rest == AheadInArray(all, after)
    modifies decoder
    ensures unique <==> (all.Some? ==> UniqueItems(all.value))
    ensures unique ==> decoder.rest == after
    decreases |decoder.rest|, 1
  {
    ghost var left := all;
    ghost var most := |decoder.rest|;
    if left.Some? { TokensStart(left.value.doc); }
    while decoder.More()
      invariant left.Some? ==> WellFormedItems(left.value)
      invariant decoder.rest == AheadInArray(left, after) && (decoder.More() <==> left.Some?)
      invariant |decoder.rest| <= most
      invariant (all.Some? ==> UniqueItems(all.value)) <==> (left.Some? ==> UniqueItems(left.value))
      decreases |decoder.rest|
    {
      ghost var items := left.value;
      var value := UniqueJsonValue(decoder, items.doc, AheadInArray(OtherItems(items), after));
      if !value {
        return false;
      }
      left := OtherItems(items);
      if left.Some? { TokensStart(left.value.doc); }
    }
    var close := decoder.Next();
    return close != None;
  }

  // ----- One text, one answer -----

  /** The tokens decide the outcome: two documents with the same tokens are both unique, or neither is. */
  lemma {:induction false} SameTokens(d: Doc, e: Doc, dAfter: seq<Token>, eAfter: seq<Token>)
    requires WellFormedDoc(d) && WellFormedDoc(e) && DocTokens(d) + dAfter == DocTokens(e) + eAfter
    ensures (UniqueDoc(d) <==> UniqueDoc(e)) && dAfter == eAfter
    decreases d
  {
    TokensAhead(d.node, dAfter);
    TokensAhead(e.node, eAfter);
    HeadOfAhead(MembersOf(d.node), ItemsOf(d.node), dAfter);
    HeadOfAhead(MembersOf(e.node), ItemsOf(e.node), eAfter);
    if d.node.Object? {
      SameMembers(d.node.members, e.node.members, dAfter, eAfter);
    } else if d.node.Array? {
      SameItems(d.node.elements, e.node.elements, dAfter, eAfter);
    } else if d.node.EmptyObject? || d.node.EmptyArray? {
      assert ([CloseObject] + dAfter)[1..] == dAfter && ([CloseObject] + eAfter)[1..] == eAfter;
      assert ([CloseArray] + dAfter)[1..] == dAfter && ([CloseArray] + eAfter)[1..] == eAfter;
    }
  }

  /** A closing token comes exactly when nothing is left. */
  lemma HeadOfAhead(members: Option<Members>, items: Option<Items>, after: seq<Token>)
    requires (members.Some? ==> WellFormedMembers(members.value)) && (items.Some? ==> WellFormedItems(items.value))
    ensures AheadInObject(members, after) != [] && (IsClose(AheadInObject(members, after)[0]) <==> members.None?)
    ensures AheadInArray(items, after) != [] && (IsClose(AheadInArray(items, after)[0]) <==> items.None?)
  {
    if items.Some? { TokensStart(items.value.doc); }
  }

  lemma {:induction false} SameItems(a: Items, b: Items, aAfter: seq<Token>, bAfter: seq<Token>)
    requires WellFormedItems(a) && WellFormedItems(b) && ItemsAhead(a, aAfter) == ItemsAhead(b, bAfter)
    ensures (UniqueItems(a) <==> UniqueItems(b)) && aAfter == bAfter
    decreases a
  {
    var x, y := AheadInArray(OtherItems(a), aAfter), AheadInArray(OtherItems(b), bAfter);
    SameTokens(a.doc, b.doc, x, y);
    HeadOfAhead(None, OtherItems(a), aAfter);
    HeadOfAhead(None, OtherItems(b), bAfter);
    if a.Item? {
      SameItems(a.others, b.others, aAfter, bAfter);
    } else {
      ConsIsOne(CloseArray, aAfter, bAfter);
    }
  }

  lemma {:induction false} SameMembers(a: Members, b: Members, aAfter: seq<Token>, bAfter: seq<Token>)
    requires WellFormedMembers(a) && WellFormedMembers(b) && MembersAhead(a, aAfter) == MembersAhead(b, bAfter)
    ensures Names(a) == Names(b) && (UniqueMembers(a) <==> UniqueMembers(b)) && aAfter == bAfter
    decreases a
  {
    var x, y := AheadInObject(OtherMembers(a), aAfter), AheadInObject(OtherMembers(b), bAfter);
    NameThenValue(a, aAfter);
    NameThenValue(b, bAfter);
    SameTokens(a.doc, b.doc, x, y);
    HeadOfAhead(OtherMembers(a), None, aAfter);
    HeadOfAhead(OtherMembers(b), None, bAfter);
    if a.Member? {
      SameMembers(a.others, b.others, aAfter, bAfter);
    } else {
      ConsIsOne(CloseObject, aAfter, bAfter);
    }
  }

  lemma NameThenValue(members: Members, after: seq<Token>)
    requires WellFormedMembers(members)
    ensures var tokens := MembersAhead(members, after);
            && tokens != [] && tokens[0] == Scalar(Str(Decode(members.name.body)))
            && tokens[1..] == DocTokens(members.doc) + AheadInObject(OtherMembers(members), after)
  {
    var name := Scalar(Str(Decode(members.name.body)));
    var behind := AheadInObject(OtherMembers(members), after);
    Regroup([name], DocTokens(members.doc), behind);
    ConsIsOne(name, DocTokens(members.doc) + behind, []);
  }

  // ----- What a repeated name loses -----

  /** The members of an object as the text lists them. */
  function MemberList(members: Members): (r: seq<(string, Node)>)
    requires WellFormedMembers(members)
    ensures r != [] && forall i :: 0 <= i < |r| ==> WellFormedNode(r[i].1)
  {
    assert WellFormedDoc(members.doc) && WellFormedNode(members.doc.node);
    [(Decode(members.name.body), members.doc.node)] + if members.Member? then MemberList(members.others) else []
  }

  function ElementList(items: Items): (r: seq<Node>)
    requires WellFormedItems(items)
    ensures r != [] && forall i :: 0 <= i < |r| ==> WellFormedNode(r[i])
  {
    assert WellFormedDoc(items.doc) && WellFormedNode(items.doc.node);
    [items.doc.node] + if items.Item? then ElementList(items.others) else []
  }

  /** Members of one name have one value. */
  ghost predicate OneValuePerName(members: Members)
    requires WellFormedMembers(members)
  {
    var list := MemberList(members);
    forall i, j :: 0 <= i < |list| && 0 <= j < |list| && list[i].0 == list[j].0 ==> DenoteNode(list[i].1) == DenoteNode(list[j].1)
  }

  /** Decoding holds this member. */
  ghost predicate Held(members: Members, name: string, node: Node)
    requires WellFormedMembers(members) && WellFormedNode(node)
  {
    name in DenoteMembers(members) && DenoteMembers(members)[name] == DenoteNode(node)
  }

  /** Exactly then no member of the object is lost: when any two of one name have one value. */
  lemma NoMemberIsLost(members: Members)
    requires WellFormedMembers(members)
    ensures OneValuePerName(members) <==>
            forall i :: 0 <= i < |MemberList(members)| ==> Held(members, MemberList(members)[i].0, MemberList(members)[i].1)
  {
    var list := MemberList(members);
    forall i | 0 <= i < |list| && OneValuePerName(members) ensures Held(members, list[i].0, list[i].1) {
      var j := LastWins(members, i);
    }
  }

  /** The value held under a name is that of the last member with the name. */
  lemma {:induction false} LastWins(members: Members, i: nat) returns (j: nat)
    requires WellFormedMembers(members) && i < |MemberList(members)|
    ensures var list := MemberList(members);
            i <= j < |list| && list[j].0 == list[i].0 && Held(members, list[i].0, list[j].1)
  {
    var list := MemberList(members);
    if !members.Member? {
      return 0;
    }
    var rest := MemberList(members.others);
    if i > 0 {
      j := LastWins(members.others, i - 1);
      j := j + 1;
    } else if k :| 0 <= k < |rest| && rest[k].0 == list[0].0 {
      j := LastWins(members.others, k);
      j := j + 1;
    } else {
      j := 0;
      DenotedNames(members.others);
      NamesOfList(members.others);
    }
  }

  lemma {:induction false} DenotedNames(members: Members)
    requires WellFormedMembers(members)
    ensures forall name :: name in DenoteMembers(members) <==> name in Names(members)
  {
    if members.Member? { DenotedNames(members.others); }
  }

  lemma {:induction false} NamesOfList(members: Members)
    requires WellFormedMembers(members)
    ensures |Names(members)| == |MemberList(members)| && forall i :: 0 <= i < |Names(members)| ==> Names(members)[i] == MemberList(members)[i].0
  {
    if members.Member? { NamesOfList(members.others); }
  }

  /** Members of one name have one value, in every object of the text. */
  ghost predicate OneValue(n: Node)
    requires WellFormedNode(n)
  {
    match n
    case Array(elements) => OneValueInItems(elements)
    case Object(members) => OneValuePerName(members) && OneValueInMembers(members)
    case _ => true
  }

  ghost predicate OneValueInItems(items: Items)
    requires WellFormedItems(items)
  {
    OneValueInDoc(items.doc) && (items.Item? ==> OneValueInItems(items.others))
  }

  ghost predicate OneValueInMembers(members: Members)
    requires WellFormedMembers(members)
  {
    OneValueInDoc(members.doc) && (members.Member? ==> OneValueInMembers(members.others))
  }

  ghost predicate OneValueInDoc(d: Doc)
    requires WellFormedDoc(d)
  {
    OneValue(d.node)
  }

  /** Along the path the text says this value; where a name is repeated it may say several. */
  ghost predicate Says(n: Node, path: Tokens, value: Json)
    requires WellFormedNode(n)
    decreases path
  {
    if path == [] then DenoteNode(n) == value
    else exists child :: IsChild(n, path[0], child) && Says(child, path[1..], value)
  }

  ghost predicate IsChild(n: Node, token: string, child: Node)
    requires WellFormedNode(n)
    ensures IsChild(n, token, child) ==> WellFormedNode(child)
  {
    match n
    case Array(elements) => exists i :: 0 <= i < |ElementList(elements)| && Itoa(i) == token && ElementList(elements)[i] == child
    case Object(members) => exists i :: 0 <= i < |MemberList(members)| && MemberList(members)[i] == (token, child)
    case _ => false
  }

  /** Decoding holds everything the text says. */
  ghost predicate HoldsAll(n: Node)
    requires WellFormedNode(n)
  {
    forall path, value :: Says(n, path, value) ==> Get(DenoteNode(n), path) == Some(value)
  }

  lemma {:induction false} ElementsDenote(items: Items)
    requires WellFormedItems(items)
    ensures |DenoteItems(items)| == |ElementList(items)|
    ensures forall i :: 0 <= i < |ElementList(items)| ==> DenoteItems(items)[i] == DenoteNode(ElementList(items)[i])
  {
    if items.Item? { ElementsDenote(items.others); }
  }

  /** With one value per name, a child of the text is what the decoded value has there. */
  lemma ChildIsHeld(n: Node, token: string, child: Node)
    requires WellFormedNode(n) && IsChild(n, token, child) && (n.Object? ==> OneValuePerName(n.members))
    ensures Child(DenoteNode(n), token) == Some(DenoteNode(child))
  {
    if n.Array? {
      ElementsDenote(n.elements);
      var i :| 0 <= i < |ElementList(n.elements)| && Itoa(i) == token && ElementList(n.elements)[i] == child;
      ArrayIndexOfItoa(i, |ElementList(n.elements)|);
    } else {
      NoMemberIsLost(n.members);
      var i :| 0 <= i < |MemberList(n.members)| && MemberList(n.members)[i] == (token, child);
      assert Held(n.members, MemberList(n.members)[i].0, MemberList(n.members)[i].1);
    }
  }

  lemma {:induction false} ChildrenHaveOneValue(n: Node, token: string, child: Node)
    requires WellFormedNode(n) && OneValue(n) && IsChild(n, token, child)
    ensures OneValue(child)
  {
    if n.Array? {
      var i :| 0 <= i < |ElementList(n.elements)| && Itoa(i) == token && ElementList(n.elements)[i] == child;
      ElementHasOneValue(n.elements, i);
    } else {
      var i :| 0 <= i < |MemberList(n.members)| && MemberList(n.members)[i] == (token, child);
      MemberHasOneValue(n.members, i);
    }
  }

  lemma {:induction false} ElementHasOneValue(items: Items, i: nat)
    requires WellFormedItems(items) && OneValueInItems(items) && i < |ElementList(items)|
    ensures OneValue(ElementList(items)[i])
  {
    if i > 0 { ElementHasOneValue(items.others, i - 1); } else { assert OneValueInDoc(items.doc); }
  }

  lemma {:induction false} MemberHasOneValue(members: Members, i: nat)
    requires WellFormedMembers(members) && OneValueInMembers(members) && i < |MemberList(members)|
    ensures OneValue(MemberList(members)[i].1)
  {
    if i > 0 { MemberHasOneValue(members.others, i - 1); } else { assert OneValueInDoc(members.doc); }
  }

  /**
    Decoding holds everything a text says exactly when in every object members of one name have one value.
    A text with a conflict is read as if only the last of its members were there.
   */
  lemma {:induction false} NothingIsLost(n: Node)
    requires WellFormedNode(n)
    ensures HoldsAll(n) <==> OneValue(n)
  {
    if OneValue(n) {
      forall path, value | Says(n, path, value) ensures Get(DenoteNode(n), path) == Some(value) { SaidIsHeld(n, path, value); }
    }
    if HoldsAll(n) { HeldIsOneValue(n); }
  }

  lemma {:induction false} SaidIsHeld(n: Node, path: Tokens, value: Json)
    requires WellFormedNode(n) && OneValue(n) && Says(n, path, value)
    ensures Get(DenoteNode(n), path) == Some(value)
    decreases path
  {
    if path != [] {
      var child :| IsChild(n, path[0], child) && Says(child, path[1..], value);
      ChildIsHeld(n, path[0], child);
      ChildrenHaveOneValue(n, path[0], child);
      SaidIsHeld(child, path[1..], value);
    }
  }

  lemma {:induction false} HeldIsOneValue(n: Node)
    requires WellFormedNode(n) && HoldsAll(n)
    ensures OneValue(n)
    decreases n
  {
    match n
    case Array(elements) =>
      var list := ElementList(elements);
      forall i | 0 <= i < |list| ensures HoldsAll(list[i]) {
        assert IsChild(n, Itoa(i), list[i]);
        ChildHoldsAll(n, Itoa(i), list[i]);
      }
      HeldItems(elements);
    case Object(members) =>
      var list := MemberList(members);
      forall i | 0 <= i < |list| ensures Held(members, list[i].0, list[i].1) && HoldsAll(list[i].1) {
        assert IsChild(n, list[i].0, list[i].1);
        ChildHoldsAll(n, list[i].0, list[i].1);
      }
      NoMemberIsLost(members);
      HeldMembers(members);
    case _ =>
  }

  lemma ChildHoldsAll(n: Node, token: string, child: Node)
    requires WellFormedNode(n) && HoldsAll(n) && IsChild(n, token, child)
    ensures Child(DenoteNode(n), token) == Some(DenoteNode(child)) && HoldsAll(child)
  {
    SaysThrough(n, token, child, [], DenoteNode(child));
    GetOne(DenoteNode(n), token);
    forall path, value | Says(child, path, value) ensures Get(DenoteNode(child), path) == Some(value) {
      SaysThrough(n, token, child, path, value);
      GetSplit(DenoteNode(n), [token], path);
    }
  }

  lemma SaysThrough(n: Node, token: string, child: Node, path: Tokens, value: Json)
    requires WellFormedNode(n) && IsChild(n, token, child) && Says(child, path, value)
    ensures Says(n, [token] + path, value)
  {
    ConsIsOne(token, path, path);
  }

  lemma GetOne(j: Json, token: string)
    ensures Get(j, [token]) == Child(j, token)
    ensures [token] + [] == [token]
  {
    assert [token][1..] == [];
  }

  lemma {:induction false} HeldItems(items: Items)
    requires WellFormedItems(items) && forall i :: 0 <= i < |ElementList(items)| ==> HoldsAll(ElementList(items)[i])
    ensures OneValueInItems(items)
    decreases items
  {
    assert HoldsAll(ElementList(items)[0]);
    HeldIsOneValue(items.doc.node);
    if items.Item? {
      assert forall i :: 0 <= i < |ElementList(items.others)| ==> ElementList(items)[i + 1] == ElementList(items.others)[i];
      HeldItems(items.others);
    }
  }

  lemma {:induction false} HeldMembers(members: Members)
    requires WellFormedMembers(members) && forall i :: 0 <= i < |MemberList(members)| ==> HoldsAll(MemberList(members)[i].1)
    ensures OneValueInMembers(members)
    decreases members
  {
    assert HoldsAll(MemberList(members)[0].1);
    HeldIsOneValue(members.doc.node);
    if members.Member? {
      assert forall i :: 0 <= i < |MemberList(members.others)| ==> MemberList(members)[i + 1] == MemberList(members.others)[i];
      HeldMembers(members.others);
    }
  }

  /** And nothing is made up: what decoding holds, the text says. */
  lemma {:induction false} HeldIsSaid(n: Node, path: Tokens, value: Json)
    requires WellFormedNode(n) && Get(DenoteNode(n), path) == Some(value)
    ensures Says(n, path, value)
    decreases path
  {
    if path != [] {
      var child := ChildOfText(n, path[0]);
      HeldIsSaid(child, path[1..], value);
    }
  }

  lemma ChildOfText(n: Node, token: string) returns (child: Node)
    requires WellFormedNode(n) && Child(DenoteNode(n), token).Some?
    ensures IsChild(n, token, child) && Child(DenoteNode(n), token) == Some(DenoteNode(child))
  {
    if n.Array? {
      ElementsDenote(n.elements);
      var i := ArrayIndex(token, |ElementList(n.elements)|).value;
      child := ElementList(n.elements)[i];
    } else {
      DenotedNames(n.members);
      NamesOfList(n.members);
      var i :| 0 <= i < |Names(n.members)| && Names(n.members)[i] == token;
      var j := LastWins(n.members, i);
      child := MemberList(n.members)[j].1;
    }
  }

  /** The check is sufficient: where no name is repeated, nothing is lost. */
  lemma {:induction false} UniqueHasOneValue(n: Node)
    requires WellFormedNode(n) && Unique(n)
    ensures OneValue(n)
    decreases n
  {
    match n
    case Array(elements) => UniqueItemsHaveOneValue(elements);
    case Object(members) =>
      NamesOfList(members);
      UniqueMembersHaveOneValue(members);
    case _ =>
  }

  lemma {:induction false} UniqueItemsHaveOneValue(items: Items)
    requires WellFormedItems(items) && UniqueItems(items)
    ensures OneValueInItems(items)
    decreases items
  {
    assert UniqueDoc(items.doc);
    UniqueHasOneValue(items.doc.node);
    if items.Item? { UniqueItemsHaveOneValue(items.others); }
  }

  lemma {:induction false} UniqueMembersHaveOneValue(members: Members)
    requires WellFormedMembers(members) && UniqueMembers(members)
    ensures OneValueInMembers(members)
    decreases members
  {
    assert UniqueDoc(members.doc);
    UniqueHasOneValue(members.doc.node);
    if members.Member? { UniqueMembersHaveOneValue(members.others); }
  }

  // ----- Examples -----

  const A := Name("", "a", "")

  function OneA(x: Node): Members {
    LastMember(A, Doc("", x, ""))
  }

  function TwoA(x: Node, y: Node): Members {
    Member(A, Doc("", x, ""), OneA(y))
  }

  /** The documents of `{"a":x}` and `{"a":x,"a":y}`. */
  function OnceA(x: Node): Doc {
    Doc("", Object(OneA(x)), "")
  }

  function TwiceA(x: Node, y: Node): Doc {
    Doc("", Object(TwoA(x, y)), "")
  }

  predicate IsWord(n: Node) {
    n == Word("null") || n == Word("true") || n == Word("false")
  }

  lemma NameA()
    ensures WellFormedName(A) && Decode(A.body) == "a" && RenderName(A) == "\"a\":"
  {
    assert "a"[1..] == "";
  }

  lemma WordDoc(x: Node)
    requires IsWord(x)
    ensures var d := Doc("", x, ""); WellFormedDoc(d) && Nesting(d) == 0 && Render(d) == x.word && Denote(d) == DenoteNode(x)
  {
  }

  lemma OneAReads(x: Node)
    requires IsWord(x)
    ensures WellFormedMembers(OneA(x)) && MembersNesting(OneA(x)) == 0 && RenderMembers(OneA(x)) == "\"a\":" + x.word
    ensures MemberList(OneA(x)) == [("a", x)] && Names(OneA(x)) == ["a"] && DenoteMembers(OneA(x)) == map["a" := DenoteNode(x)]
  {
    NameA();
    WordDoc(x);
  }

  lemma TwoAReads(x: Node, y: Node)
    requires IsWord(x) && IsWord(y)
    ensures WellFormedMembers(TwoA(x, y)) && MembersNesting(TwoA(x, y)) == 0
    ensures RenderMembers(TwoA(x, y)) == "\"a\":" + x.word + "," + ("\"a\":" + y.word)
    ensures MemberList(TwoA(x, y)) == [("a", x), ("a", y)] && Names(TwoA(x, y)) == ["a", "a"]
    ensures DenoteMembers(TwoA(x, y)) == map["a" := DenoteNode(y)]
  {
    TwoAIsWellFormed(x, y);
    OneAReads(y);
    TwoARenders(x, y);
  }

  lemma TwoAIsWellFormed(x: Node, y: Node)
    requires IsWord(x) && IsWord(y)
    ensures WellFormedMembers(TwoA(x, y)) && MembersNesting(TwoA(x, y)) == 0 && Decode(A.body) == "a"
  {
    NameA();
    WordDoc(x);
    OneAReads(y);
  }

  lemma TwoARenders(x: Node, y: Node)
    requires IsWord(x) && IsWord(y)
    ensures RenderMembers(TwoA(x, y)) == "\"a\":" + x.word + "," + ("\"a\":" + y.word)
  {
    NameA();
    WordDoc(x);
    OneAReads(y);
  }

  lemma ObjectReads(members: Members)
    requires WellFormedMembers(members) && MembersNesting(members) == 0
    ensures var d := Doc("", Object(members), "");
            Reads(d, "{" + RenderMembers(members) + "}") && Denote(d) == Obj(DenoteMembers(members))
  {
  }

  /** A name that stands once is read as it is said. */
  lemma OneNameReads(x: Node)
    requires IsWord(x)
    ensures var d := OnceA(x);
            && Reads(d, "{" + ("\"a\":" + x.word) + "}")
            && UniqueDoc(d) && OneValue(d.node) && Denote(d) == Obj(map["a" := DenoteNode(x)])
            && Get(Denote(d), ["a"]) == Some(DenoteNode(x))
  {
    OneAReads(x);
    ObjectReads(OneA(x));
    GetOne(Denote(OnceA(x)), "a");
    assert UniqueDoc(OneA(x).doc) && UniqueMembers(OneA(x));
    UniqueHasOneValue(Object(OneA(x)));
  }

  /** Which of two members is said last decides: a conflict hides the first, and equal values lose nothing. */
  lemma RepeatedNames(x: Node, y: Node)
    requires IsWord(x) && IsWord(y)
    ensures var d := TwiceA(x, y);
            && Reads(d, "{" + ("\"a\":" + x.word + "," + ("\"a\":" + y.word)) + "}")
            && !UniqueDoc(d) && (OneValue(d.node) <==> x == y)
            && Denote(d) == Obj(map["a" := DenoteNode(y)])
            && Says(d.node, ["a"], DenoteNode(x)) && Get(Denote(d), ["a"]) == Some(DenoteNode(y))
  {
    TwoAReads(x, y);
    ObjectReads(TwoA(x, y));
    TwoAConflict(x, y);
    TwoASays(x, y);
    GetOne(Denote(TwiceA(x, y)), "a");
  }

  lemma TwoAConflict(x: Node, y: Node)
    requires IsWord(x) && IsWord(y)
    ensures WellFormedMembers(TwoA(x, y)) && !Distinct(Names(TwoA(x, y))) && OneValueInMembers(TwoA(x, y))
    ensures OneValuePerName(TwoA(x, y)) <==> x == y
  {
    TwoAReads(x, y);
    var list := MemberList(TwoA(x, y));
    assert Names(TwoA(x, y))[0] == Names(TwoA(x, y))[1];
    assert list[0] == ("a", x) && list[1] == ("a", y);
    assert OneValueInDoc(TwoA(x, y).doc) && OneValueInDoc(TwoA(x, y).others.doc);
  }

  lemma TwoASays(x: Node, y: Node)
    requires IsWord(x) && IsWord(y)
    ensures WellFormedNode(Object(TwoA(x, y))) && Says(Object(TwoA(x, y)), ["a"], DenoteNode(x))
  {
    TwoAReads(x, y);
    var n := Object(TwoA(x, y));
    assert MemberList(n.members)[0] == ("a", x);
    assert IsChild(n, "a", x) && Says(x, [], DenoteNode(x));
    SaysThrough(n, "a", x, [], DenoteNode(x));
  }
}
