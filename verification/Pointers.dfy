/** JSON Pointers as strings (RFC 6901 section 3) and the ignore rules written with them. */
module Pointers {
  import opened Strings
  import opened Json

  // ----- Printing (internal/diff/location.go) -----

  /** Escaping of one token: first every '~', then every '/'. */
  function Escape(token: string): string {
    ReplaceAll(ReplaceAll(token, "~", "~0"), "/", "~1")
  }

  function AppendJsonPointer(pointer: string, token: string): string {
    if pointer == "" then "/" + Escape(token) else pointer + "/" + Escape(token)
  }

  /** AppendJsonPointer folded over a token list, starting at the root. */
  function Print(tokens: Tokens): string {
    if tokens == [] then "" else AppendJsonPointer(Print(tokens[..|tokens| - 1]), tokens[|tokens| - 1])
  }

  // ----- Parsing (internal/sanitize/fields.go) -----

  function Unescape(part: string): string {
    ReplaceAll(ReplaceAll(part, "~1", "/"), "~0", "~")
  }

  /** Every '~' starts one of the two escapes. */
  predicate Escaped(s: string) {
    forall i :: 0 <= i < |s| && s[i] == '~' ==> i + 1 < |s| && (s[i + 1] == '0' || s[i + 1] == '1')
  }

  /** The strings RFC 6901 allows, other than the root. */
  predicate IsPointer(path: string) {
    path != "" && path[0] == '/' && Escaped(path)
  }

  /** The scan both Pointer and validJSONPointer make; it steps over the character after each '~'. */
  method ScanEscapes(s: string) returns (ok: bool)
    ensures ok <==> Escaped(s)
  {
    var j := 0;
    while j < |s|
      invariant 0 <= j <= |s|
      invariant forall i :: 0 <= i < j && s[i] == '~' ==> i + 1 < |s| && (s[i + 1] == '0' || s[i + 1] == '1')
    {
      if s[j] == '~' {
        if j + 1 == |s| || (s[j + 1] != '0' && s[j + 1] != '1') {
          return false;
        }
        j := j + 1;
      }
      j := j + 1;
    }
    return true;
  }

  /** sanitize.Pointer: None is its error. */
  method Pointer(path: string) returns (parts: Option<Tokens>)
    ensures parts == Parse(path)
  {
    if !HasPrefix(path, "/") {
      return None;
    }
    var pieces := Split(path[1..], '/');
    var tokens := pieces;
    SplitEscaped(path[1..]);
    assert path[0] == path[..1][0] == '/';
    EscapedHead(path);
    assert IsPointer(path) <==> Escaped(path[1..]);
    for i := 0 to |pieces|
      invariant |tokens| == |pieces|
      invariant forall k :: 0 <= k < i ==> Escaped(pieces[k]) && tokens[k] == Unescape(pieces[k])
      invariant forall k :: i <= k < |pieces| ==> tokens[k] == pieces[k]
    {
      var ok := ScanEscapes(pieces[i]);
      if !ok {
        assert !Escaped(Split(path[1..], '/')[i]);
        return None;
      }
      tokens := tokens[i := Unescape(pieces[i])];
    }
    assert tokens == UnescapeAll(pieces);
    return Some(tokens);
  }

  /** The CLI's check of an ignored body location. */
  method ValidJsonPointer(pointer: string) returns (valid: bool)
    ensures valid <==> IsPointer(pointer)
  {
    if pointer == "" || pointer[0] != '/' {
      return false;
    }
    valid := ScanEscapes(pointer);
  }

  function UnescapeAll(parts: seq<string>): (r: Tokens)
    ensures |r| == |parts| && forall i :: 0 <= i < |parts| ==> r[i] == Unescape(parts[i])
  {
    seq(|parts|, i requires 0 <= i < |parts| => Unescape(parts[i]))
  }

  /** The tokens a pointer string names. */
  function Parse(path: string): (r: Option<Tokens>)
    ensures r.Some? <==> IsPointer(path)
    ensures r.Some? ==> r.value != []
  {
    if IsPointer(path) then Some(UnescapeAll(Split(path[1..], '/'))) else None
  }

  // ----- Escaping -----

  lemma EscapedHead(s: string)
    requires s != ""
    ensures Escaped(s) <==> Escaped(s[1..]) && (s[0] == '~' ==> |s| > 1 && (s[1] == '0' || s[1] == '1'))
  {
    var t := s[1..];
    if Escaped(s) {
      assert forall i :: 0 <= i < |t| ==> t[i] == s[i + 1];
    }
    if Escaped(t) {
      assert forall i :: 0 < i < |s| ==> s[i] == t[i - 1];
    }
  }

  lemma {:induction false} SplitEscaped(s: string)
    ensures Escaped(s) <==> forall k :: 0 <= k < |Split(s, '/')| ==> Escaped(Split(s, '/')[k])
  {
    if s != "" {
      SplitEscaped(s[1..]);
      EscapedHead(s);
      SplitHead(s[1..]);
      var parts, rest := Split(s, '/'), Split(s[1..], '/');
      EscapedHead([s[0]] + rest[0]);
      assert ([s[0]] + rest[0])[1..] == rest[0];
      if s[0] == '/' {
        assert parts[1..] == rest;
      } else {
        assert parts[0] == [s[0]] + rest[0] && parts[1..] == rest[1..];
      }
      assert forall k :: 1 <= k < |parts| ==> parts[k] == parts[1..][k - 1];
      assert forall k :: 1 <= k < |rest| ==> rest[k] == rest[1..][k - 1];
    }
  }

  lemma SplitHead(s: string)
    ensures Split(s, '/')[0] == "" <==> s == "" || s[0] == '/'
    ensures Split(s, '/')[0] != "" ==> Split(s, '/')[0][0] == s[0]
  {
  }

  function Tilde(token: string): string {
    if token == "" then "" else (if token[0] == '~' then "~0" else [token[0]]) + Tilde(token[1..])
  }

  function Slash(token: string): string {
    if token == "" then "" else
    (if token[0] == '~' then "~0" else if token[0] == '/' then "~1" else [token[0]]) + Slash(token[1..])
  }

  /** The two passes of Escape act on each character by itself. */
  lemma {:induction false} EscapeByCharacter(token: string)
    ensures ReplaceAll(token, "~", "~0") == Tilde(token) && Escape(token) == Slash(token)
  {
    if token != "" {
      EscapeByCharacter(token[1..]);
      var c, t, u := token[0], Tilde(token[1..]), Slash(token[1..]);
      ReplaceOne(token[0], token[1..], '~', "~0");
      HeadAndTail(token);
      if c == '~' {
        ReplaceOne('0', t, '/', "~1");
        ReplaceOne('~', "0" + t, '/', "~1");
        Regroup("~", "0", t);
        Regroup("~", "0", u);
        assert "~" + "0" == "~0";
      } else {
        ReplaceOne(c, t, '/', "~1");
      }
    }
  }

  /** RFC 6901 section 3: each '~' becomes "~0", each '/' becomes "~1", and nothing else changes. */
  lemma EscapeIs(a: string, b: string, c: char)
    ensures Escape("") == "" && Escape("~") == "~0" && Escape("/") == "~1"
    ensures c != '~' && c != '/' ==> Escape([c]) == [c]
    ensures Escape(a + b) == Escape(a) + Escape(b)
  {
    EscapeByCharacter("");
    SlashOne('~');
    SlashOne('/');
    SlashOne(c);
    EscapeByCharacter(a);
    EscapeByCharacter(b);
    EscapeByCharacter(a + b);
    SlashConcat(a, b);
  }

  lemma SlashOne(c: char)
    ensures Escape([c]) == if c == '~' then "~0" else if c == '/' then "~1" else [c]
  {
    EscapeByCharacter([c]);
    assert [c][1..] == "";
  }

  lemma {:induction false} SlashConcat(a: string, b: string)
    ensures Slash(a + b) == Slash(a) + Slash(b)
  {
    if a == "" {
      assert a + b == b;
      assert "" + Slash(b) == Slash(b);
    } else {
      SlashConcat(a[1..], b);
      ConcatTail(a, b);
      Regroup(if a[0] == '~' then "~0" else if a[0] == '/' then "~1" else [a[0]], Slash(a[1..]), Slash(b));
    }
  }

  lemma ReplaceOne(head: char, tail: string, c: char, to: string)
    ensures ReplaceAll([head] + tail, [c], to) == (if head == c then to else [head]) + ReplaceAll(tail, [c], to)
  {
    var s := [head] + tail;
    assert s[..1] == [head] && s[1..] == tail;
  }

  /** The two passes of Unescape read the escapes of a valid part one by one. */
  function Untilde(part: string): string
    requires Escaped(part)
  {
    if part == "" then "" else
      assert Escaped(part[1..]) by { EscapedHead(part); }
      if part[0] != '~' then [part[0]] + Untilde(part[1..])
      else
        assert Escaped(part[2..]) by { EscapedHead(part[1..]); }
        (if part[1] == '0' then "~" else "/") + Untilde(part[2..])
  }

  lemma TwoCharacterPrefix(s: string, a: char, b: char)
    ensures HasPrefix(s, [a, b]) <==> |s| > 1 && s[0] == a && s[1] == b
  {
    if |s| > 1 { assert s[..2] == [s[0], s[1]]; }
  }

  lemma {:induction false} UnescapeByCharacter(part: string)
    requires Escaped(part)
    ensures Unescape(part) == Untilde(part)
    decreases |part|
  {
    if part != "" {
      EscapedHead(part);
      TwoCharacterPrefix(part, '~', '1');
      if part[0] != '~' {
        UnescapeByCharacter(part[1..]);
        var r := ReplaceAll(part[1..], "~1", "/");
        TwoCharacterPrefix([part[0]] + r, '~', '0');
        ConsIsOne(part[0], r, r);
      } else {
        EscapedHead(part[1..]);
        UnescapeByCharacter(part[2..]);
        var r := ReplaceAll(part[2..], "~1", "/");
        if part[1] == '1' {
          TwoCharacterPrefix("/" + r, '~', '0');
          ConsIsOne('/', r, r);
        } else {
          TwoCharacterPrefix(part[1..], '~', '1');
          assert part[1..][1..] == part[2..];
          Regroup("~", "0", r);
          assert "~" + "0" == "~0" && ReplaceAll(part, "~1", "/") == "~" + ("0" + r);
          TwoCharacterPrefix("~0" + r, '~', '0');
          DropOfConcat("~0", r);
        }
      }
    }
  }

  lemma {:induction false} EscapeRoundTrip(token: string)
    ensures Escaped(Escape(token)) && '/' !in Escape(token) && Unescape(Escape(token)) == token
  {
    SlashRoundTrip(token);
    EscapeByCharacter(token);
    UnescapeByCharacter(Escape(token));
  }

  lemma {:induction false} SlashRoundTrip(token: string)
    ensures Escaped(Slash(token)) && '/' !in Slash(token) && Untilde(Slash(token)) == token
  {
    if token != "" {
      var s, t := Slash(token), Slash(token[1..]);
      SlashRoundTrip(token[1..]);
      EscapedHead(s);
      if token[0] == '~' || token[0] == '/' {
        assert s[1..] == [s[1]] + t && s[2..] == t;
        EscapedHead(s[1..]);
        assert s[1..][1..] == t;
      } else {
        assert s[1..] == t;
      }
    }
  }

  lemma {:induction false} UnescapeRoundTrip(part: string)
    requires Escaped(part) && '/' !in part
    ensures Escape(Unescape(part)) == part
  {
    UntildeRoundTrip(part);
    UnescapeByCharacter(part);
    EscapeByCharacter(Unescape(part));
  }

  lemma {:induction false} UntildeRoundTrip(part: string)
    requires Escaped(part) && '/' !in part
    ensures Slash(Untilde(part)) == part
    decreases |part|
  {
    if part != "" {
      EscapedHead(part);
      if part[0] != '~' {
        UntildeRoundTrip(part[1..]);
        assert Untilde(part)[1..] == Untilde(part[1..]);
      } else {
        EscapedHead(part[1..]);
        UntildeRoundTrip(part[2..]);
        assert Untilde(part)[1..] == Untilde(part[2..]);
        assert part == part[..2] + part[2..];
      }
    }
  }

  // ----- Printing and parsing undo each other -----

  function Join(parts: seq<string>): string {
    if parts == [] then "" else "/" + parts[0] + Join(parts[1..])
  }

  lemma {:induction false} JoinSplit(s: string)
    ensures Join(Split(s, '/')) == "/" + s
  {
    if s == "" {
      assert [""][1..] == [];
    } else {
      JoinSplit(s[1..]);
      var rest := Split(s[1..], '/');
      var others := Join(rest[1..]);
      HeadAndTail(s);
      Regroup("/", rest[0], others);
      if s[0] == '/' {
        ConsIsOne("", rest, rest);
        assert "/" + "" == "/";
      } else {
        ConsIsOne([s[0]] + rest[0], rest[1..], rest[1..]);
        ConsIsOne('/', rest[0] + others, s[1..]);
        Regroup("/", [s[0]] + rest[0], others);
        Regroup([s[0]], rest[0], others);
      }
    }
  }

  lemma {:induction false} PartsHaveNoSlash(s: string)
    ensures forall k :: 0 <= k < |Split(s, '/')| ==> '/' !in Split(s, '/')[k]
  {
    if s != "" { PartsHaveNoSlash(s[1..]); }
  }

  lemma {:induction false} SplitJoin(parts: seq<string>)
    requires parts != [] && forall k :: 0 <= k < |parts| ==> '/' !in parts[k]
    ensures Split(Join(parts)[1..], '/') == parts
  {
    var others := parts[1..];
    Regroup("/", parts[0], Join(others));
    ConsIsOne('/', parts[0] + Join(others), "");
    HeadAndTail(parts);
    SplitPiece(parts[0], Join(others));
    if others != [] { SplitJoin(others); }
  }

  lemma {:induction false} SplitPiece(piece: string, tail: string)
    requires '/' !in piece && (tail == "" || tail[0] == '/')
    ensures Split(piece + tail, '/') == [piece] + if tail == "" then [] else Split(tail[1..], '/')
  {
    if piece == "" {
      assert piece + tail == tail;
    } else {
      SplitPiece(piece[1..], tail);
      SplitStep(piece[0], piece[1..] + tail);
      HeadAndTail(piece);
      Regroup([piece[0]], piece[1..], tail);
      ConsIsOne(piece[1..], if tail == "" then [] else Split(tail[1..], '/'), []);
    }
  }

  lemma SplitStep(c: char, s: string)
    ensures var r := Split(s, '/');
            Split([c] + s, '/') == if c == '/' then [""] + r else [[c] + r[0]] + r[1..]
  {
    assert ([c] + s)[1..] == s;
  }

  lemma {:induction false} PrintIsJoin(tokens: Tokens)
    ensures Print(tokens) == Join(EscapeAll(tokens))
    ensures tokens != [] ==> Print(tokens) != "" && Print(tokens)[0] == '/'
  {
    if tokens != [] {
      var front, last := tokens[..|tokens| - 1], tokens[|tokens| - 1];
      PrintIsJoin(front);
      EscapeAllSnoc(tokens);
      JoinAppends(EscapeAll(front), [Escape(last)]);
      JoinOne(Escape(last));
      Regroup(Print(front), "/", Escape(last));
    }
  }

  lemma JoinOne(part: string)
    ensures Join([part]) == "/" + part
  {
    assert [part][1..] == [];
    assert "/" + part + "" == "/" + part;
  }

  lemma EscapeAllSnoc(tokens: Tokens)
    requires tokens != []
    ensures EscapeAll(tokens) == EscapeAll(tokens[..|tokens| - 1]) + [Escape(tokens[|tokens| - 1])]
  {
  }

  lemma EscapeAllConcat(a: Tokens, b: Tokens)
    ensures EscapeAll(a + b) == EscapeAll(a) + EscapeAll(b)
  {
  }

  function EscapeAll(tokens: Tokens): (r: seq<string>)
    ensures |r| == |tokens| && forall i :: 0 <= i < |tokens| ==> r[i] == Escape(tokens[i])
  {
    seq(|tokens|, i requires 0 <= i < |tokens| => Escape(tokens[i]))
  }

  lemma {:induction false} JoinAppends(a: seq<string>, b: seq<string>)
    ensures Join(a + b) == Join(a) + Join(b)
  {
    if a == [] {
      assert a + b == b;
      assert "" + Join(b) == Join(b);
    } else {
      ConcatTail(a, b);
      JoinAppends(a[1..], b);
      Regroup("/" + a[0], Join(a[1..]), Join(b));
    }
  }

  lemma PrintAppends(a: Tokens, b: Tokens)
    ensures Print(a + b) == Print(a) + Print(b)
  {
    PrintIsJoin(a);
    PrintIsJoin(b);
    PrintIsJoin(a + b);
    EscapeAllConcat(a, b);
    JoinAppends(EscapeAll(a), EscapeAll(b));
  }

  /** Parsing what was printed gives the tokens back, whatever characters they hold. */
  lemma ParsePrint(tokens: Tokens)
    requires tokens != []
    ensures Parse(Print(tokens)) == Some(tokens)
  {
    var parts, path := EscapeAll(tokens), Print(tokens);
    PrintIsJoin(tokens);
    forall k | 0 <= k < |parts| ensures Escaped(parts[k]) && '/' !in parts[k] && Unescape(parts[k]) == tokens[k] {
      EscapeRoundTrip(tokens[k]);
    }
    SplitJoin(parts);
    SplitEscaped(path[1..]);
    EscapedHead(path);
    assert UnescapeAll(parts) == tokens;
  }

  /** Printing what was parsed gives the same pointer. */
  lemma PrintParse(path: string)
    requires IsPointer(path)
    ensures Print(Parse(path).value) == path
  {
    var parts := Split(path[1..], '/');
    var tokens := UnescapeAll(parts);
    EscapedHead(path);
    SplitEscaped(path[1..]);
    JoinSplit(path[1..]);
    PartsHaveNoSlash(path[1..]);
    forall k | 0 <= k < |parts| ensures Escape(tokens[k]) == parts[k] { UnescapeRoundTrip(parts[k]); }
    assert EscapeAll(tokens) == parts;
    PrintIsJoin(tokens);
  }

  lemma PrintInjective(a: Tokens, b: Tokens)
    requires Print(a) == Print(b)
    ensures a == b
  {
    PrintIsJoin(a);
    PrintIsJoin(b);
    if a != [] && b != [] {
      ParsePrint(a);
      ParsePrint(b);
    }
  }

  /** Cutting a pointer string at a '/' is cutting its token list. */
  lemma PrefixIsTokenPrefix(a: Tokens, b: Tokens)
    ensures (Print(b) == Print(a) || HasPrefix(Print(b), Print(a) + "/")) <==> a <= b
  {
    if a <= b { TokenPrefixIsPrefix(a, b); }
    if Print(b) == Print(a) {
      PrintInjective(a, b);
    } else if HasPrefix(Print(b), Print(a) + "/") {
      PrefixCutsTokens(a, b);
    }
  }

  lemma TokenPrefixIsPrefix(a: Tokens, b: Tokens)
    requires a <= b
    ensures Print(b) == Print(a) || HasPrefix(Print(b), Print(a) + "/")
  {
    var rest := b[|a|..];
    assert b == a + rest;
    PrintAppends(a, rest);
    PrintIsJoin(rest);
    if rest == [] {
      assert b == a;
    } else {
      assert Print(b)[..|Print(a)| + 1] == Print(a) + "/";
    }
  }

  lemma PrefixCutsTokens(a: Tokens, b: Tokens)
    requires HasPrefix(Print(b), Print(a) + "/")
    ensures a <= b
  {
    var tail := CutAtPrefix(Print(b), Print(a));
    PrintIsPointer(b);
    EscapedTail(Print(b), |Print(a)|);
    var rest := Parse(tail).value;
    PrintParse(tail);
    PrintAppends(a, rest);
    PrintInjective(a + rest, b);
  }

  lemma CutAtPrefix(s: string, prefix: string) returns (tail: string)
    requires HasPrefix(s, prefix + "/")
    ensures tail == s[|prefix|..] && s == prefix + tail && tail != "" && tail[0] == '/'
  {
    tail := s[|prefix|..];
    assert s[..|prefix|] == (prefix + "/")[..|prefix|] == prefix;
    assert tail[0] == s[..|prefix| + 1][|prefix|] == '/';
  }

  lemma EscapedTail(s: string, n: nat)
    requires Escaped(s) && n <= |s|
    ensures Escaped(s[n..])
  {
    var tail := s[n..];
    forall i | 0 <= i < |tail| ensures tail[i] == s[n + i] { }
  }

  lemma PrintIsPointer(tokens: Tokens)
    ensures Escaped(Print(tokens)) && (tokens != [] ==> IsPointer(Print(tokens)))
  {
    PrintIsJoin(tokens);
    if tokens != [] { ParsePrint(tokens); }
  }
}
