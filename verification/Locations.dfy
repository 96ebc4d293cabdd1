/** Where a difference is, and which locations the ignore rules cover (internal/diff/location.go). */
module Locations {
  import opened Strings
  import opened Json
  import opened Pointers

  datatype Component = Status | Headers | Body

  datatype Location = Location(component: Component, path: string)

  function StatusLocation(): Location {
    Location(Status, "")
  }

  /** Header names are compared in lower case, without surrounding space. */
  function HeaderLocation(name: string): Location {
    Location(Headers, Lower(TrimSpace(name)))
  }

  function BodyLocation(pointer: string): Location {
    Location(Body, pointer)
  }

  datatype Rules = Rules(ignore: seq<Location>)

  predicate Covers(ignored: Location, location: Location) {
    && ignored.component == location.component
    && (|| ignored.path == ""
        || match location.component
           case Headers => Lower(ignored.path) == Lower(location.path)
           case Body => ignored.path == location.path || HasPrefix(location.path, ignored.path + "/")
           case Status => ignored.path == location.path)
  }

  predicate Ignores(rules: Rules, location: Location) {
    exists i :: 0 <= i < |rules.ignore| && Covers(rules.ignore[i], location)
  }

  /** Header names count without surrounding space and without regard to case. */
  lemma HeaderNamesFold(a: string, b: string)
    ensures HeaderLocation(a) == HeaderLocation(b) <==> EqualFold(TrimSpace(a), TrimSpace(b))
  {
    LowerFolds(TrimSpace(a), TrimSpace(b));
  }

  /** A header is ignored exactly by a rule for all headers, or one with its name in some case. */
  lemma HeaderIsIgnored(rules: Rules, path: string)
    ensures Ignores(rules, Location(Headers, path)) <==>
            exists i :: 0 <= i < |rules.ignore| && rules.ignore[i].component == Headers && (rules.ignore[i].path == "" || EqualFold(rules.ignore[i].path, path))
  {
    forall i | 0 <= i < |rules.ignore| ensures Lower(rules.ignore[i].path) == Lower(path) <==> EqualFold(rules.ignore[i].path, path) {
      LowerFolds(rules.ignore[i].path, path);
    }
    if i :| 0 <= i < |rules.ignore| && rules.ignore[i].component == Headers && (rules.ignore[i].path == "" || EqualFold(rules.ignore[i].path, path)) {
      assert Covers(rules.ignore[i], Location(Headers, path));
    }
  }

  /** The status is ignored exactly by a rule for the status as a whole. */
  lemma StatusIsIgnored(rules: Rules)
    ensures Ignores(rules, StatusLocation()) <==> exists i :: 0 <= i < |rules.ignore| && rules.ignore[i] == Location(Status, "")
  {
    if i :| 0 <= i < |rules.ignore| && rules.ignore[i] == Location(Status, "") { assert Covers(rules.ignore[i], StatusLocation()); }
  }

  /** Ignoring a location ignores what lies below it, for any rule text and any pointer. */
  lemma IgnoresDescendants(rules: Rules, pointer: string, token: string)
    requires Ignores(rules, BodyLocation(pointer))
    ensures Ignores(rules, BodyLocation(AppendJsonPointer(pointer, token)))
  {
    var i :| 0 <= i < |rules.ignore| && Covers(rules.ignore[i], BodyLocation(pointer));
    var ignored := rules.ignore[i].path;
    var below := AppendJsonPointer(pointer, token);
    if ignored != "" {
      assert pointer != "";
      assert below[..|pointer| + 1] == pointer + "/";
      if ignored != pointer {
        assert below[..|ignored| + 1] == pointer[..|ignored| + 1] == ignored + "/";
      }
    }
    assert Covers(rules.ignore[i], BodyLocation(below));
  }

  /** The same cover, said with reference tokens: the whole body, or a prefix of the path. */
  ghost predicate CoversTokens(ignored: Location, tokens: Tokens) {
    ignored.component == Body && (ignored.path == "" || (IsPointer(ignored.path) && Parse(ignored.path).value <= tokens))
  }

  ghost predicate IgnoresTokens(rules: Rules, tokens: Tokens) {
    exists i :: 0 <= i < |rules.ignore| && CoversTokens(rules.ignore[i], tokens)
  }

  /** On body locations the string test is exactly token-list prefix; text that is no pointer covers nothing. */
  lemma IgnoresIsTokenPrefix(rules: Rules, tokens: Tokens)
    ensures Ignores(rules, BodyLocation(Print(tokens))) <==> IgnoresTokens(rules, tokens)
  {
    forall i | 0 <= i < |rules.ignore|
      ensures Covers(rules.ignore[i], BodyLocation(Print(tokens))) <==> CoversTokens(rules.ignore[i], tokens)
    {
      CoversIsTokenPrefix(rules.ignore[i], tokens);
    }
  }

  lemma CoversIsTokenPrefix(ignored: Location, tokens: Tokens)
    ensures Covers(ignored, BodyLocation(Print(tokens))) <==> CoversTokens(ignored, tokens)
  {
    var path, text := ignored.path, Print(tokens);
    PrintIsPointer(tokens);
    if path != "" && HasPrefix(text, path + "/") { PrefixIsPointer(text, path); }
    if IsPointer(path) {
      PrintParse(path);
      PrefixIsTokenPrefix(Parse(path).value, tokens);
    }
  }

  lemma PrefixIsPointer(text: string, path: string)
    requires IsPointer(text) && path != "" && HasPrefix(text, path + "/")
    ensures IsPointer(path)
  {
    forall i | 0 <= i < |path| + 1 ensures text[i] == (path + "/")[i] {
      assert text[..|path| + 1][i] == text[i];
    }
    forall i | 0 <= i < |path| && path[i] == '~' ensures i + 1 < |path| && (path[i + 1] == '0' || path[i + 1] == '1') {
      assert text[i] == '~' && text[i + 1] == (path + "/")[i + 1];
    }
  }
}
