/** Exact comparison of JSON number tokens (internal/diff/body.go). */
module Numbers {
  import opened Strings
  import opened Decimal
  import opened JsonText

  // ----- What a token denotes -----

  /** The exact decimal value of a number literal, for exponents of any size. */
  function Value(lit: NumberLit): real
    requires lit.WellFormed()
  {
    Denotes(lit.negative, lit.whole + lit.FractionDigits(), Power(lit.exponent) - |lit.FractionDigits()|)
  }

  /** The power of ten an exponent part stands for. */
  function Power(exponent: Option<Exponent>): int
    requires exponent.Some? ==> AllDigits(exponent.value.digits)
  {
    match exponent
    case None => 0
    case Some(e) => if e.sign == "-" then -(NatOf(e.digits) as int) else NatOf(e.digits)
  }

  /** The value by the parts of the grammar: only a minus sign turns the number or its exponent around. */
  lemma ValueByParts(lit: NumberLit)
    requires lit.WellFormed()
    ensures lit.exponent.None? && lit.fraction.None? ==>
              Value(lit) == if lit.negative then -(NatOf(lit.whole) as real) else NatOf(lit.whole) as real
    ensures lit.fraction.Some? && AllDigits(lit.whole + lit.fraction.value) ==>
              Value(lit.(exponent := None))
              == Scale(if lit.negative then -(NatOf(lit.whole + lit.fraction.value) as real) else NatOf(lit.whole + lit.fraction.value) as real,
                       -|lit.fraction.value|)
    ensures lit.exponent.Some? ==>
              Value(lit) == Scale(Value(lit.(exponent := None)),
                                  if lit.exponent.value.sign == "-" then -(NatOf(lit.exponent.value.digits) as int)
                                  else NatOf(lit.exponent.value.digits))
    ensures lit.exponent.Some? && lit.exponent.value.sign == "+" ==>
              Value(lit) == Value(lit.(exponent := Some(lit.exponent.value.(sign := ""))))
  {
    var digits := lit.whole + lit.FractionDigits();
    AllDigitsConcat(lit.whole, lit.FractionDigits());
    assert lit.whole + "" == lit.whole;
    ScaleKeepsSign(NatOf(digits) as real, -|lit.FractionDigits()|);
    ScaleKeepsSign(Scale(NatOf(digits) as real, -|lit.FractionDigits()|), Power(lit.exponent));
    ScaleAdds(NatOf(digits) as real, -|lit.FractionDigits()|, Power(lit.exponent));
  }

  function Denotes(negative: bool, digits: string, exponent: int): real
    requires AllDigits(digits)
  {
    var magnitude := Scale(NatOf(digits) as real, exponent);
    if negative then -magnitude else magnitude
  }

  ghost function ValueOf(token: string): real
    requires IsNumber(token)
  {
    var lit: NumberLit :| lit.WellFormed() && lit.Text() == token;
    Value(lit)
  }

  /** The equality the comparison promises: one token, or two tokens of one exact value. */
  ghost predicate SameNumber(a: string, b: string) {
    a == b || (IsNumber(a) && IsNumber(b) && ValueOf(a) == ValueOf(b))
  }

  /** On all strings, including those that are not numbers. */
  lemma SameNumberIsEquivalence(a: string, b: string, c: string)
    ensures SameNumber(a, a)
    ensures SameNumber(a, b) <==> SameNumber(b, a)
    ensures SameNumber(a, b) && SameNumber(b, c) ==> SameNumber(a, c)
  {
  }

  // ----- The grammar, read from left to right -----

  function DigitsIn(s: string): (n: nat)
    ensures n <= |s| && AllDigits(s[..n]) && (n < |s| ==> !IsDigit(s[n]))
  {
    if s == "" || !IsDigit(s[0]) then 0 else 1 + DigitsIn(s[1..])
  }

  predicate ReadsExponent(s: string) {
    s == "" ||
    ((s[0] == 'e' || s[0] == 'E') &&
     var digits := if |s| > 1 && (s[1] == '+' || s[1] == '-') then s[2..] else s[1..];
     digits != "" && AllDigits(digits))
  }

  predicate ReadsFraction(s: string) {
    if s != "" && s[0] == '.' then DigitsIn(s[1..]) > 0 && ReadsExponent(s[1..][DigitsIn(s[1..])..]) else ReadsExponent(s)
  }

  /** A minus or nothing; a zero or digits that do not start with one; a fraction or nothing; an exponent or nothing. */
  predicate ReadsNumber(s: string) {
    var t := if s != "" && s[0] == '-' then s[1..] else s;
    t != "" && IsDigit(t[0]) && ReadsFraction(t[if t[0] == '0' then 1 else DigitsIn(t)..])
  }

  /** The literals of the grammar are exactly the texts read so. */
  lemma NumbersAreRead(s: string)
    ensures IsNumber(s) <==> ReadsNumber(s)
  {
    if IsNumber(s) {
      var lit: NumberLit :| lit.WellFormed() && lit.Text() == s;
      LiteralIsRead(lit);
    }
    if ReadsNumber(s) {
      var lit := ReadLiteral(s);
    }
  }

  function ExponentPart(exponent: Option<Exponent>): string {
    if exponent.Some? then [exponent.value.marker] + (exponent.value.sign + exponent.value.digits) else ""
  }

  function FractionPart(fraction: Option<string>): string {
    if fraction.Some? then "." + fraction.value else ""
  }

  lemma PartsOfText(lit: NumberLit)
    ensures lit.Text() == (if lit.negative then "-" else "") + (lit.whole + (FractionPart(lit.fraction) + ExponentPart(lit.exponent)))
  {
    Regroup(lit.whole, FractionPart(lit.fraction), ExponentPart(lit.exponent));
    if lit.exponent.None? { assert lit.Mantissa() + "" == lit.Mantissa(); }
  }

  lemma ExponentIsRead(exponent: Option<Exponent>)
    requires NumberLit(false, "0", None, exponent).WellFormed()
    ensures var s := ExponentPart(exponent); ReadsExponent(s) && (s != "" ==> s[0] == 'e' || s[0] == 'E')
  {
    if exponent.Some? {
      var e := exponent.value;
      ConsIsOne(e.marker, e.sign + e.digits, "");
      if e.sign == "" { assert e.sign + e.digits == e.digits; } else { assert ExponentPart(exponent)[2..] == e.digits; }
    }
  }

  lemma {:induction false} DigitsStop(digits: string, rest: string)
    requires AllDigits(digits) && (rest != "" ==> !IsDigit(rest[0]))
    ensures DigitsIn(digits + rest) == |digits| && (digits + rest)[|digits|..] == rest
  {
    DropOfConcat(digits, rest);
    if digits == "" {
      assert digits + rest == rest;
    } else {
      DigitsStop(digits[1..], rest);
      ConcatTail(digits, rest);
    }
  }

  lemma FractionIsRead(fraction: Option<string>, exponent: Option<Exponent>)
    requires NumberLit(false, "0", fraction, exponent).WellFormed()
    ensures var s := FractionPart(fraction) + ExponentPart(exponent); ReadsFraction(s) && (s != "" ==> !IsDigit(s[0]))
  {
    ExponentIsRead(exponent);
    var e := ExponentPart(exponent);
    if fraction.Some? {
      DigitsStop(fraction.value, e);
      Regroup(".", fraction.value, e);
      ConsIsOne('.', fraction.value + e, "");
    } else {
      assert "" + e == e;
    }
  }

  lemma LiteralIsRead(lit: NumberLit)
    requires lit.WellFormed()
    ensures ReadsNumber(lit.Text())
  {
    var rest := FractionPart(lit.fraction) + ExponentPart(lit.exponent);
    var t := lit.whole + rest;
    FractionIsRead(lit.fraction, lit.exponent);
    DigitsStop(lit.whole, rest);
    PartsOfText(lit);
    if lit.negative { ConsIsOne('-', t, ""); } else { assert "" + t == t; }
    assert t[0] == lit.whole[0];
  }

  lemma ReadExponent(s: string) returns (exponent: Option<Exponent>)
    requires ReadsExponent(s)
    ensures NumberLit(false, "0", None, exponent).WellFormed() && ExponentPart(exponent) == s
  {
    if s == "" {
      exponent := None;
    } else if |s| > 1 && (s[1] == '+' || s[1] == '-') {
      exponent := Some(Exponent(s[0], [s[1]], s[2..]));
      assert s == [s[0]] + ([s[1]] + s[2..]);
    } else {
      exponent := Some(Exponent(s[0], "", s[1..]));
      assert "" + s[1..] == s[1..];
      HeadAndTail(s);
    }
  }

  lemma ReadDigits(t: string) returns (digits: string, rest: string)
    requires DigitsIn(t) > 0
    ensures digits != "" && AllDigits(digits) && rest == t[DigitsIn(t)..] && digits + rest == t
  {
    digits, rest := t[..DigitsIn(t)], t[DigitsIn(t)..];
  }

  lemma ReadFraction(s: string) returns (fraction: Option<string>, exponent: Option<Exponent>)
    requires ReadsFraction(s)
    ensures NumberLit(false, "0", fraction, exponent).WellFormed() && FractionPart(fraction) + ExponentPart(exponent) == s
  {
    if s != "" && s[0] == '.' {
      var digits, rest := ReadDigits(s[1..]);
      exponent := ReadExponent(rest);
      fraction := Some(digits);
      HeadAndTail(s);
      Regroup(".", digits, rest);
    } else {
      exponent := ReadExponent(s);
      fraction := None;
      assert "" + s == s;
    }
  }

  lemma ReadLiteral(s: string) returns (lit: NumberLit)
    requires ReadsNumber(s)
    ensures lit.WellFormed() && lit.Text() == s
  {
    var negative := s != "" && s[0] == '-';
    var t := if negative then s[1..] else s;
    var whole, rest := ReadWhole(t);
    var fraction, exponent := ReadFraction(rest);
    lit := NumberLit(negative, whole, fraction, exponent);
    PartsOfText(lit);
    if negative { HeadAndTail(s); } else { assert "" + t == t; }
  }

  lemma ReadWhole(t: string) returns (whole: string, rest: string)
    requires t != "" && IsDigit(t[0])
    ensures rest == t[if t[0] == '0' then 1 else DigitsIn(t)..] && whole + rest == t
    ensures whole != "" && AllDigits(whole) && (whole[0] == '0' ==> whole == "0")
  {
    var n := if t[0] == '0' then 1 else DigitsIn(t);
    whole, rest := t[..n], t[n..];
    assert whole[0] == t[0];
  }

  // ----- Canonical forms -----

  /** The exponent stands for the text big.Int prints, which is the same for equal integers only. */
  datatype Canonical = Canonical(negative: bool, digits: string, exponent: int) {
    predicate Normal() {
      && digits != "" && AllDigits(digits)
      && if digits == "0" then !negative && exponent == 0 else digits[0] != '0' && digits[|digits| - 1] != '0'
    }

    function Value(): real
      requires Normal()
    {
      Denotes(negative, digits, exponent)
    }
  }

  /** Two normal forms denote one value only if they are the same form. */
  lemma {:induction false} NormalFormsAreUnique(a: Canonical, b: Canonical)
    requires a.Normal() && b.Normal() && a.Value() == b.Value()
    ensures a == b
  {
    NormalSign(a);
    NormalSign(b);
    if a.digits != "0" {
      var ea, eb := a.exponent, b.exponent;
      if ea <= eb { SameMagnitude(b.digits, eb, a.digits, ea); } else { SameMagnitude(a.digits, ea, b.digits, eb); }
    }
  }

  lemma NormalSign(c: Canonical)
    requires c.Normal()
    ensures c.digits == "0" <==> c.Value() == 0.0
    ensures c.digits != "0" ==> (c.negative <==> c.Value() < 0.0)
  {
    if c.digits == "0" { assert NatOf(c.digits) == 0; } else { NatOfPositive(c.digits); }
    ScaleKeepsSign(NatOf(c.digits) as real, c.exponent);
  }

  lemma SameMagnitude(a: string, ea: int, b: string, eb: int)
    requires AllDigits(a) && a != "" && a[0] != '0'
    requires AllDigits(b) && b != "" && b[0] != '0' && b[|b| - 1] != '0'
    requires ea >= eb && Scale(NatOf(a) as real, ea) == Scale(NatOf(b) as real, eb)
    ensures a == b && ea == eb
  {
    SameScaled(NatOf(a), NatOf(b), eb, ea - eb);
    LastDigit(b);
    NatOfInjective(a, b);
  }

  lemma LastDigit(s: string)
    requires AllDigits(s) && s != ""
    ensures NatOf(s) % 10 == DigitOf(s[|s| - 1])
  {
  }

  lemma SameScaled(a: nat, b: nat, e: int, k: nat)
    requires Scale(a as real, e + k) == Scale(b as real, e)
    ensures if k == 0 then a == b else b % 10 == 0
  {
    ScaleSplit(a as real, e, k);
    ScaleInjective(Scale(a as real, k), b as real, e);
    var m := ScaleNat(a, k);
  }

  // ----- Trimming zeros -----

  /** strings.TrimLeft(s, "0"). */
  function TrimLeftZeros(s: string): (r: string)
    ensures r == "" || r[0] != '0'
  {
    if s != "" && s[0] == '0' then TrimLeftZeros(s[1..]) else s
  }

  /** strings.TrimRight(s, "0"). */
  function TrimRightZeros(s: string): (r: string)
    ensures r <= s && (r == "" || r[|r| - 1] != '0')
    ensures forall i :: |r| <= i < |s| ==> s[i] == '0'
  {
    if s != "" && s[|s| - 1] == '0' then TrimRightZeros(s[..|s| - 1]) else s
  }

  lemma {:induction false} TrimLeftKeepsValue(s: string)
    requires AllDigits(s)
    ensures AllDigits(TrimLeftZeros(s)) && NatOf(TrimLeftZeros(s)) == NatOf(s)
  {
    if s != "" && s[0] == '0' {
      NatOfLeadingZero(s);
      TrimLeftKeepsValue(s[1..]);
    }
  }

  lemma {:induction false} TrimRightShifts(s: string)
    requires AllDigits(s)
    ensures AllDigits(TrimRightZeros(s))
    ensures NatOf(s) as real == Scale(NatOf(TrimRightZeros(s)) as real, |s| - |TrimRightZeros(s)|)
  {
    if s != "" && s[|s| - 1] == '0' {
      var t := s[..|s| - 1];
      TrimRightShifts(t);
      ScaleSplit(NatOf(TrimRightZeros(s)) as real, 1, |t| - |TrimRightZeros(t)|);
      assert NatOf(s) as real == 10.0 * NatOf(t) as real;
    }
  }

  lemma TrimRightKeepsValue(negative: bool, digits: string, exponent: int)
    requires AllDigits(digits)
    ensures AllDigits(TrimRightZeros(digits))
    ensures Denotes(negative, digits, exponent)
         == Denotes(negative, TrimRightZeros(digits), exponent + (|digits| - |TrimRightZeros(digits)|))
  {
    TrimRightShifts(digits);
    ScaleSplit(NatOf(TrimRightZeros(digits)) as real, exponent, |digits| - |TrimRightZeros(digits)|);
  }

  // ----- Cutting a token into its parts -----

  function MantissaOf(raw: string): string {
    raw[..IndexEither(raw, 'e', 'E')]
  }

  function ExponentOf(raw: string): string {
    var index := IndexEither(raw, 'e', 'E');
    if index < |raw| then raw[index + 1..] else "0"
  }

  function IntegerOf(mantissa: string): string {
    mantissa[..IndexEither(mantissa, '.', '.')]
  }

  function FractionOf(mantissa: string): string {
    var index := IndexEither(mantissa, '.', '.');
    if index < |mantissa| then mantissa[index + 1..] else ""
  }

  lemma CutBetween(front: string, rest: string, a: char, b: char)
    requires forall i :: 0 <= i < |front| ==> front[i] != a && front[i] != b
    requires rest == "" || rest[0] == a || rest[0] == b
    ensures var s := front + rest;
            IndexEither(s, a, b) == |front| && s[..|front|] == front && (rest != "" ==> s[|front| + 1..] == rest[1..])
  {
    IndexEitherIs(front + rest, a, b, |front|);
  }

  /** The grammar is unambiguous: cutting a literal's text gives back its parts. */
  lemma CutLiteral(lit: NumberLit)
    requires lit.WellFormed()
    ensures var raw := lit.Unsigned();
            && raw != "" && IsDigit(raw[0])
            && MantissaOf(raw) == lit.Mantissa() && ExponentOf(raw) == lit.ExponentText()
            && (IndexEither(raw, 'e', 'E') < |raw| <==> lit.exponent.Some?)
    ensures var m := lit.Mantissa();
            && IntegerOf(m) == lit.whole && FractionOf(m) == lit.FractionDigits()
            && (IndexEither(m, '.', '.') < |m| <==> lit.fraction.Some?)
  {
    CutMantissa(lit);
    CutExponent(lit);
  }

  lemma CutMantissa(lit: NumberLit)
    requires lit.WellFormed()
    ensures var m := lit.Mantissa();
            && m != "" && m[0] == lit.whole[0] && (forall i :: 0 <= i < |m| ==> m[i] != 'e' && m[i] != 'E')
            && IntegerOf(m) == lit.whole && FractionOf(m) == lit.FractionDigits()
            && (IndexEither(m, '.', '.') < |m| <==> lit.fraction.Some?)
  {
    CutBetween(lit.whole, if lit.fraction.Some? then "." + lit.fraction.value else "", '.', '.');
  }

  lemma CutExponent(lit: NumberLit)
    requires lit.WellFormed()
    ensures var raw := lit.Unsigned();
            && raw != "" && IsDigit(raw[0])
            && MantissaOf(raw) == lit.Mantissa() && ExponentOf(raw) == lit.ExponentText()
            && (IndexEither(raw, 'e', 'E') < |raw| <==> lit.exponent.Some?)
  {
    CutMantissa(lit);
    CutBetween(lit.Mantissa(), if lit.exponent.Some? then [lit.exponent.value.marker] + lit.ExponentText() else "", 'e', 'E');
  }

  lemma TrimSpaceIsIdentity(s: string)
    requires s != ""
    ensures TrimSpace(s) == s <==> !IsSpace(s[0]) && !IsSpace(s[|s| - 1])
  {
    var t := TrimLeftSpace(s);
    TrimRightShorter(t);
    if IsSpace(s[0]) {
      TrimLeftShorter(s[1..]);
    } else if IsSpace(s[|s| - 1]) {
      TrimRightShorter(s[..|s| - 1]);
    }
  }

  lemma {:induction false} TrimLeftShorter(s: string)
    ensures |TrimLeftSpace(s)| <= |s|
  {
    if s != "" && IsSpace(s[0]) { TrimLeftShorter(s[1..]); }
  }

  lemma {:induction false} TrimRightShorter(s: string)
    ensures |TrimRightSpace(s)| <= |s|
  {
    if s != "" && IsSpace(s[|s| - 1]) { TrimRightShorter(s[..|s| - 1]); }
  }

  lemma LiteralIsTrimmedJson(lit: NumberLit)
    requires lit.WellFormed()
    ensures lit.Text() != "" && TrimSpace(lit.Text()) == lit.Text() && Valid(lit.Text())
  {
    LiteralEnds(lit);
    TrimSpaceIsIdentity(lit.Text());
    var d := Doc("", Number(lit), "");
    assert d.pre == "" == d.post && RenderNode(d.node) == lit.Text() && WellFormedNode(d.node);
    assert Reads(d, lit.Text());
  }

  lemma ConcatEnds(a: string, b: string)
    requires b != ""
    ensures (a + b)[0] == (if a == "" then b[0] else a[0]) && (a + b)[|a + b| - 1] == b[|b| - 1]
  {
  }

  lemma LiteralEnds(lit: NumberLit)
    requires lit.WellFormed()
    ensures var text := lit.Text(); text != "" && !IsSpace(text[0]) && IsDigit(text[|text| - 1])
  {
    MantissaEnds(lit);
    UnsignedEnds(lit);
    ConcatEnds(if lit.negative then "-" else "", lit.Unsigned());
  }

  lemma UnsignedEnds(lit: NumberLit)
    requires lit.WellFormed()
    ensures var m, raw := lit.Mantissa(), lit.Unsigned();
            m != "" && IsDigit(m[|m| - 1]) ==> raw != "" && raw[0] == m[0] && IsDigit(raw[|raw| - 1])
  {
    var m := lit.Mantissa();
    if m != "" && lit.exponent.Some? {
      var e := lit.exponent.value;
      ConcatEnds(e.sign, e.digits);
      ConcatEnds([e.marker], lit.ExponentText());
      ConcatEnds(m, [e.marker] + lit.ExponentText());
    } else if m != "" {
      assert m + "" == m;
    }
  }

  lemma MantissaEnds(lit: NumberLit)
    requires lit.WellFormed()
    ensures var m := lit.Mantissa(); m != "" && IsDigit(m[0]) && IsDigit(m[|m| - 1])
  {
    if lit.fraction.Some? {
      ConcatEnds(".", lit.fraction.value);
      ConcatEnds(lit.whole, "." + lit.fraction.value);
    } else {
      assert lit.Mantissa() == lit.whole;
    }
  }

  lemma NodeStart(n: Node)
    requires WellFormedNode(n)
    ensures var s := RenderNode(n); s != "" && (n.Number? <==> s[0] == '-' || IsDigit(s[0]))
  {
    match n
    case Number(lit) => CutLiteral(lit);
    case _ =>
  }

  /** Among trimmed JSON texts, only numbers start with a digit or a minus sign. */
  lemma TrimmedJsonNumber(s: string)
    requires s != "" && TrimSpace(s) == s && Valid(s)
    requires s[0] == '-' || IsDigit(s[0])
    ensures IsNumber(s)
  {
    TrimSpaceIsIdentity(s);
    var d: Doc :| Reads(d, s);
    DocEnds(d);
    assert s == RenderNode(d.node);
    assert WellFormedNode(d.node) && RenderNode(d.node) == d.node.lit.Text();
  }

  lemma DocEnds(d: Doc)
    requires WellFormedDoc(d)
    ensures var s := Render(d);
            && s != "" && (d.pre != "" ==> IsSpace(s[0])) && (d.post != "" ==> IsSpace(s[|s| - 1]))
            && (d.pre == "" && (s[0] == '-' || IsDigit(s[0])) ==> d.node.Number?)
  {
    NodeStart(d.node);
    ConcatEnds(d.pre, RenderNode(d.node));
    if d.post != "" {
      ConcatEnds(d.pre + RenderNode(d.node), d.post);
    } else {
      assert Render(d) == d.pre + RenderNode(d.node);
    }
  }

  function Unsigned(number: string): string {
    if number != "" && number[0] == '-' then number[1..] else number
  }

  /** The checks of canonicalizeJSONNumber on a token without its sign. */
  predicate Cuts(raw: string) {
    && raw != "" && MantissaOf(raw) != "" && ParseInt(ExponentOf(raw)).Some?
    && CutsMantissa(MantissaOf(raw))
  }

  predicate CutsMantissa(m: string) {
    && IntegerOf(m) != "" && AllDigits(IntegerOf(m)) && AllDigits(FractionOf(m))
    && (IndexEither(m, '.', '.') < |m| ==> FractionOf(m) != "")
  }

  function CutValue(negative: bool, raw: string): real
    requires Cuts(raw)
  {
    var fraction := FractionOf(MantissaOf(raw));
    Denotes(negative, IntegerOf(MantissaOf(raw)) + fraction, ParseInt(ExponentOf(raw)).value - |fraction|)
  }

  ghost predicate Accepted(number: string) {
    number != "" && TrimSpace(number) == number && Valid(number) && Cuts(Unsigned(number))
  }

  /** They accept exactly the number grammar, and the pieces they cut denote the token's value. */
  lemma AcceptedIsNumber(number: string)
    ensures Accepted(number) <==> IsNumber(number)
  {
    if Accepted(number) { AcceptedStart(number); }
    if IsNumber(number) { NumberIsAccepted(number); }
  }

  lemma NumberIsAccepted(number: string)
    requires IsNumber(number)
    ensures Accepted(number) && ValueOf(number) == CutValue(number[0] == '-', Unsigned(number))
  {
    var lit: NumberLit :| lit.WellFormed() && lit.Text() == number && ValueOf(number) == Value(lit);
    LiteralIsAccepted(lit, number);
  }

  lemma AcceptedStart(number: string)
    requires Accepted(number)
    ensures IsNumber(number)
  {
    var raw := Unsigned(number);
    assert IntegerOf(MantissaOf(raw))[0] == raw[0];
    TrimmedJsonNumber(number);
  }

  lemma LiteralIsAccepted(lit: NumberLit, number: string)
    requires lit.WellFormed() && number == lit.Text()
    ensures Accepted(number) && lit.negative == (number[0] == '-')
    ensures Value(lit) == CutValue(lit.negative, Unsigned(number))
  {
    LiteralCuts(lit);
    UnsignedOfText(lit);
    LiteralIsTrimmedJson(lit);
  }

  lemma LiteralCuts(lit: NumberLit)
    requires lit.WellFormed()
    ensures Cuts(lit.Unsigned()) && CutValue(lit.negative, lit.Unsigned()) == Value(lit)
  {
    ValueOfPieces(lit);
    LiteralCutsPieces(lit);
  }

  lemma LiteralCutsPieces(lit: NumberLit)
    requires lit.WellFormed() && AllDigits(lit.whole + lit.FractionDigits()) && ParseInt(lit.ExponentText()).Some?
    ensures Cuts(lit.Unsigned())
    ensures CutValue(lit.negative, lit.Unsigned())
         == Denotes(lit.negative, lit.whole + lit.FractionDigits(), ParseInt(lit.ExponentText()).value - |lit.FractionDigits()|)
  {
    LiteralPieces(lit);
    PiecesMakeCuts(lit.Unsigned(), lit.Mantissa(), lit.ExponentText(), lit.whole, lit.FractionDigits(), lit.negative);
  }

  lemma LiteralPieces(lit: NumberLit)
    requires lit.WellFormed()
    ensures var raw, mantissa, exponent, fraction := lit.Unsigned(), lit.Mantissa(), lit.ExponentText(), lit.FractionDigits();
            && raw != "" && MantissaOf(raw) == mantissa && ExponentOf(raw) == exponent
            && mantissa != "" && IntegerOf(mantissa) == lit.whole && FractionOf(mantissa) == fraction
            && ParseInt(exponent).Some? && lit.whole != "" && AllDigits(lit.whole) && AllDigits(fraction)
            && (IndexEither(mantissa, '.', '.') < |mantissa| ==> fraction != "")
  {
    CutMantissa(lit);
    CutExponent(lit);
    ExponentParses(lit);
  }

  lemma ValueOfPieces(lit: NumberLit)
    requires lit.WellFormed()
    ensures AllDigits(lit.whole + lit.FractionDigits()) && ParseInt(lit.ExponentText()).Some?
    ensures Value(lit) == Denotes(lit.negative, lit.whole + lit.FractionDigits(), ParseInt(lit.ExponentText()).value - |lit.FractionDigits()|)
  {
    AllDigitsConcat(lit.whole, lit.FractionDigits());
    ExponentParses(lit);
  }

  lemma ExponentParses(lit: NumberLit)
    requires lit.WellFormed()
    ensures ParseInt(lit.ExponentText()) == Some(Power(lit.exponent))
  {
    if lit.exponent.Some? {
      ParseSigned(lit.exponent.value.sign, lit.exponent.value.digits);
    } else {
      assert NatOf("0") == 0;
    }
  }

  lemma PiecesMakeCuts(raw: string, mantissa: string, exponent: string, whole: string, fraction: string, negative: bool)
    requires raw != "" && MantissaOf(raw) == mantissa && ExponentOf(raw) == exponent
    requires mantissa != "" && IntegerOf(mantissa) == whole && FractionOf(mantissa) == fraction
    requires ParseInt(exponent).Some? && whole != "" && AllDigits(whole) && AllDigits(fraction)
    requires IndexEither(mantissa, '.', '.') < |mantissa| ==> fraction != ""
    ensures Cuts(raw) && CutValue(negative, raw) == Denotes(negative, whole + fraction, ParseInt(exponent).value - |fraction|)
  {
    AllDigitsConcat(whole, fraction);
    MantissaCuts(mantissa, whole, fraction);
    SamePieces(negative, IntegerOf(MantissaOf(raw)), FractionOf(MantissaOf(raw)), whole, fraction, ParseInt(exponent).value);
  }

  lemma MantissaCuts(mantissa: string, whole: string, fraction: string)
    requires mantissa != "" && IntegerOf(mantissa) == whole && FractionOf(mantissa) == fraction
    requires whole != "" && AllDigits(whole) && AllDigits(fraction)
    requires IndexEither(mantissa, '.', '.') < |mantissa| ==> fraction != ""
    ensures CutsMantissa(mantissa)
  {
  }

  lemma SamePieces(negative: bool, a: string, b: string, whole: string, fraction: string, exponent: int)
    requires a == whole && b == fraction && AllDigits(whole + fraction)
    ensures AllDigits(a + b) && Denotes(negative, a + b, exponent - |b|) == Denotes(negative, whole + fraction, exponent - |fraction|)
  {
  }

  lemma UnsignedOfText(lit: NumberLit)
    requires lit.WellFormed()
    ensures lit.Text() != "" && Unsigned(lit.Text()) == lit.Unsigned() && lit.negative == (lit.Text()[0] == '-')
  {
    CutLiteral(lit);
    var raw := lit.Unsigned();
    if lit.negative {
      assert ("-" + raw)[1..] == raw;
    } else {
      assert "" + raw == raw;
    }
  }

  // ----- canonicalizeJSONNumber and jsonNumbersEqual -----

  function Reduced(negative: bool, digits: string, exponent: int): Canonical {
    var left := TrimLeftZeros(digits);
    var both := TrimRightZeros(left);
    if left == "" then Canonical(false, "0", 0) else Canonical(negative, both, exponent + (|left| - |both|))
  }

  /** Moving zeros out of the coefficient gives the normal form of the same value. */
  lemma ReducedIsNormal(negative: bool, digits: string, exponent: int)
    requires AllDigits(digits)
    ensures Reduced(negative, digits, exponent).Normal()
    ensures Reduced(negative, digits, exponent).Value() == Denotes(negative, digits, exponent)
  {
    var left := TrimLeftZeros(digits);
    TrimLeftKeepsValue(digits);
    if left == "" {
      ScaleKeepsSign(0.0, exponent);
    } else {
      TrimRightKeepsValue(negative, left, exponent);
      assert TrimRightZeros(left) != "" && TrimRightZeros(left)[0] == left[0];
    }
  }

  lemma CutsReduce(negative: bool, raw: string, whole: string, fraction: string, exponent: int) returns (c: Canonical)
    requires Cuts(raw) && ParseInt(ExponentOf(raw)) == Some(exponent)
    requires whole == IntegerOf(MantissaOf(raw)) && fraction == FractionOf(MantissaOf(raw))
    ensures c == Reduced(negative, whole + fraction, exponent - |fraction|)
    ensures c.Normal() && c.Value() == CutValue(negative, raw)
  {
    c := Reduced(negative, whole + fraction, exponent - |fraction|);
    AllDigitsConcat(whole, fraction);
    ReducedIsNormal(negative, whole + fraction, exponent - |fraction|);
  }

  /** The whole part, the fraction and the exponent of an unsigned token. */
  method CutToken(raw: string) returns (parts: Option<(string, string, int)>)
    ensures parts.Some? <==> Cuts(raw)
    ensures parts.Some? ==> parts.value.0 == IntegerOf(MantissaOf(raw)) && parts.value.1 == FractionOf(MantissaOf(raw))
    ensures parts.Some? ==> ParseInt(ExponentOf(raw)) == Some(parts.value.2)
  {
    var mantissa, exponentText := raw, "0";
    var index := IndexEither(raw, 'e', 'E');
    if index < |raw| {
      mantissa, exponentText := raw[..index], raw[index + 1..];
      if mantissa == "" || exponentText == "" {
        return None;
      }
    }
    assert mantissa == MantissaOf(raw) && exponentText == ExponentOf(raw);
    var exponent := ParseInt(exponentText);
    if exponent == None {
      return None;
    }
    var integerPart, fractionPart := mantissa, "";
    index := IndexEither(mantissa, '.', '.');
    if index < |mantissa| {
      integerPart, fractionPart := mantissa[..index], mantissa[index + 1..];
      if integerPart == "" || fractionPart == "" {
        return None;
      }
    }
    assert integerPart == IntegerOf(mantissa) && fractionPart == FractionOf(mantissa);
    if integerPart == "" || !AllDigits(integerPart) || !AllDigits(fractionPart) {
      return None;
    }
    return Some((integerPart, fractionPart, exponent.value));
  }

  /** canonicalizeJSONNumber after the sign: cut the token, then move zeros into the exponent. */
  method CanonicalizeUnsigned(negative: bool, raw: string) returns (canonical: Canonical, ok: bool)
    ensures ok <==> Cuts(raw)
    ensures ok ==> canonical.Normal() && canonical.Value() == CutValue(negative, raw)
  {
    var parts := CutToken(raw);
    if parts == None {
      return Canonical(false, "", 0), false;
    }
    var (integerPart, fractionPart, exponent) := parts.value;
    ghost var c := CutsReduce(negative, raw, integerPart, fractionPart, exponent);
    var digits := integerPart + fractionPart;
    digits := TrimLeftZeros(digits);
    if digits == "" {
      return Canonical(false, "0", 0), true;
    }
    exponent := exponent - |fractionPart|;
    var trimmed := TrimRightZeros(digits);
    var trailingZeros := |digits| - |trimmed|;
    digits := trimmed;
    exponent := exponent + trailingZeros;
    return Canonical(negative, digits, exponent), true;
  }

  /** `jsonValid` stands for json.Valid, which accepts exactly the texts of RFC 8259. */
  method CanonicalizeJsonNumber(number: string, jsonValid: string -> bool) returns (canonical: Canonical, ok: bool)
    requires forall s :: jsonValid(s) <==> Valid(s)
    ensures ok <==> IsNumber(number)
    ensures ok ==> canonical.Normal() && canonical.Value() == ValueOf(number)
  {
    AcceptedIsNumber(number);
    if IsNumber(number) { NumberIsAccepted(number); }
    canonical, ok := Canonical(false, "", 0), false;
    var raw := number;
    if raw == "" || TrimSpace(raw) != raw || !jsonValid(raw) {
      return;
    }
    var negative := false;
    if raw[0] == '-' {
      negative := true;
      raw := raw[1..];
      if raw == "" {
        return;
      }
    }
    canonical, ok := CanonicalizeUnsigned(negative, raw);
  }

  method JsonNumbersEqual(baseline: string, current: string, jsonValid: string -> bool) returns (equal: bool)
    requires forall s :: jsonValid(s) <==> Valid(s)
    ensures equal <==> SameNumber(baseline, current)
  {
    if baseline == current {
      return true;
    }
    var baselineCanonical, baselineOk := CanonicalizeJsonNumber(baseline, jsonValid);
    var currentCanonical, currentOk := CanonicalizeJsonNumber(current, jsonValid);
    if !baselineOk || !currentOk {
      return baseline == current;
    }
    if baselineCanonical.Value() == currentCanonical.Value() {
      NormalFormsAreUnique(baselineCanonical, currentCanonical);
    }
    return baselineCanonical == currentCanonical;
  }
}
