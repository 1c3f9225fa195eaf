/** specifier.py: an Expression is an operator and a bound version; a
    Specifier is a comma-separated conjunction of expressions. */
module Specifiers {
  import opened Wrappers
  import opened Strings
  import Flags
  import Patterns
  import opened Utils
  import opened SemanticVersions
  import VersionOrder
  import Stringify

  /** The Expression dataclass. */
  datatype Expression = Expression(operator: Flags.Operator, version: SemanticVersion)

  /** The Specifier dataclass. */
  datatype Specifier = Specifier(expressions: seq<Expression>)

  /** The six comparison methods of SemanticVersion, for `simple_eval`. */
  const VersionComparisons: Comparisons<SemanticVersion> := Comparisons(Eq, Ne, Lt, Le, Gt, Ge)

  // -----------------------------------------------------------------------
  // Expression

  /** `Expression.parse`: match EXPRESSION_PATTERN, convert the operator
      group with `Operator(...)` and parse the version group. */
  function ParseExpression(s: string): (r: Result<Expression>)
    ensures r.Success? ==>
      && Flags.Value(r.value.operator) <= s
      && ParseVersion(s[|Flags.Value(r.value.operator)|..]) == Success(r.value.version)
    ensures r.Failure? ==> r.error == NoExpressionMatch(s)
  {
    match Patterns.MatchExpression(s)
    case None => Failure(NoExpressionMatch(s))
    case Some((token, text)) =>
      Patterns.OperatorPatternCoversOperators();
      assert exists i :: 0 <= i < |Patterns.OperatorPattern()| && Patterns.OperatorPattern()[i] == token;
      match Flags.FromValue(token)
      case Failure(e) => Failure(e)
      case Success(op) =>
        assert s[|Flags.Value(op)|..] == text;
        match ParseVersion(text)
        case Failure(e) => Failure(e)
        case Success(v) => Success(Expression(op, v))
  }

  /** An operator token followed by a valid version parses to that operator
      and that version. */
  lemma ParseExpressionExact(s: string, op: Flags.Operator)
    requires Flags.Value(op) <= s && Validate(s[|Flags.Value(op)|..])
    ensures ParseExpression(s) == Success(Expression(op, ParseVersion(s[|Flags.Value(op)|..]).value))
  {
    Patterns.MatchExpressionExact(s, op);
    Flags.FromValueOfValue(op);
  }

  /** Every other text fails to parse. */
  lemma ParseExpressionFails(s: string)
    requires forall op: Flags.Operator :: !(Flags.Value(op) <= s && Validate(s[|Flags.Value(op)|..]))
    ensures ParseExpression(s) == Failure(NoExpressionMatch(s))
  {
    Patterns.MatchExpressionNone(s);
  }

  /** `Expression.complies`: `~=` asks for `>=` and `==`, `===` raises
      NotImplementedError, and the other six go to `simple_eval` with the
      version on the left and the bound on the right. */
  function Complies(e: Expression, v: SemanticVersion): (r: Result<bool>)
    ensures r.Failure? <==> e.operator.ArbitraryEqual?
    ensures r.Failure? ==> r.error == NotImplemented
  {
    match e.operator
    case Compatible => Success(Ge(v, e.version) && Eq(v, e.version))
    case ArbitraryEqual => Failure(NotImplemented)
    case _ => SimpleEval(e.operator, VersionComparisons, v, e.version)
  }

  /** The six simple operators are the SemanticVersion relations. */
  lemma CompliesRelations(e: Expression, v: SemanticVersion)
    ensures e.operator.Equal? ==> Complies(e, v) == Success(v == e.version)
    ensures e.operator.NotEqual? ==> Complies(e, v) == Success(v != e.version)
    ensures e.operator.Less? ==> Complies(e, v) == Success(Lt(v, e.version))
    ensures e.operator.LessEqual? ==> Complies(e, v) == Success(Lt(v, e.version) || v == e.version)
    ensures e.operator.Greater? ==> Complies(e, v) == Success(!Lt(v, e.version) && v != e.version)
    ensures e.operator.GreaterEqual? ==> Complies(e, v) == Success(!Lt(v, e.version))
  {
  }

  /** `~=` complies exactly when the version equals the bound. */
  lemma CompatibleIsEquality(e: Expression, v: SemanticVersion)
    requires e.operator.Compatible?
    ensures Complies(e, v) == Success(v == e.version)
  {
    VersionOrder.LtIrreflexive(v);
  }

  // -----------------------------------------------------------------------
  // Specifier

  /** Every piece of a split specifier is a valid expression. */
  predicate AllParse(pieces: seq<string>)
  {
    forall i :: 0 <= i < |pieces| ==> ParseExpression(pieces[i]).Success?
  }

  /** `Specifier.parse`: split on "," and parse every piece, the first
      failure propagating. */
  function ParseSpecifier(s: string): (r: Result<Specifier>)
    ensures r.Success? ==> |r.value.expressions| == |Split(s, ',')| > 0
    ensures r.Success? <==> AllParse(Split(s, ','))
    ensures r.Success? ==> forall i :: 0 <= i < |Split(s, ',')| ==>
      ParseExpression(Split(s, ',')[i]) == Success(r.value.expressions[i])
  {
    var pieces := Split(s, ',');
    var parsed := MapResult(ParseExpression, pieces);
    MapResultSucceeds(ParseExpression, pieces);
    assert parsed.Success? <==> AllParse(pieces);
    if parsed.Success? then Success(Specifier(parsed.value)) else Failure(parsed.error)
  }

  /** A failing specifier raises the error of its first piece that does
      not parse, which is NoExpressionMatch of that piece. */
  lemma ParseSpecifierFirstFailure(s: string, i: nat)
    requires i < |Split(s, ',')| && ParseExpression(Split(s, ',')[i]).Failure?
    requires forall j :: 0 <= j < i ==> ParseExpression(Split(s, ',')[j]).Success?
    ensures ParseSpecifier(s) == Failure(NoExpressionMatch(Split(s, ',')[i]))
  {
    MapResultFirstFailure(ParseExpression, Split(s, ','), i);
  }

  /** The empty text is not a specifier: its one piece matches no expression. */
  lemma EmptySpecifierFails()
    ensures ParseSpecifier("") == Failure(NoExpressionMatch(""))
  {
    assert Split("", ',') == [""];
    forall op: Flags.Operator ensures !(Flags.Value(op) <= "") {
    }
    ParseExpressionFails("");
  }

  /** `Specifier.complies`: `all(...)` over the expressions, left to right;
      the first False ends the evaluation, a raised error propagates, and
      no expression at all complies. */
  function AllComply(es: seq<Expression>, v: SemanticVersion): (r: Result<bool>)
    ensures r == Success(true) <==> forall i :: 0 <= i < |es| ==> Complies(es[i], v) == Success(true)
    decreases |es|
  {
    if es == [] then Success(true)
    else
      match Complies(es[0], v)
      case Failure(e) => Failure(e)
      case Success(false) => Success(false)
      case Success(true) =>
        var rest := AllComply(es[1..], v);
        assert forall i :: 1 <= i < |es| ==> es[i] == es[1..][i - 1];
        if rest == Success(true) then rest
        else
          assert exists i :: 1 <= i < |es| && Complies(es[i], v) != Success(true) by {
            var j :| 0 <= j < |es[1..]| && Complies(es[1..][j], v) != Success(true);
            assert es[j + 1] == es[1..][j];
          }
          rest
  }

  function SpecifierComplies(spec: Specifier, v: SemanticVersion): (r: Result<bool>)
    ensures r == Success(true) <==> forall i :: 0 <= i < |spec.expressions| ==> Complies(spec.expressions[i], v) == Success(true)
  {
    AllComply(spec.expressions, v)
  }

  /** Evaluation stops at the first expression that does not hold: what
      follows it, even a `===`, is never evaluated. */
  lemma {:induction false} ShortCircuit(es: seq<Expression>, v: SemanticVersion, i: nat)
    requires i < |es| && Complies(es[i], v) == Success(false)
    requires forall j :: 0 <= j < i ==> Complies(es[j], v) == Success(true)
    ensures AllComply(es, v) == Success(false)
    decreases i
  {
    if i > 0 {
      assert forall j :: 0 <= j < i - 1 ==> es[1..][j] == es[j + 1];
      ShortCircuit(es[1..], v, i - 1);
    }
  }

  lemma SplitTwo(s1: string, s2: string)
    requires ',' !in s1 && ',' !in s2
    ensures Split(s1 + "," + s2, ',') == [s1, s2]
  {
    assert Join([s1, s2], ',') == s1 + "," + s2 by {
      assert [s1, s2][1..] == [s2];
    }
    SplitJoin([s1, s2], ',');
  }

  lemma ComplyTwo(e1: Expression, e2: Expression, v: SemanticVersion)
    requires !e1.operator.ArbitraryEqual? && !e2.operator.ArbitraryEqual?
    ensures AllComply([e1, e2], v) == Success(Complies(e1, v).value && Complies(e2, v).value)
  {
    assert [e1, e2][1..] == [e2];
    assert [e2][1..] == [];
  }

  /** Two comma-separated expressions form their conjunction. */
  lemma Conjunction(s1: string, s2: string, v: SemanticVersion)
    requires ',' !in s1 && ',' !in s2
    requires ParseExpression(s1).Success? && ParseExpression(s2).Success?
    requires !ParseExpression(s1).value.operator.ArbitraryEqual?
    requires !ParseExpression(s2).value.operator.ArbitraryEqual?
    ensures var e1, e2 := ParseExpression(s1).value, ParseExpression(s2).value;
      && ParseSpecifier(s1 + "," + s2) == Success(Specifier([e1, e2]))
      && SpecifierComplies(Specifier([e1, e2]), v)
         == Success(Complies(e1, v).value && Complies(e2, v).value)
  {
    SplitTwo(s1, s2);
    MapResultPair(ParseExpression, s1, s2);
    ComplyTwo(ParseExpression(s1).value, ParseExpression(s2).value, v);
  }

  // -----------------------------------------------------------------------
  // the specifiers the tests evaluate

  /** A specifier without a comma is its one expression. */
  lemma SingleExpression(s: string)
    requires ',' !in s && ParseExpression(s).Success?
    ensures ParseSpecifier(s) == Success(Specifier([ParseExpression(s).value]))
  {
    assert Join([s], ',') == s;
    SplitJoin([s], ',');
    MapResultSucceeds(ParseExpression, [s]);
    var r := MapResult(ParseExpression, [s]);
    assert ParseExpression([s][0]) == Success(r.value[0]);
    assert r.value == [r.value[0]];
  }

  /** "1.2.1" parses to `SemanticVersion(1, 2, 1)`. */
  lemma ParseOneTwoOne()
    ensures ParseVersion("1.2.1") == Success(SemanticVersion(1, Some(2), Some(1)))
  {
    var v := SemanticVersion(1, Some(2), Some(1));
    Stringify.CanonicalDot(v);
    assert NatToString(1) == "1" && NatToString(2) == "2";
    assert Stringify.CoreNumbers(v) == [2, 1];
    assert Stringify.Strs(Stringify.CoreNumbers(v)) == ["2", "1"];
    Stringify.Dotted2("2", "1");
    assert "1" + ("." + "2" + "." + "1") + [] + [] + [] == "1.2.1";
    Stringify.CanonicalRoundTrip(v);
  }

  /** An operator token followed by "1.2.1" is the specifier of that one
      expression. */
  lemma BoundOneTwoOne(op: Flags.Operator, s: string)
    requires s == Flags.Value(op) + "1.2.1"
    ensures ParseSpecifier(s) == Success(Specifier([Expression(op, SemanticVersion(1, Some(2), Some(1)))]))
  {
    BoundExpression(op, s);
    BoundNoComma(op);
    SingleExpression(s);
  }

  lemma BoundExpression(op: Flags.Operator, s: string)
    requires s == Flags.Value(op) + "1.2.1"
    ensures ParseExpression(s) == Success(Expression(op, SemanticVersion(1, Some(2), Some(1))))
  {
    assert s[|Flags.Value(op)|..] == "1.2.1";
    ParseOneTwoOne();
    ParseExpressionExact(s, op);
  }

  lemma BoundNoComma(op: Flags.Operator)
    ensures ',' !in Flags.Value(op) + "1.2.1"
  {
    Flags.TokenChars(op);
    assert ',' !in "1.2.1";
    NoComma(Flags.Value(op), "1.2.1");
  }

  lemma NoComma(t: string, u: string)
    requires ',' !in t && ',' !in u
    ensures ',' !in t + u
  {
    assert forall i :: 0 <= i < |t| ==> (t + u)[i] == t[i];
    assert forall i :: |t| <= i < |t + u| ==> (t + u)[i] == u[i - |t|];
  }

  /** A specifier of one expression complies as that expression does. */
  lemma ComplyOne(e: Expression, v: SemanticVersion)
    requires !e.operator.ArbitraryEqual?
    ensures SpecifierComplies(Specifier([e]), v) == Complies(e, v)
  {
    assert [e][1..] == [];
  }

  /** The candidates of the tests as they order against 1.2.1: 1.2.3 above,
      and 1.2.0, whose zero patch counts as missing, above as well. */
  lemma CandidatesAgainstBound()
    ensures var b := SemanticVersion(1, Some(2), Some(1));
      var v0, v3 := SemanticVersion(1, Some(2), Some(0)), SemanticVersion(1, Some(2), Some(3));
      && Lt(b, v3) && !Lt(v3, b) && v3 != b
      && Lt(b, v0) && !Lt(v0, b) && v0 != b
  {
    var b := SemanticVersion(1, Some(2), Some(1));
    var v3 := SemanticVersion(1, Some(2), Some(3));
    VersionOrder.PatchDecides(b, v3);
    VersionOrder.LtAsymmetric(b, v3);
    VersionOrder.ZeroPatchAboveOne();
  }

  /** ">1.2.1" admits 1.2.3, and 1.2.0 as well, where the test expects it
      to be refused. */
  lemma GreaterExamples()
    ensures var spec := Specifier([Expression(Flags.Greater, SemanticVersion(1, Some(2), Some(1)))]);
      && ParseSpecifier(">1.2.1") == Success(spec)
      && SpecifierComplies(spec, SemanticVersion(1, Some(2), Some(3))) == Success(true)
      && SpecifierComplies(spec, SemanticVersion(1, Some(2), Some(0))) == Success(true)
  {
    var e := Expression(Flags.Greater, SemanticVersion(1, Some(2), Some(1)));
    BoundOneTwoOne(Flags.Greater, ">1.2.1");
    CandidatesAgainstBound();
    CompliesRelations(e, SemanticVersion(1, Some(2), Some(3)));
    ComplyOne(e, SemanticVersion(1, Some(2), Some(3)));
    CompliesRelations(e, SemanticVersion(1, Some(2), Some(0)));
    ComplyOne(e, SemanticVersion(1, Some(2), Some(0)));
  }

  /** "<1.2.1" refuses 1.2.3, and 1.2.0 as well, where the test expects it
      to be admitted. */
  lemma LessExamples()
    ensures var spec := Specifier([Expression(Flags.Less, SemanticVersion(1, Some(2), Some(1)))]);
      && ParseSpecifier("<1.2.1") == Success(spec)
      && SpecifierComplies(spec, SemanticVersion(1, Some(2), Some(3))) == Success(false)
      && SpecifierComplies(spec, SemanticVersion(1, Some(2), Some(0))) == Success(false)
  {
    var e := Expression(Flags.Less, SemanticVersion(1, Some(2), Some(1)));
    BoundOneTwoOne(Flags.Less, "<1.2.1");
    CandidatesAgainstBound();
    CompliesRelations(e, SemanticVersion(1, Some(2), Some(3)));
    ComplyOne(e, SemanticVersion(1, Some(2), Some(3)));
    CompliesRelations(e, SemanticVersion(1, Some(2), Some(0)));
    ComplyOne(e, SemanticVersion(1, Some(2), Some(0)));
  }

  /** "==1.2.1" admits 1.2.1 and refuses 1.2.3. */
  lemma EqualExamples()
    ensures var spec := Specifier([Expression(Flags.Equal, SemanticVersion(1, Some(2), Some(1)))]);
      && ParseSpecifier("==1.2.1") == Success(spec)
      && SpecifierComplies(spec, SemanticVersion(1, Some(2), Some(1))) == Success(true)
      && SpecifierComplies(spec, SemanticVersion(1, Some(2), Some(3))) == Success(false)
  {
    var e := Expression(Flags.Equal, SemanticVersion(1, Some(2), Some(1)));
    BoundOneTwoOne(Flags.Equal, "==1.2.1");
    CompliesRelations(e, SemanticVersion(1, Some(2), Some(1)));
    ComplyOne(e, SemanticVersion(1, Some(2), Some(1)));
    CompliesRelations(e, SemanticVersion(1, Some(2), Some(3)));
    ComplyOne(e, SemanticVersion(1, Some(2), Some(3)));
  }
}
