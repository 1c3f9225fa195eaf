/** The `Operator` enumeration: eight comparison operators, each backed by
    its token string. */
module Flags {
  import opened Wrappers

  /** EQ, NE, LT, LE, GT, GE, COMPATIBLE and ARBITRAIR_EQ, in declaration order. */
  datatype Operator =
    | Equal | NotEqual | Less | LessEqual | Greater | GreaterEqual
    | Compatible | ArbitraryEqual

  /** The members in declaration order, as iterating the enumeration gives them. */
  const AllOperators: seq<Operator> :=
    [Equal, NotEqual, Less, LessEqual, Greater, GreaterEqual, Compatible, ArbitraryEqual]

  /** `operator.value`: the token string of a member. */
  function Value(op: Operator): (token: string)
    ensures 0 < |token| <= 3
  {
    match op
    case Equal => "=="
    case NotEqual => "!="
    case Less => "<"
    case LessEqual => "<="
    case Greater => ">"
    case GreaterEqual => ">="
    case Compatible => "~="
    case ArbitraryEqual => "==="
  }

  /** The characters tokens are made of; none of them is a digit. */
  predicate IsOperatorChar(c: char) {
    c in "=!<>~"
  }

  /** `Operator(token)`: lookup by value, which raises ValueError for a string
      that is no member's value. */
  function FromValue(token: string): (r: Result<Operator>)
    ensures r.Success? ==> Value(r.value) == token
    ensures r.Failure? ==> r.error == UnknownOperator(token) && forall op :: Value(op) != token
  {
    if token == "==" then Success(Equal)
    else if token == "!=" then Success(NotEqual)
    else if token == "<" then Success(Less)
    else if token == "<=" then Success(LessEqual)
    else if token == ">" then Success(Greater)
    else if token == ">=" then Success(GreaterEqual)
    else if token == "~=" then Success(Compatible)
    else if token == "===" then Success(ArbitraryEqual)
    else Failure(UnknownOperator(token))
  }

  /** Looking a member up by its own value gives the member back. */
  lemma FromValueOfValue(op: Operator)
    ensures FromValue(Value(op)) == Success(op)
  {
  }

  /** Distinct members have distinct tokens (in particular `==` and `===`). */
  lemma ValuesDistinct(op1: Operator, op2: Operator)
    ensures Value(op1) == Value(op2) <==> op1 == op2
  {
    FromValueOfValue(op1);
    FromValueOfValue(op2);
  }

  /** The enumeration has exactly eight members, listed once each. */
  lemma EightOperators()
    ensures |AllOperators| == 8
    ensures forall op: Operator :: op in AllOperators
    ensures forall i, j :: 0 <= i < j < |AllOperators| ==> AllOperators[i] != AllOperators[j]
  {
    forall op: Operator ensures op in AllOperators {
      match op
      case Equal => assert AllOperators[0] == op;
      case NotEqual => assert AllOperators[1] == op;
      case Less => assert AllOperators[2] == op;
      case LessEqual => assert AllOperators[3] == op;
      case Greater => assert AllOperators[4] == op;
      case GreaterEqual => assert AllOperators[5] == op;
      case Compatible => assert AllOperators[6] == op;
      case ArbitraryEqual => assert AllOperators[7] == op;
    }
  }

  /** Every token is made of operator characters only, so it holds no digit. */
  lemma TokenChars(op: Operator)
    ensures forall i :: 0 <= i < |Value(op)| ==> IsOperatorChar(Value(op)[i])
  {
  }
}
