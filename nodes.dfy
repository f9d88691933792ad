/**
 * The formula tree and its rendering as a Python expression (lab_3/src/pnf_contructor/nodes.py).
 * A node keeps the operator token it was built from; `to_python` renders the operands first and
 * then looks the operator's type up, raising ValueError for a type it does not know.
 */
module Nodes {
  import opened Wrappers
  import opened Language

  datatype Node =
    | VariableNode(name: string)
    | UnaryOperationNode(opr: Token, opd: Node)
    | BinaryOperationNode(leftOpd: Node, opr: Token, rightOpd: Node)

  /** The operator types each node kind can render. */
  predicate KnownUnary(kind: TokenType) { kind == Not }

  predicate KnownBinary(kind: TokenType) { kind in {And, Or, Imp, Equ} }

  /** `to_python` */
  function ToPython(n: Node): (r: Result<string, string>)
  {
    match n
    case VariableNode(name) => Ok(name)
    case UnaryOperationNode(opr, opd) =>
      (match ToPython(opd)
       case Err(e) => Err(e)
       case Ok(x) =>
         if opr.kind == Not then Ok("(not " + x + ")") else Err("Unknown unary operator"))
    case BinaryOperationNode(left, opr, right) =>
      match ToPython(left)
      case Err(e) => Err(e)
      case Ok(x) =>
        match ToPython(right)
        case Err(e) => Err(e)
        case Ok(y) =>
          match opr.kind
          case And => Ok("(" + x + " and " + y + ")")
          case Or => Ok("(" + x + " or " + y + ")")
          case Imp => Ok("(not " + x + " or " + y + ")")
          case Equ => Ok("(" + x + " == " + y + ")")
          case _ => Err("Unknown binary operator")
  }

  /** Every operator in the tree is one its node kind knows. */
  predicate KnownOperators(n: Node)
  {
    match n
    case VariableNode(_) => true
    case UnaryOperationNode(opr, opd) => KnownOperators(opd) && KnownUnary(opr.kind)
    case BinaryOperationNode(left, opr, right) =>
      KnownOperators(left) && KnownOperators(right) && KnownBinary(opr.kind)
  }

  /** The message for the first unknown operator met in post-order (operands before their node). */
  function FirstUnknown(n: Node): Option<string>
  {
    match n
    case VariableNode(_) => None
    case UnaryOperationNode(opr, opd) =>
      if FirstUnknown(opd).Some? then FirstUnknown(opd)
      else if !KnownUnary(opr.kind) then Some("Unknown unary operator")
      else None
    case BinaryOperationNode(left, opr, right) =>
      if FirstUnknown(left).Some? then FirstUnknown(left)
      else if FirstUnknown(right).Some? then FirstUnknown(right)
      else if !KnownBinary(opr.kind) then Some("Unknown binary operator")
      else None
  }

  /** The variable names, in reading order. */
  function Names(n: Node): seq<string>
  {
    match n
    case VariableNode(name) => [name]
    case UnaryOperationNode(_, opd) => Names(opd)
    case BinaryOperationNode(left, _, right) => Names(left) + Names(right)
  }

  /**
   * Rendering fails exactly when some operator is unknown, with the ValueError of the first
   * such operator in post-order.
   */
  lemma {:induction false} ToPythonFails(n: Node)
    ensures ToPython(n).Err? <==> !KnownOperators(n)
    ensures ToPython(n).Err? ==> FirstUnknown(n) == Some(ToPython(n).error)
    ensures FirstUnknown(n).None? <==> KnownOperators(n)
  {
    match n
    case VariableNode(_) =>
    case UnaryOperationNode(_, opd) =>
      ToPythonFails(opd);
    case BinaryOperationNode(left, _, right) =>
      ToPythonFails(left);
      ToPythonFails(right);
  }

  /** Opening minus closing parentheses in s. */
  function Depth(s: string): int
  {
    if |s| == 0 then 0
    else Depth(s[..|s| - 1]) + (if s[|s| - 1] == '(' then 1 else if s[|s| - 1] == ')' then -1 else 0)
  }

  lemma {:induction false} DepthAppend(a: string, b: string)
    ensures Depth(a + b) == Depth(a) + Depth(b)
    decreases |b|
  {
    if |b| > 0 {
      assert (a + b)[..|a + b| - 1] == a + b[..|b| - 1];
      DepthAppend(a, b[..|b| - 1]);
    } else {
      assert a + b == a;
    }
  }

  /** The names contain no parenthesis. */
  predicate PlainNames(n: Node)
  {
    forall i | 0 <= i < |Names(n)| :: '(' !in Names(n)[i] && ')' !in Names(n)[i]
  }

  lemma {:induction false} DepthPlain(s: string)
    requires '(' !in s && ')' !in s
    ensures Depth(s) == 0
    decreases |s|
  {
    if |s| > 0 {
      DepthPlain(s[..|s| - 1]);
    }
  }

  /**
   * The rendering of a tree whose variable names hold no parenthesis has as many opening as
   * closing parentheses, and an operator node's rendering is wrapped in parentheses.
   */
  lemma {:induction false} ToPythonBalanced(n: Node)
    requires PlainNames(n) && ToPython(n).Ok?
    ensures Depth(ToPython(n).value) == 0
    ensures !n.VariableNode? ==> ToPython(n).value[0] == '(' && ToPython(n).value[|ToPython(n).value| - 1] == ')'
  {
    match n
    case VariableNode(name) =>
      assert Names(n)[0] == name;
      DepthPlain(name);
    case UnaryOperationNode(_, opd) =>
      assert Names(opd) == Names(n);
      ToPythonBalanced(opd);
      var x := ToPython(opd).value;
      assert ToPython(n).value == "(not " + x + "" + "" + ")";
      Wrapped("(not ", x, "", "");
      DepthPlain("");
    case BinaryOperationNode(left, opr, right) =>
      PlainParts(left, opr, right);
      ToPythonBalanced(left);
      ToPythonBalanced(right);
      var x := ToPython(left).value;
      var y := ToPython(right).value;
      var (pre, mid) := match opr.kind
        case And => ("(", " and ")
        case Or => ("(", " or ")
        case Imp => ("(not ", " or ")
        case _ => ("(", " == ");
      assert ToPython(n).value == pre + x + mid + y + ")";
      Wrapped(pre, x, mid, y);
  }

  /** The depth of `pre + x + mid + y + ")"` for the prefixes and infixes `to_python` uses. */
  lemma Wrapped(pre: string, x: string, mid: string, y: string)
    requires pre in {"(", "(not "} && mid in {"", " and ", " or ", " == "}
    ensures Depth(pre + x + mid + y + ")") == Depth(x) + Depth(y)
  {
    DepthAppend(pre + x + mid + y, ")");
    DepthAppend(pre + x + mid, y);
    DepthAppend(pre + x, mid);
    DepthAppend(pre, x);
    DepthPlain(mid);
    assert "(not " == "(" + "not ";
    DepthAppend("(", "not ");
    DepthPlain("not ");
    assert Depth("(") == 1;
  }

  lemma PlainParts(left: Node, opr: Token, right: Node)
    requires PlainNames(BinaryOperationNode(left, opr, right))
    ensures PlainNames(left) && PlainNames(right)
  {
    var ns := Names(BinaryOperationNode(left, opr, right));
    assert forall i | 0 <= i < |Names(left)| :: Names(left)[i] == ns[i];
    assert forall i | 0 <= i < |Names(right)| :: Names(right)[i] == ns[|Names(left)| + i];
  }

  /** The renderings the node tests expect for single operators. */
  lemma ToPythonExamples()
    ensures var x := VariableNode("x");
      var y := VariableNode("y");
      && ToPython(UnaryOperationNode(Token(Not, "!"), x)) == Ok("(not x)")
      && ToPython(UnaryOperationNode(Token(Unknown("UNKNOWN"), "?"), x)) == Err("Unknown unary operator")
      && ToPython(BinaryOperationNode(x, Token(Imp, ">"), y)) == Ok("(not x or y)")
      && ToPython(BinaryOperationNode(x, Token(Unknown("UNKNOWN"), "?"), y)) == Err("Unknown binary operator")
  {
    assert "(not " + "x" + ")" == "(not x)";
    assert "(not " + "x" + " or " + "y" + ")" == "(not x or y)";
  }

  /** The nested rendering the node tests expect. */
  lemma ToPythonNestedExample()
    ensures var and := BinaryOperationNode(VariableNode("x"), Token(And, "&"), VariableNode("y"));
      ToPython(BinaryOperationNode(UnaryOperationNode(Token(Not, "!"), and), Token(Or, "|"), VariableNode("z")))
      == Ok("((not (x and y)) or z)")
  {
    var and := BinaryOperationNode(VariableNode("x"), Token(And, "&"), VariableNode("y"));
    assert ToPython(and) == Ok("(x and y)") by {
      assert "(" + "x" + " and " + "y" + ")" == "(x and y)";
    }
    var not := UnaryOperationNode(Token(Not, "!"), and);
    assert ToPython(not) == Ok("(not (x and y))") by {
      assert "(not " + "(x and y)" + ")" == "(not (x and y))";
    }
    assert "(" + "(not (x and y))" + " or " + "z" + ")" == "((not (x and y)) or z)";
  }
}
