/**
 * Evaluating a formula tree under an assignment (lab_2/nodes.py). The operands are evaluated
 * first; a known operator is applied with Python's `not`, `and`, `or` and `==`, an unknown one
 * makes the node evaluate to None, and a variable missing from the assignment raises KeyError.
 */
module Evaluation {
  import opened Wrappers
  import opened Language
  import opened Nodes

  /** The Python values an evaluation can produce: a bool or None. */
  datatype Value = Bool(b: bool) | NoneValue

  /** Python truthiness: only True is truthy here. */
  predicate Truthy(v: Value)
  {
    v == Bool(true)
  }

  /** `evaluate` */
  function Evaluate(n: Node, assignment: map<string, bool>): (r: Result<Value, string>)
  {
    match n
    case VariableNode(name) =>
      if name in assignment then Ok(Bool(assignment[name])) else Err("KeyError")
    case UnaryOperationNode(opr, opd) =>
      (match Evaluate(opd, assignment)
       case Err(e) => Err(e)
       case Ok(x) => Ok(if opr.kind == Not then Bool(!Truthy(x)) else NoneValue))
    case BinaryOperationNode(left, opr, right) =>
      match Evaluate(left, assignment)
      case Err(e) => Err(e)
      case Ok(x) =>
        match Evaluate(right, assignment)
        case Err(e) => Err(e)
        case Ok(y) =>
          Ok(match opr.kind
             case And => if Truthy(x) then y else x
             case Or => if Truthy(x) then x else y
             case Imp => if !Truthy(x) then Bool(true) else y
             case Equ => Bool(x == y)
             case _ => NoneValue)
  }

  /** Every variable of the tree has a value in the assignment. */
  predicate Assigned(n: Node, assignment: map<string, bool>)
  {
    forall i | 0 <= i < |Names(n)| :: Names(n)[i] in assignment
  }

  /** The Boolean meaning of a tree whose operators are all known. */
  function Denotation(n: Node, assignment: map<string, bool>): bool
    requires KnownOperators(n) && Assigned(n, assignment)
  {
    match n
    case VariableNode(name) =>
      assert Names(n)[0] == name;
      assignment[name]
    case UnaryOperationNode(_, opd) =>
      assert Names(opd) == Names(n);
      !Denotation(opd, assignment)
    case BinaryOperationNode(left, opr, right) =>
      AssignedParts(left, opr, right, assignment);
      var x := Denotation(left, assignment);
      var y := Denotation(right, assignment);
      match opr.kind
      case And => x && y
      case Or => x || y
      case Imp => x ==> y
      case _ => x == y
  }

  /** A binary node is assigned exactly when both operands are. */
  lemma AssignedParts(left: Node, opr: Token, right: Node, assignment: map<string, bool>)
    ensures Assigned(BinaryOperationNode(left, opr, right), assignment)
            <==> Assigned(left, assignment) && Assigned(right, assignment)
  {
    var ns := Names(BinaryOperationNode(left, opr, right));
    assert forall i | 0 <= i < |Names(left)| :: Names(left)[i] == ns[i];
    assert forall i | 0 <= i < |Names(right)| :: Names(right)[i] == ns[|Names(left)| + i];
    assert forall i | |Names(left)| <= i < |ns| :: ns[i] == Names(right)[i - |Names(left)|];
  }

  /** With known operators and every variable assigned, evaluation is the Boolean meaning. */
  lemma {:induction false} EvaluateDenotes(n: Node, assignment: map<string, bool>)
    requires KnownOperators(n) && Assigned(n, assignment)
    ensures Evaluate(n, assignment) == Ok(Bool(Denotation(n, assignment)))
  {
    match n
    case VariableNode(name) =>
      assert Names(n)[0] == name;
    case UnaryOperationNode(_, opd) =>
      assert Names(opd) == Names(n);
      EvaluateDenotes(opd, assignment);
    case BinaryOperationNode(left, opr, right) =>
      AssignedParts(left, opr, right, assignment);
      EvaluateDenotes(left, assignment);
      EvaluateDenotes(right, assignment);
  }

  /** Evaluation raises KeyError exactly when some variable of the tree is unassigned. */
  lemma {:induction false} EvaluateFails(n: Node, assignment: map<string, bool>)
    ensures Evaluate(n, assignment).Err? <==> !Assigned(n, assignment)
    ensures Evaluate(n, assignment).Err? ==> Evaluate(n, assignment).error == "KeyError"
  {
    match n
    case VariableNode(name) =>
      assert |Names(n)| == 1 && Names(n)[0] == name;
    case UnaryOperationNode(_, opd) =>
      assert Names(opd) == Names(n);
      EvaluateFails(opd, assignment);
    case BinaryOperationNode(left, opr, right) =>
      EvaluateFails(left, assignment);
      EvaluateFails(right, assignment);
      AssignedParts(left, opr, right, assignment);
  }

  /**
   * An unknown operator evaluates to None, and None is falsy: `not` of it is True while `and`
   * with it on the left yields None.
   */
  lemma NoneExamples()
    ensures var x := VariableNode("x");
      var odd := UnaryOperationNode(Token(Unknown("UNKNOWN"), "?"), x);
      var asg := map["x" := true];
      && Evaluate(odd, asg) == Ok(NoneValue)
      && Evaluate(BinaryOperationNode(x, Token(Unknown("UNKNOWN"), "?"), x), asg) == Ok(NoneValue)
      && Evaluate(UnaryOperationNode(Token(Not, "!"), odd), asg) == Ok(Bool(true))
      && Evaluate(BinaryOperationNode(odd, Token(And, "&"), x), asg) == Ok(NoneValue)
  {
  }
}
