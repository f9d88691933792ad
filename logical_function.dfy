/**
 * A formula read into its tree and its variables (lab_2/logical_function.py): a lexer over the
 * formula, a parser over that lexer, `parse`, and then the lexer's `get_variables`.
 */
module LogicalFunctions {
  import opened Wrappers
  import opened Language
  import opened Nodes
  import opened Grammar
  import Evaluation

  datatype LogicalFunction = LogicalFunction(formula: string, ast: Node, variables: seq<string>)

  /**
   * `LogicalFunction(formula)`: the tree is what the grammar reads from the formula, or the
   * exception it raises, and the variables are the formula's distinct letters in ascending order.
   */
  method NewLogicalFunction(formula: string) returns (r: Result<LogicalFunction, string>)
    ensures r.Ok? <==> ParseText(formula).Ok?
    ensures r.Ok? ==> r.value.formula == formula && r.value.ast == ParseText(formula).value
    ensures r.Ok? ==> r.value.variables == AsStrings(SortedChars(Letters(formula, |formula|)))
    ensures r.Err? ==> r.error == ParseText(formula).error && ParseError(r.error)
  {
    var lexer := new Lexer(formula);
    var parser := NewParser(lexer);
    if parser.Err? {
      return Err(parser.error);
    }
    var ast := parser.value.Parse();
    if ast.Err? {
      return Err(ast.error);
    }
    assert lexer.pos == |formula|;
    return Ok(LogicalFunction(formula, ast.value, lexer.GetVariables()));
  }

  /** `evaluate`: the tree's value under the assignment. */
  function EvaluateFunction(f: LogicalFunction, assignment: map<string, bool>): (r: Result<Evaluation.Value, string>)
    ensures KnownOperators(f.ast) && Evaluation.Assigned(f.ast, assignment)
            ==> r == Ok(Evaluation.Bool(Evaluation.Denotation(f.ast, assignment)))
    ensures r.Err? <==> !Evaluation.Assigned(f.ast, assignment)
  {
    Evaluation.EvaluateFails(f.ast, assignment);
    if KnownOperators(f.ast) && Evaluation.Assigned(f.ast, assignment) then
      Evaluation.EvaluateDenotes(f.ast, assignment);
      Evaluation.Evaluate(f.ast, assignment)
    else
      Evaluation.Evaluate(f.ast, assignment)
  }
}
