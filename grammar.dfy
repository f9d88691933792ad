/**
 * The recursive-descent formula parser (lab_2/src/table_truth_generator/grammar.py and its copy
 * lab_2/grammar.py). The parser holds the current token; `eat` checks its type and reads the next
 * one from the lexer. The four binary levels, from the tightest, fold `&`, `|`, `>` and `~` to the
 * left over operands of the level below; an element is a variable, `!` before an element, or a
 * parenthesised equivalence.
 *
 * The specification functions work on the text and a parser state (current token, lexer
 * position); the methods of class Parser are proved to compute them.
 */
module Grammar {
  import opened Wrappers
  import opened Language
  import opened Nodes

  /** The current token and the lexer position after it. */
  datatype PState = PState(token: Token, pos: nat)

  /** Characters left to read, plus one for a current token that is not EOF. */
  function Measure(text: string, s: PState): nat
  {
    (if s.pos <= |text| then |text| - s.pos else 0) + (if s.token.kind == Eof then 0 else 1)
  }

  /** The two exceptions parsing can raise. */
  predicate ParseError(e: string)
  {
    e == "Invalid syntax" || e == "Invalid character"
  }

  /** The state after reading one token from pos. */
  function Lexed(text: string, pos: nat): (r: Result<PState, string>)
    ensures r.Err? ==> r.error == "Invalid character"
  {
    match NextToken(text, pos)
    case Ok((t, p)) => Ok(PState(t, p))
    case Err(e) => Err(e)
  }

  /** `eat`: the current token must have the given type; then the next token is read. */
  function EatToken(text: string, s: PState, kind: TokenType): (r: Result<PState, string>)
    ensures r.Ok? ==> s.token.kind == kind
    ensures r.Ok? && kind != Eof ==> Measure(text, r.value) < Measure(text, s)
    ensures r.Err? ==> ParseError(r.error)
  {
    if s.token.kind != kind then Err("Invalid syntax")
    else if NextToken(text, s.pos).Ok? then
      NextTokenAdvances(text, s.pos);
      Lexed(text, s.pos)
    else Lexed(text, s.pos)
  }

  /** The operator folded at each binary level: 0 `&`, 1 `|`, 2 `>`, 3 `~`. */
  function LevelOperator(level: nat): TokenType
    requires level < 4
  {
    if level == 0 then And else if level == 1 then Or else if level == 2 then Imp else Equ
  }

  /** `element` */
  function ParseElement(text: string, s: PState): (r: Result<(Node, PState), string>)
    ensures r.Ok? ==> Measure(text, r.value.1) < Measure(text, s)
    ensures r.Err? ==> ParseError(r.error)
    decreases Measure(text, s), 0, 0
  {
    match s.token.kind
    case Variable =>
      (match EatToken(text, s, Variable)
       case Err(e) => Err(e)
       case Ok(s1) => Ok((VariableNode(s.token.value), s1)))
    case Not =>
      (match EatToken(text, s, Not)
       case Err(e) => Err(e)
       case Ok(s1) =>
         match ParseElement(text, s1)
         case Err(e) => Err(e)
         case Ok((operand, s2)) => Ok((UnaryOperationNode(s.token, operand), s2)))
    case LParen =>
      (match EatToken(text, s, LParen)
       case Err(e) => Err(e)
       case Ok(s1) =>
         match ParseLevel(text, s1, 3)
         case Err(e) => Err(e)
         case Ok((node, s2)) =>
           match EatToken(text, s2, RParen)
           case Err(e) => Err(e)
           case Ok(s3) => Ok((node, s3)))
    case _ => Err("Invalid syntax")
  }

  /** The operand of a binary level: an element at level 0, else the level below. */
  function ParseOperand(text: string, s: PState, level: nat): (r: Result<(Node, PState), string>)
    requires level < 4
    ensures r.Ok? ==> Measure(text, r.value.1) < Measure(text, s)
    ensures r.Err? ==> ParseError(r.error)
    decreases Measure(text, s), level, 1
  {
    if level == 0 then ParseElement(text, s) else ParseLevel(text, s, level - 1)
  }

  /** `conjunction`, `disjunction`, `implication` and `equivalence` for levels 0 to 3. */
  function ParseLevel(text: string, s: PState, level: nat): (r: Result<(Node, PState), string>)
    requires level < 4
    ensures r.Ok? ==> Measure(text, r.value.1) < Measure(text, s)
    ensures r.Err? ==> ParseError(r.error)
    decreases Measure(text, s), level + 1, 0
  {
    match ParseOperand(text, s, level)
    case Err(e) => Err(e)
    case Ok((node, s1)) => ParseLoop(text, node, s1, level)
  }

  /** The `while` loop of a binary level, from the node folded so far. */
  function ParseLoop(text: string, node: Node, s: PState, level: nat): (r: Result<(Node, PState), string>)
    requires level < 4
    ensures r.Ok? ==> Measure(text, r.value.1) <= Measure(text, s)
    ensures r.Err? ==> ParseError(r.error)
    decreases Measure(text, s), 0, 1
  {
    if s.token.kind != LevelOperator(level) then Ok((node, s))
    else
      match EatToken(text, s, LevelOperator(level))
      case Err(e) => Err(e)
      case Ok(s1) =>
        match ParseOperand(text, s1, level)
        case Err(e) => Err(e)
        case Ok((right, s2)) => ParseLoop(text, BinaryOperationNode(node, s.token, right), s2, level)
  }

  /** `parse`: an equivalence that must be followed by EOF. */
  function ParseFrom(text: string, s: PState): (r: Result<Node, string>)
    ensures r.Err? ==> ParseError(r.error)
  {
    match ParseLevel(text, s, 3)
    case Err(e) => Err(e)
    case Ok((node, s1)) => if s1.token.kind != Eof then Err("Invalid syntax") else Ok(node)
  }

  /** Parsing a whole formula: the parser is built on a fresh lexer and `parse` is called. */
  function ParseText(text: string): (r: Result<Node, string>)
    ensures r.Err? ==> ParseError(r.error)
  {
    match Lexed(text, 0)
    case Err(e) => Err(e)
    case Ok(s) => ParseFrom(text, s)
  }

  /** A method's outcome as a specification result: the node with the state it leaves. */
  function Outcome(r: Result<Node, string>, s: PState): Result<(Node, PState), string>
  {
    match r
    case Ok(n) => Ok((n, s))
    case Err(e) => Err(e)
  }

  class Parser {
    const lexer: Lexer
    var currentToken: Token

    ghost function State(): PState
      reads this, lexer
    {
      PState(currentToken, lexer.pos)
    }

    /** The lexer has not run past the text, and the current token is EOF only at its end. */
    ghost predicate Bounded()
      reads this, lexer
    {
      lexer.pos <= |lexer.text| && (currentToken.kind == Eof ==> lexer.pos == |lexer.text|)
    }

    constructor(lexer: Lexer, first: Token)
      ensures this.lexer == lexer && currentToken == first
    {
      this.lexer := lexer;
      currentToken := first;
    }

    /** `eat` */
    method Eat(kind: TokenType) returns (r: Result<(), string>)
      requires lexer.Valid()
      modifies this, lexer
      ensures lexer.Valid()
      ensures EatToken(lexer.text, old(State()), kind) == if r.Ok? then Ok(State()) else Err(r.error)
      ensures old(Bounded()) ==> Bounded()
      ensures old(lexer.Scanned()) ==> lexer.Scanned()
    {
      if currentToken.kind == kind {
        var t := lexer.GetNextToken();
        if t.Err? {
          return Err(t.error);
        }
        NextTokenAdvances(lexer.text, old(lexer.pos));
        currentToken := t.value;
        return Ok(());
      }
      return Err("Invalid syntax");
    }

    /** `element` */
    method Element() returns (r: Result<Node, string>)
      requires lexer.Valid()
      modifies this, lexer
      ensures lexer.Valid()
      ensures ParseElement(lexer.text, old(State())) == Outcome(r, State())
      ensures old(Bounded()) ==> Bounded()
      ensures old(lexer.Scanned()) ==> lexer.Scanned()
      decreases Measure(lexer.text, State()), 0
    {
      var token := currentToken;
      if token.kind == Variable {
        var e := Eat(Variable);
        if e.Err? {
          return Err(e.error);
        }
        return Ok(VariableNode(token.value));
      } else if token.kind == Not {
        var e := Eat(Not);
        if e.Err? {
          return Err(e.error);
        }
        var operand := Element();
        if operand.Err? {
          return operand;
        }
        return Ok(UnaryOperationNode(token, operand.value));
      } else if token.kind == LParen {
        var e := Eat(LParen);
        if e.Err? {
          return Err(e.error);
        }
        r := Equivalence();
        if r.Err? {
          return;
        }
        e := Eat(RParen);
        if e.Err? {
          return Err(e.error);
        }
        return;
      }
      return Err("Invalid syntax");
    }

    /** `conjunction` */
    method Conjunction() returns (r: Result<Node, string>)
      requires lexer.Valid()
      modifies this, lexer
      ensures lexer.Valid()
      ensures ParseLevel(lexer.text, old(State()), 0) == Outcome(r, State())
      ensures old(Bounded()) ==> Bounded()
      ensures old(lexer.Scanned()) ==> lexer.Scanned()
      decreases Measure(lexer.text, State()), 1
    {
      r := Element();
      if r.Err? {
        return;
      }
      var node := r.value;
      while currentToken.kind == And
        invariant lexer.Valid() && (old(Bounded()) ==> Bounded()) && (old(lexer.Scanned()) ==> lexer.Scanned())
        invariant ParseLoop(lexer.text, node, State(), 0) == ParseLevel(lexer.text, old(State()), 0)
        decreases Measure(lexer.text, State())
      {
        var operator := currentToken;
        var e := Eat(And);
        if e.Err? {
          return Err(e.error);
        }
        var right := Element();
        if right.Err? {
          return right;
        }
        node := BinaryOperationNode(node, operator, right.value);
      }
      return Ok(node);
    }

    /** `disjunction` */
    method Disjunction() returns (r: Result<Node, string>)
      requires lexer.Valid()
      modifies this, lexer
      ensures lexer.Valid()
      ensures ParseLevel(lexer.text, old(State()), 1) == Outcome(r, State())
      ensures old(Bounded()) ==> Bounded()
      ensures old(lexer.Scanned()) ==> lexer.Scanned()
      decreases Measure(lexer.text, State()), 2
    {
      r := Conjunction();
      if r.Err? {
        return;
      }
      var node := r.value;
      while currentToken.kind == Or
        invariant lexer.Valid() && (old(Bounded()) ==> Bounded()) && (old(lexer.Scanned()) ==> lexer.Scanned())
        invariant ParseLoop(lexer.text, node, State(), 1) == ParseLevel(lexer.text, old(State()), 1)
        decreases Measure(lexer.text, State())
      {
        var operator := currentToken;
        var e := Eat(Or);
        if e.Err? {
          return Err(e.error);
        }
        var right := Conjunction();
        if right.Err? {
          return right;
        }
        node := BinaryOperationNode(node, operator, right.value);
      }
      return Ok(node);
    }

    /** `implication` */
    method Implication() returns (r: Result<Node, string>)
      requires lexer.Valid()
      modifies this, lexer
      ensures lexer.Valid()
      ensures ParseLevel(lexer.text, old(State()), 2) == Outcome(r, State())
      ensures old(Bounded()) ==> Bounded()
      ensures old(lexer.Scanned()) ==> lexer.Scanned()
      decreases Measure(lexer.text, State()), 3
    {
      r := Disjunction();
      if r.Err? {
        return;
      }
      var node := r.value;
      while currentToken.kind == Imp
        invariant lexer.Valid() && (old(Bounded()) ==> Bounded()) && (old(lexer.Scanned()) ==> lexer.Scanned())
        invariant ParseLoop(lexer.text, node, State(), 2) == ParseLevel(lexer.text, old(State()), 2)
        decreases Measure(lexer.text, State())
      {
        var operator := currentToken;
        var e := Eat(Imp);
        if e.Err? {
          return Err(e.error);
        }
        var right := Disjunction();
        if right.Err? {
          return right;
        }
        node := BinaryOperationNode(node, operator, right.value);
      }
      return Ok(node);
    }

    /** `equivalence` */
    method Equivalence() returns (r: Result<Node, string>)
      requires lexer.Valid()
      modifies this, lexer
      ensures lexer.Valid()
      ensures ParseLevel(lexer.text, old(State()), 3) == Outcome(r, State())
      ensures old(Bounded()) ==> Bounded()
      ensures old(lexer.Scanned()) ==> lexer.Scanned()
      decreases Measure(lexer.text, State()), 4
    {
      r := Implication();
      if r.Err? {
        return;
      }
      var node := r.value;
      while currentToken.kind == Equ
        invariant lexer.Valid() && (old(Bounded()) ==> Bounded()) && (old(lexer.Scanned()) ==> lexer.Scanned())
        invariant ParseLoop(lexer.text, node, State(), 3) == ParseLevel(lexer.text, old(State()), 3)
        decreases Measure(lexer.text, State())
      {
        var operator := currentToken;
        var e := Eat(Equ);
        if e.Err? {
          return Err(e.error);
        }
        var right := Implication();
        if right.Err? {
          return right;
        }
        node := BinaryOperationNode(node, operator, right.value);
      }
      return Ok(node);
    }

    /** `parse` */
    method Parse() returns (r: Result<Node, string>)
      requires lexer.Valid()
      modifies this, lexer
      ensures lexer.Valid()
      ensures r == ParseFrom(lexer.text, old(State()))
      ensures r.Ok? ==> currentToken.kind == Eof
      ensures old(Bounded()) ==> Bounded()
      ensures old(lexer.Scanned()) ==> lexer.Scanned()
    {
      r := Equivalence();
      if r.Err? {
        return;
      }
      if currentToken.kind != Eof {
        return Err("Invalid syntax");
      }
    }
  }

  /** `Parser(lexer)`: the constructor reads the first token, and raises what the lexer raises. */
  method NewParser(lexer: Lexer) returns (r: Result<Parser, string>)
    requires lexer.Valid()
    modifies lexer
    ensures lexer.Valid()
    ensures r.Ok? ==> fresh(r.value) && r.value.lexer == lexer
    ensures Lexed(lexer.text, old(lexer.pos)) == if r.Ok? then Ok(r.value.State()) else Err(r.error)
    ensures r.Ok? && old(lexer.pos) <= |lexer.text| ==> r.value.Bounded()
    ensures old(lexer.Scanned()) ==> lexer.Scanned()
  {
    var first := lexer.GetNextToken();
    if first.Err? {
      return Err(first.error);
    }
    NextTokenAdvances(lexer.text, old(lexer.pos));
    var parser := new Parser(lexer, first.value);
    return Ok(parser);
  }
}
