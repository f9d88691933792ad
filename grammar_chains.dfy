/**
 * Associativity and precedence of the formula parser (lab_2/src/table_truth_generator/grammar.py),
 * stated on the specification functions of module Grammar: the `while` loop of a binary level
 * folds a run of its operators to the left, each operand being parsed by the level below, and
 * the test formulas of the lab parse as the test expects.
 */
module GrammarChains {
  import opened Wrappers
  import opened Language
  import opened Nodes
  import opened Grammar
  import opened GrammarRoundTrip

  /**
   * One pass of a level's loop: the state on the operator token, the state after eating it, the
   * operand the level below reads next, and the state after that operand.
   */
  datatype Link = Link(at: PState, eaten: PState, operand: Node, next: PState)

  /** The left fold of a first operand with the links' operators and operands. */
  function Fold(first: Node, links: seq<Link>): Node
    decreases |links|
  {
    if |links| == 0 then first
    else Fold(BinaryOperationNode(first, links[0].at.token, links[0].operand), links[1..])
  }

  /** The fold is to the left: the last operator is the root, over the fold of all before it. */
  lemma {:induction false} FoldLast(first: Node, links: seq<Link>)
    requires |links| > 0
    ensures Fold(first, links) ==
      BinaryOperationNode(Fold(first, links[..|links| - 1]), links[|links| - 1].at.token, links[|links| - 1].operand)
    decreases |links|
  {
    if |links| > 1 {
      var b := BinaryOperationNode(first, links[0].at.token, links[0].operand);
      FoldLast(b, links[1..]);
      assert links[1..][..|links[1..]| - 1] == links[..|links| - 1][1..];
    }
  }

  /** The state after the last link, or s when there is none. */
  function End(s: PState, links: seq<Link>): PState
  {
    if |links| == 0 then s else links[|links| - 1].next
  }

  /** The links are consecutive passes of level `level`'s loop, the first one starting at s. */
  predicate Linked(text: string, level: nat, s: PState, links: seq<Link>)
    requires level < 4
    decreases |links|
  {
    |links| == 0 ||
    (&& links[0].at == s
     && s.token.kind == LevelOperator(level)
     && EatToken(text, s, LevelOperator(level)) == Ok(links[0].eaten)
     && ParseOperand(text, links[0].eaten, level) == Ok((links[0].operand, links[0].next))
     && Linked(text, level, links[0].next, links[1..]))
  }

  /** The loop of a level, started on a node and a run of links, ends with their left fold. */
  lemma {:induction false} LoopFolds(text: string, level: nat, node: Node, s: PState, links: seq<Link>)
    requires level < 4 && Linked(text, level, s, links)
    requires End(s, links).token.kind != LevelOperator(level)
    ensures ParseLoop(text, node, s, level) == Ok((Fold(node, links), End(s, links)))
    decreases |links|
  {
    if |links| > 0 {
      var l := links[0];
      assert End(l.next, links[1..]) == End(s, links);
      LoopFolds(text, level, BinaryOperationNode(node, s.token, l.operand), l.next, links[1..]);
    }
  }

  /**
   * Left associativity: an operand of the level below followed by a run of level-`level`
   * operators and operands parses at that level as their left fold, ending where the run ends.
   */
  lemma LevelChain(text: string, level: nat, s: PState, first: Node, s1: PState, links: seq<Link>)
    requires level < 4
    requires ParseOperand(text, s, level) == Ok((first, s1))
    requires Linked(text, level, s1, links) && End(s1, links).token.kind != LevelOperator(level)
    ensures ParseLevel(text, s, level) == Ok((Fold(first, links), End(s1, links)))
  {
    LoopFolds(text, level, first, s1, links);
  }

  /** A type that is no binary operator ends every level's chain. */
  lemma {:induction false} NonBinaryNotFolded(kind: TokenType, level: nat)
    requires level < 4 && !KnownBinary(kind)
    ensures !FoldedAtOrBelow(kind, level)
  {
    if level > 0 {
      NonBinaryNotFolded(kind, level - 1);
    }
  }

  /** An element followed by a token no level below j folds is an operand of level j. */
  lemma OperandElement(text: string, s: PState, j: nat, t: Node, s1: PState)
    requires j < 4 && ParseElement(text, s) == Ok((t, s1))
    requires j > 0 ==> !FoldedAtOrBelow(s1.token.kind, j - 1)
    ensures ParseOperand(text, s, j) == Ok((t, s1))
  {
    if j > 0 {
      LevelElement(text, s, j - 1, t, s1);
    }
  }

  /**
   * Precedence: what level j reads, followed by a token no level up to k folds, is also what
   * every level k above j reads, so a looser operator never reaches into a tighter level's node.
   */
  lemma {:induction false} LevelLift(text: string, s: PState, j: nat, k: nat, node: Node, e: PState)
    requires j <= k < 4 && ParseLevel(text, s, j) == Ok((node, e))
    requires !FoldedAtOrBelow(e.token.kind, k)
    ensures ParseLevel(text, s, k) == Ok((node, e))
    decreases k
  {
    if j < k {
      LevelLift(text, s, j, k - 1, node, e);
      assert ParseOperand(text, s, k) == Ok((node, e));
      assert ParseLoop(text, node, e, k) == Ok((node, e));
    }
  }

  /** Spaces before a token are skipped. */
  lemma LexedSpace(text: string, p: nat)
    requires p < |text| && text[p] == ' '
    ensures Lexed(text, p) == Lexed(text, p + 1)
  {
    assert IsSpace(text[p]);
    assert SkipSpaces(text, p) == SkipSpaces(text, p + 1);
  }

  /**
   * Three elements joined by two operators of level j, followed by a token that is no binary
   * operator, parse at the top level as the left fold: the second operator is the root.
   */
  lemma ThreeAtLevel(text: string, j: nat, s0: PState, x: Node, o1: PState, e1: PState, y: Node, o2: PState,
                     e2: PState, z: Node, end: PState)
    requires j < 4
    requires ParseElement(text, s0) == Ok((x, o1))
    requires o1.token.kind == LevelOperator(j) && EatToken(text, o1, LevelOperator(j)) == Ok(e1)
    requires ParseElement(text, e1) == Ok((y, o2))
    requires o2.token.kind == LevelOperator(j) && EatToken(text, o2, LevelOperator(j)) == Ok(e2)
    requires ParseElement(text, e2) == Ok((z, end))
    requires !KnownBinary(end.token.kind)
    ensures ParseLevel(text, s0, 3) == Ok((BinaryOperationNode(BinaryOperationNode(x, o1.token, y), o2.token, z), end))
  {
    if j > 0 {
      OperatorAbove(j, j - 1);
      NonBinaryNotFolded(end.token.kind, j - 1);
    }
    OperandElement(text, s0, j, x, o1);
    OperandElement(text, e1, j, y, o2);
    OperandElement(text, e2, j, z, end);
    var links := [Link(o1, e1, y, o2), Link(o2, e2, z, end)];
    assert links[1..][1..] == [];
    assert Linked(text, j, o2, links[1..]);
    LevelChain(text, j, s0, x, o1, links);
    var tree := BinaryOperationNode(BinaryOperationNode(x, o1.token, y), o2.token, z);
    assert Fold(x, links) == tree by {
      assert Fold(x, links) == Fold(BinaryOperationNode(x, o1.token, y), links[1..]);
      assert Fold(BinaryOperationNode(x, o1.token, y), links[1..]) == Fold(tree, links[1..][1..]);
    }
    NonBinaryNotFolded(end.token.kind, 3);
    LevelLift(text, s0, j, 3, tree, end);
  }

  /** A space, then an operator character. */
  lemma SpacedOperator(text: string, p: nat)
    requires p + 1 < |text| && text[p] == ' ' && Operator(text[p + 1]).Some?
    ensures Lexed(text, p) == Ok(PState(Token(Operator(text[p + 1]).value, [text[p + 1]]), p + 2))
  {
    LexedSpace(text, p);
    LexedOperator(text, p + 1);
  }

  /** A space, then a letter. */
  lemma SpacedVariable(text: string, p: nat)
    requires p + 1 < |text| && text[p] == ' ' && IsAlpha(text[p + 1])
    ensures Lexed(text, p) == Ok(PState(Token(Variable, [text[p + 1]]), p + 2))
  {
    LexedSpace(text, p);
    LexedChar(text, p + 1);
  }

  /** A variable token is an element on its own, and the parser moves to the next token. */
  lemma VariableElement(text: string, s: PState, next: PState)
    requires s.token.kind == Variable && Lexed(text, s.pos) == Ok(next)
    ensures ParseElement(text, s) == Ok((VariableNode(s.token.value), next))
  {
    ElementVariable(text, s);
  }

  /**
   * The chain tests of the lab: `x & y & z`, `x | y | z`, `x > y > z` and `x ~ y ~ z` each parse
   * as the left fold ((x c y) c z), for the operator c at every one of the four levels.
   */
  lemma ChainOfThree(c: char, text: string)
    requires c == '&' || c == '|' || c == '>' || c == '~'
    requires text == "x " + [c] + " y " + [c] + " z"
    ensures var op := Token(Operator(c).value, [c]);
      ParseText(text) == Ok(BinaryOperationNode(BinaryOperationNode(VariableNode("x"), op, VariableNode("y")),
                                                op, VariableNode("z")))
  {
    var kind := Operator(c).value;
    var op := Token(kind, [c]);
    var s0 := PState(Token(Variable, "x"), 1);
    var o1 := PState(op, 3);
    var e1 := PState(Token(Variable, "y"), 5);
    var o2 := PState(op, 7);
    var e2 := PState(Token(Variable, "z"), 9);
    var end := PState(Token(Eof, ""), 9);
    assert Lexed(text, 0) == Ok(s0) by {
      assert text[0] == 'x';
      LexedChar(text, 0);
    }
    assert Lexed(text, 1) == Ok(o1) && Lexed(text, 3) == Ok(e1) by {
      assert text[1] == ' ' && text[2] == c && text[3] == ' ' && text[4] == 'y';
      SpacedOperator(text, 1);
      SpacedVariable(text, 3);
    }
    assert Lexed(text, 5) == Ok(o2) && Lexed(text, 7) == Ok(e2) && Lexed(text, 9) == Ok(end) by {
      assert text[5] == ' ' && text[6] == c && text[7] == ' ' && text[8] == 'z' && |text| == 9;
      SpacedOperator(text, 5);
      SpacedVariable(text, 7);
    }
    assert ParseElement(text, s0) == Ok((VariableNode("x"), o1)) by { VariableElement(text, s0, o1); }
    assert ParseElement(text, e1) == Ok((VariableNode("y"), o2)) by { VariableElement(text, e1, o2); }
    assert ParseElement(text, e2) == Ok((VariableNode("z"), end)) by { VariableElement(text, e2, end); }
    assert EatToken(text, o1, kind) == Ok(e1) by { EatLexed(text, o1, kind); }
    assert EatToken(text, o2, kind) == Ok(e2) by { EatLexed(text, o2, kind); }
    ThreeAtLevel(text, LevelOf(kind), s0, VariableNode("x"), o1, e1, VariableNode("y"), o2, e2, VariableNode("z"), end);
  }

  /** An operand of a level, one operator of that level and a second operand: one pass of its loop. */
  lemma OneLink(text: string, level: nat, s: PState, left: Node, o: PState, e: PState, right: Node, end: PState)
    requires level < 4 && ParseOperand(text, s, level) == Ok((left, o))
    requires o.token.kind == LevelOperator(level) && EatToken(text, o, LevelOperator(level)) == Ok(e)
    requires ParseOperand(text, e, level) == Ok((right, end)) && end.token.kind != LevelOperator(level)
    ensures ParseLevel(text, s, level) == Ok((BinaryOperationNode(left, o.token, right), end))
  {
    var links := [Link(o, e, right, end)];
    assert Linked(text, level, end, links[1..]);
    LevelChain(text, level, s, left, o, links);
    assert Fold(left, links) == Fold(BinaryOperationNode(left, o.token, right), links[1..]);
  }

  /** A parenthesised pair `(a c b)` of letters around an operator parses as one element. */
  lemma ParenPair(text: string, p: nat, a: char, c: char, b: char)
    requires p + 7 <= |text| && text[p] == '(' && text[p + 1] == a && text[p + 2] == ' ' && text[p + 3] == c
    requires text[p + 4] == ' ' && text[p + 5] == b && text[p + 6] == ')'
    requires IsAlpha(a) && IsAlpha(b) && (c == '&' || c == '|' || c == '>' || c == '~')
    ensures ParseElement(text, PState(Token(LParen, "("), p + 1)) ==
      Then(BinaryOperationNode(VariableNode([a]), Token(Operator(c).value, [c]), VariableNode([b])), Lexed(text, p + 7))
  {
    var kind := Operator(c).value;
    var s1 := PState(Token(Variable, [a]), p + 2);
    var o := PState(Token(kind, [c]), p + 4);
    var e := PState(Token(Variable, [b]), p + 6);
    var close := PState(Token(RParen, ")"), p + 7);
    assert Lexed(text, p + 1) == Ok(s1) by { LexedChar(text, p + 1); }
    assert Lexed(text, p + 2) == Ok(o) by { SpacedOperator(text, p + 2); }
    assert Lexed(text, p + 4) == Ok(e) by { SpacedVariable(text, p + 4); }
    assert Lexed(text, p + 6) == Ok(close) by { LexedOperator(text, p + 6); }
    VariableElement(text, s1, o);
    VariableElement(text, e, close);
    EatLexed(text, o, kind);
    ClosingNotFolded(3);
    LevelBinary(text, s1, 3, LevelOf(kind), VariableNode([a]), o, e, VariableNode([b]), close);
    ElementParen(text, PState(Token(LParen, "("), p + 1), s1,
                 BinaryOperationNode(VariableNode([a]), Token(kind, [c]), VariableNode([b])), close);
  }
  /** In the first mixed test, the leading element is the negated bracket, read up to `|`. */
  lemma MixedNegatedBracket(text: string)
    requires text == "!(x & y) | (z > w) ~ v"
    ensures ParseElement(text, PState(Token(Not, "!"), 1)) == Ok((UnaryOperationNode(Token(Not, "!"), BinaryOperationNode(VariableNode("x"), Token(And, "&"), VariableNode("y"))), PState(Token(Or, "|"), 10)))
  {
    assert text[1] == '(' && text[2] == 'x' && text[3] == ' ' && text[4] == '&' && text[5] == ' ';
    assert text[6] == 'y' && text[7] == ')' && text[8] == ' ' && text[9] == '|';
    assert Lexed(text, 1) == Ok(PState(Token(LParen, "("), 2)) by { LexedOperator(text, 1); }
    assert ParseElement(text, PState(Token(LParen, "("), 2)) == Ok((BinaryOperationNode(VariableNode("x"), Token(And, "&"), VariableNode("y")), PState(Token(Or, "|"), 10))) by {
      ParenPair(text, 1, 'x', '&', 'y');
      SpacedOperator(text, 8);
    }
    ElementNot(text, PState(Token(Not, "!"), 1), PState(Token(LParen, "("), 2));
  }

  /** In the first mixed test, the bracket after `|` is one element, read up to `~`. */
  lemma MixedImplicationBracket(text: string)
    requires text == "!(x & y) | (z > w) ~ v"
    ensures EatToken(text, PState(Token(Or, "|"), 10), Or) == Ok(PState(Token(LParen, "("), 12))
    ensures ParseElement(text, PState(Token(LParen, "("), 12)) == Ok((BinaryOperationNode(VariableNode("z"), Token(Imp, ">"), VariableNode("w")), PState(Token(Equ, "~"), 20)))
  {
    assert EatToken(text, PState(Token(Or, "|"), 10), Or) == Ok(PState(Token(LParen, "("), 12)) by {
      assert text[10] == ' ' && text[11] == '(';
      EatLexed(text, PState(Token(Or, "|"), 10), Or);
      SpacedOperator(text, 10);
    }
    assert text[11] == '(' && text[12] == 'z' && text[13] == ' ' && text[14] == '>' && text[15] == ' ';
    assert text[16] == 'w' && text[17] == ')' && text[18] == ' ' && text[19] == '~';
    ParenPair(text, 11, 'z', '>', 'w');
    SpacedOperator(text, 18);
  }

  /** In the first mixed test, `v` after `~` is the last operand of the equivalence level. */
  lemma MixedLastOperand(text: string)
    requires text == "!(x & y) | (z > w) ~ v"
    ensures EatToken(text, PState(Token(Equ, "~"), 20), Equ) == Ok(PState(Token(Variable, "v"), 22))
    ensures ParseOperand(text, PState(Token(Variable, "v"), 22), 3) == Ok((VariableNode("v"), PState(Token(Eof, ""), 22)))
  {
    var sv := PState(Token(Variable, "v"), 22);
    var end := PState(Token(Eof, ""), 22);
    assert text[20] == ' ' && text[21] == 'v' && |text| == 22;
    assert EatToken(text, PState(Token(Equ, "~"), 20), Equ) == Ok(sv) by {
      EatLexed(text, PState(Token(Equ, "~"), 20), Equ);
      SpacedVariable(text, 20);
    }
    assert Lexed(text, 22) == Ok(end);
    VariableElement(text, sv, end);
    NonBinaryNotFolded(Eof, 2);
    LevelElement(text, sv, 2, VariableNode("v"), end);
  }

  /**
   * The first mixed test of the lab: in `!(x & y) | (z > w) ~ v` the negation binds its bracket,
   * `|` binds tighter than `~`, and the tree is ((!(x & y)) | (z > w)) ~ v.
   */
  lemma MixedNegationExample(text: string)
    requires text == "!(x & y) | (z > w) ~ v"
    ensures ParseText(text) ==
      Ok(BinaryOperationNode(BinaryOperationNode(UnaryOperationNode(Token(Not, "!"), BinaryOperationNode(VariableNode("x"), Token(And, "&"), VariableNode("y"))), Token(Or, "|"), BinaryOperationNode(VariableNode("z"), Token(Imp, ">"), VariableNode("w"))), Token(Equ, "~"), VariableNode("v")))
  {
    var s0 := PState(Token(Not, "!"), 1);
    var tilde := PState(Token(Equ, "~"), 20);
    var or := BinaryOperationNode(UnaryOperationNode(Token(Not, "!"), BinaryOperationNode(VariableNode("x"), Token(And, "&"), VariableNode("y"))), Token(Or, "|"), BinaryOperationNode(VariableNode("z"), Token(Imp, ">"), VariableNode("w")));
    assert Lexed(text, 0) == Ok(s0) by {
      assert text[0] == '!';
      LexedOperator(text, 0);
    }
    assert ParseLevel(text, s0, 2) == Ok((or, tilde)) by {
      MixedNegatedBracket(text);
      MixedImplicationBracket(text);
      OperatorAbove(3, 2);
      LevelBinary(text, s0, 2, 1, UnaryOperationNode(Token(Not, "!"), BinaryOperationNode(VariableNode("x"), Token(And, "&"), VariableNode("y"))), PState(Token(Or, "|"), 10), PState(Token(LParen, "("), 12), BinaryOperationNode(VariableNode("z"), Token(Imp, ">"), VariableNode("w")), tilde);
    }
    MixedLastOperand(text);
    OneLink(text, 3, s0, or, tilde, PState(Token(Variable, "v"), 22), VariableNode("v"), PState(Token(Eof, ""), 22));
    assert ParseFrom(text, s0) == Ok(BinaryOperationNode(or, Token(Equ, "~"), VariableNode("v")));
  }

  /** In the second mixed test, the inner bracket is one element, read up to `|`, and `z` follows. */
  lemma BracketedInner(text: string)
    requires text == "((x & y) | z) > (a ~ b)"
    ensures ParseElement(text, PState(Token(LParen, "("), 2)) == Ok((BinaryOperationNode(VariableNode("x"), Token(And, "&"), VariableNode("y")), PState(Token(Or, "|"), 10)))
    ensures EatToken(text, PState(Token(Or, "|"), 10), Or) == Ok(PState(Token(Variable, "z"), 12))
  {
    assert EatToken(text, PState(Token(Or, "|"), 10), Or) == Ok(PState(Token(Variable, "z"), 12)) by {
      assert text[10] == ' ' && text[11] == 'z';
      EatLexed(text, PState(Token(Or, "|"), 10), Or);
      SpacedVariable(text, 10);
    }
    assert text[1] == '(' && text[2] == 'x' && text[3] == ' ' && text[4] == '&' && text[5] == ' ' && text[6] == 'y';
    assert text[7] == ')' && text[8] == ' ' && text[9] == '|';
    ParenPair(text, 1, 'x', '&', 'y');
    SpacedOperator(text, 8);
  }

  /** In the second mixed test, the bracketed disjunction is one element, read up to `>`. */
  lemma BracketedDisjunction(text: string)
    requires text == "((x & y) | z) > (a ~ b)"
    ensures ParseElement(text, PState(Token(LParen, "("), 1)) == Ok((BinaryOperationNode(BinaryOperationNode(VariableNode("x"), Token(And, "&"), VariableNode("y")), Token(Or, "|"), VariableNode("z")), PState(Token(Imp, ">"), 15)))
  {
    var open1 := PState(Token(LParen, "("), 2);
    var sz := PState(Token(Variable, "z"), 12);
    var close := PState(Token(RParen, ")"), 13);
    assert text[1] == '(' && text[12] == ')' && text[13] == ' ' && text[14] == '>';
    assert Lexed(text, 1) == Ok(open1) && Lexed(text, 12) == Ok(close) && Lexed(text, 13) == Ok(PState(Token(Imp, ">"), 15)) by {
      LexedOperator(text, 1);
      LexedOperator(text, 12);
      SpacedOperator(text, 13);
    }
    assert ParseLevel(text, open1, 3) == Ok((BinaryOperationNode(BinaryOperationNode(VariableNode("x"), Token(And, "&"), VariableNode("y")), Token(Or, "|"), VariableNode("z")), close)) by {
      BracketedInner(text);
      VariableElement(text, sz, close);
      ClosingNotFolded(3);
      LevelBinary(text, open1, 3, 1, BinaryOperationNode(VariableNode("x"), Token(And, "&"), VariableNode("y")), PState(Token(Or, "|"), 10), sz, VariableNode("z"), close);
    }
    ElementParen(text, PState(Token(LParen, "("), 1), open1, BinaryOperationNode(BinaryOperationNode(VariableNode("x"), Token(And, "&"), VariableNode("y")), Token(Or, "|"), VariableNode("z")), close);
  }

  /** In the second mixed test, the bracket after `>` is one element, and the text ends after it. */
  lemma BracketedRight(text: string)
    requires text == "((x & y) | z) > (a ~ b)"
    ensures EatToken(text, PState(Token(Imp, ">"), 15), Imp) == Ok(PState(Token(LParen, "("), 17))
    ensures ParseElement(text, PState(Token(LParen, "("), 17)) == Ok((BinaryOperationNode(VariableNode("a"), Token(Equ, "~"), VariableNode("b")), PState(Token(Eof, ""), 23)))
  {
    assert EatToken(text, PState(Token(Imp, ">"), 15), Imp) == Ok(PState(Token(LParen, "("), 17)) by {
      assert text[15] == ' ' && text[16] == '(';
      EatLexed(text, PState(Token(Imp, ">"), 15), Imp);
      SpacedOperator(text, 15);
    }
    assert text[16] == '(' && text[17] == 'a' && text[18] == ' ';
    assert text[19] == '~' && text[20] == ' ' && text[21] == 'b' && text[22] == ')' && |text| == 23;
    ParenPair(text, 16, 'a', '~', 'b');
    assert Lexed(text, 23) == Ok(PState(Token(Eof, ""), 23));
  }

  /**
   * The second mixed test of the lab: in `((x & y) | z) > (a ~ b)` brackets override precedence,
   * and the tree is ((x & y) | z) > (a ~ b).
   */
  lemma BracketedExample(text: string)
    requires text == "((x & y) | z) > (a ~ b)"
    ensures ParseText(text) == Ok(BinaryOperationNode(BinaryOperationNode(BinaryOperationNode(VariableNode("x"), Token(And, "&"), VariableNode("y")), Token(Or, "|"), VariableNode("z")), Token(Imp, ">"), BinaryOperationNode(VariableNode("a"), Token(Equ, "~"), VariableNode("b"))))
  {
    var s0 := PState(Token(LParen, "("), 1);
    assert Lexed(text, 0) == Ok(s0) by {
      assert text[0] == '(';
      LexedOperator(text, 0);
    }
    BracketedDisjunction(text);
    BracketedRight(text);
    NonBinaryNotFolded(Eof, 3);
    LevelBinary(text, s0, 3, 2, BinaryOperationNode(BinaryOperationNode(VariableNode("x"), Token(And, "&"), VariableNode("y")), Token(Or, "|"), VariableNode("z")), PState(Token(Imp, ">"), 15), PState(Token(LParen, "("), 17), BinaryOperationNode(VariableNode("a"), Token(Equ, "~"), VariableNode("b")),
                PState(Token(Eof, ""), 23));
    assert ParseFrom(text, s0) == Ok(BinaryOperationNode(BinaryOperationNode(BinaryOperationNode(VariableNode("x"), Token(And, "&"), VariableNode("y")), Token(Or, "|"), VariableNode("z")), Token(Imp, ">"), BinaryOperationNode(VariableNode("a"), Token(Equ, "~"), VariableNode("b"))));
  }
}
