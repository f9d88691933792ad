/**
 * What the grammar promises, stated on the specification functions of module Grammar: an
 * element alone, or two elements joined by one operator, make up a level; `!` and brackets make
 * elements; and parsing inverts the fully parenthesised rendering of a tree. Runs of operators
 * and precedence between levels are in module GrammarChains.
 */
module GrammarRoundTrip {
  import opened Wrappers
  import opened Language
  import opened Nodes
  import opened Grammar

  /** The character a binary operator type is written with. */
  function OperatorChar(kind: TokenType): (c: char)
    requires KnownBinary(kind)
    ensures Operator(c) == Some(kind)
  {
    match kind
    case And => '&'
    case Or => '|'
    case Imp => '>'
    case _ => '~'
  }

  /** A tree as the parser builds it: one-letter variables and the lexer's own operator tokens. */
  predicate Canonical(t: Node)
  {
    match t
    case VariableNode(name) => |name| == 1 && IsAlpha(name[0])
    case UnaryOperationNode(opr, opd) => opr == Token(Not, "!") && Canonical(opd)
    case BinaryOperationNode(left, opr, right) =>
      KnownBinary(opr.kind) && opr.value == [OperatorChar(opr.kind)] && Canonical(left) && Canonical(right)
  }

  /** The tree written back in the formula language, with every binary node parenthesised. */
  function Show(t: Node): string
  {
    match t
    case VariableNode(name) => name
    case UnaryOperationNode(opr, opd) => opr.value + Show(opd)
    case BinaryOperationNode(left, opr, right) => "(" + Show(left) + opr.value + Show(right) + ")"
  }

  /** The type is the operator of one of the levels 0 to `level`. */
  predicate FoldedAtOrBelow(kind: TokenType, level: nat)
    requires level < 4
  {
    kind == LevelOperator(level) || (level > 0 && FoldedAtOrBelow(kind, level - 1))
  }

  /** A closing parenthesis ends every level's chain of operators. */
  lemma {:induction false} ClosingNotFolded(level: nat)
    requires level < 4
    ensures !FoldedAtOrBelow(RParen, level)
  {
    if level > 0 {
      ClosingNotFolded(level - 1);
    }
  }

  /** The operator of level j is folded at no level below j. */
  lemma {:induction false} OperatorAbove(j: nat, level: nat)
    requires level < j < 4
    ensures !FoldedAtOrBelow(LevelOperator(j), level)
  {
    if level > 0 {
      OperatorAbove(j, level - 1);
    }
  }

  /** A token no level up to `level` folds leaves an element as it is. */
  lemma {:induction false} LevelElement(text: string, s: PState, level: nat, t: Node, s1: PState)
    requires level < 4
    requires ParseElement(text, s) == Ok((t, s1))
    requires !FoldedAtOrBelow(s1.token.kind, level)
    ensures ParseOperand(text, s, level) == Ok((t, s1))
    ensures ParseLevel(text, s, level) == Ok((t, s1))
  {
    if level > 0 {
      LevelElement(text, s, level - 1, t, s1);
    }
  }

  /**
   * Precedence: an element, an operator of level j and another element, followed by a token no
   * level up to `level` folds, parse at every level from j up as that one binary node.
   */
  lemma {:induction false} LevelBinary(text: string, s: PState, level: nat, j: nat, left: Node, s1: PState,
                                       s2: PState, right: Node, s3: PState)
    requires j <= level < 4
    requires ParseElement(text, s) == Ok((left, s1))
    requires s1.token.kind == LevelOperator(j) && EatToken(text, s1, LevelOperator(j)) == Ok(s2)
    requires ParseElement(text, s2) == Ok((right, s3))
    requires !FoldedAtOrBelow(s3.token.kind, level)
    ensures ParseLevel(text, s, level) == Ok((BinaryOperationNode(left, s1.token, right), s3))
  {
    if level > j {
      LevelBinary(text, s, level - 1, j, left, s1, s2, right, s3);
    } else {
      if level > 0 {
        OperatorAbove(level, level - 1);
        LevelElement(text, s, level - 1, left, s1);
      }
      LevelElement(text, s2, level, right, s3);
      assert ParseOperand(text, s2, level) == Ok((right, s3));
      var b := BinaryOperationNode(left, s1.token, right);
      assert ParseLoop(text, b, s3, level) == Ok((b, s3));
      assert ParseLoop(text, left, s1, level) == ParseLoop(text, b, s3, level);
    }
  }

  /** Reading a letter or an operator character. */
  lemma LexedChar(text: string, p: nat)
    requires p < |text| && (IsAlpha(text[p]) || Operator(text[p]).Some?)
    ensures Lexed(text, p) == Ok(PState(Token(if IsAlpha(text[p]) then Variable else Operator(text[p]).value,
                                             [text[p]]), p + 1))
  {
    assert !IsSpace(text[p]);
  }

  /** Reading an operator character. */
  lemma LexedOperator(text: string, p: nat)
    requires p < |text| && Operator(text[p]).Some?
    ensures Lexed(text, p) == Ok(PState(Token(Operator(text[p]).value, [text[p]]), p + 1))
  {
    assert !IsAlpha(text[p]);
    LexedChar(text, p);
  }

  /** The parse result of t when the token after it is read as r. */
  function Then(t: Node, r: Result<PState, string>): Result<(Node, PState), string>
  {
    match r
    case Ok(s) => Ok((t, s))
    case Err(e) => Err(e)
  }

  /** A part of text laid out as w. */
  lemma Slice(text: string, p: nat, w: string, i: nat, j: nat)
    requires p + |w| <= |text| && text[p..p + |w|] == w && i <= j <= |w|
    ensures text[p + i..p + j] == w[i..j]
    ensures i < |w| ==> text[p + i] == w[i]
  {
    forall k | 0 <= k < j - i
      ensures text[p + i..p + j][k] == w[i..j][k]
    {
      assert text[p + i + k] == text[p..p + |w|][i + k];
    }
    if i < |w| {
      assert text[p + i] == text[p..p + |w|][i];
    }
  }

  /** The rendering of t is found in text at p. */
  predicate Laid(text: string, p: nat, t: Node)
  {
    p + |Show(t)| <= |text| && text[p..p + |Show(t)|] == Show(t)
  }

  /** A canonical rendering starts with a letter, `!` or `(`. */
  lemma ShowStart(t: Node)
    requires Canonical(t)
    ensures |Show(t)| > 0 && (IsAlpha(Show(t)[0]) || Operator(Show(t)[0]).Some?)
  {
    match t
    case VariableNode(_) =>
    case UnaryOperationNode(_, opd) =>
      assert Show(t)[0] == '!';
    case BinaryOperationNode(_, _, _) =>
      assert Show(t)[0] == '(';
  }

  /** `element` on a VARIABLE token. */
  lemma ElementVariable(text: string, s: PState)
    requires s.token.kind == Variable
    ensures ParseElement(text, s) == Then(VariableNode(s.token.value), Lexed(text, s.pos))
  {
  }

  /** A negation of the element parsed as r. */
  function Negated(opr: Token, r: Result<(Node, PState), string>): Result<(Node, PState), string>
  {
    match r
    case Ok((operand, s)) => Ok((UnaryOperationNode(opr, operand), s))
    case Err(e) => Err(e)
  }

  /** `element` on a NOT token: the operand is the element after it. */
  lemma ElementNot(text: string, s: PState, s1: PState)
    requires s.token.kind == Not && Lexed(text, s.pos) == Ok(s1)
    ensures ParseElement(text, s) == Negated(s.token, ParseElement(text, s1))
  {
  }

  /** `element` on an LPAREN token: an equivalence, then RPAREN. */
  lemma ElementParen(text: string, s: PState, s1: PState, node: Node, s2: PState)
    requires s.token.kind == LParen && Lexed(text, s.pos) == Ok(s1)
    requires ParseLevel(text, s1, 3) == Ok((node, s2)) && s2.token.kind == RParen
    ensures ParseElement(text, s) == Then(node, Lexed(text, s2.pos))
  {
  }

  /**
   * The rendering of a canonical tree, found in the text from p to e, parses as an element into
   * that tree, leaving the parser on the token read at e.
   */
  lemma {:induction false} ElementShow(text: string, t: Node, p: nat, e: nat, s: PState)
    requires Canonical(t) && Laid(text, p, t) && e == p + |Show(t)| && Lexed(text, p) == Ok(s)
    ensures ParseElement(text, s) == Then(t, Lexed(text, e))
    decreases t, 1
  {
    match t
    case VariableNode(name) =>
      VariableShow(text, name, p, e, s);
    case UnaryOperationNode(opr, opd) =>
      UnaryShow(text, opr, opd, p, e, s);
    case BinaryOperationNode(left, opr, right) =>
      BinaryShow(text, left, opr, right, p, e, s);
  }

  /** ElementShow for a variable. */
  lemma VariableShow(text: string, name: string, p: nat, e: nat, s: PState)
    requires Canonical(VariableNode(name)) && Laid(text, p, VariableNode(name)) && e == p + |name|
    requires Lexed(text, p) == Ok(s)
    ensures ParseElement(text, s) == Then(VariableNode(name), Lexed(text, e))
  {
    Slice(text, p, name, 0, 1);
    assert name == [text[p]];
    LexedChar(text, p);
    ElementVariable(text, s);
  }

  /** The first token of a canonical rendering found at p. */
  lemma LexedStart(text: string, t: Node, p: nat) returns (s: PState)
    requires Canonical(t) && Laid(text, p, t)
    ensures Lexed(text, p) == Ok(s) && s.pos == p + 1
  {
    ShowStart(t);
    Slice(text, p, Show(t), 0, 1);
    LexedChar(text, p);
    s := Lexed(text, p).value;
  }

  /** The layout of a negation: `!`, then the operand from q on. */
  lemma UnaryLaid(text: string, p: nat, opr: Token, opd: Node) returns (q: nat)
    requires Canonical(UnaryOperationNode(opr, opd)) && Laid(text, p, UnaryOperationNode(opr, opd))
    ensures q == p + 1 && p < |text| && text[p] == '!' && opr == Token(Not, "!") && Canonical(opd)
    ensures Laid(text, q, opd) && p + |Show(UnaryOperationNode(opr, opd))| == q + |Show(opd)|
  {
    var w := Show(UnaryOperationNode(opr, opd));
    assert w == "!" + Show(opd);
    Slice(text, p, w, 0, 1);
    Slice(text, p, w, 1, |w|);
    assert w[1..] == Show(opd);
    q := p + 1;
  }

  /** The tokens at the start of a negation's rendering: `!`, then the operand's first token. */
  lemma UnaryLexed(text: string, p: nat, e: nat, opr: Token, opd: Node, s: PState) returns (q: nat, s1: PState)
    requires Canonical(UnaryOperationNode(opr, opd)) && Laid(text, p, UnaryOperationNode(opr, opd))
    requires e == p + |Show(UnaryOperationNode(opr, opd))| && Lexed(text, p) == Ok(s)
    ensures s.token == opr && opr.kind == Not && s.pos == q && Lexed(text, q) == Ok(s1)
    ensures Canonical(opd) && Laid(text, q, opd) && e == q + |Show(opd)|
  {
    q := UnaryLaid(text, p, opr, opd);
    LexedChar(text, p);
    s1 := LexedStart(text, opd, q);
  }

  lemma NegatedThen(opr: Token, opd: Node, r: Result<PState, string>)
    ensures Negated(opr, Then(opd, r)) == Then(UnaryOperationNode(opr, opd), r)
  {
  }

  /** ElementShow for a negation. */
  lemma {:induction false} UnaryShow(text: string, opr: Token, opd: Node, p: nat, e: nat, s: PState)
    requires Canonical(UnaryOperationNode(opr, opd)) && Laid(text, p, UnaryOperationNode(opr, opd))
    requires e == p + |Show(UnaryOperationNode(opr, opd))| && Lexed(text, p) == Ok(s)
    ensures ParseElement(text, s) == Then(UnaryOperationNode(opr, opd), Lexed(text, e))
    decreases UnaryOperationNode(opr, opd), 0
  {
    var q, s1 := UnaryLexed(text, p, e, opr, opd, s);
    ElementShow(text, opd, q, e, s1);
    ElementNot(text, s, s1);
    NegatedThen(opr, opd, Lexed(text, e));
  }

  /** The rendering w found at p. */
  predicate At(text: string, p: nat, w: string)
  {
    p + |w| <= |text| && text[p..p + |w|] == w
  }

  /** Two renderings side by side. */
  lemma Split(text: string, p: nat, a: string, b: string) returns (q: nat)
    requires At(text, p, a + b)
    ensures q == p + |a| && At(text, p, a) && At(text, q, b)
  {
    Slice(text, p, a + b, 0, |a|);
    Slice(text, p, a + b, |a|, |a + b|);
    assert (a + b)[..|a|] == a && (a + b)[|a|..] == b;
    q := p + |a|;
  }

  /** One character found at p. */
  lemma AtChar(text: string, p: nat, c: char)
    requires At(text, p, [c])
    ensures p < |text| && text[p] == c
  {
    assert text[p..p + 1][0] == text[p];
  }

  /** The layout of a binary node: `(` at p, the left operand, the operator at q, the right operand, `)` at z. */
  lemma BinaryLaid(text: string, p: nat, left: Node, opr: Token, right: Node) returns (q: nat, z: nat)
    requires Canonical(BinaryOperationNode(left, opr, right)) && Laid(text, p, BinaryOperationNode(left, opr, right))
    ensures KnownBinary(opr.kind) && opr.value == [OperatorChar(opr.kind)] && Canonical(left) && Canonical(right)
    ensures q == p + 1 + |Show(left)| && z == q + 1 + |Show(right)|
    ensures z < |text| && text[p] == '(' && text[q] == OperatorChar(opr.kind) && text[z] == ')'
    ensures Laid(text, p + 1, left) && Laid(text, q + 1, right)
    ensures p + |Show(BinaryOperationNode(left, opr, right))| == z + 1
  {
    var l := Show(left);
    var r := Show(right);
    assert At(text, p, "(" + l + opr.value + r + ")");
    z := Split(text, p, "(" + l + opr.value + r, ")");
    var y := Split(text, p, "(" + l + opr.value, r);
    q := Split(text, p, "(" + l, opr.value);
    var x := Split(text, p, "(", l);
    AtChar(text, p, '(');
    AtChar(text, q, OperatorChar(opr.kind));
    AtChar(text, z, ')');
  }

  /** The level whose operator a binary operator type is. */
  function LevelOf(kind: TokenType): (j: nat)
    requires KnownBinary(kind)
    ensures j < 4 && LevelOperator(j) == kind
  {
    if kind == And then 0 else if kind == Or then 1 else if kind == Imp then 2 else 3
  }

  /** Eating a token of the current type reads the next one. */
  lemma EatLexed(text: string, s: PState, kind: TokenType)
    requires s.token.kind == kind
    ensures EatToken(text, s, kind) == Lexed(text, s.pos)
  {
  }

  /** The tokens of a binary node's rendering: `(`, the operator and `)`, and the operands' first tokens. */
  lemma BinaryLexed(text: string, p: nat, e: nat, left: Node, opr: Token, right: Node, s: PState)
    returns (p1: nat, q: nat, p2: nat, z: nat, s1: PState, sq: PState, s2: PState, sz: PState)
    requires Canonical(BinaryOperationNode(left, opr, right)) && Laid(text, p, BinaryOperationNode(left, opr, right))
    requires e == p + |Show(BinaryOperationNode(left, opr, right))| && Lexed(text, p) == Ok(s)
    ensures s.token.kind == LParen && s.pos == p1 && Lexed(text, p1) == Ok(s1)
    ensures sq.token == opr && KnownBinary(opr.kind) && sq.pos == p2 && Lexed(text, q) == Ok(sq)
    ensures Lexed(text, p2) == Ok(s2)
    ensures sz.token.kind == RParen && sz.pos == e && Lexed(text, z) == Ok(sz)
    ensures Canonical(left) && Laid(text, p1, left) && q == p1 + |Show(left)|
    ensures Canonical(right) && Laid(text, p2, right) && z == p2 + |Show(right)|
  {
    q, z := BinaryLaid(text, p, left, opr, right);
    p1 := p + 1;
    p2 := q + 1;
    LexedOperator(text, p);
    LexedOperator(text, q);
    LexedOperator(text, z);
    sq := Lexed(text, q).value;
    sz := Lexed(text, z).value;
    s1 := LexedStart(text, left, p1);
    s2 := LexedStart(text, right, p2);
  }

  /** ElementShow for a binary node. */
  lemma {:induction false} BinaryShow(text: string, left: Node, opr: Token, right: Node, p: nat, e: nat, s: PState)
    requires Canonical(BinaryOperationNode(left, opr, right)) && Laid(text, p, BinaryOperationNode(left, opr, right))
    requires e == p + |Show(BinaryOperationNode(left, opr, right))| && Lexed(text, p) == Ok(s)
    ensures ParseElement(text, s) == Then(BinaryOperationNode(left, opr, right), Lexed(text, e))
    decreases BinaryOperationNode(left, opr, right), 0
  {
    var p1, q, p2, z, s1, sq, s2, sz := BinaryLexed(text, p, e, left, opr, right, s);
    ElementShow(text, left, p1, q, s1);
    ElementShow(text, right, p2, z, s2);
    var j := LevelOf(opr.kind);
    EatLexed(text, sq, LevelOperator(j));
    ClosingNotFolded(3);
    LevelBinary(text, s1, 3, j, left, sq, s2, right, sz);
    ElementParen(text, s, s1, BinaryOperationNode(left, opr, right), sz);
  }

  /** Parsing the rendering of a canonical tree gives the tree back. */
  lemma ParseShow(t: Node)
    requires Canonical(t)
    ensures ParseText(Show(t)) == Ok(t)
  {
    var text := Show(t);
    assert text[0..|text|] == text;
    var s := LexedStart(text, t, 0);
    ElementShow(text, t, 0, |text|, s);
    var eof := Lexed(text, |text|).value;
    assert eof.token.kind == Eof;
    LevelElement(text, s, 3, t, eof);
  }
}
