/**
 * The formula lexer (lab_3/src/pnf_contructor/language.py): a cursor over the formula text that
 * skips whitespace, turns each letter into a VARIABLE token and each of `~ > | & ! ( )` into an
 * operator token, and records the letters it has seen.
 */
module Language {
  import opened Wrappers

  /** The token types; `Unknown` stands for any other string used as a type. */
  datatype TokenType = Variable | Const | Equ | Imp | Or | And | Not | LParen | RParen | Space | Eof
                     | Unknown(name: string)

  /** A token; the EOF token's `None` value is the empty string here. */
  datatype Token = Token(kind: TokenType, value: string)

  /** Python's `str.isspace` on one character. */
  predicate IsSpace(c: char)
  {
    (c <= ' ' && (('\t' <= c <= '\r') || ('\U{1C}' <= c))) || ('\U{85}' <= c <= '\U{3000}' && SpaceFrom(c, 0))
  }

  /** The number of ranges of whitespace from U+0085 on. */
  const SpaceRanges := 8

  /** Range k of the whitespace from U+0085 on, both ends included, in ascending order. */
  function SpaceRange(k: nat): (char, char)
  {
    match k
    case 0 => ('\U{85}', '\U{85}')
    case 1 => ('\U{A0}', '\U{A0}')
    case 2 => ('\U{1680}', '\U{1680}')
    case 3 => ('\U{2000}', '\U{200A}')
    case 4 => ('\U{2028}', '\U{2029}')
    case 5 => ('\U{202F}', '\U{202F}')
    case 6 => ('\U{205F}', '\U{205F}')
    case _ => ('\U{3000}', '\U{3000}')
  }

  /** c lies in whitespace range k or a later one. */
  predicate SpaceFrom(c: char, k: nat)
    decreases SpaceRanges - k
  {
    k < SpaceRanges && ((SpaceRange(k).0 <= c <= SpaceRange(k).1) || SpaceFrom(c, k + 1))
  }

  /**
   * `str.isalpha`, exact for every character below U+0530 (Latin, IPA, Greek, Cyrillic);
   * a letter of a later script is treated as not alphabetic.
   */
  predicate IsAlpha(c: char)
  {
    ('A' <= c <= 'Z') || ('a' <= c <= 'z') || ('\U{AA}' <= c <= '\U{52F}' && LetterFrom(c, 0))
  }

  /** The number of ranges of letters from U+00AA to U+052F. */
  const LetterRanges := 21

  /** Range k of the letters from U+00AA to U+052F, both ends included, in ascending order. */
  function LetterRange(k: nat): (char, char)
  {
    match k
    case 0 => ('\U{AA}', '\U{AA}')
    case 1 => ('\U{B5}', '\U{B5}')
    case 2 => ('\U{BA}', '\U{BA}')
    case 3 => ('\U{C0}', '\U{D6}')
    case 4 => ('\U{D8}', '\U{F6}')
    case 5 => ('\U{F8}', '\U{2C1}')
    case 6 => ('\U{2C6}', '\U{2D1}')
    case 7 => ('\U{2E0}', '\U{2E4}')
    case 8 => ('\U{2EC}', '\U{2EC}')
    case 9 => ('\U{2EE}', '\U{2EE}')
    case 10 => ('\U{370}', '\U{374}')
    case 11 => ('\U{376}', '\U{377}')
    case 12 => ('\U{37A}', '\U{37D}')
    case 13 => ('\U{37F}', '\U{37F}')
    case 14 => ('\U{386}', '\U{386}')
    case 15 => ('\U{388}', '\U{38A}')
    case 16 => ('\U{38C}', '\U{38C}')
    case 17 => ('\U{38E}', '\U{3A1}')
    case 18 => ('\U{3A3}', '\U{3F5}')
    case 19 => ('\U{3F7}', '\U{481}')
    case _ => ('\U{48A}', '\U{52F}')
  }

  /** c lies in letter range k or a later one. */
  predicate LetterFrom(c: char, k: nat)
    decreases LetterRanges - k
  {
    k < LetterRanges && ((LetterRange(k).0 <= c <= LetterRange(k).1) || LetterFrom(c, k + 1))
  }

  /** The operator characters and the token type each one becomes. */
  function Operator(c: char): (r: Option<TokenType>)
    ensures r.Some? <==> c == '~' || c == '>' || c == '|' || c == '&' || c == '!' || c == '(' || c == ')'
  {
    match c
    case '~' => Some(Equ)
    case '>' => Some(Imp)
    case '|' => Some(Or)
    case '&' => Some(And)
    case '!' => Some(Not)
    case '(' => Some(LParen)
    case ')' => Some(RParen)
    case _ => None
  }

  /** A character the lexer accepts. */
  predicate Lexable(c: char)
  {
    IsSpace(c) || IsAlpha(c) || Operator(c).Some?
  }

  /** `current_char`: the character at pos, or None past the end. */
  function CharAt(text: string, pos: nat): Option<char>
  {
    if pos < |text| then Some(text[pos]) else None
  }

  /** The first position at or after pos that does not hold whitespace. */
  function SkipSpaces(text: string, pos: nat): (p: nat)
    ensures pos <= p
    ensures pos <= |text| ==> p <= |text|
    ensures forall k | pos <= k < p :: k < |text| && IsSpace(text[k])
    ensures p < |text| ==> !IsSpace(text[p])
    decreases |text| - pos
  {
    if pos < |text| && IsSpace(text[pos]) then SkipSpaces(text, pos + 1) else pos
  }

  /**
   * What `get_next_token` returns from position pos, with the position after the token; an
   * error is the exception it raises.
   */
  function NextToken(text: string, pos: nat): (r: Result<(Token, nat), string>)
  {
    var p := SkipSpaces(text, pos);
    if p >= |text| then Ok((Token(Eof, ""), p))
    else if IsAlpha(text[p]) then Ok((Token(Variable, [text[p]]), p + 1))
    else match Operator(text[p])
      case Some(kind) => Ok((Token(kind, [text[p]]), p + 1))
      case None => Err("Invalid character")
  }

  /**
   * A token is the first non-space character's own token, consuming it and the spaces before it;
   * EOF comes exactly when only whitespace is left; the error exactly when the first non-space
   * character is neither a letter nor an operator; CONST and SPACE tokens are never produced.
   */
  lemma NextTokenSpec(text: string, pos: nat)
    ensures var r := NextToken(text, pos);
      && (r.Ok? && r.value.0.kind != Eof ==>
            var p := r.value.1 - 1;
            && pos <= p < |text| && r.value.0.value == [text[p]]
            && (forall k | pos <= k < p :: IsSpace(text[k]))
            && (IsAlpha(text[p]) ==> r.value.0.kind == Variable)
            && (!IsAlpha(text[p]) ==> Operator(text[p]) == Some(r.value.0.kind)))
      && (r.Ok? && r.value.0.kind == Eof <==> forall k | pos <= k < |text| :: IsSpace(text[k]))
      && (r.Err? <==> SkipSpaces(text, pos) < |text| && !Lexable(text[SkipSpaces(text, pos)]))
      && (r.Err? ==> r.error == "Invalid character")
      && (r.Ok? ==> r.value.0.kind !in {Const, Space} && !r.value.0.kind.Unknown?)
  {
    var p := SkipSpaces(text, pos);
    if p < |text| {
      assert !IsSpace(text[p]);
    }
  }

  /** A letter found in a later range is found from an earlier one. */
  lemma {:induction false} LetterFromEarlier(c: char, k: nat, m: nat)
    requires k <= m && LetterFrom(c, m)
    ensures LetterFrom(c, k)
    decreases m - k
  {
    if k < m {
      LetterFromEarlier(c, k + 1, m);
    }
  }

  /** A Cyrillic letter is a variable: "ж & з" starts with the token VARIABLE "ж". */
  lemma CyrillicVariable()
    ensures NextToken("ж & з", 0) == Ok((Token(Variable, "ж"), 1))
  {
    assert LetterFrom('ж', 19);
    LetterFromEarlier('ж', 0, 19);
    assert IsAlpha('ж');
  }

  /** Whether `get_next_token` succeeds, and where it ends, in terms of the first non-space character. */
  lemma NextTokenOk(text: string, pos: nat)
    requires pos <= |text|
    ensures var p := SkipSpaces(text, pos); var r := NextToken(text, pos);
      && (r.Ok? <==> p == |text| || Lexable(text[p]))
      && (p == |text| ==> r == Ok((Token(Eof, ""), p)))
      && (p < |text| && r.Ok? ==> r.value.1 == p + 1 && r.value.0.kind != Eof)
  {
  }

  /** Once only whitespace is left, every further call returns EOF without moving. */
  lemma EofStays(text: string, pos: nat)
    requires NextToken(text, pos).Ok? && NextToken(text, pos).value.0.kind == Eof
    ensures NextToken(text, NextToken(text, pos).value.1) == NextToken(text, pos)
  {
  }

  /** A token other than EOF moves the position forward, and never past the end. */
  lemma NextTokenAdvances(text: string, pos: nat)
    requires NextToken(text, pos).Ok?
    ensures pos <= NextToken(text, pos).value.1
    ensures NextToken(text, pos).value.0.kind != Eof ==> pos < NextToken(text, pos).value.1 <= |text|
    ensures NextToken(text, pos).value.0.kind == Eof && pos <= |text| ==> NextToken(text, pos).value.1 == |text|
  {
  }

  /** All tokens from pos up to and including EOF, as a caller looping on `get_next_token` sees them. */
  function Tokens(text: string, pos: nat): (r: Result<seq<Token>, string>)
    requires pos <= |text|
    decreases |text| - pos
  {
    match NextToken(text, pos)
    case Err(e) => Err(e)
    case Ok((t, p)) =>
      if t.kind == Eof then Ok([t])
      else
        NextTokenAdvances(text, pos);
        match Tokens(text, p)
        case Err(e) => Err(e)
        case Ok(rest) => Ok([t] + rest)
  }

  /** The characters of s that are not whitespace. */
  function NonSpace(s: string): (r: string)
  {
    if |s| == 0 then [] else (if IsSpace(s[0]) then [] else [s[0]]) + NonSpace(s[1..])
  }

  /** The token values, concatenated. */
  function Values(ts: seq<Token>): string
  {
    if |ts| == 0 then [] else ts[0].value + Values(ts[1..])
  }

  lemma {:induction false} NonSpaceSkip(text: string, pos: nat)
    requires pos <= |text|
    ensures NonSpace(text[pos..]) == NonSpace(text[SkipSpaces(text, pos)..])
    decreases |text| - pos
  {
    if pos < |text| && IsSpace(text[pos]) {
      assert text[pos..][1..] == text[pos + 1..];
      NonSpaceSkip(text, pos + 1);
    }
  }

  /** Tokenising succeeds exactly when every character is whitespace, a letter or an operator. */
  lemma {:induction false} TokensOk(text: string, pos: nat)
    requires pos <= |text|
    ensures Tokens(text, pos).Ok? <==> forall k | pos <= k < |text| :: Lexable(text[k])
    decreases |text| - pos
  {
    NextTokenOk(text, pos);
    var p := SkipSpaces(text, pos);
    if p < |text| && Lexable(text[p]) {
      TokensOk(text, p + 1);
    }
  }

  /** The tokens end with the only EOF, and their values spell the text without its whitespace. */
  lemma {:induction false} TokensSpell(text: string, pos: nat)
    requires pos <= |text| && Tokens(text, pos).Ok?
    ensures var ts := Tokens(text, pos).value;
      && |ts| > 0 && ts[|ts| - 1].kind == Eof && (forall i | 0 <= i < |ts| - 1 :: ts[i].kind != Eof)
      && Values(ts) == NonSpace(text[pos..])
    decreases |text| - pos
  {
    NextTokenSpec(text, pos);
    NonSpaceSkip(text, pos);
    var p := SkipSpaces(text, pos);
    var ts := Tokens(text, pos).value;
    if p < |text| {
      NextTokenAdvances(text, pos);
      TokensSpell(text, p + 1);
      var rest := Tokens(text, p + 1).value;
      assert ts == [ts[0]] + rest;
      assert text[p..] == [text[p]] + text[p + 1..];
      assert NonSpace(text[p..]) == [text[p]] + NonSpace(text[p + 1..]);
    } else {
      assert text[p..] == [];
    }
  }

  /** The letters among the first n characters of text. */
  function Letters(text: string, n: nat): set<char>
  {
    set k | 0 <= k < |text| && k < n && IsAlpha(text[k]) :: text[k]
  }

  /** The characters of s in ascending order, each once (`sorted(list(s))`). */
  function SortedChars(s: set<char>): (r: seq<char>)
    ensures forall i | 0 <= i < |r| :: r[i] in s
    ensures forall c | c in s :: c in r
    ensures forall i, j | 0 <= i < j < |r| :: r[i] < r[j]
    decreases s
  {
    if s == {} then []
    else
      var m := Least(s);
      var rest := SortedChars(s - {m});
      assert forall i | 0 <= i < |rest| :: m < rest[i];
      [m] + rest
  }

  /** The least character of a non-empty set. */
  function Least(s: set<char>): (m: char)
    requires s != {}
    ensures m in s && forall c | c in s :: m <= c
  {
    LeastExists(s);
    var m :| m in s && forall c | c in s :: m <= c;
    m
  }

  lemma {:induction false} LeastExists(s: set<char>)
    requires s != {}
    ensures exists m :: m in s && forall c | c in s :: m <= c
    decreases s
  {
    var x :| x in s;
    if s != {x} {
      LeastExists(s - {x});
      var y :| y in s - {x} && forall c | c in s - {x} :: y <= c;
      assert forall c | c in s :: c == x || c in s - {x};
      if x <= y {
        assert forall c | c in s :: x <= c;
      } else {
        assert forall c | c in s :: y <= c;
      }
    } else {
      assert forall c | c in s :: x <= c;
    }
  }

  /** Each character as a one-character string. */
  function AsStrings(cs: seq<char>): (r: seq<string>)
    ensures |r| == |cs| && forall i | 0 <= i < |cs| :: r[i] == [cs[i]]
  {
    if |cs| == 0 then [] else [[cs[0]]] + AsStrings(cs[1..])
  }

  class Lexer {
    const text: string
    var pos: nat
    var currentChar: Option<char>
    var variables: set<char>

    /** `current_char` is the character under `pos`. */
    ghost predicate Valid()
      reads this
    {
      currentChar == CharAt(text, pos)
    }

    /** The recorded variables are the letters before `pos`, as after any series of calls of `get_next_token`. */
    ghost predicate Scanned()
      reads this
    {
      variables == Letters(text, pos)
    }

    constructor(text: string)
      ensures this.text == text && pos == 0 && variables == {}
      ensures Valid() && Scanned()
    {
      this.text := text;
      pos := 0;
      currentChar := if |text| > 0 then Some(text[0]) else None;
      variables := {};
    }

    /** `get_variables` */
    function GetVariables(): (r: seq<string>)
      reads this
      ensures |r| == |variables|
      ensures forall i | 0 <= i < |r| :: |r[i]| == 1 && r[i][0] in variables
      ensures forall c | c in variables :: [c] in r
      ensures forall i, j | 0 <= i < j < |r| :: r[i][0] < r[j][0]
    {
      var cs := SortedChars(variables);
      DistinctCard(cs, variables);
      AsStrings(cs)
    }

    /** `advance` */
    method Advance()
      requires Valid()
      modifies this
      ensures Valid() && pos == old(pos) + 1 && variables == old(variables)
    {
      pos := pos + 1;
      if pos > |text| - 1 {
        currentChar := None;
      } else {
        currentChar := Some(text[pos]);
      }
    }

    /** `space_jump` */
    method SpaceJump()
      requires Valid()
      modifies this
      ensures Valid() && pos == SkipSpaces(text, old(pos)) && variables == old(variables)
    {
      while currentChar.Some? && IsSpace(currentChar.value)
        invariant Valid() && SkipSpaces(text, pos) == SkipSpaces(text, old(pos))
        invariant variables == old(variables)
        decreases |text| - pos
      {
        Advance();
      }
    }

    /** `get_next_token` */
    method GetNextToken() returns (r: Result<Token, string>)
      requires Valid()
      modifies this
      ensures Valid()
      ensures NextToken(text, old(pos)) == match r case Ok(t) => Ok((t, pos)) case Err(e) => Err(e)
      ensures r.Err? ==> pos == SkipSpaces(text, old(pos))
      ensures variables == old(variables) + if r.Ok? && r.value.kind == Variable then {r.value.value[0]} else {}
      ensures old(Scanned()) ==> Scanned()
    {
      while currentChar.Some?
        invariant Valid() && SkipSpaces(text, pos) == SkipSpaces(text, old(pos))
        invariant old(pos) <= pos && variables == old(variables)
        decreases |text| - pos
      {
        if IsSpace(currentChar.value) {
          SpaceJump();
          continue;
        }
        r := TokenHere();
        return;
      }
      return Ok(Token(Eof, ""));
    }

    /** The body of `get_next_token` once `current_char` is not whitespace. */
    method TokenHere() returns (r: Result<Token, string>)
      requires Valid() && currentChar.Some? && !IsSpace(currentChar.value)
      modifies this
      ensures Valid()
      ensures var c := old(currentChar.value);
        && (IsAlpha(c) ==> r == Ok(Token(Variable, [c])))
        && (!IsAlpha(c) && Operator(c).Some? ==> r == Ok(Token(Operator(c).value, [c])))
        && (!IsAlpha(c) && Operator(c).None? ==> r == Err("Invalid character"))
      ensures pos == if r.Ok? then old(pos) + 1 else old(pos)
      ensures variables == old(variables) + if r.Ok? && r.value.kind == Variable then {r.value.value[0]} else {}
      ensures old(Scanned()) ==> Scanned()
    {
      var c := currentChar.value;
      if IsAlpha(c) {
        assert Letters(text, pos + 1) == Letters(text, pos) + {c};
        variables := variables + {c};
        Advance();
        return Ok(Token(Variable, [c]));
      }
      assert Letters(text, pos + 1) == Letters(text, pos);
      if c == '~' {
        Advance();
        return Ok(Token(Equ, "~"));
      }
      if c == '>' {
        Advance();
        return Ok(Token(Imp, ">"));
      }
      if c == '|' {
        Advance();
        return Ok(Token(Or, "|"));
      }
      if c == '&' {
        Advance();
        return Ok(Token(And, "&"));
      }
      if c == '!' {
        Advance();
        return Ok(Token(Not, "!"));
      }
      if c == '(' {
        Advance();
        return Ok(Token(LParen, "("));
      }
      if c == ')' {
        Advance();
        return Ok(Token(RParen, ")"));
      }
      return Err("Invalid character");
    }
  }

  /** A strictly ascending sequence holding exactly the elements of s has |s| elements. */
  lemma {:induction false} DistinctCard(cs: seq<char>, s: set<char>)
    requires forall i | 0 <= i < |cs| :: cs[i] in s
    requires forall c | c in s :: c in cs
    requires forall i, j | 0 <= i < j < |cs| :: cs[i] < cs[j]
    ensures |cs| == |s|
    decreases |cs|
  {
    if |cs| > 0 {
      var rest := s - {cs[0]};
      forall c | c in rest
        ensures c in cs[1..]
      {
        var i :| 0 <= i < |cs| && cs[i] == c;
        assert i != 0;
      }
      DistinctCard(cs[1..], rest);
    } else {
      assert (forall c :: c !in s) ==> s == {};
    }
  }
}
