/**
  The precedence ladder of the expression parser (parser/expressions.go).

  `Parser` moves a cursor over the tokens.  Its methods are specified by functions
  on the tokens that remain, and those functions accept exactly the spellings of
  a grammar of concrete syntax trees.
 */
module Parser {

  datatype Kind =
    | OrOr | AndAnd | Pipe | Caret | Ampersand
    | EqualsEquals | NotEquals | Less | Greater | LessEquals | GreaterEquals
    | ShiftLeft | ShiftRight | Plus | Minus | Asterisk | Slash | Percent
    | Exclam | Tilde
    | OpenParen | CloseParen | OpenSquare | OpenCurly | Dot
    | Identifier | Literal
    | Construct  // begins an if, when or match expression or a builtin
    | Stray      // begins no expression
    | Newline | Eof

  datatype Token = Token(kind: Kind, text: string, offset: int, endOffset: int)

  datatype BinaryOp =
    | LogicalOr | LogicalAnd | BitwiseOr | BitwiseXor | BitwiseAnd
    | Equal | NotEqual | LessThan | GreaterThan | LessEqual | GreaterEqual
    | ShiftLeftBy | ShiftRightBy | Add | Subtract | Multiply | Divide | Modulo

  datatype UnaryOp = LogicalNot | Negate | BitwiseNot

  datatype Expr =
    | Operand(kind: Kind, text: string)
    | Unary(op: UnaryOp, operand: Expr)
    | Binary(operator: BinaryOp, left: Expr, right: Expr)

  /** `Outside` stops where a construct that is not modelled begins. */
  datatype Outcome = Parsed(expr: Expr, rest: seq<Token>) | SyntaxError | Outside

  /** The level of operands: ParseUnary. */
  const OPERAND: nat := 9

  // ----- Operators -----

  function OperatorOf(k: Kind): (op: seq<BinaryOp>)
    ensures |op| <= 1
  {
    match k
    case OrOr => [LogicalOr]
    case AndAnd => [LogicalAnd]
    case Pipe => [BitwiseOr]
    case Caret => [BitwiseXor]
    case Ampersand => [BitwiseAnd]
    case EqualsEquals => [Equal]
    case NotEquals => [NotEqual]
    case Less => [LessThan]
    case Greater => [GreaterThan]
    case LessEquals => [LessEqual]
    case GreaterEquals => [GreaterEqual]
    case ShiftLeft => [ShiftLeftBy]
    case ShiftRight => [ShiftRightBy]
    case Plus => [Add]
    case Minus => [Subtract]
    case Asterisk => [Multiply]
    case Slash => [Divide]
    case Percent => [Modulo]
    case _ => []
  }

  /** The rung of the ladder that reads the operator. */
  function Level(op: BinaryOp): (l: nat)
    ensures l < OPERAND
  {
    match op
    case LogicalOr => 0
    case LogicalAnd => 1
    case BitwiseOr => 2
    case BitwiseXor => 3
    case BitwiseAnd => 4
    case Equal | NotEqual | LessThan | GreaterThan | LessEqual | GreaterEqual => 5
    case ShiftLeftBy | ShiftRightBy => 6
    case Add | Subtract => 7
    case Multiply | Divide | Modulo => 8
  }

  predicate OperatorAt(k: Kind, level: nat) {
    OperatorOf(k) != [] && Level(OperatorOf(k)[0]) == level
  }

  function PrefixOf(k: Kind): (op: seq<UnaryOp>)
    ensures |op| <= 1
  {
    match k
    case Exclam => [LogicalNot]
    case Minus => [Negate]
    case Tilde => [BitwiseNot]
    case _ => []
  }

  // ----- Parsing the tokens that remain -----

  function Head(ts: seq<Token>): Kind {
    if ts == [] then Eof else ts[0].kind
  }

  function SkipNewlines(ts: seq<Token>): (r: seq<Token>)
    ensures |r| <= |ts| && !Head(r).Newline?
  {
    if Head(ts).Newline? then SkipNewlines(ts[1..]) else ts
  }

  predicate AdjacentPair(ts: seq<Token>, k: Kind) {
    |ts| >= 2 && ts[0].kind == k && ts[1].kind == k && ts[0].endOffset == ts[1].offset
  }

  predicate Step(ts: seq<Token>) {
    AdjacentPair(ts, Plus) || AdjacentPair(ts, Minus)
  }

  function ParseLevel(ts: seq<Token>, level: nat): (r: Outcome)
    requires level <= OPERAND
    ensures r.Parsed? ==> |r.rest| < |ts|
    decreases |ts|, OPERAND - level, 3
  {
    if level == OPERAND then ParseUnary(ts)
    else
      var left := ParseLevel(ts, level + 1);
      if left.Parsed? then ParseRest(left.expr, left.rest, level) else left
  }

  /** The loop of one rung, with what it has read so far. */
  function ParseRest(left: Expr, ts: seq<Token>, level: nat): (r: Outcome)
    requires level <= OPERAND
    ensures r.Parsed? ==> |r.rest| <= |ts|
    decreases |ts|, 1
  {
    if level < OPERAND && OperatorAt(Head(ts), level) then
      var joined := ParseRight(left, ts, level);
      if joined.Parsed? then ParseRest(joined.expr, joined.rest, level) else joined
    else Parsed(left, ts)
  }

  /** One operator of a rung and its right operand. */
  function ParseRight(left: Expr, ts: seq<Token>, level: nat): (r: Outcome)
    requires level < OPERAND && OperatorAt(Head(ts), level)
    ensures r.Parsed? ==> |r.rest| < |ts|
    decreases |ts|, 0
  {
    var right := ParseLevel(SkipNewlines(ts[1..]), level + 1);
    if right.Parsed? then Parsed(Binary(OperatorOf(Head(ts))[0], left, right.expr), right.rest) else right
  }

  function ParseUnary(ts: seq<Token>): (r: Outcome)
    ensures r.Parsed? ==> |r.rest| < |ts|
    decreases |ts|, 0, 2
  {
    if Step(ts) then SyntaxError
    else if PrefixOf(Head(ts)) != [] then
      var operand := ParseUnary(SkipNewlines(ts[1..]));
      if operand.Parsed? then Parsed(Unary(PrefixOf(Head(ts))[0], operand.expr), operand.rest) else operand
    else ParsePostfix(ts)
  }

  predicate Suffix(k: Kind) {
    k == OpenParen || k == OpenSquare || k == Dot
  }

  function ParsePostfix(ts: seq<Token>): (r: Outcome)
    ensures r.Parsed? ==> |r.rest| < |ts|
    decreases |ts|, 0, 1
  {
    var term := ParseTerm(ts);
    if !term.Parsed? then term
    else if Suffix(Head(term.rest)) then Outside
    else if Step(term.rest) then SyntaxError
    else term
  }

  predicate OutsideTerm(ts: seq<Token>) {
    var k := Head(ts);
    || k == Pipe || k == OrOr || k == Construct || k == OpenCurly || k == OpenSquare
    || (k == Dot && (Head(ts[1..]) == OpenCurly || Head(ts[1..]) == Identifier))
  }

  function ParseTerm(ts: seq<Token>): (r: Outcome)
    ensures r.Parsed? ==> |r.rest| < |ts|
    decreases |ts|, 0, 0
  {
    if OutsideTerm(ts) then Outside
    else if Head(ts) == OpenParen then
      var inner := ParseLevel(SkipNewlines(ts[1..]), 0);
      if !inner.Parsed? then inner
      else
        var close := SkipNewlines(inner.rest);
        if Head(close) == CloseParen then Parsed(inner.expr, close[1..]) else SyntaxError
    else if Head(ts) == Identifier || Head(ts) == Literal then Parsed(Operand(ts[0].kind, ts[0].text), ts[1..])
    else SyntaxError
  }

  /** ParseWholeExpression: nothing but newlines around one expression. */
  function ParseWhole(ts: seq<Token>): Outcome {
    var r := ParseLevel(SkipNewlines(ts), 0);
    if !r.Parsed? then r
    else if Head(SkipNewlines(r.rest)) == Eof then Parsed(r.expr, SkipNewlines(r.rest))
    else SyntaxError
  }

  // ----- The cursor -----

  datatype Reading = Read(expr: Expr) | Failed | LeftOut

  class Parser {
    const tokens: seq<Token>
    var pos: nat

    constructor (tokens: seq<Token>)
      ensures this.tokens == tokens && pos == 0
    {
      this.tokens := tokens;
      pos := 0;
    }

    function Remaining(): seq<Token>
      reads this
    {
      if pos <= |tokens| then tokens[pos..] else []
    }

    /** `r` and the new position are what the outcome says. */
    ghost predicate Achieves(r: Reading, outcome: Outcome)
      reads this
    {
      match outcome
      case Parsed(expr, rest) => r == Read(expr) && pos <= |tokens| && Remaining() == rest
      case SyntaxError => r == Failed
      case Outside => r == LeftOut
    }

    function Peek(): (k: Kind)
      reads this
      ensures k == Head(Remaining())
    {
      if pos < |tokens| then tokens[pos].kind else Eof
    }

    function Next(): (k: Kind)
      reads this
      ensures Remaining() != [] ==> k == Head(Remaining()[1..])
    {
      if pos + 1 < |tokens| then tokens[pos + 1].kind else Eof
    }

    method SkipLines()
      requires pos <= |tokens|
      modifies this
      ensures pos <= |tokens| && Remaining() == SkipNewlines(old(Remaining()))
    {
      while Peek() == Newline
        invariant pos <= |tokens| && SkipNewlines(Remaining()) == SkipNewlines(old(Remaining()))
        decreases |tokens| - pos
      {
        pos := pos + 1;
      }
    }

    predicate MatchAdjacentPair(k: Kind)
      reads this
      ensures MatchAdjacentPair(k) <==> AdjacentPair(Remaining(), k)
    {
      && pos + 1 < |tokens| && tokens[pos].kind == k && tokens[pos + 1].kind == k
      && tokens[pos].endOffset == tokens[pos + 1].offset
    }

    /** The nine binary rungs: each reads operands of the next one. */
    method ReadLevel(level: nat) returns (r: Reading)
      requires level <= OPERAND && pos <= |tokens|
      modifies this
      ensures Achieves(r, ParseLevel(old(Remaining()), level))
      decreases |Remaining()|, OPERAND - level, 3
    {
      if level == OPERAND {
        r := ReadUnary();
        return;
      }
      r := ReadLevel(level + 1);
      if r.Read? {
        r := ReadRest(r.expr, level);
      }
    }

    /** The loop of one rung. */
    method ReadRest(left: Expr, level: nat) returns (r: Reading)
      requires level < OPERAND && pos <= |tokens|
      modifies this
      ensures Achieves(r, ParseRest(left, old(Remaining()), level))
      decreases |Remaining()|, 0, 4
    {
      r := Read(left);
      while OperatorAt(Peek(), level)
        invariant r.Read? && pos <= |tokens| && |Remaining()| <= |old(Remaining())|
        invariant ParseRest(r.expr, Remaining(), level) == ParseRest(left, old(Remaining()), level)
        decreases |Remaining()|
      {
        r := ReadRight(r.expr, level);
        if !r.Read? {
          return;
        }
      }
    }

    /** One operator and its right operand. */
    method ReadRight(left: Expr, level: nat) returns (r: Reading)
      requires level < OPERAND && pos <= |tokens| && OperatorAt(Head(Remaining()), level)
      modifies this
      ensures Achieves(r, ParseRight(left, old(Remaining()), level))
      decreases |Remaining()|, 0, 3
    {
      var op := OperatorOf(Peek())[0];
      pos := pos + 1;
      SkipLines();
      r := ReadLevel(level + 1);
      if r.Read? {
        r := Read(Binary(op, left, r.expr));
      }
    }

    method ReadUnary() returns (r: Reading)
      requires pos <= |tokens|
      modifies this
      ensures Achieves(r, ParseUnary(old(Remaining())))
      decreases |Remaining()|, 0, 2
    {
      if MatchAdjacentPair(Plus) || MatchAdjacentPair(Minus) {
        return Failed;
      }
      if PrefixOf(Peek()) != [] {
        var op := PrefixOf(Peek())[0];
        pos := pos + 1;
        SkipLines();
        r := ReadUnary();
        if r.Read? {
          r := Read(Unary(op, r.expr));
        }
        return;
      }
      r := ReadPostfix();
    }

    method ReadPostfix() returns (r: Reading)
      requires pos <= |tokens|
      modifies this
      ensures Achieves(r, ParsePostfix(old(Remaining())))
      decreases |Remaining()|, 0, 1
    {
      r := ReadTerm();
      if !r.Read? {
        return;
      }
      if Suffix(Peek()) {
        return LeftOut;
      }
      if MatchAdjacentPair(Plus) || MatchAdjacentPair(Minus) {
        return Failed;
      }
    }

    method ReadTerm() returns (r: Reading)
      requires pos <= |tokens|
      modifies this
      ensures Achieves(r, ParseTerm(old(Remaining())))
      decreases |Remaining()|, 0, 0
    {
      var k := Peek();
      if k == Pipe || k == OrOr || k == Construct || k == OpenCurly || k == OpenSquare ||
         (k == Dot && (Next() == OpenCurly || Next() == Identifier)) {
        return LeftOut;
      }
      if k == OpenParen {
        pos := pos + 1;
        SkipLines();
        r := ReadLevel(0);
        if !r.Read? {
          return;
        }
        SkipLines();
        if Peek() != CloseParen {
          return Failed;
        }
        pos := pos + 1;
        return;
      }
      if k == Identifier || k == Literal {
        r := Read(Operand(tokens[pos].kind, tokens[pos].text));
        pos := pos + 1;
        return;
      }
      return Failed;
    }

    method ParseWholeExpression() returns (r: Reading)
      requires pos <= |tokens|
      modifies this
      ensures Achieves(r, ParseWhole(old(Remaining())))
    {
      SkipLines();
      r := ReadLevel(0);
      if !r.Read? {
        return;
      }
      SkipLines();
      if Peek() != Eof {
        return Failed;
      }
    }
  }
}
