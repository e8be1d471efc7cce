/**
  The parser accepts exactly a grammar, and is the inverse of a printer.

  A `Concrete` tree keeps every token of a spelling: parentheses, operators and
  the newlines that may follow an operator or stand inside parentheses.
 */
module ParserLaws {
  import opened Parser

  datatype Concrete =
    | Leaf(token: Token)
    | Group(open: Token, before: seq<Token>, inner: Concrete, after: seq<Token>, close: Token)
    | Prefix(sign: Token, gap: seq<Token>, operand: Concrete)
    | Infix(left: Concrete, sign: Token, gap: seq<Token>, right: Concrete)

  /** The tokens of a spelling. */
  function Yield(c: Concrete): (ts: seq<Token>)
    ensures ts != []
  {
    match c
    case Leaf(token) => [token]
    case Group(open, before, inner, after, close) => [open] + (before + (Yield(inner) + (after + [close])))
    case Prefix(sign, gap, operand) => [sign] + (gap + Yield(operand))
    case Infix(left, sign, gap, right) => Yield(left) + ([sign] + (gap + Yield(right)))
  }

  predicate Lines(ts: seq<Token>) {
    forall i | 0 <= i < |ts| :: ts[i].kind == Newline
  }

  /** The grammar: a rung's operators, left-associative, over operands of the next rung. */
  predicate Spelled(c: Concrete, level: nat) {
    match c
    case Leaf(token) => token.kind == Identifier || token.kind == Literal
    case Group(open, before, inner, after, close) =>
      open.kind == OpenParen && Lines(before) && Spelled(inner, 0) && Lines(after) && close.kind == CloseParen
    case Prefix(sign, gap, operand) => PrefixOf(sign.kind) != [] && Lines(gap) && Spelled(operand, OPERAND)
    case Infix(left, sign, gap, right) =>
      && OperatorOf(sign.kind) != [] && Lines(gap)
      && var l := Level(OperatorOf(sign.kind)[0]);
         level <= l && Spelled(left, l) && Spelled(right, l + 1)
  }

  /** The expression that a spelling stands for. */
  function Tree(c: Concrete): Expr {
    match c
    case Leaf(token) => Operand(token.kind, token.text)
    case Group(_, _, inner, _, _) => Tree(inner)
    case Prefix(sign, _, operand) =>
      if PrefixOf(sign.kind) != [] then Unary(PrefixOf(sign.kind)[0], Tree(operand)) else Tree(operand)
    case Infix(left, sign, _, right) =>
      if OperatorOf(sign.kind) != [] then Binary(OperatorOf(sign.kind)[0], Tree(left), Tree(right)) else Tree(left)
  }

  predicate PairAt(ts: seq<Token>, i: nat)
    requires i < |ts|
  {
    Step(ts[i..])
  }

  /** No `++` and no `--` without a space. */
  predicate Spaced(ts: seq<Token>) {
    forall i: nat | i < |ts| :: !PairAt(ts, i)
  }

  /** What may come after an expression of a rung. */
  predicate Follows(rest: seq<Token>, level: nat) {
    && !Suffix(Head(rest)) && !Step(rest)
    && forall l | level <= l < OPERAND :: !OperatorAt(Head(rest), l)
  }

  lemma SkipsLines(gap: seq<Token>, ts: seq<Token>)
    requires Lines(gap) && !Head(ts).Newline?
    ensures SkipNewlines(gap + ts) == ts
  {
    if gap == [] {
      assert gap + ts == ts;
    } else {
      assert (gap + ts)[1..] == gap[1..] + ts;
      SkipsLines(gap[1..], ts);
    }
  }

  lemma {:induction false} StartsExpression(c: Concrete, level: nat)
    requires Spelled(c, level)
    ensures !Yield(c)[0].kind.Newline? && Yield(c)[0].kind != Plus
    ensures Head(Yield(c)) == Yield(c)[0].kind
  {
    match c
    case Infix(left, sign, _, _) => StartsExpression(left, Level(OperatorOf(sign.kind)[0]));
    case _ =>
  }

  lemma {:induction false} EndsExpression(c: Concrete, level: nat)
    requires Spelled(c, level)
    ensures QuietEnd(Yield(c))
  {
    match c
    case Infix(_, sign, _, right) => EndsExpression(right, Level(OperatorOf(sign.kind)[0]) + 1);
    case Prefix(_, _, operand) => EndsExpression(operand, OPERAND);
    case _ =>
  }

  // ----- The parser reads every spelling -----

  lemma SpacedParts(a: seq<Token>, b: seq<Token>)
    requires Spaced(a + b)
    ensures Spaced(a) && Spaced(b)
  {
    forall i: nat | i < |a| ensures !PairAt(a, i) {
      assert !PairAt(a + b, i);
      assert (a + b)[i..] == a[i..] + b;
    }
    forall i: nat | i < |b| ensures !PairAt(b, i) {
      assert !PairAt(a + b, |a| + i);
      assert (a + b)[|a| + i..] == b[i..];
    }
  }

  /**
    At any rung, the parser reads the whole spelling and goes on with that rung's
    loop: it depends on nothing in `rest` but whether an operator comes next.
   */
  lemma {:induction false} ReadsSpelling(c: Concrete, rest: seq<Token>, level: nat)
    requires level <= OPERAND && Spelled(c, level) && Spaced(Yield(c)) && Follows(rest, level + 1)
    ensures ParseLevel(Yield(c) + rest, level) == ParseRest(Tree(c), rest, level)
    decreases c, OPERAND - level, 2
  {
    if level < OPERAND && !(c.Infix? && Level(OperatorOf(c.sign.kind)[0]) == level) {
      TighterSpelling(c, level);
      ReadsSpelling(c, rest, level + 1);
      LooserReads(Yield(c) + rest, Tree(c), rest, level);
    } else if c.Infix? {
      ReadsInfix(c, rest, level);
    } else {
      ReadsOperand(c, rest);
    }
  }

  lemma {:induction false} ReadsOperand(c: Concrete, rest: seq<Token>)
    requires !c.Infix? && Spelled(c, OPERAND) && Spaced(Yield(c)) && Follows(rest, OPERAND + 1)
    ensures ParseLevel(Yield(c) + rest, OPERAND) == Parsed(Tree(c), rest)
    decreases c, 0, 1
  {
    match c
    case Leaf(token) => ReadsLeaf(token, rest);
    case Group(_, _, _, _, _) => ReadsGroup(c, rest);
    case Prefix(_, _, _) => ReadsPrefix(c, rest);
  }

  /** A spelling of a rung that has no operator of it is one of the next rung. */
  lemma TighterSpelling(c: Concrete, level: nat)
    requires Spelled(c, level) && !(c.Infix? && Level(OperatorOf(c.sign.kind)[0]) == level)
    ensures Spelled(c, level + 1)
  {
  }

  /** What the next rung reads up to `rest`, this one goes on from. */
  lemma LooserReads(ts: seq<Token>, left: Expr, rest: seq<Token>, level: nat)
    requires level < OPERAND && Follows(rest, level + 1)
    requires ParseLevel(ts, level + 1) == ParseRest(left, rest, level + 1)
    ensures ParseLevel(ts, level) == ParseRest(left, rest, level)
  {
    assert ParseRest(left, rest, level + 1) == Parsed(left, rest);
  }

  lemma ReadsLeaf(token: Token, rest: seq<Token>)
    requires (token.kind == Identifier || token.kind == Literal) && Follows(rest, OPERAND + 1)
    ensures ParseLevel([token] + rest, OPERAND) == Parsed(Operand(token.kind, token.text), rest)
  {
    var ts := [token] + rest;
    assert ts[1..] == rest && Head(ts) == token.kind;
    TermIsOperand(ts, Operand(token.kind, token.text), rest);
  }

  /** A term with no postfix operator after it, and no prefix operator before it, is an operand. */
  lemma TermIsOperand(ts: seq<Token>, e: Expr, rest: seq<Token>)
    requires Head(ts) == OpenParen || Head(ts) == Identifier || Head(ts) == Literal
    requires ParseTerm(ts) == Parsed(e, rest) && Follows(rest, OPERAND + 1)
    ensures ParseLevel(ts, OPERAND) == Parsed(e, rest)
  {
    assert ParsePostfix(ts) == ParseTerm(ts);
    assert ParseUnary(ts) == ParsePostfix(ts);
  }

  lemma ReadsParens(open: Token, before: seq<Token>, ts: seq<Token>, after: seq<Token>, close: Token, rest: seq<Token>)
    requires open.kind == OpenParen && Lines(before) && Lines(after) && close.kind == CloseParen
    requires !Head(ts).Newline? && Follows(rest, OPERAND + 1)
    requires ParseLevel(ts, 0).Parsed? && ParseLevel(ts, 0).rest == after + ([close] + rest)
    ensures ParseLevel([open] + (before + ts), OPERAND) == Parsed(ParseLevel(ts, 0).expr, rest)
  {
    var all := [open] + (before + ts);
    assert all[1..] == before + ts && Head(all) == OpenParen;
    SkipsLines(before, ts);
    ClosesParens(after, close, rest);
    ReadsEnclosed(all, before + ts, ts, rest);
    TermIsOperand(all, ParseLevel(ts, 0).expr, rest);
  }

  lemma ReadsEnclosed(all: seq<Token>, inside: seq<Token>, ts: seq<Token>, rest: seq<Token>)
    requires Head(all) == OpenParen && all[1..] == inside && SkipNewlines(inside) == ts && ParseLevel(ts, 0).Parsed?
    requires var close := SkipNewlines(ParseLevel(ts, 0).rest); Head(close) == CloseParen && close[1..] == rest
    ensures ParseTerm(all) == Parsed(ParseLevel(ts, 0).expr, rest)
  {
  }

  lemma ClosesParens(after: seq<Token>, close: Token, rest: seq<Token>)
    requires Lines(after) && close.kind == CloseParen
    ensures var ts := SkipNewlines(after + ([close] + rest)); Head(ts) == CloseParen && ts[1..] == rest
  {
    SkipsLines(after, [close] + rest);
    assert ([close] + rest)[1..] == rest;
  }

  lemma {:induction false} ReadsGroup(c: Concrete, rest: seq<Token>)
    requires c.Group? && Spelled(c, OPERAND) && Spaced(Yield(c)) && Follows(rest, OPERAND + 1)
    ensures ParseLevel(Yield(c) + rest, OPERAND) == Parsed(Tree(c), rest)
    decreases c, 0, 0
  {
    var Group(open, before, inner, after, close) := c;
    var tail := after + ([close] + rest);
    InnerSpaced(c);
    assert Head(tail) == Newline || Head(tail) == CloseParen;
    ReadsSpelling(inner, tail, 0);
    StartsExpression(inner, 0);
    ReadsParens(open, before, Yield(inner) + tail, after, close, rest);
    GroupTail(open, before, Yield(inner), after, close, rest);
  }

  lemma InnerSpaced(c: Concrete)
    requires c.Group? && Spaced(Yield(c))
    ensures Spaced(Yield(c.inner))
  {
    SpacedParts([c.open], c.before + (Yield(c.inner) + (c.after + [c.close])));
    SpacedParts(c.before, Yield(c.inner) + (c.after + [c.close]));
    SpacedParts(Yield(c.inner), c.after + [c.close]);
  }

  lemma GroupTail(
    open: Token, before: seq<Token>, inner: seq<Token>, after: seq<Token>, close: Token, rest: seq<Token>)
    ensures [open] + (before + (inner + (after + [close]))) + rest ==
      [open] + (before + (inner + (after + ([close] + rest))))
  {
  }

  lemma OperandSpaced(sign: Token, gap: seq<Token>, operand: seq<Token>, rest: seq<Token>)
    requires Spaced([sign] + (gap + operand)) && operand != []
    ensures Spaced(operand) && !Step([sign] + (gap + (operand + rest)))
  {
    var ts := [sign] + (gap + operand);
    SpacedParts([sign], gap + operand);
    SpacedParts(gap, operand);
    assert !PairAt(ts, 0) && ts[0..] == ts;
    assert ([sign] + (gap + (operand + rest)))[1] == ts[1];
  }

  lemma {:induction false} ReadsPrefix(c: Concrete, rest: seq<Token>)
    requires c.Prefix? && Spelled(c, OPERAND) && Spaced(Yield(c)) && Follows(rest, OPERAND + 1)
    ensures ParseLevel(Yield(c) + rest, OPERAND) == Parsed(Tree(c), rest)
    decreases c, 0, 0
  {
    var Prefix(sign, gap, operand) := c;
    var ts := Yield(operand) + rest;
    assert Yield(c) + rest == [sign] + (gap + ts);
    OperandSpaced(sign, gap, Yield(operand), rest);
    ReadsSpelling(operand, rest, OPERAND);
    assert ParseLevel(ts, OPERAND) == Parsed(Tree(operand), rest);
    StartsExpression(operand, OPERAND);
    ReadsSign(sign, gap, ts);
  }

  lemma ReadsSign(sign: Token, gap: seq<Token>, ts: seq<Token>)
    requires PrefixOf(sign.kind) != [] && Lines(gap) && !Head(ts).Newline? && !Step([sign] + (gap + ts))
    requires ParseLevel(ts, OPERAND).Parsed?
    ensures var r := ParseLevel(ts, OPERAND);
      ParseLevel([sign] + (gap + ts), OPERAND) == Parsed(Unary(PrefixOf(sign.kind)[0], r.expr), r.rest)
  {
    var all := [sign] + (gap + ts);
    assert all[1..] == gap + ts && Head(all) == sign.kind;
    SkipsLines(gap, ts);
    assert ParseUnary(all).Parsed?;
  }

  lemma {:induction false} ReadsInfix(c: Concrete, rest: seq<Token>, level: nat)
    requires c.Infix? && level < OPERAND && Spelled(c, level) && Spaced(Yield(c)) && Follows(rest, level + 1)
    requires Level(OperatorOf(c.sign.kind)[0]) == level
    ensures ParseLevel(Yield(c) + rest, level) == ParseRest(Tree(c), rest, level)
    decreases c, 0, 0
  {
    InfixParts(c, rest, level);
    ReadsSpelling(c.left, InfixRest(c, rest), level);
    ReadsSpelling(c.right, rest, level + 1);
    LoopEnds(Tree(c.right), rest, level + 1);
    ReadsRight(Tree(c.left), c.sign, c.gap, Yield(c.right) + rest, level);
  }

  /** What comes after the first operand. */
  function InfixRest(c: Concrete, rest: seq<Token>): seq<Token>
    requires c.Infix?
  {
    [c.sign] + (c.gap + (Yield(c.right) + rest))
  }

  lemma LoopEnds(left: Expr, rest: seq<Token>, level: nat)
    requires level <= OPERAND && Follows(rest, level)
    ensures ParseRest(left, rest, level) == Parsed(left, rest)
  {
  }

  /** Both operands are spellings of their rungs, apart, with the operator after the first. */
  lemma InfixParts(c: Concrete, rest: seq<Token>, level: nat)
    requires c.Infix? && level < OPERAND && Spelled(c, level) && Spaced(Yield(c))
    requires Level(OperatorOf(c.sign.kind)[0]) == level
    ensures Spelled(c.left, level) && Spaced(Yield(c.left)) && Spelled(c.right, level + 1) && Spaced(Yield(c.right))
    ensures Follows(InfixRest(c, rest), level + 1) && Yield(c) + rest == Yield(c.left) + InfixRest(c, rest)
    ensures Lines(c.gap) && OperatorAt(c.sign.kind, level) && !Head(Yield(c.right) + rest).Newline?
  {
    InfixTail(Yield(c.left), c.sign, c.gap, Yield(c.right), rest);
    SpacedParts(Yield(c.left), [c.sign] + (c.gap + Yield(c.right)));
    StartsExpression(c.right, level + 1);
    OperandSpaced(c.sign, c.gap, Yield(c.right), rest);
  }

  lemma InfixTail(left: seq<Token>, sign: Token, gap: seq<Token>, right: seq<Token>, rest: seq<Token>)
    ensures left + ([sign] + (gap + right)) + rest == left + ([sign] + (gap + (right + rest)))
  {
  }

  /** The loop of a rung meets one of its operators. */
  lemma ReadsRight(left: Expr, sign: Token, gap: seq<Token>, ts: seq<Token>, level: nat)
    requires level < OPERAND && OperatorAt(sign.kind, level) && Lines(gap) && !Head(ts).Newline?
    requires ParseLevel(ts, level + 1).Parsed?
    ensures var r := ParseLevel(ts, level + 1);
      ParseRest(left, [sign] + (gap + ts), level) ==
      ParseRest(Binary(OperatorOf(sign.kind)[0], left, r.expr), r.rest, level)
  {
    var all := [sign] + (gap + ts);
    assert all[1..] == gap + ts && Head(all) == sign.kind;
    SkipsLines(gap, ts);
  }

  // ----- What the parser reads is a spelling -----

  /** The parser reads `c` and stops at `rest`. */
  ghost predicate Derives(c: Concrete, ts: seq<Token>, level: nat, expr: Expr, rest: seq<Token>) {
    && Spelled(c, level) && Spaced(Yield(c)) && Tree(c) == expr
    && ts == Yield(c) + rest && Follows(rest, level)
  }

  lemma SpacedJoin(a: seq<Token>, b: seq<Token>)
    requires Spaced(a) && Spaced(b)
    requires a == [] || b == [] || !Step([a[|a| - 1], b[0]])
    ensures Spaced(a + b)
  {
    forall i: nat | i < |a + b| ensures !PairAt(a + b, i) {
      if i < |a| - 1 {
        assert !PairAt(a, i);
      } else if i >= |a| {
        assert (a + b)[i..] == b[i - |a|..];
        assert !PairAt(b, i - |a|);
      }
    }
  }

  /** The last token is no sign. */
  predicate QuietEnd(ts: seq<Token>) {
    ts == [] || (ts[|ts| - 1].kind != Plus && ts[|ts| - 1].kind != Minus)
  }

  lemma QuietJoin(a: seq<Token>, b: seq<Token>)
    requires Spaced(a) && Spaced(b) && QuietEnd(a)
    ensures Spaced(a + b)
  {
    SpacedJoin(a, b);
  }

  lemma LinesSpaced(gap: seq<Token>)
    requires Lines(gap)
    ensures Spaced(gap) && QuietEnd(gap)
  {
  }

  lemma {:induction false} SkipsPrefix(ts: seq<Token>) returns (n: nat)
    ensures n <= |ts| && SkipNewlines(ts) == ts[n..]
    ensures forall i | 0 <= i < n :: ts[i].kind == Newline
  {
    n := 0;
    if Head(ts).Newline? {
      n := SkipsPrefix(ts[1..]);
      assert ts[1..][n..] == ts[n + 1..];
      assert forall i | 0 <= i < n :: ts[i + 1] == ts[1..][i];
      n := n + 1;
    }
  }

  /** The skipped newlines. */
  lemma SkippedLines(ts: seq<Token>) returns (gap: seq<Token>)
    ensures Lines(gap) && ts == gap + SkipNewlines(ts)
  {
    var n := SkipsPrefix(ts);
    gap := ts[..n];
  }

  lemma {:induction false} LevelDerives(ts: seq<Token>, level: nat) returns (c: Concrete)
    requires level <= OPERAND && ParseLevel(ts, level).Parsed?
    ensures Derives(c, ts, level, ParseLevel(ts, level).expr, ParseLevel(ts, level).rest)
    decreases |ts|, OPERAND - level, 3
  {
    if level == OPERAND {
      c := UnaryDerives(ts);
    } else {
      var left := ParseLevel(ts, level + 1);
      var l := LevelDerives(ts, level + 1);
      c := RestDerives(l, left.rest, level);
    }
  }

  lemma {:induction false} RestDerives(left: Concrete, ts: seq<Token>, level: nat) returns (c: Concrete)
    requires level < OPERAND && Spelled(left, level) && Spaced(Yield(left)) && Follows(ts, level + 1)
    requires ParseRest(Tree(left), ts, level).Parsed?
    ensures
      var r := ParseRest(Tree(left), ts, level);
      Derives(c, Yield(left) + ts, level, r.expr, r.rest)
    decreases |ts|, 1
  {
    if OperatorAt(Head(ts), level) {
      var joined := RightDerives(left, ts, level);
      c := RestDerives(joined, ParseRight(Tree(left), ts, level).rest, level);
    } else {
      c := left;
    }
  }

  lemma {:induction false} RightDerives(left: Concrete, ts: seq<Token>, level: nat) returns (c: Concrete)
    requires level < OPERAND && Spelled(left, level) && Spaced(Yield(left)) && Follows(ts, level + 1)
    requires OperatorAt(Head(ts), level) && ParseRight(Tree(left), ts, level).Parsed?
    ensures var r := ParseRight(Tree(left), ts, level);
      && Spelled(c, level) && Spaced(Yield(c)) && Tree(c) == r.expr
      && Yield(left) + ts == Yield(c) + r.rest && Follows(r.rest, level + 1)
    decreases |ts|, 0
  {
    var right := RightIs(Tree(left), ts, level);
    var gap := SkippedLines(ts[1..]);
    var r := LevelDerives(SkipNewlines(ts[1..]), level + 1);
    c := Infix(left, ts[0], gap, r);
    InfixJoins(left, ts, gap, r, right.rest, level);
  }

  lemma RightIs(left: Expr, ts: seq<Token>, level: nat) returns (right: Outcome)
    requires level < OPERAND && OperatorAt(Head(ts), level) && ParseRight(left, ts, level).Parsed?
    ensures ts != [] && right == ParseLevel(SkipNewlines(ts[1..]), level + 1) && right.Parsed?
    ensures ParseRight(left, ts, level) == Parsed(Binary(OperatorOf(Head(ts))[0], left, right.expr), right.rest)
  {
    right := ParseLevel(SkipNewlines(ts[1..]), level + 1);
  }

  /** One round of a rung's loop. */
  lemma InfixJoins(left: Concrete, ts: seq<Token>, gap: seq<Token>, right: Concrete, rest: seq<Token>, level: nat)
    requires Spelled(left, level) && Spelled(right, level + 1) && Lines(gap) && OperatorAt(Head(ts), level)
    requires Spaced(Yield(left)) && Spaced(Yield(right))
    requires ts != [] && !Step(ts) && ts[1..] == gap + (Yield(right) + rest)
    ensures var c := Infix(left, ts[0], gap, right);
      && Spelled(c, level) && Spaced(Yield(c)) && Yield(left) + ts == Yield(c) + rest
      && Tree(c) == Binary(OperatorOf(Head(ts))[0], Tree(left), Tree(right))
  {
    EndsExpression(left, level);
    PrefixSpaced(ts, gap, right, rest);
    var signed := [ts[0]] + (gap + Yield(right));
    QuietJoin(Yield(left), signed);
    assert Yield(Infix(left, ts[0], gap, right)) == Yield(left) + signed;
    assert Yield(left) + (signed + rest) == Yield(left) + signed + rest;
  }

  lemma {:induction false} UnaryDerives(ts: seq<Token>) returns (c: Concrete)
    requires ParseUnary(ts).Parsed?
    ensures Derives(c, ts, OPERAND, ParseUnary(ts).expr, ParseUnary(ts).rest)
    decreases |ts|, 0, 2
  {
    if PrefixOf(Head(ts)) != [] {
      var gap := SkippedLines(ts[1..]);
      var operand := UnaryDerives(SkipNewlines(ts[1..]));
      c := Prefix(ts[0], gap, operand);
      PrefixSpaced(ts, gap, operand, ParseUnary(ts).rest);
    } else {
      c := TermDerives(ts);
    }
  }

  lemma PrefixSpaced(ts: seq<Token>, gap: seq<Token>, operand: Concrete, rest: seq<Token>)
    requires Lines(gap) && Spaced(Yield(operand))
    requires ts != [] && !Step(ts) && ts[1..] == gap + (Yield(operand) + rest)
    ensures Spaced([ts[0]] + (gap + Yield(operand)))
    ensures ts == [ts[0]] + (gap + Yield(operand)) + rest
  {
    LinesSpaced(gap);
    QuietJoin(gap, Yield(operand));
    assert ts[1] == (gap + Yield(operand))[0];
    SpacedJoin([ts[0]], gap + Yield(operand));
    assert ts == [ts[0]] + ts[1..];
  }

  lemma {:induction false} TermDerives(ts: seq<Token>) returns (c: Concrete)
    requires ParsePostfix(ts).Parsed?
    ensures Derives(c, ts, OPERAND, ParsePostfix(ts).expr, ParsePostfix(ts).rest)
    decreases |ts|, 0, 1
  {
    if Head(ts) == OpenParen {
      c := GroupDerives(ts);
    } else {
      c := Leaf(ts[0]);
      assert ts == [ts[0]] + ts[1..];
    }
  }

  lemma {:induction false} GroupDerives(ts: seq<Token>) returns (c: Concrete)
    requires ParseTerm(ts).Parsed? && Head(ts) == OpenParen
    ensures Spelled(c, OPERAND) && Spaced(Yield(c)) && Tree(c) == ParseTerm(ts).expr
    ensures ts == Yield(c) + ParseTerm(ts).rest
    decreases |ts|, 0, 0
  {
    var inner := ParseLevel(SkipNewlines(ts[1..]), 0);
    var before := SkippedLines(ts[1..]);
    var i := LevelDerives(SkipNewlines(ts[1..]), 0);
    var after := SkippedLines(inner.rest);
    var close := SkipNewlines(inner.rest);
    c := Group(ts[0], before, i, after, close[0]);
    GroupSpaced(c);
    GroupTokens(ts, c, close);
  }

  lemma GroupTokens(ts: seq<Token>, c: Concrete, close: seq<Token>)
    requires c.Group? && ts != [] && close != [] && c.open == ts[0] && c.close == close[0]
    requires ts[1..] == c.before + (Yield(c.inner) + (c.after + close))
    ensures ts == Yield(c) + close[1..]
  {
    assert close == [close[0]] + close[1..];
    assert ts == [ts[0]] + ts[1..];
  }

  lemma GroupSpaced(c: Concrete)
    requires c.Group? && Spelled(c, OPERAND) && Spaced(Yield(c.inner))
    ensures Spaced(Yield(c))
  {
    LinesSpaced(c.before);
    LinesSpaced(c.after);
    EndsExpression(c.inner, 0);
    ParensSpaced(c.open, c.before, Yield(c.inner), c.after, c.close);
  }

  lemma ParensSpaced(open: Token, before: seq<Token>, inner: seq<Token>, after: seq<Token>, close: Token)
    requires open.kind == OpenParen && Spaced(before) && QuietEnd(before) && Spaced(inner) && QuietEnd(inner)
    requires Spaced(after) && QuietEnd(after)
    ensures Spaced([open] + (before + (inner + (after + [close]))))
  {
    var tail := after + [close];
    QuietJoin(after, [close]);
    var body := inner + tail;
    QuietJoin(inner, tail);
    QuietJoin(before, body);
    QuietJoin([open], before + body);
  }

  // ----- Main results -----

  /** ParseExpression accepts exactly the spellings, and gives exactly their trees. */
  lemma ParserIsGrammar(ts: seq<Token>, level: nat, expr: Expr, rest: seq<Token>)
    requires level <= OPERAND
    ensures ParseLevel(ts, level) == Parsed(expr, rest) <==> exists c :: Derives(c, ts, level, expr, rest)
  {
    if ParseLevel(ts, level) == Parsed(expr, rest) {
      var c := LevelDerives(ts, level);
    }
    if c :| Derives(c, ts, level, expr, rest) {
      ReadsSpelling(c, rest, level);
    }
  }

  /** Two spellings with the same tokens stand for the same expression. */
  lemma SpellingIsUnambiguous(c: Concrete, d: Concrete)
    requires Spelled(c, 0) && Spelled(d, 0) && Yield(c) == Yield(d) && Spaced(Yield(c))
    ensures Tree(c) == Tree(d)
  {
    ReadsSpelling(c, [], 0);
    ReadsSpelling(d, [], 0);
  }

  // ----- Printing -----

  function KindOf(op: BinaryOp): (k: Kind)
    ensures OperatorOf(k) == [op]
  {
    match op
    case LogicalOr => OrOr
    case LogicalAnd => AndAnd
    case BitwiseOr => Pipe
    case BitwiseXor => Caret
    case BitwiseAnd => Ampersand
    case Equal => EqualsEquals
    case NotEqual => NotEquals
    case LessThan => Less
    case GreaterThan => Greater
    case LessEqual => LessEquals
    case GreaterEqual => GreaterEquals
    case ShiftLeftBy => ShiftLeft
    case ShiftRightBy => ShiftRight
    case Add => Plus
    case Subtract => Minus
    case Multiply => Asterisk
    case Divide => Slash
    case Modulo => Percent
  }

  function SignOf(op: UnaryOp): (k: Kind)
    ensures PrefixOf(k) == [op]
  {
    match op
    case LogicalNot => Exclam
    case Negate => Minus
    case BitwiseNot => Tilde
  }

  predicate WellFormed(e: Expr) {
    match e
    case Operand(kind, _) => kind == Identifier || kind == Literal
    case Unary(_, operand) => WellFormed(operand)
    case Binary(_, left, right) => WellFormed(left) && WellFormed(right)
  }

  /** A token that touches no other. */
  function Spell(k: Kind, text: string): (t: Token)
    ensures t.kind == k && t.endOffset != t.offset
  {
    Token(k, text, 0, 1)
  }

  /** The spelling with parentheses only where the ladder needs them. */
  function Print(e: Expr, level: nat): (c: Concrete)
    requires WellFormed(e) && level <= OPERAND
    ensures Spelled(c, level)
    ensures forall t | t in Yield(c) :: t.offset == 0 && t.endOffset == 1
    decreases e, 1
  {
    match e
    case Operand(kind, text) => Leaf(Spell(kind, text))
    case Unary(op, operand) => Prefix(Spell(SignOf(op), ""), [], Print(operand, OPERAND))
    case Binary(op, _, _) =>
      if level <= Level(op) then PrintInfix(e)
      else
        var c := PrintInfix(e);
        assert Spelled(c, 0);
        Group(Spell(OpenParen, ""), [], c, [], Spell(CloseParen, ""))
  }

  function PrintInfix(e: Expr): (c: Concrete)
    requires WellFormed(e) && e.Binary?
    ensures Spelled(c, Level(e.operator))
    ensures forall t | t in Yield(c) :: t.offset == 0 && t.endOffset == 1
    decreases e, 0
  {
    var l := Level(e.operator);
    Infix(Print(e.left, l), Spell(KindOf(e.operator), ""), [], Print(e.right, l + 1))
  }

  lemma {:induction false} PrintedTree(e: Expr, level: nat)
    requires WellFormed(e) && level <= OPERAND
    ensures Tree(Print(e, level)) == e
  {
    match e
    case Operand(_, _) =>
    case Unary(_, operand) => PrintedTree(operand, OPERAND);
    case Binary(op, left, right) =>
      PrintedTree(left, Level(op));
      PrintedTree(right, Level(op) + 1);
      assert Spelled(PrintInfix(e), 0);
      assert Tree(PrintInfix(e)) == e;
  }

  lemma PrintedSpaced(ts: seq<Token>)
    requires forall t | t in ts :: t.offset == 0 && t.endOffset == 1
    ensures Spaced(ts)
  {
  }

  /** Parsing what was printed gives the expression back and consumes just what was printed. */
  lemma PrintParseRoundTrip(e: Expr, rest: seq<Token>)
    requires WellFormed(e) && Follows(rest, 0)
    ensures ParseLevel(Yield(Print(e, 0)) + rest, 0) == Parsed(e, rest)
  {
    PrintedTree(e, 0);
    PrintedSpaced(Yield(Print(e, 0)));
    ReadsAll(Print(e, 0), rest);
  }

  /** ParseWholeExpression reads a spelling between newlines, up to the end of the input. */
  lemma WholeSpellingParses(before: seq<Token>, c: Concrete, after: seq<Token>, end: Token)
    requires Spelled(c, 0) && Spaced(Yield(c)) && Lines(before) && Lines(after) && end.kind == Eof
    ensures ParseWhole(before + (Yield(c) + (after + [end]))) == Parsed(Tree(c), [end])
  {
    var ts := Yield(c) + (after + [end]);
    StartsExpression(c, 0);
    assert Head(ts) == Head(Yield(c));
    SkipsLines(before, ts);
    EndFollows(after, end);
    ReadsAll(c, after + [end]);
    WholeIs(before + ts, ts, Tree(c), after + [end], end);
  }

  lemma EndFollows(after: seq<Token>, end: Token)
    requires Lines(after) && end.kind == Eof
    ensures Follows(after + [end], 0) && SkipNewlines(after + [end]) == [end]
  {
    assert Head(after + [end]) == Newline || Head(after + [end]) == Eof;
    SkipsLines(after, [end]);
  }

  lemma WholeIs(all: seq<Token>, ts: seq<Token>, e: Expr, rest: seq<Token>, end: Token)
    requires SkipNewlines(all) == ts && ParseLevel(ts, 0) == Parsed(e, rest)
    requires SkipNewlines(rest) == [end] && end.kind == Eof
    ensures ParseWhole(all) == Parsed(e, [end])
  {
  }

  lemma ReadsAll(c: Concrete, rest: seq<Token>)
    requires Spelled(c, 0) && Spaced(Yield(c)) && Follows(rest, 0)
    ensures ParseLevel(Yield(c) + rest, 0) == Parsed(Tree(c), rest)
  {
    ReadsSpelling(c, rest, 0);
  }

  /** A group whose removal would still be a spelling. */
  ghost predicate Needless(c: Concrete, level: nat) {
    match c
    case Leaf(_) => false
    case Group(_, _, inner, _, _) => Spelled(inner, level) || Needless(inner, 0)
    case Prefix(_, _, operand) => Needless(operand, OPERAND)
    case Infix(left, sign, _, right) =>
      OperatorOf(sign.kind) != [] &&
      (Needless(left, Level(OperatorOf(sign.kind)[0])) || Needless(right, Level(OperatorOf(sign.kind)[0]) + 1))
  }

  /** The printer writes no needless parentheses. */
  lemma {:induction false} PrintedIsMinimal(e: Expr, level: nat)
    requires WellFormed(e) && level <= OPERAND
    ensures !Needless(Print(e, level), level)
    decreases e, 1
  {
    match e
    case Operand(_, _) =>
    case Unary(_, operand) => PrintedIsMinimal(operand, OPERAND);
    case Binary(op, _, _) =>
      PrintedInfixIsMinimal(e, level);
      assert level > Level(op) ==> !Spelled(PrintInfix(e), level);
  }

  lemma {:induction false} PrintedInfixIsMinimal(e: Expr, level: nat)
    requires WellFormed(e) && e.Binary?
    ensures !Needless(PrintInfix(e), level)
    decreases e, 0
  {
    PrintedIsMinimal(e.left, Level(e.operator));
    PrintedIsMinimal(e.right, Level(e.operator) + 1);
  }
}
