/** How tightly the operators bind, as a ladder of tokens. */
module PrecedenceLaws {
  import opened Parser
  import opened ParserLaws

  /** The binary operators from the loosest to the tightest. */
  const LADDER: seq<map<Kind, BinaryOp>> := [
    map[OrOr := LogicalOr],
    map[AndAnd := LogicalAnd],
    map[Pipe := BitwiseOr],
    map[Caret := BitwiseXor],
    map[Ampersand := BitwiseAnd],
    map[EqualsEquals := Equal, NotEquals := NotEqual, Less := LessThan, LessEquals := LessEqual,
        Greater := GreaterThan, GreaterEquals := GreaterEqual],
    map[Kind.ShiftLeft := ShiftLeftBy, Kind.ShiftRight := ShiftRightBy],
    map[Plus := Add, Minus := Subtract],
    map[Asterisk := Multiply, Slash := Divide, Percent := Modulo]]

  const SIGNS: map<Kind, UnaryOp> := map[Exclam := LogicalNot, Minus := Negate, Tilde := BitwiseNot]

  /** The token reads as the operator, on its rung. */
  lemma LadderIsRight(i: nat, k: Kind)
    requires i < |LADDER| && k in LADDER[i]
    ensures OperatorOf(k) == [LADDER[i][k]] && Level(LADDER[i][k]) == i
  {
    if i == 5 {
      ComparisonsAreRight(k);
    }
  }

  lemma ComparisonsAreRight(k: Kind)
    requires k in LADDER[5]
    ensures OperatorOf(k) == [LADDER[5][k]] && Level(LADDER[5][k]) == 5
  {
  }

  /** Every operator is on the ladder. */
  lemma LadderIsWhole(k: Kind)
    ensures OperatorOf(k) != [] <==> exists i | 0 <= i < |LADDER| :: k in LADDER[i]
  {
    if OperatorOf(k) != [] {
      assert k in LADDER[Level(OperatorOf(k)[0])];
    }
  }

  predicate IsOperand(t: Token) {
    t.kind == Identifier || t.kind == Literal
  }

  function OperandOf(t: Token): Expr {
    Operand(t.kind, t.text)
  }

  /** The spelling, on one line, is that of the expression. */
  predicate Spells(c: Concrete, level: nat, ts: seq<Token>, e: Expr) {
    Spelled(c, level) && Yield(c) == ts && Tree(c) == e
  }

  lemma LeafSpells(t: Token, level: nat)
    requires IsOperand(t)
    ensures Spells(Leaf(t), level, [t], OperandOf(t))
  {
  }

  lemma InfixSpells(c: Concrete, ts: seq<Token>, e: Expr, sign: Token, d: Concrete, us: seq<Token>, f: Expr,
                    op: BinaryOp, level: nat)
    requires OperatorOf(sign.kind) == [op] && level <= Level(op)
    requires Spells(c, Level(op), ts, e) && Spells(d, Level(op) + 1, us, f)
    ensures Spells(Infix(c, sign, [], d), level, ts + ([sign] + us), Binary(op, e, f))
  {
    assert [sign] + ([] + us) == [sign] + us;
  }

  /** Neither operands nor different tokens next to each other make a `++` or a `--`. */
  lemma AlternatingIsSpaced(ts: seq<Token>)
    requires forall n | 0 <= n < |ts| - 1 :: ts[n].kind != ts[n + 1].kind
    ensures Spaced(ts)
  {
    forall n: nat | n < |ts| ensures !PairAt(ts, n) {
      assert ts[n..][0] == ts[n] && (n + 1 < |ts| ==> ts[n..][1] == ts[n + 1]);
    }
  }

  /** A spelling on one line is all that a whole expression needs. */
  lemma LineParses(c: Concrete, ts: seq<Token>, e: Expr, end: Token)
    requires Spells(c, 0, ts, e) && Spaced(ts) && end.kind == Eof
    ensures ParseWhole(ts + [end]) == Parsed(e, [end])
  {
    WholeSpellingParses([], c, [], end);
    assert [] + (Yield(c) + ([] + [end])) == ts + [end];
  }

  lemma FiveTokens(a: Token, first: Token, b: Token, second: Token, c: Token)
    requires IsOperand(a) && IsOperand(b) && IsOperand(c)
    requires OperatorOf(first.kind) != [] && OperatorOf(second.kind) != []
    ensures [a] + ([first] + ([b] + ([second] + [c]))) == [a, first, b, second, c]
    ensures [a] + ([first] + [b]) + ([second] + [c]) == [a, first, b, second, c]
    ensures Spaced([a, first, b, second, c])
  {
    AlternatingIsSpaced([a, first, b, second, c]);
  }

  lemma GroupsRight(a: Token, first: Token, b: Token, second: Token, c: Token, end: Token, op: BinaryOp, oq: BinaryOp)
    requires IsOperand(a) && IsOperand(b) && IsOperand(c) && end.kind == Eof
    requires OperatorOf(first.kind) == [op] && OperatorOf(second.kind) == [oq] && Level(op) < Level(oq)
    ensures ParseWhole([a, first, b, second, c] + [end])
            == Parsed(Binary(op, OperandOf(a), Binary(oq, OperandOf(b), OperandOf(c))), [end])
  {
    var x, y, z := OperandOf(a), OperandOf(b), OperandOf(c);
    var inner := Infix(Leaf(b), second, [], Leaf(c));
    LeafSpells(a, Level(op));
    LeafSpells(b, Level(oq));
    LeafSpells(c, Level(oq) + 1);
    InfixSpells(Leaf(b), [b], y, second, Leaf(c), [c], z, oq, Level(op) + 1);
    InfixSpells(Leaf(a), [a], x, first, inner, [b] + ([second] + [c]), Binary(oq, y, z), op, 0);
    FiveTokens(a, first, b, second, c);
    LineParses(Infix(Leaf(a), first, [], inner), [a, first, b, second, c], Binary(op, x, Binary(oq, y, z)), end);
  }

  lemma GroupsLeft(a: Token, first: Token, b: Token, second: Token, c: Token, end: Token, op: BinaryOp, oq: BinaryOp)
    requires IsOperand(a) && IsOperand(b) && IsOperand(c) && end.kind == Eof
    requires OperatorOf(first.kind) == [op] && OperatorOf(second.kind) == [oq] && Level(oq) <= Level(op)
    ensures ParseWhole([a, first, b, second, c] + [end])
            == Parsed(Binary(oq, Binary(op, OperandOf(a), OperandOf(b)), OperandOf(c)), [end])
  {
    var x, y, z := OperandOf(a), OperandOf(b), OperandOf(c);
    var inner := Infix(Leaf(a), first, [], Leaf(b));
    LeafSpells(a, Level(op));
    LeafSpells(b, Level(op) + 1);
    LeafSpells(c, Level(oq) + 1);
    InfixSpells(Leaf(a), [a], x, first, Leaf(b), [b], y, op, Level(oq));
    InfixSpells(inner, [a] + ([first] + [b]), Binary(op, x, y), second, Leaf(c), [c], z, oq, 0);
    FiveTokens(a, first, b, second, c);
    LineParses(Infix(inner, second, [], Leaf(c)), [a, first, b, second, c], Binary(oq, Binary(op, x, y), z), end);
  }

  // ----- What is refused, and what is left out -----

  /** Two adjacent plus or minus signs are refused, before an operand and after it. */
  lemma AdjacentSignsAreRefused(first: Token, second: Token, rest: seq<Token>, a: Token)
    requires first.kind == second.kind && (first.kind == Plus || first.kind == Minus)
    requires first.endOffset == second.offset && IsOperand(a)
    ensures ParseLevel([first, second] + rest, 0) == SyntaxError
    ensures ParseLevel([a, first, second] + rest, 0) == SyntaxError
  {
    var ts, us := [first, second] + rest, [a, first, second] + rest;
    assert ts[0] == first && ts[1] == second && us[0] == a && us[1..] == ts;
    assert AdjacentPair(ts, first.kind);
    assert ParseUnary(ts) == SyntaxError;
    assert ParseTerm(us) == Parsed(OperandOf(a), ts);
    assert ParseUnary(us) == ParsePostfix(us) == SyntaxError;
    UnaryDecides(ts, 0);
    UnaryDecides(us, 0);
  }

  /** Signs that do not touch negate twice. */
  lemma SpacedSignsNegateTwice(first: Token, second: Token, a: Token, end: Token)
    requires first.kind == Minus && second.kind == Minus && first.endOffset != second.offset
    requires IsOperand(a) && end.kind == Eof
    ensures ParseWhole([first, second, a] + [end]) == Parsed(Unary(Negate, Unary(Negate, OperandOf(a))), [end])
  {
    var inner := Prefix(second, [], Leaf(a));
    LeafSpells(a, OPERAND);
    assert [second] + ([] + [a]) == [second, a] && [first] + ([] + [second, a]) == [first, second, a];
    assert Spells(inner, OPERAND, [second, a], Unary(Negate, OperandOf(a)));
    var ts := [first, second, a];
    forall n: nat | n < |ts| ensures !PairAt(ts, n) {
      assert ts[n..][0] == ts[n] && (n + 1 < |ts| ==> ts[n..][1] == ts[n + 1]);
    }
    LineParses(Prefix(first, [], inner), ts, Unary(Negate, Unary(Negate, OperandOf(a))), end);
  }

  /** A failure of the operand is one of the whole. */
  lemma {:induction false} UnaryDecides(ts: seq<Token>, level: nat)
    requires level <= OPERAND && !ParseUnary(ts).Parsed?
    ensures ParseLevel(ts, level) == ParseUnary(ts)
    decreases OPERAND - level
  {
    if level < OPERAND {
      UnaryDecides(ts, level + 1);
    }
  }

  /** The tokens that begin a construct outside this model, and those that continue a term outside it. */
  const OUTSIDE_STARTS: set<Kind> := {Pipe, OrOr, Construct, OpenCurly, OpenSquare}

  const OUTSIDE_SUFFIXES: set<Kind> := {OpenParen, OpenSquare, Dot}

  /** A term that fails is the failure of the whole. */
  lemma TermDecides(ts: seq<Token>)
    requires !Step(ts) && PrefixOf(Head(ts)) == [] && !ParseTerm(ts).Parsed?
    ensures ParseLevel(ts, 0) == ParseTerm(ts)
  {
    assert ParseUnary(ts) == ParsePostfix(ts) == ParseTerm(ts);
    UnaryDecides(ts, 0);
  }

  lemma StartsOutside(ts: seq<Token>)
    requires ts != []
    requires ts[0].kind in OUTSIDE_STARTS || (ts[0].kind == Dot && Head(ts[1..]) in {OpenCurly, Identifier})
    ensures ParseLevel(ts, 0) == Outside
  {
    TermDecides(ts);
  }

  lemma ContinuesOutside(a: Token, ts: seq<Token>)
    requires IsOperand(a) && Head(ts) in OUTSIDE_SUFFIXES
    ensures ParseLevel([a] + ts, 0) == Outside
  {
    var us := [a] + ts;
    assert us[0] == a && us[1..] == ts;
    assert ParseTerm(us) == Parsed(OperandOf(a), ts) && ParsePostfix(us) == Outside;
    assert ParseUnary(us) == Outside;
    UnaryDecides(us, 0);
  }

  /** What begins no expression is refused. */
  lemma StrayIsRefused(ts: seq<Token>)
    requires Head(ts) in {CloseParen, Stray, Newline, Eof, Plus, Asterisk, Slash, Percent}
    ensures ParseLevel(ts, 0) == SyntaxError
  {
    if Step(ts) {
      UnaryDecides(ts, 0);
    } else {
      TermDecides(ts);
    }
  }

  /** `a k b l c` groups to the right when `l` binds tighter, and to the left otherwise. */
  lemma TwoOperators(a: Token, first: Token, b: Token, second: Token, c: Token, end: Token, i: nat, j: nat)
    requires IsOperand(a) && IsOperand(b) && IsOperand(c) && end.kind == Eof
    requires i < |LADDER| && first.kind in LADDER[i] && j < |LADDER| && second.kind in LADDER[j]
    ensures
      var op, oq := LADDER[i][first.kind], LADDER[j][second.kind];
      var x, y, z := OperandOf(a), OperandOf(b), OperandOf(c);
      ParseWhole([a, first, b, second, c] + [end])
      == Parsed(if i < j then Binary(op, x, Binary(oq, y, z)) else Binary(oq, Binary(op, x, y), z), [end])
  {
    LadderIsRight(i, first.kind);
    LadderIsRight(j, second.kind);
    if i < j {
      GroupsRight(a, first, b, second, c, end, LADDER[i][first.kind], LADDER[j][second.kind]);
    } else {
      GroupsLeft(a, first, b, second, c, end, LADDER[i][first.kind], LADDER[j][second.kind]);
    }
  }

  /** A sign binds tighter than every binary operator. */
  lemma SignBindsTightest(sign: Token, a: Token, first: Token, b: Token, end: Token, i: nat)
    requires IsOperand(a) && IsOperand(b) && end.kind == Eof
    requires sign.kind in SIGNS && i < |LADDER| && first.kind in LADDER[i]
    ensures
      ParseWhole([sign, a, first, b] + [end])
      == Parsed(Binary(LADDER[i][first.kind], Unary(SIGNS[sign.kind], OperandOf(a)), OperandOf(b)), [end])
  {
    LadderIsRight(i, first.kind);
    SignReads(sign, a, first, b, end, SIGNS[sign.kind], LADDER[i][first.kind]);
  }

  lemma SignReads(sign: Token, a: Token, first: Token, b: Token, end: Token, op: UnaryOp, oq: BinaryOp)
    requires IsOperand(a) && IsOperand(b) && end.kind == Eof
    requires PrefixOf(sign.kind) == [op] && OperatorOf(first.kind) == [oq]
    ensures ParseWhole([sign, a, first, b] + [end])
            == Parsed(Binary(oq, Unary(op, OperandOf(a)), OperandOf(b)), [end])
  {
    var x, y := OperandOf(a), OperandOf(b);
    var inner := Prefix(sign, [], Leaf(a));
    LeafSpells(a, OPERAND);
    LeafSpells(b, Level(oq) + 1);
    assert [sign] + ([] + [a]) == [sign, a];
    assert Spells(inner, Level(oq), [sign, a], Unary(op, x));
    InfixSpells(inner, [sign, a], Unary(op, x), first, Leaf(b), [b], y, oq, 0);
    assert [sign, a] + ([first] + [b]) == [sign, a, first, b];
    AlternatingIsSpaced([sign, a, first, b]);
    LineParses(Infix(inner, first, [], Leaf(b)), [sign, a, first, b], Binary(oq, Unary(op, x), y), end);
  }
}
