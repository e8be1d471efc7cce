/**
  What the staged operators compute (loader/staging.go), as laws between
  expressions: arithmetic on integers, a linear order, boolean algebra, equality
  across enum members and literals, and which operands are refused.
 */
module StagingLaws {
  import opened Types
  import P = Parser
  import opened Staging

  // ----- Expressions by their value -----

  /** The expression resolves to the integer. */
  predicate Int(target: Target, b: Scope, e: Expression, n: int) {
    Evaluate(target, b, e) == Resolved(IntegerValue(n))
  }

  predicate Truth(target: Target, b: Scope, e: Expression, t: bool) {
    Evaluate(target, b, e) == Resolved(BoolValue(t))
  }

  predicate IsInt(target: Target, b: Scope, e: Expression) {
    Evaluate(target, b, e).Resolved? && Evaluate(target, b, e).value.IntegerValue?
  }

  predicate IsTruth(target: Target, b: Scope, e: Expression) {
    Evaluate(target, b, e).Resolved? && Evaluate(target, b, e).value.BoolValue?
  }

  /** The value is the same, and so is the failure. */
  predicate Same(target: Target, b: Scope, e: Expression, f: Expression) {
    Evaluate(target, b, e) == Evaluate(target, b, f)
  }

  function Plus(e: Expression, f: Expression): Expression { Binary(P.Add, e, f) }

  function Minus(e: Expression, f: Expression): Expression { Binary(P.Subtract, e, f) }

  function Times(e: Expression, f: Expression): Expression { Binary(P.Multiply, e, f) }

  function Over(e: Expression, f: Expression): Expression { Binary(P.Divide, e, f) }

  function Mod(e: Expression, f: Expression): Expression { Binary(P.Modulo, e, f) }

  function Lt(e: Expression, f: Expression): Expression { Binary(P.LessThan, e, f) }

  function Eq(e: Expression, f: Expression): Expression { Binary(P.Equal, e, f) }

  function And(e: Expression, f: Expression): Expression { Binary(P.LogicalAnd, e, f) }

  function Or(e: Expression, f: Expression): Expression { Binary(P.LogicalOr, e, f) }

  function Not(e: Expression): Expression { Unary(P.LogicalNot, e) }

  function Neg(e: Expression): Expression { Unary(P.Negate, e) }

  // ----- Arithmetic -----

  /** Zero and one are neutral, subtracting undoes adding, and multiplying is repeated adding. */
  lemma ArithmeticLaws(
    target: Target, b: Scope, e: Expression, f: Expression, zero: Expression, one: Expression)
    requires IsInt(target, b, e) && IsInt(target, b, f) && Int(target, b, zero, 0) && Int(target, b, one, 1)
    ensures Same(target, b, Plus(e, zero), e) && Same(target, b, Minus(Plus(e, f), f), e)
    ensures Same(target, b, Plus(e, f), Plus(f, e))
    ensures Same(target, b, Times(e, zero), zero) && Same(target, b, Times(e, Plus(f, one)), Plus(Times(e, f), e))
    ensures Same(target, b, Plus(Neg(e), e), zero)
  {
    var m, n := Evaluate(target, b, e).value.integer, Evaluate(target, b, f).value.integer;
    assert m * (n + 1) == m * n + m;
  }

  /** Adding one leads to the next larger integer: there is none in between. */
  lemma SuccessorLaw(target: Target, b: Scope, e: Expression, f: Expression, one: Expression)
    requires IsInt(target, b, e) && IsInt(target, b, f) && Int(target, b, one, 1)
    ensures Truth(target, b, Lt(e, Plus(e, one)), true)
    ensures !(Truth(target, b, Lt(e, f), true) && Truth(target, b, Lt(f, Plus(e, one)), true))
  {
    var m, n := Evaluate(target, b, e).value.integer, Evaluate(target, b, f).value.integer;
    assert Int(target, b, Plus(e, one), m + 1);
    assert Truth(target, b, Lt(e, f), m < n) && Truth(target, b, Lt(f, Plus(e, one)), n < m + 1);
  }

  /** Division and remainder by 0 are refused. */
  lemma DivisionByZero(target: Target, b: Scope, e: Expression, f: Expression)
    requires IsInt(target, b, e) && Int(target, b, f, 0)
    ensures Evaluate(target, b, Over(e, f)).Invalid? && Evaluate(target, b, Mod(e, f)).Invalid?
  {
  }

  /** Quotient and remainder make up the dividend, and the remainder is nearer to 0 than the divisor. */
  lemma DivisionLaws(target: Target, b: Scope, e: Expression, f: Expression, zero: Expression)
    requires IsInt(target, b, e) && IsInt(target, b, f) && Int(target, b, zero, 0)
    requires Truth(target, b, Eq(f, zero), false)
    ensures Same(target, b, Plus(Times(Over(e, f), f), Mod(e, f)), e)
    ensures RemainderIsNear(target, b, e, f)
  {
    var m, n := Evaluate(target, b, e).value.integer, Evaluate(target, b, f).value.integer;
    QuotientAndRemainder(target, b, e, f, m, n);
    assert Int(target, b, Times(Over(e, f), f), Quo(m, n) * n);
  }

  /** The remainder is on the side of the dividend. */
  lemma RemainderSide(target: Target, b: Scope, e: Expression, f: Expression, zero: Expression)
    requires IsInt(target, b, e) && IsInt(target, b, f) && Int(target, b, zero, 0)
    requires Truth(target, b, Eq(f, zero), false)
    ensures Truth(target, b, Lt(zero, e), true) ==> Truth(target, b, Lt(Mod(e, f), zero), false)
    ensures Truth(target, b, Lt(e, zero), true) ==> Truth(target, b, Lt(zero, Mod(e, f)), false)
  {
    var m, n := Evaluate(target, b, e).value.integer, Evaluate(target, b, f).value.integer;
    QuotientAndRemainder(target, b, e, f, m, n);
  }

  lemma QuotientAndRemainder(target: Target, b: Scope, e: Expression, f: Expression, m: int, n: int)
    requires Int(target, b, e, m) && Int(target, b, f, n) && n != 0
    ensures Int(target, b, Over(e, f), Quo(m, n)) && Int(target, b, Mod(e, f), m - Quo(m, n) * n)
  {
  }

  predicate RemainderIsNear(target: Target, b: Scope, e: Expression, f: Expression)
    requires IsInt(target, b, f)
  {
    var r := Evaluate(target, b, Mod(e, f));
    r.Resolved? && r.value.IntegerValue? &&
    Magnitude(r.value.integer) < Magnitude(Evaluate(target, b, f).value.integer)
  }

  // ----- Order -----

  /** Exactly one of `e < f`, `e == f` and `f < e` is true. */
  lemma OrderIsTotal(target: Target, b: Scope, e: Expression, f: Expression)
    requires IsInt(target, b, e) && IsInt(target, b, f)
    ensures IsTruth(target, b, Lt(e, f)) && IsTruth(target, b, Lt(f, e)) && IsTruth(target, b, Eq(e, f))
    ensures
      var less, equal, greater :=
        Truth(target, b, Lt(e, f), true), Truth(target, b, Eq(e, f), true), Truth(target, b, Lt(f, e), true);
      (less || equal || greater) && !(less && equal) && !(less && greater) && !(equal && greater)
    ensures Truth(target, b, Eq(e, f), true) <==> Same(target, b, e, f)
  {
  }

  lemma OrderIsTransitive(target: Target, b: Scope, e: Expression, f: Expression, g: Expression)
    requires IsInt(target, b, e) && IsInt(target, b, f) && IsInt(target, b, g)
    requires Truth(target, b, Lt(e, f), true) && Truth(target, b, Lt(f, g), true)
    ensures Truth(target, b, Lt(e, g), true)
  {
  }

  /** The other comparisons, by `<`. */
  lemma ComparisonsAgree(target: Target, b: Scope, e: Expression, f: Expression)
    requires IsInt(target, b, e) && IsInt(target, b, f)
    ensures Same(target, b, Binary(P.GreaterThan, e, f), Lt(f, e))
    ensures Same(target, b, Binary(P.LessEqual, e, f), Not(Binary(P.GreaterThan, e, f)))
    ensures Same(target, b, Binary(P.GreaterEqual, e, f), Not(Lt(e, f)))
  {
  }

  // ----- Booleans -----

  lemma BooleanLaws(target: Target, b: Scope, t: Expression, f: Expression, e: Expression)
    requires Truth(target, b, t, true) && Truth(target, b, f, false) && IsTruth(target, b, e)
    ensures Same(target, b, And(t, e), e) && Same(target, b, And(f, e), f)
    ensures Same(target, b, Or(f, e), e) && Same(target, b, Or(t, e), t)
    ensures Same(target, b, Not(t), f) && Same(target, b, Not(f), t)
  {
  }

  /** Both operands are evaluated, whatever the left one is. */
  lemma OperatorsAreStrict(target: Target, b: Scope, op: P.BinaryOp, e: Expression, f: Expression)
    ensures !Evaluate(target, b, e).Resolved? ==> Same(target, b, Binary(op, e, f), e)
    ensures Evaluate(target, b, e).Resolved? && !Evaluate(target, b, f).Resolved? ==>
      Same(target, b, Binary(op, e, f), f)
  {
  }

  // ----- Equality -----

  predicate HasValue(target: Target, b: Scope, e: Expression, v: Value) {
    Evaluate(target, b, e) == Resolved(v)
  }

  /**
    `==` is the equality of values, except that an enum member equals the literal of
    its name, from either side; `!=` is its negation.
   */
  lemma EqualityLaws(target: Target, b: Scope, e: Expression, f: Expression, v: Value, w: Value)
    requires HasValue(target, b, e, v) && HasValue(target, b, f, w)
    ensures Truth(target, b, Eq(e, f), true) || Truth(target, b, Eq(e, f), false)
    ensures Truth(target, b, Eq(e, f), true) <==>
      || v == w
      || (exists domain, name :: v == EnumValue(domain, name) && w == EnumLiteralValue(name))
      || (exists domain, name :: w == EnumValue(domain, name) && v == EnumLiteralValue(name))
    ensures Same(target, b, Binary(P.NotEqual, e, f), Not(Eq(e, f)))
  {
    if v.EnumValue? && w.EnumLiteralValue? && v.name == w.name {
      assert v == EnumValue(v.domain, v.name) && w == EnumLiteralValue(v.name);
    }
    if w.EnumValue? && v.EnumLiteralValue? && v.name == w.name {
      assert w == EnumValue(w.domain, w.name) && v == EnumLiteralValue(w.name);
    }
  }

  /** It is not transitive: members of two enums equal the literal of one name. */
  lemma EqualityIsNotTransitive(target: Target, first: string, second: string, name: string)
    requires first != second
    ensures
      var b := map["e" := EnumValue(first, name), "f" := EnumValue(second, name)];
      "e" !in target.constants && "f" !in target.constants ==>
        && Truth(target, b, Eq(Name("e"), EnumLiteral(name)), true)
        && Truth(target, b, Eq(EnumLiteral(name), Name("f")), true)
        && Truth(target, b, Eq(Name("e"), Name("f")), false)
  {
    assert "e" != "f" by {
      assert "e"[0] != "f"[0];
    }
  }

  // ----- Names and literals -----

  /** A constant of the target wins over a binding, and other names have their binding or wait for one. */
  lemma NameLaws(target: Target, b: Scope, name: string)
    ensures name in target.constants ==> HasValue(target, b, Name(name), target.constants[name])
    ensures name !in target.constants && name in b ==> HasValue(target, b, Name(name), b[name])
    ensures name !in target.constants && name !in b ==> Evaluate(target, b, Name(name)).Unresolved?
  {
  }

  /** Only the text `true` is true, an integer is what its text reads as, and a float is its text. */
  lemma LiteralLaws(target: Target, b: Scope, text: string)
    ensures Truth(target, b, BoolLiteral(text), text == "true")
    ensures Evaluate(target, b, IntegerLiteral(text)).Invalid? <==> target.integers(text).None?
    ensures forall n :: Int(target, b, IntegerLiteral(text), n) <==> target.integers(text) == Some(n)
    ensures forall n :: Int(target, b, Neg(IntegerLiteral(text)), n) <==> target.integers(text) == Some(-n)
    ensures HasValue(target, b, EnumLiteral(text), EnumLiteralValue(text))
    ensures HasValue(target, b, FloatLiteral(text), FloatValue(text))
    ensures HasValue(target, b, Neg(FloatLiteral(text)), FloatValue(NegatedText(text)))
    ensures Evaluate(target, b, Deferred).Unresolved?
  {
  }

  /** Negating the text of a float twice gives it back, unless it starts with two signs. */
  lemma NegatedTwice(text: string)
    ensures NegatedText(NegatedText(text)) == text <==> !("--" <= text)
  {
    if |text| > 0 && text[0] == '-' {
      assert text == "-" + text[1..];
      if |text| > 1 && text[1] == '-' {
        assert "--" <= text;
        assert NegatedText(NegatedText(text)) == text[2..];
      }
    } else {
      assert ("-" + text)[1..] == text;
    }
  }

  // ----- What is refused -----

  predicate Arithmetical(op: P.BinaryOp) {
    op in {P.Add, P.Subtract, P.Multiply, P.Divide, P.Modulo}
  }

  predicate Comparing(op: P.BinaryOp) {
    op in {P.LessThan, P.LessEqual, P.GreaterThan, P.GreaterEqual}
  }

  /** On resolved operands: what is an error, what waits for the later stages, and what has a value. */
  lemma RefusedExactly(target: Target, b: Scope, op: P.BinaryOp, e: Expression, f: Expression, zero: Expression)
    requires Evaluate(target, b, e).Resolved? && Evaluate(target, b, f).Resolved? && Int(target, b, zero, 0)
    ensures
      var r := Evaluate(target, b, Binary(op, e, f));
      && (r.Invalid? <==>
          || ((Arithmetical(op) || Comparing(op)) && !(IsInt(target, b, e) && IsInt(target, b, f)))
          || (op in {P.LogicalAnd, P.LogicalOr} && !(IsTruth(target, b, e) && IsTruth(target, b, f)))
          || (op in {P.Divide, P.Modulo} && Truth(target, b, Eq(f, zero), true)))
      && (r.Unresolved? <==>
          op in {P.BitwiseOr, P.BitwiseXor, P.BitwiseAnd, P.ShiftLeftBy, P.ShiftRightBy})
      && (r.Resolved? && Arithmetical(op) ==> r.value.IntegerValue?)
      && (r.Resolved? && !Arithmetical(op) ==> r.value.BoolValue?)
  {
  }

  /** `!` takes booleans, `-` takes integers and floats, and `~` takes nothing. */
  lemma UnaryRefusedExactly(target: Target, b: Scope, op: P.UnaryOp, e: Expression)
    requires Evaluate(target, b, e).Resolved?
    ensures
      var v := Evaluate(target, b, e).value;
      var r := Evaluate(target, b, Unary(op, e));
      && (r.Invalid? <==>
          !(op.LogicalNot? && v.BoolValue?) && !(op.Negate? && (v.IntegerValue? || v.FloatValue?)))
      && (!r.Invalid? ==> r.Resolved? && (r.value.BoolValue? <==> v.BoolValue?)
                          && (r.value.IntegerValue? <==> v.IntegerValue?))
      && (r.Resolved? && v.FloatValue? ==> r.value == FloatValue(NegatedText(v.floating)))
  {
  }
}
