/**
  Compile-time selection (loader/staging.go): evaluating staged expressions and
  priming the bindings of compile-time declarations in whatever order a map
  yields them.
 */
module Staging {
  import opened Types
  import P = Parser

  datatype Value =
    | BoolValue(boolean: bool)
    | IntegerValue(integer: int)
    | FloatValue(floating: string)
    | EnumValue(domain: string, name: string)
    | EnumLiteralValue(name: string)

  datatype Expression =
    | BoolLiteral(text: string)
    | IntegerLiteral(text: string)
    | FloatLiteral(text: string)
    | EnumLiteral(variant: string)
    | Name(name: string)
    | Unary(unary: P.UnaryOp, operand: Expression)
    | Binary(binary: P.BinaryOp, left: Expression, right: Expression)
    | Deferred  // a call, or anything else that staging leaves to the evaluator

  datatype Staged = Resolved(value: Value) | Unresolved | Invalid

  datatype Declaration = Declaration(name: string, value: Expression)

  /** The constants of the target, and how the text of an integer literal is read. */
  datatype Target = Target(constants: map<string, Value>, integers: string -> Option<int>)

  type Scope = map<string, Value>

  // ----- Evaluation -----

  function Magnitude(n: int): nat {
    if n < 0 then -n else n
  }

  /** Division that truncates toward zero: the remainder has the sign of the dividend. */
  function Quo(a: int, b: int): (q: int)
    requires b != 0
    ensures Magnitude(a - q * b) < Magnitude(b)
    ensures a - q * b != 0 ==> (a - q * b < 0 <==> a < 0)
  {
    var q := Magnitude(a) / Magnitude(b);
    TruncatedQuotient(a, b);
    if (a < 0) == (b < 0) then q else -q
  }

  lemma TruncatedQuotient(a: int, b: int)
    requires b != 0
    ensures var q := Magnitude(a) / Magnitude(b);
      0 <= Magnitude(a) - q * Magnitude(b) < Magnitude(b)
    ensures var q := Magnitude(a) / Magnitude(b);
      var s := if (a < 0) == (b < 0) then q else -q;
      a - s * b == if a < 0 then -(Magnitude(a) - q * Magnitude(b)) else Magnitude(a) - q * Magnitude(b)
  {
  }

  function Rem(a: int, b: int): int
    requires b != 0
  {
    a - Quo(a, b) * b
  }

  /** An enum member equals the literal of its name. */
  predicate StageEqual(left: Value, right: Value) {
    if left.EnumValue? && right.EnumLiteralValue? then left.name == right.name
    else if right.EnumValue? && left.EnumLiteralValue? then right.name == left.name
    else left == right
  }

  function NegatedText(text: string): string {
    if |text| > 0 && text[0] == '-' then text[1..] else "-" + text
  }

  function Evaluate(target: Target, bindings: Scope, e: Expression): Staged {
    match e
    case BoolLiteral(text) => Resolved(BoolValue(text == "true"))
    case IntegerLiteral(text) =>
      var value := target.integers(text);
      if value.Some? then Resolved(IntegerValue(value.value)) else Invalid
    case FloatLiteral(text) => Resolved(FloatValue(text))
    case EnumLiteral(variant) => Resolved(EnumLiteralValue(variant))
    case Name(name) =>
      if name in target.constants then Resolved(target.constants[name])
      else if name in bindings then Resolved(bindings[name])
      else Unresolved
    case Unary(op, operand) =>
      var value := Evaluate(target, bindings, operand);
      if value.Resolved? then EvaluateUnary(op, value.value) else value
    case Binary(op, left, right) =>
      var l := Evaluate(target, bindings, left);
      if !l.Resolved? then l
      else
        var r := Evaluate(target, bindings, right);
        if r.Resolved? then EvaluateBinary(op, l.value, r.value) else r
    case Deferred => Unresolved
  }

  function EvaluateUnary(op: P.UnaryOp, v: Value): Staged {
    if op.LogicalNot? && v.BoolValue? then Resolved(BoolValue(!v.boolean))
    else if op.Negate? && v.IntegerValue? then Resolved(IntegerValue(-v.integer))
    else if op.Negate? && v.FloatValue? then Resolved(FloatValue(NegatedText(v.floating)))
    else Invalid
  }

  function EvaluateBinary(op: P.BinaryOp, left: Value, right: Value): Staged {
    match op
    case LogicalAnd | LogicalOr =>
      if left.BoolValue? && right.BoolValue? then
        Resolved(BoolValue(if op.LogicalOr? then left.boolean || right.boolean else left.boolean && right.boolean))
      else Invalid
    case Equal => Resolved(BoolValue(StageEqual(left, right)))
    case NotEqual => Resolved(BoolValue(!StageEqual(left, right)))
    case Add | Subtract | Multiply | Divide | Modulo =>
      if left.IntegerValue? && right.IntegerValue? then Arithmetic(op, left.integer, right.integer) else Invalid
    case LessThan | LessEqual | GreaterThan | GreaterEqual =>
      if left.IntegerValue? && right.IntegerValue? then
        Resolved(BoolValue(Compare(op, left.integer, right.integer)))
      else Invalid
    case _ => Unresolved
  }

  function Arithmetic(op: P.BinaryOp, a: int, b: int): Staged {
    match op
    case Add => Resolved(IntegerValue(a + b))
    case Subtract => Resolved(IntegerValue(a - b))
    case Multiply => Resolved(IntegerValue(a * b))
    case Divide => if b == 0 then Invalid else Resolved(IntegerValue(Quo(a, b)))
    case Modulo => if b == 0 then Invalid else Resolved(IntegerValue(Rem(a, b)))
    case _ => Unresolved
  }

  predicate Compare(op: P.BinaryOp, a: int, b: int) {
    match op
    case LessEqual => a <= b
    case GreaterThan => a > b
    case GreaterEqual => a >= b
    case _ => a < b
  }

  // ----- Runs of primeBindings -----

  /** The bindings after declarations were resolved in an order. */
  function After(target: Target, decls: seq<Declaration>, order: seq<nat>): Scope
    requires forall k | 0 <= k < |order| :: order[k] < |decls|
  {
    if order == [] then map[]
    else
      var before := After(target, decls, order[..|order| - 1]);
      var d := decls[order[|order| - 1]];
      var value := Evaluate(target, before, d.value);
      if value.Resolved? then before[d.name := value.value] else before
  }

  /** Each declaration at most once, and resolved when its turn comes. */
  ghost predicate IsRun(target: Target, decls: seq<Declaration>, order: seq<nat>) {
    && (forall k | 0 <= k < |order| :: order[k] < |decls|)
    && (forall j, k | 0 <= j < k < |order| :: order[j] != order[k])
    && forall k | 0 <= k < |order| :: ResolvedAt(target, decls, order, k)
  }

  ghost predicate ResolvedAt(target: Target, decls: seq<Declaration>, order: seq<nat>, k: nat)
    requires k < |order| && forall j | 0 <= j < |order| :: order[j] < |decls|
  {
    Evaluate(target, After(target, decls, order[..k]), decls[order[k]].value).Resolved?
  }

  /** A run that no declaration can extend. */
  ghost predicate Final(target: Target, decls: seq<Declaration>, order: seq<nat>) {
    && IsRun(target, decls, order)
    && forall i: nat | i < |decls| && i !in order ::
         !Evaluate(target, After(target, decls, order), decls[i].value).Resolved?
  }

  lemma RunExtends(target: Target, decls: seq<Declaration>, order: seq<nat>, i: nat)
    requires IsRun(target, decls, order) && i < |decls| && i !in order
    requires Evaluate(target, After(target, decls, order), decls[i].value).Resolved?
    ensures IsRun(target, decls, order + [i])
    ensures After(target, decls, order + [i]) == After(target, decls, order)[
      decls[i].name := Evaluate(target, After(target, decls, order), decls[i].value).value]
  {
    var longer := order + [i];
    assert longer[..|order|] == order;
    forall k | 0 <= k < |longer| ensures ResolvedAt(target, decls, longer, k) {
      if k < |order| {
        assert longer[..k] == order[..k];
        assert ResolvedAt(target, decls, order, k);
      }
    }
  }

  function Indices(n: nat): (s: set<nat>)
    ensures forall i: nat :: i in s <==> i < n
  {
    if n == 0 then {} else Indices(n - 1) + {n - 1}
  }

  /** The selector's bindings; a declaration is known by its index. */
  class StageSelector {
    const target: Target
    var bindings: Scope

    constructor (target: Target)
      ensures this.target == target && bindings == map[]
    {
      this.target := target;
      bindings := map[];
    }

    /** The bindings are those of some run that cannot go on. */
    method PrimeBindings(decls: seq<Declaration>) returns (ghost order: seq<nat>)
      requires bindings == map[]
      modifies this
      ensures Final(target, decls, order) && bindings == After(target, decls, order)
    {
      var remaining := Indices(|decls|);
      order := [];
      var progress := true;
      while progress
        invariant IsRun(target, decls, order) && bindings == After(target, decls, order)
        invariant forall i: nat :: i in remaining <==> i < |decls| && i !in order
        invariant !progress ==> forall i | i in remaining :: !Evaluate(target, bindings, decls[i].value).Resolved?
        decreases |remaining|, progress
      {
        progress := false;
        var rest := remaining;
        ghost var start := remaining;
        while rest != {}
          invariant rest <= remaining <= start
          invariant IsRun(target, decls, order) && bindings == After(target, decls, order)
          invariant forall i: nat :: i in remaining <==> i < |decls| && i !in order
          invariant !progress ==> remaining == start
          invariant !progress ==>
            forall i | i in remaining - rest :: !Evaluate(target, bindings, decls[i].value).Resolved?
          invariant progress ==> |remaining| < |start|
          decreases rest
        {
          var i: nat :| i in rest;
          rest := rest - {i};
          var value := Evaluate(target, bindings, decls[i].value);
          if value.Resolved? {
            RunExtends(target, decls, order, i);
            bindings := bindings[decls[i].name := value.value];
            order := order + [i];
            remaining := remaining - {i};
            progress := true;
          }
        }
      }
    }
  }

  // ----- What a run computes -----

  /** `b` has every binding of `a`. */
  ghost predicate Extends(a: Scope, b: Scope) {
    forall n | n in a :: n in b && b[n] == a[n]
  }

  ghost predicate DistinctNames(decls: seq<Declaration>) {
    forall i, j | 0 <= i < j < |decls| :: decls[i].name != decls[j].name
  }

  /** Every declaration that resolves in `b` has its value there. */
  ghost predicate Closed(target: Target, decls: seq<Declaration>, b: Scope) {
    ClosedBut(target, decls, {}, b)
  }

  /** The same for the declarations that are not left out. */
  ghost predicate ClosedBut(target: Target, decls: seq<Declaration>, out: set<nat>, b: Scope) {
    forall i | 0 <= i < |decls| && i !in out :: Holds(target, decls[i], b)
  }

  ghost predicate Without(order: seq<nat>, out: set<nat>) {
    forall k | 0 <= k < |order| :: order[k] !in out
  }

  /** No two declarations of the run have one name. */
  ghost predicate DistinctRun(decls: seq<Declaration>, order: seq<nat>)
    requires forall k | 0 <= k < |order| :: order[k] < |decls|
  {
    forall j, k | 0 <= j < k < |order| :: decls[order[j]].name != decls[order[k]].name
  }

  /** A run without the declarations that are left out, which no other one can extend. */
  ghost predicate FinalBut(target: Target, decls: seq<Declaration>, out: set<nat>, order: seq<nat>) {
    && IsRun(target, decls, order) && Without(order, out)
    && forall i: nat | i < |decls| && i !in order && i !in out ::
         !Evaluate(target, After(target, decls, order), decls[i].value).Resolved?
  }

  ghost predicate Holds(target: Target, d: Declaration, b: Scope) {
    var value := Evaluate(target, b, d.value);
    value.Resolved? ==> d.name in b && b[d.name] == value.value
  }

  ghost predicate Least(target: Target, decls: seq<Declaration>, b: Scope) {
    Closed(target, decls, b) && forall c | Closed(target, decls, c) :: Extends(b, c)
  }

  /** New bindings never change what is resolved, or found invalid, already. */
  lemma {:induction false} EvaluateIsMonotone(target: Target, a: Scope, b: Scope, e: Expression)
    requires Extends(a, b)
    ensures !Evaluate(target, a, e).Unresolved? ==> Evaluate(target, b, e) == Evaluate(target, a, e)
  {
    match e
    case Unary(_, operand) => EvaluateIsMonotone(target, a, b, operand);
    case Binary(_, left, right) =>
      EvaluateIsMonotone(target, a, b, left);
      EvaluateIsMonotone(target, a, b, right);
    case _ =>
  }

  lemma RunPrefix(target: Target, decls: seq<Declaration>, order: seq<nat>)
    requires IsRun(target, decls, order) && order != []
    ensures IsRun(target, decls, order[..|order| - 1])
    ensures ResolvedAt(target, decls, order, |order| - 1)
  {
    var shorter := order[..|order| - 1];
    forall k | 0 <= k < |shorter| ensures ResolvedAt(target, decls, shorter, k) {
      assert shorter[..k] == order[..k];
      assert ResolvedAt(target, decls, order, k);
    }
  }

  lemma {:induction false} RunBelowClosed(target: Target, decls: seq<Declaration>, out: set<nat>, order: seq<nat>,
                                          c: Scope)
    requires IsRun(target, decls, order) && Without(order, out) && ClosedBut(target, decls, out, c)
    ensures Extends(After(target, decls, order), c)
    decreases |order|
  {
    if order != [] {
      RunPrefix(target, decls, order);
      var last := |order| - 1;
      RunBelowClosed(target, decls, out, order[..last], c);
      EvaluateIsMonotone(target, After(target, decls, order[..last]), c, decls[order[last]].value);
      assert Holds(target, decls[order[last]], c);
    }
  }

  /** With distinct names a run only adds bindings, and they hold. */
  lemma {:induction false} RunHolds(target: Target, decls: seq<Declaration>, order: seq<nat>, k: nat)
    requires IsRun(target, decls, order) && DistinctRun(decls, order) && k < |order|
    ensures Holds(target, decls[order[k]], After(target, decls, order))
    decreases |order|
  {
    RunPrefix(target, decls, order);
    var last := |order| - 1;
    var shorter := order[..last];
    var before := After(target, decls, shorter);
    BoundNames(target, decls, shorter);
    BoundNames(target, decls, order);
    assert Extends(before, After(target, decls, order)) by {
      assert decls[order[last]].name !in before;
    }
    EvaluateIsMonotone(target, before, After(target, decls, order), decls[order[last]].value);
    if k < last {
      RunHolds(target, decls, shorter, k);
      var d := decls[order[k]];
      RunResolves(target, decls, shorter, k);
      EvaluateIsMonotone(target, before, After(target, decls, order), d.value);
    }
  }

  lemma {:induction false} BoundNames(target: Target, decls: seq<Declaration>, order: seq<nat>)
    requires IsRun(target, decls, order)
    ensures forall n | n in After(target, decls, order) :: exists j | 0 <= j < |order| :: decls[order[j]].name == n
  {
    if order != [] {
      RunPrefix(target, decls, order);
      var shorter := order[..|order| - 1];
      BoundNames(target, decls, shorter);
      forall n | n in After(target, decls, order) ensures exists j | 0 <= j < |order| :: decls[order[j]].name == n {
        if n != decls[order[|order| - 1]].name {
          var j :| 0 <= j < |shorter| && decls[shorter[j]].name == n;
          assert decls[order[j]].name == n;
        }
      }
    }
  }

  /** What was resolved in a run stays resolved at its end. */
  lemma {:induction false} RunResolves(target: Target, decls: seq<Declaration>, order: seq<nat>, k: nat)
    requires IsRun(target, decls, order) && DistinctRun(decls, order) && k < |order|
    ensures Evaluate(target, After(target, decls, order), decls[order[k]].value).Resolved?
    decreases |order|
  {
    RunPrefix(target, decls, order);
    var last := |order| - 1;
    var shorter := order[..last];
    if k < last {
      RunResolves(target, decls, shorter, k);
    }
    StaysResolved(target, decls, order, decls[order[k]].value);
  }

  /** The last declaration of a run of distinct names only adds a binding. */
  lemma StaysResolved(target: Target, decls: seq<Declaration>, order: seq<nat>, e: Expression)
    requires IsRun(target, decls, order) && DistinctRun(decls, order) && order != []
    requires Evaluate(target, After(target, decls, order[..|order| - 1]), e).Resolved?
    ensures Evaluate(target, After(target, decls, order), e).Resolved?
  {
    RunPrefix(target, decls, order);
    BoundNames(target, decls, order[..|order| - 1]);
    EvaluateIsMonotone(target, After(target, decls, order[..|order| - 1]), After(target, decls, order), e);
  }

  /** With distinct names, a run of some declarations that cannot go on is closed. */
  lemma FinalIsClosed(target: Target, decls: seq<Declaration>, out: set<nat>, order: seq<nat>)
    requires FinalBut(target, decls, out, order) && DistinctRun(decls, order)
    ensures ClosedBut(target, decls, out, After(target, decls, order))
  {
    var b := After(target, decls, order);
    forall i | 0 <= i < |decls| && i !in out ensures Holds(target, decls[i], b) {
      if i in order {
        var k :| 0 <= k < |order| && order[k] == i;
        RunHolds(target, decls, order, k);
      }
    }
  }

  /** With distinct names, every run that cannot go on ends in the least closed set of bindings. */
  lemma FinalIsLeast(target: Target, decls: seq<Declaration>, order: seq<nat>)
    requires DistinctNames(decls) && Final(target, decls, order)
    ensures Least(target, decls, After(target, decls, order))
  {
    FinalIsClosed(target, decls, {}, order);
    forall c | Closed(target, decls, c) ensures Extends(After(target, decls, order), c) {
      RunBelowClosed(target, decls, {}, order, c);
    }
  }

  /** The bindings do not depend on the order in which the map yields the declarations. */
  lemma OrderIsIrrelevant(target: Target, decls: seq<Declaration>, order: seq<nat>, other: seq<nat>)
    requires DistinctNames(decls) && Final(target, decls, order) && Final(target, decls, other)
    ensures After(target, decls, order) == After(target, decls, other)
  {
    FinalIsLeast(target, decls, order);
    FinalIsLeast(target, decls, other);
    var a, b := After(target, decls, order), After(target, decls, other);
    assert Extends(a, b) && Extends(b, a);
  }

  // ----- Repeated names -----

  lemma {:induction false} RunBinds(target: Target, decls: seq<Declaration>, order: seq<nat>, k: nat)
    requires IsRun(target, decls, order) && k < |order|
    ensures decls[order[k]].name in After(target, decls, order)
    decreases |order|
  {
    RunPrefix(target, decls, order);
    if k < |order| - 1 {
      RunBinds(target, decls, order[..|order| - 1], k);
    }
  }

  /**
    With any names: when some set of bindings agrees with every declaration that
    resolves in it, each run that cannot go on ends in the least such set.
   */
  lemma ConsistentFinalIsLeast(target: Target, decls: seq<Declaration>, order: seq<nat>, c: Scope)
    requires Closed(target, decls, c) && Final(target, decls, order)
    ensures Least(target, decls, After(target, decls, order))
  {
    var b := After(target, decls, order);
    forall d | Closed(target, decls, d) ensures Extends(b, d) {
      RunBelowClosed(target, decls, {}, order, d);
    }
    forall i | 0 <= i < |decls| ensures Holds(target, decls[i], b) {
      if Evaluate(target, b, decls[i].value).Resolved? {
        EvaluateIsMonotone(target, b, c, decls[i].value);
        assert Holds(target, decls[i], c);
        var k :| 0 <= k < |order| && order[k] == i;
        RunBinds(target, decls, order, k);
      }
    }
  }

  /** So repeated names do no harm where one set of bindings satisfies all declarations. */
  lemma ConsistentOrderIsIrrelevant(target: Target, decls: seq<Declaration>, order: seq<nat>, other: seq<nat>, c: Scope)
    requires Closed(target, decls, c) && Final(target, decls, order) && Final(target, decls, other)
    ensures After(target, decls, order) == After(target, decls, other)
  {
    ConsistentFinalIsLeast(target, decls, order, c);
    ConsistentFinalIsLeast(target, decls, other, c);
    var a, b := After(target, decls, order), After(target, decls, other);
    assert Extends(a, b) && Extends(b, a);
  }

  /** A declaration that needs no other. */
  ghost predicate ResolvesAlone(target: Target, d: Declaration) {
    Evaluate(target, map[], d.value).Resolved?
  }

  ghost predicate Disagree(target: Target, decls: seq<Declaration>, order: seq<nat>, other: seq<nat>) {
    Final(target, decls, order) && Final(target, decls, other)
    && After(target, decls, order) != After(target, decls, other)
  }

  /** Two declarations of one name: the order decides exactly when both resolve alone, to different values. */
  lemma RepeatedNamesDisagree(target: Target, decls: seq<Declaration>)
    requires |decls| == 2 && decls[0].name == decls[1].name
    ensures (exists order, other :: Disagree(target, decls, order, other)) <==>
      && ResolvesAlone(target, decls[0]) && ResolvesAlone(target, decls[1])
      && Evaluate(target, map[], decls[0].value) != Evaluate(target, map[], decls[1].value)
  {
    var r, q := Evaluate(target, map[], decls[0].value), Evaluate(target, map[], decls[1].value);
    if r.Resolved? && q.Resolved? {
      BothAlone(target, decls, 0);
      BothAlone(target, decls, 1);
      assert r != q ==> After(target, decls, [0, 1])[decls[0].name] != After(target, decls, [1, 0])[decls[0].name];
      assert r != q ==> Disagree(target, decls, [0, 1], [1, 0]);
    }
    if !(r.Resolved? && q.Resolved? && r != q) {
      NoneDisagree(target, decls);
    }
  }

  lemma NoneDisagree(target: Target, decls: seq<Declaration>)
    requires |decls| == 2 && decls[0].name == decls[1].name
    requires ResolvesAlone(target, decls[0]) && ResolvesAlone(target, decls[1]) ==>
      Evaluate(target, map[], decls[0].value) == Evaluate(target, map[], decls[1].value)
    ensures !exists order, other :: Disagree(target, decls, order, other)
  {
    forall order, other ensures !Disagree(target, decls, order, other) {
      if Final(target, decls, order) && Final(target, decls, other) {
        OneEnd(target, decls, order, other);
      }
    }
  }

  /** Both declarations resolve alone: the one that comes second wins. */
  lemma BothAlone(target: Target, decls: seq<Declaration>, first: nat)
    requires |decls| == 2 && decls[0].name == decls[1].name && first < 2
    requires ResolvesAlone(target, decls[0]) && ResolvesAlone(target, decls[1])
    ensures Final(target, decls, [first, 1 - first])
    ensures After(target, decls, [first, 1 - first])
            == map[decls[0].name := Evaluate(target, map[], decls[1 - first].value).value]
  {
    var second := 1 - first;
    OneAlone(target, decls, first);
    var before := After(target, decls, [first]);
    EvaluateIsMonotone(target, map[], before, decls[second].value);
    RunExtends(target, decls, [first], second);
    assert [first] + [second] == [first, second];
    assert before[decls[0].name := Evaluate(target, map[], decls[second].value).value]
        == map[decls[0].name := Evaluate(target, map[], decls[second].value).value];
    assert forall i: nat | i < 2 :: i in [first, second];
  }

  lemma OneAlone(target: Target, decls: seq<Declaration>, i: nat)
    requires i < |decls| && ResolvesAlone(target, decls[i])
    ensures IsRun(target, decls, [i])
    ensures After(target, decls, [i]) == map[decls[i].name := Evaluate(target, map[], decls[i].value).value]
  {
    RunExtends(target, decls, [], i);
    assert [] + [i] == [i];
  }

  /** A run of two declarations that ends, given the one that can start it. */
  lemma EndFrom(target: Target, decls: seq<Declaration>, order: seq<nat>)
    requires |decls| == 2 && Final(target, decls, order)
    ensures order == [] ==> !ResolvesAlone(target, decls[0]) && !ResolvesAlone(target, decls[1])
    ensures order != [] ==> order[0] < 2 && ResolvesAlone(target, decls[order[0]])
    ensures order != [] ==> order == [order[0]] || order == [order[0], 1 - order[0]]
    ensures |order| == 1 ==> !Evaluate(target, After(target, decls, order), decls[1 - order[0]].value).Resolved?
    ensures |order| == 2 ==> Evaluate(target, After(target, decls, [order[0]]), decls[1 - order[0]].value).Resolved?
  {
    if order != [] {
      assert ResolvedAt(target, decls, order, 0) && order[..0] == [];
      OrderOfTwo(order);
      if |order| > 1 {
        assert order[..1] == [order[0]];
        assert ResolvedAt(target, decls, order, 1);
      } else {
        assert 1 - order[0] !in order;
      }
    } else {
      assert 0 !in order && 1 !in order;
    }
  }

  lemma OrderOfTwo(order: seq<nat>)
    requires order != [] && forall k | 0 <= k < |order| :: order[k] < 2
    requires forall j, k | 0 <= j < k < |order| :: order[j] != order[k]
    ensures order == [order[0]] || order == [order[0], 1 - order[0]]
  {
    if |order| > 2 {
      NoThreeBelowTwo(order[0], order[1], order[2]);
    }
  }

  lemma NoThreeBelowTwo(a: nat, b: nat, c: nat)
    requires a < 2 && b < 2 && c < 2
    ensures a == b || a == c || b == c
  {
  }

  lemma OneEnd(target: Target, decls: seq<Declaration>, order: seq<nat>, other: seq<nat>)
    requires |decls| == 2 && decls[0].name == decls[1].name
    requires Final(target, decls, order) && Final(target, decls, other)
    requires ResolvesAlone(target, decls[0]) && ResolvesAlone(target, decls[1]) ==>
      Evaluate(target, map[], decls[0].value) == Evaluate(target, map[], decls[1].value)
    ensures After(target, decls, order) == After(target, decls, other)
  {
    EndFrom(target, decls, order);
    EndFrom(target, decls, other);
    if order != [] && other != [] {
      if order[0] == other[0] {
        assert order == other;
      } else {
        BothAlone(target, decls, order[0]);
        BothAlone(target, decls, other[0]);
        BothRun(target, decls, order);
        BothRun(target, decls, other);
      }
    }
  }

  /** When both resolve alone, a run that ends has met both. */
  lemma BothRun(target: Target, decls: seq<Declaration>, order: seq<nat>)
    requires |decls| == 2 && Final(target, decls, order)
    requires ResolvesAlone(target, decls[0]) && ResolvesAlone(target, decls[1])
    ensures order == [0, 1] || order == [1, 0]
  {
    EndFrom(target, decls, order);
    if |order| == 1 {
      EvaluateIsMonotone(target, map[], After(target, decls, order), decls[1 - order[0]].value);
    }
  }
}
