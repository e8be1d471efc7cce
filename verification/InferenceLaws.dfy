/** What inference promises: order plays no part, and matching inverts substitution. */
module InferenceLaws {
  import opened Types
  import opened TypeEquality
  import opened Substitution
  import opened SubstitutionLaws
  import opened Inference

  // ----- The outcome depends only on which events occur -----

  ghost function EventSet(es: seq<Event>): set<Event> {
    set i | 0 <= i < |es| :: es[i]
  }

  ghost predicate Typed(e: Event, k: string) {
    e.key == k && !HasUntyped(e.actual)
  }

  /** No parameter meets two different types; untyped literals do not count. */
  ghost predicate Consistent(table: AliasTable, es: set<Event>) {
    forall e, f | e in es && f in es && Typed(e, e.key) && Typed(f, e.key) ::
      Canon(table, e.actual) == Canon(table, f.actual)
  }

  ghost predicate PlainEvents(table: AliasTable, es: set<Event>) {
    forall e | e in es :: Plain(table, e.actual)
  }

  /** `m` holds, for every parameter met, its type, or a placeholder when it met no type. */
  ghost predicate Summarises(table: AliasTable, m: Bindings, es: set<Event>) {
    && m.Keys == (set e | e in es :: e.key)
    && (forall k | k in m :: Plain(table, m[k]))
    && (forall e | e in es && Typed(e, e.key) ::
          !HasUntyped(m[e.key]) && Canon(table, m[e.key]) == Canon(table, e.actual))
    && (forall k | k in m && !HasUntyped(m[k]) :: exists e :: e in es && Typed(e, k))
  }

  /** The declarative meaning of the fold: success is consistency, and the map summarises. */
  lemma {:induction false} FoldSummarises(table: AliasTable, es: seq<Event>)
    requires PlainEvents(table, EventSet(es))
    ensures Fold(table, es, map[]).ok <==> Consistent(table, EventSet(es))
    ensures Fold(table, es, map[]).ok ==> Summarises(table, Fold(table, es, map[]).inferred, EventSet(es))
  {
    if es == [] {
      assert EventSet(es) == {};
    } else {
      var before := es[..|es| - 1];
      var last := es[|es| - 1];
      assert EventSet(es) == EventSet(before) + {last};
      FoldSummarises(table, before);
      if Fold(table, before, map[]).ok {
        BindSummarises(table, EventSet(before), last, Fold(table, before, map[]).inferred);
      }
    }
  }

  lemma BindSummarises(table: AliasTable, es: set<Event>, e: Event, m: Bindings)
    requires Summarises(table, m, es) && Consistent(table, es) && Plain(table, e.actual)
    ensures Bind(table, e, m).ok <==> Consistent(table, es + {e})
    ensures Bind(table, e, m).ok ==> Summarises(table, Bind(table, e, m).inferred, es + {e})
  {
    if e.key in m {
      EqualsIsCanon(table, m[e.key], e.actual);
    }
    if Bind(table, e, m).ok {
      BindKeepsSummary(table, es, e, m);
    } else {
      var f :| f in es && Typed(f, e.key);
      assert Canon(table, f.actual) != Canon(table, e.actual);
    }
  }

  lemma BindKeepsSummary(table: AliasTable, es: set<Event>, e: Event, m: Bindings)
    requires Summarises(table, m, es) && Consistent(table, es) && Plain(table, e.actual)
    requires e.key in m ==>
      (Equals(table, {}, m[e.key], e.actual) <==> Canon(table, m[e.key]) == Canon(table, e.actual))
    requires Bind(table, e, m).ok
    ensures Consistent(table, es + {e}) && Summarises(table, Bind(table, e, m).inferred, es + {e})
  {
    var r := Bind(table, e, m).inferred;
    assert r.Keys == (set f | f in es + {e} :: f.key);
    forall f | f in es + {e} && Typed(f, f.key)
      ensures !HasUntyped(r[f.key]) && Canon(table, r[f.key]) == Canon(table, f.actual)
    {
      BindTypes(table, es, e, m, f);
    }
    BindIsWitnessed(table, es, e, m);
    SummaryIsConsistent(table, r, es + {e});
  }

  lemma BindTypes(table: AliasTable, es: set<Event>, e: Event, m: Bindings, f: Event)
    requires Summarises(table, m, es) && Bind(table, e, m).ok && f in es + {e} && Typed(f, f.key)
    requires e.key in m ==>
      (Equals(table, {}, m[e.key], e.actual) <==> Canon(table, m[e.key]) == Canon(table, e.actual))
    ensures
      var r := Bind(table, e, m).inferred;
      f.key in r && !HasUntyped(r[f.key]) && Canon(table, r[f.key]) == Canon(table, f.actual)
  {
    assert f == e || f in es;
  }

  lemma BindIsWitnessed(table: AliasTable, es: set<Event>, e: Event, m: Bindings)
    requires Summarises(table, m, es) && Bind(table, e, m).ok
    ensures
      var r := Bind(table, e, m).inferred;
      forall k | k in r && !HasUntyped(r[k]) :: exists f :: f in es + {e} && Typed(f, k)
  {
    var r := Bind(table, e, m).inferred;
    forall k | k in r && !HasUntyped(r[k]) ensures exists f :: f in es + {e} && Typed(f, k) {
      if k == e.key && !HasUntyped(e.actual) {
        assert Typed(e, k);
      } else {
        var f :| f in es && Typed(f, k);
      }
    }
  }

  lemma SummaryIsConsistent(table: AliasTable, m: Bindings, es: set<Event>)
    requires forall e | e in es && Typed(e, e.key) :: e.key in m && Canon(table, m[e.key]) == Canon(table, e.actual)
    ensures Consistent(table, es)
  {
  }

  // ----- Permuting the arguments -----

  /** Same keys, the same ones settled, and equal types on those. */
  ghost predicate Alike(table: AliasTable, m: Bindings, n: Bindings) {
    && m.Keys == n.Keys
    && forall k | k in m :: AlikeAt(table, m[k], n[k])
  }

  ghost predicate AlikeAt(table: AliasTable, x: Type, y: Type) {
    HasUntyped(x) == HasUntyped(y) && (!HasUntyped(x) ==> Canon(table, x) == Canon(table, y))
  }

  /** Two runs over the same set of events end alike, up to type equality. */
  lemma SameEventsSameOutcome(table: AliasTable, a: seq<Event>, b: seq<Event>)
    requires PlainEvents(table, EventSet(a)) && EventSet(a) == EventSet(b)
    ensures
      var oa, ob := Fold(table, a, map[]), Fold(table, b, map[]);
      oa.ok == ob.ok && (oa.ok ==> Alike(table, oa.inferred, ob.inferred))
  {
    FoldSummarises(table, a);
    FoldSummarises(table, b);
    if Fold(table, a, map[]).ok {
      SummariesAlike(table, Fold(table, a, map[]).inferred, Fold(table, b, map[]).inferred, EventSet(a));
    }
  }

  lemma SummariesAlike(table: AliasTable, m: Bindings, n: Bindings, es: set<Event>)
    requires Summarises(table, m, es) && Summarises(table, n, es)
    ensures Alike(table, m, n)
  {
    forall k | k in m ensures AlikeAt(table, m[k], n[k]) {
      if !HasUntyped(m[k]) {
        var e :| e in es && Typed(e, k);
      }
      if !HasUntyped(n[k]) {
        var e :| e in es && Typed(e, k);
      }
    }
  }

  ghost predicate SameResult(table: AliasTable, r: InferenceResult, q: InferenceResult) {
    if r.Inferred? && q.Inferred? then
      |r.arguments| == |q.arguments| &&
      forall i | 0 <= i < |r.arguments| :: Canon(table, r.arguments[i]) == Canon(table, q.arguments[i])
    else r == q
  }

  lemma {:induction false} AlikeDecide(table: AliasTable, parameters: seq<Parameter>, m: Bindings, n: Bindings,
                                       count: nat, partial: bool)
    requires Alike(table, m, n) && count <= |parameters|
    ensures SameResult(table, Decide(parameters, m, count, partial), Decide(parameters, n, count, partial))
    decreases count
  {
    if count > 0 {
      AlikeDecide(table, parameters, m, n, count - 1, partial);
      AlikeStep(table, parameters, m, n, count, partial);
    }
  }

  lemma AlikeStep(table: AliasTable, parameters: seq<Parameter>, m: Bindings, n: Bindings, count: nat, partial: bool)
    requires Alike(table, m, n) && 0 < count <= |parameters|
    requires SameResult(table, Decide(parameters, m, count - 1, partial), Decide(parameters, n, count - 1, partial))
    ensures SameResult(table, Decide(parameters, m, count, partial), Decide(parameters, n, count, partial))
  {
    var a, b := Decide(parameters, m, count - 1, partial), Decide(parameters, n, count - 1, partial);
    if a.Inferred? && b.Inferred? {
      AlikeNext(table, a.arguments, b.arguments, parameters[count - 1], m, n, count - 1, partial);
    }
  }

  lemma AlikeNext(table: AliasTable, a: seq<Type>, b: seq<Type>, p: Parameter, m: Bindings, n: Bindings, i: nat,
                  partial: bool)
    requires Alike(table, m, n) && SameResult(table, Inferred(a), Inferred(b))
    ensures SameResult(table, DecideNext(a, p, m, i, partial), DecideNext(b, p, n, i, partial))
  {
    assert p.Key() in m ==> AlikeAt(table, m[p.Key()], n[p.Key()]);
  }

  function Pairs(patterns: seq<Type>, actuals: seq<Type>): seq<(Type, Type)>
    requires |patterns| == |actuals|
  {
    seq(|patterns|, i requires 0 <= i < |patterns| => (patterns[i], actuals[i]))
  }

  /** Without typed variadics, reordering parameters together with their arguments changes nothing. */
  lemma PermutationInvariant(
    table: AliasTable, parameters: seq<Parameter>, patterns: seq<Type>, actuals: seq<Type>,
    patterns': seq<Type>, actuals': seq<Type>, resultPattern: Type, expectedResult: Type, partial: bool)
    requires |patterns| == |actuals| && |patterns'| == |actuals'|
    requires multiset(Pairs(patterns, actuals)) == multiset(Pairs(patterns', actuals'))
    requires PlainEvents(table, EventSet(CallEvents(table, patterns, actuals, |actuals|, false, false)))
    ensures SameResult(table, 
              InferArguments(table, parameters, patterns, actuals, resultPattern, expectedResult,
                             false, false, partial),
              InferArguments(table, parameters, patterns', actuals', resultPattern, expectedResult,
                             false, false, partial))
  {
    var a := CallEvents(table, patterns, actuals, |actuals|, false, false);
    var b := CallEvents(table, patterns', actuals', |actuals'|, false, false);
    PairsGiveEvents(table, patterns, actuals, patterns', actuals');
    PairsGiveEvents(table, patterns', actuals', patterns, actuals);
    SameEventsSameOutcome(table, a, b);
    assert ActualsOutcome(table, patterns, actuals, false, false) == Fold(table, a, map[]);
    assert ActualsOutcome(table, patterns', actuals', false, false) == Fold(table, b, map[]);
    if Fold(table, a, map[]).ok {
      AlikeResults(table, parameters, Fold(table, a, map[]).inferred, Fold(table, b, map[]).inferred,
                   resultPattern, expectedResult, partial);
    }
  }

  /** Maps that are alike after the arguments give the same result, whatever result is expected. */
  lemma AlikeResults(table: AliasTable, parameters: seq<Parameter>, m: Bindings, n: Bindings,
                     resultPattern: Type, expectedResult: Type, partial: bool)
    requires Alike(table, m, n)
    ensures SameResult(table, 
              Decide(parameters, WithResult(resultPattern, expectedResult, m), |parameters|, partial),
              Decide(parameters, WithResult(resultPattern, expectedResult, n), |parameters|, partial))
  {
    AlikeSupplied(table, MissingEvents(resultPattern, expectedResult), m, n);
    AlikeDecide(table, parameters, WithResult(resultPattern, expectedResult, m),
                WithResult(resultPattern, expectedResult, n), |parameters|, partial);
  }

  /** The pass over the expected result fills the same gaps of both maps. */
  lemma {:induction false} AlikeSupplied(table: AliasTable, es: seq<Event>, m: Bindings, n: Bindings)
    requires Alike(table, m, n)
    ensures Alike(table, SupplyAll(es, m), SupplyAll(es, n))
  {
    if es != [] {
      AlikeSupplied(table, es[..|es| - 1], m, n);
      AlikeSupply(table, es[|es| - 1], SupplyAll(es[..|es| - 1], m), SupplyAll(es[..|es| - 1], n));
    }
  }

  lemma AlikeSupply(table: AliasTable, e: Event, m: Bindings, n: Bindings)
    requires Alike(table, m, n)
    ensures Alike(table, Supply(e, m), Supply(e, n))
  {
    assert e.key in m ==> AlikeAt(table, m[e.key], n[e.key]);
  }

  lemma PairsGiveEvents(table: AliasTable, patterns: seq<Type>, actuals: seq<Type>,
                        patterns': seq<Type>, actuals': seq<Type>)
    requires |patterns| == |actuals| && |patterns'| == |actuals'|
    requires multiset(Pairs(patterns, actuals)) == multiset(Pairs(patterns', actuals'))
    ensures EventSet(CallEvents(table, patterns, actuals, |actuals|, false, false))
            <= EventSet(CallEvents(table, patterns', actuals', |actuals'|, false, false))
  {
    var a := CallEvents(table, patterns, actuals, |actuals|, false, false);
    var b := CallEvents(table, patterns', actuals', |actuals'|, false, false);
    forall e | e in EventSet(a) ensures e in EventSet(b) {
      var i := EventComesFrom(table, patterns, actuals, |actuals|, e);
      var p := Pairs(patterns, actuals);
      var q := Pairs(patterns', actuals');
      assert p[i] in multiset(p);
      assert p[i] in multiset(q);
      var j :| 0 <= j < |q| && q[j] == p[i];
      EventGoesTo(table, patterns', actuals', |actuals'|, j, e);
    }
  }

  lemma {:induction false} EventComesFrom(table: AliasTable, patterns: seq<Type>, actuals: seq<Type>, n: nat, e: Event)
    returns (i: nat)
    requires |patterns| == |actuals| && n <= |actuals|
    requires e in EventSet(CallEvents(table, patterns, actuals, n, false, false))
    ensures i < n && e in EventSet(Events(patterns[i], actuals[i]))
    decreases n
  {
    var before := CallEvents(table, patterns, actuals, n - 1, false, false);
    var last := Events(patterns[n - 1], actuals[n - 1]);
    assert EventSet(before + last) == EventSet(before) + EventSet(last) by { EventSetAppend(before, last); }
    if e in EventSet(last) {
      i := n - 1;
    } else {
      i := EventComesFrom(table, patterns, actuals, n - 1, e);
    }
  }

  lemma EventSetAppend(a: seq<Event>, b: seq<Event>)
    ensures EventSet(a + b) == EventSet(a) + EventSet(b)
  {
    forall i | 0 <= i < |b| ensures b[i] in EventSet(a + b) {
      assert (a + b)[|a| + i] == b[i];
    }
    forall i | 0 <= i < |a| ensures a[i] in EventSet(a + b) {
      assert (a + b)[i] == a[i];
    }
  }

  lemma {:induction false} EventGoesTo(table: AliasTable, patterns: seq<Type>, actuals: seq<Type>, n: nat, i: nat,
                                       e: Event)
    requires |patterns| == |actuals| && i < n <= |actuals|
    requires e in EventSet(Events(patterns[i], actuals[i]))
    ensures e in EventSet(CallEvents(table, patterns, actuals, n, false, false))
    decreases n
  {
    var before := CallEvents(table, patterns, actuals, n - 1, false, false);
    EventSetAppend(before, Events(patterns[n - 1], actuals[n - 1]));
    if i < n - 1 {
      EventGoesTo(table, patterns, actuals, n - 1, i, e);
    }
  }

  /** The two orders of two actuals for one parameter: both are inferred, or neither. */
  ghost predicate OrderIsIrrelevant(table: AliasTable, p: Parameter, first: Type, second: Type) {
    var t := TypeParameter(p);
    InferArguments(table, [p], [t, t], [first, second], NoType, NoType, false, false, false).Inferred?
    <==> InferArguments(table, [p], [t, t], [second, first], NoType, NoType, false, false, false).Inferred?
  }

  predicate TypedArgument(t: Type) {
    !t.SequenceType? && !HasUntyped(t)
  }

  /** For any two typed actuals the order is irrelevant exactly when they compare symmetrically. */
  lemma OrderIsIrrelevantExactly(table: AliasTable, p: Parameter, first: Type, second: Type)
    requires TypedArgument(first) && TypedArgument(second)
    ensures OrderIsIrrelevant(table, p, first, second) <==> Symmetric(table, first, second)
  {
    TwoActuals(table, p, first, second);
    TwoActuals(table, p, second, first);
  }

  /**
    Against a reference, with whatever plain type it is paired, the order is
    irrelevant exactly when the reference leads to a nominal type or to a trait.
   */
  lemma ReferenceOrderIsIrrelevantExactly(table: AliasTable, p: Parameter, a: Type)
    requires a.AliasRef? && HasTarget(table, a) && WellNamed(table, a)
    requires Plain(table, Target(table, a)) && !Target(table, a).AliasRef? && TypedArgument(Target(table, a))
    ensures (forall b | Plain(table, b) && TypedArgument(b) :: OrderIsIrrelevant(table, p, a, b)) <==>
      Target(table, a).DefinedType? || Target(table, a).TraitType?
  {
    var u := Target(table, a);
    ReferenceIsSymmetricExactly(table, a);
    if u.DefinedType? || u.TraitType? {
      forall b | Plain(table, b) && TypedArgument(b) ensures OrderIsIrrelevant(table, p, a, b) {
        assert Symmetric(table, a, b);
        OrderIsIrrelevantExactly(table, p, a, b);
      }
    } else {
      StructureIsNotSymmetric(table, a);
      OrderIsIrrelevantExactly(table, p, a, u);
      assert !OrderIsIrrelevant(table, p, a, u);
    }
  }

  /**
    With `alias A = *S` and `S = struct { next: A }`, a parameter that meets the
    field's type and then `*S` is inferred, and in the other order it is a conflict.
   */
  lemma AliasActualsDependOnOrder(p: Parameter)
    ensures
      var table, a := RecursiveTable(), AliasRef("", "A", Some(0));
      var pointer, t := PointerType(RecursiveStruct(), false), TypeParameter(p);
      && InferArguments(table, [p], [t, t], [a, pointer], NoType, NoType, false, false, false) == Inferred([pointer])
      && InferArguments(table, [p], [t, t], [pointer, a], NoType, NoType, false, false, false) == Conflict
  {
    AliasEqualityIsNotSymmetric();
    TwoActuals(RecursiveTable(), p, AliasRef("", "A", Some(0)), PointerType(RecursiveStruct(), false));
    TwoActuals(RecursiveTable(), p, PointerType(RecursiveStruct(), false), AliasRef("", "A", Some(0)));
  }

  /** One parameter against two typed actuals: the second must equal the first, and it stays. */
  lemma TwoActuals(table: AliasTable, p: Parameter, first: Type, second: Type)
    requires TypedArgument(first) && TypedArgument(second)
    ensures
      var t := TypeParameter(p);
      InferArguments(table, [p], [t, t], [first, second], NoType, NoType, false, false, false)
      == if Equals(table, {}, first, second) then Inferred([second]) else Conflict
  {
    var t, k := TypeParameter(p), p.Key();
    TwoEvents(table, p, first, second);
    TwoBinds(table, k, first, second);
    var o := ActualsOutcome(table, [t, t], [first, second], false, false);
    assert o == Fold(table, [Event(k, first), Event(k, second)], map[]);
    if o.ok {
      OneDecision(p, o.inferred);
    }
  }

  lemma TwoEvents(table: AliasTable, p: Parameter, first: Type, second: Type)
    requires !first.SequenceType? && !second.SequenceType?
    ensures
      var t := TypeParameter(p);
      CallEvents(table, [t, t], [first, second], 2, false, false) == [Event(p.Key(), first), Event(p.Key(), second)]
  {
    var t := TypeParameter(p);
    assert CallEvents(table, [t, t], [first, second], 0, false, false) == [];
    assert CallEvents(table, [t, t], [first, second], 1, false, false) == [] + Events(t, first);
  }

  lemma TwoBinds(table: AliasTable, k: string, first: Type, second: Type)
    requires !HasUntyped(first) && !HasUntyped(second)
    ensures
      var o := Fold(table, [Event(k, first), Event(k, second)], map[]);
      (o.ok <==> Equals(table, {}, first, second)) && (o.ok ==> k in o.inferred && o.inferred[k] == second)
  {
    var e, f := Event(k, first), Event(k, second);
    assert [e, f][..1] == [e] && [e][..0] == [];
    assert Fold(table, [], map[]) == Outcome(true, map[]);
    assert Fold(table, [e], map[]) == Outcome(true, map[k := first]);
    assert Fold(table, [e, f], map[]) == Bind(table, f, map[k := first]);
  }

  lemma OneDecision(p: Parameter, m: Bindings)
    requires p.Key() in m && !HasUntyped(m[p.Key()])
    ensures Decide([p], m, 1, false) == Inferred([m[p.Key()]])
  {
    assert Decide([p], m, 0, false) == Inferred([]);
    assert [] + [m[p.Key()]] == [m[p.Key()]];
  }

  // ----- An expected result only fills gaps -----

  /** Whatever is settled by the arguments survives the pass over the expected result. */
  lemma {:induction false} SupplyKeepsSettled(es: seq<Event>, m: Bindings)
    ensures forall k | k in m && !HasUntyped(m[k]) :: k in SupplyAll(es, m) && SupplyAll(es, m)[k] == m[k]
  {
    if es != [] {
      SupplyKeepsSettled(es[..|es| - 1], m);
    }
  }

  /** When the arguments suffice, an expected result type changes nothing at all. */
  lemma ExpectedResultIsInert(
    table: AliasTable, parameters: seq<Parameter>, patterns: seq<Type>, actuals: seq<Type>,
    resultPattern: Type, expectedResult: Type, typedVariadic: bool, expansion: bool)
    requires InferArguments(table, parameters, patterns, actuals, NoType, NoType,
                            typedVariadic, expansion, false).Inferred?
    ensures InferArguments(table, parameters, patterns, actuals, resultPattern, expectedResult,
                           typedVariadic, expansion, false)
            == InferArguments(table, parameters, patterns, actuals, NoType, NoType, typedVariadic, expansion, false)
  {
    var m := ActualsOutcome(table, patterns, actuals, typedVariadic, expansion).inferred;
    SupplyKeepsSettled(MissingEvents(resultPattern, expectedResult), m);
    DecideUnchanged(parameters, m, WithResult(resultPattern, expectedResult, m), |parameters|);
  }

  lemma {:induction false} DecideUnchanged(parameters: seq<Parameter>, m: Bindings, n: Bindings, count: nat)
    requires count <= |parameters| && Decide(parameters, m, count, false).Inferred?
    requires forall k | k in m && !HasUntyped(m[k]) :: k in n && n[k] == m[k]
    ensures Decide(parameters, n, count, false) == Decide(parameters, m, count, false)
    decreases count
  {
    if count > 0 {
      DecideUnchanged(parameters, m, n, count - 1);
    }
  }

  // ----- Matching finds the substitution -----

  /** The parameters of a pattern that matching can reach. */
  ghost function InferableKeys(t: Type): set<string>
    decreases t
  {
    match t
    case TypeParameter(p) => {p.Key()}
    case PointerType(base, _) => InferableKeys(base)
    case SliceType(base, _) => InferableKeys(base)
    case ArrayType(base, _) => InferableKeys(base)
    case DefinedType(_, _, _, genericName, arguments) => if genericName == "" then {} else InferableKeysAll(arguments)
    case FunctionType(parameters, returnType, _, _) => InferableKeysAll(parameters) + InferableKeys(returnType)
    case _ => {}
  }

  ghost function InferableKeysAll(ts: seq<Type>): set<string>
    decreases ts
  {
    if ts == [] then {} else InferableKeys(ts[0]) + InferableKeysAll(ts[1..])
  }

  /** `s` gives every key a settled, typed image. */
  ghost predicate Settles(s: Bindings, keys: set<string>) {
    forall k | k in keys :: k in s && !HasUntyped(s[k]) && !s[k].SequenceType?
  }

  function Restrict(s: Bindings, keys: set<string>): Bindings {
    map k | k in keys && k in s :: s[k]
  }

  /** Matching a pattern, of any kind, against its literal instance returns exactly the substitution. */
  lemma InstanceMatchIsExact(table: AliasTable, pattern: Type, s: Bindings)
    requires Settles(s, InferableKeys(pattern))
    ensures Fold(table, Events(pattern, Substitute(pattern, s)), map[])
            == Outcome(true, Restrict(s, InferableKeys(pattern)))
  {
    MatchInstance(table, pattern, s, {});
    assert Restrict(s, {}) == map[];
    assert {} + InferableKeys(pattern) == InferableKeys(pattern);
  }

  lemma {:induction false} MatchInstance(table: AliasTable, pattern: Type, s: Bindings, keys: set<string>)
    requires Settles(s, InferableKeys(pattern)) && Settles(s, keys)
    ensures Fold(table, Events(pattern, Substitute(pattern, s)), Restrict(s, keys))
            == Outcome(true, Restrict(s, keys + InferableKeys(pattern)))
    decreases pattern, 1
  {
    match pattern
    case TypeParameter(p) => MatchParameter(table, p, s, keys);
    case PointerType(base, _) => MatchInstance(table, base, s, keys);
    case SliceType(base, _) => MatchInstance(table, base, s, keys);
    case ArrayType(base, _) => MatchInstance(table, base, s, keys);
    case DefinedType(_, _, _, _, _) => MatchNominal(table, pattern, s, keys);
    case FunctionType(_, _, _, _) => MatchFunction(table, pattern, s, keys);
    case _ =>
      assert keys + InferableKeys(pattern) == keys;
  }

  lemma MatchParameter(table: AliasTable, p: Parameter, s: Bindings, keys: set<string>)
    requires Settles(s, {p.Key()}) && Settles(s, keys)
    ensures Fold(table, Events(TypeParameter(p), s[p.Key()]), Restrict(s, keys))
            == Outcome(true, Restrict(s, keys + {p.Key()}))
  {
    var k := p.Key();
    var es := Events(TypeParameter(p), s[k]);
    assert es == [Event(k, s[k])] && es[..0] == [];
    EqualsReflexive(table, {}, s[k]);
    assert Restrict(s, keys)[k := s[k]] == Restrict(s, keys + {k});
  }

  lemma {:induction false} MatchNominal(table: AliasTable, pattern: Type, s: Bindings, keys: set<string>)
    requires pattern.DefinedType?
    requires Settles(s, InferableKeys(pattern)) && Settles(s, keys)
    ensures Fold(table, Events(pattern, Substitute(pattern, s)), Restrict(s, keys))
            == Outcome(true, Restrict(s, keys + InferableKeys(pattern)))
    decreases pattern, 0
  {
    SubstituteAllLength(pattern.typeArguments, s);
    if pattern.genericName != "" {
      MatchInstances(table, pattern.typeArguments, s, keys);
    } else {
      assert keys + InferableKeys(pattern) == keys;
    }
  }

  lemma {:induction false} MatchFunction(table: AliasTable, pattern: Type, s: Bindings, keys: set<string>)
    requires pattern.FunctionType?
    requires Settles(s, InferableKeys(pattern)) && Settles(s, keys)
    ensures Fold(table, Events(pattern, Substitute(pattern, s)), Restrict(s, keys))
            == Outcome(true, Restrict(s, keys + InferableKeys(pattern)))
    decreases pattern, 0
  {
    var parameters, returnType := pattern.parameters, pattern.returnType;
    SubstituteAllLength(parameters, s);
    MatchInstances(table, parameters, s, keys);
    MatchInstance(table, returnType, s, keys + InferableKeysAll(parameters));
    FoldAppend(table, EventsAll(parameters, SubstituteAll(parameters, s)),
               Events(returnType, Substitute(returnType, s)), Restrict(s, keys));
    assert keys + InferableKeysAll(parameters) + InferableKeys(returnType) == keys + InferableKeys(pattern);
  }

  lemma {:induction false} SubstituteAllLength(ts: seq<Type>, s: Bindings)
    ensures |SubstituteAll(ts, s)| == |ts|
  {
    if ts != [] {
      SubstituteAllLength(ts[1..], s);
    }
  }

  lemma {:induction false} MatchInstances(table: AliasTable, patterns: seq<Type>, s: Bindings, keys: set<string>)
    requires Settles(s, InferableKeysAll(patterns)) && Settles(s, keys)
    requires |SubstituteAll(patterns, s)| == |patterns|
    ensures Fold(table, EventsAll(patterns, SubstituteAll(patterns, s)), Restrict(s, keys))
            == Outcome(true, Restrict(s, keys + InferableKeysAll(patterns)))
    decreases patterns
  {
    if patterns == [] {
      assert keys + InferableKeysAll(patterns) == keys;
    } else {
      var rest := SubstituteAll(patterns, s)[1..];
      assert rest == SubstituteAll(patterns[1..], s);
      var here := keys + InferableKeys(patterns[0]);
      MatchInstance(table, patterns[0], s, keys);
      MatchInstances(table, patterns[1..], s, here);
      FoldAppend(table, Events(patterns[0], Substitute(patterns[0], s)), EventsAll(patterns[1..], rest),
                 Restrict(s, keys));
      assert here + InferableKeysAll(patterns[1..]) == keys + InferableKeysAll(patterns);
    }
  }

  /** Every parameter has a type that is not untyped. */
  predicate Decided(parameters: seq<Parameter>, m: Bindings) {
    forall i | 0 <= i < |parameters| :: parameters[i].Key() in m && !HasUntyped(m[parameters[i].Key()])
  }

  /** The types of the first `n` parameters. */
  function Decisions(parameters: seq<Parameter>, m: Bindings, n: nat): (r: seq<Type>)
    requires n <= |parameters| && Decided(parameters, m)
    ensures |r| == n
  {
    if n == 0 then [] else Decisions(parameters, m, n - 1) + [m[parameters[n - 1].Key()]]
  }

  lemma {:induction false} DecisionsAt(parameters: seq<Parameter>, m: Bindings, n: nat, i: nat)
    requires i < n <= |parameters| && Decided(parameters, m)
    ensures Decisions(parameters, m, n)[i] == m[parameters[i].Key()]
    decreases n
  {
    if i < n - 1 {
      DecisionsAt(parameters, m, n - 1, i);
    }
  }

  lemma {:induction false} DecideReads(parameters: seq<Parameter>, m: Bindings, n: nat, partial: bool)
    requires n <= |parameters| && Decided(parameters, m)
    ensures Decide(parameters, m, n, partial) == Inferred(Decisions(parameters, m, n))
    decreases n
  {
    if n > 0 {
      DecideReads(parameters, m, n - 1, partial);
    }
  }

  // ----- What inference finds turns the pattern into the actual -----

  /** typePatternMatches without capability coercion (sema/attribution.go). */
  predicate TypePatternMatches(table: AliasTable, pattern: Type, actual: Type)
    decreases pattern
  {
    match pattern
    case TypeParameter(_) => true
    case DefinedType(moduleName, name, _, genericName, arguments) =>
      && actual.DefinedType? && moduleName == actual.moduleName && |arguments| == |actual.typeArguments|
      && (if genericName != "" || actual.genericName != "" then genericName != "" && genericName == actual.genericName
          else name == actual.name)
      && forall i | 0 <= i < |arguments| :: TypePatternMatches(table, arguments[i], actual.typeArguments[i])
    case PointerType(base, mutable) =>
      actual.PointerType? && mutable == actual.mutable && TypePatternMatches(table, base, actual.base)
    case SliceType(base, mutable) =>
      actual.SliceType? && mutable == actual.mutable && TypePatternMatches(table, base, actual.base)
    case ArrayType(base, length) =>
      actual.ArrayType? && length == actual.length && TypePatternMatches(table, base, actual.base)
    case FunctionType(parameters, returnType, variadic, _) =>
      && actual.FunctionType? && |parameters| == |actual.parameters| && variadic == actual.typedVariadic
      && (forall i | 0 <= i < |parameters| :: TypePatternMatches(table, parameters[i], actual.parameters[i]))
      && TypePatternMatches(table, returnType, actual.returnType)
    case _ => Equals(table, {}, pattern, actual)
  }

  /** The pattern fragment: primitives, enums, parameters, nominal, pointer, slice, array and function types. */
  ghost predicate CorePattern(t: Type)
    decreases t
  {
    match t
    case PrimitiveType(_) => true
    case EnumType(_, _, _, _, _) => true
    case TypeParameter(_) => true
    case DefinedType(_, _, _, genericName, arguments) =>
      (genericName == "" ==> arguments == []) && forall i | 0 <= i < |arguments| :: CorePattern(arguments[i])
    case PointerType(base, _) => CorePattern(base)
    case SliceType(base, _) => CorePattern(base)
    case ArrayType(base, _) => CorePattern(base)
    case FunctionType(parameters, returnType, _, _) =>
      (forall i | 0 <= i < |parameters| :: CorePattern(parameters[i])) && CorePattern(returnType)
    case _ => false
  }

  /**
    What `Identity` reads of a core type, as a type: the instance name and the
    body of a generic nominal type are left out, and so is a variadic element.
   */
  ghost function Shape(t: Type): Type
    decreases t
  {
    match t
    case DefinedType(moduleName, name, _, genericName, arguments) =>
      if genericName == "" then DefinedType(moduleName, name, NoType, "", [])
      else DefinedType(moduleName, "", NoType, genericName, ShapeAll(arguments))
    case PointerType(base, mutable) => PointerType(Shape(base), mutable)
    case SliceType(base, mutable) => SliceType(Shape(base), mutable)
    case ArrayType(base, length) => ArrayType(Shape(base), length)
    case FunctionType(parameters, returnType, variadic, _) =>
      FunctionType(ShapeAll(parameters), Shape(returnType), variadic, NoType)
    case _ => Canon(map[], t)
  }

  ghost function ShapeAll(ts: seq<Type>): seq<Type>
    decreases ts
  {
    if ts == [] then [] else [Shape(ts[0])] + ShapeAll(ts[1..])
  }

  /** One nominal name stands for one instance: equal actuals have equal shapes. */
  ghost predicate NamesIdentify(table: AliasTable, es: set<Event>) {
    forall e, f | e in es && f in es && Canon(table, e.actual) == Canon(table, f.actual) ::
      Shape(e.actual) == Shape(f.actual)
  }

  /** The events give `m` at every parameter met, up to shape. */
  ghost predicate Covers(m: Bindings, es: set<Event>) {
    forall e | e in es :: e.key in m && Shape(m[e.key]) == Shape(e.actual)
  }

  /** Closed and typed at every place a pattern can look at. */
  ghost predicate TypedActual(t: Type)
    decreases t
  {
    match t
    case SequenceType(_, _) => false
    case UntypedInt | UntypedFloat | UnresolvedEnum | TypeParameter(_) => false
    case DefinedType(_, _, _, _, arguments) => forall i | 0 <= i < |arguments| :: TypedActual(arguments[i])
    case PointerType(base, _) => TypedActual(base)
    case SliceType(base, _) => TypedActual(base)
    case ArrayType(base, _) => TypedActual(base)
    case FunctionType(parameters, returnType, _, _) =>
      (forall i | 0 <= i < |parameters| :: TypedActual(parameters[i])) && TypedActual(returnType)
    case _ => !HasUntyped(t)
  }

  /** A successful match, once inference has run, instantiates to the actual type. */
  lemma MatchingIsSound(table: AliasTable, pattern: Type, actual: Type)
    requires CorePattern(pattern) && TypedActual(actual) && TypePatternMatches(table, pattern, actual)
    requires PlainEvents(table, EventSet(Events(pattern, actual)))
    requires NamesIdentify(table, EventSet(Events(pattern, actual)))
    requires Fold(table, Events(pattern, actual), map[]).ok
    ensures
      var m := Fold(table, Events(pattern, actual), map[]).inferred;
      Shape(Substitute(pattern, m)) == Shape(actual)
  {
    var es := Events(pattern, actual);
    var m := FoldIsLast(table, es);
    EventsTyped(pattern, actual);
    FoldCovers(table, es, m);
    CoveredMatch(table, pattern, actual, m);
  }

  lemma FoldCovers(table: AliasTable, es: seq<Event>, m: Bindings)
    requires PlainEvents(table, EventSet(es)) && NamesIdentify(table, EventSet(es))
    requires Fold(table, es, map[]).ok && m == Fold(table, es, map[]).inferred
    requires forall k | k in m :: exists e :: e in EventSet(es) && e.key == k && m[k] == e.actual
    requires forall e | e in EventSet(es) :: !HasUntyped(e.actual)
    ensures Covers(m, EventSet(es))
  {
    FoldSummarises(table, es);
    forall e | e in EventSet(es) ensures e.key in m && Shape(m[e.key]) == Shape(e.actual) {
      assert Typed(e, e.key);
      var f :| f in EventSet(es) && f.key == e.key && m[e.key] == f.actual;
    }
  }

  /** What the map holds at a key is one of the actuals met there. */
  lemma {:induction false} FoldIsLast(table: AliasTable, es: seq<Event>) returns (m: Bindings)
    ensures m == Fold(table, es, map[]).inferred
    ensures forall k | k in m :: exists e :: e in EventSet(es) && e.key == k && m[k] == e.actual
  {
    m := Fold(table, es, map[]).inferred;
    if es != [] {
      var before := es[..|es| - 1];
      var last := es[|es| - 1];
      assert EventSet(es) == EventSet(before) + {last};
      var n := FoldIsLast(table, before);
      forall k | k in m ensures exists e :: e in EventSet(es) && e.key == k && m[k] == e.actual {
        if k !in n || m[k] != n[k] {
          assert last.key == k && m[k] == last.actual;
        }
      }
    }
  }

  lemma {:induction false} EventsTyped(pattern: Type, actual: Type)
    requires TypedActual(actual)
    ensures forall e | e in EventSet(Events(pattern, actual)) :: !HasUntyped(e.actual)
    decreases pattern, 0
  {
    match pattern
    case TypeParameter(_) => TypedHasNoUntyped(actual);
    case PointerType(base, _) => if actual.PointerType? { EventsTyped(base, actual.base); }
    case SliceType(base, _) => if actual.SliceType? { EventsTyped(base, actual.base); }
    case ArrayType(base, _) => if actual.ArrayType? { EventsTyped(base, actual.base); }
    case DefinedType(_, _, _, _, arguments) =>
      if SameGeneric(pattern, actual) { EventsTypedAll(arguments, actual.typeArguments); }
    case FunctionType(parameters, returnType, _, _) =>
      if actual.FunctionType? && |parameters| == |actual.parameters| {
        EventsTypedAll(parameters, actual.parameters);
        EventsTyped(returnType, actual.returnType);
        EventSetAppend(EventsAll(parameters, actual.parameters), Events(returnType, actual.returnType));
      }
    case _ =>
  }

  lemma {:induction false} EventsTypedAll(patterns: seq<Type>, actuals: seq<Type>)
    requires |patterns| == |actuals| && forall i | 0 <= i < |actuals| :: TypedActual(actuals[i])
    ensures forall e | e in EventSet(EventsAll(patterns, actuals)) :: !HasUntyped(e.actual)
    decreases patterns
  {
    if patterns != [] {
      EventsTyped(patterns[0], actuals[0]);
      EventsTypedAll(patterns[1..], actuals[1..]);
      EventSetAppend(Events(patterns[0], actuals[0]), EventsAll(patterns[1..], actuals[1..]));
    }
  }

  lemma {:induction false} TypedHasNoUntyped(t: Type)
    requires TypedActual(t)
    ensures !HasUntyped(t)
    decreases t
  {
    match t
    case PointerType(base, _) => TypedHasNoUntyped(base);
    case SliceType(base, _) => TypedHasNoUntyped(base);
    case ArrayType(base, _) => TypedHasNoUntyped(base);
    case FunctionType(parameters, returnType, _, _) =>
      forall i | 0 <= i < |parameters| ensures !HasUntyped(parameters[i]) {
        TypedHasNoUntyped(parameters[i]);
      }
      TypedHasNoUntyped(returnType);
    case _ =>
  }

  lemma {:induction false} CoveredMatch(table: AliasTable, pattern: Type, actual: Type, m: Bindings)
    requires CorePattern(pattern) && TypedActual(actual) && TypePatternMatches(table, pattern, actual)
    requires Covers(m, EventSet(Events(pattern, actual)))
    ensures Shape(Substitute(pattern, m)) == Shape(actual)
    decreases pattern, 1
  {
    match pattern
    case TypeParameter(p) =>
      assert Events(pattern, actual)[0] in EventSet(Events(pattern, actual));
    case PointerType(_, _) => CoveredBase(table, pattern, actual, m);
    case SliceType(_, _) => CoveredBase(table, pattern, actual, m);
    case ArrayType(_, _) => CoveredBase(table, pattern, actual, m);
    case DefinedType(_, _, _, _, _) => CoveredNominal(table, pattern, actual, m);
    case FunctionType(_, _, _, _) => CoveredFunction(table, pattern, actual, m);
    case PrimitiveType(_) =>
    case EnumType(_, _, _, _, _) =>
  }

  lemma {:induction false} CoveredBase(table: AliasTable, pattern: Type, actual: Type, m: Bindings)
    requires pattern.PointerType? || pattern.SliceType? || pattern.ArrayType?
    requires CorePattern(pattern) && TypedActual(actual) && TypePatternMatches(table, pattern, actual)
    requires Covers(m, EventSet(Events(pattern, actual)))
    ensures Shape(Substitute(pattern, m)) == Shape(actual)
    decreases pattern, 0
  {
    CoveredMatch(table, pattern.base, actual.base, m);
  }

  lemma {:induction false} CoveredNominal(table: AliasTable, pattern: Type, actual: Type, m: Bindings)
    requires pattern.DefinedType?
    requires CorePattern(pattern) && TypedActual(actual) && TypePatternMatches(table, pattern, actual)
    requires Covers(m, EventSet(Events(pattern, actual)))
    ensures Shape(Substitute(pattern, m)) == Shape(actual)
    decreases pattern, 0
  {
    if pattern.genericName != "" {
      CoveredMatches(table, pattern.typeArguments, actual.typeArguments, m);
    }
  }

  lemma {:induction false} CoveredFunction(table: AliasTable, pattern: Type, actual: Type, m: Bindings)
    requires pattern.FunctionType?
    requires CorePattern(pattern) && TypedActual(actual) && TypePatternMatches(table, pattern, actual)
    requires Covers(m, EventSet(Events(pattern, actual)))
    ensures Shape(Substitute(pattern, m)) == Shape(actual)
    decreases pattern, 0
  {
    EventSetAppend(EventsAll(pattern.parameters, actual.parameters), Events(pattern.returnType, actual.returnType));
    FunctionShape(pattern, m);
    CoveredMatches(table, pattern.parameters, actual.parameters, m);
    CoveredMatch(table, pattern.returnType, actual.returnType, m);
  }

  lemma FunctionShape(t: Type, s: Bindings)
    requires t.FunctionType?
    ensures
      Shape(Substitute(t, s)) == FunctionType(
        ShapeAll(SubstituteAll(t.parameters, s)), Shape(Substitute(t.returnType, s)), t.typedVariadic, NoType)
  {
    var FunctionType(parameters, returnType, variadic, element) := t;
    assert Substitute(t, s)
        == FunctionType(SubstituteAll(parameters, s), Substitute(returnType, s), variadic, Substitute(element, s));
  }

  lemma {:induction false} CoveredMatches(table: AliasTable, patterns: seq<Type>, actuals: seq<Type>, m: Bindings)
    requires |patterns| == |actuals|
    requires forall i | 0 <= i < |patterns| :: CorePattern(patterns[i]) && TypedActual(actuals[i])
    requires forall i | 0 <= i < |patterns| :: TypePatternMatches(table, patterns[i], actuals[i])
    requires Covers(m, EventSet(EventsAll(patterns, actuals)))
    ensures ShapeAll(SubstituteAll(patterns, m)) == ShapeAll(actuals)
    decreases patterns
  {
    if patterns != [] {
      EventSetAppend(Events(patterns[0], actuals[0]), EventsAll(patterns[1..], actuals[1..]));
      CoveredMatch(table, patterns[0], actuals[0], m);
      CoveredMatches(table, patterns[1..], actuals[1..], m);
      assert SubstituteAll(patterns, m)[1..] == SubstituteAll(patterns[1..], m);
    }
  }

  // ----- Matching finds the substitution, up to the names of instances -----

  /** One instance has one nominal name: equal shapes are equal types. */
  ghost predicate ShapesIdentify(table: AliasTable, es: set<Event>) {
    forall e, f | e in es && f in es && Shape(e.actual) == Shape(f.actual) ::
      Canon(table, e.actual) == Canon(table, f.actual)
  }

  /** The events are at the keys, all of them, and each has the shape of its key's image. */
  ghost predicate Reads(s: Bindings, keys: set<string>, es: set<Event>) {
    && keys <= s.Keys
    && (forall e | e in es :: e.key in keys && Shape(e.actual) == Shape(s[e.key]))
    && (forall k | k in keys :: exists e :: e in es && e.key == k)
  }

  /**
    An actual that is an instance of the pattern, under whatever instance name,
    gives back the instantiating types: matching inverts substitution.
   */
  lemma MatchingIsComplete(table: AliasTable, pattern: Type, actual: Type, s: Bindings)
    requires CorePattern(pattern) && TypedActual(actual) && InferableKeys(pattern) <= s.Keys
    requires Shape(Substitute(pattern, s)) == Shape(actual)
    requires PlainEvents(table, EventSet(Events(pattern, actual)))
    requires ShapesIdentify(table, EventSet(Events(pattern, actual)))
    ensures
      var o := Fold(table, Events(pattern, actual), map[]);
      && o.ok && o.inferred.Keys == InferableKeys(pattern)
      && forall k | k in o.inferred :: !HasUntyped(o.inferred[k]) && Shape(o.inferred[k]) == Shape(s[k])
  {
    EventsRead(pattern, actual, s);
    EventsTyped(pattern, actual);
    ReadIsRecovered(table, Events(pattern, actual), s, InferableKeys(pattern));
  }

  /** Events that read off `s` fold to `s`, up to shape. */
  lemma ReadIsRecovered(table: AliasTable, es: seq<Event>, s: Bindings, keys: set<string>)
    requires Reads(s, keys, EventSet(es))
    requires PlainEvents(table, EventSet(es)) && ShapesIdentify(table, EventSet(es))
    requires forall e | e in EventSet(es) :: !HasUntyped(e.actual)
    ensures
      var o := Fold(table, es, map[]);
      && o.ok && o.inferred.Keys == keys
      && forall k | k in o.inferred :: !HasUntyped(o.inferred[k]) && Shape(o.inferred[k]) == Shape(s[k])
  {
    FoldSummarises(table, es);
    ReadsConsistent(table, s, keys, EventSet(es));
    var m := FoldIsLast(table, es);
    SummaryKeys(table, m, s, keys, EventSet(es));
    SummaryImages(m, s, keys, EventSet(es));
  }

  lemma SummaryKeys(table: AliasTable, m: Bindings, s: Bindings, keys: set<string>, es: set<Event>)
    requires Summarises(table, m, es) && Reads(s, keys, es)
    ensures m.Keys == keys
  {
  }

  lemma SummaryImages(m: Bindings, s: Bindings, keys: set<string>, es: set<Event>)
    requires m.Keys == keys && Reads(s, keys, es)
    requires forall k | k in m :: exists e :: e in es && e.key == k && m[k] == e.actual
    requires forall e | e in es :: !HasUntyped(e.actual)
    ensures forall k | k in m :: !HasUntyped(m[k]) && Shape(m[k]) == Shape(s[k])
  {
    forall k | k in m ensures !HasUntyped(m[k]) && Shape(m[k]) == Shape(s[k]) {
      var e :| e in es && e.key == k && m[k] == e.actual;
    }
  }

  lemma ReadsConsistent(table: AliasTable, s: Bindings, keys: set<string>, es: set<Event>)
    requires Reads(s, keys, es) && ShapesIdentify(table, es)
    ensures Consistent(table, es)
  {
    forall e, f | e in es && f in es && Typed(e, e.key) && Typed(f, e.key)
      ensures Canon(table, e.actual) == Canon(table, f.actual)
    {
      assert Shape(e.actual) == Shape(f.actual);
    }
  }

  lemma {:induction false} EventsRead(pattern: Type, actual: Type, s: Bindings)
    requires CorePattern(pattern) && TypedActual(actual) && InferableKeys(pattern) <= s.Keys
    requires Shape(Substitute(pattern, s)) == Shape(actual)
    ensures Reads(s, InferableKeys(pattern), EventSet(Events(pattern, actual)))
    decreases pattern, 1
  {
    match pattern
    case TypeParameter(p) =>
      assert Events(pattern, actual) == [Event(p.Key(), actual)];
      assert Events(pattern, actual)[0] in EventSet(Events(pattern, actual));
    case PointerType(base, _) => EventsRead(base, actual.base, s);
    case SliceType(base, _) => EventsRead(base, actual.base, s);
    case ArrayType(base, _) => EventsRead(base, actual.base, s);
    case DefinedType(_, _, _, _, _) => EventsReadNominal(pattern, actual, s);
    case FunctionType(_, _, _, _) => EventsReadFunction(pattern, actual, s);
    case PrimitiveType(_) =>
    case EnumType(_, _, _, _, _) =>
  }

  lemma {:induction false} EventsReadNominal(pattern: Type, actual: Type, s: Bindings)
    requires pattern.DefinedType?
    requires CorePattern(pattern) && TypedActual(actual) && InferableKeys(pattern) <= s.Keys
    requires Shape(Substitute(pattern, s)) == Shape(actual)
    ensures Reads(s, InferableKeys(pattern), EventSet(Events(pattern, actual)))
    decreases pattern, 0
  {
    if pattern.genericName != "" {
      SameGenericShape(pattern, actual, SubstituteAll(pattern.typeArguments, s));
      EventsReadAll(pattern.typeArguments, actual.typeArguments, s);
    }
  }

  lemma SameGenericShape(pattern: Type, actual: Type, arguments: seq<Type>)
    requires pattern.DefinedType? && pattern.genericName != ""
    requires Shape(actual)
      == DefinedType(pattern.moduleName, "", NoType, pattern.genericName, ShapeAll(arguments))
    ensures actual.DefinedType? && actual.moduleName == pattern.moduleName
    ensures actual.genericName == pattern.genericName && ShapeAll(actual.typeArguments) == ShapeAll(arguments)
  {
  }

  lemma {:induction false} EventsReadFunction(pattern: Type, actual: Type, s: Bindings)
    requires pattern.FunctionType?
    requires CorePattern(pattern) && TypedActual(actual) && InferableKeys(pattern) <= s.Keys
    requires Shape(Substitute(pattern, s)) == Shape(actual)
    ensures Reads(s, InferableKeys(pattern), EventSet(Events(pattern, actual)))
    decreases pattern, 0
  {
    var parameters, returnType := pattern.parameters, pattern.returnType;
    FunctionShape(pattern, s);
    EventsReadAll(parameters, actual.parameters, s);
    EventsRead(returnType, actual.returnType, s);
    ReadsUnion(s, InferableKeysAll(parameters), EventsAll(parameters, actual.parameters),
               InferableKeys(returnType), Events(returnType, actual.returnType));
  }

  lemma {:induction false} EventsReadAll(patterns: seq<Type>, actuals: seq<Type>, s: Bindings)
    requires forall i | 0 <= i < |patterns| :: CorePattern(patterns[i])
    requires forall i | 0 <= i < |actuals| :: TypedActual(actuals[i])
    requires InferableKeysAll(patterns) <= s.Keys
    requires ShapeAll(SubstituteAll(patterns, s)) == ShapeAll(actuals)
    ensures |patterns| == |actuals|
    ensures Reads(s, InferableKeysAll(patterns), EventSet(EventsAll(patterns, actuals)))
    decreases patterns
  {
    if patterns != [] {
      assert SubstituteAll(patterns, s)[1..] == SubstituteAll(patterns[1..], s);
      assert ShapeAll(actuals)[1..] == ShapeAll(actuals[1..]);
      EventsRead(patterns[0], actuals[0], s);
      EventsReadAll(patterns[1..], actuals[1..], s);
      ReadsUnion(s, InferableKeys(patterns[0]), Events(patterns[0], actuals[0]),
                 InferableKeysAll(patterns[1..]), EventsAll(patterns[1..], actuals[1..]));
    }
  }

  lemma ReadsUnion(s: Bindings, k1: set<string>, a: seq<Event>, k2: set<string>, b: seq<Event>)
    requires Reads(s, k1, EventSet(a)) && Reads(s, k2, EventSet(b))
    ensures Reads(s, k1 + k2, EventSet(a + b))
  {
    EventSetAppend(a, b);
    forall k | k in k1 + k2 ensures exists e :: e in EventSet(a + b) && e.key == k {
      if k in k1 {
        var e :| e in EventSet(a) && e.key == k;
        assert e in EventSet(a + b);
      } else {
        var e :| e in EventSet(b) && e.key == k;
        assert e in EventSet(a + b);
      }
    }
  }

  // ----- A whole call -----

  /** The parameters reachable through the patterns of the first `n` actuals. */
  ghost function ReachedKeys(table: AliasTable, patterns: seq<Type>, n: nat, typedVariadic: bool, expansion: bool)
    : set<string>
    requires n > 0 ==> patterns != []
  {
    if n == 0 then {}
    else
      ReachedKeys(table, patterns, n - 1, typedVariadic, expansion)
      + InferableKeys(PatternFor(table, patterns, n - 1, typedVariadic, expansion))
  }

  /** `actual` is an instance of `pattern` by `s`, up to the names of instances. */
  ghost predicate InstanceOf(pattern: Type, actual: Type, s: Bindings) {
    && CorePattern(pattern) && TypedActual(actual) && InferableKeys(pattern) <= s.Keys
    && Shape(Substitute(pattern, s)) == Shape(actual)
  }

  /** Each of the first `n` actuals is an instance of the pattern it is matched against. */
  ghost predicate Instances(table: AliasTable, patterns: seq<Type>, actuals: seq<Type>, n: nat,
                            typedVariadic: bool, expansion: bool, s: Bindings)
    requires n <= |actuals| && (n > 0 ==> patterns != [])
  {
    n > 0 ==>
      && Instances(table, patterns, actuals, n - 1, typedVariadic, expansion, s)
      && InstanceOf(PatternFor(table, patterns, n - 1, typedVariadic, expansion), actuals[n - 1], s)
  }

  lemma {:induction false} CallReads(table: AliasTable, patterns: seq<Type>, actuals: seq<Type>, n: nat,
                                     typedVariadic: bool, expansion: bool, s: Bindings)
    requires n <= PairCount(patterns, actuals, typedVariadic)
    requires Instances(table, patterns, actuals, n, typedVariadic, expansion, s)
    ensures
      var es := CallEvents(table, patterns, actuals, n, typedVariadic, expansion);
      && Reads(s, ReachedKeys(table, patterns, n, typedVariadic, expansion), EventSet(es))
      && forall e | e in EventSet(es) :: !HasUntyped(e.actual)
    decreases n
  {
    if n > 0 {
      CallReads(table, patterns, actuals, n - 1, typedVariadic, expansion, s);
      var pattern := PatternFor(table, patterns, n - 1, typedVariadic, expansion);
      ActualReads(CallEvents(table, patterns, actuals, n - 1, typedVariadic, expansion),
                  ReachedKeys(table, patterns, n - 1, typedVariadic, expansion), pattern, actuals[n - 1], s);
    }
  }

  /** One more actual, an instance of its pattern. */
  lemma ActualReads(before: seq<Event>, keys: set<string>, pattern: Type, actual: Type, s: Bindings)
    requires Reads(s, keys, EventSet(before)) && forall e | e in EventSet(before) :: !HasUntyped(e.actual)
    requires InstanceOf(pattern, actual, s)
    ensures
      var es := before + Events(pattern, actual);
      Reads(s, keys + InferableKeys(pattern), EventSet(es)) && forall e | e in EventSet(es) :: !HasUntyped(e.actual)
  {
    EventsRead(pattern, actual, s);
    EventsTyped(pattern, actual);
    ReadsUnion(s, keys, before, InferableKeys(pattern), Events(pattern, actual));
    EventSetAppend(before, Events(pattern, actual));
  }

  /**
    A call whose actuals are instances of its patterns, variadic ones included,
    gets back the instantiating types, whatever result is expected.
   */
  lemma CallRecoversArguments(
    table: AliasTable, parameters: seq<Parameter>, patterns: seq<Type>, actuals: seq<Type>,
    resultPattern: Type, expectedResult: Type, typedVariadic: bool, expansion: bool, partial: bool, s: Bindings)
    requires
      var n := PairCount(patterns, actuals, typedVariadic);
      var keys := ReachedKeys(table, patterns, n, typedVariadic, expansion);
      var es := EventSet(CallEvents(table, patterns, actuals, n, typedVariadic, expansion));
      && Instances(table, patterns, actuals, n, typedVariadic, expansion, s)
      && (forall p | p in parameters :: p.Key() in keys)
      && PlainEvents(table, es) && ShapesIdentify(table, es)
    ensures
      var r := InferArguments(table, parameters, patterns, actuals, resultPattern, expectedResult,
                              typedVariadic, expansion, partial);
      && r.Inferred? && |r.arguments| == |parameters|
      && forall i | 0 <= i < |parameters| ::
           parameters[i].Key() in s && Shape(r.arguments[i]) == Shape(s[parameters[i].Key()])
  {
    var n := PairCount(patterns, actuals, typedVariadic);
    var es := CallEvents(table, patterns, actuals, n, typedVariadic, expansion);
    CallReads(table, patterns, actuals, n, typedVariadic, expansion, s);
    ReadIsRecovered(table, es, s, ReachedKeys(table, patterns, n, typedVariadic, expansion));
    RecoveredIsDecided(parameters, Fold(table, es, map[]).inferred, resultPattern, expectedResult, partial, s);
  }

  /** When the actuals are literal instances, what comes back is the substitution itself. */
  lemma CallRecoversExactly(table: AliasTable, parameters: seq<Parameter>, patterns: seq<Type>, s: Bindings,
                            resultPattern: Type, expectedResult: Type, partial: bool)
    requires
      var keys := ReachedKeys(table, patterns, |patterns|, false, false);
      Settles(s, keys) && forall p | p in parameters :: p.Key() in keys
    ensures
      var r := InferArguments(table, parameters, patterns, SubstituteAll(patterns, s), resultPattern, expectedResult,
                              false, false, partial);
      && r.Inferred? && |r.arguments| == |parameters|
      && forall i | 0 <= i < |parameters| ::
           parameters[i].Key() in s && r.arguments[i] == s[parameters[i].Key()]
  {
    CallMatchesInstances(table, patterns, s, |patterns|);
    var m := Restrict(s, ReachedKeys(table, patterns, |patterns|, false, false));
    var final := FinalDecides(parameters, m, resultPattern, expectedResult, partial);
    forall i | 0 <= i < |parameters|
      ensures Decisions(parameters, final, |parameters|)[i] == s[parameters[i].Key()]
    {
      DecisionsAt(parameters, final, |parameters|, i);
    }
  }

  lemma {:induction false} CallMatchesInstances(table: AliasTable, patterns: seq<Type>, s: Bindings, n: nat)
    requires n <= |patterns| && Settles(s, ReachedKeys(table, patterns, n, false, false))
    ensures |SubstituteAll(patterns, s)| == |patterns|
    ensures Fold(table, CallEvents(table, patterns, SubstituteAll(patterns, s), n, false, false), map[])
            == Outcome(true, Restrict(s, ReachedKeys(table, patterns, n, false, false)))
    decreases n
  {
    SubstituteAllLength(patterns, s);
    if n == 0 {
      assert Restrict(s, {}) == map[];
    } else {
      CallMatchesInstances(table, patterns, s, n - 1);
      SubstituteAllAt(patterns, s, n - 1);
      MatchInstance(table, patterns[n - 1], s, ReachedKeys(table, patterns, n - 1, false, false));
      FoldAppend(table, CallEvents(table, patterns, SubstituteAll(patterns, s), n - 1, false, false),
                 Events(patterns[n - 1], Substitute(patterns[n - 1], s)), map[]);
    }
  }

  lemma {:induction false} SubstituteAllAt(ts: seq<Type>, s: Bindings, i: nat)
    requires i < |ts| == |SubstituteAll(ts, s)|
    ensures SubstituteAll(ts, s)[i] == Substitute(ts[i], s)
  {
    if i > 0 {
      SubstituteAllLength(ts[1..], s);
      SubstituteAllAt(ts[1..], s, i - 1);
    }
  }

  /** When every parameter is settled, the result reads the settled types off the final map. */
  lemma FinalDecides(parameters: seq<Parameter>, m: Bindings, resultPattern: Type, expectedResult: Type, partial: bool)
    returns (final: Bindings)
    requires Decided(parameters, m)
    ensures final == WithResult(resultPattern, expectedResult, m) && Decided(parameters, final)
    ensures forall i | 0 <= i < |parameters| :: final[parameters[i].Key()] == m[parameters[i].Key()]
    ensures Decide(parameters, final, |parameters|, partial) == Inferred(Decisions(parameters, final, |parameters|))
  {
    final := WithResult(resultPattern, expectedResult, m);
    SupplyKeepsSettled(MissingEvents(resultPattern, expectedResult), m);
    DecideReads(parameters, final, |parameters|, partial);
  }

  lemma RecoveredIsDecided(parameters: seq<Parameter>, m: Bindings, resultPattern: Type, expectedResult: Type,
                           partial: bool, s: Bindings)
    requires forall k | k in m :: k in s && !HasUntyped(m[k]) && Shape(m[k]) == Shape(s[k])
    requires forall p | p in parameters :: p.Key() in m
    ensures
      var r := Decide(parameters, WithResult(resultPattern, expectedResult, m), |parameters|, partial);
      && r.Inferred? && |r.arguments| == |parameters|
      && forall i | 0 <= i < |parameters| ::
           parameters[i].Key() in s && Shape(r.arguments[i]) == Shape(s[parameters[i].Key()])
  {
    var final := FinalDecides(parameters, m, resultPattern, expectedResult, partial);
    forall i | 0 <= i < |parameters|
      ensures Shape(Decisions(parameters, final, |parameters|)[i]) == Shape(s[parameters[i].Key()])
    {
      DecisionsAt(parameters, final, |parameters|, i);
    }
  }
}
