/**
  What a whole call infers: a parameter is settled by the actual arguments, or
  else by the expected result, and the first one that is settled by neither is the
  failure.
 */
module ResultInference {
  import opened Types
  import opened TypeEquality
  import opened Substitution
  import opened Inference
  import opened InferenceLaws

  // ----- What the pass over the expected result supplies -----

  /** The map gives the parameter a type that is not untyped. */
  predicate Settled(m: Bindings, k: string) {
    k in m && !HasUntyped(m[k])
  }

  ghost predicate Offered(es: seq<Event>, k: string) {
    exists e :: e in EventSet(es) && Typed(e, k)
  }

  /** A settled parameter stays, one that is offered a type gets it, and the others are left alone. */
  ghost predicate Supplied(es: seq<Event>, m: Bindings, r: Bindings, k: string) {
    if Settled(m, k) then k in r && r[k] == m[k]
    else if Offered(es, k) then Settled(r, k) && Event(k, r[k]) in EventSet(es)
    else (k in r <==> k in m) && (k in m ==> r[k] == m[k])
  }

  lemma {:induction false} SupplyAt(es: seq<Event>, m: Bindings, k: string)
    ensures Supplied(es, m, SupplyAll(es, m), k)
  {
    if es != [] {
      var before, last := es[..|es| - 1], es[|es| - 1];
      SupplyAt(before, m, k);
      SupplyNext(before, last, m, SupplyAll(before, m), k);
      assert before + [last] == es;
    } else {
      assert EventSet(es) == {};
    }
  }

  lemma SupplyNext(before: seq<Event>, last: Event, m: Bindings, r: Bindings, k: string)
    requires Supplied(before, m, r, k)
    ensures Supplied(before + [last], m, Supply(last, r), k)
  {
    OfferedNext(before, last, k);
    EventSetAppend(before, [last]);
    assert [last][0] in EventSet([last]);
  }

  lemma OfferedNext(before: seq<Event>, last: Event, k: string)
    ensures Offered(before + [last], k) <==> Offered(before, k) || Typed(last, k)
  {
    EventSetAppend(before, [last]);
    assert [last][0] in EventSet([last]);
    if Offered(before, k) {
      var e :| e in EventSet(before) && Typed(e, k);
      assert e in EventSet(before + [last]);
    }
    if Typed(last, k) {
      assert last in EventSet(before + [last]);
    }
  }

  // ----- Reading the answer off the map -----

  /** What the map, and what may be left open, answer for one parameter. */
  ghost predicate Answers(m: Bindings, p: Parameter, partial: bool, t: Type) {
    if Settled(m, p.Key()) then t == m[p.Key()] else partial && t == TypeParameter(p)
  }

  /** Parameter `i` is the first that is not settled. */
  ghost predicate FirstOpen(parameters: seq<Parameter>, m: Bindings, i: nat) {
    && i < |parameters| && !Settled(m, parameters[i].Key())
    && forall j | 0 <= j < i :: Settled(m, parameters[j].Key())
  }

  /** `r` is right for the first `n` parameters. */
  ghost predicate DecidedTo(parameters: seq<Parameter>, m: Bindings, n: nat, partial: bool, r: InferenceResult)
    requires n <= |parameters|
  {
    match r
    case Inferred(arguments) =>
      |arguments| == n && forall i | 0 <= i < n :: Answers(m, parameters[i], partial, arguments[i])
    case Missing(i) => !partial && i < n && FirstOpen(parameters, m, i) && parameters[i].Key() !in m
    case OnlyUntyped(i) => !partial && i < n && FirstOpen(parameters, m, i) && parameters[i].Key() in m
    case Conflict => false
  }

  lemma {:induction false} DecideAnswers(parameters: seq<Parameter>, m: Bindings, n: nat, partial: bool)
    requires n <= |parameters|
    ensures DecidedTo(parameters, m, n, partial, Decide(parameters, m, n, partial))
    decreases n
  {
    if n > 0 {
      DecideAnswers(parameters, m, n - 1, partial);
      var before := Decide(parameters, m, n - 1, partial);
      if before.Inferred? {
        NextAnswer(parameters, m, n, partial, before.arguments);
      }
    }
  }

  lemma NextAnswer(parameters: seq<Parameter>, m: Bindings, n: nat, partial: bool, before: seq<Type>)
    requires 0 < n <= |parameters| && DecidedTo(parameters, m, n - 1, partial, Inferred(before))
    ensures DecidedTo(parameters, m, n, partial, DecideNext(before, parameters[n - 1], m, n - 1, partial))
  {
    var p := parameters[n - 1];
    if Settled(m, p.Key()) || partial {
      AnswerAppended(parameters, m, n, partial, before, if Settled(m, p.Key()) then m[p.Key()] else TypeParameter(p));
    } else {
      forall j | 0 <= j < n - 1 ensures Settled(m, parameters[j].Key()) {
        assert Answers(m, parameters[j], partial, before[j]);
      }
    }
  }

  lemma AnswerAppended(parameters: seq<Parameter>, m: Bindings, n: nat, partial: bool, before: seq<Type>, t: Type)
    requires 0 < n <= |parameters| && DecidedTo(parameters, m, n - 1, partial, Inferred(before))
    requires Answers(m, parameters[n - 1], partial, t)
    ensures DecidedTo(parameters, m, n, partial, Inferred(before + [t]))
  {
  }

  // ----- The parameters that the expected result can settle -----

  /** The parameters of a result pattern that the pass reaches. */
  ghost function ResultKeys(t: Type): set<string>
    decreases t
  {
    match t
    case TypeParameter(p) => {p.Key()}
    case PointerType(base, _) => ResultKeys(base)
    case SliceType(base, _) => ResultKeys(base)
    case ArrayType(base, _) => ResultKeys(base)
    case DefinedType(_, _, _, genericName, arguments) => if genericName == "" then {} else ResultKeysAll(arguments)
    case FunctionType(parameters, returnType, _, _) => ResultKeysAll(parameters) + ResultKeys(returnType)
    case MultipleReturnType(items) => ResultKeysAll(items)
    case _ => {}
  }

  ghost function ResultKeysAll(ts: seq<Type>): set<string>
    decreases ts
  {
    if ts == [] then {} else ResultKeys(ts[0]) + ResultKeysAll(ts[1..])
  }

  /** `t` is what `s` makes of a parameter with this key. */
  predicate IsImage(s: Bindings, k: string, t: Type) {
    if k in s then t == s[k] else t.TypeParameter? && t.parameter.Key() == k
  }

  /** The events offer each of the keys, and no other, its image. */
  ghost predicate OffersImages(s: Bindings, keys: set<string>, es: set<Event>) {
    && (forall e | e in es :: e.key in keys && IsImage(s, e.key, e.actual))
    && (forall k | k in keys :: exists e :: e in es && e.key == k)
  }

  lemma OffersUnion(s: Bindings, k1: set<string>, a: seq<Event>, k2: set<string>, b: seq<Event>)
    requires OffersImages(s, k1, EventSet(a)) && OffersImages(s, k2, EventSet(b))
    ensures OffersImages(s, k1 + k2, EventSet(a + b))
  {
    EventSetAppend(a, b);
    forall k | k in k1 + k2 ensures exists e :: e in EventSet(a + b) && e.key == k {
      if k in k1 {
        var e :| e in EventSet(a) && e.key == k;
        assert e in EventSet(a + b);
      } else {
        var e :| e in EventSet(b) && e.key == k;
        assert e in EventSet(a + b);
      }
    }
  }

  /** A literal instance of a pattern of any kind offers every parameter that is reached its image. */
  lemma {:induction false} InstanceOffers(pattern: Type, s: Bindings)
    ensures OffersImages(s, ResultKeys(pattern), EventSet(MissingEvents(pattern, Substitute(pattern, s))))
    decreases pattern, 1
  {
    match pattern
    case TypeParameter(p) =>
      var es := MissingEvents(pattern, Substitute(pattern, s));
      assert es == [Event(p.Key(), Substitute(pattern, s))] && es[0] in EventSet(es);
    case PointerType(base, _) => InstanceOffers(base, s);
    case SliceType(base, _) => InstanceOffers(base, s);
    case ArrayType(base, _) => InstanceOffers(base, s);
    case DefinedType(_, _, _, _, arguments) =>
      SubstituteAllLength(arguments, s);
      InstancesOffer(arguments, s);
    case FunctionType(_, _, _, _) => FunctionOffers(pattern, s);
    case MultipleReturnType(items) =>
      SubstituteAllLength(items, s);
      InstancesOffer(items, s);
    case _ =>
  }

  lemma FunctionOffers(pattern: Type, s: Bindings)
    requires pattern.FunctionType?
    ensures OffersImages(s, ResultKeys(pattern), EventSet(MissingEvents(pattern, Substitute(pattern, s))))
    decreases pattern, 0
  {
    var parameters, returnType := pattern.parameters, pattern.returnType;
    SubstituteAllLength(parameters, s);
    InstancesOffer(parameters, s);
    InstanceOffers(returnType, s);
    OffersUnion(s, ResultKeysAll(parameters), MissingEventsAll(parameters, SubstituteAll(parameters, s)),
                ResultKeys(returnType), MissingEvents(returnType, Substitute(returnType, s)));
  }

  lemma InstancesOffer(patterns: seq<Type>, s: Bindings)
    requires |SubstituteAll(patterns, s)| == |patterns|
    ensures
      OffersImages(s, ResultKeysAll(patterns), EventSet(MissingEventsAll(patterns, SubstituteAll(patterns, s))))
    decreases patterns
  {
    if patterns != [] {
      var rest := SubstituteAll(patterns, s)[1..];
      assert rest == SubstituteAll(patterns[1..], s);
      InstanceOffers(patterns[0], s);
      InstancesOffer(patterns[1..], s);
      OffersUnion(s, ResultKeys(patterns[0]), MissingEvents(patterns[0], Substitute(patterns[0], s)),
                  ResultKeysAll(patterns[1..]), MissingEventsAll(patterns[1..], rest));
    }
  }

  // ----- A call that expects an instance of its result -----

  /** The expected result settles the parameter: it reaches it, with an image that is not untyped. */
  ghost predicate Fills(resultPattern: Type, s: Bindings, k: string) {
    k in ResultKeys(resultPattern) && (k in s ==> !HasUntyped(s[k]))
  }

  lemma OfferedExactly(s: Bindings, keys: set<string>, es: seq<Event>, k: string)
    requires OffersImages(s, keys, EventSet(es))
    ensures Offered(es, k) <==> k in keys && (k in s ==> !HasUntyped(s[k]))
  {
    if k in keys && (k in s ==> !HasUntyped(s[k])) {
      var e :| e in EventSet(es) && e.key == k;
      assert Typed(e, k);
    }
  }

  /** The pass over an instance of the result fills exactly the gaps that it reaches, with the images. */
  lemma ResultFillsGaps(resultPattern: Type, s: Bindings, m: Bindings, k: string)
    requires !Substitute(resultPattern, s).NoType?
    ensures
      var r := WithResult(resultPattern, Substitute(resultPattern, s), m);
      if Settled(m, k) then k in r && r[k] == m[k]
      else if Fills(resultPattern, s, k) then Settled(r, k) && IsImage(s, k, r[k])
      else (k in r <==> k in m) && (k in m ==> r[k] == m[k])
  {
    var es := MissingEvents(resultPattern, Substitute(resultPattern, s));
    InstanceOffers(resultPattern, s);
    OfferedExactly(s, ResultKeys(resultPattern), es, k);
    SupplyAt(es, m, k);
  }

  /** The arguments settle the parameter, or the expected result does. */
  ghost predicate Determined(m: Bindings, resultPattern: Type, s: Bindings, k: string) {
    Settled(m, k) || Fills(resultPattern, s, k)
  }

  /** `t` is the answer for a parameter: from the arguments, from the expected result, or left open. */
  ghost predicate RightAnswer(
    m: Bindings, resultPattern: Type, s: Bindings, p: Parameter, partial: bool, t: Type)
  {
    if Settled(m, p.Key()) then t == m[p.Key()]
    else if Fills(resultPattern, s, p.Key()) then IsImage(s, p.Key(), t)
    else partial && t == TypeParameter(p)
  }

  ghost predicate AllDetermined(parameters: seq<Parameter>, m: Bindings, resultPattern: Type, s: Bindings) {
    forall i | 0 <= i < |parameters| :: Determined(m, resultPattern, s, parameters[i].Key())
  }

  ghost predicate FirstUndetermined(
    parameters: seq<Parameter>, m: Bindings, resultPattern: Type, s: Bindings, i: nat)
  {
    && i < |parameters| && !Determined(m, resultPattern, s, parameters[i].Key())
    && forall j | 0 <= j < i :: Determined(m, resultPattern, s, parameters[j].Key())
  }

  ghost predicate RightResult(
    parameters: seq<Parameter>, m: Bindings, resultPattern: Type, s: Bindings, partial: bool, r: InferenceResult)
  {
    match r
    case Inferred(arguments) =>
      && |arguments| == |parameters|
      && forall i | 0 <= i < |parameters| :: RightAnswer(m, resultPattern, s, parameters[i], partial, arguments[i])
    case Missing(i) =>
      !partial && FirstUndetermined(parameters, m, resultPattern, s, i) && parameters[i].Key() !in m
    case OnlyUntyped(i) =>
      !partial && FirstUndetermined(parameters, m, resultPattern, s, i) && parameters[i].Key() in m
    case Conflict => false
  }

  /**
    What a call infers when an instance of its result pattern is expected: the
    arguments conflict, or every parameter is settled by the arguments or by the
    expected result, or the first one that is settled by neither is reported, as
    missing or as met by untyped literals only.
   */
  lemma CallInfersExactly(
    table: AliasTable, parameters: seq<Parameter>, patterns: seq<Type>, actuals: seq<Type>,
    resultPattern: Type, s: Bindings, typedVariadic: bool, expansion: bool, partial: bool)
    requires !Substitute(resultPattern, s).NoType?
    ensures
      var o := ActualsOutcome(table, patterns, actuals, typedVariadic, expansion);
      var r := InferArguments(table, parameters, patterns, actuals, resultPattern, Substitute(resultPattern, s),
                              typedVariadic, expansion, partial);
      && (!o.ok ==> r == Conflict)
      && (o.ok ==> RightResult(parameters, o.inferred, resultPattern, s, partial, r))
      && (r.Inferred? <==> o.ok && (partial || AllDetermined(parameters, o.inferred, resultPattern, s)))
  {
    var o := ActualsOutcome(table, patterns, actuals, typedVariadic, expansion);
    if o.ok {
      var final := WithResult(resultPattern, Substitute(resultPattern, s), o.inferred);
      forall i | 0 <= i < |parameters| ensures FilledAt(o.inferred, final, resultPattern, s, parameters[i].Key()) {
        ResultFillsGaps(resultPattern, s, o.inferred, parameters[i].Key());
      }
      FilledDecides(parameters, o.inferred, final, resultPattern, s, partial);
    }
  }

  ghost predicate FilledAt(m: Bindings, r: Bindings, resultPattern: Type, s: Bindings, k: string) {
    if Settled(m, k) then k in r && r[k] == m[k]
    else if Fills(resultPattern, s, k) then Settled(r, k) && IsImage(s, k, r[k])
    else (k in r <==> k in m) && (k in m ==> r[k] == m[k])
  }

  lemma FilledDecides(
    parameters: seq<Parameter>, m: Bindings, final: Bindings, resultPattern: Type, s: Bindings, partial: bool)
    requires forall i | 0 <= i < |parameters| :: FilledAt(m, final, resultPattern, s, parameters[i].Key())
    ensures
      var r := Decide(parameters, final, |parameters|, partial);
      && RightResult(parameters, m, resultPattern, s, partial, r)
      && (r.Inferred? <==> partial || AllDetermined(parameters, m, resultPattern, s))
  {
    DecideAnswers(parameters, final, |parameters|, partial);
    RightlyDecided(parameters, m, final, resultPattern, s, partial, Decide(parameters, final, |parameters|, partial));
  }

  lemma RightlyDecided(
    parameters: seq<Parameter>, m: Bindings, final: Bindings, resultPattern: Type, s: Bindings, partial: bool,
    r: InferenceResult)
    requires forall i | 0 <= i < |parameters| :: FilledAt(m, final, resultPattern, s, parameters[i].Key())
    requires DecidedTo(parameters, final, |parameters|, partial, r)
    ensures RightResult(parameters, m, resultPattern, s, partial, r)
    ensures r.Inferred? <==> partial || AllDetermined(parameters, m, resultPattern, s)
  {
    forall i | 0 <= i < |parameters|
      ensures Settled(final, parameters[i].Key()) <==> Determined(m, resultPattern, s, parameters[i].Key())
    {
      assert FilledAt(m, final, resultPattern, s, parameters[i].Key());
    }
    match r
    case Inferred(arguments) => AnswersAreRight(parameters, m, final, resultPattern, s, partial, arguments);
    case Missing(i) => assert FilledAt(m, final, resultPattern, s, parameters[i].Key());
    case OnlyUntyped(i) => assert FilledAt(m, final, resultPattern, s, parameters[i].Key());
  }

  lemma AnswersAreRight(
    parameters: seq<Parameter>, m: Bindings, final: Bindings, resultPattern: Type, s: Bindings, partial: bool,
    arguments: seq<Type>)
    requires forall i | 0 <= i < |parameters| :: FilledAt(m, final, resultPattern, s, parameters[i].Key())
    requires DecidedTo(parameters, final, |parameters|, partial, Inferred(arguments))
    ensures RightResult(parameters, m, resultPattern, s, partial, Inferred(arguments))
    ensures partial || AllDetermined(parameters, m, resultPattern, s)
  {
    forall i | 0 <= i < |parameters|
      ensures RightAnswer(m, resultPattern, s, parameters[i], partial, arguments[i])
      ensures partial || Determined(m, resultPattern, s, parameters[i].Key())
    {
      assert FilledAt(m, final, resultPattern, s, parameters[i].Key());
      assert Answers(final, parameters[i], partial, arguments[i]);
    }
  }

  /** Without an expected result, the arguments alone decide. */
  lemma CallWithoutResult(
    table: AliasTable, parameters: seq<Parameter>, patterns: seq<Type>, actuals: seq<Type>, resultPattern: Type,
    typedVariadic: bool, expansion: bool, partial: bool)
    ensures
      var o := ActualsOutcome(table, patterns, actuals, typedVariadic, expansion);
      var r := InferArguments(table, parameters, patterns, actuals, resultPattern, NoType,
                              typedVariadic, expansion, partial);
      && (!o.ok ==> r == Conflict)
      && (o.ok ==> RightResult(parameters, o.inferred, NoType, map[], partial, r))
  {
    var o := ActualsOutcome(table, patterns, actuals, typedVariadic, expansion);
    if o.ok {
      forall i | 0 <= i < |parameters| ensures FilledAt(o.inferred, o.inferred, NoType, map[], parameters[i].Key()) {
      }
      FilledDecides(parameters, o.inferred, o.inferred, NoType, map[], partial);
    }
  }

  // ----- Up to the names of instances -----

  /**
    Where the pass looks, the actual is the pattern with each parameter replaced by
    its image, up to the names of instances.
   */
  ghost predicate Resembles(pattern: Type, actual: Type, s: Bindings)
    decreases pattern
  {
    match pattern
    case TypeParameter(p) => p.Key() in s && Shape(actual) == Shape(s[p.Key()])
    case PointerType(base, _) => actual.PointerType? && Resembles(base, actual.base, s)
    case SliceType(base, _) => actual.SliceType? && Resembles(base, actual.base, s)
    case ArrayType(base, length) => actual.ArrayType? && length == actual.length && Resembles(base, actual.base, s)
    case DefinedType(_, _, _, genericName, arguments) =>
      genericName == "" || (SameGeneric(pattern, actual) && ResembleAll(arguments, actual.typeArguments, s))
    case FunctionType(parameters, returnType, _, _) =>
      && actual.FunctionType? && |parameters| == |actual.parameters|
      && ResembleAll(parameters, actual.parameters, s) && Resembles(returnType, actual.returnType, s)
    case MultipleReturnType(items) =>
      actual.MultipleReturnType? && |items| == |actual.items| && ResembleAll(items, actual.items, s)
    case _ => true
  }

  ghost predicate ResembleAll(patterns: seq<Type>, actuals: seq<Type>, s: Bindings)
    requires |patterns| == |actuals|
    decreases patterns
  {
    patterns != [] ==> Resembles(patterns[0], actuals[0], s) && ResembleAll(patterns[1..], actuals[1..], s)
  }

  /** An instance of a core pattern resembles it. */
  lemma {:induction false} InstanceResembles(pattern: Type, actual: Type, s: Bindings)
    requires CorePattern(pattern) && InferableKeys(pattern) <= s.Keys
    requires Shape(Substitute(pattern, s)) == Shape(actual)
    ensures Resembles(pattern, actual, s)
    decreases pattern, 1
  {
    match pattern
    case PointerType(_, _) => BaseResembles(pattern, actual, s);
    case SliceType(_, _) => BaseResembles(pattern, actual, s);
    case ArrayType(_, _) => BaseResembles(pattern, actual, s);
    case DefinedType(_, _, _, _, _) => NominalResembles(pattern, actual, s);
    case FunctionType(_, _, _, _) => FunctionResembles(pattern, actual, s);
    case _ =>
  }

  lemma BaseResembles(pattern: Type, actual: Type, s: Bindings)
    requires pattern.PointerType? || pattern.SliceType? || pattern.ArrayType?
    requires CorePattern(pattern) && InferableKeys(pattern) <= s.Keys
    requires Shape(Substitute(pattern, s)) == Shape(actual)
    ensures Resembles(pattern, actual, s)
    decreases pattern, 0
  {
    InstanceResembles(pattern.base, actual.base, s);
  }

  lemma NominalResembles(pattern: Type, actual: Type, s: Bindings)
    requires pattern.DefinedType? && CorePattern(pattern) && InferableKeys(pattern) <= s.Keys
    requires Shape(Substitute(pattern, s)) == Shape(actual)
    ensures Resembles(pattern, actual, s)
    decreases pattern, 0
  {
    if pattern.genericName != "" {
      SameGenericShape(pattern, actual, SubstituteAll(pattern.typeArguments, s));
      InstancesResemble(pattern.typeArguments, actual.typeArguments, s);
    }
  }

  lemma FunctionResembles(pattern: Type, actual: Type, s: Bindings)
    requires pattern.FunctionType? && CorePattern(pattern) && InferableKeys(pattern) <= s.Keys
    requires Shape(Substitute(pattern, s)) == Shape(actual)
    ensures Resembles(pattern, actual, s)
    decreases pattern, 0
  {
    FunctionShape(pattern, s);
    SameFunctionShape(actual, SubstituteAll(pattern.parameters, s), Substitute(pattern.returnType, s),
                      pattern.typedVariadic);
    InstancesResemble(pattern.parameters, actual.parameters, s);
    InstanceResembles(pattern.returnType, actual.returnType, s);
  }

  lemma SameFunctionShape(actual: Type, parameters: seq<Type>, returnType: Type, variadic: bool)
    requires Shape(actual) == FunctionType(ShapeAll(parameters), Shape(returnType), variadic, NoType)
    ensures actual.FunctionType?
    ensures ShapeAll(parameters) == ShapeAll(actual.parameters) && Shape(returnType) == Shape(actual.returnType)
  {
    ShapeOfFunction(actual);
  }

  lemma ShapeOfFunction(t: Type)
    ensures Shape(t).FunctionType? <==> t.FunctionType?
  {
    if !t.FunctionType? && !t.PointerType? && !t.SliceType? && !t.ArrayType? && !t.DefinedType? {
      assert Shape(t) == Canon(map[], t);
    }
  }

  lemma InstancesResemble(patterns: seq<Type>, actuals: seq<Type>, s: Bindings)
    requires forall i | 0 <= i < |patterns| :: CorePattern(patterns[i])
    requires InferableKeysAll(patterns) <= s.Keys && ShapeAll(SubstituteAll(patterns, s)) == ShapeAll(actuals)
    ensures |patterns| == |actuals| && ResembleAll(patterns, actuals, s)
    decreases patterns
  {
    if patterns != [] {
      assert SubstituteAll(patterns, s)[1..] == SubstituteAll(patterns[1..], s);
      assert ShapeAll(actuals)[1..] == ShapeAll(actuals[1..]);
      InstanceResembles(patterns[0], actuals[0], s);
      InstancesResemble(patterns[1..], actuals[1..], s);
    }
  }

  lemma {:induction false} ResemblanceReads(pattern: Type, actual: Type, s: Bindings)
    requires Resembles(pattern, actual, s)
    ensures Reads(s, ResultKeys(pattern), EventSet(MissingEvents(pattern, actual)))
    decreases pattern, 1
  {
    match pattern
    case TypeParameter(p) =>
      var es := MissingEvents(pattern, actual);
      assert es == [Event(p.Key(), actual)] && es[0] in EventSet(es);
    case PointerType(base, _) => ResemblanceReads(base, actual.base, s);
    case SliceType(base, _) => ResemblanceReads(base, actual.base, s);
    case ArrayType(base, _) => ResemblanceReads(base, actual.base, s);
    case DefinedType(_, _, _, genericName, arguments) =>
      if genericName != "" {
        ResemblancesRead(arguments, actual.typeArguments, s);
      }
    case FunctionType(parameters, returnType, _, _) =>
      ResemblancesRead(parameters, actual.parameters, s);
      ResemblanceReads(returnType, actual.returnType, s);
      ReadsUnion(s, ResultKeysAll(parameters), MissingEventsAll(parameters, actual.parameters),
                 ResultKeys(returnType), MissingEvents(returnType, actual.returnType));
    case MultipleReturnType(items) => ResemblancesRead(items, actual.items, s);
    case _ =>
  }

  lemma ResemblancesRead(patterns: seq<Type>, actuals: seq<Type>, s: Bindings)
    requires |patterns| == |actuals| && ResembleAll(patterns, actuals, s)
    ensures Reads(s, ResultKeysAll(patterns), EventSet(MissingEventsAll(patterns, actuals)))
    decreases patterns
  {
    if patterns != [] {
      ResemblanceReads(patterns[0], actuals[0], s);
      ResemblancesRead(patterns[1..], actuals[1..], s);
      ReadsUnion(s, ResultKeys(patterns[0]), MissingEvents(patterns[0], actuals[0]),
                 ResultKeysAll(patterns[1..]), MissingEventsAll(patterns[1..], actuals[1..]));
    }
  }

  /** The shape of a type shows whether it is untyped. */
  lemma {:induction false} ShapeKeepsUntyped(t: Type)
    ensures HasUntyped(Shape(t)) <==> HasUntyped(t)
    decreases t, 1
  {
    match t
    case PointerType(base, _) => ShapeKeepsUntyped(base);
    case SliceType(base, _) => ShapeKeepsUntyped(base);
    case ArrayType(base, _) => ShapeKeepsUntyped(base);
    case FunctionType(_, _, _, _) => FunctionShapeKeepsUntyped(t);
    case _ => CanonKeepsUntyped(t);
  }

  lemma FunctionShapeKeepsUntyped(t: Type)
    requires t.FunctionType?
    ensures HasUntyped(Shape(t)) <==> HasUntyped(t)
    decreases t, 0
  {
    ShapesKeepUntyped(t.parameters);
    ShapeKeepsUntyped(t.returnType);
  }

  lemma {:induction false} ShapesKeepUntyped(ts: seq<Type>)
    ensures |ShapeAll(ts)| == |ts|
    ensures forall i | 0 <= i < |ts| :: HasUntyped(ShapeAll(ts)[i]) <==> HasUntyped(ts[i])
    decreases ts
  {
    if ts != [] {
      ShapeKeepsUntyped(ts[0]);
      ShapesKeepUntyped(ts[1..]);
    }
  }

  lemma {:induction false} CanonKeepsUntyped(t: Type)
    ensures HasUntyped(Canon(map[], t)) <==> HasUntyped(t)
    decreases t, 1
  {
    match t
    case PointerType(base, _) => CanonKeepsUntyped(base);
    case SliceType(base, _) => CanonKeepsUntyped(base);
    case ArrayType(base, _) => CanonKeepsUntyped(base);
    case SequenceType(base, _) => CanonKeepsUntyped(base);
    case FunctionType(_, _, _, _) => FunctionKeepsUntyped(t);
    case MultipleReturnType(items) =>
      forall i | 0 <= i < |items| ensures HasUntyped(Canon(map[], t).items[i]) <==> HasUntyped(items[i]) {
        CanonKeepsUntyped(items[i]);
      }
    case StructType(_, _, _) => StructKeepsUntyped(t);
    case _ =>
  }

  lemma {:induction false} FunctionKeepsUntyped(t: Type)
    requires t.FunctionType?
    ensures HasUntyped(Canon(map[], t)) <==> HasUntyped(t)
    decreases t, 0
  {
    forall i | 0 <= i < |t.parameters|
      ensures HasUntyped(Canon(map[], t).parameters[i]) <==> HasUntyped(t.parameters[i])
    {
      CanonKeepsUntyped(t.parameters[i]);
    }
    CanonKeepsUntyped(t.returnType);
  }

  lemma {:induction false} StructKeepsUntyped(t: Type)
    requires t.StructType?
    ensures HasUntyped(Canon(map[], t)) <==> HasUntyped(t)
    decreases t, 0
  {
    forall i | 0 <= i < |t.fields| ensures HasUntyped(Canon(map[], t).fields[i].typ) <==> HasUntyped(t.fields[i].typ) {
      CanonKeepsUntyped(t.fields[i].typ);
    }
  }

  /** The pass over a result that resembles its pattern fills the gaps that it reaches, up to shape. */
  lemma ShapedResultFillsGaps(resultPattern: Type, expected: Type, s: Bindings, m: Bindings, k: string)
    requires Resembles(resultPattern, expected, s) && !expected.NoType?
    ensures
      var r := WithResult(resultPattern, expected, m);
      if Settled(m, k) then k in r && r[k] == m[k]
      else if Fills(resultPattern, s, k) then k in s && Settled(r, k) && Shape(r[k]) == Shape(s[k])
      else (k in r <==> k in m) && (k in m ==> r[k] == m[k])
  {
    var es := MissingEvents(resultPattern, expected);
    ResemblanceReads(resultPattern, expected, s);
    forall e | e in EventSet(es) ensures HasUntyped(e.actual) <==> HasUntyped(s[e.key]) {
      ShapeKeepsUntyped(e.actual);
      ShapeKeepsUntyped(s[e.key]);
    }
    if Fills(resultPattern, s, k) {
      var e :| e in EventSet(es) && e.key == k;
      assert Typed(e, k);
    }
    SupplyAt(es, m, k);
  }

  /** A parameter that only the expected result settles comes back as its image, up to shape. */
  lemma ShapedCallInfers(
    table: AliasTable, parameters: seq<Parameter>, patterns: seq<Type>, actuals: seq<Type>,
    resultPattern: Type, expected: Type, s: Bindings, typedVariadic: bool, expansion: bool)
    requires Resembles(resultPattern, expected, s) && !expected.NoType?
    requires ActualsOutcome(table, patterns, actuals, typedVariadic, expansion).ok
    ensures
      var m := ActualsOutcome(table, patterns, actuals, typedVariadic, expansion).inferred;
      var r := InferArguments(table, parameters, patterns, actuals, resultPattern, expected,
                              typedVariadic, expansion, false);
      && (r.Inferred? <==> AllDetermined(parameters, m, resultPattern, s))
      && (r.Inferred? ==>
          && |r.arguments| == |parameters|
          && forall i | 0 <= i < |parameters| :: ShapedAnswer(m, s, parameters[i].Key(), r.arguments[i]))
  {
    var m := ActualsOutcome(table, patterns, actuals, typedVariadic, expansion).inferred;
    var final := WithResult(resultPattern, expected, m);
    forall i | 0 <= i < |parameters| ensures ShapedAt(m, final, resultPattern, s, parameters[i].Key()) {
      ShapedResultFillsGaps(resultPattern, expected, s, m, parameters[i].Key());
    }
    ShapedDecides(parameters, m, final, resultPattern, s);
  }

  ghost predicate ShapedAt(m: Bindings, r: Bindings, resultPattern: Type, s: Bindings, k: string) {
    && (Settled(r, k) <==> Determined(m, resultPattern, s, k))
    && (Settled(r, k) ==> ShapedAnswer(m, s, k, r[k]))
  }

  lemma ShapedDecides(parameters: seq<Parameter>, m: Bindings, final: Bindings, resultPattern: Type, s: Bindings)
    requires forall i | 0 <= i < |parameters| :: ShapedAt(m, final, resultPattern, s, parameters[i].Key())
    ensures
      var r := Decide(parameters, final, |parameters|, false);
      && (r.Inferred? <==> AllDetermined(parameters, m, resultPattern, s))
      && (r.Inferred? ==>
          && |r.arguments| == |parameters|
          && forall i | 0 <= i < |parameters| :: ShapedAnswer(m, s, parameters[i].Key(), r.arguments[i]))
  {
    var r := Decide(parameters, final, |parameters|, false);
    DecideAnswers(parameters, final, |parameters|, false);
    if r.Inferred? {
      forall i | 0 <= i < |parameters|
        ensures Determined(m, resultPattern, s, parameters[i].Key())
        ensures ShapedAnswer(m, s, parameters[i].Key(), r.arguments[i])
      {
        assert ShapedAt(m, final, resultPattern, s, parameters[i].Key());
        assert Answers(final, parameters[i], false, r.arguments[i]);
      }
    } else {
      assert ShapedAt(m, final, resultPattern, s, parameters[r.parameter].Key());
    }
  }

  ghost predicate ShapedAnswer(m: Bindings, s: Bindings, k: string, t: Type) {
    if Settled(m, k) then t == m[k] else k in s && Shape(t) == Shape(s[k])
  }

  // ----- Literals -----

  /** The actual with some slices and arrays, at places that the pattern enters, written as literals. */
  ghost predicate WrittenAs(pattern: Type, actual: Type, written: Type)
    decreases pattern
  {
    || written == actual
    || match pattern
       case SliceType(base, _) =>
         actual.SliceType? && written.SequenceType? && WrittenAs(base, actual.base, written.base)
       case ArrayType(base, length) =>
         && actual.ArrayType? && written.SequenceType? && written.length == length == actual.length
         && WrittenAs(base, actual.base, written.base)
       case _ => false
  }

  /** A literal is matched as the slice or the array that it can be. */
  lemma {:induction false} LiteralMatchesAlike(pattern: Type, actual: Type, written: Type)
    requires WrittenAs(pattern, actual, written)
    ensures Events(pattern, written) == Events(pattern, actual)
    decreases pattern
  {
    if written != actual {
      LiteralMatchesAlike(pattern.base, actual.base, written.base);
    }
  }

  /** A parameter that meets a literal waits for a type, and an untyped one holds its place. */
  lemma LiteralSettlesNothing(table: AliasTable, p: Parameter, literal: Type, m: Bindings)
    requires literal.SequenceType? || HasUntyped(literal)
    ensures
      var o := Fold(table, Events(TypeParameter(p), literal), m);
      && o.ok && (forall k :: Settled(o.inferred, k) <==> Settled(m, k))
      && (forall k | Settled(m, k) :: o.inferred[k] == m[k])
      && (!literal.SequenceType? ==> p.Key() in o.inferred)
  {
    var es := Events(TypeParameter(p), literal);
    if !literal.SequenceType? {
      assert es == [Event(p.Key(), literal)] && es[..0] == [];
      assert Fold(table, [], m) == Outcome(true, m);
      assert Fold(table, es, m) == Bind(table, es[0], m);
    }
  }

  // ----- Variadic calls -----

  /**
    The actuals of a typed variadic call: each before the last pattern, a slice, is
    an instance of its own pattern; from there on each is an element of the slice,
    or, when a slice is expanded, an instance of the slice.
   */
  ghost predicate VariadicActuals(
    patterns: seq<Type>, element: Type, mutable: bool, actuals: seq<Type>, expansion: bool, s: Bindings)
  {
    && patterns != [] && patterns[|patterns| - 1] == SliceType(element, mutable)
    && forall i | 0 <= i < |actuals| ::
         if i < |patterns| - 1 then InstanceOf(patterns[i], actuals[i], s)
         else InstanceOf(if expansion then patterns[|patterns| - 1] else element, actuals[i], s)
  }

  /** Then each actual is an instance of the pattern that the call matches it against. */
  lemma {:induction false} VariadicInstances(
    table: AliasTable, patterns: seq<Type>, element: Type, mutable: bool, actuals: seq<Type>, n: nat,
    expansion: bool, s: Bindings)
    requires VariadicActuals(patterns, element, mutable, actuals, expansion, s) && n <= |actuals|
    ensures PairCount(patterns, actuals, true) == |actuals|
    ensures Instances(table, patterns, actuals, n, true, expansion, s)
    decreases n
  {
    if n > 0 {
      VariadicInstances(table, patterns, element, mutable, actuals, n - 1, expansion, s);
      VariadicPattern(table, patterns, element, mutable, n - 1, expansion);
    }
  }

  lemma VariadicPattern(
    table: AliasTable, patterns: seq<Type>, element: Type, mutable: bool, i: nat, expansion: bool)
    requires patterns != [] && patterns[|patterns| - 1] == SliceType(element, mutable)
    ensures
      PatternFor(table, patterns, i, true, expansion)
      == if i < |patterns| - 1 then patterns[i] else if expansion then patterns[|patterns| - 1] else element
  {
  }

  /** And every parameter of the patterns before the last is reached, and of the element once there is one. */
  lemma {:induction false} VariadicKeys(
    table: AliasTable, patterns: seq<Type>, element: Type, mutable: bool, n: nat, expansion: bool, i: nat)
    requires patterns != [] && patterns[|patterns| - 1] == SliceType(element, mutable) && i < n
    ensures
      InferableKeys(if i < |patterns| - 1 then patterns[i] else element) <=
      ReachedKeys(table, patterns, n, true, expansion)
    decreases n
  {
    VariadicPattern(table, patterns, element, mutable, n - 1, expansion);
    if i < n - 1 {
      VariadicKeys(table, patterns, element, mutable, n - 1, expansion, i);
    }
  }
}
