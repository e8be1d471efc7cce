/**
  Generic argument inference (sema/generics.go).

  `GenericInference` holds the one map that the Go functions share; its methods
  are those functions.  What a call does to the map is a fold over the list of
  `Event`s (parameter, actual type) that the traversal of the pattern meets.
 */
module Inference {
  import opened Types
  import opened TypeEquality

  datatype Event = Event(key: string, actual: Type)

  // ----- What the traversals meet -----

  /** The parameters that inferGenericType meets, in order, with their actuals. */
  function Events(pattern: Type, actual: Type): seq<Event>
    decreases pattern
  {
    match pattern
    case TypeParameter(p) => if actual.SequenceType? then [] else [Event(p.Key(), actual)]
    case PointerType(base, _) => if actual.PointerType? then Events(base, actual.base) else []
    case SliceType(base, _) => if actual.SliceType? || actual.SequenceType? then Events(base, actual.base) else []
    case ArrayType(base, length) =>
      if (actual.ArrayType? || actual.SequenceType?) && length == actual.length then Events(base, actual.base) else []
    case DefinedType(_, _, _, _, arguments) =>
      if SameGeneric(pattern, actual) then EventsAll(arguments, actual.typeArguments) else []
    case FunctionType(parameters, returnType, _, _) =>
      if actual.FunctionType? && |parameters| == |actual.parameters| then
        EventsAll(parameters, actual.parameters) + Events(returnType, actual.returnType)
      else []
    case _ => []
  }

  function EventsAll(patterns: seq<Type>, actuals: seq<Type>): seq<Event>
    requires |patterns| == |actuals|
    decreases patterns
  {
    if patterns == [] then [] else Events(patterns[0], actuals[0]) + EventsAll(patterns[1..], actuals[1..])
  }

  predicate SameGeneric(pattern: Type, actual: Type)
    requires pattern.DefinedType?
  {
    && actual.DefinedType?
    && pattern.moduleName == actual.moduleName
    && pattern.genericName != "" && pattern.genericName == actual.genericName
    && |pattern.typeArguments| == |actual.typeArguments|
  }

  /** The same for inferMissingGenericType, which treats literals and results differently. */
  function MissingEvents(pattern: Type, actual: Type): seq<Event>
    decreases pattern
  {
    match pattern
    case TypeParameter(p) => [Event(p.Key(), actual)]
    case PointerType(base, _) => if actual.PointerType? then MissingEvents(base, actual.base) else []
    case SliceType(base, _) => if actual.SliceType? then MissingEvents(base, actual.base) else []
    case ArrayType(base, length) =>
      if actual.ArrayType? && length == actual.length then MissingEvents(base, actual.base) else []
    case DefinedType(_, _, _, _, arguments) =>
      if SameGeneric(pattern, actual) then MissingEventsAll(arguments, actual.typeArguments) else []
    case FunctionType(parameters, returnType, _, _) =>
      if actual.FunctionType? && |parameters| == |actual.parameters| then
        MissingEventsAll(parameters, actual.parameters) + MissingEvents(returnType, actual.returnType)
      else []
    case MultipleReturnType(items) =>
      if actual.MultipleReturnType? && |items| == |actual.items| then MissingEventsAll(items, actual.items) else []
    case _ => []
  }

  function MissingEventsAll(patterns: seq<Type>, actuals: seq<Type>): seq<Event>
    requires |patterns| == |actuals|
    decreases patterns
  {
    if patterns == [] then []
    else MissingEvents(patterns[0], actuals[0]) + MissingEventsAll(patterns[1..], actuals[1..])
  }

  // ----- What the events do to the map -----

  datatype Outcome = Outcome(ok: bool, inferred: Bindings)

  /** One parameter of inferGenericType: untyped literals only hold a place. */
  function Bind(table: AliasTable, e: Event, m: Bindings): Outcome {
    if HasUntyped(e.actual) then
      Outcome(true, if e.key !in m || HasUntyped(m[e.key]) then m[e.key := e.actual] else m)
    else if e.key in m && !HasUntyped(m[e.key]) && !Equals(table, {}, m[e.key], e.actual) then
      Outcome(false, m)
    else
      Outcome(true, m[e.key := e.actual])
  }

  /** All events in order; the first conflict stops. */
  function Fold(table: AliasTable, es: seq<Event>, m: Bindings): Outcome {
    if es == [] then Outcome(true, m)
    else
      var before := Fold(table, es[..|es| - 1], m);
      if before.ok then Bind(table, es[|es| - 1], before.inferred) else before
  }

  function Supply(e: Event, m: Bindings): Bindings {
    if (e.key !in m || HasUntyped(m[e.key])) && !HasUntyped(e.actual) then m[e.key := e.actual] else m
  }

  function SupplyAll(es: seq<Event>, m: Bindings): Bindings {
    if es == [] then m else Supply(es[|es| - 1], SupplyAll(es[..|es| - 1], m))
  }

  lemma {:induction false} FoldAppend(table: AliasTable, a: seq<Event>, b: seq<Event>, m: Bindings)
    ensures
      var first := Fold(table, a, m);
      Fold(table, a + b, m) == if first.ok then Fold(table, b, first.inferred) else first
  {
    if b == [] {
      assert a + b == a;
    } else {
      FoldAppend(table, a, b[..|b| - 1], m);
      assert (a + b)[..|a + b| - 1] == a + b[..|b| - 1];
    }
  }

  lemma {:induction false} SupplyAppend(a: seq<Event>, b: seq<Event>, m: Bindings)
    ensures SupplyAll(a + b, m) == SupplyAll(b, SupplyAll(a, m))
  {
    if b == [] {
      assert a + b == a;
    } else {
      SupplyAppend(a, b[..|b| - 1], m);
      assert (a + b)[..|a + b| - 1] == a + b[..|b| - 1];
    }
  }

  // ----- A whole call -----

  datatype InferenceResult =
    | Inferred(arguments: seq<Type>) | Conflict | Missing(parameter: nat) | OnlyUntyped(parameter: nat)

  /** How many actuals take part: a typed variadic pattern repeats, others end the walk. */
  function PairCount(patterns: seq<Type>, actuals: seq<Type>, typedVariadic: bool): nat {
    if |patterns| == 0 then 0
    else if typedVariadic || |actuals| <= |patterns| then |actuals|
    else |patterns|
  }

  /** The pattern that actual `i` is matched against. */
  function PatternFor(table: AliasTable, patterns: seq<Type>, i: nat, typedVariadic: bool, expansion: bool): Type
    requires 0 < |patterns|
  {
    var index := if i < |patterns| then i else |patterns| - 1;
    var u := Underlying(table, {}, patterns[index]);
    if typedVariadic && index == |patterns| - 1 && !expansion && u.SliceType? then u.base else patterns[index]
  }

  function CallEvents(table: AliasTable, patterns: seq<Type>, actuals: seq<Type>, n: nat,
                      typedVariadic: bool, expansion: bool): seq<Event>
    requires n <= PairCount(patterns, actuals, typedVariadic)
  {
    if n == 0 then []
    else CallEvents(table, patterns, actuals, n - 1, typedVariadic, expansion)
         + Events(PatternFor(table, patterns, n - 1, typedVariadic, expansion), actuals[n - 1])
  }

  /** Reads the parameters off the final map, first failure first. */
  function Decide(parameters: seq<Parameter>, m: Bindings, n: nat, allowIncomplete: bool): InferenceResult
    requires n <= |parameters|
  {
    if n == 0 then Inferred([])
    else
      var before := Decide(parameters, m, n - 1, allowIncomplete);
      if before.Inferred? then DecideNext(before.arguments, parameters[n - 1], m, n - 1, allowIncomplete) else before
  }

  /** One more parameter, at position `i`. */
  function DecideNext(before: seq<Type>, p: Parameter, m: Bindings, i: nat, allowIncomplete: bool): InferenceResult {
    if p.Key() in m && !HasUntyped(m[p.Key()]) then Inferred(before + [m[p.Key()]])
    else if allowIncomplete then Inferred(before + [TypeParameter(p)])
    else if p.Key() in m then OnlyUntyped(i)
    else Missing(i)
  }

  /** What the actual arguments alone determine. */
  function ActualsOutcome(table: AliasTable, patterns: seq<Type>, actuals: seq<Type>,
                          typedVariadic: bool, expansion: bool): Outcome
  {
    var n := PairCount(patterns, actuals, typedVariadic);
    Fold(table, CallEvents(table, patterns, actuals, n, typedVariadic, expansion), map[])
  }

  /** The expected result fills gaps; `NoType` is a nil result type. */
  function WithResult(resultPattern: Type, expectedResult: Type, m: Bindings): Bindings {
    if resultPattern.NoType? || expectedResult.NoType? then m
    else SupplyAll(MissingEvents(resultPattern, expectedResult), m)
  }

  /** The reference meaning of inferGenericArgumentsForCall. */
  function InferArguments(table: AliasTable, parameters: seq<Parameter>, patterns: seq<Type>, actuals: seq<Type>,
                          resultPattern: Type, expectedResult: Type,
                          typedVariadic: bool, expansion: bool, allowIncomplete: bool): InferenceResult
  {
    var o := ActualsOutcome(table, patterns, actuals, typedVariadic, expansion);
    if !o.ok then Conflict
    else Decide(parameters, WithResult(resultPattern, expectedResult, o.inferred), |parameters|, allowIncomplete)
  }

  class GenericInference {
    const table: AliasTable
    var inferred: Bindings

    constructor (table: AliasTable)
      ensures inferred == map[] && this.table == table
    {
      this.table := table;
      inferred := map[];
    }

    /** inferGenericType; `ok` is false where the Go function returns an error. */
    method InferGenericType(pattern: Type, actual: Type) returns (ok: bool)
      modifies this
      ensures Outcome(ok, inferred) == Fold(table, Events(pattern, actual), old(inferred))
      decreases pattern, 0
    {
      ok := true;
      match pattern {
        case TypeParameter(p) =>
          assert [Event(p.Key(), actual)][..0] == [];
          if actual.SequenceType? {
            return;
          }
          if HasUntyped(actual) {
            if p.Key() !in inferred || HasUntyped(inferred[p.Key()]) {
              inferred := inferred[p.Key() := actual];
            }
            return;
          }
          if p.Key() in inferred {
            var previous := inferred[p.Key()];
            if HasUntyped(previous) {
              inferred := inferred[p.Key() := actual];
              return;
            }
            if !Equals(table, {}, previous, actual) {
              return false;
            }
          }
          inferred := inferred[p.Key() := actual];
        case PointerType(base, _) =>
          if actual.PointerType? {
            ok := InferGenericType(base, actual.base);
          }
        case SliceType(base, _) =>
          if actual.SliceType? || actual.SequenceType? {
            ok := InferGenericType(base, actual.base);
          }
        case ArrayType(base, length) =>
          if (actual.ArrayType? || actual.SequenceType?) && length == actual.length {
            ok := InferGenericType(base, actual.base);
          }
        case DefinedType(_, _, _, _, arguments) =>
          if SameGeneric(pattern, actual) {
            ok := InferAll(arguments, actual.typeArguments);
          }
        case FunctionType(parameters, returnType, _, _) =>
          if actual.FunctionType? && |parameters| == |actual.parameters| {
            FoldAppend(table, EventsAll(parameters, actual.parameters),
                       Events(returnType, actual.returnType), inferred);
            ok := InferAll(parameters, actual.parameters);
            if ok {
              ok := InferGenericType(returnType, actual.returnType);
            }
          }
        case _ =>
      }
    }

    /** The loops of inferGenericType over type arguments and over parameters. */
    method InferAll(patterns: seq<Type>, actuals: seq<Type>) returns (ok: bool)
      requires |patterns| == |actuals|
      modifies this
      ensures Outcome(ok, inferred) == Fold(table, EventsAll(patterns, actuals), old(inferred))
      decreases patterns
    {
      ok := true;
      ghost var done: seq<Event> := [];
      for i := 0 to |patterns|
        invariant ok
        invariant done + EventsAll(patterns[i..], actuals[i..]) == EventsAll(patterns, actuals)
        invariant Outcome(true, inferred) == Fold(table, done, old(inferred))
      {
        ghost var here := Events(patterns[i], actuals[i]);
        ghost var rest := EventsAll(patterns[i + 1..], actuals[i + 1..]);
        assert patterns[i..][1..] == patterns[i + 1..] && actuals[i..][1..] == actuals[i + 1..];
        assert done + (here + rest) == (done + here) + rest;
        FoldAppend(table, done, here, old(inferred));
        FoldAppend(table, done + here, rest, old(inferred));
        ok := InferGenericType(patterns[i], actuals[i]);
        if !ok {
          return;
        }
        done := done + here;
      }
      assert done == done + EventsAll(patterns[|patterns|..], actuals[|actuals|..]);
    }

    /** inferMissingGenericType */
    method InferMissingGenericType(pattern: Type, actual: Type)
      modifies this
      ensures inferred == SupplyAll(MissingEvents(pattern, actual), old(inferred))
      decreases pattern, 0
    {
      match pattern {
        case TypeParameter(p) =>
          assert [Event(p.Key(), actual)][..0] == [];
          if p.Key() !in inferred || HasUntyped(inferred[p.Key()]) {
            if !HasUntyped(actual) {
              inferred := inferred[p.Key() := actual];
            }
          }
        case PointerType(base, _) =>
          if actual.PointerType? {
            InferMissingGenericType(base, actual.base);
          }
        case SliceType(base, _) =>
          if actual.SliceType? {
            InferMissingGenericType(base, actual.base);
          }
        case ArrayType(base, length) =>
          if actual.ArrayType? && length == actual.length {
            InferMissingGenericType(base, actual.base);
          }
        case DefinedType(_, _, _, _, arguments) =>
          if SameGeneric(pattern, actual) {
            InferMissingAll(arguments, actual.typeArguments);
          }
        case FunctionType(parameters, returnType, _, _) =>
          if actual.FunctionType? && |parameters| == |actual.parameters| {
            SupplyAppend(MissingEventsAll(parameters, actual.parameters),
                         MissingEvents(returnType, actual.returnType), inferred);
            InferMissingAll(parameters, actual.parameters);
            InferMissingGenericType(returnType, actual.returnType);
          }
        case MultipleReturnType(items) =>
          if actual.MultipleReturnType? && |items| == |actual.items| {
            InferMissingAll(items, actual.items);
          }
        case _ =>
      }
    }

    method InferMissingAll(patterns: seq<Type>, actuals: seq<Type>)
      requires |patterns| == |actuals|
      modifies this
      ensures inferred == SupplyAll(MissingEventsAll(patterns, actuals), old(inferred))
      decreases patterns
    {
      ghost var done: seq<Event> := [];
      for i := 0 to |patterns|
        invariant done + MissingEventsAll(patterns[i..], actuals[i..]) == MissingEventsAll(patterns, actuals)
        invariant inferred == SupplyAll(done, old(inferred))
      {
        ghost var here := MissingEvents(patterns[i], actuals[i]);
        ghost var rest := MissingEventsAll(patterns[i + 1..], actuals[i + 1..]);
        assert patterns[i..][1..] == patterns[i + 1..] && actuals[i..][1..] == actuals[i + 1..];
        assert done + (here + rest) == (done + here) + rest;
        SupplyAppend(done, here, old(inferred));
        InferMissingGenericType(patterns[i], actuals[i]);
        done := done + here;
      }
      assert done == done + MissingEventsAll(patterns[|patterns|..], actuals[|actuals|..]);
    }
  }

  /** inferGenericArgumentsForCall */
  method InferGenericArgumentsForCall(
    table: AliasTable, parameters: seq<Parameter>, patterns: seq<Type>, actuals: seq<Type>,
    resultPattern: Type, expectedResult: Type, typedVariadic: bool, expansion: bool, allowIncomplete: bool)
    returns (result: InferenceResult)
    ensures result == InferArguments(table, parameters, patterns, actuals, resultPattern, expectedResult,
                                     typedVariadic, expansion, allowIncomplete)
  {
    var ok, m := InferBindings(table, patterns, actuals, resultPattern, expectedResult, typedVariadic, expansion);
    if !ok {
      return Conflict;
    }
    result := CollectArguments(parameters, m, allowIncomplete);
  }

  /** First the arguments, then the expected result. */
  method InferBindings(
    table: AliasTable, patterns: seq<Type>, actuals: seq<Type>, resultPattern: Type, expectedResult: Type,
    typedVariadic: bool, expansion: bool)
    returns (ok: bool, m: Bindings)
    ensures
      var o := ActualsOutcome(table, patterns, actuals, typedVariadic, expansion);
      ok == o.ok && (ok ==> m == WithResult(resultPattern, expectedResult, o.inferred))
  {
    var state := new GenericInference(table);
    ok := MatchActuals(state, patterns, actuals, typedVariadic, expansion);
    if ok && !resultPattern.NoType? && !expectedResult.NoType? {
      state.InferMissingGenericType(resultPattern, expectedResult);
    }
    m := state.inferred;
  }

  /** The loop over the actual arguments. */
  method MatchActuals(state: GenericInference, patterns: seq<Type>, actuals: seq<Type>,
                      typedVariadic: bool, expansion: bool)
    returns (ok: bool)
    requires state.inferred == map[]
    modifies state
    ensures
      var o := ActualsOutcome(state.table, patterns, actuals, typedVariadic, expansion);
      ok == o.ok && (ok ==> state.inferred == o.inferred)
  {
    ghost var table := state.table;
    ghost var total := PairCount(patterns, actuals, typedVariadic);
    var i := 0;
    while i < |actuals| && |patterns| != 0 && (i < |patterns| || typedVariadic)
      invariant 0 <= i <= total
      invariant Outcome(true, state.inferred)
                == Fold(table, CallEvents(table, patterns, actuals, i, typedVariadic, expansion), map[])
    {
      var pattern := PatternFor(state.table, patterns, i, typedVariadic, expansion);
      FoldAppend(table, CallEvents(table, patterns, actuals, i, typedVariadic, expansion),
                 Events(pattern, actuals[i]), map[]);
      ok := state.InferGenericType(pattern, actuals[i]);
      i := i + 1;
      if !ok {
        FoldStaysFailed(table, patterns, actuals, i, total, typedVariadic, expansion);
        return;
      }
    }
    ok := true;
  }

  /** The loop over the generic parameters. */
  method CollectArguments(parameters: seq<Parameter>, inferred: Bindings, allowIncomplete: bool)
    returns (result: InferenceResult)
    ensures result == Decide(parameters, inferred, |parameters|, allowIncomplete)
  {
    var arguments: seq<Type> := [];
    for k := 0 to |parameters|
      invariant Decide(parameters, inferred, k, allowIncomplete) == Inferred(arguments)
    {
      var key := parameters[k].Key();
      if key !in inferred || HasUntyped(inferred[key]) {
        if allowIncomplete {
          arguments := arguments + [TypeParameter(parameters[k])];
        } else {
          result := if key in inferred then OnlyUntyped(k) else Missing(k);
          DecideStaysFailed(parameters, inferred, k + 1, |parameters|, allowIncomplete);
          return;
        }
      } else {
        arguments := arguments + [inferred[key]];
      }
    }
    result := Inferred(arguments);
  }

  lemma {:induction false} FoldStaysFailed(table: AliasTable, patterns: seq<Type>, actuals: seq<Type>, i: nat, n: nat,
                                           typedVariadic: bool, expansion: bool)
    requires i <= n <= PairCount(patterns, actuals, typedVariadic)
    requires !Fold(table, CallEvents(table, patterns, actuals, i, typedVariadic, expansion), map[]).ok
    ensures !Fold(table, CallEvents(table, patterns, actuals, n, typedVariadic, expansion), map[]).ok
    decreases n
  {
    if i < n {
      FoldStaysFailed(table, patterns, actuals, i, n - 1, typedVariadic, expansion);
      var before := CallEvents(table, patterns, actuals, n - 1, typedVariadic, expansion);
      var last := Events(PatternFor(table, patterns, n - 1, typedVariadic, expansion), actuals[n - 1]);
      assert CallEvents(table, patterns, actuals, n, typedVariadic, expansion) == before + last;
      FoldFailed(table, before, last);
    }
  }

  lemma FoldFailed(table: AliasTable, a: seq<Event>, b: seq<Event>)
    requires !Fold(table, a, map[]).ok
    ensures !Fold(table, a + b, map[]).ok
  {
    FoldAppend(table, a, b, map[]);
  }

  lemma {:induction false} DecideStaysFailed(parameters: seq<Parameter>, m: Bindings, i: nat, n: nat, partial: bool)
    requires i <= n <= |parameters|
    requires !Decide(parameters, m, i, partial).Inferred?
    ensures Decide(parameters, m, n, partial) == Decide(parameters, m, i, partial)
    decreases n
  {
    if i < n {
      DecideStaysFailed(parameters, m, i, n - 1, partial);
    }
  }
}
