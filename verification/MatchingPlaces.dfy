/**
  Where matching meets a parameter: at the places that the pattern and the actual
  share.  A path says how to get there, step by step on both sides.
 */
module MatchingPlaces {
  import opened Types
  import opened Inference
  import opened InferenceLaws

  /** Into the base, an argument or a parameter, or the result. */
  datatype Step = Base | Part(index: nat) | Return

  /**
    The parts that a step enters on both sides, when the two sides agree.  With
    `literals`, a literal stands for a slice, and for an array of its length; with
    `results`, lists of results are entered.
   */
  function Enter(pattern: Type, actual: Type, literals: bool, results: bool, step: Step): Option<(Type, Type)> {
    match step
    case Base =>
      if pattern.PointerType? && actual.PointerType? then Some((pattern.base, actual.base))
      else if pattern.SliceType? && (actual.SliceType? || (literals && actual.SequenceType?)) then
        Some((pattern.base, actual.base))
      else if pattern.ArrayType? && (actual.ArrayType? || (literals && actual.SequenceType?))
        && actual.length == pattern.length then Some((pattern.base, actual.base))
      else None
    case Part(i) =>
      if pattern.DefinedType? && actual.DefinedType? && pattern.moduleName == actual.moduleName
        && pattern.genericName != "" && pattern.genericName == actual.genericName
        && i < |pattern.typeArguments| == |actual.typeArguments| then
        Some((pattern.typeArguments[i], actual.typeArguments[i]))
      else if pattern.FunctionType? && actual.FunctionType? && i < |pattern.parameters| == |actual.parameters| then
        Some((pattern.parameters[i], actual.parameters[i]))
      else if results && pattern.MultipleReturnType? && actual.MultipleReturnType?
        && i < |pattern.items| == |actual.items| then Some((pattern.items[i], actual.items[i]))
      else None
    case Return =>
      if pattern.FunctionType? && actual.FunctionType? && |pattern.parameters| == |actual.parameters| then
        Some((pattern.returnType, actual.returnType))
      else None
  }

  /** The path leads to a parameter with the key, and to `t` on the other side. */
  ghost predicate Meets(
    pattern: Type, actual: Type, literals: bool, results: bool, path: seq<Step>, k: string, t: Type)
    decreases |path|
  {
    if path == [] then
      pattern.TypeParameter? && pattern.parameter.Key() == k && actual == t && (literals ==> !t.SequenceType?)
    else
      var inner := Enter(pattern, actual, literals, results, path[0]);
      inner.Some? && Meets(inner.value.0, inner.value.1, literals, results, path[1..], k, t)
  }

  /** Some path leads there. */
  ghost predicate IsMet(pattern: Type, actual: Type, literals: bool, results: bool, k: string, t: Type) {
    exists path :: Meets(pattern, actual, literals, results, path, k, t)
  }

  lemma Prepended(
    pattern: Type, actual: Type, literals: bool, results: bool, step: Step, path: seq<Step>, e: Event)
    requires Enter(pattern, actual, literals, results, step).Some?
    requires
      var inner := Enter(pattern, actual, literals, results, step).value;
      Meets(inner.0, inner.1, literals, results, path, e.key, e.actual)
    ensures Meets(pattern, actual, literals, results, [step] + path, e.key, e.actual)
  {
    assert ([step] + path)[1..] == path;
  }

  // ----- inferGenericType -----

  lemma {:induction false} MatchInList(patterns: seq<Type>, actuals: seq<Type>, e: Event) returns (i: nat)
    requires |patterns| == |actuals| && e in EventSet(EventsAll(patterns, actuals))
    ensures i < |patterns| && e in EventSet(Events(patterns[i], actuals[i]))
    decreases patterns
  {
    EventSetAppend(Events(patterns[0], actuals[0]), EventsAll(patterns[1..], actuals[1..]));
    i := 0;
    if e !in EventSet(Events(patterns[0], actuals[0])) {
      i := MatchInList(patterns[1..], actuals[1..], e);
      i := i + 1;
    }
  }

  lemma {:induction false} MatchAmong(patterns: seq<Type>, actuals: seq<Type>, i: nat, e: Event)
    requires i < |patterns| == |actuals| && e in EventSet(Events(patterns[i], actuals[i]))
    ensures e in EventSet(EventsAll(patterns, actuals))
    decreases patterns
  {
    EventSetAppend(Events(patterns[0], actuals[0]), EventsAll(patterns[1..], actuals[1..]));
    if i > 0 {
      MatchAmong(patterns[1..], actuals[1..], i - 1, e);
    }
  }

  /** Every event was met at some place. */
  lemma {:induction false} Match(pattern: Type, actual: Type, e: Event) returns (path: seq<Step>)
    requires e in EventSet(Events(pattern, actual))
    ensures Meets(pattern, actual, true, false, path, e.key, e.actual)
    decreases pattern, 1
  {
    match pattern
    case TypeParameter(_) => path := [];
    case PointerType(_, _) | SliceType(_, _) | ArrayType(_, _) =>
      path := Match(pattern.base, actual.base, e);
      Prepended(pattern, actual, true, false, Base, path, e);
      path := [Base] + path;
    case DefinedType(_, _, _, _, arguments) =>
      var i := MatchInList(arguments, actual.typeArguments, e);
      path := Match(arguments[i], actual.typeArguments[i], e);
      Prepended(pattern, actual, true, false, Part(i), path, e);
      path := [Part(i)] + path;
    case FunctionType(_, _, _, _) => path := MatchInFunction(pattern, actual, e);
  }

  lemma MatchInFunction(pattern: Type, actual: Type, e: Event) returns (path: seq<Step>)
    requires pattern.FunctionType? && e in EventSet(Events(pattern, actual))
    ensures Meets(pattern, actual, true, false, path, e.key, e.actual)
    decreases pattern, 0
  {
    var before := EventsAll(pattern.parameters, actual.parameters);
    var last := Events(pattern.returnType, actual.returnType);
    EventSetAppend(before, last);
    if e in EventSet(before) {
      var i := MatchInList(pattern.parameters, actual.parameters, e);
      path := Match(pattern.parameters[i], actual.parameters[i], e);
      Prepended(pattern, actual, true, false, Part(i), path, e);
      path := [Part(i)] + path;
    } else {
      path := Match(pattern.returnType, actual.returnType, e);
      Prepended(pattern, actual, true, false, Return, path, e);
      path := [Return] + path;
    }
  }

  /** What is met in the parts that a step enters is met in the whole. */
  lemma MatchEntered(pattern: Type, actual: Type, step: Step, e: Event)
    requires Enter(pattern, actual, true, false, step).Some?
    requires
      var inner := Enter(pattern, actual, true, false, step).value;
      e in EventSet(Events(inner.0, inner.1))
    ensures e in EventSet(Events(pattern, actual))
  {
    if pattern.DefinedType? {
      MatchAmong(pattern.typeArguments, actual.typeArguments, step.index, e);
    } else if pattern.FunctionType? {
      MatchEnteredFunction(pattern, actual, step, e);
    }
  }

  lemma MatchEnteredFunction(pattern: Type, actual: Type, step: Step, e: Event)
    requires pattern.FunctionType? && Enter(pattern, actual, true, false, step).Some?
    requires
      var inner := Enter(pattern, actual, true, false, step).value;
      e in EventSet(Events(inner.0, inner.1))
    ensures e in EventSet(Events(pattern, actual))
  {
    EventSetAppend(EventsAll(pattern.parameters, actual.parameters), Events(pattern.returnType, actual.returnType));
    if step.Part? {
      MatchAmong(pattern.parameters, actual.parameters, step.index, e);
    }
  }

  lemma {:induction false} MatchAt(pattern: Type, actual: Type, path: seq<Step>, e: Event)
    requires Meets(pattern, actual, true, false, path, e.key, e.actual)
    ensures e in EventSet(Events(pattern, actual))
    decreases |path|
  {
    if path == [] {
      var es := Events(pattern, actual);
      assert es == [e] && es[0] in EventSet(es);
    } else {
      var inner := Enter(pattern, actual, true, false, path[0]).value;
      MatchAt(inner.0, inner.1, path[1..], e);
      MatchEntered(pattern, actual, path[0], e);
    }
  }

  lemma MatchIsMet(pattern: Type, actual: Type, e: Event)
    requires e in EventSet(Events(pattern, actual))
    ensures IsMet(pattern, actual, true, false, e.key, e.actual)
  {
    var path := Match(pattern, actual, e);
  }

  lemma MetIsMatch(pattern: Type, actual: Type, e: Event)
    requires IsMet(pattern, actual, true, false, e.key, e.actual)
    ensures e in EventSet(Events(pattern, actual))
  {
    var path :| Meets(pattern, actual, true, false, path, e.key, e.actual);
    MatchAt(pattern, actual, path, e);
  }

  /** The events of matching are the parameters met at shared places, each with its actual. */
  lemma EventsExactly(pattern: Type, actual: Type, k: string, t: Type)
    ensures Event(k, t) in EventSet(Events(pattern, actual)) <==>
      IsMet(pattern, actual, true, false, k, t)
  {
    var e := Event(k, t);
    if e in EventSet(Events(pattern, actual)) {
      MatchIsMet(pattern, actual, e);
    }
    if IsMet(pattern, actual, true, false, k, t) {
      MetIsMatch(pattern, actual, e);
    }
  }

  // ----- inferMissingGenericType -----

  lemma {:induction false} FillInList(patterns: seq<Type>, actuals: seq<Type>, e: Event) returns (i: nat)
    requires |patterns| == |actuals| && e in EventSet(MissingEventsAll(patterns, actuals))
    ensures i < |patterns| && e in EventSet(MissingEvents(patterns[i], actuals[i]))
    decreases patterns
  {
    EventSetAppend(MissingEvents(patterns[0], actuals[0]), MissingEventsAll(patterns[1..], actuals[1..]));
    i := 0;
    if e !in EventSet(MissingEvents(patterns[0], actuals[0])) {
      i := FillInList(patterns[1..], actuals[1..], e);
      i := i + 1;
    }
  }

  lemma {:induction false} FillAmong(patterns: seq<Type>, actuals: seq<Type>, i: nat, e: Event)
    requires i < |patterns| == |actuals| && e in EventSet(MissingEvents(patterns[i], actuals[i]))
    ensures e in EventSet(MissingEventsAll(patterns, actuals))
    decreases patterns
  {
    EventSetAppend(MissingEvents(patterns[0], actuals[0]), MissingEventsAll(patterns[1..], actuals[1..]));
    if i > 0 {
      FillAmong(patterns[1..], actuals[1..], i - 1, e);
    }
  }

  /** Every event was met at some place. */
  lemma {:induction false} Fill(pattern: Type, actual: Type, e: Event) returns (path: seq<Step>)
    requires e in EventSet(MissingEvents(pattern, actual))
    ensures Meets(pattern, actual, false, true, path, e.key, e.actual)
    decreases pattern, 1
  {
    match pattern
    case TypeParameter(_) => path := [];
    case PointerType(_, _) | SliceType(_, _) | ArrayType(_, _) =>
      path := Fill(pattern.base, actual.base, e);
      Prepended(pattern, actual, false, true, Base, path, e);
      path := [Base] + path;
    case DefinedType(_, _, _, _, arguments) =>
      var i := FillInList(arguments, actual.typeArguments, e);
      path := Fill(arguments[i], actual.typeArguments[i], e);
      Prepended(pattern, actual, false, true, Part(i), path, e);
      path := [Part(i)] + path;
    case MultipleReturnType(items) =>
      var i := FillInList(items, actual.items, e);
      path := Fill(items[i], actual.items[i], e);
      Prepended(pattern, actual, false, true, Part(i), path, e);
      path := [Part(i)] + path;
    case FunctionType(_, _, _, _) => path := FillInFunction(pattern, actual, e);
  }

  lemma FillInFunction(pattern: Type, actual: Type, e: Event) returns (path: seq<Step>)
    requires pattern.FunctionType? && e in EventSet(MissingEvents(pattern, actual))
    ensures Meets(pattern, actual, false, true, path, e.key, e.actual)
    decreases pattern, 0
  {
    var before := MissingEventsAll(pattern.parameters, actual.parameters);
    var last := MissingEvents(pattern.returnType, actual.returnType);
    EventSetAppend(before, last);
    if e in EventSet(before) {
      var i := FillInList(pattern.parameters, actual.parameters, e);
      path := Fill(pattern.parameters[i], actual.parameters[i], e);
      Prepended(pattern, actual, false, true, Part(i), path, e);
      path := [Part(i)] + path;
    } else {
      path := Fill(pattern.returnType, actual.returnType, e);
      Prepended(pattern, actual, false, true, Return, path, e);
      path := [Return] + path;
    }
  }

  /** What is met in the parts that a step enters is met in the whole. */
  lemma FillEntered(pattern: Type, actual: Type, step: Step, e: Event)
    requires Enter(pattern, actual, false, true, step).Some?
    requires
      var inner := Enter(pattern, actual, false, true, step).value;
      e in EventSet(MissingEvents(inner.0, inner.1))
    ensures e in EventSet(MissingEvents(pattern, actual))
  {
    if pattern.DefinedType? {
      FillAmong(pattern.typeArguments, actual.typeArguments, step.index, e);
    } else if pattern.MultipleReturnType? {
      FillAmong(pattern.items, actual.items, step.index, e);
    } else if pattern.FunctionType? {
      FillEnteredFunction(pattern, actual, step, e);
    }
  }

  lemma FillEnteredFunction(pattern: Type, actual: Type, step: Step, e: Event)
    requires pattern.FunctionType? && Enter(pattern, actual, false, true, step).Some?
    requires
      var inner := Enter(pattern, actual, false, true, step).value;
      e in EventSet(MissingEvents(inner.0, inner.1))
    ensures e in EventSet(MissingEvents(pattern, actual))
  {
    EventSetAppend(MissingEventsAll(pattern.parameters, actual.parameters),
                   MissingEvents(pattern.returnType, actual.returnType));
    if step.Part? {
      FillAmong(pattern.parameters, actual.parameters, step.index, e);
    }
  }

  lemma {:induction false} FillAt(pattern: Type, actual: Type, path: seq<Step>, e: Event)
    requires Meets(pattern, actual, false, true, path, e.key, e.actual)
    ensures e in EventSet(MissingEvents(pattern, actual))
    decreases |path|
  {
    if path == [] {
      var es := MissingEvents(pattern, actual);
      assert es == [e] && es[0] in EventSet(es);
    } else {
      var inner := Enter(pattern, actual, false, true, path[0]).value;
      FillAt(inner.0, inner.1, path[1..], e);
      FillEntered(pattern, actual, path[0], e);
    }
  }

  lemma FillIsMet(pattern: Type, actual: Type, e: Event)
    requires e in EventSet(MissingEvents(pattern, actual))
    ensures IsMet(pattern, actual, false, true, e.key, e.actual)
  {
    var path := Fill(pattern, actual, e);
  }

  lemma MetIsFill(pattern: Type, actual: Type, e: Event)
    requires IsMet(pattern, actual, false, true, e.key, e.actual)
    ensures e in EventSet(MissingEvents(pattern, actual))
  {
    var path :| Meets(pattern, actual, false, true, path, e.key, e.actual);
    FillAt(pattern, actual, path, e);
  }

  /** The same for the expected result, where a literal is no slice and lists of results are entered. */
  lemma MissingEventsExactly(pattern: Type, actual: Type, k: string, t: Type)
    ensures Event(k, t) in EventSet(MissingEvents(pattern, actual)) <==>
      IsMet(pattern, actual, false, true, k, t)
  {
    var e := Event(k, t);
    if e in EventSet(MissingEvents(pattern, actual)) {
      FillIsMet(pattern, actual, e);
    }
    if IsMet(pattern, actual, false, true, k, t) {
      MetIsFill(pattern, actual, e);
    }
  }
}
