/** What the substitutions of types/type.go promise each other. */
module SubstitutionLaws {
  import opened Types
  import opened Substitution

  // ----- Substitution composes -----

  /** First `s1`, then `s2` on its images; `s2` alone on every other key. */
  function Compose(s1: Bindings, s2: Bindings): Bindings {
    map k | k in s1.Keys + s2.Keys :: if k in s1 then Substitute(s1[k], s2) else s2[k]
  }

  lemma {:induction false} SubstituteComposes(t: Type, s1: Bindings, s2: Bindings)
    ensures Substitute(Substitute(t, s1), s2) == Substitute(t, Compose(s1, s2))
    decreases t, 2
  {
    match t
    case PointerType(base, _) => SubstituteComposes(base, s1, s2);
    case SliceType(base, _) => SubstituteComposes(base, s1, s2);
    case ArrayType(base, _) => SubstituteComposes(base, s1, s2);
    case DefinedType(_, _, _, _, _) => ComposesAggregate(t, s1, s2);
    case StructType(_, _, _) => ComposesAggregate(t, s1, s2);
    case UnionType(_, _, _) => ComposesAggregate(t, s1, s2);
    case FunctionType(_, _, _, _) => ComposesFunction(t, s1, s2);
    case _ => ComposesOther(t, s1, s2);
  }

  lemma {:induction false} ComposesOther(t: Type, s1: Bindings, s2: Bindings)
    requires !t.PointerType? && !t.SliceType? && !t.ArrayType?
    requires !t.DefinedType? && !t.StructType? && !t.UnionType? && !t.FunctionType?
    ensures Substitute(Substitute(t, s1), s2) == Substitute(t, Compose(s1, s2))
    decreases t, 1
  {
    match t
    case MultipleReturnType(items) => ComposesAll(items, s1, s2);
    case TraitPointerType(_, _) => ComposesTraitType(t, s1, s2);
    case TraitType(_) => ComposesTraitType(t, s1, s2);
    case _ =>
  }

  lemma {:induction false} ComposesTraitType(t: Type, s1: Bindings, s2: Bindings)
    requires t.TraitType? || t.TraitPointerType?
    ensures Substitute(Substitute(t, s1), s2) == Substitute(t, Compose(s1, s2))
    decreases t, 0
  {
    ComposesTrait(t.definition, s1, s2);
  }

  lemma {:induction false} ComposesAggregate(t: Type, s1: Bindings, s2: Bindings)
    requires t.DefinedType? || t.StructType? || t.UnionType?
    ensures Substitute(Substitute(t, s1), s2) == Substitute(t, Compose(s1, s2))
    decreases t, 1
  {
    match t
    case DefinedType(_, _, _, _, _) => ComposesNominal(t, s1, s2);
    case StructType(fields, _, info) =>
      ComposesFields(fields, s1, s2);
      ComposesInfo(info, s1, s2);
    case UnionType(_, _, fields) => ComposesFields(fields, s1, s2);
  }

  lemma {:induction false} ComposesNominal(t: Type, s1: Bindings, s2: Bindings)
    requires t.DefinedType?
    ensures Substitute(Substitute(t, s1), s2) == Substitute(t, Compose(s1, s2))
    decreases t, 0
  {
    SubstituteComposes(t.underlying, s1, s2);
    ComposesAll(t.typeArguments, s1, s2);
  }

  lemma {:induction false} ComposesFunction(t: Type, s1: Bindings, s2: Bindings)
    requires t.FunctionType?
    ensures Substitute(Substitute(t, s1), s2) == Substitute(t, Compose(s1, s2))
    decreases t, 0
  {
    ComposesAll(t.parameters, s1, s2);
    SubstituteComposes(t.returnType, s1, s2);
    SubstituteComposes(t.variadicElement, s1, s2);
  }

  lemma {:induction false} ComposesAll(ts: seq<Type>, s1: Bindings, s2: Bindings)
    ensures SubstituteAll(SubstituteAll(ts, s1), s2) == SubstituteAll(ts, Compose(s1, s2))
    decreases ts
  {
    if ts != [] {
      SubstituteComposes(ts[0], s1, s2);
      ComposesAll(ts[1..], s1, s2);
      assert SubstituteAll(ts, s1)[1..] == SubstituteAll(ts[1..], s1);
    }
  }

  lemma {:induction false} ComposesFields(fs: seq<Field>, s1: Bindings, s2: Bindings)
    ensures SubstituteFields(SubstituteFields(fs, s1), s2) == SubstituteFields(fs, Compose(s1, s2))
    decreases fs
  {
    if fs != [] {
      SubstituteComposes(fs[0].typ, s1, s2);
      ComposesFields(fs[1..], s1, s2);
      assert SubstituteFields(fs, s1)[1..] == SubstituteFields(fs[1..], s1);
    }
  }

  lemma {:induction false} ComposesInfo(info: Option<TaggedUnionInfo>, s1: Bindings, s2: Bindings)
    ensures SubstituteInfo(SubstituteInfo(info, s1), s2) == SubstituteInfo(info, Compose(s1, s2))
    decreases info
  {
    match info
    case None =>
    case Some(i) =>
      SubstituteComposes(i.tag, s1, s2);
      ComposesVariants(i.variants, s1, s2);
  }

  lemma {:induction false} ComposesVariants(vs: seq<Variant>, s1: Bindings, s2: Bindings)
    ensures SubstituteVariants(SubstituteVariants(vs, s1), s2) == SubstituteVariants(vs, Compose(s1, s2))
    decreases vs
  {
    if vs != [] {
      ComposesFields(vs[0].variantFields, s1, s2);
      ComposesVariants(vs[1..], s1, s2);
      assert SubstituteVariants(vs, s1)[1..] == SubstituteVariants(vs[1..], s1);
    }
  }

  lemma {:induction false} ComposesTrait(d: TraitDefinition, s1: Bindings, s2: Bindings)
    ensures SubstituteTrait(SubstituteTrait(d, s1), s2) == SubstituteTrait(d, Compose(s1, s2))
    decreases d
  {
    ComposesMethods(d.methods, s1, s2);
  }

  lemma {:induction false} ComposesMethods(ms: seq<TraitMethod>, s1: Bindings, s2: Bindings)
    ensures SubstituteMethods(SubstituteMethods(ms, s1), s2) == SubstituteMethods(ms, Compose(s1, s2))
    decreases ms
  {
    if ms != [] {
      ComposesConstraints(ms[0].genericParameters, s1, s2);
      ComposesAll(ms[0].methodParameters, s1, s2);
      SubstituteComposes(ms[0].methodReturn, s1, s2);
      ComposesMethods(ms[1..], s1, s2);
      assert SubstituteMethods(ms, s1)[1..] == SubstituteMethods(ms[1..], s1);
    }
  }

  lemma {:induction false} ComposesConstraints(ps: seq<Parameter>, s1: Bindings, s2: Bindings)
    ensures SubstituteConstraints(SubstituteConstraints(ps, s1), s2) == SubstituteConstraints(ps, Compose(s1, s2))
    decreases ps
  {
    if ps != [] {
      SubstituteComposes(ps[0].constraint, s1, s2);
      ComposesConstraints(ps[1..], s1, s2);
      assert SubstituteConstraints(ps, s1)[1..] == SubstituteConstraints(ps[1..], s1);
    }
  }

  // ----- Which parameters survive -----

  /** The keys of the parameters that HasTypeParameter can see. */
  ghost function VisibleKeys(t: Type): set<string>
    decreases t
  {
    match t
    case TypeParameter(p) => {p.Key()}
    case DefinedType(_, _, _, _, arguments) => VisibleKeysAll(arguments)
    case PointerType(base, _) => VisibleKeys(base)
    case SliceType(base, _) => VisibleKeys(base)
    case ArrayType(base, _) => VisibleKeys(base)
    case StructType(fields, _, _) => VisibleKeysFields(fields)
    case UnionType(_, _, fields) => VisibleKeysFields(fields)
    case FunctionType(parameters, returnType, _, _) => VisibleKeysAll(parameters) + VisibleKeys(returnType)
    case MultipleReturnType(items) => VisibleKeysAll(items)
    case _ => {}
  }

  ghost function VisibleKeysAll(ts: seq<Type>): set<string>
    decreases ts
  {
    if ts == [] then {} else VisibleKeys(ts[0]) + VisibleKeysAll(ts[1..])
  }

  ghost function VisibleKeysFields(fs: seq<Field>): set<string>
    decreases fs
  {
    if fs == [] then {} else VisibleKeys(fs[0].typ) + VisibleKeysFields(fs[1..])
  }

  /** Key `k` leaves a parameter behind: it is unbound, or its image mentions one. */
  ghost predicate StaysOpen(k: string, s: Bindings) {
    k !in s || HasTypeParameter(s[k])
  }

  ghost predicate AnyStaysOpen(keys: set<string>, s: Bindings) {
    exists k :: k in keys && StaysOpen(k, s)
  }

  /** A type is closed by `s` exactly when `s` closes each of its visible parameters. */
  lemma {:induction false} ClosedAfterSubstitution(t: Type, s: Bindings)
    ensures HasTypeParameter(Substitute(t, s)) <==> AnyStaysOpen(VisibleKeys(t), s)
    decreases t, 2
  {
    match t
    case TypeParameter(p) =>
      assert p.Key() in VisibleKeys(t);
    case PointerType(base, _) => ClosedAfterSubstitution(base, s);
    case SliceType(base, _) => ClosedAfterSubstitution(base, s);
    case ArrayType(base, _) => ClosedAfterSubstitution(base, s);
    case FunctionType(_, _, _, _) => ClosedFunction(t, s);
    case _ => ClosedAggregate(t, s);
  }

  lemma {:induction false} ClosedAggregate(t: Type, s: Bindings)
    requires !t.TypeParameter? && !t.PointerType? && !t.SliceType? && !t.ArrayType? && !t.FunctionType?
    ensures HasTypeParameter(Substitute(t, s)) <==> AnyStaysOpen(VisibleKeys(t), s)
    decreases t, 1
  {
    match t
    case DefinedType(_, _, _, _, arguments) => ClosedAll(arguments, s);
    case StructType(_, _, _) => ClosedRecord(t, s);
    case UnionType(_, _, _) => ClosedRecord(t, s);
    case MultipleReturnType(items) => ClosedAll(items, s);
    case _ =>
  }

  lemma {:induction false} ClosedRecord(t: Type, s: Bindings)
    requires t.StructType? || t.UnionType?
    ensures HasTypeParameter(Substitute(t, s)) <==> AnyStaysOpen(VisibleKeys(t), s)
    decreases t, 0
  {
    ClosedFields(t.fields, s);
  }

  lemma {:induction false} ClosedFunction(t: Type, s: Bindings)
    requires t.FunctionType?
    ensures HasTypeParameter(Substitute(t, s)) <==> AnyStaysOpen(VisibleKeys(t), s)
    decreases t, 0
  {
    ClosedAll(t.parameters, s);
    ClosedAfterSubstitution(t.returnType, s);
    OpenUnion(VisibleKeysAll(t.parameters), VisibleKeys(t.returnType), s);
  }

  lemma OpenUnion(a: set<string>, b: set<string>, s: Bindings)
    ensures AnyStaysOpen(a + b, s) <==> AnyStaysOpen(a, s) || AnyStaysOpen(b, s)
  {
    if AnyStaysOpen(a + b, s) {
      var k :| k in a + b && StaysOpen(k, s);
      assert k in a || k in b;
    }
    if AnyStaysOpen(a, s) {
      var k :| k in a && StaysOpen(k, s);
      assert k in a + b;
    }
    if AnyStaysOpen(b, s) {
      var k :| k in b && StaysOpen(k, s);
      assert k in a + b;
    }
  }

  ghost predicate AnyHasParameter(ts: seq<Type>) {
    exists i | 0 <= i < |ts| :: HasTypeParameter(ts[i])
  }

  lemma {:induction false} ClosedAll(ts: seq<Type>, s: Bindings)
    ensures AnyHasParameter(SubstituteAll(ts, s)) <==> AnyStaysOpen(VisibleKeysAll(ts), s)
    decreases ts
  {
    if ts != [] {
      var rest := SubstituteAll(ts[1..], s);
      ClosedAfterSubstitution(ts[0], s);
      ClosedAll(ts[1..], s);
      OpenUnion(VisibleKeys(ts[0]), VisibleKeysAll(ts[1..]), s);
      var whole := SubstituteAll(ts, s);
      assert whole == [Substitute(ts[0], s)] + rest;
      if AnyHasParameter(rest) {
        var i :| 0 <= i < |rest| && HasTypeParameter(rest[i]);
        assert HasTypeParameter(whole[i + 1]);
      }
      if HasTypeParameter(whole[0]) {
        assert AnyHasParameter(whole);
      }
      if AnyHasParameter(whole) && !HasTypeParameter(whole[0]) {
        var i :| 0 <= i < |whole| && HasTypeParameter(whole[i]);
        assert HasTypeParameter(rest[i - 1]);
      }
    }
  }

  ghost predicate AnyFieldHasParameter(fs: seq<Field>) {
    exists i | 0 <= i < |fs| :: HasTypeParameter(fs[i].typ)
  }

  lemma {:induction false} ClosedFields(fs: seq<Field>, s: Bindings)
    ensures AnyFieldHasParameter(SubstituteFields(fs, s)) <==> AnyStaysOpen(VisibleKeysFields(fs), s)
    decreases fs
  {
    if fs != [] {
      var rest := SubstituteFields(fs[1..], s);
      ClosedAfterSubstitution(fs[0].typ, s);
      ClosedFields(fs[1..], s);
      OpenUnion(VisibleKeys(fs[0].typ), VisibleKeysFields(fs[1..]), s);
      var whole := SubstituteFields(fs, s);
      assert whole == [fs[0].(typ := Substitute(fs[0].typ, s))] + rest;
      if AnyFieldHasParameter(rest) {
        var i :| 0 <= i < |rest| && HasTypeParameter(rest[i].typ);
        assert HasTypeParameter(whole[i + 1].typ);
      }
      if HasTypeParameter(whole[0].typ) {
        assert AnyFieldHasParameter(whole);
      }
      if AnyFieldHasParameter(whole) && !HasTypeParameter(whole[0].typ) {
        var i :| 0 <= i < |whole| && HasTypeParameter(whole[i].typ);
        assert HasTypeParameter(rest[i - 1].typ);
      }
    }
  }

  // ----- SubstituteParameters agrees with Substitute after detaching -----

  lemma {:induction false} DetachIdempotent(t: Type)
    ensures Detach(Detach(t)) == Detach(t)
    decreases t, 1
  {
    match t
    case TypeParameter(p) => DetachIdempotent(p.constraint);
    case DefinedType(_, _, _, _, _) => DetachLargeIdempotent(t);
    case PointerType(base, _) => DetachIdempotent(base);
    case SliceType(base, _) => DetachIdempotent(base);
    case ArrayType(base, _) => DetachIdempotent(base);
    case SequenceType(base, _) => DetachIdempotent(base);
    case StructType(_, _, _) => DetachLargeIdempotent(t);
    case UnionType(_, _, fields) => DetachFieldsIdempotent(fields);
    case FunctionType(_, _, _, _) => DetachLargeIdempotent(t);
    case MultipleReturnType(items) => DetachAllIdempotent(items);
    case TraitPointerType(definition, _) => DetachMethodsIdempotent(definition.methods);
    case TraitType(definition) => DetachMethodsIdempotent(definition.methods);
    case _ =>
  }

  lemma {:induction false} DetachLargeIdempotent(t: Type)
    requires t.DefinedType? || t.StructType? || t.FunctionType?
    ensures Detach(Detach(t)) == Detach(t)
    decreases t, 0
  {
    match t
    case DefinedType(_, _, underlying, _, arguments) =>
      DetachIdempotent(underlying);
      DetachAllIdempotent(arguments);
    case StructType(fields, _, info) =>
      DetachFieldsIdempotent(fields);
      DetachInfoIdempotent(info);
    case FunctionType(parameters, returnType, _, element) =>
      DetachAllIdempotent(parameters);
      DetachIdempotent(returnType);
      DetachIdempotent(element);
  }

  lemma {:induction false} DetachAllIdempotent(ts: seq<Type>)
    ensures DetachAll(DetachAll(ts)) == DetachAll(ts)
    decreases ts
  {
    if ts != [] {
      DetachIdempotent(ts[0]);
      DetachAllIdempotent(ts[1..]);
      assert DetachAll(ts)[1..] == DetachAll(ts[1..]);
    }
  }

  lemma {:induction false} DetachFieldsIdempotent(fs: seq<Field>)
    ensures DetachFields(DetachFields(fs)) == DetachFields(fs)
    decreases fs
  {
    if fs != [] {
      DetachIdempotent(fs[0].typ);
      DetachFieldsIdempotent(fs[1..]);
      assert DetachFields(fs)[1..] == DetachFields(fs[1..]);
    }
  }

  lemma {:induction false} DetachInfoIdempotent(info: Option<TaggedUnionInfo>)
    ensures DetachInfo(DetachInfo(info)) == DetachInfo(info)
    decreases info
  {
    match info
    case None =>
    case Some(i) =>
      DetachIdempotent(i.tag);
      DetachVariantsIdempotent(i.variants);
  }

  lemma {:induction false} DetachVariantsIdempotent(vs: seq<Variant>)
    ensures DetachVariants(DetachVariants(vs)) == DetachVariants(vs)
    decreases vs
  {
    if vs != [] {
      DetachFieldsIdempotent(vs[0].variantFields);
      DetachVariantsIdempotent(vs[1..]);
      assert DetachVariants(vs)[1..] == DetachVariants(vs[1..]);
    }
  }

  lemma {:induction false} DetachMethodsIdempotent(ms: seq<TraitMethod>)
    ensures DetachMethods(DetachMethods(ms)) == DetachMethods(ms)
    decreases ms
  {
    if ms != [] {
      DetachConstraintsIdempotent(ms[0].genericParameters);
      DetachAllIdempotent(ms[0].methodParameters);
      DetachIdempotent(ms[0].methodReturn);
      DetachMethodsIdempotent(ms[1..]);
      assert DetachMethods(ms)[1..] == DetachMethods(ms[1..]);
    }
  }

  lemma {:induction false} DetachConstraintsIdempotent(ps: seq<Parameter>)
    ensures DetachConstraints(DetachConstraints(ps)) == DetachConstraints(ps)
    decreases ps
  {
    if ps != [] {
      DetachIdempotent(ps[0].constraint);
      DetachConstraintsIdempotent(ps[1..]);
      assert DetachConstraints(ps)[1..] == DetachConstraints(ps[1..]);
    }
  }

  /** What is compared: a type, its `Substitute` and its `SubstituteParameters`. */
  datatype Claim = SubstituteFixes | ParametersFix | TheyAgree

  ghost predicate Holds(claim: Claim, t: Type, b: Bindings) {
    match claim
    case SubstituteFixes => Substitute(t, b) == t
    case ParametersFix => SubstituteParameters(t, b) == t
    case TheyAgree => SubstituteParameters(t, b) == Substitute(t, b)
  }

  ghost predicate HoldsAll(claim: Claim, ts: seq<Type>, b: Bindings) {
    match claim
    case SubstituteFixes => SubstituteAll(ts, b) == ts
    case ParametersFix => SubstituteParametersAll(ts, b) == ts
    case TheyAgree => SubstituteParametersAll(ts, b) == SubstituteAll(ts, b)
  }

  ghost predicate HoldsFields(claim: Claim, fs: seq<Field>, b: Bindings) {
    match claim
    case SubstituteFixes => SubstituteFields(fs, b) == fs
    case ParametersFix => SubstituteParametersFields(fs, b) == fs
    case TheyAgree => SubstituteParametersFields(fs, b) == SubstituteFields(fs, b)
  }

  ghost predicate HoldsVariants(claim: Claim, vs: seq<Variant>, b: Bindings) {
    match claim
    case SubstituteFixes => SubstituteVariants(vs, b) == vs
    case ParametersFix => SubstituteParametersVariants(vs, b) == vs
    case TheyAgree => SubstituteParametersVariants(vs, b) == SubstituteVariants(vs, b)
  }

  ghost predicate HoldsMethods(claim: Claim, ms: seq<TraitMethod>, b: Bindings) {
    match claim
    case SubstituteFixes => SubstituteMethods(ms, b) == ms
    case ParametersFix => SubstituteParametersMethods(ms, b) == ms
    case TheyAgree => SubstituteParametersMethods(ms, b) == SubstituteMethods(ms, b)
  }

  /** SubstituteParameters replaces the parameter. */
  predicate IsReplaced(p: Parameter, b: Bindings) {
    p.Key() in b && !b[p.Key()].NoType?
  }

  /**
    When a claim holds of a detached type, place by place.  The substitutions
    differ in three places: only SubstituteParameters enters a literal type and the
    constraint of an unbound parameter, and only Substitute enters the constraints
    of a generic method; there, every bound parameter must be bound to itself.
    A parameter that is bound to nil counts as unbound for SubstituteParameters
    alone, and the two never agree on it.
   */
  ghost predicate Condition(claim: Claim, t: Type, b: Bindings)
    decreases t
  {
    match t
    case TypeParameter(p) =>
      (match claim
       case SubstituteFixes => p.Key() in b ==> b[p.Key()] == t
       case ParametersFix =>
         if IsReplaced(p, b) then b[p.Key()] == t else Condition(ParametersFix, p.constraint, b)
       case TheyAgree => IsReplaced(p, b) || (p.Key() !in b && Condition(ParametersFix, p.constraint, b)))
    case SequenceType(base, _) => claim.SubstituteFixes? || Condition(ParametersFix, base, b)
    case DefinedType(_, _, underlying, _, arguments) =>
      Condition(claim, underlying, b) && ConditionAll(claim, arguments, b)
    case PointerType(base, _) => Condition(claim, base, b)
    case SliceType(base, _) => Condition(claim, base, b)
    case ArrayType(base, _) => Condition(claim, base, b)
    case StructType(fields, _, None) => ConditionFields(claim, fields, b)
    case StructType(fields, _, Some(i)) =>
      ConditionFields(claim, fields, b) && Condition(claim, i.tag, b) && ConditionVariants(claim, i.variants, b)
    case UnionType(_, _, fields) => ConditionFields(claim, fields, b)
    case FunctionType(parameters, returnType, _, element) =>
      ConditionAll(claim, parameters, b) && Condition(claim, returnType, b) && Condition(claim, element, b)
    case MultipleReturnType(items) => ConditionAll(claim, items, b)
    case TraitPointerType(definition, _) => ConditionMethods(claim, definition.methods, b)
    case TraitType(definition) => ConditionMethods(claim, definition.methods, b)
    case _ => true
  }

  ghost predicate ConditionAll(claim: Claim, ts: seq<Type>, b: Bindings)
    decreases ts
  {
    ts != [] ==> Condition(claim, ts[0], b) && ConditionAll(claim, ts[1..], b)
  }

  ghost predicate ConditionFields(claim: Claim, fs: seq<Field>, b: Bindings)
    decreases fs
  {
    fs != [] ==> Condition(claim, fs[0].typ, b) && ConditionFields(claim, fs[1..], b)
  }

  ghost predicate ConditionVariants(claim: Claim, vs: seq<Variant>, b: Bindings)
    decreases vs
  {
    vs != [] ==> ConditionFields(claim, vs[0].variantFields, b) && ConditionVariants(claim, vs[1..], b)
  }

  ghost predicate ConditionMethods(claim: Claim, ms: seq<TraitMethod>, b: Bindings)
    decreases ms
  {
    ms != [] ==>
      && (claim.ParametersFix? || ConditionConstraints(ms[0].genericParameters, b))
      && ConditionAll(claim, ms[0].methodParameters, b)
      && Condition(claim, ms[0].methodReturn, b)
      && ConditionMethods(claim, ms[1..], b)
  }

  /** Substitute changes none of the constraints. */
  ghost predicate ConditionConstraints(ps: seq<Parameter>, b: Bindings)
    decreases ps
  {
    ps != [] ==> Condition(SubstituteFixes, ps[0].constraint, b) && ConditionConstraints(ps[1..], b)
  }

  /** The main result: the two substitutions agree exactly when the condition holds. */
  lemma SubstitutionsAgree(t: Type, b: Bindings)
    ensures SubstituteParameters(t, b) == Substitute(Detach(t), b) <==> Condition(TheyAgree, Detach(t), b)
  {
    DetachIdempotent(t);
    DetachedFirst(t, b);
    HoldsExactly(TheyAgree, Detach(t), b);
  }

  /** SubstituteParameters detaches whatever it meets. */
  lemma {:induction false} DetachedFirst(t: Type, b: Bindings)
    ensures SubstituteParameters(t, b) == SubstituteParameters(Detach(t), b)
    decreases t
  {
    if t.TypeParameter? {
      DetachedFirst(t.parameter.constraint, b);
      assert Detach(t).parameter.Key() == t.parameter.Key();
    } else {
      DetachIdempotent(t);
    }
  }

  lemma {:induction false} HoldsExactly(claim: Claim, t: Type, b: Bindings)
    requires Detach(t) == t
    ensures Holds(claim, t, b) <==> Condition(claim, t, b)
    decreases t, 1
  {
    match t
    case TypeParameter(p) => HoldsExactly(ParametersFix, p.constraint, b);
    case SequenceType(base, _) => HoldsExactly(ParametersFix, base, b);
    case PointerType(base, _) => HoldsExactly(claim, base, b);
    case SliceType(base, _) => HoldsExactly(claim, base, b);
    case ArrayType(base, _) => HoldsExactly(claim, base, b);
    case FunctionType(_, _, _, _) => FunctionExactly(claim, t, b);
    case MultipleReturnType(items) => AllExactly(claim, items, b);
    case TraitPointerType(_, _) => TraitExactly(claim, t, b);
    case TraitType(_) => TraitExactly(claim, t, b);
    case DefinedType(_, _, _, _, _) => NominalExactly(claim, t, b);
    case StructType(_, _, _) => RecordExactly(claim, t, b);
    case UnionType(_, _, _) => RecordExactly(claim, t, b);
    case _ =>
  }

  lemma {:induction false} NominalExactly(claim: Claim, t: Type, b: Bindings)
    requires t.DefinedType? && Detach(t) == t
    ensures Holds(claim, t, b) <==> Condition(claim, t, b)
    decreases t, 0
  {
    HoldsExactly(claim, t.underlying, b);
    AllExactly(claim, t.typeArguments, b);
  }

  lemma {:induction false} RecordExactly(claim: Claim, t: Type, b: Bindings)
    requires (t.StructType? || t.UnionType?) && Detach(t) == t
    ensures Holds(claim, t, b) <==> Condition(claim, t, b)
    decreases t, 0
  {
    FieldsExactly(claim, t.fields, b);
    if t.StructType? {
      assert t == StructType(t.fields, t.packed, t.taggedUnion);
      assert SubstituteParameters(t, b) == StructType(
          SubstituteParametersFields(t.fields, b), t.packed, SubstituteParametersInfo(t.taggedUnion, b));
      assert Substitute(t, b) == StructType(SubstituteFields(t.fields, b), t.packed, SubstituteInfo(t.taggedUnion, b));
      assert t.taggedUnion.None? ==> (Holds(claim, t, b) <==> HoldsFields(claim, t.fields, b));
      if t.taggedUnion.Some? {
        InfoExactly(claim, t, b);
      }
    }
  }

  lemma {:induction false} InfoExactly(claim: Claim, t: Type, b: Bindings)
    requires t.StructType? && t.taggedUnion.Some? && Detach(t) == t
    ensures
      var info, i := t.taggedUnion, t.taggedUnion.value;
      var holds := match claim
        case SubstituteFixes => SubstituteInfo(info, b) == info
        case ParametersFix => SubstituteParametersInfo(info, b) == info
        case TheyAgree => SubstituteParametersInfo(info, b) == SubstituteInfo(info, b);
      holds <==> Condition(claim, i.tag, b) && ConditionVariants(claim, i.variants, b)
    decreases t.taggedUnion
  {
    var i := t.taggedUnion.value;
    HoldsExactly(claim, i.tag, b);
    VariantsExactly(claim, i.variants, b);
  }

  lemma {:induction false} FunctionExactly(claim: Claim, t: Type, b: Bindings)
    requires t.FunctionType? && Detach(t) == t
    ensures Holds(claim, t, b) <==> Condition(claim, t, b)
    decreases t, 0
  {
    AllExactly(claim, t.parameters, b);
    HoldsExactly(claim, t.returnType, b);
    HoldsExactly(claim, t.variadicElement, b);
  }

  lemma {:induction false} TraitExactly(claim: Claim, t: Type, b: Bindings)
    requires (t.TraitType? || t.TraitPointerType?) && Detach(t) == t
    ensures Holds(claim, t, b) <==> Condition(claim, t, b)
    decreases t, 0
  {
    var d := t.definition;
    MethodsExactly(claim, d.methods, b);
    assert d == d.(methods := d.methods);
    var rebuilt := d.(methods := SubstituteParametersMethods(d.methods, b));
    assert Detach(TraitType(d)) == TraitType(d);
    assert SubstituteParameters(TraitType(d), b) == TraitType(rebuilt);
    assert t.TraitPointerType? ==> SubstituteParameters(t, b) == TraitPointerType(rebuilt, t.mutable);
    assert SubstituteTrait(d, b) == d.(methods := SubstituteMethods(d.methods, b));
    assert Holds(claim, t, b) <==> HoldsMethods(claim, d.methods, b);
  }

  lemma {:induction false} AllExactly(claim: Claim, ts: seq<Type>, b: Bindings)
    requires DetachAll(ts) == ts
    ensures HoldsAll(claim, ts, b) <==> ConditionAll(claim, ts, b)
    decreases ts
  {
    if ts != [] {
      var rest := ts[1..];
      assert DetachAll(ts)[1..] == DetachAll(rest);
      HoldsExactly(claim, ts[0], b);
      AllExactly(claim, rest, b);
      assert ts == [ts[0]] + rest;
      SameCons(Substitute(ts[0], b), SubstituteAll(rest, b), ts[0], rest);
      SameCons(SubstituteParameters(ts[0], b), SubstituteParametersAll(rest, b), ts[0], rest);
      SameCons(SubstituteParameters(ts[0], b), SubstituteParametersAll(rest, b),
               Substitute(ts[0], b), SubstituteAll(rest, b));
    }
  }

  /** Nonempty lists are equal when their heads and tails are. */
  lemma SameCons<T>(x: T, xs: seq<T>, y: T, ys: seq<T>)
    ensures [x] + xs == [y] + ys <==> x == y && xs == ys
  {
    if [x] + xs == [y] + ys {
      assert ([x] + xs)[0] == ([y] + ys)[0];
      assert ([x] + xs)[1..] == ([y] + ys)[1..];
    }
  }

  lemma {:induction false} FieldsExactly(claim: Claim, fs: seq<Field>, b: Bindings)
    requires DetachFields(fs) == fs
    ensures HoldsFields(claim, fs, b) <==> ConditionFields(claim, fs, b)
    decreases fs
  {
    if fs != [] {
      var f, rest := fs[0], fs[1..];
      assert DetachFields(fs)[1..] == DetachFields(rest);
      HoldsExactly(claim, f.typ, b);
      FieldsExactly(claim, rest, b);
      assert fs == [f] + rest;
      var replaced, rebuilt := f.(typ := Substitute(f.typ, b)), f.(typ := SubstituteParameters(f.typ, b));
      SameCons(replaced, SubstituteFields(rest, b), f, rest);
      SameCons(rebuilt, SubstituteParametersFields(rest, b), f, rest);
      SameCons(rebuilt, SubstituteParametersFields(rest, b), replaced, SubstituteFields(rest, b));
    }
  }

  lemma {:induction false} VariantsExactly(claim: Claim, vs: seq<Variant>, b: Bindings)
    requires DetachVariants(vs) == vs
    ensures HoldsVariants(claim, vs, b) <==> ConditionVariants(claim, vs, b)
    decreases vs
  {
    if vs != [] {
      var v, rest := vs[0], vs[1..];
      assert DetachVariants(vs)[1..] == DetachVariants(rest);
      FieldsExactly(claim, v.variantFields, b);
      VariantsExactly(claim, rest, b);
      assert vs == [v] + rest;
      var replaced := v.(variantFields := SubstituteFields(v.variantFields, b));
      var rebuilt := v.(variantFields := SubstituteParametersFields(v.variantFields, b));
      SameCons(replaced, SubstituteVariants(rest, b), v, rest);
      SameCons(rebuilt, SubstituteParametersVariants(rest, b), v, rest);
      SameCons(rebuilt, SubstituteParametersVariants(rest, b), replaced, SubstituteVariants(rest, b));
    }
  }

  /** A method as Substitute leaves it. */
  ghost function Replaced(m: TraitMethod, b: Bindings): TraitMethod {
    m.(genericParameters := SubstituteConstraints(m.genericParameters, b),
       methodParameters := SubstituteAll(m.methodParameters, b), methodReturn := Substitute(m.methodReturn, b))
  }

  /** A method as SubstituteParameters leaves it. */
  ghost function Rebuilt(m: TraitMethod, b: Bindings): TraitMethod {
    m.(methodParameters := SubstituteParametersAll(m.methodParameters, b),
       methodReturn := SubstituteParameters(m.methodReturn, b))
  }

  lemma {:induction false} MethodsExactly(claim: Claim, ms: seq<TraitMethod>, b: Bindings)
    requires DetachMethods(ms) == ms
    ensures HoldsMethods(claim, ms, b) <==> ConditionMethods(claim, ms, b)
    decreases ms
  {
    if ms != [] {
      var m, rest := ms[0], ms[1..];
      assert DetachMethods(ms)[1..] == DetachMethods(rest);
      MethodExactly(claim, ms, b);
      MethodsExactly(claim, rest, b);
      assert ms == [m] + rest;
      SameCons(Replaced(m, b), SubstituteMethods(rest, b), m, rest);
      SameCons(Rebuilt(m, b), SubstituteParametersMethods(rest, b), m, rest);
      SameCons(Rebuilt(m, b), SubstituteParametersMethods(rest, b), Replaced(m, b), SubstituteMethods(rest, b));
    }
  }

  lemma {:induction false} MethodExactly(claim: Claim, ms: seq<TraitMethod>, b: Bindings)
    requires ms != [] && DetachMethods(ms) == ms
    ensures
      var m := ms[0];
      var holds := match claim
        case SubstituteFixes => Replaced(m, b) == m
        case ParametersFix => Rebuilt(m, b) == m
        case TheyAgree => Rebuilt(m, b) == Replaced(m, b);
      holds <==>
        && (claim.ParametersFix? || ConditionConstraints(m.genericParameters, b))
        && ConditionAll(claim, m.methodParameters, b)
        && Condition(claim, m.methodReturn, b)
    decreases ms, 0
  {
    ConstraintsExactly(ms[0].genericParameters, b);
    AllExactly(claim, ms[0].methodParameters, b);
    HoldsExactly(claim, ms[0].methodReturn, b);
  }

  lemma {:induction false} ConstraintsExactly(ps: seq<Parameter>, b: Bindings)
    requires DetachConstraints(ps) == ps
    ensures SubstituteConstraints(ps, b) == ps <==> ConditionConstraints(ps, b)
    decreases ps
  {
    if ps != [] {
      var p, rest := ps[0], ps[1..];
      assert DetachConstraints(ps)[1..] == DetachConstraints(rest);
      HoldsExactly(SubstituteFixes, p.constraint, b);
      ConstraintsExactly(rest, b);
      assert ps == [p] + rest;
      SameCons(p.(constraint := Substitute(p.constraint, b)), SubstituteConstraints(rest, b), p, rest);
    }
  }

  // ----- One type for each place where the substitutions differ -----

  /** A literal type hides its element from Substitute. */
  lemma SequenceTypesDisagree(p: Parameter, b: Bindings)
    requires p.Key() in b && !b[p.Key()].NoType? && !b[p.Key()].TypeParameter?
    ensures
      var t := SequenceType(TypeParameter(p), 1);
      SubstituteParameters(t, b) != Substitute(Detach(t), b)
  {
    var t := SequenceType(TypeParameter(p), 1);
    assert Detach(t).base.TypeParameter? && Detach(t).base.parameter.Key() == p.Key();
    SubstitutionsAgree(t, b);
  }

  /** The constraint of an unbound parameter is hidden from Substitute. */
  lemma UnboundParametersDisagree(p: Parameter, q: Parameter, b: Bindings)
    requires p.Key() !in b && p.constraint == TypeParameter(q)
    requires q.Key() in b && !b[q.Key()].NoType? && !b[q.Key()].TypeParameter?
    ensures SubstituteParameters(TypeParameter(p), b) != Substitute(Detach(TypeParameter(p)), b)
  {
    assert Detach(TypeParameter(p)).parameter.Key() == p.Key();
    assert Detach(TypeParameter(q)).parameter.Key() == q.Key();
    SubstitutionsAgree(TypeParameter(p), b);
  }

  /** The constraints of a generic trait method are hidden from SubstituteParameters. */
  lemma GenericMethodsDisagree(d: TraitDefinition, m: TraitMethod, p: Parameter, q: Parameter, b: Bindings)
    requires d.methods == [m] && m.genericParameters == [p] && p.constraint == TypeParameter(q)
    requires q.Key() in b && !b[q.Key()].TypeParameter?
    ensures SubstituteParameters(TraitType(d), b) != Substitute(Detach(TraitType(d)), b)
  {
    var constraints := DetachConstraints([p]);
    assert constraints[0].constraint == Detach(TypeParameter(q));
    assert constraints[0].constraint.parameter.Key() == q.Key();
    assert !ConditionConstraints(constraints, b);
    assert DetachMethods([m])[0].genericParameters == constraints;
    assert !ConditionMethods(TheyAgree, DetachMethods([m]), b);
    SubstitutionsAgree(TraitType(d), b);
  }
}
