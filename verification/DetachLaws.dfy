/**
  What detaching leaves (types/type.go): a type that leads to no declaration, and
  that is otherwise the type it was.
 */
module DetachLaws {
  import opened Types
  import opened Substitution

  // ----- Leading to no declaration -----

  /** Nothing in the type refers to a declaration. */
  ghost predicate Loose(t: Type)
    decreases t
  {
    match t
    case AliasRef(_, _, reference) => reference.None?
    case TypeParameter(p) => Loose(p.constraint)
    case DefinedType(_, _, underlying, _, arguments) => Loose(underlying) && LooseAll(arguments)
    case PointerType(base, _) => Loose(base)
    case SliceType(base, _) => Loose(base)
    case ArrayType(base, _) => Loose(base)
    case SequenceType(base, _) => Loose(base)
    case StructType(fields, _, info) => LooseFields(fields) && (info.Some? ==> LooseInfo(info.value))
    case UnionType(_, _, fields) => LooseFields(fields)
    case FunctionType(parameters, returnType, _, element) =>
      LooseAll(parameters) && Loose(returnType) && Loose(element)
    case MultipleReturnType(items) => LooseAll(items)
    case TraitPointerType(d, _) => LooseMethods(d.methods)
    case TraitType(d) => LooseMethods(d.methods)
    case _ => true
  }

  ghost predicate LooseAll(ts: seq<Type>)
    decreases ts
  {
    ts != [] ==> Loose(ts[0]) && LooseAll(ts[1..])
  }

  ghost predicate LooseFields(fs: seq<Field>)
    decreases fs
  {
    fs != [] ==> Loose(fs[0].typ) && LooseFields(fs[1..])
  }

  ghost predicate LooseInfo(i: TaggedUnionInfo)
    decreases i
  {
    Loose(i.tag) && LooseVariants(i.variants)
  }

  ghost predicate LooseVariants(vs: seq<Variant>)
    decreases vs
  {
    vs != [] ==> LooseFields(vs[0].variantFields) && LooseVariants(vs[1..])
  }

  ghost predicate LooseMethods(ms: seq<TraitMethod>)
    decreases ms
  {
    ms != [] ==>
      && LooseConstraints(ms[0].genericParameters) && LooseAll(ms[0].methodParameters) && Loose(ms[0].methodReturn)
      && LooseMethods(ms[1..])
  }

  ghost predicate LooseConstraints(ps: seq<Parameter>)
    decreases ps
  {
    ps != [] ==> Loose(ps[0].constraint) && LooseConstraints(ps[1..])
  }

  // ----- The same but for what references lead to -----

  /** The types differ in nothing but the declarations that references lead to. */
  ghost predicate SameBut(t: Type, u: Type)
    decreases t
  {
    match t
    case AliasRef(moduleName, name, _) => u.AliasRef? && u.moduleName == moduleName && u.name == name
    case TypeParameter(p) => u.TypeParameter? && SameParameter(p, u.parameter)
    case DefinedType(moduleName, name, underlying, genericName, arguments) =>
      && u.DefinedType? && u.moduleName == moduleName && u.name == name && u.genericName == genericName
      && SameBut(underlying, u.underlying) && SameAll(arguments, u.typeArguments)
    case PointerType(base, mutable) => u.PointerType? && u.mutable == mutable && SameBut(base, u.base)
    case SliceType(base, mutable) => u.SliceType? && u.mutable == mutable && SameBut(base, u.base)
    case ArrayType(base, length) => u.ArrayType? && u.length == length && SameBut(base, u.base)
    case SequenceType(base, length) => u.SequenceType? && u.length == length && SameBut(base, u.base)
    case StructType(fields, packed, info) =>
      && u.StructType? && u.packed == packed && SameFields(fields, u.fields)
      && (info.Some? <==> u.taggedUnion.Some?) && (info.Some? ==> SameInfo(info.value, u.taggedUnion.value))
    case UnionType(moduleName, name, fields) =>
      u.UnionType? && u.moduleName == moduleName && u.name == name && SameFields(fields, u.fields)
    case FunctionType(parameters, returnType, variadic, element) =>
      && u.FunctionType? && u.typedVariadic == variadic && SameAll(parameters, u.parameters)
      && SameBut(returnType, u.returnType) && SameBut(element, u.variadicElement)
    case MultipleReturnType(items) => u.MultipleReturnType? && SameAll(items, u.items)
    case TraitPointerType(d, mutable) => u.TraitPointerType? && u.mutable == mutable && SameTraits(d, u.definition)
    case TraitType(d) => u.TraitType? && SameTraits(d, u.definition)
    case _ => u == t
  }

  ghost predicate SameParameter(p: Parameter, q: Parameter)
    decreases p
  {
    q == p.(constraint := q.constraint) && SameBut(p.constraint, q.constraint)
  }

  ghost predicate SameAll(ts: seq<Type>, us: seq<Type>)
    decreases ts
  {
    |ts| == |us| && (ts != [] ==> SameBut(ts[0], us[0]) && SameAll(ts[1..], us[1..]))
  }

  ghost predicate SameFields(fs: seq<Field>, gs: seq<Field>)
    decreases fs
  {
    && |fs| == |gs|
    && (fs != [] ==>
        gs[0].fieldName == fs[0].fieldName && SameBut(fs[0].typ, gs[0].typ) && SameFields(fs[1..], gs[1..]))
  }

  ghost predicate SameInfo(i: TaggedUnionInfo, j: TaggedUnionInfo)
    decreases i
  {
    j.auto == i.auto && SameBut(i.tag, j.tag) && SameVariants(i.variants, j.variants)
  }

  ghost predicate SameVariants(vs: seq<Variant>, ws: seq<Variant>)
    decreases vs
  {
    && |vs| == |ws|
    && (vs != [] ==>
        && ws[0] == vs[0].(variantFields := ws[0].variantFields)
        && SameFields(vs[0].variantFields, ws[0].variantFields) && SameVariants(vs[1..], ws[1..]))
  }

  ghost predicate SameTraits(d: TraitDefinition, e: TraitDefinition)
    decreases d
  {
    e == d.(methods := e.methods) && SameMethods(d.methods, e.methods)
  }

  ghost predicate SameMethods(ms: seq<TraitMethod>, ns: seq<TraitMethod>)
    decreases ms
  {
    && |ms| == |ns|
    && (ms != [] ==> SameMethod(ms[0], ns[0]) && SameMethods(ms[1..], ns[1..]))
  }

  ghost predicate SameMethod(m: TraitMethod, n: TraitMethod)
    decreases m
  {
    && n.methodName == m.methodName && n.receiver == m.receiver && n.hasDefault == m.hasDefault
    && SameConstraints(m.genericParameters, n.genericParameters)
    && SameAll(m.methodParameters, n.methodParameters) && SameBut(m.methodReturn, n.methodReturn)
  }

  ghost predicate SameConstraints(ps: seq<Parameter>, qs: seq<Parameter>)
    decreases ps
  {
    |ps| == |qs| && (ps != [] ==> SameParameter(ps[0], qs[0]) && SameConstraints(ps[1..], qs[1..]))
  }

  // ----- Detaching -----

  ghost predicate Exactly(t: Type, u: Type) {
    u == Detach(t) <==> Loose(u) && SameBut(t, u)
  }

  /** The detached type is the one that leads nowhere and is the same otherwise. */
  lemma DetachIsExact(t: Type, u: Type)
    ensures u == Detach(t) <==> Loose(u) && SameBut(t, u)
  {
    DetachedExactly(t, u);
  }

  lemma {:induction false} DetachedExactly(t: Type, u: Type)
    ensures Exactly(t, u)
    decreases t, 1
  {
    match t
    case TypeParameter(_) => ParameterExactly(t, u);
    case PointerType(_, _) | SliceType(_, _) | ArrayType(_, _) | SequenceType(_, _) => BaseExactly(t, u);
    case DefinedType(_, _, _, _, _) => NominalExactly(t, u);
    case StructType(_, _, _) => StructExactly(t, u);
    case UnionType(_, _, _) | MultipleReturnType(_) => ListExactly(t, u);
    case FunctionType(_, _, _, _) => FunctionExactly(t, u);
    case TraitPointerType(_, _) => TraitPointerExactly(t, u);
    case TraitType(_) => TraitExactly(t, u);
    case AliasRef(_, _, _) => AliasExactly(t, u);
    case _ => LeafExactly(t, u);
  }

  predicate HasNoParts(t: Type) {
    || t.NoType? || t.SelfType? || t.PrimitiveType? || t.EnumType? || t.FlagsType? || t.OpaqueType?
    || t.ErrorType? || t.UntypedInt? || t.UntypedFloat? || t.UnresolvedEnum? || t.NoInitializerType?
  }

  lemma LeafIsLoose(t: Type)
    requires HasNoParts(t)
    ensures Detach(t) == t && Loose(t)
  {
  }

  lemma LeafIsSame(t: Type, u: Type)
    requires HasNoParts(t)
    ensures SameBut(t, u) <==> u == t
  {
  }

  lemma LeafExactly(t: Type, u: Type)
    requires HasNoParts(t)
    ensures Exactly(t, u)
  {
    LeafIsLoose(t);
    LeafIsSame(t, u);
  }

  lemma AliasExactly(t: Type, u: Type)
    requires t.AliasRef?
    ensures Exactly(t, u)
  {
  }

  lemma ParameterExactly(t: Type, u: Type)
    requires t.TypeParameter?
    ensures Exactly(t, u)
    decreases t, 0
  {
    if u.TypeParameter? {
      DetachedExactly(t.parameter.constraint, u.parameter.constraint);
    }
  }

  lemma BaseExactly(t: Type, u: Type)
    requires t.PointerType? || t.SliceType? || t.ArrayType? || t.SequenceType?
    ensures Exactly(t, u)
    decreases t, 0
  {
    if u.PointerType? || u.SliceType? || u.ArrayType? || u.SequenceType? {
      DetachedExactly(t.base, u.base);
    }
  }

  lemma ListExactly(t: Type, u: Type)
    requires t.UnionType? || t.MultipleReturnType?
    ensures Exactly(t, u)
    decreases t, 0
  {
    if t.UnionType? && u.UnionType? {
      FieldsExactly(t.fields, u.fields);
    } else if t.MultipleReturnType? && u.MultipleReturnType? {
      AllExactly(t.items, u.items);
    }
  }

  lemma TraitExactly(t: Type, u: Type)
    requires t.TraitType?
    ensures Exactly(t, u)
    decreases t, 0
  {
    if u.TraitType? {
      MethodsExactly(t.definition.methods, u.definition.methods);
    }
  }

  lemma TraitPointerExactly(t: Type, u: Type)
    requires t.TraitPointerType?
    ensures Exactly(t, u)
    decreases t, 0
  {
    if u.TraitPointerType? {
      MethodsExactly(t.definition.methods, u.definition.methods);
    }
  }

  lemma NominalExactly(t: Type, u: Type)
    requires t.DefinedType?
    ensures Exactly(t, u)
    decreases t, 0
  {
    if u.DefinedType? {
      DetachedExactly(t.underlying, u.underlying);
      AllExactly(t.typeArguments, u.typeArguments);
    }
  }

  lemma StructExactly(t: Type, u: Type)
    requires t.StructType?
    ensures Exactly(t, u)
    decreases t, 0
  {
    if u.StructType? {
      FieldsExactly(t.fields, u.fields);
      if t.taggedUnion.Some? && u.taggedUnion.Some? {
        InfoExactly(t.taggedUnion.value, u.taggedUnion.value);
      }
    }
  }

  lemma InfoExactly(i: TaggedUnionInfo, j: TaggedUnionInfo)
    ensures Some(j) == DetachInfo(Some(i)) <==> LooseInfo(j) && SameInfo(i, j)
    decreases i
  {
    DetachedExactly(i.tag, j.tag);
    VariantsExactly(i.variants, j.variants);
  }

  lemma FunctionExactly(t: Type, u: Type)
    requires t.FunctionType?
    ensures Exactly(t, u)
    decreases t, 0
  {
    if u.FunctionType? {
      AllExactly(t.parameters, u.parameters);
      DetachedExactly(t.returnType, u.returnType);
      DetachedExactly(t.variadicElement, u.variadicElement);
    }
  }

  lemma AllExactly(ts: seq<Type>, us: seq<Type>)
    ensures us == DetachAll(ts) <==> LooseAll(us) && SameAll(ts, us)
    decreases ts
  {
    if ts != [] && us != [] {
      assert us == [us[0]] + us[1..];
      DetachedExactly(ts[0], us[0]);
      AllExactly(ts[1..], us[1..]);
    }
  }

  lemma FieldsExactly(fs: seq<Field>, gs: seq<Field>)
    ensures gs == DetachFields(fs) <==> LooseFields(gs) && SameFields(fs, gs)
    decreases fs
  {
    if fs != [] && gs != [] {
      assert gs == [gs[0]] + gs[1..];
      DetachedExactly(fs[0].typ, gs[0].typ);
      FieldsExactly(fs[1..], gs[1..]);
    }
  }

  lemma VariantsExactly(vs: seq<Variant>, ws: seq<Variant>)
    ensures ws == DetachVariants(vs) <==> LooseVariants(ws) && SameVariants(vs, ws)
    decreases vs
  {
    if vs != [] && ws != [] {
      assert ws == [ws[0]] + ws[1..];
      FieldsExactly(vs[0].variantFields, ws[0].variantFields);
      VariantsExactly(vs[1..], ws[1..]);
    }
  }

  lemma MethodsExactly(ms: seq<TraitMethod>, ns: seq<TraitMethod>)
    ensures ns == DetachMethods(ms) <==> LooseMethods(ns) && SameMethods(ms, ns)
    decreases ms
  {
    if ms != [] && ns != [] {
      assert ns == [ns[0]] + ns[1..];
      ConstraintsExactly(ms[0].genericParameters, ns[0].genericParameters);
      AllExactly(ms[0].methodParameters, ns[0].methodParameters);
      DetachedExactly(ms[0].methodReturn, ns[0].methodReturn);
      MethodsExactly(ms[1..], ns[1..]);
    }
  }

  lemma ConstraintsExactly(ps: seq<Parameter>, qs: seq<Parameter>)
    ensures qs == DetachConstraints(ps) <==> LooseConstraints(qs) && SameConstraints(ps, qs)
    decreases ps
  {
    if ps != [] && qs != [] {
      assert qs == [qs[0]] + qs[1..];
      DetachedExactly(ps[0].constraint, qs[0].constraint);
      ConstraintsExactly(ps[1..], qs[1..]);
    }
  }
}
