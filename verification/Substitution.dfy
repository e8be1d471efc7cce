/**
  The two substitutions of types/type.go, and the detaching that one of them
  performs before every descent.

  Each helper over a slice of types, fields, variants, methods or parameters is
  the specification of the loop that fills that slice; `SubstituteTypes`,
  `SubstituteFieldList`, `DetachTypes` and `DetachFieldList` are the loops that
  have a function of their own in the source.
 */
module Substitution {
  import opened Types

  // ----- Substitute -----

  function Substitute(t: Type, s: Bindings): Type
    decreases t
  {
    match t
    case TypeParameter(p) => if p.Key() in s then s[p.Key()] else t
    case DefinedType(_, _, underlying, _, arguments) =>
      t.(underlying := Substitute(underlying, s), typeArguments := SubstituteAll(arguments, s))
    case PointerType(base, mutable) => PointerType(Substitute(base, s), mutable)
    case SliceType(base, mutable) => SliceType(Substitute(base, s), mutable)
    case ArrayType(base, length) => ArrayType(Substitute(base, s), length)
    case StructType(fields, packed, info) => StructType(SubstituteFields(fields, s), packed, SubstituteInfo(info, s))
    case UnionType(moduleName, name, fields) => UnionType(moduleName, name, SubstituteFields(fields, s))
    case FunctionType(parameters, returnType, variadic, element) =>
      FunctionType(SubstituteAll(parameters, s), Substitute(returnType, s), variadic, Substitute(element, s))
    case MultipleReturnType(items) => MultipleReturnType(SubstituteAll(items, s))
    case TraitPointerType(definition, mutable) => TraitPointerType(SubstituteTrait(definition, s), mutable)
    case TraitType(definition) => TraitType(SubstituteTrait(definition, s))
    case _ => t
  }

  function SubstituteAll(ts: seq<Type>, s: Bindings): (r: seq<Type>)
    decreases ts
  {
    if ts == [] then [] else [Substitute(ts[0], s)] + SubstituteAll(ts[1..], s)
  }

  function SubstituteFields(fs: seq<Field>, s: Bindings): seq<Field>
    decreases fs
  {
    if fs == [] then [] else [fs[0].(typ := Substitute(fs[0].typ, s))] + SubstituteFields(fs[1..], s)
  }

  function SubstituteInfo(info: Option<TaggedUnionInfo>, s: Bindings): Option<TaggedUnionInfo>
    decreases info
  {
    match info
    case None => None
    case Some(i) => Some(i.(tag := Substitute(i.tag, s), variants := SubstituteVariants(i.variants, s)))
  }

  function SubstituteVariants(vs: seq<Variant>, s: Bindings): seq<Variant>
    decreases vs
  {
    if vs == [] then []
    else [vs[0].(variantFields := SubstituteFields(vs[0].variantFields, s))] + SubstituteVariants(vs[1..], s)
  }

  function SubstituteTrait(d: TraitDefinition, s: Bindings): TraitDefinition
    decreases d
  {
    d.(methods := SubstituteMethods(d.methods, s))
  }

  function SubstituteMethods(ms: seq<TraitMethod>, s: Bindings): seq<TraitMethod>
    decreases ms
  {
    if ms == [] then []
    else
      [ms[0].(genericParameters := SubstituteConstraints(ms[0].genericParameters, s),
              methodParameters := SubstituteAll(ms[0].methodParameters, s),
              methodReturn := Substitute(ms[0].methodReturn, s))] + SubstituteMethods(ms[1..], s)
  }

  function SubstituteConstraints(ps: seq<Parameter>, s: Bindings): seq<Parameter>
    decreases ps
  {
    if ps == [] then []
    else [ps[0].(constraint := Substitute(ps[0].constraint, s))] + SubstituteConstraints(ps[1..], s)
  }

  // ----- Size: a measure that detaching keeps -----

  ghost function Size(t: Type): nat
    decreases t
  {
    1 + match t
        case TypeParameter(p) => Size(p.constraint)
        case DefinedType(_, _, underlying, _, arguments) => Size(underlying) + SizeAll(arguments)
        case PointerType(base, _) => Size(base)
        case SliceType(base, _) => Size(base)
        case ArrayType(base, _) => Size(base)
        case SequenceType(base, _) => Size(base)
        case StructType(fields, _, info) => SizeFields(fields) + SizeInfo(info)
        case UnionType(_, _, fields) => SizeFields(fields)
        case FunctionType(parameters, returnType, _, element) => SizeAll(parameters) + Size(returnType) + Size(element)
        case MultipleReturnType(items) => SizeAll(items)
        case TraitPointerType(definition, _) => SizeTrait(definition) + 1
        case TraitType(definition) => SizeTrait(definition)
        case _ => 0
  }

  ghost function SizeAll(ts: seq<Type>): nat
    decreases ts
  {
    if ts == [] then 0 else 1 + Size(ts[0]) + SizeAll(ts[1..])
  }

  ghost function SizeFields(fs: seq<Field>): nat
    decreases fs
  {
    if fs == [] then 0 else 1 + Size(fs[0].typ) + SizeFields(fs[1..])
  }

  ghost function SizeInfo(info: Option<TaggedUnionInfo>): nat
    decreases info
  {
    match info
    case None => 0
    case Some(i) => 1 + Size(i.tag) + SizeVariants(i.variants)
  }

  ghost function SizeVariants(vs: seq<Variant>): nat
    decreases vs
  {
    if vs == [] then 0 else 1 + SizeFields(vs[0].variantFields) + SizeVariants(vs[1..])
  }

  ghost function SizeTrait(d: TraitDefinition): nat
    decreases d
  {
    1 + SizeMethods(d.methods)
  }

  ghost function SizeMethods(ms: seq<TraitMethod>): nat
    decreases ms
  {
    if ms == [] then 0
    else
      1 + SizeConstraints(ms[0].genericParameters) + SizeAll(ms[0].methodParameters) + Size(ms[0].methodReturn)
      + SizeMethods(ms[1..])
  }

  ghost function SizeConstraints(ps: seq<Parameter>): nat
    decreases ps
  {
    if ps == [] then 0 else 1 + Size(ps[0].constraint) + SizeConstraints(ps[1..])
  }

  // ----- DetachForSerialization -----

  function Detach(t: Type): Type
    decreases t
  {
    match t
    case AliasRef(moduleName, name, _) => AliasRef(moduleName, name, None)
    case TypeParameter(Parameter(owner, name, index, constraint)) =>
      TypeParameter(Parameter(owner, name, index, Detach(constraint)))
    case DefinedType(moduleName, name, underlying, genericName, arguments) =>
      DefinedType(moduleName, name, Detach(underlying), genericName, DetachAll(arguments))
    case PointerType(base, mutable) => PointerType(Detach(base), mutable)
    case SliceType(base, mutable) => SliceType(Detach(base), mutable)
    case ArrayType(base, length) => ArrayType(Detach(base), length)
    case SequenceType(base, length) => SequenceType(Detach(base), length)
    case StructType(fields, packed, info) => StructType(DetachFields(fields), packed, DetachInfo(info))
    case UnionType(moduleName, name, fields) => UnionType(moduleName, name, DetachFields(fields))
    case FunctionType(parameters, returnType, variadic, element) =>
      FunctionType(DetachAll(parameters), Detach(returnType), variadic, Detach(element))
    case MultipleReturnType(items) => MultipleReturnType(DetachAll(items))
    case TraitPointerType(definition, mutable) => TraitPointerType(DetachTrait(definition), mutable)
    case TraitType(definition) => TraitType(DetachTrait(definition))
    case _ => t
  }

  function DetachAll(ts: seq<Type>): seq<Type>
    decreases ts
  {
    if ts == [] then [] else [Detach(ts[0])] + DetachAll(ts[1..])
  }

  function DetachFields(fs: seq<Field>): seq<Field>
    decreases fs
  {
    if fs == [] then [] else [fs[0].(typ := Detach(fs[0].typ))] + DetachFields(fs[1..])
  }

  function DetachInfo(info: Option<TaggedUnionInfo>): Option<TaggedUnionInfo>
    decreases info
  {
    match info
    case None => None
    case Some(i) => Some(i.(tag := Detach(i.tag), variants := DetachVariants(i.variants)))
  }

  function DetachVariants(vs: seq<Variant>): seq<Variant>
    decreases vs
  {
    if vs == [] then []
    else [vs[0].(variantFields := DetachFields(vs[0].variantFields))] + DetachVariants(vs[1..])
  }

  function DetachTrait(d: TraitDefinition): TraitDefinition
    decreases d
  {
    d.(methods := DetachMethods(d.methods))
  }

  function DetachMethods(ms: seq<TraitMethod>): seq<TraitMethod>
    decreases ms
  {
    if ms == [] then []
    else
      [ms[0].(genericParameters := DetachConstraints(ms[0].genericParameters),
              methodParameters := DetachAll(ms[0].methodParameters),
              methodReturn := Detach(ms[0].methodReturn))] + DetachMethods(ms[1..])
  }

  function DetachConstraints(ps: seq<Parameter>): seq<Parameter>
    decreases ps
  {
    if ps == [] then []
    else [ps[0].(constraint := Detach(ps[0].constraint))] + DetachConstraints(ps[1..])
  }

  // ----- Detaching keeps the measure -----

  lemma {:induction false} DetachKeepsSize(t: Type)
    ensures Size(Detach(t)) == Size(t)
    decreases t, 1
  {
    match t
    case TypeParameter(p) => DetachKeepsSize(p.constraint);
    case DefinedType(_, _, _, _, _) => DetachKeepsSizeLarge(t);
    case PointerType(base, _) => DetachKeepsSize(base);
    case SliceType(base, _) => DetachKeepsSize(base);
    case ArrayType(base, _) => DetachKeepsSize(base);
    case SequenceType(base, _) => DetachKeepsSize(base);
    case StructType(_, _, _) => DetachKeepsSizeLarge(t);
    case UnionType(_, _, fields) => DetachFieldsKeepsSize(fields);
    case FunctionType(_, _, _, _) => DetachKeepsSizeLarge(t);
    case MultipleReturnType(items) => DetachAllKeepsSize(items);
    case TraitPointerType(definition, _) => DetachTraitKeepsSize(definition);
    case TraitType(definition) => DetachTraitKeepsSize(definition);
    case _ =>
  }

  lemma {:induction false} DetachKeepsSizeLarge(t: Type)
    requires t.DefinedType? || t.StructType? || t.FunctionType?
    ensures Size(Detach(t)) == Size(t)
    decreases t, 0
  {
    match t
    case DefinedType(_, _, underlying, _, arguments) =>
      DetachKeepsSize(underlying);
      DetachAllKeepsSize(arguments);
    case StructType(fields, _, info) =>
      DetachFieldsKeepsSize(fields);
      DetachInfoKeepsSize(info);
    case FunctionType(parameters, returnType, _, element) =>
      DetachAllKeepsSize(parameters);
      DetachKeepsSize(returnType);
      DetachKeepsSize(element);
  }

  lemma {:induction false} DetachAllKeepsSize(ts: seq<Type>)
    ensures SizeAll(DetachAll(ts)) == SizeAll(ts)
    decreases ts
  {
    if ts != [] {
      DetachKeepsSize(ts[0]);
      DetachAllKeepsSize(ts[1..]);
      assert DetachAll(ts)[1..] == DetachAll(ts[1..]);
    }
  }

  lemma {:induction false} DetachFieldsKeepsSize(fs: seq<Field>)
    ensures SizeFields(DetachFields(fs)) == SizeFields(fs)
    decreases fs
  {
    if fs != [] {
      DetachKeepsSize(fs[0].typ);
      DetachFieldsKeepsSize(fs[1..]);
      assert DetachFields(fs)[1..] == DetachFields(fs[1..]);
    }
  }

  lemma {:induction false} DetachInfoKeepsSize(info: Option<TaggedUnionInfo>)
    ensures SizeInfo(DetachInfo(info)) == SizeInfo(info)
    decreases info
  {
    match info
    case None =>
    case Some(i) =>
      DetachKeepsSize(i.tag);
      DetachVariantsKeepsSize(i.variants);
  }

  lemma {:induction false} DetachVariantsKeepsSize(vs: seq<Variant>)
    ensures SizeVariants(DetachVariants(vs)) == SizeVariants(vs)
    decreases vs
  {
    if vs != [] {
      DetachFieldsKeepsSize(vs[0].variantFields);
      DetachVariantsKeepsSize(vs[1..]);
      assert DetachVariants(vs)[1..] == DetachVariants(vs[1..]);
    }
  }

  lemma {:induction false} DetachTraitKeepsSize(d: TraitDefinition)
    ensures SizeTrait(DetachTrait(d)) == SizeTrait(d)
    decreases d
  {
    DetachMethodsKeepsSize(d.methods);
  }

  lemma {:induction false} DetachMethodsKeepsSize(ms: seq<TraitMethod>)
    ensures SizeMethods(DetachMethods(ms)) == SizeMethods(ms)
    decreases ms
  {
    if ms != [] {
      DetachConstraintsKeepsSize(ms[0].genericParameters);
      DetachAllKeepsSize(ms[0].methodParameters);
      DetachKeepsSize(ms[0].methodReturn);
      DetachMethodsKeepsSize(ms[1..]);
      assert DetachMethods(ms)[1..] == DetachMethods(ms[1..]);
    }
  }

  lemma {:induction false} DetachConstraintsKeepsSize(ps: seq<Parameter>)
    ensures SizeConstraints(DetachConstraints(ps)) == SizeConstraints(ps)
    decreases ps
  {
    if ps != [] {
      DetachKeepsSize(ps[0].constraint);
      DetachConstraintsKeepsSize(ps[1..]);
      assert DetachConstraints(ps)[1..] == DetachConstraints(ps[1..]);
    }
  }

  // ----- SubstituteParameters -----

  /** Detaches at every level, then descends into the detached value. */
  function SubstituteParameters(t: Type, b: Bindings): Type
    decreases Size(t)
  {
    if t.TypeParameter? then
      var p := t.parameter;
      if p.Key() in b && !b[p.Key()].NoType? then b[p.Key()]
      else TypeParameter(p.(constraint := SubstituteParameters(p.constraint, b)))
    else
      DetachKeepsSize(t);
      var detached := Detach(t);
      match detached
      case DefinedType(_, _, underlying, _, arguments) =>
        detached.(underlying := SubstituteParameters(underlying, b),
                  typeArguments := SubstituteParametersAll(arguments, b))
      case PointerType(base, mutable) => PointerType(SubstituteParameters(base, b), mutable)
      case SliceType(base, mutable) => SliceType(SubstituteParameters(base, b), mutable)
      case ArrayType(base, length) => ArrayType(SubstituteParameters(base, b), length)
      case SequenceType(base, length) => SequenceType(SubstituteParameters(base, b), length)
      case StructType(fields, packed, info) =>
        StructType(SubstituteParametersFields(fields, b), packed, SubstituteParametersInfo(info, b))
      case UnionType(moduleName, name, fields) =>
        UnionType(moduleName, name, SubstituteParametersFields(fields, b))
      case FunctionType(parameters, returnType, variadic, element) =>
        FunctionType(SubstituteParametersAll(parameters, b), SubstituteParameters(returnType, b), variadic,
                     SubstituteParameters(element, b))
      case MultipleReturnType(items) => MultipleReturnType(SubstituteParametersAll(items, b))
      case TraitPointerType(definition, mutable) =>
        TraitPointerType(SubstituteParameters(TraitType(definition), b).definition, mutable)
      case TraitType(definition) =>
        TraitType(definition.(methods := SubstituteParametersMethods(definition.methods, b)))
      case _ => detached
  }

  function SubstituteParametersAll(ts: seq<Type>, b: Bindings): seq<Type>
    decreases SizeAll(ts)
  {
    if ts == [] then [] else [SubstituteParameters(ts[0], b)] + SubstituteParametersAll(ts[1..], b)
  }

  function SubstituteParametersFields(fs: seq<Field>, b: Bindings): seq<Field>
    decreases SizeFields(fs)
  {
    if fs == [] then []
    else [fs[0].(typ := SubstituteParameters(fs[0].typ, b))] + SubstituteParametersFields(fs[1..], b)
  }

  function SubstituteParametersInfo(info: Option<TaggedUnionInfo>, b: Bindings): Option<TaggedUnionInfo>
    decreases SizeInfo(info)
  {
    match info
    case None => None
    case Some(i) =>
      Some(i.(tag := SubstituteParameters(i.tag, b), variants := SubstituteParametersVariants(i.variants, b)))
  }

  function SubstituteParametersVariants(vs: seq<Variant>, b: Bindings): seq<Variant>
    decreases SizeVariants(vs)
  {
    if vs == [] then []
    else
      [vs[0].(variantFields := SubstituteParametersFields(vs[0].variantFields, b))]
      + SubstituteParametersVariants(vs[1..], b)
  }

  /** Generic method parameters, and so their constraints, are left alone. */
  function SubstituteParametersMethods(ms: seq<TraitMethod>, b: Bindings): seq<TraitMethod>
    decreases SizeMethods(ms)
  {
    if ms == [] then []
    else
      [ms[0].(methodParameters := SubstituteParametersAll(ms[0].methodParameters, b),
              methodReturn := SubstituteParameters(ms[0].methodReturn, b))]
      + SubstituteParametersMethods(ms[1..], b)
  }

  // ----- The loops -----

  method SubstituteTypes(values: seq<Type>, bindings: Bindings) returns (result: array<Type>)
    ensures fresh(result) && result[..] == SubstituteParametersAll(values, bindings)
  {
    result := new Type[|values|](_ => NoType);
    assert values[|values|..] == [];
    ghost var whole := SubstituteParametersAll(values, bindings);
    SubstituteParametersAllAt(values, bindings);
    for index := 0 to |values|
      invariant forall k :: 0 <= k < index ==> result[k] == whole[k]
    {
      result[index] := SubstituteParameters(values[index], bindings);
    }
  }

  lemma {:induction false} SubstituteParametersAllAt(ts: seq<Type>, b: Bindings)
    ensures |SubstituteParametersAll(ts, b)| == |ts|
    ensures forall k :: 0 <= k < |ts| ==> SubstituteParametersAll(ts, b)[k] == SubstituteParameters(ts[k], b)
  {
    if ts != [] {
      SubstituteParametersAllAt(ts[1..], b);
    }
  }

  method SubstituteFieldList(values: seq<Field>, bindings: Bindings) returns (result: array<Field>)
    ensures fresh(result) && result[..] == SubstituteParametersFields(values, bindings)
  {
    result := new Field[|values|](i requires 0 <= i < |values| => values[i]);
    ghost var whole := SubstituteParametersFields(values, bindings);
    SubstituteParametersFieldsAt(values, bindings);
    for index := 0 to |values|
      invariant result[..] == whole[..index] + values[index..]
    {
      assert result[index] == values[index];
      result[index] := result[index].(typ := SubstituteParameters(result[index].typ, bindings));
    }
  }

  lemma {:induction false} SubstituteParametersFieldsAt(fs: seq<Field>, b: Bindings)
    ensures |SubstituteParametersFields(fs, b)| == |fs|
    ensures forall k :: 0 <= k < |fs| ==>
      SubstituteParametersFields(fs, b)[k] == fs[k].(typ := SubstituteParameters(fs[k].typ, b))
  {
    if fs != [] {
      SubstituteParametersFieldsAt(fs[1..], b);
    }
  }

  method DetachTypes(values: seq<Type>) returns (result: array<Type>)
    ensures fresh(result) && result[..] == DetachAll(values)
  {
    result := new Type[|values|](_ => NoType);
    DetachAllAt(values);
    for index := 0 to |values|
      invariant forall k :: 0 <= k < index ==> result[k] == DetachAll(values)[k]
    {
      result[index] := Detach(values[index]);
    }
  }

  lemma {:induction false} DetachAllAt(ts: seq<Type>)
    ensures |DetachAll(ts)| == |ts|
    ensures forall k :: 0 <= k < |ts| ==> DetachAll(ts)[k] == Detach(ts[k])
  {
    if ts != [] {
      DetachAllAt(ts[1..]);
    }
  }

  method DetachFieldList(values: seq<Field>) returns (result: array<Field>)
    ensures fresh(result) && result[..] == DetachFields(values)
  {
    result := new Field[|values|](i requires 0 <= i < |values| => values[i]);
    ghost var whole := DetachFields(values);
    DetachFieldsAt(values);
    for index := 0 to |values|
      invariant result[..] == whole[..index] + values[index..]
    {
      assert result[index] == values[index];
      result[index] := result[index].(typ := Detach(result[index].typ));
    }
  }

  lemma {:induction false} DetachFieldsAt(fs: seq<Field>)
    ensures |DetachFields(fs)| == |fs|
    ensures forall k :: 0 <= k < |fs| ==> DetachFields(fs)[k] == fs[k].(typ := Detach(fs[k].typ))
  {
    if fs != [] {
      DetachFieldsAt(fs[1..]);
    }
  }
}
