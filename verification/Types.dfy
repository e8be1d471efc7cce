/**
  The compiler's types (types/type.go) as a datatype.

  A Go `Type` is an interface value, so `NoType` stands for nil (an absent
  constraint, an absent variadic element).  `AliasRef` is the one pointer in the
  graph: its target belongs to a declaration, which `reference` numbers, and an
  `AliasTable` gives the name and the target of each declaration that has one.  A
  reference without an entry, and a detached reference (`None`), are dangling.
 */
module Types {
  import opened Decimal

  datatype Option<+T> = None | Some(value: T)

  datatype Primitive =
    | I8 | I16 | I32 | I64 | U8 | U16 | U32 | U64 | F32 | F64 | Isz | Usz | Void | Bool

  datatype Type =
    | NoType
    | SelfType
    | TypeParameter(parameter: Parameter)
    | DefinedType(moduleName: string, name: string, underlying: Type, genericName: string, typeArguments: seq<Type>)
    | AliasRef(moduleName: string, name: string, reference: Option<nat>)
    | PointerType(base: Type, mutable: bool)
    | SliceType(base: Type, mutable: bool)
    | ArrayType(base: Type, length: int)
    | SequenceType(base: Type, length: int)
    | FunctionType(parameters: seq<Type>, returnType: Type, typedVariadic: bool, variadicElement: Type)
    | MultipleReturnType(items: seq<Type>)
    | PrimitiveType(primitive: Primitive)
    | StructType(fields: seq<Field>, packed: bool, taggedUnion: Option<TaggedUnionInfo>)
    | UnionType(moduleName: string, name: string, fields: seq<Field>)
    | EnumType(moduleName: string, name: string, identityName: string, variants: seq<string>, values: seq<string>)
    | FlagsType(flagsUnderlying: Primitive, variants: seq<string>, values: seq<string>)
    | TraitType(definition: TraitDefinition)
    | TraitPointerType(definition: TraitDefinition, mutable: bool)
    | OpaqueType
    | ErrorType
    | UntypedInt
    | UntypedFloat
    | UnresolvedEnum
    | NoInitializerType

  /** A declaration-scoped generic parameter; `owner` keeps equal names apart. */
  datatype Parameter = Parameter(owner: string, paramName: string, index: int, constraint: Type)
  {
    function Key(): string {
      owner + "#" + Itoa(index)
    }
  }

  datatype Field = Field(fieldName: string, typ: Type)

  datatype TaggedUnionInfo = TaggedUnionInfo(tag: Type, variants: seq<Variant>, auto: bool)

  datatype Variant = Variant(variantName: string, tagValue: string, variantFields: seq<Field>)

  datatype TraitDefinition =
    TraitDefinition(traitModule: string, traitName: string, methods: seq<TraitMethod>, any: bool)

  datatype Receiver = ReceiverValue | ReceiverPointer | ReceiverMutablePointer

  datatype TraitMethod = TraitMethod(
    methodName: string, genericParameters: seq<Parameter>, receiver: Receiver,
    methodParameters: seq<Type>, methodReturn: Type, hasDefault: bool)

  /** A declared alias (sema/aliases.go), or one instance of a parameterized one. */
  datatype Alias = Alias(moduleName: string, name: string, target: Type)

  /** The declarations that references lead to, once they are resolved. */
  type AliasTable = map<nat, Alias>

  /** Generic bindings, keyed by `Parameter.Key()`. */
  type Bindings = map<string, Type>

  /** Two parameters have the same key exactly when Go's `TypeParameter.Equals` holds. */
  lemma KeyIdentifiesParameter(p: Parameter, q: Parameter)
    ensures p.Key() == q.Key() <==> p.owner == q.owner && p.index == q.index
  {
    if p.Key() == q.Key() {
      ItoaHasNo(p.index, '#');
      ItoaHasNo(q.index, '#');
      LastSeparator(p.owner, Itoa(p.index), q.owner, Itoa(q.index), '#');
      ItoaInjective(p.index, q.index);
    }
  }

  predicate HasUntyped(t: Type) {
    match t
    case UntypedInt | UntypedFloat | UnresolvedEnum => true
    case SliceType(base, _) => HasUntyped(base)
    case ArrayType(base, _) => HasUntyped(base)
    case SequenceType(base, _) => HasUntyped(base)
    case PointerType(base, _) => HasUntyped(base)
    case StructType(fields, _, _) => exists i | 0 <= i < |fields| :: HasUntyped(fields[i].typ)
    case FunctionType(parameters, returnType, _, _) =>
      (exists i | 0 <= i < |parameters| :: HasUntyped(parameters[i])) || HasUntyped(returnType)
    case MultipleReturnType(items) => exists i | 0 <= i < |items| :: HasUntyped(items[i])
    case _ => false
  }

  /** The type and what it is built from; nominal types and unions are opaque here. */
  ghost function PartsOf(t: Type): set<Type> {
    {t} + match t
          case SliceType(base, _) => PartsOf(base)
          case ArrayType(base, _) => PartsOf(base)
          case SequenceType(base, _) => PartsOf(base)
          case PointerType(base, _) => PartsOf(base)
          case StructType(fields, _, _) => set i, u | 0 <= i < |fields| && u in PartsOf(fields[i].typ) :: u
          case FunctionType(parameters, returnType, _, _) =>
            PartsOf(returnType) + (set i, u | 0 <= i < |parameters| && u in PartsOf(parameters[i]) :: u)
          case MultipleReturnType(items) => set i, u | 0 <= i < |items| && u in PartsOf(items[i]) :: u
          case _ => {}
  }

  predicate Placeholder(t: Type) {
    t.UntypedInt? || t.UntypedFloat? || t.UnresolvedEnum?
  }

  /** A type is untyped exactly when a placeholder is among its parts. */
  lemma {:induction false} UntypedExactly(t: Type)
    ensures HasUntyped(t) <==> exists u :: u in PartsOf(t) && Placeholder(u)
  {
    match t
    case SliceType(base, _) => UntypedExactly(base);
    case ArrayType(base, _) => UntypedExactly(base);
    case SequenceType(base, _) => UntypedExactly(base);
    case PointerType(base, _) => UntypedExactly(base);
    case StructType(fields, _, _) =>
      forall i | 0 <= i < |fields| { UntypedExactly(fields[i].typ); }
    case FunctionType(parameters, returnType, _, _) =>
      forall i | 0 <= i < |parameters| { UntypedExactly(parameters[i]); }
      UntypedExactly(returnType);
    case MultipleReturnType(items) =>
      forall i | 0 <= i < |items| { UntypedExactly(items[i]); }
    case _ =>
      assert PartsOf(t) == {t};
      assert t in PartsOf(t) && (HasUntyped(t) <==> Placeholder(t));
  }

  predicate HasTypeParameter(t: Type) {
    match t
    case TypeParameter(_) => true
    case DefinedType(_, _, _, _, arguments) => exists i | 0 <= i < |arguments| :: HasTypeParameter(arguments[i])
    case PointerType(base, _) => HasTypeParameter(base)
    case SliceType(base, _) => HasTypeParameter(base)
    case ArrayType(base, _) => HasTypeParameter(base)
    case StructType(fields, _, _) => exists i | 0 <= i < |fields| :: HasTypeParameter(fields[i].typ)
    case UnionType(_, _, fields) => exists i | 0 <= i < |fields| :: HasTypeParameter(fields[i].typ)
    case FunctionType(parameters, returnType, _, _) =>
      (exists i | 0 <= i < |parameters| :: HasTypeParameter(parameters[i])) || HasTypeParameter(returnType)
    case MultipleReturnType(items) => exists i | 0 <= i < |items| :: HasTypeParameter(items[i])
    case _ => false
  }
}
