/**
  `Type.Equals`, `Underlying` and `Identity` of types/type.go.

  Equality is nominal, so two equal types need not be the same value.  On the
  `Plain` types, which refer to nominal types and traits alone, it is an
  equivalence: `Canon` picks one representative of each class.
 */
module TypeEquality {
  import opened Decimal
  import opened Types

  /**
    Follows nominal types and alias targets.  `seen` holds the alias objects
    already followed: on a cycle of transparent aliases, where the Go loop would
    not end, the reference itself is the answer.
   */
  function Underlying(table: AliasTable, seen: set<nat>, t: Type): Type
    decreases table.Keys - seen, t
  {
    match t
    case DefinedType(_, _, underlying, _, _) => Underlying(table, seen, underlying)
    case AliasRef(_, _, Some(r)) =>
      if r in table && r !in seen then Underlying(table, seen + {r}, table[r].target) else t
    case _ => t
  }

  /** One step of following: to the representation of a nominal type, or to the target of a reference. */
  function NextOf(table: AliasTable, t: Type): Option<Type> {
    match t
    case DefinedType(_, _, underlying, _, _) => Some(underlying)
    case AliasRef(_, _, Some(r)) => if r in table then Some(table[r].target) else None
    case _ => None
  }

  /** `n` steps lead from `t` to `u`. */
  ghost predicate Leads(table: AliasTable, t: Type, u: Type, n: nat)
    decreases n
  {
    if n == 0 then t == u else NextOf(table, t).Some? && Leads(table, NextOf(table, t).value, u, n - 1)
  }

  lemma {:induction false} LeadsOn(table: AliasTable, t: Type, u: Type, n: nat)
    requires Leads(table, t, u, n) && NextOf(table, u).Some?
    ensures Leads(table, t, NextOf(table, u).value, n + 1)
    decreases n
  {
    if n > 0 {
      LeadsOn(table, NextOf(table, t).value, u, n - 1);
    }
  }

  /** The target of every reference that was followed leads to `t`. */
  ghost predicate AllLead(table: AliasTable, seen: set<nat>, t: Type) {
    forall r | r in seen :: r in table && exists n: nat :: Leads(table, table[r].target, t, n)
  }

  lemma AllLeadOn(table: AliasTable, seen: set<nat>, t: Type)
    requires AllLead(table, seen, t) && NextOf(table, t).Some?
    ensures AllLead(table, seen, NextOf(table, t).value)
  {
    forall r | r in seen ensures exists n: nat :: Leads(table, table[r].target, NextOf(table, t).value, n) {
      var n: nat :| Leads(table, table[r].target, t, n);
      LeadsOn(table, table[r].target, t, n);
    }
  }

  ghost predicate OnLoop(table: AliasTable, t: Type) {
    exists m: nat :: m > 0 && Leads(table, t, t, m)
  }

  /** Following ends where no step goes on, or on a cycle. */
  lemma {:induction false} UnderlyingIsEnd(table: AliasTable, seen: set<nat>, t: Type) returns (n: nat)
    requires AllLead(table, seen, t)
    ensures var u := Underlying(table, seen, t);
      && Leads(table, t, u, n)
      && (NextOf(table, u).None? || OnLoop(table, u))
    decreases table.Keys - seen, t
  {
    n := 0;
    match t
    case DefinedType(_, _, underlying, _, _) =>
      AllLeadOn(table, seen, t);
      n := UnderlyingIsEnd(table, seen, underlying);
      n := n + 1;
    case AliasRef(_, _, Some(r)) =>
      if r in table && r !in seen {
        AllLeadOn(table, seen, t);
        assert Leads(table, table[r].target, table[r].target, 0);
        assert AllLead(table, seen + {r}, table[r].target);
        n := UnderlyingIsEnd(table, seen + {r}, table[r].target);
        n := n + 1;
      } else if r in table {
        var m: nat :| Leads(table, table[r].target, t, m);
        assert Leads(table, t, t, m + 1);
      }
    case _ =>
  }

  predicate SameName(a: Type, b: Type)
    requires a.DefinedType? || a.AliasRef?
    requires b.DefinedType? || b.AliasRef?
  {
    a.moduleName == b.moduleName && a.name == b.name
  }

  predicate SameTrait(d: TraitDefinition, e: TraitDefinition) {
    d.traitModule == e.traitModule && d.traitName == e.traitName && d.any == e.any
  }

  /** Go's `u.Equals(d)` for a nominal `d`, which follows alias targets. */
  predicate EqualsNominal(table: AliasTable, chased: set<nat>, u: Type, d: Type)
    requires d.DefinedType?
    decreases table.Keys - chased
  {
    match u
    case AliasRef(_, _, reference) =>
      || SameName(u, d)
      || (reference.Some? && reference.value in table && reference.value !in chased
          && EqualsNominal(table, chased + {reference.value}, table[reference.value].target, d))
    case DefinedType(_, _, _, _, _) => SameName(u, d)
    case TraitType(definition) => UnderlyingTrait(table, definition, d)
    case _ => false
  }

  /** The representation of `t` is the trait. */
  predicate UnderlyingTrait(table: AliasTable, d: TraitDefinition, t: Type) {
    var u := Underlying(table, {}, t);
    u.TraitType? && SameTrait(d, u.definition)
  }

  /**
    Go's `a.Equals(b)`; a nil receiver, which would panic there, equals nil alone.
    `chased` holds the aliases followed since the comparison last entered `b`: on a
    cycle of aliases without any structure, where Go would not end, it is false.
   */
  predicate Equals(table: AliasTable, chased: set<nat>, a: Type, b: Type)
    decreases b, table.Keys - chased
  {
    match a
    case AliasRef(_, _, reference) =>
      || ((b.AliasRef? || b.DefinedType?) && SameName(a, b))
      || (reference.Some? && reference.value in table && reference.value !in chased
          && Equals(table, chased + {reference.value}, table[reference.value].target, b))
    case DefinedType(_, _, _, _, _) =>
      if b.DefinedType? then SameName(a, b) else b.AliasRef? && EqualsNominal(table, {}, b, a)
    case TypeParameter(p) => b.TypeParameter? && p.owner == b.parameter.owner && p.index == b.parameter.index
    case PointerType(base, mutable) => b.PointerType? && Equals(table, {}, base, b.base) && mutable == b.mutable
    case SliceType(base, mutable) => b.SliceType? && mutable == b.mutable && Equals(table, {}, base, b.base)
    case ArrayType(base, length) => b.ArrayType? && length == b.length && Equals(table, {}, base, b.base)
    case SequenceType(base, length) => b.SequenceType? && length == b.length && Equals(table, {}, base, b.base)
    case FunctionType(parameters, returnType, variadic, _) =>
      && b.FunctionType? && |parameters| == |b.parameters| && variadic == b.typedVariadic
      && (forall i | 0 <= i < |parameters| :: Equals(table, {}, parameters[i], b.parameters[i]))
      && Equals(table, {}, returnType, b.returnType)
    case MultipleReturnType(items) =>
      && b.MultipleReturnType? && |items| == |b.items|
      && forall i | 0 <= i < |items| :: Equals(table, {}, items[i], b.items[i])
    case StructType(fields, packed, _) =>
      && b.StructType? && packed == b.packed && |fields| == |b.fields|
      && forall i | 0 <= i < |fields| ::
           fields[i].fieldName == b.fields[i].fieldName && Equals(table, {}, fields[i].typ, b.fields[i].typ)
    case UnionType(moduleName, name, _) => b.UnionType? && moduleName == b.moduleName && name == b.name
    case EnumType(moduleName, name, identity, _, _) =>
      && b.EnumType?
      && if identity != "" || b.identityName != "" then identity != "" && identity == b.identityName
         else moduleName == b.moduleName && name == b.name
    case TraitType(definition) => UnderlyingTrait(table, definition, b)
    case TraitPointerType(definition, mutable) =>
      b.TraitPointerType? && mutable == b.mutable && SameTrait(definition, b.definition)
    case _ => a == b
  }

  lemma {:induction false} EqualsReflexive(table: AliasTable, chased: set<nat>, t: Type)
    ensures Equals(table, chased, t, t)
    decreases t
  {
    match t
    case PointerType(base, _) => EqualsReflexive(table, {}, base);
    case SliceType(base, _) => EqualsReflexive(table, {}, base);
    case ArrayType(base, _) => EqualsReflexive(table, {}, base);
    case SequenceType(base, _) => EqualsReflexive(table, {}, base);
    case FunctionType(parameters, returnType, _, _) =>
      forall i | 0 <= i < |parameters| { EqualsReflexive(table, {}, parameters[i]); }
      EqualsReflexive(table, {}, returnType);
    case MultipleReturnType(items) =>
      forall i | 0 <= i < |items| { EqualsReflexive(table, {}, items[i]); }
    case StructType(fields, _, _) =>
      forall i | 0 <= i < |fields| { EqualsReflexive(table, {}, fields[i].typ); }
    case _ =>
  }

  // ----- The equivalence on plain types -----

  /** The reference leads to a declaration. */
  predicate HasTarget(table: AliasTable, t: Type)
    requires t.AliasRef?
  {
    t.reference.Some? && t.reference.value in table
  }

  function Target(table: AliasTable, t: Type): Type
    requires t.AliasRef? && HasTarget(table, t)
  {
    table[t.reference.value].target
  }

  predicate Declares(alias: Alias, moduleName: string, name: string) {
    alias.moduleName == moduleName && alias.name == name
  }

  /** A declaration of this name, if there is one, makes the nominal type of this name. */
  predicate NominalName(table: AliasTable, moduleName: string, name: string) {
    forall r | r in table && Declares(table[r], moduleName, name) ::
      var u := table[r].target; u.DefinedType? && u.moduleName == moduleName && u.name == name
  }

  /** No declaration of another name leads to the nominal type of this name. */
  predicate SoleName(table: AliasTable, moduleName: string, name: string) {
    forall r | r in table && table[r].target.DefinedType? ::
      var u := table[r].target;
      u.moduleName == moduleName && u.name == name ==> Declares(table[r], moduleName, name)
  }

  /** A nominal type that is not around a trait; the compiler builds no other. */
  predicate PlainNominal(table: AliasTable, t: Type)
    requires t.DefinedType?
  {
    !Underlying(table, {}, t).TraitType? && NominalName(table, t.moduleName, t.name)
  }

  /** The reference has the name of its declaration, which no other one has. */
  predicate WellNamed(table: AliasTable, t: Type)
    requires t.AliasRef? && HasTarget(table, t)
  {
    forall r | r in table :: Declares(table[r], t.moduleName, t.name) <==> r == t.reference.value
  }

  /** A reference that leads to a nominal type or a trait, or that dangles under a name of its own. */
  predicate PlainReference(table: AliasTable, t: Type)
    requires t.AliasRef?
  {
    if HasTarget(table, t) then
      var u := Target(table, t);
      WellNamed(table, t) && (u.TraitType? || (u.DefinedType? && PlainNominal(table, u)))
    else NominalName(table, t.moduleName, t.name) && SoleName(table, t.moduleName, t.name)
  }

  /**
    At the places that equality looks at: no nil, no nominal type around a trait,
    and references to nominal types and traits alone, through transparent aliases
    too (ReferenceIsSymmetricExactly shows that the law fails on other structure).
   */
  predicate Plain(table: AliasTable, t: Type) {
    match t
    case NoType => false
    case AliasRef(_, _, _) => PlainReference(table, t)
    case DefinedType(_, _, _, _, _) => PlainNominal(table, t)
    case PointerType(base, _) => Plain(table, base)
    case SliceType(base, _) => Plain(table, base)
    case ArrayType(base, _) => Plain(table, base)
    case SequenceType(base, _) => Plain(table, base)
    case FunctionType(parameters, returnType, _, _) =>
      (forall i | 0 <= i < |parameters| :: Plain(table, parameters[i])) && Plain(table, returnType)
    case MultipleReturnType(items) => forall i | 0 <= i < |items| :: Plain(table, items[i])
    case StructType(fields, _, _) => forall i | 0 <= i < |fields| :: Plain(table, fields[i].typ)
    case _ => true
  }

  function CanonTrait(d: TraitDefinition): TraitDefinition {
    d.(methods := [])
  }

  function Named(moduleName: string, name: string): Type {
    DefinedType(moduleName, name, NoType, "", [])
  }

  function CanonReference(table: AliasTable, t: Type): Type
    requires t.AliasRef?
  {
    if !HasTarget(table, t) then Named(t.moduleName, t.name)
    else
      match Target(table, t)
      case DefinedType(moduleName, name, _, _, _) => Named(moduleName, name)
      case TraitType(definition) => TraitType(CanonTrait(definition))
      case _ => Named(t.moduleName, t.name)
  }

  /** One representative of each class of equal types. */
  function Canon(table: AliasTable, t: Type): Type {
    match t
    case TypeParameter(p) => TypeParameter(Parameter(p.owner, "", p.index, NoType))
    case DefinedType(moduleName, name, _, _, _) => Named(moduleName, name)
    case AliasRef(_, _, _) => CanonReference(table, t)
    case PointerType(base, mutable) => PointerType(Canon(table, base), mutable)
    case SliceType(base, mutable) => SliceType(Canon(table, base), mutable)
    case ArrayType(base, length) => ArrayType(Canon(table, base), length)
    case SequenceType(base, length) => SequenceType(Canon(table, base), length)
    case FunctionType(parameters, returnType, variadic, _) =>
      FunctionType(seq(|parameters|, i requires 0 <= i < |parameters| => Canon(table, parameters[i])),
                   Canon(table, returnType), variadic, NoType)
    case MultipleReturnType(items) =>
      MultipleReturnType(seq(|items|, i requires 0 <= i < |items| => Canon(table, items[i])))
    case StructType(fields, packed, _) =>
      StructType(seq(|fields|, i requires 0 <= i < |fields| => Field(fields[i].fieldName, Canon(table, fields[i].typ))),
                 packed, None)
    case UnionType(moduleName, name, _) => UnionType(moduleName, name, [])
    case EnumType(moduleName, name, identity, _, _) =>
      if identity != "" then EnumType("", "", identity, [], []) else EnumType(moduleName, name, "", [], [])
    case TraitType(definition) => TraitType(CanonTrait(definition))
    case TraitPointerType(definition, mutable) => TraitPointerType(CanonTrait(definition), mutable)
    case _ => t
  }

  predicate HasBase(t: Type) {
    t.PointerType? || t.SliceType? || t.ArrayType? || t.SequenceType?
  }

  predicate HasParts(t: Type) {
    t.FunctionType? || t.MultipleReturnType? || t.StructType?
  }

  predicate SameBaseKind(a: Type, b: Type) {
    || (a.PointerType? && b.PointerType?) || (a.SliceType? && b.SliceType?)
    || (a.ArrayType? && b.ArrayType?) || (a.SequenceType? && b.SequenceType?)
  }

  /** On plain types `Equals` is equality of canonical forms: an equivalence. */
  lemma {:induction false} EqualsIsCanon(table: AliasTable, a: Type, b: Type)
    requires Plain(table, a) && Plain(table, b)
    ensures Equals(table, {}, a, b) <==> Canon(table, a) == Canon(table, b)
    decreases a, 1
  {
    if HasBase(a) {
      BaseEqualsIsCanon(table, a, b);
    } else if a.FunctionType? {
      FunctionEqualsIsCanon(table, a, b);
    } else if a.MultipleReturnType? {
      ResultsEqualsIsCanon(table, a, b);
    } else if a.StructType? {
      StructEqualsIsCanon(table, a, b);
    } else {
      NominalEqualsIsCanon(table, a, b);
    }
  }

  lemma {:induction false} BaseEqualsIsCanon(table: AliasTable, a: Type, b: Type)
    requires Plain(table, a) && Plain(table, b) && HasBase(a)
    ensures Equals(table, {}, a, b) <==> Canon(table, a) == Canon(table, b)
    decreases a, 0
  {
    if SameBaseKind(a, b) {
      EqualsIsCanon(table, a.base, b.base);
    } else if b.AliasRef? {
      assert Canon(table, b).DefinedType? || Canon(table, b).TraitType?;
    }
  }

  lemma NominalEqualsIsCanon(table: AliasTable, a: Type, b: Type)
    requires Plain(table, a) && Plain(table, b) && !HasBase(a) && !HasParts(a)
    ensures Equals(table, {}, a, b) <==> Canon(table, a) == Canon(table, b)
  {
    if a.TraitType? {
      TraitEqualsIsCanon(table, a, b);
    } else if a.DefinedType? {
      DefinedEqualsIsCanon(table, a, b);
    } else if a.AliasRef? {
      ReferenceEqualsIsCanon(table, a, b);
    } else {
      LeafEqualsIsCanon(table, a, b);
    }
  }

  lemma LeafIsNoReference(table: AliasTable, a: Type, b: Type)
    requires Plain(table, a) && !HasBase(a) && !HasParts(a) && !a.TraitType? && !a.DefinedType? && !a.AliasRef?
    requires b.AliasRef?
    ensures !Equals(table, {}, a, b) && Canon(table, a) != Canon(table, b)
  {
    assert Canon(table, b).DefinedType? || Canon(table, b).TraitType?;
  }

  lemma LeafEqualsIsCanon(table: AliasTable, a: Type, b: Type)
    requires Plain(table, a) && !HasBase(a) && !HasParts(a) && !a.TraitType? && !a.DefinedType? && !a.AliasRef?
    ensures Equals(table, {}, a, b) <==> Canon(table, a) == Canon(table, b)
  {
    if b.AliasRef? {
      LeafIsNoReference(table, a, b);
    }
  }

  /** A trait equals itself and the references to it. */
  lemma TraitEqualsIsCanon(table: AliasTable, a: Type, b: Type)
    requires a.TraitType? && Plain(table, b)
    ensures UnderlyingTrait(table, a.definition, b) <==> Canon(table, a) == Canon(table, b)
  {
    if b.AliasRef? {
      ReferenceUnderlying(table, b);
    }
  }

  lemma ReferenceUnderlying(table: AliasTable, b: Type)
    requires b.AliasRef? && PlainReference(table, b)
    ensures
      if HasTarget(table, b) && Target(table, b).TraitType? then Underlying(table, {}, b) == Target(table, b)
      else !Underlying(table, {}, b).TraitType?
  {
    if HasTarget(table, b) {
      var r := b.reference.value;
      assert {} + {r} == {r};
      assert Underlying(table, {}, b) == Underlying(table, {r}, table[r].target);
      if Underlying(table, {r}, table[r].target).TraitType? {
        UnderlyingFewer(table, {}, {r}, table[r].target);
      }
    }
  }

  /** Where fewer references are already followed, a trait that is found stays found. */
  lemma {:induction false} UnderlyingFewer(table: AliasTable, seen: set<nat>, more: set<nat>, t: Type)
    requires seen <= more && Underlying(table, more, t).TraitType?
    ensures Underlying(table, seen, t) == Underlying(table, more, t)
    decreases table.Keys - more, t
  {
    match t
    case DefinedType(_, _, underlying, _, _) => UnderlyingFewer(table, seen, more, underlying);
    case AliasRef(_, _, Some(r)) =>
      if r in table && r !in more {
        UnderlyingFewer(table, seen + {r}, more + {r}, table[r].target);
      }
    case _ =>
  }

  /** A nominal type equals the types, and the references, of its name and to it. */
  lemma DefinedEqualsIsCanon(table: AliasTable, a: Type, b: Type)
    requires a.DefinedType? && PlainNominal(table, a) && Plain(table, b)
    ensures Equals(table, {}, a, b) <==> Canon(table, a) == Canon(table, b)
  {
    if b.AliasRef? {
      FollowsNominal(table, b, a);
    }
  }

  lemma FollowsNominal(table: AliasTable, b: Type, d: Type)
    requires d.DefinedType? && PlainNominal(table, d) && b.AliasRef? && PlainReference(table, b)
    ensures EqualsNominal(table, {}, b, d) <==> Canon(table, b) == Named(d.moduleName, d.name)
  {
    if HasTarget(table, b) {
      var r := b.reference.value;
      assert Declares(table[r], b.moduleName, b.name);
      assert EqualsNominal(table, {r}, table[r].target, d) <==>
        table[r].target.DefinedType? && SameName(table[r].target, d);
    }
  }

  lemma ReferenceEqualsIsCanon(table: AliasTable, a: Type, b: Type)
    requires a.AliasRef? && Plain(table, a) && Plain(table, b)
    ensures Equals(table, {}, a, b) <==> Canon(table, a) == Canon(table, b)
  {
    SameNameSameCanon(table, a, b);
    if HasTarget(table, a) {
      LiveReferenceIsCanon(table, a, b);
    } else {
      DanglingReferenceIsCanon(table, a, b);
    }
  }

  lemma LiveReferenceIsCanon(table: AliasTable, a: Type, b: Type)
    requires a.AliasRef? && HasTarget(table, a) && Plain(table, a) && Plain(table, b)
    requires (b.AliasRef? || b.DefinedType?) && SameName(a, b) ==> Canon(table, a) == Canon(table, b)
    ensures Equals(table, {}, a, b) <==> Canon(table, a) == Canon(table, b)
  {
    var r := a.reference.value;
    assert {} + {r} == {r};
    TargetEqualsIsCanon(table, r, b);
    TargetCanon(table, a);
  }

  lemma TargetCanon(table: AliasTable, a: Type)
    requires a.AliasRef? && HasTarget(table, a) && PlainReference(table, a)
    ensures Canon(table, Target(table, a)) == Canon(table, a)
  {
  }

  /** A reference without a target equals what has its name, and nothing else has its canonical form. */
  lemma DanglingReferenceIsCanon(table: AliasTable, a: Type, b: Type)
    requires a.AliasRef? && !HasTarget(table, a) && Plain(table, a) && Plain(table, b)
    requires (b.AliasRef? || b.DefinedType?) && SameName(a, b) ==> Canon(table, a) == Canon(table, b)
    ensures Equals(table, {}, a, b) <==> Canon(table, a) == Canon(table, b)
  {
    if b.AliasRef? && HasTarget(table, b) {
      assert Declares(table[b.reference.value], b.moduleName, b.name);
    }
  }

  /** Names identify: references and nominal types of one name are one type. */
  lemma SameNameSameCanon(table: AliasTable, a: Type, b: Type)
    requires a.AliasRef? && Plain(table, a) && Plain(table, b)
    ensures (b.AliasRef? || b.DefinedType?) && SameName(a, b) ==> Canon(table, a) == Canon(table, b)
  {
    if HasTarget(table, a) {
      assert Declares(table[a.reference.value], a.moduleName, a.name);
    }
    if b.AliasRef? && HasTarget(table, b) {
      assert Declares(table[b.reference.value], b.moduleName, b.name);
    }
  }

  lemma TargetEqualsIsCanon(table: AliasTable, r: nat, b: Type)
    requires r in table && Plain(table, b)
    requires
      var u := table[r].target;
      u.TraitType? || (u.DefinedType? && PlainNominal(table, u))
    ensures Equals(table, {r}, table[r].target, b) <==> Canon(table, table[r].target) == Canon(table, b)
  {
    var u := table[r].target;
    if u.TraitType? {
      TraitEqualsIsCanon(table, u, b);
    } else {
      DefinedEqualsIsCanon(table, u, b);
    }
  }

  lemma {:induction false} ResultsEqualsIsCanon(table: AliasTable, a: Type, b: Type)
    requires Plain(table, a) && Plain(table, b) && a.MultipleReturnType?
    ensures Equals(table, {}, a, b) <==> Canon(table, a) == Canon(table, b)
    decreases a, 0
  {
    if b.MultipleReturnType? && |a.items| == |b.items| {
      forall i | 0 <= i < |a.items|
        ensures Equals(table, {}, a.items[i], b.items[i]) <==> Canon(table, a).items[i] == Canon(table, b).items[i]
      {
        EqualsIsCanon(table, a.items[i], b.items[i]);
      }
    }
  }

  lemma {:induction false} FunctionEqualsIsCanon(table: AliasTable, a: Type, b: Type)
    requires Plain(table, a) && Plain(table, b) && a.FunctionType?
    ensures Equals(table, {}, a, b) <==> Canon(table, a) == Canon(table, b)
    decreases a, 0
  {
    if b.FunctionType? && |a.parameters| == |b.parameters| {
      forall i | 0 <= i < |a.parameters|
        ensures Equals(table, {}, a.parameters[i], b.parameters[i])
                <==> Canon(table, a).parameters[i] == Canon(table, b).parameters[i]
      {
        EqualsIsCanon(table, a.parameters[i], b.parameters[i]);
      }
      EqualsIsCanon(table, a.returnType, b.returnType);
    }
  }

  lemma {:induction false} StructEqualsIsCanon(table: AliasTable, a: Type, b: Type)
    requires Plain(table, a) && Plain(table, b) && a.StructType?
    ensures Equals(table, {}, a, b) <==> Canon(table, a) == Canon(table, b)
    decreases a, 0
  {
    if b.StructType? && |a.fields| == |b.fields| {
      forall i | 0 <= i < |a.fields|
        ensures a.fields[i].fieldName == b.fields[i].fieldName
                && Equals(table, {}, a.fields[i].typ, b.fields[i].typ)
                <==> Canon(table, a).fields[i] == Canon(table, b).fields[i]
      {
        EqualsIsCanon(table, a.fields[i].typ, b.fields[i].typ);
      }
    }
  }

  // ----- Where equality is not symmetric -----

  ghost predicate Symmetric(table: AliasTable, a: Type, b: Type) {
    Equals(table, {}, a, b) <==> Equals(table, {}, b, a)
  }

  /**
    A reference to a declaration with a plain target compares symmetrically with
    all plain types exactly when the target is a nominal type or a trait.
   */
  lemma ReferenceIsSymmetricExactly(table: AliasTable, a: Type)
    requires a.AliasRef? && HasTarget(table, a) && WellNamed(table, a)
    requires Plain(table, Target(table, a)) && !Target(table, a).AliasRef?
    ensures (forall b | Plain(table, b) :: Symmetric(table, a, b)) <==>
      Target(table, a).DefinedType? || Target(table, a).TraitType?
  {
    var u := Target(table, a);
    if u.DefinedType? || u.TraitType? {
      forall b | Plain(table, b) ensures Symmetric(table, a, b) {
        EqualsIsCanon(table, a, b);
        EqualsIsCanon(table, b, a);
      }
    } else {
      StructureIsNotSymmetric(table, a);
      assert Plain(table, u) && !Symmetric(table, a, u);
    }
  }

  /** The reference equals its target from the left alone. */
  lemma StructureIsNotSymmetric(table: AliasTable, a: Type)
    requires a.AliasRef? && HasTarget(table, a)
    requires var u := Target(table, a); !u.AliasRef? && !u.DefinedType? && !u.TraitType?
    ensures Equals(table, {}, a, Target(table, a)) && !Equals(table, {}, Target(table, a), a)
  {
    EqualsReflexive(table, {a.reference.value}, Target(table, a));
  }

  /** `alias A = *S` and `S = struct { next: A }`. */
  function RecursiveTable(): AliasTable {
    map[0 := Alias("", "A", PointerType(RecursiveStruct(), false))]
  }

  function RecursiveStruct(): Type {
    DefinedType("", "S", StructType([Field("next", AliasRef("", "A", Some(0)))], false, None), "", [])
  }

  /**
    Resolving `A` meets `A` below a pointer, so the field refers back to it: the field's type equals `*S`,
    which does not equal it.
   */
  lemma AliasEqualityIsNotSymmetric()
    ensures
      var table, a := RecursiveTable(), AliasRef("", "A", Some(0));
      var pointer := PointerType(RecursiveStruct(), false);
      Equals(table, {}, a, pointer) && !Equals(table, {}, pointer, a)
  {
    StructureIsNotSymmetric(RecursiveTable(), AliasRef("", "A", Some(0)));
  }

  /**
    A nominal type compares symmetrically with all plain types exactly when there
    is no trait under it; for a declared trait the compiler makes a trait instead.
   */
  lemma NominalIsSymmetricExactly(table: AliasTable, a: Type)
    requires a.DefinedType? && NominalName(table, a.moduleName, a.name)
    ensures (forall b | Plain(table, b) :: Symmetric(table, a, b)) <==> !Underlying(table, {}, a).TraitType?
  {
    var u := Underlying(table, {}, a);
    if u.TraitType? {
      assert Plain(table, u) && UnderlyingTrait(table, u.definition, a);
      assert !Symmetric(table, a, u);
    } else {
      forall b | Plain(table, b) ensures Symmetric(table, a, b) {
        EqualsIsCanon(table, a, b);
        EqualsIsCanon(table, b, a);
      }
    }
  }

  /** `alias A = *A`, unfolded so often. */
  function Unfolded(n: nat): Type {
    if n == 0 then AliasRef("", "A", Some(0)) else PointerType(Unfolded(n - 1), false)
  }

  function PointerTable(): AliasTable {
    map[0 := Alias("", "A", Unfolded(1))]
  }

  /** The alias equals each of its unfoldings. */
  lemma {:induction false} UnfoldingIsEqual(n: nat)
    ensures Equals(PointerTable(), {}, Unfolded(0), Unfolded(n))
  {
    if n > 0 {
      UnfoldingIsEqual(n - 1);
      assert Equals(PointerTable(), {0}, Unfolded(1), Unfolded(n));
    }
  }

  // ----- Identity -----

  function PrimitiveName(p: Primitive): string {
    match p
    case I8 => "i8" case I16 => "i16" case I32 => "i32" case I64 => "i64"
    case U8 => "u8" case U16 => "u16" case U32 => "u32" case U64 => "u64"
    case F32 => "f32" case F64 => "f64" case Isz => "isz" case Usz => "usz"
    case Void => "void" case Bool => "bool"
  }

  function Qualified(moduleName: string, name: string): string {
    if moduleName == "" then name else moduleName + "." + name
  }

  function TraitText(d: TraitDefinition): string {
    if d.any then "Any" else Qualified(d.traitModule, d.traitName)
  }

  function MutText(mutable: bool): string {
    if mutable then "mut:" else ""
  }

  function Join(parts: seq<string>): string {
    if |parts| == 0 then "" else if |parts| == 1 then parts[0] else parts[0] + "," + Join(parts[1..])
  }

  /** The declaration-sensitive text used as cache and specialization key. */
  function Identity(t: Type): string {
    match t
    case NoType => "<nil>"
    case SelfType => "trait-self"
    case TypeParameter(p) => "param(" + p.Key() + ")"
    case DefinedType(moduleName, name, _, genericName, arguments) =>
      if genericName != "" then
        "defined(" + moduleName + ":" + genericName + "<"
        + Join(seq(|arguments|, i requires 0 <= i < |arguments| => Identity(arguments[i]))) + ">)"
      else "defined(" + moduleName + ":" + name + ")"
    case AliasRef(moduleName, name, _) => "alias(" + moduleName + ":" + name + ")"
    case PointerType(base, mutable) => "ptr(" + MutText(mutable) + Identity(base) + ")"
    case SliceType(base, mutable) => "slice(" + MutText(mutable) + Identity(base) + ")"
    case ArrayType(base, length) => "array(" + Itoa(length) + ":" + Identity(base) + ")"
    case FunctionType(parameters, returnType, _, _) =>
      "fn(" + Join(seq(|parameters|, i requires 0 <= i < |parameters| => Identity(parameters[i])))
      + ")->" + Identity(returnType)
    case MultipleReturnType(items) =>
      "multi(" + Join(seq(|items|, i requires 0 <= i < |items| => Identity(items[i]))) + ")"
    case PrimitiveType(p) => "primitive(" + PrimitiveName(p) + ")"
    case StructType(fields, packed, _) =>
      "struct(" + (if packed then "packed:" else "")
      + Join(seq(|fields|, i requires 0 <= i < |fields| => fields[i].fieldName + ":" + Identity(fields[i].typ)))
      + ")"
    case UnionType(moduleName, name, _) => "union(" + moduleName + ":" + name + ")"
    case EnumType(moduleName, name, identity, _, _) =>
      if identity != "" then "enum(" + identity + ")" else "enum(" + moduleName + ":" + name + ")"
    case FlagsType(underlying, _, _) => "flags(flags(" + PrimitiveName(underlying) + "))"
    case TraitType(definition) => "trait(" + TraitText(definition) + ")"
    case TraitPointerType(definition, mutable) =>
      "dyn(" + MutText(mutable) + "trait(" + TraitText(definition) + "))"
    case SequenceType(_, _) => "<array or slice literal>"
    case OpaqueType => "opaque"
    case ErrorType => "<error>"
    case UntypedInt => "<untyped int>"
    case UntypedFloat => "<untyped float>"
    case UnresolvedEnum => "<unresolved enum>"
    case NoInitializerType => "<no initializer>"
  }
}
