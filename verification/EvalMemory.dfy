/**
  The memory of the compile-time evaluator (ir/eval.go): values are aggregate
  trees, a pointer is a cell and a path into its tree.

  Floating-point numbers are bit patterns.  Cells own their trees: the model has
  no aggregate that two values share.
 */
module EvalMemory {
  import opened Types
  import opened TypeEquality
  import opened Completeness

  datatype EvalValue = EvalValue(
    typ: Type, integer: Option<int>, float: Option<nat>, boolean: bool, aggregate: seq<EvalValue>,
    pointer: Option<EvalPointer>)

  datatype EvalPath = EvalPath(index: int, typ: Type, union: bool)

  datatype EvalPointer = EvalPointer(root: nat, path: seq<EvalPath>)

  /** Conversions between the bit patterns of 64-bit and 32-bit floats. */
  datatype Floats = Floats(narrow: nat -> nat, widen: nat -> nat)

  const TWO32: nat := 0x1_0000_0000
  const TWO64: nat := 0x1_0000_0000_0000_0000

  // ----- Values -----

  function EvalInteger(value: int, t: Type): EvalValue {
    EvalValue(t, Some(value), None, false, [], None)
  }

  function EvalFloat(bits: nat, t: Type): EvalValue {
    EvalValue(t, None, Some(bits), false, [], None)
  }

  function EvalBool(value: bool): EvalValue {
    EvalValue(PrimitiveType(Bool), None, None, value, [], None)
  }

  function Aggregate(t: Type, parts: seq<EvalValue>): EvalValue {
    EvalValue(t, None, None, false, parts, None)
  }

  predicate IsFloat(t: Type) {
    t == PrimitiveType(F32) || t == PrimitiveType(F64) || t.UntypedFloat?
  }

  predicate IsInteger(t: Type) {
    t.UntypedInt? || (t.PrimitiveType? && !IsFloat(t) && t.primitive != Void && t.primitive != Bool)
  }

  /** The types of the parts that a zero value of `t` is built from. */
  function Parts(table: AliasTable, t: Type): seq<Type> {
    match Underlying(table, {}, t)
    case StructType(fields, _, _) => FieldTypes(fields)
    case MultipleReturnType(items) => items
    case _ => []
  }

  function FieldTypes(fields: seq<Field>): (ts: seq<Type>)
    ensures |ts| == |fields| && forall i | 0 <= i < |fields| :: ts[i] == fields[i].typ
  {
    seq(|fields|, i requires 0 <= i < |fields| => fields[i].typ)
  }

  predicate HasParts(table: AliasTable, t: Type) {
    var u := Underlying(table, {}, t);
    u.StructType? || u.MultipleReturnType?
  }

  /** The unfolding of structs and multiple results has height at most `n`. */
  ghost predicate Bounded(table: AliasTable, t: Type, n: nat)
    decreases n, 1
  {
    AllBounded(table, Parts(table, t), n)
  }

  ghost predicate AllBounded(table: AliasTable, ts: seq<Type>, n: nat)
    decreases n, 0
  {
    ts == [] || (n > 0 && forall i | 0 <= i < |ts| :: Bounded(table, ts[i], n - 1))
  }

  ghost function ZeroValue(table: AliasTable, t: Type, n: nat): EvalValue
    requires Bounded(table, t, n)
    decreases n, 1
  {
    var u := Underlying(table, {}, t);
    if u == PrimitiveType(Bool) then EvalBool(false)
    else if IsFloat(u) then EvalFloat(0, t)
    else if HasParts(table, t) then
      Aggregate(t, ZeroValues(table, Parts(table, t), n))
    else if u.UnionType? then Aggregate(t, [EvalInteger(0, PrimitiveType(U64))])
    else EvalInteger(0, t)
  }

  ghost function ZeroValues(table: AliasTable, ts: seq<Type>, n: nat): (vs: seq<EvalValue>)
    requires AllBounded(table, ts, n)
    ensures |vs| == |ts|
    decreases n, 0, |ts|
  {
    if ts == [] then [] else ZeroValues(table, ts[..|ts| - 1], n) + [ZeroValue(table, ts[|ts| - 1], n - 1)]
  }

  lemma {:induction false} ZeroValuesAt(table: AliasTable, ts: seq<Type>, n: nat, i: nat)
    requires AllBounded(table, ts, n) && i < |ts|
    ensures ZeroValues(table, ts, n)[i] == ZeroValue(table, ts[i], n - 1)
  {
    if i < |ts| - 1 {
      ZeroValuesAt(table, ts[..|ts| - 1], n, i);
    }
  }

  lemma ZeroValuesNext(table: AliasTable, ts: seq<Type>, n: nat, i: nat)
    requires AllBounded(table, ts, n) && i < |ts|
    ensures AllBounded(table, ts[..i], n) && AllBounded(table, ts[..i + 1], n) && n > 0
    ensures Bounded(table, ts[i], n - 1)
    ensures ZeroValues(table, ts[..i + 1], n) == ZeroValues(table, ts[..i], n) + [ZeroValue(table, ts[i], n - 1)]
  {
    assert ts[..i + 1][..i] == ts[..i];
  }

  /** The loop over the fields or items. */
  method ZeroParts(table: AliasTable, ts: seq<Type>, ghost n: nat) returns (vs: seq<EvalValue>)
    requires AllBounded(table, ts, n)
    ensures vs == ZeroValues(table, ts, n)
    decreases n, 0
  {
    vs := [];
    for i := 0 to |ts|
      invariant AllBounded(table, ts[..i], n) && vs == ZeroValues(table, ts[..i], n)
    {
      var v := ZeroEvalValue(table, ts[i], n - 1);
      ZeroValuesNext(table, ts, n, i);
      vs := vs + [v];
    }
    assert ts[..|ts|] == ts;
  }

  method ZeroEvalValue(table: AliasTable, t: Type, ghost n: nat) returns (value: EvalValue)
    requires Bounded(table, t, n)
    ensures value == ZeroValue(table, t, n)
    decreases n, 1
  {
    var u := Underlying(table, {}, t);
    if u == PrimitiveType(Bool) {
      return EvalBool(false);
    }
    if IsFloat(u) {
      return EvalFloat(0, t);
    }
    if HasParts(table, t) {
      var parts := ZeroParts(table, Parts(table, t), n);
      return Aggregate(t, parts);
    }
    if u.UnionType? {
      return Aggregate(t, [EvalInteger(0, PrimitiveType(U64))]);
    }
    return EvalInteger(0, t);
  }

  // ----- Paths -----

  /** The position of the first field with a name. */
  function FieldIndex(fields: seq<Field>, name: string): (r: Option<nat>)
    ensures r.Some? ==> r.value < |fields| && fields[r.value].fieldName == name
    ensures forall i | 0 <= i < (if r.Some? then r.value else |fields|) :: fields[i].fieldName != name
  {
    if fields == [] then None
    else if fields[0].fieldName == name then Some(0)
    else
      var r := FieldIndex(fields[1..], name);
      if r.Some? then Some(r.value + 1) else None
  }

  function FieldStep(table: AliasTable, pointerType: Type, name: string): Option<EvalPath> {
    var p := Underlying(table, {}, pointerType);
    if !p.PointerType? then None
    else
      match Underlying(table, {}, p.base)
      case StructType(fields, _, _) =>
        var i := FieldIndex(fields, name);
        if i.Some? then Some(EvalPath(i.value, fields[i.value].typ, false)) else None
      case UnionType(_, _, fields) =>
        var i := FieldIndex(fields, name);
        if i.Some? then Some(EvalPath(0, fields[i.value].typ, true)) else None
      case _ => None
  }

  /** A step finds the first field of the name, in a struct at its position, and in a union at its only one. */
  lemma FieldStepFinds(table: AliasTable, pointerType: Type, name: string)
    ensures
      var p := Underlying(table, {}, pointerType);
      var u := if p.PointerType? then Underlying(table, {}, p.base) else OpaqueType;
      var step := FieldStep(table, pointerType, name);
      if u.StructType? || u.UnionType? then
        && (step.Some? <==> exists i | 0 <= i < |u.fields| :: u.fields[i].fieldName == name)
        && (step.Some? ==> exists i: nat ::
              && i < |u.fields| && u.fields[i].fieldName == name && step.value.typ == u.fields[i].typ
              && (forall j | 0 <= j < i :: u.fields[j].fieldName != name)
              && step.value.union == u.UnionType? && step.value.index == (if u.UnionType? then 0 else i))
      else step.None?
  {
  }

  method FindField(fields: seq<Field>, name: string) returns (r: Option<nat>)
    ensures r == FieldIndex(fields, name)
  {
    for i := 0 to |fields|
      invariant FieldIndex(fields, name) == Shifted(FieldIndex(fields[i..], name), i)
    {
      if fields[i].fieldName == name {
        return Some(i);
      }
      assert fields[i..][1..] == fields[i + 1..];
    }
    return None;
  }

  function Shifted(r: Option<nat>, n: nat): Option<nat> {
    if r.Some? then Some(r.value + n) else None
  }

  method EvalFieldPath(table: AliasTable, pointerType: Type, name: string) returns (step: Option<EvalPath>)
    ensures step == FieldStep(table, pointerType, name)
  {
    var p := Underlying(table, {}, pointerType);
    if !p.PointerType? {
      return None;
    }
    match Underlying(table, {}, p.base) {
      case StructType(fields, _, _) =>
        var i := FindField(fields, name);
        step := if i.Some? then Some(EvalPath(i.value, fields[i.value].typ, false)) else None;
      case UnionType(_, _, fields) =>
        var i := FindField(fields, name);
        step := if i.Some? then Some(EvalPath(0, fields[i.value].typ, true)) else None;
      case _ => step := None;
    }
  }

  // ----- Reading and writing a tree -----

  /** `big.Int.Uint64` (Go's math/big): the low 64 bits of the magnitude; the sign is dropped. */
  function LowBits(n: int): (bits: nat)
    ensures bits < TWO64
    ensures bits == n <==> 0 <= n < TWO64
  {
    (if n < 0 then -n else n) % TWO64
  }

  /** reinterpretEvalValue: the bits of a number under another type. */
  function Reinterpret(table: AliasTable, floats: Floats, value: EvalValue, target: Type): EvalValue {
    var u := Underlying(table, {}, target);
    if value.float.Some? && IsInteger(u) then
      EvalInteger(
        if u == PrimitiveType(U32) || u == PrimitiveType(I32) then floats.narrow(value.float.value)
        else value.float.value, target)
    else if value.integer.Some? && IsFloat(u) then
      var bits := LowBits(value.integer.value);
      EvalFloat(if u == PrimitiveType(F32) then floats.widen(bits % TWO32) else bits, target)
    else value.(typ := target)
  }

  /** A union step ends the walk, whatever follows it in the path. */
  function LoadAt(table: AliasTable, floats: Floats, value: EvalValue, path: seq<EvalPath>): Option<EvalValue>
    decreases |path|
  {
    if path == [] then Some(value)
    else if path[0].union then
      if value.aggregate == [] then None else Some(Reinterpret(table, floats, value.aggregate[0], path[0].typ))
    else if 0 <= path[0].index < |value.aggregate| then
      LoadAt(table, floats, value.aggregate[path[0].index], path[1..])
    else None
  }

  function StoreAt(target: EvalValue, path: seq<EvalPath>, value: EvalValue): Option<EvalValue>
    decreases |path|
  {
    if path == [] then Some(value)
    else if path[0].union then
      Some(target.(aggregate := if target.aggregate == [] then [value] else target.aggregate[0 := value]))
    else if 0 <= path[0].index < |target.aggregate| then
      var part := StoreAt(target.aggregate[path[0].index], path[1..], value);
      if part.Some? then Some(target.(aggregate := target.aggregate[path[0].index := part.value])) else None
    else None
  }

  // ----- The memory -----

  class Memory {
    const table: AliasTable
    const floats: Floats
    /** The values that pointers reach, numbered in the order of their allocation. */
    var cells: map<nat, EvalValue>
    var next: nat
    /** The cell that each slot of the running frame denotes. */
    var slots: map<nat, nat>
    ghost var types: map<nat, Type>

    constructor (table: AliasTable, floats: Floats)
      ensures this.table == table && this.floats == floats && Valid()
      ensures cells == map[] && slots == map[] && types == map[]
    {
      this.table, this.floats := table, floats;
      cells, next, slots, types := map[], 0, map[], map[];
    }

    /** Every cell has the shape of its type, and every slot denotes a cell. */
    ghost predicate Valid()
      reads this
    {
      && types.Keys == cells.Keys
      && (forall c | c in cells :: c < next && HasShape(table, types[c], cells[c]))
      && (forall slot | slot in slots :: slots[slot] in cells)
    }

    /** The pointer was made by field addresses from a cell, and leads to a `t`. */
    ghost predicate PointsTo(p: EvalPointer, t: Type)
      reads this
    {
      p.root in types && TypedPath(table, types[p.root], p.path, t)
    }

    /** The slot gets a new cell; pointers to the one it had keep reading that one. */
    method Alloca(slot: nat, t: Type, ghost n: nat)
      requires Valid() && Bounded(table, t, n)
      modifies this
      ensures Valid() && slot in slots && slots == old(slots)[slot := slots[slot]]
      ensures slots[slot] !in old(cells) && types == old(types)[slots[slot] := t]
      ensures cells == old(cells)[slots[slot] := ZeroValue(table, t, n)]
    {
      var zero := ZeroEvalValue(table, t, n);
      ZeroHasShape(table, t, n);
      cells, types, slots := cells[next := zero], types[next := t], slots[slot := next];
      next := next + 1;
    }

    method AddressOf(slot: nat) returns (p: Option<EvalPointer>)
      ensures p == if slot in slots then Some(EvalPointer(slots[slot], [])) else None
      ensures Valid() && p.Some? ==> PointsTo(p.value, types[slots[slot]])
    {
      p := if slot in slots then Some(EvalPointer(slots[slot], [])) else None;
    }

    /** `pointerType` is the static type of the base. */
    method FieldAddress(base: EvalPointer, pointerType: Type, name: string) returns (p: Option<EvalPointer>)
      ensures var step := FieldStep(table, pointerType, name);
        p == if step.Some? then Some(EvalPointer(base.root, base.path + [step.value])) else None
      ensures p.Some? && PointsTo(base, Underlying(table, {}, pointerType).base) ==>
        PointsTo(p.value, FieldStep(table, pointerType, name).value.typ)
    {
      var step := EvalFieldPath(table, pointerType, name);
      p := if step.Some? then Some(EvalPointer(base.root, base.path + [step.value])) else None;
      if step.Some? && PointsTo(base, Underlying(table, {}, pointerType).base) {
        TypedPathExtends(table, types[base.root], base.path, pointerType, name);
      }
    }

    /** The loop over the path. */
    method LoadPtr(p: EvalPointer) returns (r: Option<EvalValue>)
      ensures p.root in cells ==> r == LoadAt(table, floats, cells[p.root], p.path)
      ensures p.root !in cells ==> r == None
      ensures Valid() && (exists t :: PointsTo(p, t)) ==> r.Some?
    {
      if p.root !in cells {
        return None;
      }
      if Valid() && exists t :: PointsTo(p, t) {
        ghost var t :| PointsTo(p, t);
        TypedPathIsInRange(table, floats, types[p.root], p.path, t, cells[p.root]);
      }
      var value := cells[p.root];
      for i := 0 to |p.path|
        invariant LoadAt(table, floats, cells[p.root], p.path) == LoadAt(table, floats, value, p.path[i..])
      {
        var step := p.path[i];
        assert p.path[i..][1..] == p.path[i + 1..];
        if step.union {
          return if value.aggregate == [] then None else Some(Reinterpret(table, floats, value.aggregate[0], step.typ));
        }
        if step.index < 0 || step.index >= |value.aggregate| {
          return None;
        }
        value := value.aggregate[step.index];
      }
      return Some(value);
    }

    /** A store that fails changes nothing. */
    method StorePtr(p: EvalPointer, value: EvalValue) returns (ok: bool)
      modifies `cells
      ensures ok <==> p.root in old(cells) && StoreAt(old(cells)[p.root], p.path, value).Some?
      ensures cells == if ok then old(cells)[p.root := StoreAt(old(cells)[p.root], p.path, value).value] else old(cells)
      ensures old(Valid()) && (exists t :: PointsTo(p, t) && HasShape(table, t, value)) ==> ok && Valid()
    {
      ok := false;
      if p.root in cells {
        if Valid() && exists t :: PointsTo(p, t) && HasShape(table, t, value) {
          ghost var t :| PointsTo(p, t) && HasShape(table, t, value);
          StoreKeepsShape(table, types[p.root], p.path, t, cells[p.root], value);
        }
        var updated := StoreAt(cells[p.root], p.path, value);
        if updated.Some? {
          cells := cells[p.root := updated.value];
          ok := true;
        }
      }
    }
  }

  // ----- Shapes -----

  /** The aggregates of a value are those of its type. */
  ghost predicate HasShape(table: AliasTable, t: Type, v: EvalValue)
    decreases v
  {
    && (HasParts(table, t) ==>
          |v.aggregate| == |Parts(table, t)| &&
          forall i | 0 <= i < |v.aggregate| :: HasShape(table, Parts(table, t)[i], v.aggregate[i]))
    && (Underlying(table, {}, t).UnionType? ==> |v.aggregate| == 1)
  }

  /** The path is a chain of fields from a `t` to a `u`. */
  ghost predicate TypedPath(table: AliasTable, t: Type, path: seq<EvalPath>, u: Type)
    decreases |path|
  {
    if path == [] then Underlying(table, {}, t) == Underlying(table, {}, u)
    else
      && (exists name :: FieldStep(table, PointerType(t, true), name) == Some(path[0]))
      && TypedPath(table, path[0].typ, path[1..], u)
  }

  lemma {:induction false} TypedPathExtends(table: AliasTable, t: Type, path: seq<EvalPath>, pointerType: Type,
                                            name: string)
    requires FieldStep(table, pointerType, name).Some?
    requires TypedPath(table, t, path, Underlying(table, {}, pointerType).base)
    ensures var step := FieldStep(table, pointerType, name).value; TypedPath(table, t, path + [step], step.typ)
    decreases |path|
  {
    var step := FieldStep(table, pointerType, name).value;
    if path == [] {
      assert FieldStep(table, PointerType(t, true), name) == Some(step);
      assert [] + [step] == [step] && [step][1..] == [];
    } else {
      assert (path + [step])[1..] == path[1..] + [step];
      TypedPathExtends(table, path[0].typ, path[1..], pointerType, name);
    }
  }

  lemma {:induction false} ZeroHasShape(table: AliasTable, t: Type, n: nat)
    requires Bounded(table, t, n)
    ensures HasShape(table, t, ZeroValue(table, t, n))
    decreases n
  {
    var parts := Parts(table, t);
    if parts != [] {
      forall i | 0 <= i < |parts| ensures HasShape(table, parts[i], ZeroValues(table, parts, n)[i]) {
        ZeroHasShape(table, parts[i], n - 1);
        ZeroValuesAt(table, parts, n, i);
      }
    }
  }

  /** What a zero is, by the representation of its type. */
  ghost predicate IsZero(u: Type, v: EvalValue) {
    match u
    case PrimitiveType(Bool) => v == EvalBool(false)
    case PrimitiveType(F32) | PrimitiveType(F64) | UntypedFloat => v == EvalFloat(0, v.typ)
    case StructType(fields, _, _) => v == Aggregate(v.typ, v.aggregate) && |v.aggregate| == |fields|
    case MultipleReturnType(items) => v == Aggregate(v.typ, v.aggregate) && |v.aggregate| == |items|
    case UnionType(_, _, _) => v == Aggregate(v.typ, [EvalInteger(0, PrimitiveType(U64))])
    case _ => v == EvalInteger(0, v.typ)
  }

  /** What a load from a zero value gives: a zero, or in a union the bits of 0. */
  ghost predicate ReadsZero(
    table: AliasTable, floats: Floats, path: seq<EvalPath>, u: Type, r: Option<EvalValue>)
  {
    match Ending(path)
    case None => r.Some? && IsZero(Underlying(table, {}, u), r.value)
    case Some(w) => r == Some(Reinterpret(table, floats, EvalInteger(0, PrimitiveType(U64)), w))
  }

  /** So every chain of fields reads from a zero value. */
  lemma {:induction false} ZeroReadsAsZero(
    table: AliasTable, floats: Floats, t: Type, n: nat, path: seq<EvalPath>, u: Type)
    requires Bounded(table, t, n) && TypedPath(table, t, path, u)
    ensures ReadsZero(table, floats, path, u, LoadAt(table, floats, ZeroValue(table, t, n), path))
    decreases |path|
  {
    var v := ZeroValue(table, t, n);
    if path == [] {
      ZeroIsZero(table, t, n);
    } else {
      StepEnters(table, t, path[0]);
      if path[0].union {
        ZeroUnion(table, t, n);
      } else {
        ZeroPart(table, t, n, path[0].index);
        ZeroReadsAsZero(table, floats, path[0].typ, n - 1, path[1..], u);
        assert LoadAt(table, floats, v, path) == LoadAt(table, floats, v.aggregate[path[0].index], path[1..]);
      }
    }
  }

  lemma ZeroUnion(table: AliasTable, t: Type, n: nat)
    requires Bounded(table, t, n) && Underlying(table, {}, t).UnionType?
    ensures ZeroValue(table, t, n).aggregate == [EvalInteger(0, PrimitiveType(U64))]
  {
  }

  lemma ZeroPart(table: AliasTable, t: Type, n: nat, i: nat)
    requires Bounded(table, t, n) && Underlying(table, {}, t).StructType? && i < |Parts(table, t)|
    ensures n > 0 && Bounded(table, Parts(table, t)[i], n - 1)
    ensures i < |ZeroValue(table, t, n).aggregate|
    ensures ZeroValue(table, t, n).aggregate[i] == ZeroValue(table, Parts(table, t)[i], n - 1)
  {
    ZeroValuesAt(table, Parts(table, t), n, i);
  }

  lemma ZeroIsZero(table: AliasTable, t: Type, n: nat)
    requires Bounded(table, t, n)
    ensures IsZero(Underlying(table, {}, t), ZeroValue(table, t, n))
  {
  }

  /** A step leads to a part of a struct, or into a union. */
  lemma StepEnters(table: AliasTable, t: Type, step: EvalPath)
    requires exists name :: FieldStep(table, PointerType(t, true), name) == Some(step)
    ensures
      if step.union then Underlying(table, {}, t).UnionType?
      else
        && Underlying(table, {}, t).StructType? && 0 <= step.index < |Parts(table, t)|
        && Parts(table, t)[step.index] == step.typ
  {
  }

  /** The bits of 0 are 0, and false stays false. */
  lemma ZeroBits(table: AliasTable, floats: Floats, w: Type)
    ensures
      var r, u := Reinterpret(table, floats, EvalInteger(0, PrimitiveType(U64)), w), Underlying(table, {}, w);
      && (IsFloat(u) ==> r == EvalFloat(if u == PrimitiveType(F32) then floats.widen(0) else 0, w))
      && (!IsFloat(u) ==> r == EvalInteger(0, w))
  {
  }

  /** A chain of fields never leaves the aggregates of a value of its type. */
  lemma {:induction false} TypedPathIsInRange(
    table: AliasTable, floats: Floats, t: Type, path: seq<EvalPath>, u: Type, v: EvalValue)
    requires TypedPath(table, t, path, u) && HasShape(table, t, v)
    ensures LoadAt(table, floats, v, path).Some?
    ensures (forall i | 0 <= i < |path| :: !path[i].union) ==> HasShape(table, u, LoadAt(table, floats, v, path).value)
    decreases |path|
  {
    if path == [] {
      SameUnderlyingShape(table, t, u, v);
    } else if !path[0].union {
      TypedPathIsInRange(table, floats, path[0].typ, path[1..], u, v.aggregate[path[0].index]);
      if forall i | 0 <= i < |path| :: !path[i].union {
        assert forall i | 0 <= i < |path[1..]| :: path[1..][i] == path[i + 1];
      }
    }
  }

  lemma SameUnderlyingShape(table: AliasTable, t: Type, u: Type, v: EvalValue)
    requires Underlying(table, {}, t) == Underlying(table, {}, u) && HasShape(table, t, v)
    ensures HasShape(table, u, v)
  {
  }

  /** Storing a value of the field's shape succeeds and keeps the shape of the whole. */
  lemma {:induction false} StoreKeepsShape(table: AliasTable, t: Type, path: seq<EvalPath>, u: Type, v: EvalValue,
                                           value: EvalValue)
    requires TypedPath(table, t, path, u) && HasShape(table, t, v) && HasShape(table, u, value)
    ensures StoreAt(v, path, value).Some? && HasShape(table, t, StoreAt(v, path, value).value)
    decreases |path|
  {
    if path == [] {
      SameUnderlyingShape(table, u, t, value);
    } else if !path[0].union {
      StoreKeepsShape(table, path[0].typ, path[1..], u, v.aggregate[path[0].index], value);
    }
  }

  // ----- What a store changes -----

  /** The positions that a path visits: it stops at its first union. */
  function Cells(path: seq<EvalPath>): seq<int> {
    if path == [] then []
    else if path[0].union then [0]
    else [path[0].index] + Cells(path[1..])
  }

  /** The union step that ends the walk, if there is one. */
  function Ending(path: seq<EvalPath>): Option<Type> {
    if path == [] then None
    else if path[0].union then Some(path[0].typ)
    else Ending(path[1..])
  }

  /** After a store, a load at the same path gives the value, reinterpreted if the path ends in a union. */
  lemma {:induction false} LoadAfterStore(
    table: AliasTable, floats: Floats, target: EvalValue, path: seq<EvalPath>, value: EvalValue)
    requires StoreAt(target, path, value).Some?
    ensures LoadAt(table, floats, StoreAt(target, path, value).value, path) ==
      Some(match Ending(path)
           case None => value
           case Some(t) => Reinterpret(table, floats, value, t))
    decreases |path|
  {
    if path != [] && !path[0].union {
      LoadAfterStore(table, floats, target.aggregate[path[0].index], path[1..], value);
    }
  }

  /** Neither path visits the place where the other one ends. */
  predicate Apart(a: seq<int>, b: seq<int>) {
    !(a <= b) && !(b <= a)
  }

  lemma {:induction false} StoreLeavesApart(
    table: AliasTable, floats: Floats, target: EvalValue, path: seq<EvalPath>, other: seq<EvalPath>, value: EvalValue)
    requires StoreAt(target, path, value).Some? && LoadAt(table, floats, target, other).Some?
    requires Apart(Cells(path), Cells(other))
    ensures LoadAt(table, floats, StoreAt(target, path, value).value, other) == LoadAt(table, floats, target, other)
    decreases |path|
  {
    if !path[0].union && !other[0].union && path[0].index == other[0].index {
      ApartTails(path[0].index, Cells(path[1..]), Cells(other[1..]));
      StoreLeavesApart(table, floats, target.aggregate[path[0].index], path[1..], other[1..], value);
    }
  }

  lemma ApartTails(x: int, a: seq<int>, b: seq<int>)
    requires Apart([x] + a, [x] + b)
    ensures Apart(a, b)
  {
    assert a <= b ==> [x] + a <= [x] + b;
    assert b <= a ==> [x] + b <= [x] + a;
  }

  /** As far as the paths go together, they agree on where a union is. */
  predicate Aligned(path: seq<EvalPath>, other: seq<EvalPath>)
    decreases |path|
  {
    path == [] || other == [] ||
    (path[0].union == other[0].union &&
     (!path[0].union && path[0].index == other[0].index ==> Aligned(path[1..], other[1..])))
  }

  /** Chains of fields from one type are aligned. */
  lemma {:induction false} TypedPathsAlign(
    table: AliasTable, t: Type, path: seq<EvalPath>, u: Type, other: seq<EvalPath>, w: Type)
    requires TypedPath(table, t, path, u) && TypedPath(table, t, other, w)
    ensures Aligned(path, other)
    decreases |path|
  {
    if path != [] && other != [] && !path[0].union && !other[0].union && path[0].index == other[0].index {
      TypedPathsAlign(table, path[0].typ, path[1..], u, other[1..], w);
    }
  }

  lemma {:induction false} StoreInRange(target: EvalValue, path: seq<EvalPath>, value: EvalValue, other: EvalValue)
    requires StoreAt(target, path, value).Some?
    ensures StoreAt(target, path, other).Some?
    decreases |path|
  {
    if path != [] && !path[0].union {
      StoreInRange(target.aggregate[path[0].index], path[1..], value, other);
    }
  }

  lemma SameHead(x: int, a: seq<int>, y: int, b: seq<int>)
    requires !Apart([x] + a, [y] + b)
    ensures x == y && !Apart(a, b)
  {
    var s, t := [x] + a, [y] + b;
    assert s[0] == x && t[0] == y && s[1..] == a && t[1..] == b;
    if s <= t {
      assert t[..|s|] == s;
      assert b[..|a|] == t[1..|s|] == a;
    } else {
      assert s[..|t|] == t;
      assert a[..|b|] == s[1..|t|] == b;
    }
  }

  lemma {:induction false} StoreIsInjective(target: EvalValue, path: seq<EvalPath>, value: EvalValue, other: EvalValue)
    requires StoreAt(target, path, value).Some? && StoreAt(target, path, value) == StoreAt(target, path, other)
    ensures value == other
    decreases |path|
  {
    if path != [] {
      var stored, again := StoreAt(target, path, value).value, StoreAt(target, path, other).value;
      assert stored.aggregate == again.aggregate;
      if path[0].union {
        assert stored.aggregate[0] == value && again.aggregate[0] == other;
      } else {
        var i := path[0].index;
        assert stored.aggregate[i] == StoreAt(target.aggregate[i], path[1..], value).value;
        StoreIsInjective(target.aggregate[i], path[1..], value, other);
      }
    }
  }

  /** The load after storing one of two truth values tells them apart, or fails. */
  ghost predicate TellsApart(
    table: AliasTable, floats: Floats, target: EvalValue, path: seq<EvalPath>, other: seq<EvalPath>)
    requires StoreAt(target, path, EvalBool(true)).Some? && StoreAt(target, path, EvalBool(false)).Some?
  {
    var yes := LoadAt(table, floats, StoreAt(target, path, EvalBool(true)).value, other);
    var no := LoadAt(table, floats, StoreAt(target, path, EvalBool(false)).value, other);
    yes != no || yes.None?
  }

  lemma {:induction false} StoreTellsApart(
    table: AliasTable, floats: Floats, target: EvalValue, path: seq<EvalPath>, other: seq<EvalPath>)
    requires StoreAt(target, path, EvalBool(true)).Some? && StoreAt(target, path, EvalBool(false)).Some?
    requires LoadAt(table, floats, target, other).Some?
    requires Aligned(path, other) && !Apart(Cells(path), Cells(other))
    ensures TellsApart(table, floats, target, path, other)
    decreases |path|
  {
    var yes, no := StoreAt(target, path, EvalBool(true)).value, StoreAt(target, path, EvalBool(false)).value;
    if other == [] {
      if yes == no {
        StoreIsInjective(target, path, EvalBool(true), EvalBool(false));
      }
    } else if path == [] {
      assert yes.aggregate == [];
    } else if path[0].union {
      assert yes.aggregate[0] == EvalBool(true) && no.aggregate[0] == EvalBool(false);
    } else {
      SameHead(path[0].index, Cells(path[1..]), other[0].index, Cells(other[1..]));
      StoreTellsApart(table, floats, target.aggregate[path[0].index], path[1..], other[1..]);
    }
  }

  ghost predicate Unaffected(
    table: AliasTable, floats: Floats, target: EvalValue, path: seq<EvalPath>, other: seq<EvalPath>, value: EvalValue)
  {
    var stored := StoreAt(target, path, value);
    stored.Some? && LoadAt(table, floats, stored.value, other) == LoadAt(table, floats, target, other)
  }

  /**
    A load is unaffected by every store through another pointer exactly when the
    two paths part before either of them ends or enters a union.
   */
  lemma StoreAffectsExactly(
    table: AliasTable, floats: Floats, target: EvalValue, path: seq<EvalPath>, other: seq<EvalPath>, some: EvalValue)
    requires StoreAt(target, path, some).Some? && LoadAt(table, floats, target, other).Some? && Aligned(path, other)
    ensures
      (forall value :: Unaffected(table, floats, target, path, other, value)) <==> Apart(Cells(path), Cells(other))
  {
    forall value ensures StoreAt(target, path, value).Some? {
      StoreInRange(target, path, some, value);
    }
    if Apart(Cells(path), Cells(other)) {
      forall value ensures Unaffected(table, floats, target, path, other, value) {
        StoreLeavesApart(table, floats, target, path, other, value);
      }
    } else {
      StoreTellsApart(table, floats, target, path, other);
      assert !Unaffected(table, floats, target, path, other, EvalBool(true))
          || !Unaffected(table, floats, target, path, other, EvalBool(false));
    }
  }

  /** Two fields of a struct inside a union are one place: a store to one is what the other reads. */
  lemma FieldsInUnionCollide(
    table: AliasTable, floats: Floats, target: EvalValue, member: EvalPath, field: EvalPath, other: EvalPath,
    value: EvalValue)
    requires member.union
    ensures StoreAt(target, [member, field], value).Some?
    ensures LoadAt(table, floats, StoreAt(target, [member, field], value).value, [member, other]) ==
      Some(Reinterpret(table, floats, value, member.typ))
  {
  }

  const INTEGERS: set<Primitive> := {I8, I16, I32, I64, U8, U16, U32, U64, Isz, Usz}

  /** The integer types, untyped ones included. */
  predicate IntegerType(t: Type) {
    t.UntypedInt? || (t.PrimitiveType? && t.primitive in INTEGERS)
  }

  /** The bits are those of the magnitude, modulo 2^64. */
  lemma LowBitsExactly(n: int, k: nat)
    ensures LowBits(n) == LowBits(-n)
    ensures n >= 0 ==> LowBits(n + k * TWO64) == LowBits(n)
  {
    if n >= 0 {
      LowBitsRepeat(n, k);
    }
  }

  lemma {:induction false} LowBitsRepeat(n: nat, k: nat)
    ensures (n + k * TWO64) % TWO64 == n % TWO64
  {
    if k > 0 {
      LowBitsRepeat(n, k - 1);
      assert n + k * TWO64 == (n + (k - 1) * TWO64) + TWO64;
    }
  }

  /**
    Reading an integer through an f64 member of a union and back gives it again
    exactly when it is in the range of u64; the evaluator's integers are signed and
    unbounded.  A 32-bit integer type reads the bits of the narrowed float instead.
   */
  lemma ReinterpretRoundTrip(table: AliasTable, floats: Floats, n: int, t: Type, f: Type, i: Type)
    requires Underlying(table, {}, f) == PrimitiveType(F64)
    requires IntegerType(Underlying(table, {}, i))
    ensures
      var back := Reinterpret(table, floats, Reinterpret(table, floats, EvalInteger(n, t), f), i);
      var u := Underlying(table, {}, i);
      if u == PrimitiveType(U32) || u == PrimitiveType(I32) then back == EvalInteger(floats.narrow(LowBits(n)), i)
      else (back == EvalInteger(n, i) <==> 0 <= n < TWO64)
  {
  }

  /** Read through an f32 member, the low 32 bits come back, when narrowing undoes widening. */
  lemma NarrowRoundTrip(table: AliasTable, floats: Floats, n: int, t: Type, f: Type, i: Type)
    requires Underlying(table, {}, f) == PrimitiveType(F32)
    requires Underlying(table, {}, i) == PrimitiveType(U32) || Underlying(table, {}, i) == PrimitiveType(I32)
    requires forall bits: nat | bits < TWO32 :: floats.narrow(floats.widen(bits)) == bits
    ensures Reinterpret(table, floats, Reinterpret(table, floats, EvalInteger(n, t), f), i)
            == EvalInteger(LowBits(n) % TWO32, i)
  {
  }

  /** A float is read through a 64-bit integer member and back without loss. */
  lemma FloatRoundTrip(table: AliasTable, floats: Floats, bits: nat, t: Type, f: Type, i: Type)
    requires Underlying(table, {}, f) == PrimitiveType(F64) && bits < TWO64
    requires IntegerType(Underlying(table, {}, i))
    requires Underlying(table, {}, i) != PrimitiveType(U32) && Underlying(table, {}, i) != PrimitiveType(I32)
    ensures Reinterpret(table, floats, EvalFloat(bits, t), i) == EvalInteger(bits, i)
    ensures Reinterpret(table, floats, Reinterpret(table, floats, EvalFloat(bits, t), i), f) == EvalFloat(bits, f)
  {
  }

  /** An i64 of -1, stored in a union with an f64 member and read through it, comes back as 1. */
  lemma MinusOneReadsBackAsOne(table: AliasTable, floats: Floats)
    ensures
      var i, f := PrimitiveType(I64), PrimitiveType(F64);
      Reinterpret(table, floats, Reinterpret(table, floats, EvalInteger(-1, i), f), i) == EvalInteger(1, i)
  {
    assert LowBits(-1) == 1;
  }

  // ----- Types that can be zeroed -----

  lemma {:induction false} UnderlyingIsSized(table: AliasTable, seen: set<nat>, t: Type, n: nat)
    requires Sized(table, t, n)
    ensures var u := Underlying(table, seen, t); u.AliasRef? || Sized(table, u, n)
    decreases table.Keys - seen, t
  {
    match t
    case DefinedType(_, _, underlying, _, _) =>
      UnderlyingIsSized(table, seen, underlying, n - 1);
      SizedGrows(table, Underlying(table, seen, underlying), n);
    case AliasRef(_, _, Some(r)) =>
      if r in table && r !in seen {
        UnderlyingIsSized(table, seen + {r}, table[r].target, n - 1);
        SizedGrows(table, Underlying(table, seen + {r}, table[r].target), n);
      }
    case _ =>
  }

  lemma SizedGrows(table: AliasTable, t: Type, n: nat)
    ensures n > 0 && Sized(table, t, n - 1) ==> Sized(table, t, n)
  {
    if n > 0 && Sized(table, t, n - 1) {
      SizedMonotone(table, t, n - 1, n);
    }
  }

  /** Every type that the completeness check accepts has a zero value. */
  lemma {:induction false} SizedIsBounded(table: AliasTable, t: Type, n: nat)
    requires Sized(table, t, n)
    ensures Bounded(table, t, n)
    decreases n
  {
    UnderlyingIsSized(table, {}, t, n);
    var parts := Parts(table, t);
    if parts != [] {
      forall i | 0 <= i < |parts| ensures Bounded(table, parts[i], n - 1) {
        SizedIsBounded(table, parts[i], n - 1);
      }
    }
  }
}
