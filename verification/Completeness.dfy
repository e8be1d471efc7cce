/**
  IsComplete (types/type.go): does a type have a known by-value representation?

  Nominal bodies are values inside a type, but an alias reference leads back into
  the table, so the graph may be cyclic.  `CompletenessCheck` keeps the two path
  sets that the Go function marks and unmarks.  The reference meaning, `Sized`,
  knows no path sets: it unfolds by value to a bounded height.
 */
module Completeness {
  import opened Types
  import opened TypeEquality

  // ----- The search, as a function of its path sets -----

  ghost predicate Complete(table: AliasTable, t: Type, defined: set<string>, aliases: set<nat>)
    decreases table.Keys - aliases, t
  {
    match t
    case DefinedType(_, _, underlying, _, _) =>
      Identity(t) !in defined && Complete(table, underlying, defined + {Identity(t)}, aliases)
    case AliasRef(_, _, None) => false
    case AliasRef(_, _, Some(r)) =>
      r !in aliases && r in table && Complete(table, table[r].target, defined, aliases + {r})
    case OpaqueType | TraitType(_) | SelfType => false
    case StructType(fields, _, _) =>
      forall i | 0 <= i < |fields| :: Complete(table, fields[i].typ, defined, aliases)
    case UnionType(_, _, fields) =>
      forall i | 0 <= i < |fields| :: Complete(table, fields[i].typ, defined, aliases)
    case SliceType(base, _) => Complete(table, base, defined, aliases)
    case ArrayType(base, _) => Complete(table, base, defined, aliases)
    case MultipleReturnType(items) =>
      forall i | 0 <= i < |items| :: Complete(table, items[i], defined, aliases)
    case _ => true
  }

  class CompletenessCheck {
    const table: AliasTable
    var defined: set<string>
    var aliases: set<nat>

    constructor (table: AliasTable)
      ensures this.table == table && defined == {} && aliases == {}
    {
      this.table := table;
      defined, aliases := {}, {};
    }

    /** Marks the path, descends, and unmarks it again. */
    method IsComplete(t: Type) returns (complete: bool)
      modifies this
      ensures defined == old(defined) && aliases == old(aliases)
      ensures complete <==> Complete(table, t, defined, aliases)
      decreases table.Keys - aliases, t, 0
    {
      match t {
        case DefinedType(_, _, underlying, _, _) =>
          var key := Identity(t);
          if key in defined {
            return false;
          }
          defined := defined + {key};
          complete := IsComplete(underlying);
          defined := defined - {key};
        case AliasRef(_, _, None) => complete := false;
        case AliasRef(_, _, Some(r)) =>
          if r in aliases || r !in table {
            return false;
          }
          aliases := aliases + {r};
          complete := IsComplete(table[r].target);
          aliases := aliases - {r};
        case OpaqueType | TraitType(_) | SelfType => complete := false;
        case StructType(fields, _, _) => complete := AllFieldsComplete(fields);
        case UnionType(_, _, fields) => complete := AllFieldsComplete(fields);
        case SliceType(base, _) => complete := IsComplete(base);
        case ArrayType(base, _) => complete := IsComplete(base);
        case MultipleReturnType(items) =>
          for i := 0 to |items|
            invariant defined == old(defined) && aliases == old(aliases)
            invariant forall k | 0 <= k < i :: Complete(table, items[k], defined, aliases)
          {
            var here := IsComplete(items[i]);
            if !here {
              return false;
            }
          }
          complete := true;
        case _ => complete := true;
      }
    }

    method AllFieldsComplete(fields: seq<Field>) returns (complete: bool)
      modifies this
      ensures defined == old(defined) && aliases == old(aliases)
      ensures complete <==> forall i | 0 <= i < |fields| :: Complete(table, fields[i].typ, defined, aliases)
      decreases table.Keys - aliases, fields
    {
      for i := 0 to |fields|
        invariant defined == old(defined) && aliases == old(aliases)
        invariant forall k | 0 <= k < i :: Complete(table, fields[k].typ, defined, aliases)
      {
        var here := IsComplete(fields[i].typ);
        if !here {
          return false;
        }
      }
      complete := true;
    }
  }

  // ----- The reference meaning -----

  /** The by-value unfolding of `t` has height at most `n` and no part without a representation. */
  ghost predicate Sized(table: AliasTable, t: Type, n: nat)
    decreases n
  {
    match t
    case DefinedType(_, _, underlying, _, _) => n > 0 && Sized(table, underlying, n - 1)
    case AliasRef(_, _, None) => false
    case AliasRef(_, _, Some(r)) => n > 0 && r in table && Sized(table, table[r].target, n - 1)
    case OpaqueType | TraitType(_) | SelfType => false
    case StructType(fields, _, _) => n > 0 && forall i | 0 <= i < |fields| :: Sized(table, fields[i].typ, n - 1)
    case UnionType(_, _, fields) => n > 0 && forall i | 0 <= i < |fields| :: Sized(table, fields[i].typ, n - 1)
    case SliceType(base, _) => n > 0 && Sized(table, base, n - 1)
    case ArrayType(base, _) => n > 0 && Sized(table, base, n - 1)
    case MultipleReturnType(items) => n > 0 && forall i | 0 <= i < |items| :: Sized(table, items[i], n - 1)
    case _ => true
  }

  ghost predicate FiniteByValue(table: AliasTable, t: Type) {
    exists n: nat :: Sized(table, t, n)
  }

  lemma {:induction false} SizedMonotone(table: AliasTable, t: Type, m: nat, n: nat)
    requires m <= n && Sized(table, t, m)
    ensures Sized(table, t, n)
    decreases m
  {
    match t
    case DefinedType(_, _, underlying, _, _) => SizedMonotone(table, underlying, m - 1, n - 1);
    case AliasRef(_, _, Some(r)) => SizedMonotone(table, table[r].target, m - 1, n - 1);
    case StructType(fields, _, _) =>
      forall i | 0 <= i < |fields| { SizedMonotone(table, fields[i].typ, m - 1, n - 1); }
    case UnionType(_, _, fields) =>
      forall i | 0 <= i < |fields| { SizedMonotone(table, fields[i].typ, m - 1, n - 1); }
    case SliceType(base, _) => SizedMonotone(table, base, m - 1, n - 1);
    case ArrayType(base, _) => SizedMonotone(table, base, m - 1, n - 1);
    case MultipleReturnType(items) =>
      forall i | 0 <= i < |items| { SizedMonotone(table, items[i], m - 1, n - 1); }
    case _ =>
  }

  // ----- What the search accepts is finite -----

  lemma {:induction false} CompleteIsSized(table: AliasTable, t: Type, defined: set<string>, aliases: set<nat>)
    returns (n: nat)
    requires Complete(table, t, defined, aliases)
    ensures Sized(table, t, n)
    decreases table.Keys - aliases, t, 0
  {
    n := 0;
    match t
    case DefinedType(_, _, underlying, _, _) =>
      n := CompleteIsSized(table, underlying, defined + {Identity(t)}, aliases);
      n := n + 1;
    case AliasRef(_, _, Some(r)) =>
      n := CompleteIsSized(table, table[r].target, defined, aliases + {r});
      n := n + 1;
    case StructType(fields, _, _) =>
      n := FieldsAreSized(table, fields, defined, aliases);
      n := n + 1;
    case UnionType(_, _, fields) =>
      n := FieldsAreSized(table, fields, defined, aliases);
      n := n + 1;
    case SliceType(base, _) =>
      n := CompleteIsSized(table, base, defined, aliases);
      n := n + 1;
    case ArrayType(base, _) =>
      n := CompleteIsSized(table, base, defined, aliases);
      n := n + 1;
    case MultipleReturnType(items) =>
      n := ItemsAreSized(table, items, defined, aliases);
      n := n + 1;
    case _ =>
  }

  lemma {:induction false} FieldsAreSized(table: AliasTable, fields: seq<Field>, defined: set<string>,
                                          aliases: set<nat>)
    returns (n: nat)
    requires forall i | 0 <= i < |fields| :: Complete(table, fields[i].typ, defined, aliases)
    ensures forall i | 0 <= i < |fields| :: Sized(table, fields[i].typ, n)
    decreases table.Keys - aliases, fields
  {
    n := 0;
    if fields != [] {
      var m := CompleteIsSized(table, fields[0].typ, defined, aliases);
      var rest := fields[1..];
      var k := FieldsAreSized(table, rest, defined, aliases);
      n := if m < k then k else m;
      SizedMonotone(table, fields[0].typ, m, n);
      forall i | 0 <= i < |fields| ensures Sized(table, fields[i].typ, n) {
        if i > 0 {
          SizedMonotone(table, rest[i - 1].typ, k, n);
        }
      }
    }
  }

  lemma {:induction false} ItemsAreSized(table: AliasTable, items: seq<Type>, defined: set<string>, aliases: set<nat>)
    returns (n: nat)
    requires forall i | 0 <= i < |items| :: Complete(table, items[i], defined, aliases)
    ensures forall i | 0 <= i < |items| :: Sized(table, items[i], n)
    decreases table.Keys - aliases, items
  {
    n := 0;
    if items != [] {
      var m := CompleteIsSized(table, items[0], defined, aliases);
      var rest := items[1..];
      var k := ItemsAreSized(table, rest, defined, aliases);
      n := if m < k then k else m;
      SizedMonotone(table, items[0], m, n);
      forall i | 0 <= i < |items| ensures Sized(table, items[i], n) {
        if i > 0 {
          SizedMonotone(table, rest[i - 1], k, n);
        }
      }
    }
  }

  // ----- What is finite is accepted -----

  /** Every nominal type met by value has the body that `bodies` gives for its identity. */
  ghost predicate Declared(t: Type, bodies: map<string, Type>)
    decreases t
  {
    match t
    case DefinedType(_, _, underlying, _, _) =>
      Identity(t) in bodies && bodies[Identity(t)] == underlying && Declared(underlying, bodies)
    case StructType(fields, _, _) => forall i | 0 <= i < |fields| :: Declared(fields[i].typ, bodies)
    case UnionType(_, _, fields) => forall i | 0 <= i < |fields| :: Declared(fields[i].typ, bodies)
    case SliceType(base, _) => Declared(base, bodies)
    case ArrayType(base, _) => Declared(base, bodies)
    case MultipleReturnType(items) => forall i | 0 <= i < |items| :: Declared(items[i], bodies)
    case _ => true
  }

  /** One definition per identity, in the type and behind every alias. */
  ghost predicate OneDefinition(table: AliasTable, t: Type, bodies: map<string, Type>) {
    Declared(t, bodies) && forall r | r in table :: Declared(table[r].target, bodies)
  }

  /** Everything on the path unfolds strictly higher than what remains below it. */
  ghost predicate Above(table: AliasTable, bodies: map<string, Type>, defined: set<string>, aliases: set<nat>, n: nat) {
    n > 0 ==>
      && (forall k | k in defined :: k in bodies && !Sized(table, bodies[k], n - 1))
      && (forall r | r in aliases :: r in table && !Sized(table, table[r].target, n - 1))
  }

  lemma LeastHeight(table: AliasTable, t: Type, n: nat) returns (m: nat)
    requires Sized(table, t, n)
    ensures m <= n && Sized(table, t, m) && (m > 0 ==> !Sized(table, t, m - 1))
  {
    m := n;
    while m > 0 && Sized(table, t, m - 1)
      invariant m <= n && Sized(table, t, m)
    {
      m := m - 1;
    }
  }

  lemma AboveMonotone(table: AliasTable, bodies: map<string, Type>, defined: set<string>, aliases: set<nat>, n: nat,
                      m: nat)
    requires Above(table, bodies, defined, aliases, n) && m <= n
    ensures Above(table, bodies, defined, aliases, m)
  {
    if m > 0 {
      forall k | k in defined ensures !Sized(table, bodies[k], m - 1) {
        if Sized(table, bodies[k], m - 1) { SizedMonotone(table, bodies[k], m - 1, n - 1); }
      }
      forall r | r in aliases ensures !Sized(table, table[r].target, m - 1) {
        if Sized(table, table[r].target, m - 1) { SizedMonotone(table, table[r].target, m - 1, n - 1); }
      }
    }
  }

  lemma {:induction false} SizedIsComplete(table: AliasTable, t: Type, n: nat, bodies: map<string, Type>,
                                           defined: set<string>, aliases: set<nat>)
    requires OneDefinition(table, t, bodies) && Sized(table, t, n)
    requires Above(table, bodies, defined, aliases, n)
    ensures Complete(table, t, defined, aliases)
    decreases n
  {
    if n > 0 {
      AboveMonotone(table, bodies, defined, aliases, n, n - 1);
    }
    match t
    case DefinedType(_, _, underlying, _, _) =>
      var m := LeastHeight(table, underlying, n - 1);
      AboveMonotone(table, bodies, defined, aliases, n - 1, m);
      SizedIsComplete(table, underlying, m, bodies, defined + {Identity(t)}, aliases);
    case AliasRef(_, _, Some(r)) =>
      var m := LeastHeight(table, table[r].target, n - 1);
      AboveMonotone(table, bodies, defined, aliases, n - 1, m);
      SizedIsComplete(table, table[r].target, m, bodies, defined, aliases + {r});
    case StructType(fields, _, _) =>
      forall i | 0 <= i < |fields| {
        SizedIsComplete(table, fields[i].typ, n - 1, bodies, defined, aliases);
      }
    case UnionType(_, _, fields) =>
      forall i | 0 <= i < |fields| {
        SizedIsComplete(table, fields[i].typ, n - 1, bodies, defined, aliases);
      }
    case SliceType(base, _) => SizedIsComplete(table, base, n - 1, bodies, defined, aliases);
    case ArrayType(base, _) => SizedIsComplete(table, base, n - 1, bodies, defined, aliases);
    case MultipleReturnType(items) =>
      forall i | 0 <= i < |items| {
        SizedIsComplete(table, items[i], n - 1, bodies, defined, aliases);
      }
    case _ =>
  }

  /** With one definition per identity the search is exact. */
  lemma CompleteExactlyWhenFinite(table: AliasTable, t: Type, bodies: map<string, Type>)
    requires OneDefinition(table, t, bodies)
    ensures Complete(table, t, {}, {}) <==> FiniteByValue(table, t)
  {
    if Complete(table, t, {}, {}) {
      var n := CompleteIsSized(table, t, {}, {});
    }
    if FiniteByValue(table, t) {
      var n :| Sized(table, t, n);
      SizedIsComplete(table, t, n, bodies, {}, {});
    }
  }

  // ----- Without that condition: paths that meet one identity twice -----

  /** `part` is directly inside `t`, by value. */
  ghost predicate PartOf(table: AliasTable, t: Type, part: Type) {
    match t
    case DefinedType(_, _, underlying, _, _) => part == underlying
    case AliasRef(_, _, Some(r)) => r in table && part == table[r].target
    case StructType(fields, _, _) => exists i | 0 <= i < |fields| :: part == fields[i].typ
    case UnionType(_, _, fields) => exists i | 0 <= i < |fields| :: part == fields[i].typ
    case SliceType(base, _) => part == base
    case ArrayType(base, _) => part == base
    case MultipleReturnType(items) => exists i | 0 <= i < |items| :: part == items[i]
    case _ => false
  }

  /** A chain of parts, from the first type down. */
  ghost predicate ValuePath(table: AliasTable, path: seq<Type>) {
    path != [] && (|path| > 1 ==> PartOf(table, path[0], path[1]) && ValuePath(table, path[1..]))
  }

  predicate SameIdentity(a: Type, b: Type) {
    a.DefinedType? && b.DefinedType? && Identity(a) == Identity(b)
  }

  ghost predicate Repeats(path: seq<Type>) {
    exists i, j | 0 <= i < j < |path| :: SameIdentity(path[i], path[j])
  }

  /** No chain of parts of `t` meets one identity twice. */
  ghost predicate NeverRepeats(table: AliasTable, t: Type) {
    forall path | ValuePath(table, path) && path[0] == t :: !Repeats(path)
  }

  /** The identities that are marked below `t`. */
  function Below(t: Type, defined: set<string>): set<string> {
    if t.DefinedType? then defined + {Identity(t)} else defined
  }

  /** The path meets no marked identity and none twice. */
  ghost predicate Avoids(path: seq<Type>, defined: set<string>) {
    path != [] ==>
      (path[0].DefinedType? ==> Identity(path[0]) !in defined) && Avoids(path[1..], Below(path[0], defined))
  }

  lemma {:induction false} AvoidsExactly(path: seq<Type>, defined: set<string>)
    ensures Avoids(path, defined) <==>
      !Repeats(path) && forall i | 0 <= i < |path| && path[i].DefinedType? :: Identity(path[i]) !in defined
  {
    if path != [] {
      var rest := path[1..];
      AvoidsExactly(rest, Below(path[0], defined));
      forall i, j | 0 <= i < j < |path| && SameIdentity(path[i], path[j])
        ensures !Avoids(path, defined)
      {
        assert path[j] == rest[j - 1];
        assert i > 0 ==> SameIdentity(rest[i - 1], rest[j - 1]);
      }
      forall i | 0 <= i < |path| && path[i].DefinedType? && Identity(path[i]) in defined
        ensures !Avoids(path, defined)
      {
        assert i > 0 ==> path[i] == rest[i - 1];
      }
      if Repeats(rest) {
        var i, j :| 0 <= i < j < |rest| && SameIdentity(rest[i], rest[j]);
        assert SameIdentity(path[i + 1], path[j + 1]);
      }
      forall i | 0 <= i < |rest| && rest[i].DefinedType? && Identity(rest[i]) in Below(path[0], defined)
        ensures Repeats(path) || Identity(path[i + 1]) in defined
      {
        assert Identity(rest[i]) !in defined ==> SameIdentity(path[0], path[i + 1]);
      }
    }
  }

  ghost predicate AllAvoid(table: AliasTable, t: Type, defined: set<string>) {
    forall path | ValuePath(table, path) && path[0] == t :: Avoids(path, defined)
  }

  lemma {:induction false} CompleteAvoids(table: AliasTable, path: seq<Type>, defined: set<string>, aliases: set<nat>)
    requires ValuePath(table, path) && Complete(table, path[0], defined, aliases)
    ensures Avoids(path, defined)
    decreases |path|
  {
    var t := path[0];
    if |path| > 1 {
      var below := if t.AliasRef? then aliases + {t.reference.value} else aliases;
      assert Complete(table, path[1], Below(t, defined), below);
      CompleteAvoids(table, path[1..], Below(t, defined), below);
    }
  }

  lemma PartAvoids(table: AliasTable, t: Type, part: Type, defined: set<string>)
    requires AllAvoid(table, t, defined) && PartOf(table, t, part)
    ensures AllAvoid(table, part, Below(t, defined))
  {
    forall path | ValuePath(table, path) && path[0] == part ensures Avoids(path, Below(t, defined)) {
      var longer := [t] + path;
      assert longer[1..] == path;
      assert ValuePath(table, longer);
    }
  }

  lemma {:induction false} AvoidingIsComplete(table: AliasTable, t: Type, n: nat, defined: set<string>,
                                              aliases: set<nat>)
    requires Sized(table, t, n) && AllAvoid(table, t, defined)
    requires Above(table, map[], {}, aliases, n)
    ensures Complete(table, t, defined, aliases)
    decreases n, 1
  {
    match t
    case DefinedType(_, _, underlying, _, _) =>
      assert ValuePath(table, [t]);
      AvoidingPart(table, t, underlying, n, defined, aliases);
    case AliasRef(_, _, Some(r)) =>
      PartAvoids(table, t, table[r].target, defined);
      var m := LeastHeight(table, table[r].target, n - 1);
      AboveMonotone(table, map[], {}, aliases, n, m);
      AvoidingIsComplete(table, table[r].target, m, defined, aliases + {r});
    case StructType(fields, _, _) =>
      forall i | 0 <= i < |fields| {
        AvoidingPart(table, t, fields[i].typ, n, defined, aliases);
      }
    case UnionType(_, _, fields) =>
      forall i | 0 <= i < |fields| {
        AvoidingPart(table, t, fields[i].typ, n, defined, aliases);
      }
    case SliceType(base, _) => AvoidingPart(table, t, base, n, defined, aliases);
    case ArrayType(base, _) => AvoidingPart(table, t, base, n, defined, aliases);
    case MultipleReturnType(items) =>
      forall i | 0 <= i < |items| {
        AvoidingPart(table, t, items[i], n, defined, aliases);
      }
    case _ =>
  }

  lemma {:induction false} AvoidingPart(table: AliasTable, t: Type, part: Type, n: nat, defined: set<string>,
                                        aliases: set<nat>)
    requires n > 0 && PartOf(table, t, part) && Sized(table, part, n - 1)
    requires AllAvoid(table, t, defined) && Above(table, map[], {}, aliases, n)
    ensures Complete(table, part, Below(t, defined), aliases)
    decreases n, 0
  {
    PartAvoids(table, t, part, defined);
    AboveMonotone(table, map[], {}, aliases, n, n - 1);
    AvoidingIsComplete(table, part, n - 1, Below(t, defined), aliases);
  }

  /** The exact condition: the unfolding is finite, and no path down it meets one identity twice. */
  lemma CompleteExactly(table: AliasTable, t: Type)
    ensures Complete(table, t, {}, {}) <==> FiniteByValue(table, t) && NeverRepeats(table, t)
  {
    if Complete(table, t, {}, {}) {
      var n := CompleteIsSized(table, t, {}, {});
      forall path | ValuePath(table, path) && path[0] == t ensures !Repeats(path) {
        CompleteAvoids(table, path, {}, {});
        AvoidsExactly(path, {});
      }
    }
    if FiniteByValue(table, t) && NeverRepeats(table, t) {
      var n :| Sized(table, t, n);
      forall path | ValuePath(table, path) && path[0] == t ensures Avoids(path, {}) {
        AvoidsExactly(path, {});
      }
      AvoidingIsComplete(table, t, n, {}, {});
    }
  }

  /** IsComplete itself: a fresh search from empty path sets. */
  method IsComplete(table: AliasTable, t: Type, ghost bodies: map<string, Type>) returns (complete: bool)
    ensures complete <==> FiniteByValue(table, t) && NeverRepeats(table, t)
    ensures OneDefinition(table, t, bodies) ==> (complete <==> FiniteByValue(table, t))
  {
    var check := new CompletenessCheck(table);
    complete := check.IsComplete(t);
    CompleteExactly(table, t);
    if OneDefinition(table, t, bodies) {
      CompleteExactlyWhenFinite(table, t, bodies);
    }
  }

  /** Nested under its own identity a finite type is refused; side by side the two bodies are accepted. */
  lemma SharedIdentityIsRefused(table: AliasTable, moduleName: string, name: string)
    ensures
      var inner := DefinedType(moduleName, name, PrimitiveType(I32), "", []);
      var outer := DefinedType(moduleName, name, StructType([Field("x", inner)], false, None), "", []);
      var other := DefinedType(moduleName, name, PrimitiveType(U8), "", []);
      && FiniteByValue(table, outer) && !Complete(table, outer, {}, {})
      && Complete(table, StructType([Field("x", inner), Field("y", other)], false, None), {}, {})
  {
    var inner := DefinedType(moduleName, name, PrimitiveType(I32), "", []);
    var body := StructType([Field("x", inner)], false, None);
    var outer := DefinedType(moduleName, name, body, "", []);
    assert body.fields[0].typ == inner;
    assert Sized(table, inner, 1);
    assert Sized(table, body, 2);
    assert Sized(table, outer, 3);
    assert Identity(inner) == Identity(outer);
    assert !Complete(table, inner, {Identity(outer)}, {});
    assert !Complete(table, body, {} + {Identity(outer)}, {});
  }
}
