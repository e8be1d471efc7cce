/**
  Whole-program narrowing of trait-to-trait casts (loader/trait_flow.go).

  `After` runs one trait value: it is created by erasing a concrete pointer, may
  be viewed as immutable, and may be recast; a recast compares the dynamic type
  with the candidates listed at the node.  `TraitFlow` is the fixpoint over the
  `possible` map and the filtering of the candidate lists in place.
 */
module TraitFlow {
  import opened Types
  import opened TypeEquality

  datatype TraitPointer = TraitPointer(definition: TraitDefinition, mutable: bool)

  datatype FlowKey = FlowKey(moduleName: string, name: string, any: bool, mutable: bool)

  function FlowKeyOf(pointer: TraitPointer): FlowKey {
    FlowKey(pointer.definition.traitModule, pointer.definition.traitName, pointer.definition.any, pointer.mutable)
  }

  datatype Candidate = Candidate(concreteType: Type, methods: seq<string>)

  datatype Erasure = Erasure(target: TraitPointer, concreteType: Type)

  // ----- Runs of a trait value -----

  /** A recast node: its source and target traits and its candidates. */
  datatype Site = Site(source: TraitPointer, target: TraitPointer, candidates: seq<Candidate>)

  /** A live trait value: the pointer that is its static type, and its dynamic type. */
  datatype Value = Value(at: TraitPointer, concrete: Type)

  datatype Step = View | Recast(site: nat)

  /** Both point to one trait, with the same mutability. */
  predicate SamePointer(p: TraitPointer, q: TraitPointer) {
    SameTrait(p.definition, q.definition) && p.mutable == q.mutable
  }

  ghost predicate Lists(table: AliasTable, candidates: seq<Candidate>, concrete: Type) {
    exists i | 0 <= i < |candidates| :: Canon(table, candidates[i].concreteType) == concrete
  }

  /** One step; `None` when the step does not apply or the cast fails. */
  ghost function Move(table: AliasTable, sites: seq<Site>, step: Step, v: Value): Option<Value> {
    match step
    case View => Some(v.(at := v.at.(mutable := false)))
    case Recast(j) =>
      if j < |sites| && SamePointer(v.at, sites[j].source) && Lists(table, sites[j].candidates, v.concrete)
      then Some(v.(at := sites[j].target))
      else None
  }

  /** The value that erasure `i` has become after the steps. */
  ghost function After(table: AliasTable, erasures: seq<Erasure>, sites: seq<Site>, i: nat, steps: seq<Step>)
    : Option<Value>
  {
    if i >= |erasures| then None
    else if steps == [] then Some(Value(erasures[i].target, Canon(table, erasures[i].concreteType)))
    else
      var before := After(table, erasures, sites, i, steps[..|steps| - 1]);
      if before.None? then None else Move(table, sites, steps[|steps| - 1], before.value)
  }

  /** The run ends with a value of this dynamic type behind this pointer. */
  ghost predicate EndsAt(table: AliasTable, erasures: seq<Erasure>, sites: seq<Site>, i: nat, steps: seq<Step>,
                         pointer: TraitPointer, concrete: Type)
  {
    var v := After(table, erasures, sites, i, steps);
    v.Some? && SamePointer(v.value.at, pointer) && v.value.concrete == concrete
  }

  /** Some run brings a value of the dynamic type behind the pointer. */
  ghost predicate Arrives(
    table: AliasTable, erasures: seq<Erasure>, sites: seq<Site>, pointer: TraitPointer, concrete: Type)
  {
    exists i: nat, steps :: EndsAt(table, erasures, sites, i, steps, pointer, concrete)
  }

  // ----- The keys of the map -----

  /** An entry of the `possible` map. */
  datatype Fact = Fact(key: FlowKey, concrete: Type)

  /** The key tells exactly the pointers apart that a recast does. */
  lemma KeyIsPointer(p: TraitPointer, q: TraitPointer)
    ensures FlowKeyOf(p) == FlowKeyOf(q) <==> SamePointer(p, q)
  {
  }

  function FactOf(v: Value): Fact {
    Fact(FlowKeyOf(v.at), v.concrete)
  }

  ghost predicate RunsTo(
    table: AliasTable, erasures: seq<Erasure>, sites: seq<Site>, i: nat, steps: seq<Step>, f: Fact)
  {
    var v := After(table, erasures, sites, i, steps);
    v.Some? && FactOf(v.value) == f
  }

  /** Some run makes a live value that belongs into this entry. */
  ghost predicate Live(table: AliasTable, erasures: seq<Erasure>, sites: seq<Site>, f: Fact) {
    exists i: nat, steps :: RunsTo(table, erasures, sites, i, steps, f)
  }

  lemma ArrivesIsLive(
    table: AliasTable, erasures: seq<Erasure>, sites: seq<Site>, pointer: TraitPointer, concrete: Type)
    ensures
      Arrives(table, erasures, sites, pointer, concrete) <==>
      Live(table, erasures, sites, Fact(FlowKeyOf(pointer), concrete))
  {
    if Arrives(table, erasures, sites, pointer, concrete) {
      var i: nat, steps :| EndsAt(table, erasures, sites, i, steps, pointer, concrete);
      KeyIsPointer(After(table, erasures, sites, i, steps).value.at, pointer);
      assert RunsTo(table, erasures, sites, i, steps, Fact(FlowKeyOf(pointer), concrete));
    }
    if Live(table, erasures, sites, Fact(FlowKeyOf(pointer), concrete)) {
      var i: nat, steps :| RunsTo(table, erasures, sites, i, steps, Fact(FlowKeyOf(pointer), concrete));
      KeyIsPointer(After(table, erasures, sites, i, steps).value.at, pointer);
      assert EndsAt(table, erasures, sites, i, steps, pointer, concrete);
    }
  }

  lemma RunMoves(table: AliasTable, erasures: seq<Erasure>, sites: seq<Site>, i: nat, steps: seq<Step>, step: Step)
    requires After(table, erasures, sites, i, steps).Some?
    ensures After(table, erasures, sites, i, steps + [step])
            == Move(table, sites, step, After(table, erasures, sites, i, steps).value)
  {
    assert (steps + [step])[..|steps|] == steps;
  }

  /** A value can be viewed as immutable. */
  lemma LiveViews(table: AliasTable, erasures: seq<Erasure>, sites: seq<Site>, f: Fact)
    requires Live(table, erasures, sites, f)
    ensures Live(table, erasures, sites, f.(key := f.key.(mutable := false)))
  {
    var i: nat, steps :| RunsTo(table, erasures, sites, i, steps, f);
    RunMoves(table, erasures, sites, i, steps, View);
    assert RunsTo(table, erasures, sites, i, steps + [View], f.(key := f.key.(mutable := false)));
  }

  /** And recast where its type is listed. */
  lemma LiveRecasts(table: AliasTable, erasures: seq<Erasure>, sites: seq<Site>, j: nat, c: Type)
    requires j < |sites| && Lists(table, sites[j].candidates, c)
    requires Live(table, erasures, sites, Fact(FlowKeyOf(sites[j].source), c))
    ensures Live(table, erasures, sites, Fact(FlowKeyOf(sites[j].target), c))
  {
    var i: nat, steps :| RunsTo(table, erasures, sites, i, steps, Fact(FlowKeyOf(sites[j].source), c));
    KeyIsPointer(After(table, erasures, sites, i, steps).value.at, sites[j].source);
    RunMoves(table, erasures, sites, i, steps, Recast(j));
    assert RunsTo(table, erasures, sites, i, steps + [Recast(j)], Fact(FlowKeyOf(sites[j].target), c));
  }

  lemma ErasedIsLive(table: AliasTable, erasures: seq<Erasure>, sites: seq<Site>, i: nat)
    requires i < |erasures|
    ensures Live(table, erasures, sites, Fact(FlowKeyOf(erasures[i].target), Canon(table, erasures[i].concreteType)))
  {
    assert RunsTo(table, erasures, sites, i, [],
                  Fact(FlowKeyOf(erasures[i].target), Canon(table, erasures[i].concreteType)));
  }

  // ----- The narrowed program -----

  /** The candidates whose type can arrive at the node. */
  ghost function Kept(table: AliasTable, erasures: seq<Erasure>, sites: seq<Site>, source: TraitPointer,
                      candidates: seq<Candidate>)
    : seq<Candidate>
  {
    if candidates == [] then []
    else
      var rest := Kept(table, erasures, sites, source, candidates[..|candidates| - 1]);
      var last := candidates[|candidates| - 1];
      if Arrives(table, erasures, sites, source, Canon(table, last.concreteType)) then rest + [last] else rest
  }

  ghost function Narrowed(table: AliasTable, erasures: seq<Erasure>, sites: seq<Site>): seq<Site> {
    seq(|sites|, j requires 0 <= j < |sites| =>
      sites[j].(candidates := Kept(table, erasures, sites, sites[j].source, sites[j].candidates)))
  }

  lemma {:induction false} KeptLists(table: AliasTable, erasures: seq<Erasure>, sites: seq<Site>, source: TraitPointer,
                                     candidates: seq<Candidate>, c: Type)
    ensures Lists(table, Kept(table, erasures, sites, source, candidates), c)
            <==> Lists(table, candidates, c) && Arrives(table, erasures, sites, source, c)
    decreases candidates
  {
    if candidates != [] {
      var before := candidates[..|candidates| - 1];
      KeptLists(table, erasures, sites, source, before, c);
      ListsAppend(table, before, candidates[|candidates| - 1], c);
      assert before + [candidates[|candidates| - 1]] == candidates;
      ListsAppend(table, Kept(table, erasures, sites, source, before), candidates[|candidates| - 1], c);
    }
  }

  lemma ListsAppend(table: AliasTable, candidates: seq<Candidate>, last: Candidate, c: Type)
    ensures
      Lists(table, candidates + [last], c) <==>
      Lists(table, candidates, c) || Canon(table, last.concreteType) == c
  {
    var all := candidates + [last];
    if Lists(table, candidates, c) {
      var i :| 0 <= i < |candidates| && Canon(table, candidates[i].concreteType) == c;
      assert all[i] == candidates[i];
    }
    assert all[|candidates|] == last;
  }

  /** The main result: narrowing changes no run of any trait value. */
  lemma {:induction false} NarrowingPreservesRuns(table: AliasTable, erasures: seq<Erasure>, sites: seq<Site>, i: nat,
                                                  steps: seq<Step>)
    ensures
      After(table, erasures, Narrowed(table, erasures, sites), i, steps) == After(table, erasures, sites, i, steps)
    decreases steps
  {
    if i < |erasures| && steps != [] {
      var before := steps[..|steps| - 1];
      NarrowingPreservesRuns(table, erasures, sites, i, before);
      var v := After(table, erasures, sites, i, before);
      if v.Some? && steps[|steps| - 1].Recast? && steps[|steps| - 1].site < |sites| {
        var site := sites[steps[|steps| - 1].site];
        if SamePointer(v.value.at, site.source) {
          assert EndsAt(table, erasures, sites, i, before, site.source, v.value.concrete);
        }
        KeptLists(table, erasures, sites, site.source, site.candidates, v.value.concrete);
      }
    }
  }

  lemma NarrowingPreservesLiveness(
    table: AliasTable, erasures: seq<Erasure>, sites: seq<Site>, pointer: TraitPointer, concrete: Type)
    ensures
      Arrives(table, erasures, Narrowed(table, erasures, sites), pointer, concrete) <==>
      Arrives(table, erasures, sites, pointer, concrete)
  {
    var narrowed := Narrowed(table, erasures, sites);
    if Arrives(table, erasures, sites, pointer, concrete) {
      var i: nat, steps :| EndsAt(table, erasures, sites, i, steps, pointer, concrete);
      NarrowingPreservesRuns(table, erasures, sites, i, steps);
      assert EndsAt(table, erasures, narrowed, i, steps, pointer, concrete);
    }
    if Arrives(table, erasures, narrowed, pointer, concrete) {
      var i: nat, steps :| EndsAt(table, erasures, narrowed, i, steps, pointer, concrete);
      NarrowingPreservesRuns(table, erasures, sites, i, steps);
      assert EndsAt(table, erasures, sites, i, steps, pointer, concrete);
    }
  }

  /** Narrowing a narrowed program changes nothing more. */
  lemma NarrowingIsIdempotent(table: AliasTable, erasures: seq<Erasure>, sites: seq<Site>)
    ensures Narrowed(table, erasures, Narrowed(table, erasures, sites)) == Narrowed(table, erasures, sites)
  {
    var once := Narrowed(table, erasures, sites);
    forall j | 0 <= j < |sites| ensures Narrowed(table, erasures, once)[j] == once[j] {
      KeptTwice(table, erasures, sites, sites[j].source, sites[j].candidates);
    }
  }

  lemma {:induction false} KeptTwice(table: AliasTable, erasures: seq<Erasure>, sites: seq<Site>, source: TraitPointer,
                                     candidates: seq<Candidate>)
    ensures
      var once := Kept(table, erasures, sites, source, candidates);
      Kept(table, erasures, Narrowed(table, erasures, sites), source, once) == once
    decreases candidates
  {
    if candidates != [] {
      var before := candidates[..|candidates| - 1];
      var last := candidates[|candidates| - 1];
      KeptTwice(table, erasures, sites, source, before);
      NarrowingPreservesLiveness(table, erasures, sites, source, Canon(table, last.concreteType));
      var kept := Kept(table, erasures, sites, source, before);
      assert (kept + [last])[..|kept|] == kept;
    }
  }

  // ----- The possible map -----

  type Possible = map<FlowKey, seq<Type>>

  ghost function Facts(table: AliasTable, possible: Possible): set<Fact> {
    set k, i | k in possible && 0 <= i < |possible[k]| :: Fact(k, Canon(table, possible[k][i]))
  }

  ghost predicate AllPlain(table: AliasTable, possible: Possible) {
    forall k, i | k in possible && 0 <= i < |possible[k]| :: Plain(table, possible[k][i])
  }

  ghost predicate PlainCandidates(table: AliasTable, candidates: seq<Candidate>) {
    forall i | 0 <= i < |candidates| :: Plain(table, candidates[i].concreteType)
  }

  method ContainsType(table: AliasTable, haystack: seq<Type>, needle: Type) returns (found: bool)
    ensures found <==> exists i | 0 <= i < |haystack| :: Equals(table, {}, haystack[i], needle)
  {
    for i := 0 to |haystack|
      invariant forall k | 0 <= k < i :: !Equals(table, {}, haystack[k], needle)
    {
      if Equals(table, {}, haystack[i], needle) {
        return true;
      }
    }
    found := false;
  }

  function At(possible: Possible, key: FlowKey): seq<Type> {
    if key in possible then possible[key] else []
  }

  /** `types` lists exactly the types that the facts hold at `key`. */
  ghost predicate Reflects(table: AliasTable, types: seq<Type>, key: FlowKey, facts: set<Fact>) {
    && (forall i | 0 <= i < |types| :: Plain(table, types[i]) && Fact(key, Canon(table, types[i])) in facts)
    && forall c | Fact(key, c) in facts :: exists i :: 0 <= i < |types| && Canon(table, types[i]) == c
  }

  lemma AtReflects(table: AliasTable, possible: Possible, key: FlowKey)
    requires AllPlain(table, possible)
    ensures Reflects(table, At(possible, key), key, Facts(table, possible))
  {
    forall i | 0 <= i < |At(possible, key)|
      ensures Fact(key, Canon(table, At(possible, key)[i])) in Facts(table, possible)
    {
      assert key in possible;
    }
  }

  lemma ReflectsContains(table: AliasTable, types: seq<Type>, key: FlowKey, facts: set<Fact>, needle: Type)
    requires Reflects(table, types, key, facts) && Plain(table, needle)
    ensures
      (exists i | 0 <= i < |types| :: Equals(table, {}, types[i], needle)) <==>
      Fact(key, Canon(table, needle)) in facts
  {
    forall i | 0 <= i < |types|
      ensures Equals(table, {}, types[i], needle) <==> Canon(table, types[i]) == Canon(table, needle)
    {
      EqualsIsCanon(table, types[i], needle);
    }
  }

  lemma FactsGrow(table: AliasTable, possible: Possible, key: FlowKey, concrete: Type)
    ensures
      Facts(table, possible[key := At(possible, key) + [concrete]])
      == Facts(table, possible) + {Fact(key, Canon(table, concrete))}
  {
    var grown := possible[key := At(possible, key) + [concrete]];
    forall v | v in Facts(table, possible) ensures v in Facts(table, grown) {
      var k, i :| k in possible && 0 <= i < |possible[k]| && v == Fact(k, Canon(table, possible[k][i]));
      assert grown[k][i] == possible[k][i];
    }
    assert grown[key][|At(possible, key)|] == concrete;
    forall v | v in Facts(table, grown) ensures v in Facts(table, possible) + {Fact(key, Canon(table, concrete))} {
      var k, i :| k in grown && 0 <= i < |grown[k]| && v == Fact(k, Canon(table, grown[k][i]));
      if k != key || i < |At(possible, key)| {
        assert grown[k][i] == possible[k][i];
      }
    }
  }

  class CastNode {
    var candidates: seq<Candidate>

    constructor (candidates: seq<Candidate>)
      ensures this.candidates == candidates
    {
      this.candidates := candidates;
    }
  }

  datatype TraitRecast = TraitRecast(node: CastNode, source: TraitPointer, target: TraitPointer)

  ghost function SitesOf(recasts: seq<TraitRecast>): seq<Site>
    reads set r | r in recasts :: r.node
  {
    seq(|recasts|, j reads set r | r in recasts :: r.node requires 0 <= j < |recasts| =>
      Site(recasts[j].source, recasts[j].target, recasts[j].node.candidates))
  }

  ghost predicate Distinct(recasts: seq<TraitRecast>) {
    forall i, j | 0 <= i < j < |recasts| :: recasts[i].node != recasts[j].node
  }

  /** What a target adds: itself and, for a mutable target, the immutable view. */
  ghost function Added(table: AliasTable, key: FlowKey, concrete: Type): set<Fact> {
    {Fact(key, Canon(table, concrete)), Fact(key.(mutable := false), Canon(table, concrete))}
  }

  class Flow {
    const table: AliasTable
    var possible: Possible

    constructor (table: AliasTable)
      ensures this.table == table && possible == map[]
    {
      this.table := table;
      possible := map[];
    }

    method AddPossibleType(key: FlowKey, concrete: Type) returns (changed: bool)
      requires AllPlain(table, possible) && Plain(table, concrete)
      modifies this
      ensures AllPlain(table, possible)
      ensures Facts(table, possible) == old(Facts(table, possible)) + {Fact(key, Canon(table, concrete))}
      ensures changed <==> Fact(key, Canon(table, concrete)) !in old(Facts(table, possible))
    {
      AtReflects(table, possible, key);
      ReflectsContains(table, At(possible, key), key, Facts(table, possible), concrete);
      var found := ContainsType(table, At(possible, key), concrete);
      if found {
        return false;
      }
      FactsGrow(table, possible, key, concrete);
      possible := possible[key := At(possible, key) + [concrete]];
      changed := true;
    }

    method AddPossibleTraitType(target: TraitPointer, concrete: Type) returns (changed: bool)
      requires AllPlain(table, possible) && Plain(table, concrete)
      modifies this
      ensures AllPlain(table, possible)
      ensures Facts(table, possible) == old(Facts(table, possible)) + Added(table, FlowKeyOf(target), concrete)
      ensures changed <==> Facts(table, possible) != old(Facts(table, possible))
    {
      changed := AddPossibleType(FlowKeyOf(target), concrete);
      if target.mutable {
        var view := AddPossibleType(FlowKeyOf(target.(mutable := false)), concrete);
        changed := view || changed;
      }
    }

    /** Erasures put their concrete type into the target's entries. */
    method Seed(erasures: seq<Erasure>)
      requires possible == map[] && forall i | 0 <= i < |erasures| :: Plain(table, erasures[i].concreteType)
      modifies this
      ensures AllPlain(table, possible) && Facts(table, possible) == SeedFacts(table, erasures)
    {
      assert Facts(table, possible) == {};
      for i := 0 to |erasures|
        invariant AllPlain(table, possible) && Facts(table, possible) == SeedFacts(table, erasures[..i])
      {
        assert erasures[..i + 1][..i] == erasures[..i];
        var _ := AddPossibleTraitType(erasures[i].target, erasures[i].concreteType);
      }
      assert erasures[..|erasures|] == erasures;
    }

    /** The changed-flag loop over the recast nodes. */
    method Propagate(recasts: seq<TraitRecast>, ghost erasures: seq<Erasure>, ghost sites: seq<Site>)
      requires sites == SitesOf(recasts) && forall j | 0 <= j < |sites| :: PlainCandidates(table, sites[j].candidates)
      requires AllPlain(table, possible) && Facts(table, possible) == SeedFacts(table, erasures)
      modifies this
      ensures AllPlain(table, possible)
      ensures forall v :: v in Facts(table, possible) <==> Live(table, erasures, sites, v)
    {
      SeedsAreSound(table, erasures, sites);
      ghost var universe := Universe(table, erasures, sites);
      ghost var now := Facts(table, possible);
      var changed := true;
      while changed
        invariant AllPlain(table, possible) && now == Facts(table, possible)
        invariant SeedFacts(table, erasures) <= now && Sound(table, erasures, sites, now)
        invariant !changed ==> RecastClosed(table, sites, now)
        decreases universe - now, changed
      {
        RoundIsSound(table, erasures, sites, |sites|, now);
        RoundAtRest(table, sites, now);
        changed := Round(recasts, sites);
        now := RoundFacts(table, sites, |sites|, now);
      }
      ClosedIsComplete(table, erasures, sites, now);
    }

    /** One pass over all recast nodes. */
    method Round(recasts: seq<TraitRecast>, ghost sites: seq<Site>) returns (changed: bool)
      requires sites == SitesOf(recasts) && forall j | 0 <= j < |sites| :: PlainCandidates(table, sites[j].candidates)
      requires AllPlain(table, possible)
      modifies this
      ensures AllPlain(table, possible)
      ensures Facts(table, possible) == RoundFacts(table, sites, |sites|, old(Facts(table, possible)))
      ensures changed <==> Facts(table, possible) != old(Facts(table, possible))
    {
      changed := false;
      ghost var start := Facts(table, possible);
      ghost var now := start;
      for j := 0 to |recasts|
        invariant AllPlain(table, possible) && now == Facts(table, possible)
        invariant now == RoundFacts(table, sites, j, start)
        invariant start <= now && (changed <==> now != start)
      {
        PushGrows(table, sites[j], |sites[j].candidates|, now);
        var here := PushThrough(recasts[j], sites[j]);
        changed := here || changed;
        now := PushFacts(table, sites[j], |sites[j].candidates|, now);
      }
    }

    /** The candidates of one node, against the source's types as they were on arrival. */
    method PushThrough(recast: TraitRecast, ghost site: Site) returns (changed: bool)
      requires site == Site(recast.source, recast.target, recast.node.candidates)
      requires PlainCandidates(table, site.candidates) && AllPlain(table, possible)
      modifies this
      ensures AllPlain(table, possible)
      ensures Facts(table, possible) == PushFacts(table, site, |site.candidates|, old(Facts(table, possible)))
      ensures changed <==> Facts(table, possible) != old(Facts(table, possible))
    {
      changed := false;
      ghost var start := Facts(table, possible);
      ghost var now := start;
      var candidates := recast.node.candidates;
      var sources := At(possible, FlowKeyOf(recast.source));
      AtReflects(table, possible, FlowKeyOf(recast.source));
      for i := 0 to |candidates|
        invariant AllPlain(table, possible) && now == Facts(table, possible)
        invariant now == PushFacts(table, site, i, start)
        invariant start <= now && (changed <==> now != start)
      {
        var concrete := candidates[i].concreteType;
        ReflectsContains(table, sources, FlowKeyOf(recast.source), start, concrete);
        var found := ContainsType(table, sources, concrete);
        if found {
          var here := AddPossibleTraitType(recast.target, concrete);
          changed := here || changed;
          now := now + Added(table, FlowKeyOf(recast.target), concrete);
        }
      }
    }
  }

  // ----- What a pass does to the set of facts -----

  ghost function PushFacts(table: AliasTable, site: Site, n: nat, start: set<Fact>): set<Fact>
    requires n <= |site.candidates|
  {
    if n == 0 then start
    else
      var before := PushFacts(table, site, n - 1, start);
      var concrete := site.candidates[n - 1].concreteType;
      if Fact(FlowKeyOf(site.source), Canon(table, concrete)) in start
      then before + Added(table, FlowKeyOf(site.target), concrete)
      else before
  }

  ghost function RoundFacts(table: AliasTable, sites: seq<Site>, n: nat, start: set<Fact>): set<Fact>
    requires n <= |sites|
  {
    if n == 0 then start
    else PushFacts(table, sites[n - 1], |sites[n - 1].candidates|, RoundFacts(table, sites, n - 1, start))
  }

  lemma {:induction false} PushGrows(table: AliasTable, site: Site, n: nat, start: set<Fact>)
    requires n <= |site.candidates|
    ensures start <= PushFacts(table, site, n, start)
    ensures forall i |
      0 <= i < n && Fact(FlowKeyOf(site.source), Canon(table, site.candidates[i].concreteType)) in start ::
      Fact(FlowKeyOf(site.target), Canon(table, site.candidates[i].concreteType))
      in PushFacts(table, site, n, start)
  {
    if n > 0 {
      PushGrows(table, site, n - 1, start);
    }
  }

  lemma {:induction false} PushIsSound(table: AliasTable, erasures: seq<Erasure>, sites: seq<Site>, j: nat, n: nat,
                                       start: set<Fact>)
    requires j < |sites| && n <= |sites[j].candidates| && Sound(table, erasures, sites, start)
    ensures Sound(table, erasures, sites, PushFacts(table, sites[j], n, start))
  {
    if n > 0 {
      PushIsSound(table, erasures, sites, j, n - 1, start);
      PushGrows(table, sites[j], n - 1, start);
      PushStepIsSound(table, erasures, sites, j, n - 1, PushFacts(table, sites[j], n - 1, start), start);
    }
  }

  /** One candidate. */
  lemma PushStepIsSound(table: AliasTable, erasures: seq<Erasure>, sites: seq<Site>, j: nat, i: nat,
                        before: set<Fact>, start: set<Fact>)
    requires j < |sites| && i < |sites[j].candidates| && start <= before && Sound(table, erasures, sites, before)
    requires before == PushFacts(table, sites[j], i, start)
    ensures Sound(table, erasures, sites, PushFacts(table, sites[j], i + 1, start))
  {
    var concrete := sites[j].candidates[i].concreteType;
    var value := Fact(FlowKeyOf(sites[j].source), Canon(table, concrete));
    if value in start {
      var after := before + Added(table, FlowKeyOf(sites[j].target), concrete);
      RecastKeepsSound(table, erasures, sites, before, after, j, i);
      assert PushFacts(table, sites[j], i + 1, start) == after;
    } else {
      assert PushFacts(table, sites[j], i + 1, start) == before;
    }
  }

  lemma {:induction false} RoundIsSound(table: AliasTable, erasures: seq<Erasure>, sites: seq<Site>, n: nat,
                                        start: set<Fact>)
    requires n <= |sites| && Sound(table, erasures, sites, start)
    ensures Sound(table, erasures, sites, RoundFacts(table, sites, n, start))
    ensures start <= RoundFacts(table, sites, n, start)
  {
    if n > 0 {
      RoundIsSound(table, erasures, sites, n - 1, start);
      var before := RoundFacts(table, sites, n - 1, start);
      PushIsSound(table, erasures, sites, n - 1, |sites[n - 1].candidates|, before);
      PushGrows(table, sites[n - 1], |sites[n - 1].candidates|, before);
    }
  }

  lemma {:induction false} RoundGrows(table: AliasTable, sites: seq<Site>, m: nat, n: nat, start: set<Fact>)
    requires m <= n <= |sites|
    ensures RoundFacts(table, sites, m, start) <= RoundFacts(table, sites, n, start)
    decreases n
  {
    if m < n {
      RoundGrows(table, sites, m, n - 1, start);
      PushGrows(table, sites[n - 1], |sites[n - 1].candidates|, RoundFacts(table, sites, n - 1, start));
    }
  }

  /** A pass that adds nothing has reached a closed set. */
  lemma RoundAtRest(table: AliasTable, sites: seq<Site>, facts: set<Fact>)
    ensures RoundFacts(table, sites, |sites|, facts) == facts ==> RecastClosed(table, sites, facts)
  {
    if RoundFacts(table, sites, |sites|, facts) == facts {
      forall j, c |
        0 <= j < |sites| && Lists(table, sites[j].candidates, c) && Fact(FlowKeyOf(sites[j].source), c) in facts
        ensures Fact(FlowKeyOf(sites[j].target), c) in facts
      {
        RoundGrows(table, sites, 0, j, facts);
        RoundGrows(table, sites, j + 1, |sites|, facts);
        var i :| 0 <= i < |sites[j].candidates| && Canon(table, sites[j].candidates[i].concreteType) == c;
        PushGrows(table, sites[j], |sites[j].candidates|, RoundFacts(table, sites, j, facts));
      }
    }
  }

  // ----- Facts against runs -----

  ghost function SeedFacts(table: AliasTable, erasures: seq<Erasure>): set<Fact> {
    if erasures == [] then {}
    else
      var last := erasures[|erasures| - 1];
      SeedFacts(table, erasures[..|erasures| - 1]) + Added(table, FlowKeyOf(last.target), last.concreteType)
  }

  ghost predicate AllLive(table: AliasTable, erasures: seq<Erasure>, sites: seq<Site>, facts: set<Fact>) {
    forall v | v in facts :: Live(table, erasures, sites, v)
  }

  ghost predicate ViewClosed(facts: set<Fact>) {
    forall v | v in facts :: v.(key := v.key.(mutable := false)) in facts
  }

  /** What every step of the fixpoint keeps. */
  ghost predicate Sound(table: AliasTable, erasures: seq<Erasure>, sites: seq<Site>, facts: set<Fact>) {
    facts <= Universe(table, erasures, sites) && ViewClosed(facts) && AllLive(table, erasures, sites, facts)
  }

  ghost predicate RecastClosed(table: AliasTable, sites: seq<Site>, facts: set<Fact>) {
    forall j, c |
      0 <= j < |sites| && Lists(table, sites[j].candidates, c) && Fact(FlowKeyOf(sites[j].source), c) in facts ::
      Fact(FlowKeyOf(sites[j].target), c) in facts
  }

  ghost function Keys(erasures: seq<Erasure>, sites: seq<Site>): set<FlowKey> {
    (set i | 0 <= i < |erasures| :: FlowKeyOf(erasures[i].target))
    + (set i | 0 <= i < |erasures| :: FlowKeyOf(erasures[i].target).(mutable := false))
    + (set j | 0 <= j < |sites| :: FlowKeyOf(sites[j].target))
    + (set j | 0 <= j < |sites| :: FlowKeyOf(sites[j].target).(mutable := false))
  }

  ghost function Concretes(table: AliasTable, erasures: seq<Erasure>, sites: seq<Site>): set<Type> {
    (set i | 0 <= i < |erasures| :: Canon(table, erasures[i].concreteType))
    + (set j, i | 0 <= j < |sites| && 0 <= i < |sites[j].candidates| ::
         Canon(table, sites[j].candidates[i].concreteType))
  }

  /** Everything that could ever be recorded: the measure of the fixpoint. */
  ghost function Universe(table: AliasTable, erasures: seq<Erasure>, sites: seq<Site>): set<Fact> {
    set k, c | k in Keys(erasures, sites) && c in Concretes(table, erasures, sites) :: Fact(k, c)
  }

  lemma SeedsAreSound(table: AliasTable, erasures: seq<Erasure>, sites: seq<Site>)
    ensures Sound(table, erasures, sites, SeedFacts(table, erasures))
  {
    SeedPrefixIsLive(table, erasures, sites, |erasures|);
    SeedPrefixInUniverse(table, erasures, sites, |erasures|);
    assert erasures[..|erasures|] == erasures;
  }

  lemma {:induction false} SeedPrefixIsLive(table: AliasTable, erasures: seq<Erasure>, sites: seq<Site>, n: nat)
    requires n <= |erasures|
    ensures AllLive(table, erasures, sites, SeedFacts(table, erasures[..n]))
    ensures ViewClosed(SeedFacts(table, erasures[..n]))
  {
    if n > 0 {
      var last := erasures[n - 1];
      SeedPrefixIsLive(table, erasures, sites, n - 1);
      assert erasures[..n][..n - 1] == erasures[..n - 1];
      ErasedIsLive(table, erasures, sites, n - 1);
      AddedIsLive(table, erasures, sites, SeedFacts(table, erasures[..n - 1]), FlowKeyOf(last.target),
                  last.concreteType);
    }
  }

  lemma {:induction false} SeedHolds(table: AliasTable, erasures: seq<Erasure>, i: nat)
    requires i < |erasures|
    ensures
      Fact(FlowKeyOf(erasures[i].target), Canon(table, erasures[i].concreteType)) in SeedFacts(table, erasures)
  {
    if i < |erasures| - 1 {
      SeedHolds(table, erasures[..|erasures| - 1], i);
    }
  }

  /** A live value, and its immutable view, join the facts. */
  lemma AddedIsLive(
    table: AliasTable, erasures: seq<Erasure>, sites: seq<Site>, facts: set<Fact>, key: FlowKey, concrete: Type)
    requires AllLive(table, erasures, sites, facts) && ViewClosed(facts)
    requires Live(table, erasures, sites, Fact(key, Canon(table, concrete)))
    ensures AllLive(table, erasures, sites, facts + Added(table, key, concrete))
    ensures ViewClosed(facts + Added(table, key, concrete))
  {
    LiveViews(table, erasures, sites, Fact(key, Canon(table, concrete)));
  }

  lemma {:induction false} SeedPrefixInUniverse(table: AliasTable, erasures: seq<Erasure>, sites: seq<Site>, n: nat)
    requires n <= |erasures|
    ensures SeedFacts(table, erasures[..n]) <= Universe(table, erasures, sites)
  {
    if n > 0 {
      SeedPrefixInUniverse(table, erasures, sites, n - 1);
      assert erasures[..n][..n - 1] == erasures[..n - 1];
      assert FlowKeyOf(erasures[n - 1].target) in Keys(erasures, sites);
      assert FlowKeyOf(erasures[n - 1].target).(mutable := false) in Keys(erasures, sites);
      assert Canon(table, erasures[n - 1].concreteType) in Concretes(table, erasures, sites);
    }
  }

  lemma RecastKeepsSound(table: AliasTable, erasures: seq<Erasure>, sites: seq<Site>, facts: set<Fact>,
                         after: set<Fact>, j: nat, i: nat)
    requires Sound(table, erasures, sites, facts) && j < |sites| && i < |sites[j].candidates|
    requires Fact(FlowKeyOf(sites[j].source), Canon(table, sites[j].candidates[i].concreteType)) in facts
    requires after == facts + Added(table, FlowKeyOf(sites[j].target), sites[j].candidates[i].concreteType)
    ensures Sound(table, erasures, sites, after)
  {
    var concrete := sites[j].candidates[i].concreteType;
    var c := Canon(table, concrete);
    assert Lists(table, sites[j].candidates, c);
    LiveRecasts(table, erasures, sites, j, c);
    AddedIsLive(table, erasures, sites, facts, FlowKeyOf(sites[j].target), concrete);
    AddedInUniverse(table, erasures, sites, j, i);
  }

  lemma AddedInUniverse(table: AliasTable, erasures: seq<Erasure>, sites: seq<Site>, j: nat, i: nat)
    requires j < |sites| && i < |sites[j].candidates|
    ensures Added(table, FlowKeyOf(sites[j].target), sites[j].candidates[i].concreteType)
            <= Universe(table, erasures, sites)
  {
    assert FlowKeyOf(sites[j].target) in Keys(erasures, sites);
    assert FlowKeyOf(sites[j].target).(mutable := false) in Keys(erasures, sites);
    assert Canon(table, sites[j].candidates[i].concreteType) in Concretes(table, erasures, sites);
  }

  /** A closed set of live facts holding the seeds is exactly the set of live values. */
  lemma ClosedIsComplete(table: AliasTable, erasures: seq<Erasure>, sites: seq<Site>, facts: set<Fact>)
    requires SeedFacts(table, erasures) <= facts && ViewClosed(facts) && RecastClosed(table, sites, facts)
    requires AllLive(table, erasures, sites, facts)
    ensures forall v :: v in facts <==> Live(table, erasures, sites, v)
  {
    forall v | Live(table, erasures, sites, v) ensures v in facts {
      var i: nat, steps :| RunsTo(table, erasures, sites, i, steps, v);
      RunStaysInside(table, erasures, sites, facts, i, steps);
    }
  }

  lemma {:induction false} RunStaysInside(table: AliasTable, erasures: seq<Erasure>, sites: seq<Site>,
                                          facts: set<Fact>, i: nat, steps: seq<Step>)
    requires SeedFacts(table, erasures) <= facts && ViewClosed(facts) && RecastClosed(table, sites, facts)
    requires After(table, erasures, sites, i, steps).Some?
    ensures FactOf(After(table, erasures, sites, i, steps).value) in facts
    decreases steps
  {
    if steps == [] {
      SeedHolds(table, erasures, i);
    } else {
      var before := After(table, erasures, sites, i, steps[..|steps| - 1]).value;
      RunStaysInside(table, erasures, sites, facts, i, steps[..|steps| - 1]);
      StepStaysInside(table, sites, facts, before, steps[|steps| - 1]);
    }
  }

  lemma StepStaysInside(table: AliasTable, sites: seq<Site>, facts: set<Fact>, v: Value, step: Step)
    requires ViewClosed(facts) && RecastClosed(table, sites, facts) && FactOf(v) in facts
    requires Move(table, sites, step, v).Some?
    ensures FactOf(Move(table, sites, step, v).value) in facts
  {
    match step
    case View => assert FactOf(v).(key := FactOf(v).key.(mutable := false)) in facts;
    case Recast(j) => KeyIsPointer(v.at, sites[j].source);
  }

  // ----- The whole pass -----

  ghost function Nodes(recasts: seq<TraitRecast>): set<CastNode> {
    set r | r in recasts :: r.node
  }

  /**
    narrowRuntimeTraitCastCandidates, on the erasures and recasts that the tree
    walk has collected: `possible` ends as the set of live values, and every node
    keeps exactly the candidates that can arrive there.
   */
  method NarrowRuntimeTraitCastCandidates(table: AliasTable, erasures: seq<Erasure>, recasts: seq<TraitRecast>)
    returns (flow: Flow)
    requires Distinct(recasts)
    requires forall i | 0 <= i < |erasures| :: Plain(table, erasures[i].concreteType)
    requires forall j | 0 <= j < |recasts| :: PlainCandidates(table, recasts[j].node.candidates)
    modifies Nodes(recasts)
    ensures flow.table == table
    ensures forall p, c ::
      Fact(FlowKeyOf(p), c) in Facts(table, flow.possible) <==> Arrives(table, erasures, old(SitesOf(recasts)), p, c)
    ensures SitesOf(recasts) == Narrowed(table, erasures, old(SitesOf(recasts)))
  {
    ghost var sites := SitesOf(recasts);
    flow := new Flow(table);
    flow.Seed(erasures);
    flow.Propagate(recasts, erasures, sites);
    for j := 0 to |recasts|
      invariant forall v :: v in Facts(table, flow.possible) <==> Live(table, erasures, sites, v)
      invariant flow.table == table && AllPlain(table, flow.possible)
      invariant forall k | 0 <= k < j ::
        recasts[k].node.candidates == Kept(table, erasures, sites, sites[k].source, sites[k].candidates)
      invariant forall k | j <= k < |recasts| :: recasts[k].node.candidates == sites[k].candidates
    {
      assert recasts[j].node in Nodes(recasts);
      FilterCandidates(flow, recasts[j], erasures, sites);
    }
    forall p, c
      ensures Fact(FlowKeyOf(p), c) in Facts(table, flow.possible) <==> Arrives(table, erasures, sites, p, c)
    {
      ArrivesIsLive(table, erasures, sites, p, c);
    }
  }

  method FilterCandidates(flow: Flow, recast: TraitRecast, ghost erasures: seq<Erasure>, ghost sites: seq<Site>)
    requires PlainCandidates(flow.table, recast.node.candidates) && AllPlain(flow.table, flow.possible)
    requires forall v :: v in Facts(flow.table, flow.possible) <==> Live(flow.table, erasures, sites, v)
    modifies recast.node
    ensures recast.node.candidates
            == Kept(flow.table, erasures, sites, recast.source, old(recast.node.candidates))
  {
    var candidates := recast.node.candidates;
    var sources := At(flow.possible, FlowKeyOf(recast.source));
    AtReflects(flow.table, flow.possible, FlowKeyOf(recast.source));
    var kept: seq<Candidate> := [];
    for i := 0 to |candidates|
      invariant kept == Kept(flow.table, erasures, sites, recast.source, candidates[..i])
    {
      assert candidates[..i + 1][..i] == candidates[..i];
      ReflectsContains(flow.table, sources, FlowKeyOf(recast.source), Facts(flow.table, flow.possible),
                       candidates[i].concreteType);
      ArrivesIsLive(flow.table, erasures, sites, recast.source, Canon(flow.table, candidates[i].concreteType));
      var found := ContainsType(flow.table, sources, candidates[i].concreteType);
      if found {
        kept := kept + [candidates[i]];
      }
    }
    assert candidates[..|candidates|] == candidates;
    recast.node.candidates := kept;
  }
}
