/**
  What holds when the instantiation worklist ends: every closed reference has an
  instance under its key, each key is instantiated once, and nothing is
  instantiated that a chain of references from a base module does not demand.

  The worklist need not end, since a polymorphic recursion can demand ever new
  keys; `fuel` bounds the rounds.  It is enough when it is the number of keys that
  can be demanded; nothing else below depends on its value.
 */
module SpecializationLaws {
  import opened Types
  import opened IdentityLaws
  import opened Specializations
  import opened TypeEquality

  // ----- What a scan does -----

  ghost predicate Asks(lib: Library, item: Item, r: Request) {
    item.Use? && Closed(item.reference) && Available(lib, item.reference) && RequestOf(lib, item.reference) == r
  }

  /** Some of the items demands the request. */
  ghost predicate Demands(lib: Library, items: seq<Item>, r: Request) {
    exists k | 0 <= k < |items| :: Asks(lib, items[k], r)
  }

  ghost predicate DistinctKeys(all: seq<Request>) {
    forall i, j | 0 <= i < j < |all| :: all[i].Key() != all[j].Key()
  }

  /** The item needs nothing more: its instance is requested, its method is there. */
  ghost predicate Served(lib: Library, item: Item, all: seq<Request>) {
    match item
    case Need(r) => RequirementTarget(lib, r).Some?
    case Use(r) => Closed(r) ==> Available(lib, r) && RequestOf(lib, r).Key() in Keys(all)
  }

  ghost predicate AllServed(lib: Library, items: seq<Item>, all: seq<Request>) {
    forall k | 0 <= k < |items| :: Served(lib, items[k], all)
  }

  /** The item ends the extraction. */
  ghost predicate Bad(lib: Library, item: Item) {
    match item
    case Need(r) => RequirementTarget(lib, r).None?
    case Use(r) => Closed(r) && !Available(lib, r)
  }

  lemma KeysGrow(all: seq<Request>, more: seq<Request>)
    requires all <= more
    ensures Keys(all) <= Keys(more)
  {
    forall k | k in Keys(all) ensures k in Keys(more) {
      var i :| 0 <= i < |all| && all[i].Key() == k;
      assert more[i].Key() == k;
    }
  }

  ghost predicate ScanFacts(lib: Library, all: seq<Request>, items: seq<Item>, s: Scanned) {
    match s
    case Requests(more) =>
      && all <= more && DistinctKeys(more) && AllServed(lib, items, more)
      && forall i | |all| <= i < |more| :: Demands(lib, items, more[i])
    case Problem(item) => item in items && Bad(lib, item)
  }

  lemma ItemFacts(lib: Library, all: seq<Request>, item: Item)
    requires DistinctKeys(all)
    ensures var s := ScanItem(lib, all, item);
      match s
      case Requests(more) =>
        && all <= more <= all + more[|all|..] && DistinctKeys(more) && Served(lib, item, more)
        && forall i | |all| <= i < |more| :: Asks(lib, item, more[i])
      case Problem(p) => p == item && Bad(lib, item)
  {
    if item.Use? && Closed(item.reference) && Available(lib, item.reference) {
      KeysAppend(all, RequestOf(lib, item.reference));
    }
  }

  lemma {:induction false} ScanMeets(lib: Library, all: seq<Request>, items: seq<Item>)
    requires DistinctKeys(all)
    ensures ScanFacts(lib, all, items, Scan(lib, all, items))
  {
    if items != [] {
      var last := |items| - 1;
      ScanMeets(lib, all, items[..last]);
      var before := Scan(lib, all, items[..last]);
      if before.Requests? {
        ItemFacts(lib, before.all, items[last]);
        var after := ScanItem(lib, before.all, items[last]);
        if after.Requests? {
          KeysGrow(before.all, after.all);
          forall k | 0 <= k < |items| ensures Served(lib, items[k], after.all) {
            if k < last {
              assert Served(lib, items[..last][k], before.all);
            }
          }
          forall i | |all| <= i < |after.all| ensures Demands(lib, items, after.all[i]) {
            if i < |before.all| {
              var k :| 0 <= k < last && Asks(lib, items[..last][k], before.all[i]);
              assert Asks(lib, items[k], after.all[i]);
            } else {
              assert Asks(lib, items[last], after.all[i]);
            }
          }
        }
      }
    }
  }

  // ----- What the extraction keeps -----

  /** What the instance of a request refers to. */
  function InstanceItems(r: Request): seq<Item> {
    var functions := Instantiate(r);
    if functions.Some? then FunctionsItems(functions.value) else []
  }

  /** Demanded by a base module or by an earlier instance. */
  ghost predicate Justified(lib: Library, base: seq<Item>, all: seq<Request>, i: nat)
    requires i < |all|
  {
    Demands(lib, base, all[i]) || exists j | 0 <= j < i :: Demands(lib, InstanceItems(all[j]), all[i])
  }

  /** The base modules and the first `n` requests have been scanned. */
  ghost predicate Explored(lib: Library, base: seq<Item>, all: seq<Request>, n: nat) {
    && n <= |all| && DistinctKeys(all) && AllServed(lib, base, all)
    && InstancesServed(lib, all, n)
    && forall i: nat | i < |all| :: Justified(lib, base, all, i)
  }

  ghost predicate InstancesServed(lib: Library, all: seq<Request>, n: nat)
    requires n <= |all|
  {
    n > 0 ==> InstancesServed(lib, all, n - 1) && InstanceServed(lib, all, n - 1)
  }

  lemma {:induction false} InstancesServedAt(lib: Library, all: seq<Request>, n: nat, j: nat)
    requires j < n <= |all| && InstancesServed(lib, all, n)
    ensures InstanceServed(lib, all, j)
  {
    if j < n - 1 {
      InstancesServedAt(lib, all, n - 1, j);
    }
  }

  ghost predicate InstanceServed(lib: Library, all: seq<Request>, j: nat)
    requires j < |all|
  {
    Instantiate(all[j]).Some? && AllServed(lib, InstanceItems(all[j]), all)
  }

  lemma ServedStays(lib: Library, items: seq<Item>, all: seq<Request>, more: seq<Request>)
    requires AllServed(lib, items, all) && all <= more
    ensures AllServed(lib, items, more)
  {
    KeysGrow(all, more);
    forall k | 0 <= k < |items| ensures Served(lib, items[k], more) {
      assert Served(lib, items[k], all);
    }
  }

  lemma BaseExplored(lib: Library, base: seq<Item>)
    requires Scan(lib, [], base).Requests?
    ensures Explored(lib, base, Scan(lib, [], base).all, 0)
  {
    ScanMeets(lib, [], base);
  }

  lemma JustifiedStays(lib: Library, base: seq<Item>, all: seq<Request>, more: seq<Request>, i: nat)
    requires all <= more && i < |all| && Justified(lib, base, all, i)
    ensures Justified(lib, base, more, i)
  {
  }

  /** The requests that the scan of request `n` adds are justified by it. */
  lemma RoundJustified(lib: Library, base: seq<Item>, all: seq<Request>, n: nat, more: seq<Request>)
    requires n < |all| && all <= more
    requires forall i: nat | i < |all| :: Justified(lib, base, all, i)
    requires forall i: nat | |all| <= i < |more| :: Demands(lib, InstanceItems(all[n]), more[i])
    ensures forall i: nat | i < |more| :: Justified(lib, base, more, i)
  {
    forall i: nat | i < |more| ensures Justified(lib, base, more, i) {
      if i < |all| {
        JustifiedStays(lib, base, all, more, i);
      } else {
        assert Demands(lib, InstanceItems(more[n]), more[i]);
      }
    }
  }

  lemma InstanceServedStays(lib: Library, all: seq<Request>, j: nat, more: seq<Request>)
    requires j < |all| && all <= more && InstanceServed(lib, all, j)
    ensures InstanceServed(lib, more, j)
  {
    ServedStays(lib, InstanceItems(all[j]), all, more);
  }

  lemma {:induction false} InstancesStayServed(lib: Library, all: seq<Request>, n: nat, more: seq<Request>)
    requires n <= |all| && all <= more && InstancesServed(lib, all, n)
    ensures InstancesServed(lib, more, n)
  {
    if n > 0 {
      InstancesStayServed(lib, all, n - 1, more);
      InstanceServedStays(lib, all, n - 1, more);
    }
  }

  lemma RoundExplores(lib: Library, base: seq<Item>, all: seq<Request>, n: nat)
    requires Explored(lib, base, all, n) && n < |all| && Instantiate(all[n]).Some?
    requires Scan(lib, all, InstanceItems(all[n])).Requests?
    ensures Explored(lib, base, Scan(lib, all, InstanceItems(all[n])).all, n + 1)
  {
    var items := InstanceItems(all[n]);
    ScanMeets(lib, all, items);
    var more := Scan(lib, all, items).all;
    ServedStays(lib, base, all, more);
    InstancesStayServed(lib, all, n, more);
    RoundJustified(lib, base, all, n, more);
  }

  // ----- The whole extraction -----

  /** Every unit holds the resolved instance of its request. */
  ghost predicate Instantiated(lib: Library, units: seq<Unit>) {
    forall i | 0 <= i < |units| ::
      Instantiate(units[i].request).Some? &&
      units[i].functions == ResolvedFunctions(lib, Instantiate(units[i].request).value)
  }

  /** What the extraction promises about its units. */
  ghost predicate Complete(lib: Library, base: seq<Item>, units: seq<Unit>) {
    Explored(lib, base, RequestsOf(units), |units|) && Instantiated(lib, units)
  }

  function RequestsOf(units: seq<Unit>): (all: seq<Request>)
    ensures |all| == |units|
    ensures forall i | 0 <= i < |units| :: all[i] == units[i].request
  {
    seq(|units|, i requires 0 <= i < |units| => units[i].request)
  }

  /** A problem is a real one, met in a base module or in an instance that is demanded. */
  ghost predicate RealProblem(lib: Library, base: seq<Item>, outcome: Outcome) {
    match outcome
    case Failed(item) =>
      Bad(lib, item) && (item in base || exists r :: Reached(lib, base, r) && item in InstanceItems(r))
    case Broken(request) =>
      && (|request.arguments| != |request.template.parameters| || request.template.functions.None?)
      && Reached(lib, base, request)
    case _ => true
  }

  /** A chain of demands leads from the base modules to the request. */
  ghost predicate DemandChain(lib: Library, base: seq<Item>, path: seq<Request>, r: Request) {
    && path != [] && path[|path| - 1] == r && Demands(lib, base, path[0])
    && forall k | 0 <= k < |path| - 1 :: Demands(lib, InstanceItems(path[k]), path[k + 1])
  }

  ghost predicate Reached(lib: Library, base: seq<Item>, r: Request) {
    exists path :: DemandChain(lib, base, path, r)
  }

  lemma {:induction false} JustifiedIsReached(lib: Library, base: seq<Item>, all: seq<Request>, i: nat)
    requires forall j: nat | j < |all| :: Justified(lib, base, all, j)
    requires i < |all|
    ensures Reached(lib, base, all[i])
  {
    assert Justified(lib, base, all, i);
    if Demands(lib, base, all[i]) {
      assert DemandChain(lib, base, [all[i]], all[i]);
    } else {
      var j: nat :| j < i && Demands(lib, InstanceItems(all[j]), all[i]);
      JustifiedIsReached(lib, base, all, j);
      ReachesOn(lib, base, all[j], all[i]);
    }
  }

  lemma ReachesOn(lib: Library, base: seq<Item>, r: Request, next: Request)
    requires Reached(lib, base, r) && Demands(lib, InstanceItems(r), next)
    ensures Reached(lib, base, next)
  {
    var path :| DemandChain(lib, base, path, r);
    var longer := path + [next];
    forall k | 0 <= k < |longer| - 1 ensures Demands(lib, InstanceItems(longer[k]), longer[k + 1]) {
      assert longer[k] == path[k];
      if k < |path| - 1 {
        assert longer[k + 1] == path[k + 1];
      }
    }
    assert DemandChain(lib, base, longer, next);
  }

  lemma InstantiatedNext(lib: Library, units: seq<Unit>, u: Unit)
    requires Instantiated(lib, units) && Instantiate(u.request).Some?
    requires u.functions == ResolvedFunctions(lib, Instantiate(u.request).value)
    ensures Instantiated(lib, units + [u])
  {
  }

  /** What the worklist loop keeps. */
  ghost predicate Sound(e: Extraction, base: seq<Item>)
    reads e
  {
    e.Valid() && |e.units| == e.taken && Explored(e.lib, base, e.all, e.taken) && Instantiated(e.lib, e.units)
  }

  method Advance(e: Extraction, ghost base: seq<Item>) returns (outcome: Outcome)
    requires Sound(e, base) && e.queue != []
    modifies e
    ensures RealProblem(e.lib, base, outcome)
    ensures outcome == Going ==> Sound(e, base) && e.taken == old(e.taken) + 1
    ensures outcome != Done && outcome != OutOfFuel
  {
    ghost var all, taken := e.all, e.taken;
    JustifiedIsReached(e.lib, base, all, taken);
    ScanMeets(e.lib, all, InstanceItems(all[taken]));
    ghost var units := e.units;
    outcome := e.Round();
    if outcome == Going {
      RoundExplores(e.lib, base, all, taken);
      InstantiatedNext(e.lib, units, e.units[|units|]);
    }
  }

  /** Every request that a chain of demands reaches has one of the keys. */
  ghost predicate KeysWithin(lib: Library, base: seq<Item>, keys: set<string>) {
    forall r | Reached(lib, base, r) :: r.Key() in keys
  }

  /** No more requests than keys that can be demanded. */
  lemma RequestsFit(lib: Library, base: seq<Item>, all: seq<Request>, n: nat, keys: set<string>)
    requires Explored(lib, base, all, n) && KeysWithin(lib, base, keys)
    ensures |all| <= |keys|
  {
    forall i: nat | i < |all| ensures all[i].Key() in keys {
      JustifiedIsReached(lib, base, all, i);
    }
    DistinctKeysFit(all, keys);
  }

  lemma {:induction false} DistinctKeysFit(all: seq<Request>, keys: set<string>)
    requires DistinctKeys(all) && forall i | 0 <= i < |all| :: all[i].Key() in keys
    ensures |all| <= |keys|
  {
    if all != [] {
      var last := |all| - 1;
      DistinctKeysFit(all[..last], keys - {all[last].Key()});
    }
  }

  /** When the keys that can be demanded are finitely many, as many rounds as keys suffice. */
  method Extract(lib: Library, modules: seq<Module>, fuel: nat, ghost keys: set<string>)
    returns (outcome: Outcome, resolved: seq<Module>, units: seq<Unit>)
    ensures outcome.Done? ==>
      Complete(lib, ModulesItems(modules), units) && resolved == ResolvedModules(lib, modules)
    ensures RealProblem(lib, ModulesItems(modules), outcome)
    ensures !outcome.Going?
    ensures KeysWithin(lib, ModulesItems(modules), keys) && |keys| <= fuel ==> !outcome.OutOfFuel?
  {
    ghost var base := ModulesItems(modules);
    var e := new Extraction(lib);
    ScanMeets(lib, [], base);
    outcome, resolved := e.QueueModules(modules);
    units := [];
    if outcome != Going {
      return;
    }
    BaseExplored(lib, base);
    var rounds := 0;
    while e.queue != [] && rounds < fuel
      invariant fresh(e) && e.lib == lib && Sound(e, base) && rounds == e.taken
      decreases fuel - rounds
    {
      outcome := Advance(e, base);
      if outcome != Going {
        return;
      }
      rounds := rounds + 1;
    }
    if e.queue != [] {
      if KeysWithin(lib, base, keys) {
        RequestsFit(lib, base, e.all, e.taken, keys);
      }
      return OutOfFuel, resolved, units;
    }
    units := e.units;
    outcome := Done;
    assert RequestsOf(units) == e.all;
  }

  // ----- Main results -----

  lemma {:induction false} FlatMeets(parts: seq<seq<Item>>, i: nat, item: Item)
    requires i < |parts| && item in parts[i]
    ensures item in Flat(parts)
  {
    if i < |parts| - 1 {
      FlatMeets(parts[..|parts| - 1], i, item);
    }
  }

  lemma FunctionsMeet(functions: seq<Function>, f: nat, c: nat, item: Item)
    requires f < |functions| && c < |functions[f].calls| && item in CallItems(functions[f].calls[c])
    ensures item in FunctionsItems(functions)
  {
    FlatMeets(CallParts(functions[f].calls), c, item);
    FlatMeets(FunctionParts(functions), f, item);
  }

  /** `inner` is `o` or a part of it. */
  predicate PartOf(inner: Operand, o: Operand) {
    || inner == o
    || (exists i | 0 <= i < |o.fields| :: PartOf(inner, o.fields[i]))
    || (o.left.Some? && PartOf(inner, o.left.value))
    || (o.right.Some? && PartOf(inner, o.right.value))
  }

  lemma {:induction false} PartsMeet(o: Operand, inner: Operand, r: Reference)
    requires PartOf(inner, o) && inner.generic == Some(r)
    ensures Use(r) in OperandItems(o)
  {
    if inner != o {
      if i :| 0 <= i < |o.fields| && PartOf(inner, o.fields[i]) {
        PartsMeet(o.fields[i], inner, r);
        FlatMeets(OperandParts(o.fields), i, Use(r));
      } else if o.left.Some? && PartOf(inner, o.left.value) {
        PartsMeet(o.left.value, inner, r);
      } else {
        PartsMeet(o.right.value, inner, r);
      }
    }
  }

  ghost predicate HasUnit(lib: Library, units: seq<Unit>, r: Reference) {
    Available(lib, r) && exists i | 0 <= i < |units| :: units[i].request.Key() == RequestOf(lib, r).Key()
  }

  lemma ServedHasUnit(lib: Library, items: seq<Item>, units: seq<Unit>, r: Reference)
    requires AllServed(lib, items, RequestsOf(units)) && Use(r) in items && Closed(r)
    ensures HasUnit(lib, units, r)
  {
    var k :| 0 <= k < |items| && items[k] == Use(r);
    assert Served(lib, items[k], RequestsOf(units));
  }

  /** Every closed reference in a call of a base function has an instance under its key. */
  lemma BaseCallHasUnit(lib: Library, modules: seq<Module>, units: seq<Unit>, m: nat, f: nat, c: nat, r: Reference)
    requires Complete(lib, ModulesItems(modules), units)
    requires m < |modules| && f < |modules[m].functions| && c < |modules[m].functions[f].calls|
    requires modules[m].functions[f].calls[c].generic == Some(r) && Closed(r)
    ensures HasUnit(lib, units, r)
  {
    FunctionsMeet(modules[m].functions, f, c, Use(r));
    FlatMeets(ModuleParts(modules), m, Use(r));
    ServedHasUnit(lib, ModulesItems(modules), units, r);
  }

  /** So has every closed reference anywhere in the initialiser of a global. */
  lemma GlobalHasUnit(lib: Library, modules: seq<Module>, units: seq<Unit>, m: nat, g: nat, inner: Operand,
                      r: Reference)
    requires Complete(lib, ModulesItems(modules), units)
    requires m < |modules| && g < |modules[m].globals| && PartOf(inner, modules[m].globals[g])
    requires inner.generic == Some(r) && Closed(r)
    ensures HasUnit(lib, units, r)
  {
    PartsMeet(modules[m].globals[g], inner, r);
    FlatMeets(OperandParts(modules[m].globals), g, Use(r));
    FlatMeets(ModuleParts(modules), m, Use(r));
    ServedHasUnit(lib, ModulesItems(modules), units, r);
  }

  /** And every closed reference in a call of an instance, as it is in the output. */
  lemma InstanceCallHasUnit(lib: Library, base: seq<Item>, units: seq<Unit>, u: nat, f: nat, c: nat, r: Reference)
    requires Complete(lib, base, units)
    requires u < |units| && f < |units[u].functions| && c < |units[u].functions[f].calls|
    requires units[u].functions[f].calls[c].generic == Some(r) && Closed(r)
    ensures HasUnit(lib, units, r)
  {
    var functions := Instantiate(units[u].request).value;
    ResolvedFunctionsAt(lib, functions, f);
    ResolvedCallsAt(lib, functions[f].calls, c);
    FunctionsMeet(functions, f, c, Use(r));
    InstancesServedAt(lib, RequestsOf(units), |units|, u);
    ServedHasUnit(lib, InstanceItems(units[u].request), units, r);
  }

  // ----- What a key says -----

  /** The names in a key can be told apart. */
  ghost predicate Readable(r: Request) {
    '\0' !in r.template.moduleName && '\0' !in r.template.name && SpelledAll(r.arguments)
  }

  /** Keys are equal exactly when the names of the templates and the readings of the arguments are. */
  lemma KeyDecides(a: Request, b: Request)
    requires Readable(a) && Readable(b)
    ensures a.Key() == b.Key() <==>
      && a.template.moduleName == b.template.moduleName && a.template.name == b.template.name
      && ReadingAll(a.arguments) == ReadingAll(b.arguments)
  {
    KeyText(a);
    KeyText(b);
    TextsDecide(a.arguments, b.arguments);
    if a.Key() == b.Key() {
      KeyParts(a.template.moduleName, a.template.name, Texts(a.arguments),
               b.template.moduleName, b.template.name, Texts(b.arguments));
    }
  }

  lemma KeyText(r: Request)
    ensures r.Key() == r.template.moduleName + "\0" + r.template.name + "\0" + Texts(r.arguments)
  {
    JoinedTexts(r.arguments);
    assert Identities(r.arguments)
        == seq(|r.arguments|, i requires 0 <= i < |r.arguments| => Identity(r.arguments[i]));
  }

  lemma KeyParts(m: string, a: string, x: string, n: string, b: string, y: string)
    requires '\0' !in m && '\0' !in a && '\0' !in n && '\0' !in b
    requires m + "\0" + a + "\0" + x == n + "\0" + b + "\0" + y
    ensures m == n && a == b && x == y
  {
    FirstParts(m, a, x);
    FirstParts(n, b, y);
    SplitClean(m, "\0" + (a + ("\0" + x)), n, "\0" + (b + ("\0" + y)), {'\0'});
    Drop("\0", a + ("\0" + x), b + ("\0" + y));
    SplitClean(a, "\0" + x, b, "\0" + y, {'\0'});
    Drop("\0", x, y);
  }

  lemma FirstParts(m: string, a: string, x: string)
    ensures m + "\0" + a + "\0" + x == m + ("\0" + (a + ("\0" + x)))
  {
  }

  /** Templates are stored under their own names. */
  predicate StoredByName(lib: Library) {
    forall k | k in lib.templates :: lib.templates[k].moduleName == k.0 && lib.templates[k].name == k.1
  }

  /** The unit instantiates the template that is referred to, for arguments with the reading of the given ones. */
  ghost predicate Implements(lib: Library, u: Unit, r: Reference)
    requires Available(lib, r)
  {
    && u.request.template == lib.templates[(r.moduleName, r.name)]
    && ReadingAll(u.request.arguments) == ReadingAll(r.arguments)
  }

  /** What is instantiated was asked for, so its template is one of the library. */
  lemma UnitHasTemplate(lib: Library, base: seq<Item>, units: seq<Unit>, i: nat)
    requires Complete(lib, base, units) && i < |units|
    ensures units[i].request.template in lib.templates.Values
  {
    assert Justified(lib, base, RequestsOf(units), i);
  }

  /** With readable names, an instance under the key of a reference is the instance that it asks for. */
  lemma UnitImplements(lib: Library, base: seq<Item>, units: seq<Unit>, r: Reference)
    requires Complete(lib, base, units) && HasUnit(lib, units, r) && StoredByName(lib)
    requires Readable(RequestOf(lib, r)) && forall i | 0 <= i < |units| :: Readable(units[i].request)
    ensures exists i | 0 <= i < |units| :: Implements(lib, units[i], r)
  {
    var i :| 0 <= i < |units| && units[i].request.Key() == RequestOf(lib, r).Key();
    KeyDecides(units[i].request, RequestOf(lib, r));
    UnitHasTemplate(lib, base, units, i);
    assert Implements(lib, units[i], r);
  }

  /** No concrete trait requirement is left in an instance. */
  lemma InstanceHasNoRequirement(lib: Library, base: seq<Item>, units: seq<Unit>, u: nat, f: nat, c: nat)
    requires Complete(lib, base, units)
    requires u < |units| && f < |units[u].functions| && c < |units[u].functions[f].calls|
    ensures !Pending(units[u].functions[f].calls[c])
  {
    var functions := Instantiate(units[u].request).value;
    ResolvedFunctionsAt(lib, functions, f);
    ResolvedCallsAt(lib, functions[f].calls, c);
    var call := functions[f].calls[c];
    if Pending(call) {
      var item := Need(call.requirement.value);
      FunctionsMeet(functions, f, c, item);
      var items := InstanceItems(RequestsOf(units)[u]);
      InstancesServedAt(lib, RequestsOf(units), |units|, u);
      var k :| 0 <= k < |items| && items[k] == item;
      assert Served(lib, items[k], RequestsOf(units));
    }
  }

  /** Each key is instantiated once, and only on demand from a base module. */
  lemma UnitsAreDemandedOnce(lib: Library, base: seq<Item>, units: seq<Unit>, i: nat)
    requires Complete(lib, base, units) && i < |units|
    ensures Reached(lib, base, units[i].request)
    ensures forall j | 0 <= j < |units| && j != i :: units[j].request.Key() != units[i].request.Key()
  {
    JustifiedIsReached(lib, base, RequestsOf(units), i);
    var all := RequestsOf(units);
    forall j | 0 <= j < |units| && j != i ensures units[j].request.Key() != units[i].request.Key() {
      assert all[j].Key() != all[i].Key() by {
        if j < i {
          assert DistinctKeys(all);
        }
      }
    }
  }
}
