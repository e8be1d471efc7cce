/**
  The instantiation worklist (loader/specializations.go): generic functions that
  base modules and other instances refer to are instantiated, each request key
  once.

  A function is represented by its call instructions; the names of the instances
  are not part of the model, so a call refers to an instance by request key.
 */
module Specializations {
  import opened Types
  import opened Substitution
  import opened TypeEquality

  datatype Reference = Reference(moduleName: string, name: string, arguments: seq<Type>)

  datatype Requirement = Requirement(name: string, receiver: Type)

  datatype Call = Call(target: string, requirement: Option<Requirement>, generic: Option<Reference>)

  datatype Function = Function(name: string, calls: seq<Call>)

  datatype Operand = Operand(
    generic: Option<Reference>, fields: seq<Operand>, left: Option<Operand>, right: Option<Operand>)

  datatype Module = Module(globals: seq<Operand>, functions: seq<Function>)

  datatype Template = Template(
    moduleName: string, name: string, parameters: seq<Parameter>, functions: Option<seq<Function>>)

  /** The templates by module and name; the mangled methods by owner and method name. */
  datatype Library = Library(
    templates: map<(string, string), Template>, methods: map<(string, string, string), string>)

  datatype Request = Request(template: Template, arguments: seq<Type>)
  {
    /** specializationRequestKey */
    function Key(): string {
      template.moduleName + "\0" + template.name + "\0" + Join(Identities(arguments))
    }
  }

  function Identities(ts: seq<Type>): (texts: seq<string>)
    ensures |texts| == |ts| && forall i | 0 <= i < |ts| :: texts[i] == Identity(ts[i])
  {
    seq(|ts|, i requires 0 <= i < |ts| => Identity(ts[i]))
  }

  datatype Unit = Unit(request: Request, functions: seq<Function>)

  // ----- Requests -----

  /** No type parameter is left in the arguments. */
  predicate Closed(r: Reference) {
    forall i | 0 <= i < |r.arguments| :: !HasTypeParameter(r.arguments[i])
  }

  predicate Available(lib: Library, r: Reference) {
    (r.moduleName, r.name) in lib.templates
  }

  function RequestOf(lib: Library, r: Reference): Request
    requires Available(lib, r)
  {
    Request(lib.templates[(r.moduleName, r.name)], r.arguments)
  }

  // ----- Trait requirements -----

  /** concreteTypeIdentity */
  function ConcreteIdentity(t: Type): Option<(string, string)> {
    var value := if t.PointerType? then t.base else t;
    match value
    case DefinedType(moduleName, name, _, genericName, _) =>
      Some((moduleName, if genericName != "" then genericName else name))
    case AliasRef(moduleName, name, _) => Some((moduleName, name))
    case PrimitiveType(p) => Some(("builtin", PrimitiveName(p)))
    case _ => None
  }

  predicate Pending(c: Call) {
    c.requirement.Some? && !HasTypeParameter(c.requirement.value.receiver)
  }

  function RequirementTarget(lib: Library, r: Requirement): Option<string> {
    var owner := ConcreteIdentity(r.receiver);
    if owner.None? then None
    else
      var key := (owner.value.0, owner.value.1, r.name);
      if key in lib.methods && lib.methods[key] != "" then Some(lib.methods[key]) else None
  }

  /** The call with its requirement, if it is concrete, replaced by the method. */
  function ResolvedCall(lib: Library, c: Call): Call {
    if Pending(c) && RequirementTarget(lib, c.requirement.value).Some?
    then c.(target := RequirementTarget(lib, c.requirement.value).value, requirement := None)
    else c
  }

  function ResolvedCalls(lib: Library, calls: seq<Call>): (r: seq<Call>)
    ensures |r| == |calls|
  {
    if calls == [] then []
    else ResolvedCalls(lib, calls[..|calls| - 1]) + [ResolvedCall(lib, calls[|calls| - 1])]
  }

  lemma {:induction false} ResolvedCallsAt(lib: Library, calls: seq<Call>, i: nat)
    requires i < |calls|
    ensures ResolvedCalls(lib, calls)[i] == ResolvedCall(lib, calls[i])
  {
    if i < |calls| - 1 {
      ResolvedCallsAt(lib, calls[..|calls| - 1], i);
    }
  }

  function ResolvedFunction(lib: Library, f: Function): Function {
    f.(calls := ResolvedCalls(lib, f.calls))
  }

  function ResolvedFunctions(lib: Library, functions: seq<Function>): (r: seq<Function>)
    ensures |r| == |functions|
  {
    if functions == [] then []
    else ResolvedFunctions(lib, functions[..|functions| - 1]) + [ResolvedFunction(lib, functions[|functions| - 1])]
  }

  lemma {:induction false} ResolvedFunctionsAt(lib: Library, functions: seq<Function>, i: nat)
    requires i < |functions|
    ensures ResolvedFunctions(lib, functions)[i] == ResolvedFunction(lib, functions[i])
  {
    if i < |functions| - 1 {
      ResolvedFunctionsAt(lib, functions[..|functions| - 1], i);
    }
  }

  function ResolvedModule(lib: Library, m: Module): Module {
    m.(functions := ResolvedFunctions(lib, m.functions))
  }

  function ResolvedModules(lib: Library, modules: seq<Module>): (r: seq<Module>)
    ensures |r| == |modules|
  {
    if modules == [] then []
    else ResolvedModules(lib, modules[..|modules| - 1]) + [ResolvedModule(lib, modules[|modules| - 1])]
  }

  // ----- Instantiation -----

  function BindParameters(parameters: seq<Parameter>, arguments: seq<Type>): Bindings
    requires |parameters| == |arguments|
  {
    if parameters == [] then map[]
    else
      var last := |parameters| - 1;
      BindParameters(parameters[..last], arguments[..last])[parameters[last].Key() := arguments[last]]
  }

  function InstantiatedReference(r: Reference, b: Bindings): Reference {
    r.(arguments := seq(|r.arguments|, i requires 0 <= i < |r.arguments| => SubstituteParameters(r.arguments[i], b)))
  }

  function InstantiatedCall(c: Call, b: Bindings): Call {
    c.(requirement :=
         if c.requirement.Some?
         then Some(c.requirement.value.(receiver := SubstituteParameters(c.requirement.value.receiver, b)))
         else None,
       generic := if c.generic.Some? then Some(InstantiatedReference(c.generic.value, b)) else None)
  }

  function InstantiatedFunction(f: Function, b: Bindings): Function {
    f.(calls := seq(|f.calls|, i requires 0 <= i < |f.calls| => InstantiatedCall(f.calls[i], b)))
  }

  /** InstantiateGenericTemplate */
  function Instantiate(r: Request): Option<seq<Function>> {
    var Request(template, arguments) := r;
    if |arguments| != |template.parameters| || template.functions.None? then None
    else
      var b := BindParameters(template.parameters, arguments);
      var functions := template.functions.value;
      Some(seq(|functions|, i requires 0 <= i < |functions| => InstantiatedFunction(functions[i], b)))
  }

  // ----- What a scan meets, in order -----

  datatype Item = Need(requirement: Requirement) | Use(reference: Reference)

  function OptionItems(r: Option<Reference>): seq<Item> {
    if r.Some? then [Use(r.value)] else []
  }

  function CallItems(c: Call): seq<Item> {
    (if Pending(c) then [Need(c.requirement.value)] else []) + OptionItems(c.generic)
  }

  /** The parts, one after the other. */
  function Flat(parts: seq<seq<Item>>): seq<Item> {
    if parts == [] then [] else Flat(parts[..|parts| - 1]) + parts[|parts| - 1]
  }

  function CallParts(calls: seq<Call>): (parts: seq<seq<Item>>)
    ensures |parts| == |calls| && forall i | 0 <= i < |calls| :: parts[i] == CallItems(calls[i])
  {
    seq(|calls|, i requires 0 <= i < |calls| => CallItems(calls[i]))
  }

  function FunctionItems(f: Function): seq<Item> {
    Flat(CallParts(f.calls))
  }

  function FunctionParts(functions: seq<Function>): (parts: seq<seq<Item>>)
    ensures |parts| == |functions| && forall i | 0 <= i < |functions| :: parts[i] == FunctionItems(functions[i])
  {
    seq(|functions|, i requires 0 <= i < |functions| => FunctionItems(functions[i]))
  }

  function OperandItems(o: Operand): seq<Item>
    decreases o, 0
  {
    OptionItems(o.generic) + Flat(OperandParts(o.fields)) + ChildItems(o.left) + ChildItems(o.right)
  }

  function ChildItems(o: Option<Operand>): seq<Item>
    decreases o, 1
  {
    if o.Some? then OperandItems(o.value) else []
  }

  function OperandParts(os: seq<Operand>): (parts: seq<seq<Item>>)
    ensures |parts| == |os| && forall i | 0 <= i < |os| :: parts[i] == OperandItems(os[i])
    decreases os, 0
  {
    seq(|os|, i requires 0 <= i < |os| => OperandItems(os[i]))
  }

  function FunctionsItems(functions: seq<Function>): seq<Item> {
    Flat(FunctionParts(functions))
  }

  function ModuleItems(m: Module): seq<Item> {
    Flat(OperandParts(m.globals)) + FunctionsItems(m.functions)
  }

  function ModuleParts(modules: seq<Module>): (parts: seq<seq<Item>>)
    ensures |parts| == |modules| && forall i | 0 <= i < |modules| :: parts[i] == ModuleItems(modules[i])
  {
    seq(|modules|, i requires 0 <= i < |modules| => ModuleItems(modules[i]))
  }

  function ModulesItems(modules: seq<Module>): seq<Item> {
    Flat(ModuleParts(modules))
  }

  // ----- The requests, as a list that only grows -----

  /** The requests made so far, or a problem that ends the extraction. */
  datatype Scanned = Requests(all: seq<Request>) | Problem(item: Item)

  function Keys(all: seq<Request>): (keys: set<string>)
    ensures forall k :: k in keys <==> exists i | 0 <= i < |all| :: all[i].Key() == k
  {
    set i | 0 <= i < |all| :: all[i].Key()
  }

  lemma KeysAppend(all: seq<Request>, r: Request)
    ensures Keys(all + [r]) == Keys(all) + {r.Key()}
  {
    var longer := all + [r];
    assert forall i | 0 <= i < |all| :: longer[i] == all[i];
    assert longer[|all|] == r;
    forall k | k in Keys(all) ensures k in Keys(longer) {
      var i :| 0 <= i < |all| && all[i].Key() == k;
      assert longer[i].Key() == k;
    }
    assert longer[|all|].Key() in Keys(longer);
  }

  function ScanItem(lib: Library, all: seq<Request>, item: Item): Scanned {
    match item
    case Need(r) => if RequirementTarget(lib, r).Some? then Requests(all) else Problem(item)
    case Use(r) =>
      if !Closed(r) then Requests(all)
      else if !Available(lib, r) then Problem(item)
      else if RequestOf(lib, r).Key() in Keys(all) then Requests(all)
      else Requests(all + [RequestOf(lib, r)])
  }

  function Scan(lib: Library, all: seq<Request>, items: seq<Item>): Scanned {
    if items == [] then Requests(all)
    else
      var before := Scan(lib, all, items[..|items| - 1]);
      if before.Problem? then before else ScanItem(lib, before.all, items[|items| - 1])
  }

  lemma {:induction false} ScanAppend(lib: Library, all: seq<Request>, a: seq<Item>, b: seq<Item>)
    ensures Scan(lib, all, a + b) ==
      var first := Scan(lib, all, a); if first.Problem? then first else Scan(lib, first.all, b)
  {
    if b == [] {
      assert a + b == a;
    } else {
      assert (a + b)[..|a + b| - 1] == a + b[..|b| - 1];
      ScanAppend(lib, all, a, b[..|b| - 1]);
    }
  }

  /** One more part. */
  lemma ScanPart(lib: Library, all: seq<Request>, parts: seq<seq<Item>>, n: nat)
    requires n < |parts|
    ensures Scan(lib, all, Flat(parts[..n + 1])) ==
      var before := Scan(lib, all, Flat(parts[..n]));
      if before.Problem? then before else Scan(lib, before.all, parts[n])
  {
    assert parts[..n + 1][..n] == parts[..n];
    ScanAppend(lib, all, Flat(parts[..n]), parts[n]);
  }

  /** A problem in some parts is the problem of all. */
  lemma {:induction false} ScanStops(lib: Library, all: seq<Request>, parts: seq<seq<Item>>, n: nat)
    requires n <= |parts| && Scan(lib, all, Flat(parts[..n])).Problem?
    ensures Scan(lib, all, Flat(parts)) == Scan(lib, all, Flat(parts[..n]))
    decreases |parts| - n
  {
    if n == |parts| {
      assert parts[..n] == parts;
    } else {
      ScanPart(lib, all, parts, n);
      ScanStops(lib, all, parts, n + 1);
    }
  }

  lemma {:induction false} ScanGrows(lib: Library, all: seq<Request>, items: seq<Item>)
    ensures var s := Scan(lib, all, items); s.Requests? ==> all <= s.all
  {
    if items != [] {
      ScanGrows(lib, all, items[..|items| - 1]);
    }
  }

  // ----- The worklist -----

  /** A problem met by the extraction, or none. */
  datatype Outcome = Going | Failed(item: Item) | Broken(request: Request) | Done | OutOfFuel

  lemma ResolvedCallsNext(lib: Library, calls: seq<Call>, n: nat)
    requires n < |calls|
    ensures ResolvedCalls(lib, calls[..n + 1]) == ResolvedCalls(lib, calls[..n]) + [ResolvedCall(lib, calls[n])]
  {
    assert calls[..n + 1][..n] == calls[..n];
  }

  lemma ResolvedFunctionsNext(lib: Library, functions: seq<Function>, n: nat)
    requires n < |functions|
    ensures ResolvedFunctions(lib, functions[..n + 1])
            == ResolvedFunctions(lib, functions[..n]) + [ResolvedFunction(lib, functions[n])]
  {
    assert functions[..n + 1][..n] == functions[..n];
  }

  lemma AllCalls(calls: seq<Call>)
    ensures calls[..|calls|] == calls && CallParts(calls)[..|calls|] == CallParts(calls)
  {
  }

  lemma AllFunctions(functions: seq<Function>)
    ensures functions[..|functions|] == functions
    ensures FunctionParts(functions)[..|functions|] == FunctionParts(functions)
  {
  }

  lemma ResolvedModulesNext(lib: Library, modules: seq<Module>, n: nat)
    requires n < |modules|
    ensures ResolvedModules(lib, modules[..n + 1])
            == ResolvedModules(lib, modules[..n]) + [ResolvedModule(lib, modules[n])]
  {
    assert modules[..n + 1][..n] == modules[..n];
  }

  lemma AllModules(modules: seq<Module>)
    ensures modules[..|modules|] == modules && ModuleParts(modules)[..|modules|] == ModuleParts(modules)
  {
  }

  class Extraction {
    const lib: Library
    var queue: seq<Request>
    var queued: set<string>
    var units: seq<Unit>
    ghost var all: seq<Request>
    ghost var taken: nat

    constructor (lib: Library)
      ensures this.lib == lib && Valid() && all == [] && units == [] && taken == 0
    {
      this.lib := lib;
      queue, queued, units, all, taken := [], {}, [], [], 0;
    }

    /** All requests: those taken from the queue, then those in it. */
    ghost predicate Valid()
      reads this
    {
      && |units| <= taken <= |all| && queue == all[taken..]
      && (forall i | 0 <= i < |units| :: units[i].request == all[i])
      && queued == Keys(all)
    }

    /** The state after a scan, unless it met a problem. */
    twostate predicate ScannedTo(s: Scanned, outcome: Outcome)
      reads this
    {
      && Valid() && units == old(units) && taken == old(taken)
      && match s
         case Requests(a) => outcome == Going && all == a
         case Problem(item) => outcome == Failed(item)
    }

    method QueueReference(r: Reference) returns (outcome: Outcome)
      requires Valid()
      modifies this
      ensures ScannedTo(ScanItem(lib, old(all), Use(r)), outcome)
    {
      if !Closed(r) {
        return Going;
      }
      if (r.moduleName, r.name) !in lib.templates {
        return Failed(Use(r));
      }
      var request := Request(lib.templates[(r.moduleName, r.name)], r.arguments);
      if request.Key() !in queued {
        KeysAppend(all, request);
        queued := queued + {request.Key()};
        queue := queue + [request];
        all := all + [request];
      }
      return Going;
    }

    method QueueOption(r: Option<Reference>) returns (outcome: Outcome)
      requires Valid()
      modifies this
      ensures ScannedTo(Scan(lib, old(all), OptionItems(r)), outcome)
    {
      outcome := Going;
      if r.Some? {
        outcome := QueueReference(r.value);
        assert [Use(r.value)][..0] == [];
      }
    }

    method QueueOperand(o: Operand) returns (outcome: Outcome)
      requires Valid()
      modifies this
      ensures ScannedTo(Scan(lib, old(all), OperandItems(o)), outcome)
      decreases o, 0
    {
      ghost var start := all;
      var own := OptionItems(o.generic);
      outcome := QueueOption(o.generic);
      ScanAppend(lib, start, own, Flat(OperandParts(o.fields)));
      ScanAppend(lib, start, own + Flat(OperandParts(o.fields)), ChildItems(o.left));
      ScanAppend(lib, start, own + Flat(OperandParts(o.fields)) + ChildItems(o.left), ChildItems(o.right));
      if outcome != Going {
        return;
      }
      outcome := QueueOperands(o.fields);
      if outcome != Going {
        return;
      }
      outcome := QueueChild(o.left);
      if outcome != Going {
        return;
      }
      outcome := QueueChild(o.right);
    }

    method QueueChild(o: Option<Operand>) returns (outcome: Outcome)
      requires Valid()
      modifies this
      ensures ScannedTo(Scan(lib, old(all), ChildItems(o)), outcome)
      decreases o, 1
    {
      outcome := Going;
      if o.Some? {
        outcome := QueueOperand(o.value);
      }
    }

    method QueueOperands(os: seq<Operand>) returns (outcome: Outcome)
      requires Valid()
      modifies this
      ensures ScannedTo(Scan(lib, old(all), Flat(OperandParts(os))), outcome)
      decreases os, 0
    {
      outcome := Going;
      ghost var parts, start := OperandParts(os), all;
      for n := 0 to |os|
        invariant outcome == Going && Valid() && units == old(units) && taken == old(taken)
        invariant Scan(lib, start, Flat(parts[..n])) == Requests(all)
      {
        ScanPart(lib, start, parts, n);
        outcome := QueueOperand(os[n]);
        if outcome != Going {
          ScanStops(lib, start, parts, n + 1);
          return;
        }
      }
      assert parts[..|os|] == parts;
    }

    /** The calls of a function, with the concrete requirements resolved. */
    method QueueCalls(calls: seq<Call>) returns (outcome: Outcome, resolved: seq<Call>)
      requires Valid()
      modifies this
      ensures ScannedTo(Scan(lib, old(all), Flat(CallParts(calls))), outcome)
      ensures outcome == Going ==> resolved == ResolvedCalls(lib, calls)
    {
      outcome, resolved := Going, [];
      ghost var start := all;
      for n := 0 to |calls|
        invariant outcome == Going && Valid() && units == old(units) && taken == old(taken)
        invariant Scan(lib, start, Flat(CallParts(calls)[..n])) == Requests(all)
        invariant resolved == ResolvedCalls(lib, calls[..n])
      {
        var call;
        outcome, call := QueueCallAt(calls, n, start);
        if outcome != Going {
          return;
        }
        ResolvedCallsNext(lib, calls, n);
        resolved := resolved + [call];
      }
      AllCalls(calls);
    }

    /** One call of the list, after the ones before it. */
    method QueueCallAt(calls: seq<Call>, n: nat, ghost start: seq<Request>) returns (outcome: Outcome, resolved: Call)
      requires Valid() && n < |calls|
      requires Scan(lib, start, Flat(CallParts(calls)[..n])) == Requests(all)
      modifies this
      ensures Valid() && units == old(units) && taken == old(taken)
      ensures
        if outcome == Going then
          && Scan(lib, start, Flat(CallParts(calls)[..n + 1])) == Requests(all)
          && resolved == ResolvedCall(lib, calls[n])
        else outcome.Failed? && Scan(lib, start, Flat(CallParts(calls))) == Problem(outcome.item)
    {
      ScanPart(lib, start, CallParts(calls), n);
      outcome, resolved := QueueCall(calls[n]);
      if outcome != Going {
        ScanStops(lib, start, CallParts(calls), n + 1);
      }
    }

    method QueueCall(c: Call) returns (outcome: Outcome, resolved: Call)
      requires Valid()
      modifies this
      ensures ScannedTo(Scan(lib, old(all), CallItems(c)), outcome)
      ensures outcome == Going ==> resolved == ResolvedCall(lib, c)
    {
      resolved := c;
      ghost var needs := if Pending(c) then [Need(c.requirement.value)] else [];
      ScanAppend(lib, all, needs, OptionItems(c.generic));
      if Pending(c) {
        assert needs[..0] == [];
        var target := RequirementTarget(lib, c.requirement.value);
        if target.None? {
          return Failed(Need(c.requirement.value)), resolved;
        }
        resolved := c.(target := target.value, requirement := None);
      }
      outcome := QueueOption(c.generic);
    }

    method QueueFunction(f: Function) returns (outcome: Outcome, resolved: Function)
      requires Valid()
      modifies this
      ensures ScannedTo(Scan(lib, old(all), FunctionItems(f)), outcome)
      ensures outcome == Going ==> resolved == ResolvedFunction(lib, f)
    {
      var calls;
      outcome, calls := QueueCalls(f.calls);
      resolved := f.(calls := calls);
    }

    method QueueFunctions(functions: seq<Function>) returns (outcome: Outcome, resolved: seq<Function>)
      requires Valid()
      modifies this
      ensures ScannedTo(Scan(lib, old(all), FunctionsItems(functions)), outcome)
      ensures outcome == Going ==> resolved == ResolvedFunctions(lib, functions)
    {
      outcome, resolved := Going, [];
      ghost var start := all;
      for n := 0 to |functions|
        invariant outcome == Going && Valid() && units == old(units) && taken == old(taken)
        invariant Scan(lib, start, Flat(FunctionParts(functions)[..n])) == Requests(all)
        invariant resolved == ResolvedFunctions(lib, functions[..n])
      {
        var f;
        outcome, f := QueueFunctionAt(functions, n, start);
        if outcome != Going {
          return;
        }
        ResolvedFunctionsNext(lib, functions, n);
        resolved := resolved + [f];
      }
      AllFunctions(functions);
    }

    /** One function of the list, after the ones before it. */
    method QueueFunctionAt(functions: seq<Function>, n: nat, ghost start: seq<Request>)
      returns (outcome: Outcome, resolved: Function)
      requires Valid() && n < |functions|
      requires Scan(lib, start, Flat(FunctionParts(functions)[..n])) == Requests(all)
      modifies this
      ensures Valid() && units == old(units) && taken == old(taken)
      ensures
        if outcome == Going then
          && Scan(lib, start, Flat(FunctionParts(functions)[..n + 1])) == Requests(all)
          && resolved == ResolvedFunction(lib, functions[n])
        else outcome.Failed? && Scan(lib, start, FunctionsItems(functions)) == Problem(outcome.item)
    {
      ScanPart(lib, start, FunctionParts(functions), n);
      outcome, resolved := QueueFunction(functions[n]);
      if outcome != Going {
        ScanStops(lib, start, FunctionParts(functions), n + 1);
      }
    }

    method QueueModule(m: Module) returns (outcome: Outcome, resolved: Module)
      requires Valid()
      modifies this
      ensures ScannedTo(Scan(lib, old(all), ModuleItems(m)), outcome)
      ensures outcome == Going ==> resolved == ResolvedModule(lib, m)
    {
      resolved := m;
      ScanAppend(lib, all, Flat(OperandParts(m.globals)), FunctionsItems(m.functions));
      outcome := QueueOperands(m.globals);
      if outcome == Going {
        var functions;
        outcome, functions := QueueFunctions(m.functions);
        resolved := m.(functions := functions);
      }
    }

    /** The base modules, in the order of their names. */
    method QueueModules(modules: seq<Module>) returns (outcome: Outcome, resolved: seq<Module>)
      requires Valid()
      modifies this
      ensures ScannedTo(Scan(lib, old(all), ModulesItems(modules)), outcome)
      ensures outcome == Going ==> resolved == ResolvedModules(lib, modules)
    {
      outcome, resolved := Going, [];
      ghost var start := all;
      for n := 0 to |modules|
        invariant outcome == Going && Valid() && units == old(units) && taken == old(taken)
        invariant Scan(lib, start, Flat(ModuleParts(modules)[..n])) == Requests(all)
        invariant resolved == ResolvedModules(lib, modules[..n])
      {
        var m;
        outcome, m := QueueModuleAt(modules, n, start);
        if outcome != Going {
          return;
        }
        ResolvedModulesNext(lib, modules, n);
        resolved := resolved + [m];
      }
      AllModules(modules);
    }

    /** One module of the list, after the ones before it. */
    method QueueModuleAt(modules: seq<Module>, n: nat, ghost start: seq<Request>)
      returns (outcome: Outcome, resolved: Module)
      requires Valid() && n < |modules|
      requires Scan(lib, start, Flat(ModuleParts(modules)[..n])) == Requests(all)
      modifies this
      ensures Valid() && units == old(units) && taken == old(taken)
      ensures
        if outcome == Going then
          && Scan(lib, start, Flat(ModuleParts(modules)[..n + 1])) == Requests(all)
          && resolved == ResolvedModule(lib, modules[n])
        else outcome.Failed? && Scan(lib, start, ModulesItems(modules)) == Problem(outcome.item)
    {
      ScanPart(lib, start, ModuleParts(modules), n);
      outcome, resolved := QueueModule(modules[n]);
      if outcome != Going {
        ScanStops(lib, start, ModuleParts(modules), n + 1);
      }
    }

    method Take() returns (request: Request)
      requires Valid() && queue != []
      modifies `queue, `taken
      ensures Valid() && taken == old(taken) + 1 && request == all[old(taken)]
    {
      request := queue[0];
      queue := queue[1..];
      taken := taken + 1;
    }

    /** One request taken from the queue. */
    method Round() returns (outcome: Outcome)
      requires Valid() && |units| == taken && queue != []
      modifies this
      ensures Valid() && taken == old(taken) + 1
      ensures var request := old(all)[old(taken)];
        var functions := Instantiate(request);
        if functions.None? then outcome == Broken(request) && all == old(all)
        else match Scan(lib, old(all), FunctionsItems(functions.value))
          case Requests(a) =>
            outcome == Going && all == a &&
            units == old(units) + [Unit(request, ResolvedFunctions(lib, functions.value))]
          case Problem(item) => outcome == Failed(item)
    {
      var request := Take();
      var functions := Instantiate(request);
      if functions.None? {
        return Broken(request);
      }
      var resolved;
      ScanGrows(lib, all, FunctionsItems(functions.value));
      outcome, resolved := QueueFunctions(functions.value);
      if outcome == Going {
        AddUnit(request, resolved);
      }
    }

    method AddUnit(request: Request, functions: seq<Function>)
      requires Valid() && taken == |units| + 1 && request == all[|units|]
      modifies `units
      ensures Valid() && units == old(units) + [Unit(request, functions)]
    {
      units := units + [Unit(request, functions)];
    }
  }
}
