/**
  Which native symbols a link needs (cmd/qkc/link.go): a worklist over the
  definitions of all modules, starting from the exported ones and the entry.

  The references of a function or global are the names that the operand walk
  collects from it, in order.
 */
module NativeSymbols {
  import opened Routes

  datatype Function = Function(name: string, external: bool, visible: bool, references: seq<string>)

  datatype Global = Global(name: string, external: bool, references: seq<string>)

  /** `origin` is the foreign name of a native declaration, empty for other externs. */
  datatype Extern = Extern(name: string, origin: string)

  datatype Module = Module(
    functions: seq<Function>, globals: seq<Global>, entry: string, initializer: string,
    externs: seq<Extern>, externGlobals: seq<string>)

  // ----- What is defined, declared and exported -----

  datatype Definition = Definition(name: string, home: Module, references: seq<string>)

  ghost function FunctionDefinition(m: Module, f: Function): Definition {
    Definition(f.name, m, f.references)
  }

  ghost function FunctionDefinitions(m: Module, n: nat): set<Definition>
    requires n <= |m.functions|
  {
    set i | 0 <= i < n :: FunctionDefinition(m, m.functions[i])
  }

  lemma FunctionDefinitionsNext(m: Module, n: nat, known: set<Definition>)
    requires n < |m.functions|
    ensures known + FunctionDefinitions(m, n + 1)
            == known + FunctionDefinitions(m, n) + {FunctionDefinition(m, m.functions[n])}
  {
  }

  ghost function GlobalDefinitions(m: Module, n: nat): set<Definition>
    requires n <= |m.globals|
  {
    set i | 0 <= i < n :: Definition(m.globals[i].name, m, m.globals[i].references)
  }

  ghost function DefinitionsOf(m: Module): set<Definition> {
    FunctionDefinitions(m, |m.functions|) + GlobalDefinitions(m, |m.globals|)
  }

  ghost function Definitions(modules: map<string, Module>, some: set<string>): set<Definition> {
    set k, d | k in some && k in modules && d in DefinitionsOf(modules[k]) :: d
  }

  ghost predicate FunctionRoot(m: Module, n: nat, rootAllExternal: bool, name: string)
    requires n <= |m.functions|
  {
    exists i | 0 <= i < n ::
      && m.functions[i].name == name && m.functions[i].external
      && (rootAllExternal || m.functions[i].visible)
  }

  lemma FunctionRootNext(m: Module, n: nat, rootAllExternal: bool)
    requires n < |m.functions|
    ensures forall x :: FunctionRoot(m, n + 1, rootAllExternal, x) <==>
      || FunctionRoot(m, n, rootAllExternal, x)
      || (x == m.functions[n].name && StartsFrom(m.functions[n], rootAllExternal))
  {
  }

  predicate StartsFrom(f: Function, rootAllExternal: bool) {
    f.external && (rootAllExternal || f.visible)
  }

  ghost predicate GlobalRoot(m: Module, n: nat, rootAllExternal: bool, name: string)
    requires n <= |m.globals|
  {
    exists i | 0 <= i < n :: m.globals[i].name == name && rootAllExternal && m.globals[i].external
  }

  ghost predicate RootOf(m: Module, rootAllExternal: bool, name: string) {
    || FunctionRoot(m, |m.functions|, rootAllExternal, name)
    || GlobalRoot(m, |m.globals|, rootAllExternal, name)
    || (m.entry != "" && (name == m.entry || (m.initializer != "" && name == m.initializer)))
  }

  ghost predicate IsRoot(modules: map<string, Module>, some: set<string>, rootAllExternal: bool, name: string) {
    exists k :: k in some && k in modules && RootOf(modules[k], rootAllExternal, name)
  }

  /** nativeDeclarations */
  ghost predicate Native(m: Module, name: string) {
    || (exists i | 0 <= i < |m.externs| ::
          m.externs[i].origin != "" && (name == m.externs[i].name || name == m.externs[i].origin))
    || name in m.externGlobals
  }

  ghost predicate Defined(ds: set<Definition>, name: string) {
    exists d :: d in ds && d.name == name
  }

  /** No name has two different definitions. */
  ghost predicate DistinctNames(ds: set<Definition>) {
    forall d, e | d in ds && e in ds && d.name == e.name :: d == e
  }

  ghost function DefinitionOf(ds: set<Definition>, name: string): Definition
    requires Defined(ds, name)
  {
    var d :| d in ds && d.name == name; d
  }

  ghost function References(ds: set<Definition>): string -> seq<string> {
    n => if Defined(ds, n) then DefinitionOf(ds, n).references else []
  }

  /** Native for the definition `d`: declared by its module and defined nowhere. */
  ghost predicate Needs(ds: set<Definition>, d: Definition, target: string) {
    target in d.references && !Defined(ds, target) && Native(d.home, target)
  }

  /** Some root reaches the definition `d`. */
  ghost predicate FromRoot(modules: map<string, Module>, rootAllExternal: bool, d: Definition) {
    var ds := Definitions(modules, modules.Keys);
    && d in ds
    && exists root ::
         IsRoot(modules, modules.Keys, rootAllExternal, root) && Reaches(References(ds), root, d.name)
  }

  // ----- The index -----

  method NativeDeclarations(m: Module) returns (names: set<string>)
    ensures forall n :: n in names <==> Native(m, n)
  {
    names := {};
    for i := 0 to |m.externs|
      invariant forall n :: n in names <==> exists k | 0 <= k < i ::
        m.externs[k].origin != "" && (n == m.externs[k].name || n == m.externs[k].origin)
    {
      if m.externs[i].origin != "" {
        names := names + {m.externs[i].name, m.externs[i].origin};
      }
    }
    ghost var declared := names;
    for i := 0 to |m.externGlobals|
      invariant forall n :: n in names <==> n in declared || n in m.externGlobals[..i]
    {
      names := names + {m.externGlobals[i]};
    }
    assert m.externGlobals[..|m.externGlobals|] == m.externGlobals;
  }

  class SymbolIndex {
    var functions: map<string, Function>
    var functionModules: map<string, Module>
    var globals: map<string, Global>
    var globalModules: map<string, Module>
    var queue: seq<string>

    constructor ()
      ensures Covers({}) && queue == []
    {
      functions, functionModules, globals, globalModules := map[], map[], map[], map[];
      queue := [];
    }

    /** The tables hold definitions from `known`, and a definition for every name in it. */
    ghost predicate Covers(known: set<Definition>)
      reads `functions, `functionModules, `globals, `globalModules
    {
      && (forall n | n in functions ::
            n in functionModules && Definition(n, functionModules[n], functions[n].references) in known)
      && (forall n | n in globals ::
            n in globalModules && Definition(n, globalModules[n], globals[n].references) in known)
      && (forall d | d in known :: d.name in functions || d.name in globals)
    }

    method AddFunction(f: Function, m: Module, ghost known: set<Definition>)
      requires Covers(known)
      modifies `functions, `functionModules
      ensures Covers(known + {Definition(f.name, m, f.references)})
    {
      functions := functions[f.name := f];
      functionModules := functionModules[f.name := m];
    }

    method AddGlobal(g: Global, m: Module, ghost known: set<Definition>)
      requires Covers(known)
      modifies `globals, `globalModules
      ensures Covers(known + {Definition(g.name, m, g.references)})
    {
      globals := globals[g.name := g];
      globalModules := globalModules[g.name := m];
    }

    method AddFunctions(m: Module, rootAllExternal: bool, ghost known: set<Definition>)
      requires Covers(known)
      modifies `functions, `functionModules, `queue
      ensures Covers(known + FunctionDefinitions(m, |m.functions|))
      ensures forall n :: n in queue <==> n in old(queue) || FunctionRoot(m, |m.functions|, rootAllExternal, n)
    {
      assert known + FunctionDefinitions(m, 0) == known;
      for i := 0 to |m.functions|
        invariant Covers(known + FunctionDefinitions(m, i))
        invariant forall n :: n in queue <==> n in old(queue) || FunctionRoot(m, i, rootAllExternal, n)
      {
        FunctionDefinitionsNext(m, i, known);
        FunctionRootNext(m, i, rootAllExternal);
        AddFunctionAt(m, i, rootAllExternal, known + FunctionDefinitions(m, i));
      }
    }

    /** One function: into the index, and into the queue if it is a root. */
    method AddFunctionAt(m: Module, i: nat, rootAllExternal: bool, ghost known: set<Definition>)
      requires Covers(known) && i < |m.functions|
      modifies `functions, `functionModules, `queue
      ensures Covers(known + {FunctionDefinition(m, m.functions[i])})
      ensures queue
              == old(queue) + (if StartsFrom(m.functions[i], rootAllExternal) then [m.functions[i].name] else [])
    {
      var f := m.functions[i];
      AddFunction(f, m, known);
      if StartsFrom(f, rootAllExternal) {
        queue := queue + [f.name];
      }
    }

    method AddGlobalAt(m: Module, i: nat, rootAllExternal: bool, ghost known: set<Definition>)
      requires Covers(known) && i < |m.globals|
      modifies `globals, `globalModules, `queue
      ensures Covers(known + {Definition(m.globals[i].name, m, m.globals[i].references)})
      ensures queue
              == old(queue) + (if rootAllExternal && m.globals[i].external then [m.globals[i].name] else [])
    {
      var g := m.globals[i];
      AddGlobal(g, m, known);
      if rootAllExternal && g.external {
        queue := queue + [g.name];
      }
    }

    method AddGlobals(m: Module, rootAllExternal: bool, ghost known: set<Definition>)
      requires Covers(known)
      modifies `globals, `globalModules, `queue
      ensures Covers(known + GlobalDefinitions(m, |m.globals|))
      ensures forall n :: n in queue <==> n in old(queue) || GlobalRoot(m, |m.globals|, rootAllExternal, n)
    {
      ghost var all := known;
      assert all == known + GlobalDefinitions(m, 0);
      for i := 0 to |m.globals|
        invariant all == known + GlobalDefinitions(m, i) && Covers(all)
        invariant forall n :: n in queue <==> n in old(queue) || GlobalRoot(m, i, rootAllExternal, n)
      {
        AddGlobalAt(m, i, rootAllExternal, all);
        all := all + {Definition(m.globals[i].name, m, m.globals[i].references)};
      }
    }

    method AddModule(m: Module, rootAllExternal: bool, ghost known: set<Definition>)
      requires Covers(known)
      modifies this
      ensures Covers(known + DefinitionsOf(m))
      ensures forall n :: n in queue <==> n in old(queue) || RootOf(m, rootAllExternal, n)
    {
      AddFunctions(m, rootAllExternal, known);
      ghost var all := known + FunctionDefinitions(m, |m.functions|);
      AddGlobals(m, rootAllExternal, all);
      assert all + GlobalDefinitions(m, |m.globals|) == known + DefinitionsOf(m);
      if m.entry != "" {
        queue := queue + [m.entry];
      }
      if m.entry != "" && m.initializer != "" {
        queue := queue + [m.initializer];
      }
    }

    /** The modules, in any order. */
    method AddModules(modules: map<string, Module>, rootAllExternal: bool)
      requires Covers({}) && queue == []
      modifies this
      ensures Covers(Definitions(modules, modules.Keys))
      ensures forall n :: n in queue <==> IsRoot(modules, modules.Keys, rootAllExternal, n)
    {
      var rest := modules.Keys;
      assert Definitions(modules, modules.Keys - rest) == {};
      while rest != {}
        invariant rest <= modules.Keys
        invariant Covers(Definitions(modules, modules.Keys - rest))
        invariant forall n :: n in queue <==> IsRoot(modules, modules.Keys - rest, rootAllExternal, n)
        decreases rest
      {
        var k :| k in rest;
        ghost var done := modules.Keys - rest;
        AddModule(modules[k], rootAllExternal, Definitions(modules, done));
        assert Definitions(modules, done + {k}) == Definitions(modules, done) + DefinitionsOf(modules[k]);
        rest := rest - {k};
        assert modules.Keys - rest == done + {k};
      }
      assert modules.Keys - rest == modules.Keys;
    }

    predicate Has(name: string)
      reads `functions, `globals
    {
      name in functions || name in globals
    }

    /** The references of a definition: the defined ones are queued, native ones recorded. */
    method Follow(references: seq<string>, home: Module, referenced: set<string>) returns (r: set<string>)
      modifies `queue
      ensures old(queue) <= queue
      ensures forall n :: n in queue <==> n in old(queue) || (n in references && Has(n))
      ensures forall n :: n in r <==> n in referenced || (n in references && !Has(n) && Native(home, n))
    {
      r := referenced;
      var native := NativeDeclarations(home);
      for i := 0 to |references|
        invariant old(queue) <= queue
        invariant forall n :: n in queue <==> n in old(queue) || (n in references[..i] && Has(n))
        invariant forall n :: n in r <==> n in referenced || (n in references[..i] && !Has(n) && Native(home, n))
      {
        var target := references[i];
        if target in functions || target in globals {
          queue := queue + [target];
        } else if target in native {
          r := r + {target};
        }
      }
      assert references[..|references|] == references;
    }

    /** The name of `d` was taken from the queue for the first time. */
    method FollowDefinition(
      references: seq<string>, home: Module, referenced: set<string>, ghost d: Definition,
      ghost ds: set<Definition>, ghost roots: set<string>, ghost visited: set<string>, ghost pending: set<string>)
      returns (r: set<string>)
      requires Covers(ds) && DistinctNames(ds)
      requires d in ds && d.name in pending && d.references == references && d.home == home
      requires Pending(ds, roots, visited, pending) && Recorded(ds, visited, referenced)
      requires Elements(queue) <= pending <= Elements(queue) + {d.name}
      modifies `queue
      ensures Pending(ds, roots, visited + {d.name}, Elements(queue)) && Recorded(ds, visited + {d.name}, r)
    {
      DefinedIsHas(ds);
      ghost var rest := Elements(queue);
      ghost var before := queue;
      r := Follow(references, home, referenced);
      FollowedQueue(ds, d, before, queue);
      VisitDefinition(ds, roots, visited, pending, rest, Elements(queue), d, referenced, r);
    }

    /** What a round of the worklist keeps. */
    ghost predicate Working(ds: set<Definition>, roots: set<string>, visited: set<string>, referenced: set<string>)
      reads `queue
    {
      Pending(ds, roots, visited, Elements(queue)) && Recorded(ds, visited, referenced)
    }

    /** One name taken from the queue: its references are followed once. */
    method Visit(name: string, visited: set<string>, referenced: set<string>,
                 ghost ds: set<Definition>, ghost roots: set<string>, ghost pending: set<string>)
      returns (v: set<string>, r: set<string>)
      requires Covers(ds) && DistinctNames(ds) && name in pending
      requires Pending(ds, roots, visited, pending) && Recorded(ds, visited, referenced)
      requires Elements(queue) <= pending <= Elements(queue) + {name}
      modifies `queue
      ensures v == visited + {name} <= AllReached(ds, roots)
      ensures Pending(ds, roots, v, Elements(queue)) && Recorded(ds, v, r)
      ensures name in visited ==> queue == old(queue)
    {
      v, r := visited, referenced;
      if name in visited {
        VisitAgain(ds, roots, visited, pending, Elements(queue), name);
      } else {
        v := visited + {name};
        if name in globals {
          r := FollowDefinition(globals[name].references, globalModules[name], referenced,
            Definition(name, globalModules[name], globals[name].references), ds, roots, visited, pending);
        } else if name in functions {
          r := FollowDefinition(functions[name].references, functionModules[name], referenced,
            Definition(name, functionModules[name], functions[name].references), ds, roots, visited, pending);
        } else {
          DefinedIsHas(ds);
          VisitUnknown(ds, roots, visited, pending, Elements(queue), name, referenced);
        }
      }
    }

    /** One round of the worklist loop. */
    method Step(visited: set<string>, referenced: set<string>, ghost ds: set<Definition>, ghost roots: set<string>,
                ghost reached: set<string>)
      returns (v: set<string>, r: set<string>)
      requires reached == AllReached(ds, roots)
      requires Covers(ds) && DistinctNames(ds) && queue != [] && Working(ds, roots, visited, referenced)
      modifies `queue
      ensures reached - v < reached - visited || (v == visited && |queue| < |old(queue)|)
      ensures Working(ds, roots, v, r)
    {
      var name := queue[0];
      ghost var pending := Elements(queue);
      TakeHead(queue);
      queue := queue[1..];
      v, r := Visit(name, visited, referenced, ds, roots, pending);
      Progress(reached, visited, name);
    }

    /** The worklist loop. */
    method Drain(ghost ds: set<Definition>, ghost roots: set<string>) returns (referenced: set<string>)
      requires Covers(ds) && DistinctNames(ds)
      requires Elements(queue) == roots
      modifies `queue
      ensures Recorded(ds, AllReached(ds, roots), referenced)
    {
      referenced := {};
      var visited: set<string> := {};
      ghost var reached := AllReached(ds, roots);
      StartPending(ds, roots);
      while |queue| != 0
        invariant Working(ds, roots, visited, referenced)
        decreases reached - visited, |queue|
      {
        visited, referenced := Step(visited, referenced, ds, roots, reached);
      }
      VisitedIsReached(ds, roots, visited, referenced, Elements(queue));
    }

    lemma DefinedIsHas(ds: set<Definition>)
      requires Covers(ds)
      ensures forall n :: Has(n) <==> Defined(ds, n)
    {
      forall n ensures Has(n) <==> Defined(ds, n) {
        if n in functions {
          assert Definition(n, functionModules[n], functions[n].references) in ds;
        }
        if n in globals {
          assert Definition(n, globalModules[n], globals[n].references) in ds;
        }
      }
    }
  }

  ghost function NamesOf(ds: set<Definition>): set<string> {
    set d | d in ds :: d.name
  }

  ghost predicate Reached(ds: set<Definition>, roots: set<string>, name: string) {
    exists root :: root in roots && Reaches(References(ds), root, name)
  }

  ghost function Elements(queue: seq<string>): set<string> {
    set n | n in queue
  }

  /**
    What the worklist keeps: visited and pending names are reached, the roots are
    among them, and so is every definition that a visited one references.
   */
  ghost predicate Pending(ds: set<Definition>, roots: set<string>, visited: set<string>, pending: set<string>) {
    && visited + pending <= AllReached(ds, roots)
    && roots <= visited + pending
    && Followed(ds, visited, visited + pending)
  }

  ghost predicate Followed(ds: set<Definition>, visited: set<string>, known: set<string>) {
    forall d | d in ds && d.name in visited :: DefinedReferences(ds, d) <= known
  }

  ghost function DefinedReferences(ds: set<Definition>, d: Definition): set<string> {
    set n | n in d.references && Defined(ds, n)
  }

  /** `referenced` is what the definitions named in `visited` need. */
  ghost predicate Recorded(ds: set<Definition>, visited: set<string>, referenced: set<string>) {
    forall t :: t in referenced <==> exists d :: d in ds && d.name in visited && Needs(ds, d, t)
  }

  ghost function AllReached(ds: set<Definition>, roots: set<string>): set<string> {
    set n | n in roots + NamesOf(ds) && Reached(ds, roots, n)
  }

  lemma Progress(bound: set<string>, visited: set<string>, name: string)
    requires visited + {name} <= bound
    ensures if name in visited then visited + {name} == visited else bound - (visited + {name}) < bound - visited
  {
    if name !in visited {
      assert name in bound - visited;
    }
  }

  lemma TakeHead(queue: seq<string>)
    requires queue != []
    ensures Elements(queue[1..]) <= Elements(queue) <= Elements(queue[1..]) + {queue[0]}
  {
    assert queue == [queue[0]] + queue[1..];
  }

  lemma FollowedQueue(ds: set<Definition>, d: Definition, before: seq<string>, after: seq<string>)
    requires forall n :: n in after <==> n in before || (n in d.references && Defined(ds, n))
    ensures Elements(after) == Elements(before) + DefinedReferences(ds, d)
  {
  }

  lemma StartPending(ds: set<Definition>, roots: set<string>)
    ensures Pending(ds, roots, {}, roots)
  {
    forall n | n in roots ensures Reached(ds, roots, n) {
      ReachesSelf(References(ds), n);
    }
  }

  lemma VisitAgain(
    ds: set<Definition>, roots: set<string>, visited: set<string>, pending: set<string>, rest: set<string>,
    name: string)
    requires Pending(ds, roots, visited, pending) && name in visited
    requires rest <= pending <= rest + {name}
    ensures Pending(ds, roots, visited, rest) && visited + {name} == visited
  {
    assert visited + rest == visited + pending;
  }

  lemma VisitUnknown(
    ds: set<Definition>, roots: set<string>, visited: set<string>, pending: set<string>, rest: set<string>,
    name: string,
    referenced: set<string>)
    requires Pending(ds, roots, visited, pending) && Recorded(ds, visited, referenced)
    requires rest <= pending <= rest + {name} && name in pending && !Defined(ds, name)
    ensures Pending(ds, roots, visited + {name}, rest) && Recorded(ds, visited + {name}, referenced)
  {
    assert visited + {name} + rest == visited + pending;
    assert forall d | d in ds :: d.name in visited + {name} <==> d.name in visited;
  }

  lemma VisitDefinition(
    ds: set<Definition>, roots: set<string>, visited: set<string>, pending: set<string>, rest: set<string>,
    after: set<string>, d: Definition, referenced: set<string>, now: set<string>)
    requires DistinctNames(ds) && d in ds && d.name in pending
    requires Pending(ds, roots, visited, pending) && Recorded(ds, visited, referenced)
    requires rest <= pending <= rest + {d.name}
    requires after == rest + DefinedReferences(ds, d)
    requires forall n :: n in now <==> n in referenced || Needs(ds, d, n)
    ensures Pending(ds, roots, visited + {d.name}, after) && Recorded(ds, visited + {d.name}, now)
  {
    TakeDefinition(ds, roots, d);
    RecordDefinition(ds, visited, d, referenced, now);
    FollowedToo(ds, visited, visited + pending, d);
    assert visited + {d.name} + after == visited + pending + DefinedReferences(ds, d);
  }

  lemma FollowedToo(ds: set<Definition>, visited: set<string>, known: set<string>, d: Definition)
    requires DistinctNames(ds) && d in ds && Followed(ds, visited, known)
    ensures Followed(ds, visited + {d.name}, known + DefinedReferences(ds, d))
  {
    forall e | e in ds && e.name in visited + {d.name}
      ensures DefinedReferences(ds, e) <= known + DefinedReferences(ds, d)
    {
      if e.name == d.name {
        assert e == d;
      }
    }
  }

  lemma RecordDefinition(
    ds: set<Definition>, visited: set<string>, d: Definition, referenced: set<string>, now: set<string>)
    requires DistinctNames(ds) && d in ds && Recorded(ds, visited, referenced)
    requires forall n :: n in now <==> n in referenced || Needs(ds, d, n)
    ensures Recorded(ds, visited + {d.name}, now)
  {
    forall t ensures t in now <==> exists e :: e in ds && e.name in visited + {d.name} && Needs(ds, e, t) {
      if e :| e in ds && e.name in visited + {d.name} && Needs(ds, e, t) {
        if e.name == d.name {
          assert e == d;
        }
      }
    }
  }

  /** A reached definition: what it references is reached too. */
  lemma TakeDefinition(ds: set<Definition>, roots: set<string>, d: Definition)
    requires d in ds && DistinctNames(ds) && d.name in AllReached(ds, roots)
    ensures DefinedReferences(ds, d) <= AllReached(ds, roots)
  {
    assert Defined(ds, d.name);
    forall n | n in DefinedReferences(ds, d) ensures n in AllReached(ds, roots) {
      var root :| root in roots && Reaches(References(ds), root, d.name);
      ReachesStep(References(ds), root, d.name, n);
    }
  }

  /** When the queue is empty, the visited names and the reached ones have the same definitions. */
  lemma VisitedIsReached(ds: set<Definition>, roots: set<string>, visited: set<string>, referenced: set<string>,
                         pending: set<string>)
    requires DistinctNames(ds) && Pending(ds, roots, visited, pending) && Recorded(ds, visited, referenced)
    requires forall n :: n !in pending
    ensures Recorded(ds, AllReached(ds, roots), referenced)
  {
    var next := References(ds);
    assert visited + pending == visited;
    forall d | d in ds && d.name in AllReached(ds, roots) ensures d.name in visited {
      var root :| root in roots && Reaches(next, root, d.name);
      var p :| RouteBetween(next, p, root, d.name);
      RouteVisited(ds, visited, p, |p| - 1);
    }
    assert forall d | d in ds :: d.name in visited <==> d.name in AllReached(ds, roots);
  }

  lemma {:induction false} RouteVisited(ds: set<Definition>, visited: set<string>, p: seq<string>, i: nat)
    requires DistinctNames(ds) && Route(References(ds), p) && i < |p| && p[0] in visited
    requires Followed(ds, visited, visited)
    requires Defined(ds, p[i])
    ensures p[i] in visited
  {
    if i > 0 {
      assert p[i - 1 + 1] in References(ds)(p[i - 1]);
      RouteVisited(ds, visited, p, i - 1);
      assert p[i] in DefinedReferences(ds, DefinitionOf(ds, p[i - 1]));
    }
  }

  /**
    reachableNativeSymbols.  The result does not depend on the order in which
    modules are met: it is given by what the roots reach.
   */
  method ReachableNativeSymbols(modules: map<string, Module>, rootAllExternal: bool) returns (referenced: set<string>)
    requires DistinctNames(Definitions(modules, modules.Keys))
    ensures forall t :: t in referenced <==>
      exists d :: FromRoot(modules, rootAllExternal, d) && Needs(Definitions(modules, modules.Keys), d, t)
  {
    var index := new SymbolIndex();
    index.AddModules(modules, rootAllExternal);
    ghost var ds := Definitions(modules, modules.Keys);
    ghost var roots := set n | n in index.queue;
    referenced := index.Drain(ds, roots);
    forall d | d in ds
      ensures Reached(ds, roots, d.name) <==> FromRoot(modules, rootAllExternal, d)
    {
      if Reached(ds, roots, d.name) {
        var root :| root in roots && Reaches(References(ds), root, d.name);
        assert IsRoot(modules, modules.Keys, rootAllExternal, root);
      }
      if FromRoot(modules, rootAllExternal, d) {
        var root :| IsRoot(modules, modules.Keys, rootAllExternal, root) && Reaches(References(ds), root, d.name);
        assert root in roots;
      }
    }
  }
}
