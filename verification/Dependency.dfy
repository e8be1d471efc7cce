/**
  Module ordering (loader/dependency.go): a depth-first walk with three colours
  that either lists every module after its imports or reports why it cannot.
 */
module Dependency {
  import opened Routes

  /** The imports of every known module. */
  type Modules = map<string, seq<string>>

  ghost function Imports(mods: Modules): string -> seq<string> {
    n => if n in mods then mods[n] else []
  }

  /** Absent from the map is `VisitedStatusUnseen`. */
  datatype Status = Visiting | Done

  datatype Failure = PrimaryNotFound | CircularImport(at: string) | UnknownImport(importer: string, name: string)

  datatype Outcome = Ordered(order: seq<string>) | Failed(failure: Failure)

  datatype Visit = Fine | Broken(failure: Failure)

  // ----- What a result means -----

  /** Something reachable from `root` is unknown. */
  ghost predicate MissingReachable(mods: Modules, root: string) {
    exists n :: Reaches(Imports(mods), root, n) && n !in mods
  }

  ghost predicate CycleReachable(mods: Modules, root: string) {
    exists n :: Reaches(Imports(mods), root, n) && OnCycle(Imports(mods), n)
  }

  ghost predicate NoDuplicates(s: seq<string>) {
    forall i, j | 0 <= i < j < |s| :: s[i] != s[j]
  }

  /** Every import of a listed module is listed earlier. */
  ghost predicate ImportsFirst(mods: Modules, order: seq<string>) {
    forall i, d | 0 <= i < |order| && d in Imports(mods)(order[i]) :: d in order[..i]
  }

  /** What a failure reports is really there. */
  ghost predicate Justified(mods: Modules, root: string, failure: Failure) {
    match failure
    case PrimaryNotFound => root !in mods
    case CircularImport(at) => Reaches(Imports(mods), root, at) && OnCycle(Imports(mods), at)
    case UnknownImport(importer, name) =>
      Reaches(Imports(mods), root, importer) && name in Imports(mods)(importer) && name !in mods
  }

  ghost function Listed(order: seq<string>): set<string> {
    set n | n in order
  }

  // ----- The walk -----

  /** The colours agree with the order and with the chain of open calls. */
  ghost predicate Coloured(mods: Modules, visited: map<string, Status>, order: seq<string>, stack: seq<string>) {
    && (forall n :: n in visited && visited[n] == Visiting <==> n in stack)
    && (forall n :: n in visited && visited[n] == Done <==> n in order)
    && NoDuplicates(order)
    && (forall n | n in visited :: n in mods)
    && ImportsFirst(mods, order)
  }

  lemma Enter(mods: Modules, visited: map<string, Status>, order: seq<string>, stack: seq<string>, name: string)
    requires Coloured(mods, visited, order, stack) && name !in visited && name in mods
    ensures Coloured(mods, visited[name := Visiting], order, stack + [name])
  {
    assert forall n :: n in stack + [name] <==> n in stack || n == name;
  }

  lemma Leave(mods: Modules, visited: map<string, Status>, order: seq<string>, stack: seq<string>, name: string)
    requires Coloured(mods, visited, order, stack + [name]) && name !in stack && name in mods
    requires forall d | d in mods[name] :: d in order
    ensures Coloured(mods, visited[name := Done], order + [name], stack)
  {
    assert forall n :: n in stack + [name] <==> n in stack || n == name;
    assert forall n :: n in order + [name] <==> n in order || n == name;
    var all := order + [name];
    assert visited[name] == Visiting;
    forall i, d | 0 <= i < |all| && d in Imports(mods)(all[i]) ensures d in all[..i] {
      if i < |order| {
        assert all[..i] == order[..i];
      } else {
        assert all[..i] == order;
      }
    }
  }

  class DependencyWalk {
    const mods: Modules
    var visited: map<string, Status>
    var order: seq<string>

    constructor (mods: Modules)
      ensures this.mods == mods && visited == map[] && order == []
    {
      this.mods := mods;
      visited, order := map[], [];
    }

    ghost predicate Valid(stack: seq<string>)
      reads this
    {
      Coloured(mods, visited, order, stack)
    }

    /** `stack` is the chain of calls that led to visiting `name`. */
    ghost predicate LeadsTo(stack: seq<string>, name: string) {
      stack != [] ==> Route(Imports(mods), stack) && name in Imports(mods)(stack[|stack| - 1])
    }

    ghost function Root(stack: seq<string>, name: string): string {
      if stack == [] then name else stack[0]
    }

    method Visit(name: string, ghost stack: seq<string>) returns (result: Visit)
      requires Valid(stack) && LeadsTo(stack, name) && name in mods
      modifies this
      ensures result.Fine? ==> Valid(stack) && name in order
      ensures result.Fine? ==> Listed(old(order)) <= Listed(order) && old(visited.Keys) <= visited.Keys
      ensures result.Fine? ==>
                forall n | n in order :: n in old(order) || Reaches(Imports(mods), name, n)
      ensures result.Broken? ==>
                !result.failure.PrimaryNotFound? && Justified(mods, Root(stack, name), result.failure)
      decreases mods.Keys - visited.Keys, 1
    {
      StackReaches(stack, name);
      if name in visited {
        if visited[name] == Visiting {
          StackCycles(stack, name);
          return Broken(CircularImport(name));
        }
        return Fine;
      }
      Enter(mods, visited, order, stack, name);
      visited := visited[name := Visiting];
      result := VisitImports(name, stack);
      if result.Fine? {
        Leave(mods, visited, order, stack, name);
        ReachesSelf(Imports(mods), name);
        visited := visited[name := Done];
        order := order + [name];
      }
    }

    method VisitImports(name: string, ghost stack: seq<string>) returns (result: Visit)
      requires Valid(stack + [name]) && LeadsTo(stack, name) && name in mods
      modifies this
      ensures result.Fine? ==> Valid(stack + [name]) && forall d | d in mods[name] :: d in order
      ensures result.Fine? ==> Listed(old(order)) <= Listed(order) && old(visited.Keys) <= visited.Keys
      ensures result.Fine? ==>
                forall n | n in order :: n in old(order) || Reaches(Imports(mods), name, n)
      ensures result.Broken? ==>
                !result.failure.PrimaryNotFound? && Justified(mods, Root(stack, name), result.failure)
      decreases mods.Keys - visited.Keys, 3
    {
      ghost var inner := stack + [name];
      var imports := mods[name];
      for i := 0 to |imports|
        invariant Valid(inner) && Listed(old(order)) <= Listed(order) && old(visited.Keys) <= visited.Keys
        invariant forall d | d in imports[..i] :: d in order
        invariant forall n | n in order :: n in old(order) || Reaches(Imports(mods), name, n)
      {
        result := VisitImport(name, imports[i], stack);
        if result.Broken? {
          return;
        }
      }
      assert imports[..|imports|] == imports;
      result := Fine;
    }

    method VisitImport(name: string, dependency: string, ghost stack: seq<string>) returns (result: Visit)
      requires Valid(stack + [name]) && LeadsTo(stack, name) && name in mods && dependency in mods[name]
      modifies this
      ensures result.Fine? ==> Valid(stack + [name]) && dependency in order
      ensures result.Fine? ==> Listed(old(order)) <= Listed(order) && old(visited.Keys) <= visited.Keys
      ensures result.Fine? ==>
                forall n | n in order :: n in old(order) || Reaches(Imports(mods), name, n)
      ensures result.Broken? ==>
                !result.failure.PrimaryNotFound? && Justified(mods, Root(stack, name), result.failure)
      decreases mods.Keys - visited.Keys, 2
    {
      StackReaches(stack, name);
      if dependency !in mods {
        return Broken(UnknownImport(name, dependency));
      }
      Deeper(stack, name, dependency);
      result := Visit(dependency, stack + [name]);
      ReachesThrough(Imports(mods), name, dependency);
    }

    lemma Deeper(stack: seq<string>, name: string, dependency: string)
      requires LeadsTo(stack, name) && dependency in Imports(mods)(name)
      ensures LeadsTo(stack + [name], dependency) && Root(stack + [name], dependency) == Root(stack, name)
    {
    }

    lemma ReachesThrough(next: string -> seq<string>, name: string, dependency: string)
      requires dependency in next(name)
      ensures forall n | Reaches(next, dependency, n) :: Reaches(next, name, n)
    {
      ReachesSelf(next, name);
      ReachesStep(next, name, name, dependency);
      forall n | Reaches(next, dependency, n) ensures Reaches(next, name, n) {
        ReachesTransitive(next, name, dependency, n);
      }
    }

    lemma StackReaches(stack: seq<string>, name: string)
      requires LeadsTo(stack, name)
      ensures Reaches(Imports(mods), Root(stack, name), name)
    {
      var next := Imports(mods);
      if stack == [] {
        ReachesSelf(next, name);
      } else {
        assert RouteBetween(next, stack, stack[0], stack[|stack| - 1]);
        ReachesStep(next, stack[0], stack[|stack| - 1], name);
      }
    }

    lemma StackCycles(stack: seq<string>, name: string)
      requires LeadsTo(stack, name) && name in stack
      ensures OnCycle(Imports(mods), name)
    {
      var next := Imports(mods);
      var k :| 0 <= k < |stack| && stack[k] == name;
      var tail := stack[k..] + [name];
      forall i | 0 <= i < |tail| - 1 ensures tail[i + 1] in next(tail[i]) {
        assert tail[i] == stack[k + i];
        if k + i + 1 < |stack| {
          assert tail[i + 1] == stack[k + i + 1];
        }
      }
      assert tail[1] in next(tail[0]);
      assert RouteBetween(next, tail[1..], tail[1], name);
    }
  }

  // ----- The result -----

  /**
    ModuleDependencyOrder.  It succeeds exactly when the primary module and
    everything it reaches exist and no cycle is reachable; the order then holds
    exactly the reachable modules, each once and after all its imports.
   */
  method ModuleDependencyOrder(mods: Modules, primary: string) returns (outcome: Outcome)
    ensures outcome.Ordered? <==>
              primary in mods && !MissingReachable(mods, primary) && !CycleReachable(mods, primary)
    ensures outcome.Ordered? ==>
              && NoDuplicates(outcome.order) && ImportsFirst(mods, outcome.order)
              && (forall n :: n in outcome.order <==> Reaches(Imports(mods), primary, n))
    ensures outcome.Failed? ==> Justified(mods, primary, outcome.failure)
  {
    if primary !in mods {
      ReachesSelf(Imports(mods), primary);
      return Failed(PrimaryNotFound);
    }
    var walk := new DependencyWalk(mods);
    var result := walk.Visit(primary, []);
    match result {
      case Broken(failure) =>
        JustifiedFailure(mods, primary, failure);
        outcome := Failed(failure);
      case Fine =>
        CompleteOrder(mods, primary, walk.order);
        outcome := Ordered(walk.order);
    }
  }

  lemma JustifiedFailure(mods: Modules, root: string, failure: Failure)
    requires Justified(mods, root, failure) && !failure.PrimaryNotFound?
    ensures MissingReachable(mods, root) || CycleReachable(mods, root)
  {
    if failure.UnknownImport? {
      ReachesStep(Imports(mods), root, failure.importer, failure.name);
    }
  }

  /** A finished order is exactly the reachable part, and leaves no room for a cycle. */
  lemma CompleteOrder(mods: Modules, root: string, order: seq<string>)
    requires NoDuplicates(order) && ImportsFirst(mods, order) && root in order
    requires forall n | n in order :: n in mods && Reaches(Imports(mods), root, n)
    ensures forall n :: n in order <==> Reaches(Imports(mods), root, n)
    ensures !MissingReachable(mods, root) && !CycleReachable(mods, root)
  {
    var next := Imports(mods);
    var listed := set n | n in order;
    assert ClosedUnder(next, listed) by {
      forall n, m | n in listed && m in next(n) ensures m in listed {
        var i :| 0 <= i < |order| && order[i] == n;
        assert m in order[..i];
      }
    }
    forall n | Reaches(next, root, n) ensures n in order {
      ClosedHolds(next, listed, root, n);
    }
    forall n | Reaches(next, root, n) ensures !OnCycle(next, n) {
      if OnCycle(next, n) {
        var m :| m in next(n) && Reaches(next, m, n);
        var i :| 0 <= i < |order| && order[i] == n;
        EarlierStaysEarlier(mods, order, i, m, n);
      }
    }
  }

  /** From a module listed before position `i`, only modules before `i` are reachable. */
  lemma EarlierStaysEarlier(mods: Modules, order: seq<string>, i: nat, m: string, n: string)
    requires NoDuplicates(order) && ImportsFirst(mods, order) && i < |order|
    requires m in order[..i] && Reaches(Imports(mods), m, n)
    ensures n in order[..i] && n != order[i]
  {
    var next := Imports(mods);
    var early := set x | x in order[..i];
    forall x, y | x in early && y in next(x) ensures y in early {
      var k :| 0 <= k < i && order[k] == x;
      assert y in order[..k];
      assert order[..k] <= order[..i];
    }
    ClosedHolds(next, early, m, n);
  }

  // ----- TopoSort -----

  /** Every node that a graph mentions: a lookup of a node without an entry yields no successors. */
  function Completed(graph: Modules): (all: Modules)
    ensures forall n, d | n in all && d in all[n] :: d in all
    ensures forall n :: n in all <==> n in graph || exists m :: m in graph && n in graph[m]
    ensures forall n | n in all :: all[n] == if n in graph then graph[n] else []
  {
    var targets := set m, d | m in graph && d in graph[m] :: d;
    map n | n in graph.Keys + targets :: if n in graph then graph[n] else []
  }

  /**
    TopoSort, over the nodes in any order.  It succeeds exactly when the graph has
    no cycle; the order then holds each node once, after all its successors.
   */
  method TopoSort(graph: Modules) returns (outcome: Outcome)
    ensures outcome.Ordered? <==> forall n :: !OnCycle(Imports(Completed(graph)), n)
    ensures outcome.Ordered? ==>
              && NoDuplicates(outcome.order) && ImportsFirst(Completed(graph), outcome.order)
              && (forall n :: n in outcome.order <==> n in Completed(graph))
    ensures outcome.Failed? ==>
              outcome.failure.CircularImport? && OnCycle(Imports(Completed(graph)), outcome.failure.at)
  {
    var all := Completed(graph);
    var walk := new DependencyWalk(all);
    var rest := graph.Keys;
    while rest != {}
      invariant fresh(walk) && walk.mods == all && walk.Valid([])
      invariant rest <= graph.Keys && graph.Keys - rest <= Listed(walk.order)
      decreases rest
    {
      var node :| node in rest;
      rest := rest - {node};
      var result := walk.Visit(node, []);
      if result.Broken? {
        return Failed(result.failure);
      }
    }
    SortedIsAcyclic(graph, walk.order);
    outcome := Ordered(walk.order);
  }

  lemma SortedIsAcyclic(graph: Modules, order: seq<string>)
    requires NoDuplicates(order) && ImportsFirst(Completed(graph), order)
    requires graph.Keys <= Listed(order) && forall n | n in order :: n in Completed(graph)
    ensures forall n :: n in order <==> n in Completed(graph)
    ensures forall n :: !OnCycle(Imports(Completed(graph)), n)
  {
    var all := Completed(graph);
    var next := Imports(all);
    forall n | n in all ensures n in order {
      if n !in graph {
        var m :| m in graph && n in graph[m];
        var i :| 0 <= i < |order| && order[i] == m;
        assert n in order[..i];
      }
    }
    forall n ensures !OnCycle(next, n) {
      if OnCycle(next, n) {
        var m :| m in next(n) && Reaches(next, m, n);
        var i :| 0 <= i < |order| && order[i] == n;
        EarlierStaysEarlier(all, order, i, m, n);
      }
    }
  }
}
