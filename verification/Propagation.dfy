/**
  Whole-program propagation along call edges (loader/pipeline.go): literal
  arguments along forwarded parameters, and variadic tail lengths along
  forwarded slices.

  Both loops write into tables held by signature objects that point at each
  other, possibly in cycles.  `Slots` and `Arities` view those tables as sets of
  labelled nodes; what a pass does is a propagation of labels.
 */
module Propagation {
  import opened Reachability

  datatype SpecializationConstant = SpecializationConstant(kind: string, value: string, typeText: string)

  type Constants = map<string, SpecializationConstant>

  /** A signature's constants, by parameter position. */
  type ConstantTable = map<int, Constants>

  datatype ConstantForward =
    ConstantForward(callerParameter: int, callee: FunctionSignature, calleeParameter: int)

  class FunctionSignature {
    var constantArguments: ConstantTable
    var constantForwards: seq<ConstantForward>
    var typedVariadicArities: set<nat>
    var typedVariadicForwards: seq<FunctionSignature>

    constructor ()
      ensures constantArguments == map[] && constantForwards == []
      ensures typedVariadicArities == {} && typedVariadicForwards == []
    {
      constantArguments, constantForwards := map[], [];
      typedVariadicArities, typedVariadicForwards := {}, [];
    }
  }

  /** A parameter of a function. */
  type Slot = (FunctionSignature, int)

  // ----- Constants: the tables as a value -----

  type State = map<FunctionSignature, ConstantTable>

  ghost function StateOf(scope: set<FunctionSignature>): State
    reads scope`constantArguments
  {
    map s | s in scope :: s.constantArguments
  }

  function At(table: ConstantTable, parameter: int): Constants {
    if parameter in table then table[parameter] else map[]
  }

  ghost function Labels(state: State): set<(Slot, string)> {
    set s, p, k | s in state && p in state[s] && k in state[s][p] :: ((s, p), k)
  }

  /** The constants themselves, each under its key at its parameter. */
  ghost function Entries(state: State): set<(Slot, (string, SpecializationConstant))> {
    set s, p, k | s in state && p in state[s] && k in state[s][p] :: ((s, p), (k, state[s][p][k]))
  }

  /** The forwards of the listed signatures, as edges between parameters. */
  ghost function Edges(signatures: seq<FunctionSignature>): seq<(Slot, Slot)>
    reads signatures`constantForwards
  {
    Flatten(Rows(signatures))
  }

  ghost function Rows(signatures: seq<FunctionSignature>): (rows: seq<seq<(Slot, Slot)>>)
    reads signatures`constantForwards
    ensures |rows| == |signatures|
    ensures forall i | 0 <= i < |rows| :: rows[i] == EdgesOf(signatures[i], signatures[i].constantForwards)
  {
    if signatures == [] then []
    else
      var last := signatures[|signatures| - 1];
      Rows(signatures[..|signatures| - 1]) + [EdgesOf(last, last.constantForwards)]
  }

  ghost function Flatten<T>(rows: seq<seq<T>>): seq<T> {
    if rows == [] then [] else Flatten(rows[..|rows| - 1]) + rows[|rows| - 1]
  }

  ghost function EdgesOf(signature: FunctionSignature, forwards: seq<ConstantForward>): seq<(Slot, Slot)> {
    seq(|forwards|, i requires 0 <= i < |forwards| =>
      ((signature, forwards[i].callerParameter), (forwards[i].callee, forwards[i].calleeParameter)))
  }

  /** One forward: the caller's constants, under those the callee already has. */
  ghost function Forward(state: State, edge: (Slot, Slot)): (r: State)
    requires edge.0.0 in state && edge.1.0 in state
    ensures r.Keys == state.Keys
  {
    var source := At(state[edge.0.0], edge.0.1);
    var target := state[edge.1.0];
    if source == map[] then state
    else state[edge.1.0 := target[edge.1.1 := source + At(target, edge.1.1)]]
  }

  lemma ForwardPushes(state: State, edge: (Slot, Slot))
    requires edge.0.0 in state && edge.1.0 in state
    ensures Labels(Forward(state, edge)) == Push(edge, Labels(state))
  {
    var source := At(state[edge.0.0], edge.0.1);
    var after := Forward(state, edge);
    forall s, p, k
      ensures ((s, p), k) in Labels(after) <==> ((s, p), k) in Push(edge, Labels(state))
    {
      assert ((s, p), k) in Labels(state) <==> s in state && p in state[s] && k in state[s][p];
      assert (edge.0, k) in Labels(state) <==> k in source;
      if (s, p) == edge.1 && k in source {
        assert (edge.1, k) == ((s, p), k);
      }
    }
    assert forall f :: f in Labels(after) ==> f == ((f.0.0, f.0.1), f.1);
  }

  ghost predicate Inside(edges: seq<(Slot, Slot)>, scope: set<FunctionSignature>) {
    forall i | 0 <= i < |edges| :: edges[i].0.0 in scope && edges[i].1.0 in scope
  }

  ghost function ForwardSeq(state: State, edges: seq<(Slot, Slot)>): (r: State)
    requires Inside(edges, state.Keys)
    ensures r.Keys == state.Keys
  {
    if edges == [] then state else Forward(ForwardSeq(state, edges[..|edges| - 1]), edges[|edges| - 1])
  }

  lemma {:induction false} ForwardSeqPush(state: State, edges: seq<(Slot, Slot)>)
    requires Inside(edges, state.Keys)
    ensures Labels(ForwardSeq(state, edges)) == PushAll(edges, Labels(state))
  {
    if edges != [] {
      ForwardSeqPush(state, edges[..|edges| - 1]);
      ForwardPushes(ForwardSeq(state, edges[..|edges| - 1]), edges[|edges| - 1]);
    }
  }

  lemma {:induction false} ForwardSeqAppend(state: State, a: seq<(Slot, Slot)>, b: seq<(Slot, Slot)>)
    requires Inside(a, state.Keys) && Inside(b, state.Keys)
    ensures Inside(a + b, state.Keys)
    ensures ForwardSeq(state, a + b) == ForwardSeq(ForwardSeq(state, a), b)
  {
    if b == [] {
      assert a + b == a;
    } else {
      assert (a + b)[..|a + b| - 1] == a + b[..|b| - 1];
      ForwardSeqAppend(state, a, b[..|b| - 1]);
    }
  }

  /** Entries that exist are never replaced. */
  ghost predicate Keeps(before: State, after: State) {
    before.Keys == after.Keys && forall s | s in before :: KeepsTable(before[s], after[s])
  }

  ghost predicate KeepsTable(before: ConstantTable, after: ConstantTable) {
    forall p, k | k in At(before, p) :: k in At(after, p) && At(after, p)[k] == At(before, p)[k]
  }

  lemma {:induction false} ForwardSeqKeeps(state: State, edges: seq<(Slot, Slot)>)
    requires Inside(edges, state.Keys)
    ensures Keeps(state, ForwardSeq(state, edges))
  {
    if edges != [] {
      ForwardSeqKeeps(state, edges[..|edges| - 1]);
    }
  }

  // ----- Constants are copied, never made -----

  /** The constant started, under its key, at a parameter linked to this one. */
  ghost predicate Comes(edges: seq<(Slot, Slot)>, initial: State, slot: Slot, k: string, v: SpecializationConstant) {
    Spread(edges, Entries(initial), (slot, (k, v)))
  }

  ghost predicate Copied(edges: seq<(Slot, Slot)>, initial: State, state: State) {
    forall s, p: int, k | s in state && k in At(state[s], p) :: Comes(edges, initial, (s, p), k, At(state[s], p)[k])
  }

  lemma StartIsCopied(edges: seq<(Slot, Slot)>, initial: State)
    ensures Copied(edges, initial, initial)
  {
    forall s, p: int, k | s in initial && k in At(initial[s], p)
      ensures Comes(edges, initial, (s, p), k, At(initial[s], p)[k])
    {
      LinkedSelf(edges, (s, p));
      assert ((s, p), (k, initial[s][p][k])) in Entries(initial);
    }
  }

  lemma ForwardCopies(edges: seq<(Slot, Slot)>, initial: State, edge: (Slot, Slot), state: State)
    requires edge in edges && edge.0.0 in state && edge.1.0 in state && Copied(edges, initial, state)
    ensures Copied(edges, initial, Forward(state, edge))
  {
    var after := Forward(state, edge);
    forall s, p: int, k | s in after && k in At(after[s], p)
      ensures Comes(edges, initial, (s, p), k, At(after[s], p)[k])
    {
      if k !in At(state[s], p) {
        var v := At(state[edge.0.0], edge.0.1)[k];
        assert (s, p) == edge.1 && At(after[s], p)[k] == v;
        ComesOn(edges, initial, edge, k, v);
      } else {
        assert At(after[s], p)[k] == At(state[s], p)[k];
      }
    }
  }

  lemma ComesOn(edges: seq<(Slot, Slot)>, initial: State, edge: (Slot, Slot), k: string, v: SpecializationConstant)
    requires edge in edges && Comes(edges, initial, edge.0, k, v)
    ensures Comes(edges, initial, edge.1, k, v)
  {
    var g :| g in Entries(initial) && g.1 == (k, v) && Linked(edges, g.0, edge.0);
    var i :| 0 <= i < |edges| && edges[i] == edge;
    LinkedStep(edges, g.0, i);
  }

  lemma {:induction false} ForwardSeqCopies(edges: seq<(Slot, Slot)>, initial: State, row: seq<(Slot, Slot)>,
                                            state: State)
    requires Inside(row, state.Keys) && Copied(edges, initial, state) && forall e | e in row :: e in edges
    ensures Copied(edges, initial, ForwardSeq(state, row))
    decreases |row|
  {
    if row != [] {
      var before := row[..|row| - 1];
      ForwardSeqCopies(edges, initial, before, state);
      ForwardCopies(edges, initial, row[|row| - 1], ForwardSeq(state, before));
    }
  }

  lemma {:induction false} IterateCopies(edges: seq<(Slot, Slot)>, initial: State, n: nat)
    requires Inside(edges, initial.Keys)
    ensures Copied(edges, initial, Iterate(edges, initial, n))
  {
    if n == 0 {
      StartIsCopied(edges, initial);
    } else {
      IterateCopies(edges, initial, n - 1);
      ForwardSeqCopies(edges, initial, edges, Iterate(edges, initial, n - 1));
    }
  }

  ghost predicate ClosedScope(signatures: seq<FunctionSignature>, scope: set<FunctionSignature>)
    reads scope`constantForwards
  {
    forall s | s in signatures :: s in scope && forall f | f in s.constantForwards :: f.callee in scope
  }

  lemma RowsInScope(signatures: seq<FunctionSignature>, scope: set<FunctionSignature>)
    requires ClosedScope(signatures, scope)
    ensures forall i | 0 <= i < |signatures| :: Inside(Rows(signatures)[i], scope)
  {
    forall i | 0 <= i < |signatures| ensures Inside(Rows(signatures)[i], scope) {
      var forwards := signatures[i].constantForwards;
      assert signatures[i] in signatures;
      assert forall k | 0 <= k < |forwards| :: forwards[k] in forwards;
    }
  }

  lemma {:induction false} FlattenInside(rows: seq<seq<(Slot, Slot)>>, scope: set<FunctionSignature>)
    requires forall i | 0 <= i < |rows| :: Inside(rows[i], scope)
    ensures Inside(Flatten(rows), scope)
  {
    if rows != [] {
      FlattenInside(rows[..|rows| - 1], scope);
    }
  }

  /** propagateSpecializationConstants, on the signatures listed module by module. */
  method PropagateSpecializationConstants(signatures: seq<FunctionSignature>, ghost scope: set<FunctionSignature>)
    requires ClosedScope(signatures, scope)
    modifies scope`constantArguments
    ensures Keeps(old(StateOf(scope)), StateOf(scope))
    ensures forall s, p: int, k | s in scope ::
      (k in At(s.constantArguments, p)
       <==> Spread(Edges(signatures), old(Labels(StateOf(scope))), ((s, p), k)))
    ensures Copied(Edges(signatures), old(StateOf(scope)), StateOf(scope))
  {
    ghost var rows, edges := Rows(signatures), Edges(signatures);
    RowsInScope(signatures, scope);
    FlattenInside(rows, scope);
    ghost var initial := StateOf(scope);
    ghost var passes := ForwardToFixpoint(signatures, scope, rows);
    FixpointIsSpread(edges, initial, passes);
    IterateCopies(edges, initial, passes);
  }

  /** The changed-flag loop: it runs until a pass changes nothing. */
  method ForwardToFixpoint(signatures: seq<FunctionSignature>, ghost scope: set<FunctionSignature>,
                           ghost rows: seq<seq<(Slot, Slot)>>) returns (ghost passes: nat)
    requires ClosedScope(signatures, scope) && rows == Rows(signatures)
    requires Inside(Flatten(rows), scope) && forall i | 0 <= i < |rows| :: Inside(rows[i], scope)
    modifies scope`constantArguments
    ensures passes > 0 && StateOf(scope) == Iterate(Flatten(rows), old(StateOf(scope)), passes)
    ensures StateOf(scope) == Iterate(Flatten(rows), old(StateOf(scope)), passes - 1)
  {
    ghost var edges := Flatten(rows);
    ghost var initial, state := StateOf(scope), StateOf(scope);
    passes := 0;
    var changed := true;
    while changed
      invariant state == StateOf(scope) && state == Iterate(edges, initial, passes)
      invariant !changed ==> passes > 0 && state == Iterate(edges, initial, passes - 1)
      decreases Slack(edges, initial, state), changed
    {
      IterateDescends(edges, initial, passes);
      changed := ForwardAll(signatures, scope, rows);
      passes := passes + 1;
      state := Iterate(edges, initial, passes);
    }
  }

  /** The measure: labels that are still missing. */
  ghost function Slack(edges: seq<(Slot, Slot)>, initial: State, state: State): set<(Slot, string)> {
    Room(edges, Labels(initial)) - Labels(state)
  }

  ghost function Iterate(edges: seq<(Slot, Slot)>, initial: State, n: nat): (r: State)
    requires Inside(edges, initial.Keys)
    ensures r.Keys == initial.Keys
  {
    if n == 0 then initial else ForwardSeq(Iterate(edges, initial, n - 1), edges)
  }

  /** What every number of passes keeps. */
  lemma {:induction false} IterateKeeps(edges: seq<(Slot, Slot)>, initial: State, n: nat)
    requires Inside(edges, initial.Keys)
    ensures Keeps(initial, Iterate(edges, initial, n))
    ensures Between(edges, Labels(initial), Labels(Iterate(edges, initial, n)))
  {
    if n == 0 {
      StartIsBetween(edges, Labels(initial));
    } else {
      var before := Iterate(edges, initial, n - 1);
      IterateKeeps(edges, initial, n - 1);
      ForwardSeqKeeps(before, edges);
      ForwardSeqPush(before, edges);
      assert edges[..|edges|] == edges;
      PassIsBetween(edges, Labels(initial), |edges|, Labels(before), Labels(Iterate(edges, initial, n)));
    }
  }

  lemma IterateDescends(edges: seq<(Slot, Slot)>, initial: State, n: nat)
    requires Inside(edges, initial.Keys)
    ensures
      var before, after := Iterate(edges, initial, n), Iterate(edges, initial, n + 1);
      before == after || Slack(edges, initial, after) < Slack(edges, initial, before)
  {
    var before, after := Iterate(edges, initial, n), Iterate(edges, initial, n + 1);
    IterateKeeps(edges, initial, n + 1);
    ForwardSeqGrows(before, edges);
    SlackShrinks(Room(edges, Labels(initial)), Labels(before), Labels(after));
  }

  lemma SlackShrinks(room: set<(Slot, string)>, before: set<(Slot, string)>, after: set<(Slot, string)>)
    requires before <= after && forall f | f in after :: f in room
    ensures before == after || room - after < room - before
  {
    if before != after {
      var f :| f in after && f !in before;
      assert f in room - before;
    }
  }

  /** Once a pass changes nothing, the labels are exactly those that spread. */
  lemma FixpointIsSpread(edges: seq<(Slot, Slot)>, initial: State, n: nat)
    requires Inside(edges, initial.Keys) && n > 0
    requires Iterate(edges, initial, n) == Iterate(edges, initial, n - 1)
    ensures
      var state := Iterate(edges, initial, n);
      && Keeps(initial, state)
      && forall s, p: int, k | s in state ::
           (k in At(state[s], p) <==> Spread(edges, Labels(initial), ((s, p), k)))
  {
    var state := Iterate(edges, initial, n);
    IterateKeeps(edges, initial, n);
    ForwardSeqPush(state, edges);
    PassAtRest(edges, Labels(state));
    forall s, p: int, k | s in state
      ensures k in At(state[s], p) <==> Spread(edges, Labels(initial), ((s, p), k))
    {
      ClosedIsSpread(edges, Labels(initial), Labels(state), ((s, p), k));
    }
  }

  /** Forwarding leaves the state alone or adds a label. */
  lemma {:induction false} ForwardSeqGrows(state: State, edges: seq<(Slot, Slot)>)
    requires Inside(edges, state.Keys)
    ensures Labels(state) <= Labels(ForwardSeq(state, edges))
    ensures ForwardSeq(state, edges) != state ==> Labels(ForwardSeq(state, edges)) != Labels(state)
    decreases edges
  {
    if edges != [] {
      var before := ForwardSeq(state, edges[..|edges| - 1]);
      ForwardSeqGrows(state, edges[..|edges| - 1]);
      ForwardGrows(before, edges[|edges| - 1]);
    }
  }

  lemma ForwardGrows(state: State, edge: (Slot, Slot))
    requires edge.0.0 in state && edge.1.0 in state
    ensures Labels(state) <= Labels(Forward(state, edge))
    ensures Forward(state, edge) != state ==> Labels(Forward(state, edge)) != Labels(state)
    ensures Forward(state, edge) != state <==>
              exists k :: k in At(state[edge.0.0], edge.0.1) && k !in At(state[edge.1.0], edge.1.1)
  {
    ForwardPushes(state, edge);
    var source, target := At(state[edge.0.0], edge.0.1), At(state[edge.1.0], edge.1.1);
    if k :| k in source && k !in target {
      assert (edge.1, k) !in Labels(state) && (edge.0, k) in Labels(state);
      assert (edge.1, k) in Push(edge, Labels(state));
    } else if source != map[] {
      var k :| k in source;
      assert k in target;
      assert source + target == target;
      assert state[edge.1.0][edge.1.1 := target] == state[edge.1.0];
      assert state[edge.1.0 := state[edge.1.0]] == state;
    }
  }

  /** Forwarding along more edges never leads back to an earlier state. */
  lemma NoReturn(state: State, a: seq<(Slot, Slot)>, b: seq<(Slot, Slot)>)
    requires Inside(a, state.Keys) && Inside(b, state.Keys)
    ensures
      var middle := ForwardSeq(state, a);
      ForwardSeq(middle, b) == state <==> middle == state && ForwardSeq(middle, b) == middle
  {
    ForwardSeqGrows(state, a);
    ForwardSeqGrows(ForwardSeq(state, a), b);
  }

  lemma NoReturnStep(state: State, a: seq<(Slot, Slot)>, edge: (Slot, Slot))
    requires Inside(a, state.Keys) && edge.0.0 in state && edge.1.0 in state
    ensures
      var middle := ForwardSeq(state, a);
      Forward(middle, edge) == state <==> middle == state && Forward(middle, edge) == middle
  {
    ForwardSeqGrows(state, a);
    ForwardGrows(ForwardSeq(state, a), edge);
  }

  /** One pass: every forward of every listed signature. */
  method ForwardAll(signatures: seq<FunctionSignature>, ghost scope: set<FunctionSignature>,
                    ghost rows: seq<seq<(Slot, Slot)>>) returns (changed: bool)
    requires ClosedScope(signatures, scope) && rows == Rows(signatures)
    requires Inside(Flatten(rows), scope) && forall i | 0 <= i < |rows| :: Inside(rows[i], scope)
    modifies scope`constantArguments
    ensures StateOf(scope) == ForwardSeq(old(StateOf(scope)), Flatten(rows))
    ensures changed <==> StateOf(scope) != old(StateOf(scope))
  {
    changed := false;
    ghost var start, state := StateOf(scope), StateOf(scope);
    for i := 0 to |signatures|
      invariant state == StateOf(scope) && (changed <==> state != start)
      invariant Inside(Flatten(rows[..i]), scope) && state == ForwardSeq(start, Flatten(rows[..i]))
    {
      var here := ForwardRow(signatures, scope, rows, i, start);
      changed := here || changed;
      state := StateOf(scope);
    }
    assert rows[..|signatures|] == rows;
  }

  /** The forwards of one signature, after those of the ones before it. */
  method ForwardRow(signatures: seq<FunctionSignature>, ghost scope: set<FunctionSignature>,
                    ghost rows: seq<seq<(Slot, Slot)>>, i: nat, ghost start: State) returns (changed: bool)
    requires ClosedScope(signatures, scope) && rows == Rows(signatures) && i < |signatures| && start.Keys == scope
    requires Inside(Flatten(rows[..i]), scope) && Inside(rows[i], scope)
    requires StateOf(scope) == ForwardSeq(start, Flatten(rows[..i]))
    modifies scope`constantArguments
    ensures Inside(Flatten(rows[..i + 1]), scope) && StateOf(scope) == ForwardSeq(start, Flatten(rows[..i + 1]))
    ensures StateOf(scope) == start <==> old(StateOf(scope)) == start && !changed
  {
    ghost var state := StateOf(scope);
    RowFacts(rows, i, start, state, ForwardSeq(state, rows[i]));
    changed := ForwardSignature(signatures[i], scope, rows[i]);
  }

  lemma RowFacts(rows: seq<seq<(Slot, Slot)>>, i: nat, start: State, state: State, after: State)
    requires i < |rows| && Inside(rows[i], start.Keys)
    requires Inside(Flatten(rows[..i]), start.Keys) && state == ForwardSeq(start, Flatten(rows[..i]))
    requires after == ForwardSeq(state, rows[i])
    ensures Inside(Flatten(rows[..i + 1]), start.Keys)
    ensures after == ForwardSeq(start, Flatten(rows[..i + 1]))
    ensures after == start <==> state == start && after == state
  {
    assert rows[..i + 1][..i] == rows[..i];
    ForwardSeqAppend(start, Flatten(rows[..i]), rows[i]);
    NoReturn(start, Flatten(rows[..i]), rows[i]);
  }

  method ForwardSignature(signature: FunctionSignature, ghost scope: set<FunctionSignature>,
                          ghost own: seq<(Slot, Slot)>) returns (changed: bool)
    requires own == EdgesOf(signature, signature.constantForwards) && Inside(own, scope) && signature in scope
    modifies scope`constantArguments
    ensures StateOf(scope) == ForwardSeq(old(StateOf(scope)), own)
    ensures changed <==> StateOf(scope) != old(StateOf(scope))
  {
    changed := false;
    ghost var start, state := StateOf(scope), StateOf(scope);
    for j := 0 to |signature.constantForwards|
      invariant state == StateOf(scope) && state == ForwardSeq(start, own[..j])
      invariant changed <==> state != start
    {
      assert own[..j + 1][..j] == own[..j];
      NoReturnStep(start, own[..j], own[j]);
      var here := ForwardKeys(signature, signature.constantForwards[j], scope);
      changed := here || changed;
      state := Forward(state, own[j]);
    }
    assert own[..|own|] == own;
  }

  /** The target table once the keys in `done` have been forwarded. */
  ghost function Filled(target: ConstantTable, parameter: int, source: Constants, done: set<string>): ConstantTable {
    if done == {} then target
    else target[parameter := (map k | k in source && k in done :: source[k]) + At(target, parameter)]
  }

  lemma FillOne(target: ConstantTable, parameter: int, source: Constants, done: set<string>, key: string)
    requires key in source
    ensures
      var before := Filled(target, parameter, source, done);
      var ready := if parameter in before then before else before[parameter := map[]];
      Filled(target, parameter, source, done + {key})
      == if key in ready[parameter] then ready
         else ready[parameter := ready[parameter][key := source[key]]]
  {
    var before := Filled(target, parameter, source, done);
    var ready := if parameter in before then before else before[parameter := map[]];
    var after := if key in ready[parameter] then ready
                 else ready[parameter := ready[parameter][key := source[key]]];
    var filled := Filled(target, parameter, source, done + {key});
    assert filled[parameter] == after[parameter];
    assert filled == after;
  }

  /** The keys of one caller parameter, in any order, into one callee parameter. */
  method ForwardKeys(signature: FunctionSignature, forward: ConstantForward, ghost scope: set<FunctionSignature>)
    returns (changed: bool)
    requires signature in scope && forward.callee in scope
    modifies scope`constantArguments
    ensures
      var edge := ((signature, forward.callerParameter), (forward.callee, forward.calleeParameter));
      && StateOf(scope) == Forward(old(StateOf(scope)), edge)
      && (changed <==> StateOf(scope) != old(StateOf(scope)))
  {
    changed := false;
    ghost var edge := ((signature, forward.callerParameter), (forward.callee, forward.calleeParameter));
    ghost var before := StateOf(scope);
    var source := At(signature.constantArguments, forward.callerParameter);
    var callee, parameter := forward.callee, forward.calleeParameter;
    ghost var target := callee.constantArguments;
    var rest := source.Keys;
    while rest != {}
      invariant rest <= source.Keys
      invariant callee.constantArguments == Filled(target, parameter, source, source.Keys - rest)
      invariant changed <==> exists k :: k in source && k !in rest && k !in At(target, parameter)
      invariant forall s | s in scope && s != callee :: s.constantArguments == before[s]
      decreases rest
    {
      var key :| key in rest;
      FillOne(target, parameter, source, source.Keys - rest, key);
      assert source.Keys - (rest - {key}) == (source.Keys - rest) + {key};
      rest := rest - {key};
      if parameter !in callee.constantArguments {
        callee.constantArguments := callee.constantArguments[parameter := map[]];
      }
      var entries := callee.constantArguments[parameter];
      if key !in entries {
        callee.constantArguments := callee.constantArguments[parameter := entries[key := source[key]]];
        changed := true;
      }
    }
    assert source.Keys - rest == source.Keys;
    assert source == map k | k in source && k in source.Keys :: source[k];
    assert StateOf(scope) == Forward(before, edge);
    ForwardGrows(before, edge);
  }

  // ----- Variadic arities -----

  type Arity = (FunctionSignature, nat)

  ghost function Arities(scope: set<FunctionSignature>): set<Arity>
    reads scope`typedVariadicArities
  {
    set s, a | s in scope && a in s.typedVariadicArities :: (s, a)
  }

  ghost function ArityEdgesOf(signature: FunctionSignature, forwards: seq<FunctionSignature>)
    : seq<(FunctionSignature, FunctionSignature)>
  {
    seq(|forwards|, i requires 0 <= i < |forwards| => (signature, forwards[i]))
  }

  ghost function ArityRows(signatures: seq<FunctionSignature>): (rows: seq<seq<(FunctionSignature, FunctionSignature)>>)
    reads signatures`typedVariadicForwards
    ensures |rows| == |signatures|
    ensures forall i | 0 <= i < |rows| :: rows[i] == ArityEdgesOf(signatures[i], signatures[i].typedVariadicForwards)
  {
    if signatures == [] then []
    else
      var last := signatures[|signatures| - 1];
      ArityRows(signatures[..|signatures| - 1]) + [ArityEdgesOf(last, last.typedVariadicForwards)]
  }

  ghost predicate ClosedArityScope(signatures: seq<FunctionSignature>, scope: set<FunctionSignature>)
    reads scope`typedVariadicForwards
  {
    forall s | s in signatures :: s in scope && forall f | f in s.typedVariadicForwards :: f in scope
  }

  /** Every arity in `some` of one signature, at each function it forwards to. */
  ghost function Widen(labels: set<Arity>, forwards: seq<FunctionSignature>, some: set<nat>): set<Arity> {
    labels + set f, a | f in forwards && a in some :: (f, a)
  }

  lemma {:induction false} WidenIsPush(signature: FunctionSignature, forwards: seq<FunctionSignature>,
                                       labels: set<Arity>, own: set<nat>)
    requires forall a :: a in own <==> (signature, a) in labels
    ensures PushAll(ArityEdgesOf(signature, forwards), labels) == Widen(labels, forwards, own)
    decreases forwards
  {
    var edges := ArityEdgesOf(signature, forwards);
    if forwards != [] {
      var fewer, last := forwards[..|forwards| - 1], forwards[|forwards| - 1];
      WidenIsPush(signature, fewer, labels, own);
      assert edges[..|edges| - 1] == ArityEdgesOf(signature, fewer);
      var before := Widen(labels, fewer, own);
      assert forall a :: a in own <==> (signature, a) in before;
      assert forall f :: f in forwards <==> f in fewer || f == last;
      assert PushAll(edges, labels) == Push((signature, last), before);
      forall l: Arity | l in PushAll(edges, labels) ensures l in Widen(labels, forwards, own) {
        if l !in before {
          assert l in Push((signature, last), before);
          var f: Arity :| f in before && f.0 == signature && l == (last, f.1);
          assert f == (signature, f.1);
          assert l == (l.0, l.1) && l.0 in forwards && l.1 in own;
        }
      }
      forall f, a: nat | f in forwards && a in own ensures (f, a) in PushAll(edges, labels) {
        if f == last {
          assert (signature, a) in before;
        }
      }
    }
  }

  /** propagateTypedVariadicArities, on the variadic signatures listed module by module. */
  method PropagateTypedVariadicArities(signatures: seq<FunctionSignature>, ghost scope: set<FunctionSignature>)
    requires ClosedArityScope(signatures, scope)
    modifies scope`typedVariadicArities
    ensures forall s, a: nat | s in scope ::
      (a in s.typedVariadicArities <==> Spread(Flatten(ArityRows(signatures)), old(Arities(scope)), (s, a)))
  {
    ghost var rows := ArityRows(signatures);
    ghost var edges, start := Flatten(rows), Arities(scope);
    StartIsBetween(edges, start);
    var changed := true;
    while changed
      invariant Between(edges, start, Arities(scope))
      invariant !changed ==> ClosedUnder(edges, Arities(scope))
      decreases Room(edges, start) - Arities(scope), changed
    {
      changed := ArityRound(signatures, scope, rows, start);
    }
    ghost var labels := Arities(scope);
    forall s, a: nat | s in scope
      ensures a in s.typedVariadicArities <==> Spread(edges, start, (s, a))
    {
      ClosedIsSpread(edges, start, labels, (s, a));
    }
  }

  method ArityRound(signatures: seq<FunctionSignature>, ghost scope: set<FunctionSignature>,
                    ghost rows: seq<seq<(FunctionSignature, FunctionSignature)>>, ghost start: set<Arity>)
    returns (changed: bool)
    requires ClosedArityScope(signatures, scope) && rows == ArityRows(signatures)
    requires Between(Flatten(rows), start, Arities(scope))
    modifies scope`typedVariadicArities
    ensures Between(Flatten(rows), start, Arities(scope))
    ensures
      if changed then Room(Flatten(rows), start) - Arities(scope) < Room(Flatten(rows), start) - old(Arities(scope))
      else ClosedUnder(Flatten(rows), Arities(scope)) && Arities(scope) == old(Arities(scope))
  {
    ghost var labels := Arities(scope);
    ArityPass(Flatten(rows), start, labels, PushAll(Flatten(rows), labels));
    changed := ForwardAllArities(signatures, scope, rows);
  }

  lemma ArityPass(edges: seq<(FunctionSignature, FunctionSignature)>, start: set<Arity>, labels: set<Arity>,
                  grown: set<Arity>)
    requires Between(edges, start, labels) && grown == PushAll(edges, labels)
    ensures Between(edges, start, grown)
    ensures
      if grown == labels then ClosedUnder(edges, labels)
      else Room(edges, start) - grown < Room(edges, start) - labels
  {
    assert edges[..|edges|] == edges;
    PassIsBetween(edges, start, |edges|, labels, grown);
    PassAtRest(edges, labels);
    if grown != labels {
      var f :| f in grown && f !in labels;
      assert f in Room(edges, start) - labels;
    }
  }

  method ForwardAllArities(signatures: seq<FunctionSignature>, ghost scope: set<FunctionSignature>,
                           ghost rows: seq<seq<(FunctionSignature, FunctionSignature)>>) returns (changed: bool)
    requires ClosedArityScope(signatures, scope) && rows == ArityRows(signatures)
    modifies scope`typedVariadicArities
    ensures Arities(scope) == PushAll(Flatten(rows), old(Arities(scope)))
    ensures changed <==> Arities(scope) != old(Arities(scope))
  {
    changed := false;
    ghost var start, labels := Arities(scope), Arities(scope);
    for i := 0 to |signatures|
      invariant labels == Arities(scope) && labels == PushAll(Flatten(rows[..i]), start)
      invariant start <= labels && (changed <==> labels != start)
    {
      assert rows[..i + 1][..i] == rows[..i];
      PushAllAppend(Flatten(rows[..i]), rows[i], start);
      PassAtRest(rows[i], labels);
      var signature := signatures[i];
      assert signature in signatures;
      WidenIsPush(signature, signature.typedVariadicForwards, labels, signature.typedVariadicArities);
      var here := ForwardArities(signature, scope);
      changed := here || changed;
      labels := PushAll(rows[i], labels);
    }
    assert rows[..|signatures|] == rows;
  }

  /** The arities of one signature, in any order, into each function it forwards to. */
  method ForwardArities(signature: FunctionSignature, ghost scope: set<FunctionSignature>) returns (changed: bool)
    requires signature in scope && forall f | f in signature.typedVariadicForwards :: f in scope
    modifies scope`typedVariadicArities
    ensures Arities(scope)
            == Widen(old(Arities(scope)), signature.typedVariadicForwards, old(signature.typedVariadicArities))
    ensures changed <==> Arities(scope) != old(Arities(scope))
  {
    changed := false;
    ghost var start := Arities(scope);
    var forwards := signature.typedVariadicForwards;
    var own := signature.typedVariadicArities;
    var rest := own;
    while rest != {}
      invariant rest <= own
      invariant Arities(scope) == Widen(start, forwards, own - rest)
      invariant changed <==> Arities(scope) != start
      decreases rest
    {
      var arity :| arity in rest;
      var here := ForwardArity(forwards, arity, scope);
      changed := here || changed;
      rest := rest - {arity};
    }
  }

  method ForwardArity(forwards: seq<FunctionSignature>, arity: nat, ghost scope: set<FunctionSignature>)
    returns (changed: bool)
    requires forall f | f in forwards :: f in scope
    modifies scope`typedVariadicArities
    ensures Arities(scope) == Widen(old(Arities(scope)), forwards, {arity})
    ensures changed <==> Arities(scope) != old(Arities(scope))
  {
    changed := false;
    ghost var start := Arities(scope);
    for j := 0 to |forwards|
      invariant Arities(scope) == Widen(start, forwards[..j], {arity})
      invariant changed <==> Arities(scope) != start
    {
      assert forwards[j] in forwards;
      ghost var here := Arities(scope);
      if arity !in forwards[j].typedVariadicArities {
        forwards[j].typedVariadicArities := forwards[j].typedVariadicArities + {arity};
        changed := true;
      }
      assert Arities(scope) == here + {(forwards[j], arity)};
      assert forall f :: f in forwards[..j + 1] <==> f in forwards[..j] || f == forwards[j];
    }
    assert forwards[..|forwards|] == forwards;
  }

  // ----- Module order -----

  lemma {:induction false} FlattenMember<T>(rows: seq<seq<T>>, e: T)
    ensures e in Flatten(rows) <==> exists i :: 0 <= i < |rows| && e in rows[i]
  {
    if rows != [] {
      var fewer := rows[..|rows| - 1];
      FlattenMember(fewer, e);
      if i :| 0 <= i < |fewer| && e in fewer[i] {
        assert e in rows[i];
      }
    }
  }

  lemma FlattenCarriesOver<T>(rows: seq<seq<T>>, others: seq<seq<T>>)
    requires forall i | 0 <= i < |rows| :: rows[i] in others
    ensures forall e | e in Flatten(rows) :: e in Flatten(others)
  {
    forall e | e in Flatten(rows) ensures e in Flatten(others) {
      FlattenMember(rows, e);
      FlattenMember(others, e);
      var i :| 0 <= i < |rows| && e in rows[i];
      assert rows[i] in others;
    }
  }

  lemma SpreadIgnoresOrder<N, K>(edges: seq<(N, N)>, others: seq<(N, N)>, start: set<(N, K)>, f: (N, K))
    requires forall e | e in edges :: e in others
    requires Spread(edges, start, f)
    ensures Spread(others, start, f)
  {
    var g :| g in start && g.1 == f.1 && Linked(edges, g.0, f.0);
    LinksIgnoreOrder(edges, others, g.0, f.0);
  }

  /** Rows that occur in both lists spread the same labels. */
  lemma SameRowsSpread<N, K>(rows: seq<seq<(N, N)>>, others: seq<seq<(N, N)>>, start: set<(N, K)>, f: (N, K))
    requires forall i | 0 <= i < |rows| :: rows[i] in others
    requires forall i | 0 <= i < |others| :: others[i] in rows
    ensures Spread(Flatten(rows), start, f) <==> Spread(Flatten(others), start, f)
  {
    FlattenCarriesOver(rows, others);
    FlattenCarriesOver(others, rows);
    if Spread(Flatten(rows), start, f) {
      SpreadIgnoresOrder(Flatten(rows), Flatten(others), start, f);
    }
    if Spread(Flatten(others), start, f) {
      SpreadIgnoresOrder(Flatten(others), Flatten(rows), start, f);
    }
  }

  /** The constants that spread do not depend on the order in which the signatures are listed. */
  lemma ListingOrderIsIrrelevant(signatures: seq<FunctionSignature>, others: seq<FunctionSignature>,
                                 start: set<(Slot, string)>, f: (Slot, string))
    requires forall s :: s in signatures <==> s in others
    ensures Spread(Edges(signatures), start, f) <==> Spread(Edges(others), start, f)
  {
    RowsCarryOver(signatures, others);
    RowsCarryOver(others, signatures);
    SameRowsSpread(Rows(signatures), Rows(others), start, f);
  }

  lemma RowsCarryOver(signatures: seq<FunctionSignature>, others: seq<FunctionSignature>)
    requires forall s | s in signatures :: s in others
    ensures forall i | 0 <= i < |Rows(signatures)| :: Rows(signatures)[i] in Rows(others)
  {
    forall i | 0 <= i < |Rows(signatures)| ensures Rows(signatures)[i] in Rows(others) {
      assert signatures[i] in others;
      var j :| 0 <= j < |others| && others[j] == signatures[i];
      assert Rows(others)[j] == Rows(signatures)[i];
    }
  }

  /** Neither do the arities. */
  lemma ListingOrderIsIrrelevantToArities(signatures: seq<FunctionSignature>, others: seq<FunctionSignature>,
                                          start: set<Arity>, f: Arity)
    requires forall s :: s in signatures <==> s in others
    ensures Spread(Flatten(ArityRows(signatures)), start, f) <==> Spread(Flatten(ArityRows(others)), start, f)
  {
    ArityRowsCarryOver(signatures, others);
    ArityRowsCarryOver(others, signatures);
    SameRowsSpread(ArityRows(signatures), ArityRows(others), start, f);
  }

  lemma ArityRowsCarryOver(signatures: seq<FunctionSignature>, others: seq<FunctionSignature>)
    requires forall s | s in signatures :: s in others
    ensures forall i | 0 <= i < |ArityRows(signatures)| :: ArityRows(signatures)[i] in ArityRows(others)
  {
    forall i | 0 <= i < |ArityRows(signatures)| ensures ArityRows(signatures)[i] in ArityRows(others) {
      assert signatures[i] in others;
      var j :| 0 <= j < |others| && others[j] == signatures[i];
      assert ArityRows(others)[j] == ArityRows(signatures)[i];
    }
  }
}
