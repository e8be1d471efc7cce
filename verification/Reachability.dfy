/** Chains of edges, and the propagation of labels along them, for any kind of node. */
module Reachability {

  /** `steps` lists the edges of a walk from `from` to `to`, by position in `edges`. */
  ghost predicate Chain<N>(edges: seq<(N, N)>, steps: seq<nat>, from: N, to: N)
    decreases |steps|
  {
    if steps == [] then from == to
    else
      var last := steps[|steps| - 1];
      last < |edges| && edges[last].1 == to && Chain(edges, steps[..|steps| - 1], from, edges[last].0)
  }

  ghost predicate Linked<N>(edges: seq<(N, N)>, from: N, to: N) {
    exists steps :: Chain(edges, steps, from, to)
  }

  lemma LinkedSelf<N>(edges: seq<(N, N)>, n: N)
    ensures Linked(edges, n, n)
  {
    assert Chain(edges, [], n, n);
  }

  lemma LinkedStep<N>(edges: seq<(N, N)>, from: N, i: nat)
    requires i < |edges| && Linked(edges, from, edges[i].0)
    ensures Linked(edges, from, edges[i].1)
  {
    var steps :| Chain(edges, steps, from, edges[i].0);
    assert (steps + [i])[..|steps|] == steps;
    assert Chain(edges, steps + [i], from, edges[i].1);
  }

  /** Links depend on which edges there are, not on their order. */
  lemma LinksIgnoreOrder<N>(edges: seq<(N, N)>, others: seq<(N, N)>, from: N, to: N)
    requires forall e | e in edges :: e in others
    requires Linked(edges, from, to)
    ensures Linked(others, from, to)
  {
    var steps :| Chain(edges, steps, from, to);
    ChainCarriesOver(edges, others, steps, from, to);
  }

  lemma {:induction false} ChainCarriesOver<N>(edges: seq<(N, N)>, others: seq<(N, N)>, steps: seq<nat>, from: N, to: N)
    requires forall e | e in edges :: e in others
    requires Chain(edges, steps, from, to)
    ensures Linked(others, from, to)
    decreases |steps|
  {
    if steps == [] {
      LinkedSelf(others, from);
    } else {
      var last := steps[|steps| - 1];
      ChainCarriesOver(edges, others, steps[..|steps| - 1], from, edges[last].0);
      assert edges[last] in others;
      var i :| 0 <= i < |others| && others[i] == edges[last];
      LinkedStep(others, from, i);
    }
  }

  // ----- Labels flowing along edges -----

  /** Every label at the tail of the edge, now also at its head. */
  ghost function Push<N, K>(edge: (N, N), facts: set<(N, K)>): set<(N, K)> {
    facts + set f | f in facts && f.0 == edge.0 :: (edge.1, f.1)
  }

  ghost function PushAll<N, K>(edges: seq<(N, N)>, facts: set<(N, K)>): set<(N, K)> {
    if edges == [] then facts else Push(edges[|edges| - 1], PushAll(edges[..|edges| - 1], facts))
  }

  lemma {:induction false} PushAllAppend<N, K>(a: seq<(N, N)>, b: seq<(N, N)>, facts: set<(N, K)>)
    ensures PushAll(a + b, facts) == PushAll(b, PushAll(a, facts))
  {
    if b == [] {
      assert a + b == a;
    } else {
      assert (a + b)[..|a + b| - 1] == a + b[..|b| - 1];
      PushAllAppend(a, b[..|b| - 1], facts);
    }
  }

  /** Label `f.1` reached node `f.0` by a chain from a node that had it at the start. */
  ghost predicate Spread<N, K>(edges: seq<(N, N)>, start: set<(N, K)>, f: (N, K)) {
    exists g | g in start :: g.1 == f.1 && Linked(edges, g.0, f.0)
  }

  /** Everything the labels could occupy: the measure of the fixpoint. */
  ghost function Room<N, K>(edges: seq<(N, N)>, start: set<(N, K)>): set<(N, K)> {
    start + set i, g | 0 <= i < |edges| && g in start :: (edges[i].1, g.1)
  }

  /** What every pass keeps. */
  ghost predicate Between<N, K>(edges: seq<(N, N)>, start: set<(N, K)>, facts: set<(N, K)>) {
    && start <= facts
    && (forall f | f in facts :: Spread(edges, start, f))
    && (forall f | f in facts :: f in Room(edges, start))
  }

  lemma StartIsBetween<N, K>(edges: seq<(N, N)>, start: set<(N, K)>)
    ensures Between(edges, start, start)
  {
    forall f | f in start ensures Spread(edges, start, f) {
      LinkedSelf(edges, f.0);
    }
  }

  lemma PushIsBetween<N, K>(edges: seq<(N, N)>, start: set<(N, K)>, i: nat, facts: set<(N, K)>, after: set<(N, K)>)
    requires i < |edges| && Between(edges, start, facts) && after == Push(edges[i], facts)
    ensures Between(edges, start, after)
  {
    forall f | f in after ensures Spread(edges, start, f) && f in Room(edges, start) {
      if f !in facts {
        assert Spread(edges, start, (edges[i].0, f.1));
        var g :| g in start && g.1 == f.1 && Linked(edges, g.0, edges[i].0);
        LinkedStep(edges, g.0, i);
      }
    }
  }

  lemma {:induction false} PassIsBetween<N, K>(edges: seq<(N, N)>, start: set<(N, K)>, n: nat, facts: set<(N, K)>,
                                               after: set<(N, K)>)
    requires n <= |edges| && Between(edges, start, facts) && after == PushAll(edges[..n], facts)
    ensures Between(edges, start, after)
    decreases n
  {
    if n > 0 {
      assert edges[..n][..n - 1] == edges[..n - 1];
      var before := PushAll(edges[..n - 1], facts);
      PassIsBetween(edges, start, n - 1, facts, before);
      PushIsBetween(edges, start, n - 1, before, after);
    }
  }

  ghost predicate ClosedUnder<N, K>(edges: seq<(N, N)>, facts: set<(N, K)>) {
    forall i, f | 0 <= i < |edges| && f in facts && f.0 == edges[i].0 :: (edges[i].1, f.1) in facts
  }

  lemma {:induction false} PassGrows<N, K>(edges: seq<(N, N)>, m: nat, n: nat, facts: set<(N, K)>)
    requires m <= n <= |edges|
    ensures PushAll(edges[..m], facts) <= PushAll(edges[..n], facts)
    decreases n
  {
    if m < n {
      assert edges[..n][..n - 1] == edges[..n - 1];
      PassGrows(edges, m, n - 1, facts);
    }
  }

  /** A pass that adds nothing has reached a closed set. */
  lemma PassAtRest<N, K>(edges: seq<(N, N)>, facts: set<(N, K)>)
    ensures PushAll(edges, facts) == facts ==> ClosedUnder(edges, facts)
    ensures facts <= PushAll(edges, facts)
  {
    assert edges[..|edges|] == edges;
    PassGrows(edges, 0, |edges|, facts);
    if PushAll(edges, facts) == facts {
      forall i, f | 0 <= i < |edges| && f in facts && f.0 == edges[i].0 ensures (edges[i].1, f.1) in facts {
        PassGrows(edges, 0, i, facts);
        PassGrows(edges, i + 1, |edges|, facts);
        assert edges[..i + 1][..i] == edges[..i];
        assert f in PushAll(edges[..i], facts);
        assert (edges[i].1, f.1) in Push(edges[i], PushAll(edges[..i], facts));
      }
    }
  }

  /** A closed set between the bounds holds exactly what spreads. */
  lemma ClosedIsSpread<N, K>(edges: seq<(N, N)>, start: set<(N, K)>, facts: set<(N, K)>, f: (N, K))
    requires Between(edges, start, facts) && ClosedUnder(edges, facts)
    ensures f in facts <==> Spread(edges, start, f)
  {
    if Spread(edges, start, f) {
      var g :| g in start && g.1 == f.1 && Linked(edges, g.0, f.0);
      var steps :| Chain(edges, steps, g.0, f.0);
      ClosedAlongChain(edges, facts, steps, g.0, f.0, f.1);
    }
  }

  lemma {:induction false} ClosedAlongChain<N, K>(edges: seq<(N, N)>, facts: set<(N, K)>, steps: seq<nat>, from: N,
                                                  to: N, k: K)
    requires ClosedUnder(edges, facts) && Chain(edges, steps, from, to) && (from, k) in facts
    ensures (to, k) in facts
    decreases |steps|
  {
    if steps != [] {
      var last := steps[|steps| - 1];
      ClosedAlongChain(edges, facts, steps[..|steps| - 1], from, edges[last].0, k);
    }
  }
}
