/** Reachability over a successor function on values. */
module Routes {

  ghost predicate Route<N(!new)>(next: N -> seq<N>, p: seq<N>) {
    |p| > 0 && forall i | 0 <= i < |p| - 1 :: p[i + 1] in next(p[i])
  }

  ghost predicate RouteBetween<N(!new)>(next: N -> seq<N>, p: seq<N>, a: N, b: N) {
    Route(next, p) && p[0] == a && p[|p| - 1] == b
  }

  ghost predicate Reaches<N(!new)>(next: N -> seq<N>, a: N, b: N) {
    exists p :: RouteBetween(next, p, a, b)
  }

  /** `n` lies on a cycle. */
  ghost predicate OnCycle<N(!new)>(next: N -> seq<N>, n: N) {
    exists m :: m in next(n) && Reaches(next, m, n)
  }

  lemma ReachesSelf<N(!new)>(next: N -> seq<N>, a: N)
    ensures Reaches(next, a, a)
  {
    assert RouteBetween(next, [a], a, a);
  }

  lemma ReachesStep<N(!new)>(next: N -> seq<N>, a: N, b: N, c: N)
    requires Reaches(next, a, b) && c in next(b)
    ensures Reaches(next, a, c)
  {
    var p :| RouteBetween(next, p, a, b);
    assert RouteBetween(next, p + [c], a, c);
  }

  lemma ReachesTransitive<N(!new)>(next: N -> seq<N>, a: N, b: N, c: N)
    requires Reaches(next, a, b) && Reaches(next, b, c)
    ensures Reaches(next, a, c)
  {
    var p :| RouteBetween(next, p, a, b);
    var q :| RouteBetween(next, q, b, c);
    var r := p + q[1..];
    forall i | 0 <= i < |r| - 1 ensures r[i + 1] in next(r[i]) {
      if i == |p| - 1 {
        assert r[i + 1] == q[1] && r[i] == q[0];
      } else if i >= |p| {
        assert r[i] == q[i - |p| + 1] && r[i + 1] == q[i - |p| + 2];
      }
    }
    assert RouteBetween(next, r, a, c);
  }

  ghost predicate ClosedUnder<N(!new)>(next: N -> seq<N>, s: set<N>) {
    forall n, m | n in s && m in next(n) :: m in s
  }

  /** A closed set holds everything reachable from its members. */
  lemma ClosedHolds<N(!new)>(next: N -> seq<N>, s: set<N>, a: N, b: N)
    requires ClosedUnder(next, s) && a in s && Reaches(next, a, b)
    ensures b in s
  {
    var p :| RouteBetween(next, p, a, b);
    RouteInside(next, s, p, |p| - 1);
  }

  lemma {:induction false} RouteInside<N(!new)>(next: N -> seq<N>, s: set<N>, p: seq<N>, i: nat)
    requires ClosedUnder(next, s) && Route(next, p) && p[0] in s && i < |p|
    ensures p[i] in s
  {
    if i > 0 {
      RouteInside(next, s, p, i - 1);
      assert p[i - 1 + 1] in next(p[i - 1]);
    }
  }
}
