/**
  Compile-time declarations that share a name (loader/staging.go).

  The map that yields the declarations has no order, and a later declaration of a
  name replaces the binding of an earlier one.  When that shows is stated exactly
  for a name that is declared twice.
 */
module RepeatedNames {
  import opened Staging

  // ----- Running on -----

  /** Any run can be run to its end. */
  lemma {:induction false} RunToEnd(target: Target, decls: seq<Declaration>, out: set<nat>, order: seq<nat>)
    returns (whole: seq<nat>)
    requires IsRun(target, decls, order) && Without(order, out)
    ensures FinalBut(target, decls, out, whole) && order <= whole
    decreases Indices(|decls|) - (set k | k in order)
  {
    whole := order;
    if i: nat :| i < |decls| && i !in order && i !in out
                 && Evaluate(target, After(target, decls, order), decls[i].value).Resolved? {
      RunExtends(target, decls, order, i);
      assert i in Indices(|decls|) - (set k | k in order);
      whole := RunToEnd(target, decls, out, order + [i]);
    }
  }

  ghost predicate SameBinding(a: Scope, b: Scope, name: string) {
    (name in a <==> name in b) && (name in a ==> a[name] == b[name])
  }

  /** A binding stays while no declaration of its name is met. */
  lemma {:induction false} BindingStays(target: Target, decls: seq<Declaration>, order: seq<nat>, n: nat, name: string)
    requires IsRun(target, decls, order) && n <= |order|
    requires forall k | n <= k < |order| :: decls[order[k]].name != name
    ensures IsRun(target, decls, order[..n])
    ensures SameBinding(After(target, decls, order[..n]), After(target, decls, order), name)
    decreases |order| - n
  {
    if n == |order| {
      assert order[..n] == order;
    } else {
      var last := |order| - 1;
      RunPrefix(target, decls, order);
      BindingStays(target, decls, order[..last], n, name);
      assert order[..last][..n] == order[..n];
    }
  }

  /** The last declaration of a name that a run meets gives the binding. */
  lemma LastWins(target: Target, decls: seq<Declaration>, order: seq<nat>, n: nat)
    requires IsRun(target, decls, order) && n < |order|
    requires forall k | n < k < |order| :: decls[order[k]].name != decls[order[n]].name
    ensures IsRun(target, decls, order[..n]) && ResolvedAt(target, decls, order, n)
    ensures
      var b := After(target, decls, order);
      decls[order[n]].name in b &&
      b[decls[order[n]].name] == Evaluate(target, After(target, decls, order[..n]), decls[order[n]].value).value
  {
    BindingStays(target, decls, order, n + 1, decls[order[n]].name);
    RunPrefix(target, decls, order[..n + 1]);
    assert order[..n + 1][..n] == order[..n];
  }

  // ----- A name that is declared twice -----

  /** `i` and `j` are the declarations of one name. */
  ghost predicate Pair(decls: seq<Declaration>, i: nat, j: nat) {
    && i < |decls| && j < |decls| && i != j
    && forall k | 0 <= k < |decls| :: decls[k].name == decls[i].name <==> k == i || k == j
  }

  /** In the bindings of the run both resolve, to different values. */
  ghost predicate Contest(target: Target, decls: seq<Declaration>, i: nat, j: nat, order: seq<nat>)
    requires i < |decls| && j < |decls| && forall k | 0 <= k < |order| :: order[k] < |decls|
  {
    var b := After(target, decls, order);
    var v, w := Evaluate(target, b, decls[i].value), Evaluate(target, b, decls[j].value);
    v.Resolved? && w.Resolved? && v != w
  }

  /** Two runs that cannot go on bind the name differently. */
  ghost predicate DisagreeOn(target: Target, decls: seq<Declaration>, name: string, p: seq<nat>, q: seq<nat>) {
    && Final(target, decls, p) && Final(target, decls, q)
    && !SameBinding(After(target, decls, p), After(target, decls, q), name)
  }

  lemma RunLacksName(target: Target, decls: seq<Declaration>, i: nat, j: nat, order: seq<nat>)
    requires Pair(decls, i, j) && IsRun(target, decls, order) && Without(order, {i, j})
    ensures decls[i].name !in After(target, decls, order)
  {
    BoundNames(target, decls, order);
  }

  /** From a contest, first `first` and then `second` leads to an end with the value of `second`. */
  lemma SecondWins(target: Target, decls: seq<Declaration>, first: nat, second: nat, order: seq<nat>)
    returns (whole: seq<nat>)
    requires Pair(decls, first, second) && IsRun(target, decls, order) && Without(order, {first, second})
    requires Contest(target, decls, first, second, order)
    ensures Final(target, decls, whole)
    ensures
      var b := After(target, decls, whole);
      decls[first].name in b &&
      b[decls[first].name] == Evaluate(target, After(target, decls, order), decls[second].value).value
  {
    var two := order + [first] + [second];
    BothRun(target, decls, first, second, order);
    whole := RunToEnd(target, decls, {}, two);
    PrefixMembers(two, whole);
    BindingStays(target, decls, whole, |two|, decls[first].name);
  }

  /** After the two, the name has the value of the second. */
  lemma BothRun(target: Target, decls: seq<Declaration>, first: nat, second: nat, order: seq<nat>)
    requires Pair(decls, first, second) && IsRun(target, decls, order) && Without(order, {first, second})
    requires Contest(target, decls, first, second, order)
    ensures IsRun(target, decls, order + [first] + [second])
    ensures
      var b := After(target, decls, order + [first] + [second]);
      decls[first].name in b &&
      b[decls[first].name] == Evaluate(target, After(target, decls, order), decls[second].value).value
  {
    RunLacksName(target, decls, first, second, order);
    RunExtends(target, decls, order, first);
    var one := order + [first];
    EvaluateIsMonotone(target, After(target, decls, order), After(target, decls, one), decls[second].value);
    RunExtends(target, decls, one, second);
  }

  lemma PrefixMembers(two: seq<nat>, whole: seq<nat>)
    requires two <= whole && forall j, k | 0 <= j < k < |whole| :: whole[j] != whole[k]
    ensures whole[..|two|] == two && forall k | |two| <= k < |whole| :: whole[k] !in two
  {
    assert forall m | 0 <= m < |two| :: whole[m] == two[m];
  }

  /**
    Whatever else is declared, and however often: when a run reaches bindings in
    which both declarations of a name resolve, to different values, the order decides.
   */
  lemma ContestDisagrees(target: Target, decls: seq<Declaration>, i: nat, j: nat, order: seq<nat>)
    requires Pair(decls, i, j) && IsRun(target, decls, order) && Without(order, {i, j})
    requires Contest(target, decls, i, j, order)
    ensures exists p, q :: DisagreeOn(target, decls, decls[i].name, p, q)
  {
    var p := SecondWins(target, decls, i, j, order);
    assert {j, i} == {i, j};
    var q := SecondWins(target, decls, j, i, order);
    assert DisagreeOn(target, decls, decls[i].name, p, q);
  }

  // ----- The exact condition -----

  /** All other names are declared once. */
  ghost predicate OtherwiseDistinct(decls: seq<Declaration>, i: nat, j: nat) {
    forall k, l | 0 <= k < l < |decls| && decls[k].name == decls[l].name :: (k == i || k == j) && (l == i || l == j)
  }

  lemma RunIsDistinct(target: Target, decls: seq<Declaration>, i: nat, j: nat, g: nat, order: seq<nat>)
    requires Pair(decls, i, j) && OtherwiseDistinct(decls, i, j) && (g == i || g == j)
    requires IsRun(target, decls, order) && Without(order, {g})
    ensures DistinctRun(decls, order)
  {
    forall a, b | 0 <= a < b < |order| ensures decls[order[a]].name != decls[order[b]].name {
      var k, l := order[a], order[b];
      assert k != l;
    }
  }

  lemma RunOfOthersIsDistinct(target: Target, decls: seq<Declaration>, i: nat, j: nat, order: seq<nat>)
    requires Pair(decls, i, j) && OtherwiseDistinct(decls, i, j)
    requires IsRun(target, decls, order) && Without(order, {i, j})
    ensures DistinctRun(decls, order)
  {
    RunIsDistinct(target, decls, i, j, i, order);
  }

  /** A run without both is below the end of the others, and resolves what they resolve. */
  lemma BelowOthers(target: Target, decls: seq<Declaration>, i: nat, j: nat, others: seq<nat>, order: seq<nat>, k: nat)
    requires Pair(decls, i, j) && OtherwiseDistinct(decls, i, j) && k < |decls|
    requires FinalBut(target, decls, {i, j}, others)
    requires IsRun(target, decls, order) && Without(order, {i, j})
    ensures
      var v := Evaluate(target, After(target, decls, order), decls[k].value);
      v.Resolved? ==> Evaluate(target, After(target, decls, others), decls[k].value) == v
  {
    RunOfOthersIsDistinct(target, decls, i, j, others);
    FinalIsClosed(target, decls, {i, j}, others);
    RunBelowClosed(target, decls, {i, j}, order, After(target, decls, others));
    EvaluateIsMonotone(target, After(target, decls, order), After(target, decls, others), decls[k].value);
  }

  /** A run that cannot go on and has met neither: then neither resolves after the others. */
  lemma NeitherMet(target: Target, decls: seq<Declaration>, i: nat, j: nat, others: seq<nat>, order: seq<nat>, k: nat)
    requires Pair(decls, i, j) && OtherwiseDistinct(decls, i, j) && (k == i || k == j)
    requires FinalBut(target, decls, {i, j}, others)
    requires Final(target, decls, order) && Without(order, {i, j})
    ensures !Evaluate(target, After(target, decls, others), decls[k].value).Resolved?
  {
    RunOfOthersIsDistinct(target, decls, i, j, order);
    FinalIsClosed(target, decls, {i, j}, order);
    RunBelowClosed(target, decls, {i, j}, others, After(target, decls, order));
    EvaluateIsMonotone(target, After(target, decls, others), After(target, decls, order), decls[k].value);
    assert k !in order;
  }

  /** The first of the two that a run meets. */
  lemma FirstMet(order: seq<nat>, i: nat, j: nat) returns (n: nat)
    requires !Without(order, {i, j})
    ensures n < |order| && order[n] in {i, j} && Without(order[..n], {i, j})
  {
    n := 0;
    while order[n] !in {i, j}
      invariant n < |order| && Without(order[..n], {i, j}) && !Without(order, {i, j})
      decreases |order| - n
    {
      if n == |order| - 1 {
        assert Without(order, {i, j});
      }
      n := n + 1;
    }
  }

  /** What the first one gives is what it gives after the others. */
  lemma FirstResolves(target: Target, decls: seq<Declaration>, f: nat, g: nat, others: seq<nat>, order: seq<nat>,
                      n: nat)
    requires Pair(decls, f, g) && OtherwiseDistinct(decls, f, g) && FinalBut(target, decls, {f, g}, others)
    requires IsRun(target, decls, order) && n < |order| && order[n] == f && Without(order[..n], {f, g})
    ensures IsRun(target, decls, order[..n])
    ensures
      var v := Evaluate(target, After(target, decls, order[..n]), decls[f].value);
      v.Resolved? && Evaluate(target, After(target, decls, others), decls[f].value) == v
  {
    RunIsPrefix(target, decls, order, n);
    assert ResolvedAt(target, decls, order, n);
    BelowOthers(target, decls, f, g, others, order[..n], f);
  }

  lemma {:induction false} RunIsPrefix(target: Target, decls: seq<Declaration>, order: seq<nat>, n: nat)
    requires IsRun(target, decls, order) && n <= |order|
    ensures IsRun(target, decls, order[..n])
    decreases |order|
  {
    if n == |order| {
      assert order[..n] == order;
    } else {
      RunPrefix(target, decls, order);
      RunIsPrefix(target, decls, order[..|order| - 1], n);
      assert order[..|order| - 1][..n] == order[..n];
    }
  }

  /** Whatever a run without `g` resolves resolves at the end `w` of all declarations but `g`. */
  lemma BelowAllBut(target: Target, decls: seq<Declaration>, f: nat, g: nat, w: seq<nat>, order: seq<nat>)
    requires Pair(decls, f, g) && OtherwiseDistinct(decls, f, g)
    requires FinalBut(target, decls, {g}, w) && IsRun(target, decls, order) && Without(order, {g})
    ensures
      var v := Evaluate(target, After(target, decls, order), decls[g].value);
      v.Resolved? ==> Evaluate(target, After(target, decls, w), decls[g].value) == v
  {
    RunIsDistinct(target, decls, f, g, g, w);
    FinalIsClosed(target, decls, {g}, w);
    RunBelowClosed(target, decls, {g}, order, After(target, decls, w));
    EvaluateIsMonotone(target, After(target, decls, order), After(target, decls, w), decls[g].value);
  }

  /** A run that cannot go on without having met `g` is an end of the others with `f`. */
  lemma NeverMet(target: Target, decls: seq<Declaration>, f: nat, g: nat, w: seq<nat>, order: seq<nat>)
    requires Pair(decls, f, g) && OtherwiseDistinct(decls, f, g)
    requires FinalBut(target, decls, {g}, w) && Final(target, decls, order) && Without(order, {g})
    ensures !Evaluate(target, After(target, decls, w), decls[g].value).Resolved?
  {
    RunIsDistinct(target, decls, f, g, g, order);
    FinalIsClosed(target, decls, {g}, order);
    RunBelowClosed(target, decls, {g}, w, After(target, decls, order));
    EvaluateIsMonotone(target, After(target, decls, w), After(target, decls, order), decls[g].value);
    assert g !in order;
  }

  /** The binding that a run ends with when it meets `f` first. */
  ghost predicate EndsWith(target: Target, decls: seq<Declaration>, f: nat, g: nat, others: seq<nat>, w: seq<nat>,
                           b: Scope)
    requires f < |decls| && g < |decls|
    requires FinalBut(target, decls, {f, g}, others) && FinalBut(target, decls, {g}, w)
  {
    var v := Evaluate(target, After(target, decls, w), decls[g].value);
    var r := if v.Resolved? then v else Evaluate(target, After(target, decls, others), decls[f].value);
    r.Resolved? && decls[f].name in b && b[decls[f].name] == r.value
  }

  lemma EndValue(
    target: Target, decls: seq<Declaration>, f: nat, g: nat, others: seq<nat>, w: seq<nat>, order: seq<nat>, n: nat)
    requires Pair(decls, f, g) && OtherwiseDistinct(decls, f, g)
    requires FinalBut(target, decls, {f, g}, others) && FinalBut(target, decls, {g}, w)
    requires Final(target, decls, order) && n < |order| && order[n] == f && Without(order[..n], {f, g})
    ensures EndsWith(target, decls, f, g, others, w, After(target, decls, order))
  {
    FirstResolves(target, decls, f, g, others, order, n);
    if g in order {
      var m :| 0 <= m < |order| && order[m] == g;
      assert forall k | 0 <= k < n :: order[..n][k] == order[k];
      LastWins(target, decls, order, m);
      assert forall k | 0 <= k < m :: order[..m][k] == order[k];
      BelowAllBut(target, decls, f, g, w, order[..m]);
    } else {
      NeverMet(target, decls, f, g, w, order);
      LastWins(target, decls, order, n);
    }
  }

  /** When both resolve to one value after the others, that is the value at the end. */
  lemma SharedValue(
    target: Target, decls: seq<Declaration>, f: nat, g: nat, others: seq<nat>, order: seq<nat>, n: nat)
    requires Pair(decls, f, g) && OtherwiseDistinct(decls, f, g) && FinalBut(target, decls, {f, g}, others)
    requires !Contest(target, decls, f, g, others)
    requires Evaluate(target, After(target, decls, others), decls[g].value).Resolved?
    requires Final(target, decls, order) && n < |order| && order[n] == f && Without(order[..n], {f, g})
    ensures
      var b := After(target, decls, order);
      decls[f].name in b &&
      b[decls[f].name] == Evaluate(target, After(target, decls, others), decls[g].value).value
  {
    var w := RunToEnd(target, decls, {g}, []);
    FirstResolves(target, decls, f, g, others, order, n);
    EndValue(target, decls, f, g, others, w, order, n);
    BelowAllBut(target, decls, f, g, w, others);
  }

  /** When neither resolves after the others, neither is ever met. */
  lemma MeetsNeither(target: Target, decls: seq<Declaration>, i: nat, j: nat, others: seq<nat>, order: seq<nat>)
    requires Pair(decls, i, j) && OtherwiseDistinct(decls, i, j) && FinalBut(target, decls, {i, j}, others)
    requires forall k | k == i || k == j :: !Evaluate(target, After(target, decls, others), decls[k].value).Resolved?
    requires IsRun(target, decls, order)
    ensures Without(order, {i, j})
  {
    if !Without(order, {i, j}) {
      var n := FirstMet(order, i, j);
      var f, g := order[n], if order[n] == i then j else i;
      assert {f, g} == {i, j};
      FirstResolves(target, decls, f, g, others, order, n);
    }
  }

  /** When just one resolves after the others, it is the first one met. */
  lemma OneIsFirst(target: Target, decls: seq<Declaration>, f: nat, g: nat, others: seq<nat>, order: seq<nat>)
    returns (n: nat)
    requires Pair(decls, f, g) && OtherwiseDistinct(decls, f, g) && FinalBut(target, decls, {f, g}, others)
    requires Evaluate(target, After(target, decls, others), decls[f].value).Resolved?
    requires !Evaluate(target, After(target, decls, others), decls[g].value).Resolved?
    requires Final(target, decls, order)
    ensures n < |order| && order[n] == f && Without(order[..n], {f, g})
  {
    if Without(order, {f, g}) {
      NeitherMet(target, decls, f, g, others, order, f);
    }
    n := FirstMet(order, f, g);
    assert {g, f} == {f, g};
    if order[n] == g {
      FirstResolves(target, decls, g, f, others, order, n);
    }
  }

  lemma OneResolves(
    target: Target, decls: seq<Declaration>, f: nat, g: nat, others: seq<nat>, p: seq<nat>, q: seq<nat>)
    requires Pair(decls, f, g) && OtherwiseDistinct(decls, f, g) && FinalBut(target, decls, {f, g}, others)
    requires Evaluate(target, After(target, decls, others), decls[f].value).Resolved?
    requires !Evaluate(target, After(target, decls, others), decls[g].value).Resolved?
    requires Final(target, decls, p) && Final(target, decls, q)
    ensures SameBinding(After(target, decls, p), After(target, decls, q), decls[f].name)
  {
    var w := RunToEnd(target, decls, {g}, []);
    var n := OneIsFirst(target, decls, f, g, others, p);
    EndValue(target, decls, f, g, others, w, p, n);
    var m := OneIsFirst(target, decls, f, g, others, q);
    EndValue(target, decls, f, g, others, w, q, m);
  }

  /** When both resolve to one value, every end binds the name to it. */
  lemma BothResolve(target: Target, decls: seq<Declaration>, i: nat, j: nat, others: seq<nat>, order: seq<nat>)
    requires Pair(decls, i, j) && OtherwiseDistinct(decls, i, j) && FinalBut(target, decls, {i, j}, others)
    requires !Contest(target, decls, i, j, others)
    requires Evaluate(target, After(target, decls, others), decls[i].value).Resolved?
    requires Evaluate(target, After(target, decls, others), decls[j].value).Resolved?
    requires Final(target, decls, order)
    ensures
      var b := After(target, decls, order);
      decls[i].name in b &&
      b[decls[i].name] == Evaluate(target, After(target, decls, others), decls[i].value).value
  {
    if Without(order, {i, j}) {
      NeitherMet(target, decls, i, j, others, order, i);
    }
    var n := FirstMet(order, i, j);
    var f, g := order[n], if order[n] == i then j else i;
    assert {f, g} == {i, j};
    SharedValue(target, decls, f, g, others, order, n);
  }

  /** Without a contest after the others, all runs end with one binding of the name. */
  lemma NoContestAgrees(
    target: Target, decls: seq<Declaration>, i: nat, j: nat, others: seq<nat>, p: seq<nat>, q: seq<nat>)
    requires Pair(decls, i, j) && OtherwiseDistinct(decls, i, j) && FinalBut(target, decls, {i, j}, others)
    requires !Contest(target, decls, i, j, others)
    requires Final(target, decls, p) && Final(target, decls, q)
    ensures SameBinding(After(target, decls, p), After(target, decls, q), decls[i].name)
  {
    var b := After(target, decls, others);
    var v, w := Evaluate(target, b, decls[i].value), Evaluate(target, b, decls[j].value);
    if v.Resolved? && w.Resolved? {
      BothResolve(target, decls, i, j, others, p);
      BothResolve(target, decls, i, j, others, q);
    } else if v.Resolved? {
      OneResolves(target, decls, i, j, others, p, q);
    } else if w.Resolved? {
      assert {j, i} == {i, j};
      OneResolves(target, decls, j, i, others, p, q);
    } else {
      MeetsNeither(target, decls, i, j, others, p);
      MeetsNeither(target, decls, i, j, others, q);
      RunLacksName(target, decls, i, j, p);
      RunLacksName(target, decls, i, j, q);
    }
  }

  /**
    For a name that is declared twice, among any declarations of distinct names:
    two orders bind it differently exactly when both declarations resolve, to
    different values, in the bindings that the others end with alone.
   */
  lemma OrderDecidesExactly(target: Target, decls: seq<Declaration>, i: nat, j: nat, others: seq<nat>)
    requires Pair(decls, i, j) && OtherwiseDistinct(decls, i, j) && FinalBut(target, decls, {i, j}, others)
    ensures (exists p, q :: DisagreeOn(target, decls, decls[i].name, p, q)) <==> Contest(target, decls, i, j, others)
  {
    if Contest(target, decls, i, j, others) {
      ContestDisagrees(target, decls, i, j, others);
    } else {
      forall p, q ensures !DisagreeOn(target, decls, decls[i].name, p, q) {
        if Final(target, decls, p) && Final(target, decls, q) {
          NoContestAgrees(target, decls, i, j, others, p, q);
        }
      }
    }
  }
}
