/**
  Match coverage (sema/validator.go): which arms of a match are unreachable, and
  whether its unguarded arms are exhaustive.

  Patterns are abstracted to sets of symbolic keys, and a bounded search visits
  the product of the key domains of the subjects.
 */
module Coverage {
  import opened Decimal
  import opened Types
  import opened TypeEquality

  /** `Cast` is the conversion that validation puts around a literal of another type. */
  datatype Literal =
    | BoolLiteral(truth: bool)
    | IntegerLiteral(text: string)
    | CharLiteral(code: nat)
    | TextLiteral(id: nat)
    | Cast(operand: Literal)

  datatype Pattern =
    | Wildcard
    | Variant(variant: string, tagValue: string)
    | LiteralPattern(literal: Literal)
    | RangePattern(first: Literal, limit: Literal, file: string, offset: int)
    | Alternative(alternatives: seq<Pattern>)

  /** An arm with its patterns as written and as validation leaves them. */
  datatype Arm = Arm(written: seq<Pattern>, checked: seq<Pattern>, guarded: bool)

  datatype Key =
    | VariantValue(value: string)
    | VariantName(name: string)
    | BoolKey(truth: bool)
    | IntegerKey(text: string)
    | RangeKey(file: string, offset: int)
    | Other

  datatype Coverage = Coverage(wildcard: bool, keys: set<Key>)

  type Row = seq<Coverage>
  type Domains = seq<seq<Key>>

  const SEARCH_BUDGET: nat := 65536

  // ----- Keys -----

  /** The text by which the compiler tells keys apart. */
  function KeyText(k: Key): string {
    match k
    case VariantValue(value) => "variant-value:" + value
    case VariantName(name) => "variant:" + name
    case BoolKey(truth) => "bool:" + (if truth then "true" else "false")
    case IntegerKey(text) => "integer:" + text
    case RangeKey(file, offset) => ("range:" + file) + ":" + Itoa(offset)
    case Other => "other"
  }

  lemma KeyTextInjective(k: Key, l: Key)
    requires KeyText(k) == KeyText(l)
    ensures k == l
  {
    var s, t := KeyText(k), KeyText(l);
    assert s[0] == t[0] && s[..|s|] == t[..|s|];
    match k
    case VariantValue(value) =>
      assert s[7] == '-' && t[7] == '-';
      assert value == s[14..];
    case VariantName(name) =>
      assert s[7] == ':' && t[7] == ':';
      assert name == s[8..];
    case BoolKey(truth) =>
      assert s[5] == t[5];
    case IntegerKey(text) =>
      assert text == s[8..];
    case RangeKey(file, offset) =>
      ItoaHasNo(offset, ':');
      ItoaHasNo(l.offset, ':');
      LastSeparator("range:" + file, Itoa(offset), "range:" + l.file, Itoa(l.offset), ':');
      ItoaInjective(offset, l.offset);
      assert file == ("range:" + file)[6..] && l.file == ("range:" + l.file)[6..];
    case Other =>
  }

  /** matchPatternCoverageKey for literals: casts, texts and floats have no key. */
  function LiteralKey(l: Literal): Option<Key> {
    match l
    case BoolLiteral(truth) => Some(BoolKey(truth))
    case IntegerLiteral(text) => Some(IntegerKey(text))
    case CharLiteral(code) => Some(IntegerKey(Itoa(code)))
    case TextLiteral(_) => None
    case Cast(_) => None
  }

  function VariantKey(variant: string, tagValue: string): Key {
    if tagValue != "" then VariantValue(tagValue) else VariantName(variant)
  }

  predicate Wild(p: Pattern) {
    match p
    case Wildcard => true
    case Alternative(alternatives) => exists i | 0 <= i < |alternatives| :: Wild(alternatives[i])
    case _ => false
  }

  predicate HasKey(p: Pattern, k: Key) {
    match p
    case Wildcard => false
    case Variant(variant, tagValue) => k == VariantKey(variant, tagValue)
    case LiteralPattern(literal) => LiteralKey(literal) == Some(k)
    case RangePattern(_, _, file, offset) => k == RangeKey(file, offset)
    case Alternative(alternatives) => exists i | 0 <= i < |alternatives| :: HasKey(alternatives[i], k)
  }

  ghost function CoverageOf(p: Pattern): (c: Coverage)
    ensures c.wildcard <==> Wild(p)
    ensures forall k :: k in c.keys <==> HasKey(p, k)
  {
    match p
    case Wildcard => Coverage(true, {})
    case Variant(variant, tagValue) => Coverage(false, {VariantKey(variant, tagValue)})
    case LiteralPattern(literal) =>
      Coverage(false, if LiteralKey(literal).Some? then {LiteralKey(literal).value} else {})
    case RangePattern(_, _, file, offset) => Coverage(false, {RangeKey(file, offset)})
    case Alternative(alternatives) =>
      var keys := set i, k | 0 <= i < |alternatives| && k in CoverageOf(alternatives[i]).keys :: k;
      assert forall i, k | 0 <= i < |alternatives| && k in CoverageOf(alternatives[i]).keys :: k in keys;
      assert forall i, k | 0 <= i < |alternatives| && HasKey(alternatives[i], k) ::
        k in CoverageOf(alternatives[i]).keys;
      Coverage(Wild(p), keys)
  }

  method MatchCoveragePattern(p: Pattern) returns (result: Coverage)
    ensures result == CoverageOf(p)
    decreases p
  {
    result := Coverage(false, {});
    match p {
      case Wildcard =>
        result := Coverage(true, {});
      case Variant(variant, tagValue) =>
        result := Coverage(false, {VariantKey(variant, tagValue)});
      case LiteralPattern(literal) =>
        if LiteralKey(literal).Some? {
          result := Coverage(false, {LiteralKey(literal).value});
        }
      case RangePattern(_, _, file, offset) =>
        result := Coverage(false, {RangeKey(file, offset)});
      case Alternative(alternatives) =>
        for n := 0 to |alternatives|
          invariant result.wildcard <==> exists i | 0 <= i < n :: Wild(alternatives[i])
          invariant forall k :: k in result.keys <==> exists i | 0 <= i < n :: HasKey(alternatives[i], k)
        {
          var part := MatchCoveragePattern(alternatives[n]);
          result := Coverage(result.wildcard || part.wildcard, result.keys + part.keys);
        }
    }
  }

  /** One `_` stands for all subjects. */
  predicate Sole(patterns: seq<Pattern>) {
    |patterns| == 1 && patterns[0].Wildcard?
  }

  ghost function RowOf(patterns: seq<Pattern>, subjects: nat): (row: Row)
    requires Sole(patterns) || |patterns| == subjects
    ensures |row| == subjects
  {
    if Sole(patterns) then AnyRow(subjects)
    else seq(subjects, i requires 0 <= i < subjects => CoverageOf(patterns[i]))
  }

  function AnyRow(n: nat): (row: Row)
    ensures |row| == n && forall i | 0 <= i < n :: row[i] == Coverage(true, {})
  {
    seq(n, _ => Coverage(true, {}))
  }

  method MatchCoverageRow(patterns: seq<Pattern>, subjects: nat) returns (row: Row)
    requires Sole(patterns) || |patterns| == subjects
    ensures row == RowOf(patterns, subjects)
  {
    row := seq(subjects, _ => Coverage(false, {}));
    if Sole(patterns) {
      for n := 0 to subjects
        invariant |row| == subjects && forall i | 0 <= i < subjects :: row[i] == Coverage(i < n, {})
      {
        row := row[n := row[n].(wildcard := true)];
      }
    } else {
      for n := 0 to |patterns|
        invariant |row| == subjects && forall i | 0 <= i < n :: row[i] == CoverageOf(patterns[i])
      {
        var c := MatchCoveragePattern(patterns[n]);
        row := row[n := c];
      }
    }
  }

  // ----- Domains -----

  function TagTexts(table: AliasTable, t: Type): Option<seq<string>> {
    match Underlying(table, {}, t)
    case StructType(_, _, Some(info)) =>
      Some(seq(|info.variants|, i requires 0 <= i < |info.variants| => info.variants[i].tagValue))
    case EnumType(_, _, _, _, values) => Some(values)
    case _ => None
  }

  function SubjectDomain(table: AliasTable, t: Type): seq<Key> {
    var tags := TagTexts(table, t);
    if tags.Some? then seq(|tags.value|, i requires 0 <= i < |tags.value| => VariantValue(tags.value[i]))
    else if Equals(table, {}, t, PrimitiveType(Bool)) then [BoolKey(true), BoolKey(false)]
    else [Other]
  }

  /** `domain` is `base` followed by new keys, each once. */
  ghost predicate Extends(base: seq<Key>, domain: seq<Key>) {
    base <= domain && forall i, j | |base| <= i < |domain| && 0 <= j < i :: domain[i] != domain[j]
  }

  ghost predicate MentionedBy(arm: Arm, i: nat, k: Key) {
    !Sole(arm.written) && i < |arm.written| && HasKey(arm.written[i], k)
  }

  ghost predicate Mentioned(arms: seq<Arm>, i: nat, k: Key) {
    exists a | 0 <= a < |arms| :: MentionedBy(arms[a], i, k)
  }

  ghost predicate DomainOf(base: seq<Key>, arms: seq<Arm>, i: nat, domain: seq<Key>) {
    Extends(base, domain) && forall k :: k in domain <==> k in base || Mentioned(arms, i, k)
  }

  ghost predicate DomainsOf(table: AliasTable, subjects: seq<Type>, arms: seq<Arm>, domains: Domains) {
    |domains| == |subjects| &&
    forall i | 0 <= i < |subjects| :: DomainOf(SubjectDomain(table, subjects[i]), arms, i, domains[i])
  }

  /** The keys of one pattern, in any order. */
  method AddKeys(keys: set<Key>, domain: seq<Key>, ghost base: seq<Key>) returns (grown: seq<Key>)
    requires Extends(base, domain)
    ensures Extends(base, grown)
    ensures forall k :: k in grown <==> k in domain || k in keys
  {
    grown := domain;
    var rest := keys;
    while rest != {}
      invariant rest <= keys && Extends(base, grown)
      invariant forall k :: k in grown <==> k in domain || k in keys - rest
      decreases rest
    {
      var k :| k in rest;
      if k !in grown {
        grown := grown + [k];
      }
      rest := rest - {k};
    }
  }

  method AddArm(arm: Arm, domains: Domains, ghost bases: Domains) returns (grown: Domains)
    requires |bases| == |domains| && forall i | 0 <= i < |domains| :: Extends(bases[i], domains[i])
    requires Sole(arm.written) || |arm.written| == |domains|
    ensures |grown| == |domains|
    ensures forall i | 0 <= i < |domains| :: Extends(bases[i], grown[i])
    ensures forall i, k | 0 <= i < |domains| :: k in grown[i] <==> k in domains[i] || MentionedBy(arm, i, k)
  {
    grown := domains;
    if !Sole(arm.written) {
      for n := 0 to |arm.written|
        invariant |grown| == |domains|
        invariant forall i | 0 <= i < |domains| :: Extends(bases[i], grown[i])
        invariant forall i | n <= i < |domains| :: grown[i] == domains[i]
        invariant forall i, k | 0 <= i < n :: k in grown[i] <==> k in domains[i] || HasKey(arm.written[i], k)
      {
        var c := MatchCoveragePattern(arm.written[n]);
        var domain := AddKeys(c.keys, grown[n], bases[n]);
        grown := grown[n := domain];
      }
    }
  }

  method MatchCoverageDomains(table: AliasTable, subjects: seq<Type>, arms: seq<Arm>) returns (domains: Domains)
    requires forall a | 0 <= a < |arms| :: Sole(arms[a].written) || |arms[a].written| == |subjects|
    ensures DomainsOf(table, subjects, arms, domains)
  {
    domains := seq(|subjects|, i requires 0 <= i < |subjects| => SubjectDomain(table, subjects[i]));
    ghost var bases := domains;
    for n := 0 to |arms|
      invariant |domains| == |subjects|
      invariant forall i | 0 <= i < |subjects| :: DomainOf(bases[i], arms[..n], i, domains[i])
    {
      ghost var before := domains;
      domains := AddArm(arms[n], domains, bases);
      forall i | 0 <= i < |subjects| ensures DomainOf(bases[i], arms[..n + 1], i, domains[i]) {
        MentionedNext(arms, n, i);
      }
    }
    assert arms[..|arms|] == arms;
  }

  lemma MentionedNext(arms: seq<Arm>, n: nat, i: nat)
    requires n < |arms|
    ensures forall k :: Mentioned(arms[..n + 1], i, k) <==> Mentioned(arms[..n], i, k) || MentionedBy(arms[n], i, k)
  {
    forall k ensures Mentioned(arms[..n + 1], i, k) <==> Mentioned(arms[..n], i, k) || MentionedBy(arms[n], i, k) {
      if Mentioned(arms[..n], i, k) {
        var a :| 0 <= a < n && MentionedBy(arms[..n][a], i, k);
        assert MentionedBy(arms[..n + 1][a], i, k);
      }
      if MentionedBy(arms[n], i, k) {
        assert MentionedBy(arms[..n + 1][n], i, k);
      }
    }
  }

  // ----- The search -----

  predicate Accepts(c: Coverage, k: Key) {
    c.wildcard || k in c.keys
  }

  ghost predicate RowCovers(row: Row, point: seq<Key>)
    requires |row| == |point|
  {
    forall i | 0 <= i < |point| :: Accepts(row[i], point[i])
  }

  ghost predicate PointCovered(rows: seq<Row>, point: seq<Key>)
    requires forall row | row in rows :: |row| == |point|
  {
    exists row | row in rows :: RowCovers(row, point)
  }

  ghost predicate HasWildcardRow(rows: seq<Row>) {
    exists r | 0 <= r < |rows| :: AllWild(rows[r])
  }

  ghost predicate AllWild(row: Row) {
    forall i | 0 <= i < |row| :: row[i].wildcard
  }

  method MatchCoverageHasWildcardRow(rows: seq<Row>) returns (found: bool)
    ensures found <==> HasWildcardRow(rows)
  {
    for n := 0 to |rows|
      invariant forall r | 0 <= r < n :: !AllWild(rows[r])
    {
      var allWildcard := true;
      for m := 0 to |rows[n]|
        invariant allWildcard <==> forall i | 0 <= i < m :: rows[n][i].wildcard
      {
        allWildcard := allWildcard && rows[n][m].wildcard;
      }
      if allWildcard {
        assert AllWild(rows[n]);
        return true;
      }
    }
    return false;
  }

  method MatchCoveragePointCovered(rows: seq<Row>, point: seq<Key>) returns (covered: bool)
    requires forall row | row in rows :: |row| == |point|
    ensures covered <==> PointCovered(rows, point)
  {
    for n := 0 to |rows|
      invariant forall r | 0 <= r < n :: !RowCovers(rows[r], point)
    {
      var matches := true;
      for m := 0 to |point|
        invariant matches <==> forall i | 0 <= i < m :: Accepts(rows[n][i], point[i])
      {
        matches := matches && Accepts(rows[n][m], point[m]);
      }
      if matches {
        assert RowCovers(rows[n], point);
        return true;
      }
    }
    return false;
  }

  /** How many of the keys the target accepts. */
  function Selected(c: Coverage, domain: seq<Key>): nat {
    if domain == [] then 0
    else Selected(c, domain[..|domain| - 1]) + (if Accepts(c, domain[|domain| - 1]) then 1 else 0)
  }

  /** The number of points below one node of the search, at a dimension. */
  function Points(target: Row, domains: Domains, dimension: nat): nat
    requires |target| == |domains| && dimension <= |domains|
    decreases |domains| - dimension
  {
    if dimension == |domains| then 1
    else Selected(target[dimension], domains[dimension]) * Points(target, domains, dimension + 1)
  }

  ghost predicate Shaped(rows: seq<Row>, domains: Domains) {
    forall row | row in rows :: |row| == |domains|
  }

  /** Every point of the target that starts with `point` is covered. */
  ghost predicate AllCovered(rows: seq<Row>, target: Row, domains: Domains, point: seq<Key>)
    requires Shaped(rows, domains) && |target| == |domains| && |point| <= |domains|
    decreases |domains| - |point|
  {
    if |point| == |domains| then PointCovered(rows, point)
    else Branches(rows, target, domains, point, domains[|point|])
  }

  ghost predicate Branches(rows: seq<Row>, target: Row, domains: Domains, point: seq<Key>, values: seq<Key>)
    requires Shaped(rows, domains) && |target| == |domains| && |point| < |domains|
    decreases |domains| - |point|, 0
  {
    forall k | k in values && Accepts(target[|point|], k) :: AllCovered(rows, target, domains, point + [k])
  }

  /** Contains and exhaustive, as the bounded search decides them. */
  ghost predicate Contains(rows: seq<Row>, target: Row, domains: Domains)
    requires Shaped(rows, domains) && |target| == |domains|
  {
    HasWildcardRow(rows) ||
    (0 < Points(target, domains, 0) <= 65536 && AllCovered(rows, target, domains, []))
  }

  ghost predicate Exhaustive(rows: seq<Row>, domains: Domains)
    requires Shaped(rows, domains)
  {
    HasWildcardRow(rows) ||
    (Points(AnyRow(|domains|), domains, 0) <= 65536 && AllCovered(rows, AnyRow(|domains|), domains, []))
  }

  /** What one visit of a node with `points` points below it makes of the search. */
  ghost predicate Visited(complete: bool, budget: nat, points: nat, covered: bool, complete': bool, budget': nat) {
    && (complete' <==> complete && 0 < budget && points <= budget && covered)
    && (complete' ==> budget' == budget - points)
  }

  /** The state that the recursive closures of the two searches share. */
  class Search {
    const covered: seq<Row>
    const target: Row
    const domains: Domains
    var budget: nat
    var complete: bool
    var found: bool

    constructor (covered: seq<Row>, target: Row, domains: Domains)
      ensures this.covered == covered && this.target == target && this.domains == domains
      ensures budget == SEARCH_BUDGET && complete && !found
    {
      this.covered, this.target, this.domains := covered, target, domains;
      budget, complete, found := SEARCH_BUDGET, true, false;
    }

    predicate Valid() {
      (forall row | row in covered :: |row| == |domains|) && |target| == |domains|
    }

    method Visit(point: seq<Key>)
      requires Valid() && |point| <= |domains|
      modifies this
      ensures Visited(old(complete), old(budget), Points(target, domains, |point|),
        AllCovered(covered, target, domains, point), complete, budget)
      ensures complete ==> found == (old(found) || Points(target, domains, |point|) > 0)
      decreases |domains| - |point|
    {
      if !complete || budget == 0 {
        complete := false;
        return;
      }
      if |point| == |domains| {
        budget := budget - 1;
        found := true;
        var c := MatchCoveragePointCovered(covered, point);
        if !c {
          complete := false;
        }
        return;
      }
      var domain := domains[|point|];
      ghost var below := Points(target, domains, |point| + 1);
      for n := 0 to |domain|
        invariant Visited(true, old(budget), Selected(target[|point|], domain[..n]) * below,
          Branches(covered, target, domains, point, domain[..n]), complete, budget)
        invariant complete ==> found == (old(found) || Selected(target[|point|], domain[..n]) * below > 0)
      {
        ghost var b, c := budget, complete;
        if Accepts(target[|point|], domain[n]) {
          Visit(point + [domain[n]]);
        }
        SelectedNext(target[|point|], domain, n, below);
        BranchesNext(covered, target, domains, point, domain, n);
      }
      assert domain[..|domain|] == domain;
    }
  }

  lemma SelectedNext(c: Coverage, domain: seq<Key>, n: nat, below: nat)
    requires n < |domain|
    ensures Selected(c, domain[..n + 1]) == Selected(c, domain[..n]) + (if Accepts(c, domain[n]) then 1 else 0)
    ensures Selected(c, domain[..n + 1]) * below ==
      Selected(c, domain[..n]) * below + (if Accepts(c, domain[n]) then below else 0)
  {
    assert domain[..n + 1][..n] == domain[..n];
  }

  lemma BranchesNext(rows: seq<Row>, target: Row, domains: Domains, point: seq<Key>, values: seq<Key>, n: nat)
    requires Shaped(rows, domains) && |target| == |domains| && |point| < |domains| && n < |values|
    ensures Branches(rows, target, domains, point, values[..n + 1]) <==>
      && Branches(rows, target, domains, point, values[..n])
      && (Accepts(target[|point|], values[n]) ==> AllCovered(rows, target, domains, point + [values[n]]))
  {
    assert values[..n + 1] == values[..n] + [values[n]];
  }

  method MatchCoverageContains(covered: seq<Row>, target: Row, domains: Domains) returns (r: bool)
    requires Shaped(covered, domains) && |target| == |domains|
    ensures r <==> Contains(covered, target, domains)
  {
    var wildcard := MatchCoverageHasWildcardRow(covered);
    if wildcard {
      return true;
    }
    var search := new Search(covered, target, domains);
    search.Visit([]);
    return search.found && search.complete;
  }

  method MatchCoverageExhaustive(covered: seq<Row>, domains: Domains) returns (r: bool)
    requires Shaped(covered, domains)
    ensures r <==> Exhaustive(covered, domains)
  {
    var wildcard := MatchCoverageHasWildcardRow(covered);
    if wildcard {
      return true;
    }
    var search := new Search(covered, AnyRow(|domains|), domains);
    search.Visit([]);
    return search.complete;
  }

  // ----- validateMatch -----

  /** `q` is `p` as validation leaves it: some literals are converted. */
  ghost predicate ConvertedLiteral(l: Literal, m: Literal) {
    m == l || m == Cast(l)
  }

  ghost predicate Converted(p: Pattern, q: Pattern) {
    match p
    case Wildcard => q == p
    case Variant(_, _) => q == p
    case LiteralPattern(l) => q.LiteralPattern? && ConvertedLiteral(l, q.literal)
    case RangePattern(first, limit, file, offset) =>
      && q.RangePattern? && ConvertedLiteral(first, q.first) && ConvertedLiteral(limit, q.limit)
      && q.file == file && q.offset == offset
    case Alternative(alternatives) =>
      && q.Alternative? && |q.alternatives| == |alternatives|
      && forall i | 0 <= i < |alternatives| :: Converted(alternatives[i], q.alternatives[i])
  }

  ghost predicate Fits(arm: Arm, subjects: nat) {
    && (Sole(arm.written) || |arm.written| == subjects)
    && |arm.checked| == |arm.written|
    && forall i | 0 <= i < |arm.written| :: Converted(arm.written[i], arm.checked[i])
  }

  ghost predicate AllFit(arms: seq<Arm>, subjects: nat) {
    forall a | 0 <= a < |arms| :: Fits(arms[a], subjects)
  }

  ghost function ArmRow(arm: Arm, subjects: nat): (row: Row)
    requires Fits(arm, subjects)
    ensures |row| == subjects
  {
    RowOf(arm.checked, subjects)
  }

  /** The rows of the unguarded arms. */
  ghost function Unguarded(arms: seq<Arm>, subjects: nat): (r: seq<Row>)
    requires AllFit(arms, subjects)
    ensures forall row | row in r :: |row| == subjects
  {
    if arms == [] then []
    else
      var last := arms[|arms| - 1];
      Unguarded(arms[..|arms| - 1], subjects) + (if last.guarded then [] else [ArmRow(last, subjects)])
  }

  lemma UnguardedNext(arms: seq<Arm>, subjects: nat, n: nat)
    requires AllFit(arms, subjects) && n < |arms|
    ensures Unguarded(arms[..n + 1], subjects)
            == Unguarded(arms[..n], subjects) + (if arms[n].guarded then [] else [ArmRow(arms[n], subjects)])
  {
    assert arms[..n + 1][..n] == arms[..n];
  }

  ghost predicate GivesRow(arm: Arm, subjects: nat, row: Row)
    requires Fits(arm, subjects)
  {
    !arm.guarded && ArmRow(arm, subjects) == row
  }

  lemma {:induction false} UnguardedRow(arms: seq<Arm>, subjects: nat, row: Row) returns (a: nat)
    requires AllFit(arms, subjects) && row in Unguarded(arms, subjects)
    ensures a < |arms| && GivesRow(arms[a], subjects, row)
  {
    a := |arms| - 1;
    if !GivesRow(arms[a], subjects, row) {
      a := UnguardedRow(arms[..|arms| - 1], subjects, row);
    }
  }

  lemma {:induction false} UnguardedHasRow(arms: seq<Arm>, subjects: nat, a: nat)
    requires AllFit(arms, subjects) && a < |arms| && !arms[a].guarded
    ensures ArmRow(arms[a], subjects) in Unguarded(arms, subjects)
  {
    if a < |arms| - 1 {
      UnguardedHasRow(arms[..|arms| - 1], subjects, a);
    }
  }

  ghost predicate Unreachable(arms: seq<Arm>, domains: Domains, a: nat)
    requires AllFit(arms, |domains|) && a < |arms|
  {
    Contains(Unguarded(arms[..a], |domains|), ArmRow(arms[a], |domains|), domains)
  }

  /** A subject, or the guard or the body of one of the first `n` arms, has an erroneous type. */
  predicate Poisoned(subjectError: bool, erroneous: seq<bool>, n: nat)
    requires n <= |erroneous|
  {
    subjectError || exists i | 0 <= i < n :: erroneous[i]
  }

  lemma PoisonedNext(subjectError: bool, erroneous: seq<bool>, n: nat)
    requires n < |erroneous|
    ensures Poisoned(subjectError, erroneous, n + 1) <==> Poisoned(subjectError, erroneous, n) || erroneous[n]
  {
  }

  /** No type is erroneous, of the subjects and in the first `n` arms. */
  ghost predicate Clean(subjectError: bool, erroneous: seq<bool>, n: nat)
    requires n <= |erroneous|
  {
    !subjectError && forall i | 0 <= i < n :: !erroneous[i]
  }

  /** Arm `a` is reported as unreachable; nothing is, once a type is erroneous. */
  ghost predicate Reported(arms: seq<Arm>, domains: Domains, subjectError: bool, erroneous: seq<bool>, a: nat)
    requires AllFit(arms, |domains|) && a < |arms| == |erroneous|
  {
    Clean(subjectError, erroneous, a) && Unreachable(arms, domains, a)
  }

  /** The reports on the first `n` arms. */
  ghost function Reports(arms: seq<Arm>, domains: Domains, subjectError: bool, erroneous: seq<bool>, n: nat)
    : (v: seq<bool>)
    requires AllFit(arms, |domains|) && n <= |arms| == |erroneous|
    ensures |v| == n
  {
    if n == 0 then []
    else
      Reports(arms, domains, subjectError, erroneous, n - 1)
      + [Reported(arms, domains, subjectError, erroneous, n - 1)]
  }

  lemma {:induction false} ReportsAt(arms: seq<Arm>, domains: Domains, subjectError: bool, erroneous: seq<bool>,
                                     n: nat, a: nat)
    requires AllFit(arms, |domains|) && a < n <= |arms| == |erroneous|
    ensures Reports(arms, domains, subjectError, erroneous, n)[a]
            <==> Reported(arms, domains, subjectError, erroneous, a)
    decreases n
  {
    if a < n - 1 {
      ReportsAt(arms, domains, subjectError, erroneous, n - 1, a);
    }
  }

  lemma ReportsNext(arms: seq<Arm>, domains: Domains, subjectError: bool, erroneous: seq<bool>, n: nat)
    requires AllFit(arms, |domains|) && n < |arms| == |erroneous|
    ensures Reports(arms, domains, subjectError, erroneous, n + 1)
            == Reports(arms, domains, subjectError, erroneous, n)
               + [!Poisoned(subjectError, erroneous, n) && Unreachable(arms, domains, n)]
  {
    assert Reported(arms, domains, subjectError, erroneous, n) <==>
      !Poisoned(subjectError, erroneous, n) && Unreachable(arms, domains, n);
  }

  /** One arm: is it unreachable, and what is covered after it. */
  method ValidateArm(arms: seq<Arm>, n: nat, covered: seq<Row>, domains: Domains)
    returns (contained: bool, after: seq<Row>)
    requires AllFit(arms, |domains|) && n < |arms| && covered == Unguarded(arms[..n], |domains|)
    ensures contained <==> Unreachable(arms, domains, n)
    ensures after == Unguarded(arms[..n + 1], |domains|)
  {
    var row := MatchCoverageRow(arms[n].checked, |domains|);
    contained := MatchCoverageContains(covered, row, domains);
    after := if arms[n].guarded then covered else covered + [row];
    UnguardedNext(arms, |domains|, n);
  }

  method ValidateArms(arms: seq<Arm>, domains: Domains, subjectError: bool, erroneous: seq<bool>)
    returns (unreachable: seq<bool>, missing: bool)
    requires AllFit(arms, |domains|) && |erroneous| == |arms|
    ensures unreachable == Reports(arms, domains, subjectError, erroneous, |arms|)
    ensures missing <==>
      !Poisoned(subjectError, erroneous, |arms|) && !Exhaustive(Unguarded(arms, |domains|), domains)
  {
    var covered: seq<Row> := [];
    var poisoned := subjectError;
    unreachable := [];
    for n := 0 to |arms|
      invariant covered == Unguarded(arms[..n], |domains|)
      invariant poisoned <==> Poisoned(subjectError, erroneous, n)
      invariant unreachable == Reports(arms, domains, subjectError, erroneous, n)
    {
      var contained;
      contained, covered := ValidateArm(arms, n, covered, domains);
      unreachable := unreachable + [!poisoned && contained];
      ReportsNext(arms, domains, subjectError, erroneous, n);
      PoisonedNext(subjectError, erroneous, n);
      poisoned := poisoned || erroneous[n];
    }
    assert arms[..|arms|] == arms;
    var exhaustive := MatchCoverageExhaustive(covered, domains);
    missing := !poisoned && !exhaustive;
  }

  /**
    The coverage part of validateMatch: the arms that are reported as unreachable,
    and whether the match is reported as not exhaustive.  `subjectError` and
    `erroneous` say where a type, of a subject or of an arm's guard or body, is
    erroneous; the verdicts after it are skipped.
   */
  method ValidateMatch(table: AliasTable, subjects: seq<Type>, arms: seq<Arm>, subjectError: bool, erroneous: seq<bool>)
    returns (unreachable: seq<bool>, missing: bool, ghost domains: Domains)
    requires AllFit(arms, |subjects|) && |erroneous| == |arms|
    ensures DomainsOf(table, subjects, arms, domains)
    ensures |unreachable| == |arms|
    ensures forall a | 0 <= a < |arms| :: unreachable[a] <==> Reported(arms, domains, subjectError, erroneous, a)
    ensures missing <==>
      Clean(subjectError, erroneous, |arms|) && !Exhaustive(Unguarded(arms, |subjects|), domains)
  {
    var found := MatchCoverageDomains(table, subjects, arms);
    domains := found;
    unreachable, missing := ValidateArms(arms, found, subjectError, erroneous);
    forall a | 0 <= a < |arms| ensures unreachable[a] <==> Reported(arms, domains, subjectError, erroneous, a) {
      ReportsAt(arms, domains, subjectError, erroneous, |arms|, a);
    }
  }
}
