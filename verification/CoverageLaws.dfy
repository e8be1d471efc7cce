/**
  What the coverage verdicts mean for the values that a match can meet.

  The search is exact on symbolic points; a value tuple is brought to a point by
  choosing, for each subject, a key that stands for its value.
 */
module CoverageLaws {
  import opened Decimal
  import opened Types
  import opened TypeEquality
  import opened Coverage

  // ----- The search is exact on symbolic points -----

  /** A point of the target's product. */
  ghost predicate TargetPoint(target: Row, domains: Domains, point: seq<Key>)
    requires |target| == |domains|
  {
    |point| == |domains| && forall i | 0 <= i < |point| :: point[i] in domains[i] && Accepts(target[i], point[i])
  }

  lemma {:induction false} CoveredFrom(rows: seq<Row>, target: Row, domains: Domains, prefix: seq<Key>, point: seq<Key>)
    requires Shaped(rows, domains) && |target| == |domains| && prefix <= point
    requires TargetPoint(target, domains, point) && AllCovered(rows, target, domains, prefix)
    ensures PointCovered(rows, point)
    decreases |point| - |prefix|
  {
    if |prefix| == |point| {
      assert prefix == point;
    } else {
      CoveredFrom(rows, target, domains, prefix + [point[|prefix|]], point);
    }
  }

  lemma {:induction false} CoveredBelow(rows: seq<Row>, target: Row, domains: Domains, prefix: seq<Key>)
    requires Shaped(rows, domains) && |target| == |domains| && |prefix| <= |domains|
    requires forall i | 0 <= i < |prefix| :: prefix[i] in domains[i] && Accepts(target[i], prefix[i])
    requires forall point | TargetPoint(target, domains, point) :: PointCovered(rows, point)
    ensures AllCovered(rows, target, domains, prefix)
    decreases |domains| - |prefix|
  {
    if |prefix| == |domains| {
      assert TargetPoint(target, domains, prefix);
    } else {
      forall k | k in domains[|prefix|] && Accepts(target[|prefix|], k)
        ensures AllCovered(rows, target, domains, prefix + [k])
      {
        CoveredBelow(rows, target, domains, prefix + [k]);
      }
    }
  }

  /** The depth-first search decides a property of all points of the product. */
  lemma SearchIsExact(rows: seq<Row>, target: Row, domains: Domains)
    requires Shaped(rows, domains) && |target| == |domains|
    ensures AllCovered(rows, target, domains, []) <==>
      forall point | TargetPoint(target, domains, point) :: PointCovered(rows, point)
  {
    if AllCovered(rows, target, domains, []) {
      forall point | TargetPoint(target, domains, point) ensures PointCovered(rows, point) {
        CoveredFrom(rows, target, domains, [], point);
      }
    }
    if forall point | TargetPoint(target, domains, point) :: PointCovered(rows, point) {
      CoveredBelow(rows, target, domains, []);
    }
  }

  // ----- The order in which maps are read is irrelevant -----

  lemma {:induction false} SelectedWithout(c: Coverage, s: seq<Key>, i: nat)
    requires i < |s|
    ensures Selected(c, s) == Selected(c, s[..i] + s[i + 1..]) + (if Accepts(c, s[i]) then 1 else 0)
  {
    var last := |s| - 1;
    if i == last {
      assert s[..i] + s[i + 1..] == s[..last];
    } else {
      var t := s[..i] + s[i + 1..];
      SelectedWithout(c, s[..last], i);
      assert t[..|t| - 1] == s[..last][..i] + s[..last][i + 1..];
      assert t[|t| - 1] == s[last];
    }
  }

  lemma {:induction false} SelectedPermuted(c: Coverage, s: seq<Key>, t: seq<Key>)
    requires multiset(s) == multiset(t)
    ensures Selected(c, s) == Selected(c, t)
    decreases |s|
  {
    if |s| == 0 {
      assert |multiset(t)| == 0;
    } else {
      var last := |s| - 1;
      assert s[last] in multiset(t);
      var i :| 0 <= i < |t| && t[i] == s[last];
      SelectedWithout(c, t, i);
      assert s == s[..last] + [s[last]];
      assert t == t[..i] + [t[i]] + t[i + 1..];
      assert multiset(t[..i] + t[i + 1..]) == multiset(t) - multiset{t[i]};
      SelectedPermuted(c, s[..last], t[..i] + t[i + 1..]);
    }
  }

  /** The multiplicity of a key in a domain: as in the base, and at most once beyond it. */
  lemma {:induction false} ExtensionCounts(base: seq<Key>, domain: seq<Key>, k: Key)
    requires Extends(base, domain)
    ensures multiset(domain)[k] == if k in base then multiset(base)[k] else if k in domain then 1 else 0
    decreases |domain|
  {
    if |domain| == |base| {
      assert domain == base;
    } else {
      var last := |domain| - 1;
      assert domain == domain[..last] + [domain[last]];
      assert base <= domain[..last];
      ExtensionCounts(base, domain[..last], k);
      assert domain[last] !in domain[..last];
      assert forall x | x in base :: x in domain[..last] by {
        assert forall j | 0 <= j < |base| :: base[j] == domain[..last][j];
      }
    }
  }

  lemma SameKeysArePermuted(base: seq<Key>, domain: seq<Key>, other: seq<Key>)
    requires Extends(base, domain) && Extends(base, other)
    requires forall k :: k in domain <==> k in other
    ensures multiset(domain) == multiset(other)
  {
    forall k ensures multiset(domain)[k] == multiset(other)[k] {
      ExtensionCounts(base, domain, k);
      ExtensionCounts(base, other, k);
    }
  }

  lemma {:induction false} PointsPermuted(target: Row, domains: Domains, other: Domains, d: nat)
    requires |target| == |domains| == |other| && d <= |domains|
    requires forall i | 0 <= i < |domains| :: multiset(domains[i]) == multiset(other[i])
    ensures Points(target, domains, d) == Points(target, other, d)
    decreases |domains| - d
  {
    if d < |domains| {
      SelectedPermuted(target[d], domains[d], other[d]);
      PointsPermuted(target, domains, other, d + 1);
    }
  }

  /** Whatever order the key maps are read in, the verdicts are the same. */
  lemma MapOrderIsIrrelevant(
    table: AliasTable, subjects: seq<Type>, arms: seq<Arm>, domains: Domains, other: Domains, rows: seq<Row>,
    target: Row)
    requires DomainsOf(table, subjects, arms, domains) && DomainsOf(table, subjects, arms, other)
    requires Shaped(rows, domains) && |target| == |domains|
    ensures Contains(rows, target, domains) <==> Contains(rows, target, other)
    ensures Exhaustive(rows, domains) <==> Exhaustive(rows, other)
  {
    forall i | 0 <= i < |domains|
      ensures multiset(domains[i]) == multiset(other[i]) && forall k :: k in domains[i] <==> k in other[i]
    {
      var base := SubjectDomain(table, subjects[i]);
      assert DomainOf(base, arms, i, domains[i]) && DomainOf(base, arms, i, other[i]);
      SameKeysArePermuted(base, domains[i], other[i]);
    }
    SamePoints(rows, target, domains, other);
    SamePoints(rows, AnyRow(|domains|), domains, other);
  }

  lemma SamePoints(rows: seq<Row>, target: Row, domains: Domains, other: Domains)
    requires Shaped(rows, domains) && |target| == |domains| == |other|
    requires forall i | 0 <= i < |domains| :: multiset(domains[i]) == multiset(other[i])
    requires forall i, k | 0 <= i < |domains| :: k in domains[i] <==> k in other[i]
    ensures Points(target, domains, 0) == Points(target, other, 0)
    ensures AllCovered(rows, target, domains, []) <==> AllCovered(rows, target, other, [])
  {
    PointsPermuted(target, domains, other, 0);
    assert forall point :: TargetPoint(target, domains, point) <==> TargetPoint(target, other, point);
    SearchIsExact(rows, target, domains);
    SearchIsExact(rows, target, other);
  }

  // ----- Values -----

  /** A subject: its truth, its number (for enums and tagged unions, the tag), or something else. */
  datatype Value = Truth(truth: bool) | Number(number: int) | Opaque(id: nat)

  function Denotes(l: Literal): Value {
    match l
    case BoolLiteral(truth) => Truth(truth)
    case IntegerLiteral(text) => Number(SignedValue(text))
    case CharLiteral(code) => Number(code)
    case TextLiteral(id) => Opaque(id)
    case Cast(operand) => Denotes(operand)
  }

  /** Ranges are half open. */
  predicate Between(first: Value, limit: Value, v: Value) {
    first.Number? && limit.Number? && v.Number? && first.number <= v.number < limit.number
  }

  /** Does the pattern match the value when the program runs? */
  predicate Matches(p: Pattern, v: Value) {
    match p
    case Wildcard => true
    case Variant(_, tagValue) => tagValue != "" && v == Number(SignedValue(tagValue))
    case LiteralPattern(literal) => v == Denotes(literal)
    case RangePattern(first, limit, _, _) => Between(Denotes(first), Denotes(limit), v)
    case Alternative(alternatives) => exists i | 0 <= i < |alternatives| :: Matches(alternatives[i], v)
  }

  ghost predicate ArmMatches(patterns: seq<Pattern>, values: seq<Value>) {
    Sole(patterns) || (|patterns| == |values| && forall i | 0 <= i < |values| :: Matches(patterns[i], values[i]))
  }

  /** The text is the tag of a variant of the tagged union, or the value of a member of the enum. */
  ghost predicate Declares(t: Type, text: string) {
    match t
    case StructType(_, _, Some(info)) => exists i | 0 <= i < |info.variants| :: info.variants[i].tagValue == text
    case EnumType(_, _, _, _, values) => text in values
    case _ => false
  }

  /** Types that declare their values. */
  predicate Enumerates(t: Type) {
    t.EnumType? || (t.StructType? && t.taggedUnion.Some?)
  }

  /** Values of a type: a declared one, both truths for `bool`, and anything for other types. */
  ghost predicate Inhabits(table: AliasTable, t: Type, v: Value) {
    var u := Underlying(table, {}, t);
    if Enumerates(u) then exists text :: Declares(u, text) && v == Number(SignedValue(text))
    else if u == PrimitiveType(Bool) then v.Truth?
    else true
  }

  /** The value is the one that the key names. */
  predicate Means(k: Key, v: Value) {
    match k
    case VariantValue(text) => v == Number(SignedValue(text))
    case IntegerKey(text) => v == Number(SignedValue(text))
    case BoolKey(truth) => v == Truth(truth)
    case _ => false
  }

  ghost predicate AllInhabit(table: AliasTable, subjects: seq<Type>, values: seq<Value>) {
    |values| == |subjects| && forall i | 0 <= i < |subjects| :: Inhabits(table, subjects[i], values[i])
  }

  type Bounds = (string, int) -> (Value, Value)

  /** Range patterns at one place of one file are the same range. */
  ghost predicate Located(p: Pattern, at: Bounds) {
    match p
    case RangePattern(first, limit, file, offset) => at(file, offset) == (Denotes(first), Denotes(limit))
    case Alternative(alternatives) => forall i | 0 <= i < |alternatives| :: Located(alternatives[i], at)
    case _ => true
  }

  ghost predicate LocatedArm(arm: Arm, at: Bounds) {
    forall i | 0 <= i < |arm.checked| :: Located(arm.checked[i], at)
  }

  /** The key stands for the value: patterns with this key, or with no key at all, treat both alike. */
  ghost predicate Stands(k: Key, v: Value, at: Bounds) {
    match k
    case Other => true
    case RangeKey(file, offset) => Between(at(file, offset).0, at(file, offset).1, v)
    case _ => Means(k, v)
  }

  /** Every boolean, integer and character has a key, which means its value; texts and conversions have none. */
  lemma LiteralKeyExactly(l: Literal)
    ensures LiteralKey(l).Some? <==> l.BoolLiteral? || l.IntegerLiteral? || l.CharLiteral?
    ensures LiteralKey(l).Some? ==> Means(LiteralKey(l).value, Denotes(l))
  {
    if l.CharLiteral? {
      SignedRoundTrip(l.code);
    }
  }

  lemma {:induction false} AcceptedMatches(p: Pattern, k: Key, v: Value, at: Bounds)
    requires Accepts(CoverageOf(p), k) && Stands(k, v, at)
    requires k.RangeKey? ==> Located(p, at)
    ensures Matches(p, v)
  {
    match p
    case LiteralPattern(literal) =>
      if literal.CharLiteral? {
        SignedRoundTrip(literal.code);
      }
    case Alternative(alternatives) =>
      var i :| 0 <= i < |alternatives| && (Wild(alternatives[i]) || HasKey(alternatives[i], k));
      AcceptedMatches(alternatives[i], k, v, at);
    case _ =>
  }

  /** A covered point is matched, by the row's arm, at every value tuple it stands for. */
  lemma CoveredMatches(arms: seq<Arm>, subjects: nat, point: seq<Key>, values: seq<Value>, at: Bounds) returns (a: nat)
    requires AllFit(arms, subjects) && |point| == |values| == subjects
    requires PointCovered(Unguarded(arms, subjects), point)
    requires forall i | 0 <= i < subjects :: Stands(point[i], values[i], at)
    requires (exists i :: 0 <= i < subjects && point[i].RangeKey?) ==>
      forall b | 0 <= b < |arms| :: LocatedArm(arms[b], at)
    ensures a < |arms| && !arms[a].guarded && ArmMatches(arms[a].checked, values)
  {
    var row :| row in Unguarded(arms, subjects) && RowCovers(row, point);
    a := UnguardedRow(arms, subjects, row);
    if !Sole(arms[a].checked) {
      forall i | 0 <= i < subjects ensures Matches(arms[a].checked[i], values[i]) {
        assert Accepts(row[i], point[i]);
        AcceptedMatches(arms[a].checked[i], point[i], values[i], at);
      }
    }
  }

  lemma WildRowMatches(arms: seq<Arm>, subjects: nat, values: seq<Value>) returns (a: nat)
    requires AllFit(arms, subjects) && |values| == subjects && HasWildcardRow(Unguarded(arms, subjects))
    ensures a < |arms| && !arms[a].guarded && ArmMatches(arms[a].checked, values)
  {
    var rows := Unguarded(arms, subjects);
    var r :| 0 <= r < |rows| && AllWild(rows[r]);
    var point := seq(subjects, _ => Other);
    assert RowCovers(rows[r], point);
    a := CoveredMatches(arms, subjects, point, values, (f, o) => (Opaque(0), Opaque(0)));
  }

  // ----- Exhaustive matches -----

  /** What equals `bool` is `bool`, or an alias of it. */
  lemma {:induction false} EqualsBool(table: AliasTable, chased: set<nat>, t: Type)
    requires Equals(table, chased, t, PrimitiveType(Bool))
    ensures Underlying(table, chased, t) == PrimitiveType(Bool)
    decreases table.Keys - chased
  {
    if t.AliasRef? {
      EqualsBool(table, chased + {t.reference.value}, table[t.reference.value].target);
    }
  }

  /** The subject's own domain is a list of keys that mean its values. */
  predicate Listed(table: AliasTable, t: Type) {
    Enumerates(Underlying(table, {}, t)) || Equals(table, {}, t, PrimitiveType(Bool))
  }

  /** A listed domain means exactly the values of the type, one key for each declaration; any other is `Other`. */
  lemma DomainMeansValues(table: AliasTable, t: Type)
    ensures !Listed(table, t) ==> SubjectDomain(table, t) == [Other]
    ensures Listed(table, t) ==> forall k | k in SubjectDomain(table, t) :: k.VariantValue? || k.BoolKey?
    ensures Listed(table, t) ==>
      forall v :: Inhabits(table, t, v) <==> exists k :: k in SubjectDomain(table, t) && Means(k, v)
    ensures Listed(table, t) ==> |SubjectDomain(table, t)| == DeclaredCount(Underlying(table, {}, t))
  {
    var u := Underlying(table, {}, t);
    if Enumerates(u) {
      forall v ensures Inhabits(table, t, v) <==> exists k :: k in SubjectDomain(table, t) && Means(k, v) {
        DeclaredMeans(table, t, v);
      }
    } else if Equals(table, {}, t, PrimitiveType(Bool)) {
      EqualsBool(table, {}, t);
      var domain := SubjectDomain(table, t);
      assert domain[0] == BoolKey(true) && domain[1] == BoolKey(false);
      forall v ensures Inhabits(table, t, v) <==> exists k :: k in domain && Means(k, v) {
        assert v == Truth(true) ==> Means(domain[0], v);
        assert v == Truth(false) ==> Means(domain[1], v);
      }
    }
  }

  function DeclaredCount(t: Type): nat {
    match t
    case StructType(_, _, Some(info)) => |info.variants|
    case EnumType(_, _, _, _, values) => |values|
    case _ => 2
  }

  lemma DeclaredMeans(table: AliasTable, t: Type, v: Value)
    requires Enumerates(Underlying(table, {}, t))
    ensures Inhabits(table, t, v) <==> exists k :: k in SubjectDomain(table, t) && Means(k, v)
  {
    var u, domain := Underlying(table, {}, t), SubjectDomain(table, t);
    if Inhabits(table, t, v) {
      var text :| Declares(u, text) && v == Number(SignedValue(text));
      DeclaredHasKey(table, t, text);
      assert Means(VariantValue(text), v);
    }
    if k :| k in domain && Means(k, v) {
      KeyIsDeclared(table, t, k);
    }
  }

  lemma DeclaredHasKey(table: AliasTable, t: Type, text: string)
    requires Declares(Underlying(table, {}, t), text)
    ensures VariantValue(text) in SubjectDomain(table, t)
  {
    var u, domain := Underlying(table, {}, t), SubjectDomain(table, t);
    match u
    case StructType(_, _, Some(info)) =>
      var i :| 0 <= i < |info.variants| && info.variants[i].tagValue == text;
      assert domain[i] == VariantValue(text);
    case EnumType(_, _, _, _, values) =>
      var i :| 0 <= i < |values| && values[i] == text;
      assert domain[i] == VariantValue(text);
  }

  lemma KeyIsDeclared(table: AliasTable, t: Type, k: Key)
    requires Enumerates(Underlying(table, {}, t)) && k in SubjectDomain(table, t)
    ensures k.VariantValue? && Declares(Underlying(table, {}, t), k.value)
  {
    var u, domain := Underlying(table, {}, t), SubjectDomain(table, t);
    var i :| 0 <= i < |domain| && domain[i] == k;
    match u
    case StructType(_, _, Some(info)) => assert info.variants[i].tagValue == k.value;
    case EnumType(_, _, _, _, values) => assert values[i] == k.value;
  }

  /** A key of the subject's own domain that stands for the value. */
  ghost function OwnKey(table: AliasTable, t: Type, v: Value): (k: Key)
    requires Inhabits(table, t, v)
    ensures k in SubjectDomain(table, t) && !k.RangeKey? && (k.Other? || Means(k, v))
  {
    DomainMeansValues(table, t);
    if !Listed(table, t) then Other
    else
      var k :| k in SubjectDomain(table, t) && Means(k, v);
      k
  }

  /** An exhaustive match has an unguarded arm for every tuple of subject values. */
  lemma ExhaustiveIsSound(table: AliasTable, subjects: seq<Type>, arms: seq<Arm>, domains: Domains, values: seq<Value>)
    returns (a: nat)
    requires AllFit(arms, |subjects|) && DomainsOf(table, subjects, arms, domains)
    requires Exhaustive(Unguarded(arms, |subjects|), domains)
    requires AllInhabit(table, subjects, values)
    ensures a < |arms| && !arms[a].guarded && ArmMatches(arms[a].checked, values)
  {
    var rows := Unguarded(arms, |subjects|);
    if HasWildcardRow(rows) {
      a := WildRowMatches(arms, |subjects|, values);
    } else {
      var point := seq(|subjects|, i requires 0 <= i < |subjects| => OwnKey(table, subjects[i], values[i]));
      forall i | 0 <= i < |subjects| ensures point[i] in domains[i] {
        assert DomainOf(SubjectDomain(table, subjects[i]), arms, i, domains[i]);
      }
      assert TargetPoint(AnyRow(|domains|), domains, point);
      SearchIsExact(rows, AnyRow(|domains|), domains);
      a := CoveredMatches(arms, |subjects|, point, values, (f, o) => (Opaque(0), Opaque(0)));
    }
  }

  // ----- Unreachable arms -----

  /** As `Matches`, but literals without a key match nothing. */
  predicate MatchesKeyed(p: Pattern, v: Value) {
    match p
    case Wildcard => true
    case Variant(_, tagValue) => tagValue != "" && v == Number(SignedValue(tagValue))
    case LiteralPattern(literal) => LiteralKey(literal).Some? && v == Denotes(literal)
    case RangePattern(first, limit, _, _) => Between(Denotes(first), Denotes(limit), v)
    case Alternative(alternatives) => exists i | 0 <= i < |alternatives| :: MatchesKeyed(alternatives[i], v)
  }

  ghost predicate ArmMatchesKeyed(patterns: seq<Pattern>, values: seq<Value>) {
    Sole(patterns) || (|patterns| == |values| && forall i | 0 <= i < |values| :: MatchesKeyed(patterns[i], values[i]))
  }

  /** A pattern that matches through a keyed part accepts a key that stands for the value. */
  lemma {:induction false} MatchedKey(p: Pattern, v: Value, at: Bounds) returns (k: Key)
    requires MatchesKeyed(p, v) && Located(p, at) && !Wild(p)
    ensures HasKey(p, k) && Stands(k, v, at)
  {
    match p
    case Variant(variant, tagValue) => k := VariantKey(variant, tagValue);
    case LiteralPattern(literal) =>
      k := LiteralKey(literal).value;
      if literal.CharLiteral? {
        SignedRoundTrip(literal.code);
      }
    case RangePattern(_, _, file, offset) => k := RangeKey(file, offset);
    case Alternative(alternatives) =>
      var i :| 0 <= i < |alternatives| && MatchesKeyed(alternatives[i], v);
      k := MatchedKey(alternatives[i], v, at);
  }

  lemma {:induction false} ConvertedKeys(p: Pattern, q: Pattern, k: Key)
    requires Converted(p, q) && HasKey(q, k)
    ensures HasKey(p, k)
  {
    match p
    case Alternative(alternatives) =>
      var i :| 0 <= i < |q.alternatives| && HasKey(q.alternatives[i], k);
      ConvertedKeys(alternatives[i], q.alternatives[i], k);
    case _ =>
  }

  ghost predicate StandingPoint(
    target: Row, domains: Domains, point: seq<Key>, values: seq<Value>, at: Bounds)
    requires |target| == |domains| && |values| == |domains|
  {
    |point| == |domains| && forall i | 0 <= i < |domains| :: StandingKey(target[i], domains[i], point[i], values[i], at)
  }

  ghost predicate StandingKey(c: Coverage, domain: seq<Key>, k: Key, v: Value, at: Bounds) {
    k in domain && Accepts(c, k) && Stands(k, v, at)
  }

  ghost predicate HasStandingKey(c: Coverage, domain: seq<Key>, v: Value, at: Bounds) {
    exists k :: StandingKey(c, domain, k, v, at)
  }

  /** A key of the domain that the arm accepts at one subject and that stands for the value. */
  lemma AcceptedKey(
    table: AliasTable, subjects: seq<Type>, arms: seq<Arm>, domains: Domains, a: nat, i: nat, v: Value, at: Bounds)
    returns (k: Key)
    requires AllFit(arms, |subjects|) && DomainsOf(table, subjects, arms, domains)
    requires a < |arms| && i < |subjects| && LocatedArm(arms[a], at)
    requires Inhabits(table, subjects[i], v)
    requires Sole(arms[a].checked) || MatchesKeyed(arms[a].checked[i], v)
    ensures StandingKey(ArmRow(arms[a], |subjects|)[i], domains[i], k, v, at)
  {
    assert DomainOf(SubjectDomain(table, subjects[i]), arms, i, domains[i]);
    var arm := arms[a];
    if Sole(arm.checked) || Wild(arm.checked[i]) {
      k := OwnKey(table, subjects[i], v);
    } else {
      k := MatchedKey(arm.checked[i], v, at);
      assert !Sole(arm.written);
      ConvertedKeys(arm.written[i], arm.checked[i], k);
      assert MentionedBy(arm, i, k);
      assert Mentioned(arms, i, k);
    }
  }

  lemma ArmKey(
    table: AliasTable, subjects: seq<Type>, arms: seq<Arm>, domains: Domains, a: nat, i: nat, values: seq<Value>,
    at: Bounds)
    returns (k: Key)
    requires AllFit(arms, |subjects|) && DomainsOf(table, subjects, arms, domains)
    requires a < |arms| && i < |subjects| && LocatedArm(arms[a], at)
    requires AllInhabit(table, subjects, values) && ArmMatchesKeyed(arms[a].checked, values)
    ensures StandingKey(ArmRow(arms[a], |subjects|)[i], domains[i], k, values[i], at)
  {
    k := AcceptedKey(table, subjects, arms, domains, a, i, values[i], at);
  }

  lemma ChoosePoint(
    table: AliasTable, subjects: seq<Type>, arms: seq<Arm>, domains: Domains, a: nat, values: seq<Value>, at: Bounds)
    returns (point: seq<Key>)
    requires AllFit(arms, |subjects|) && DomainsOf(table, subjects, arms, domains)
    requires a < |arms| && LocatedArm(arms[a], at)
    requires AllInhabit(table, subjects, values) && ArmMatchesKeyed(arms[a].checked, values)
    ensures StandingPoint(ArmRow(arms[a], |subjects|), domains, point, values, at)
  {
    var row := ArmRow(arms[a], |subjects|);
    forall i | 0 <= i < |subjects| ensures HasStandingKey(row[i], domains[i], values[i], at) {
      var k := ArmKey(table, subjects, arms, domains, a, i, values, at);
    }
    point := PickPoint(row, domains, values, at);
  }

  lemma PickPoint(row: Row, domains: Domains, values: seq<Value>, at: Bounds) returns (point: seq<Key>)
    requires |row| == |domains| == |values|
    requires forall i | 0 <= i < |domains| :: HasStandingKey(row[i], domains[i], values[i], at)
    ensures StandingPoint(row, domains, point, values, at)
  {
    point := [];
    while |point| < |domains|
      invariant |point| <= |domains|
      invariant forall i | 0 <= i < |point| :: StandingKey(row[i], domains[i], point[i], values[i], at)
    {
      var i := |point|;
      assert HasStandingKey(row[i], domains[i], values[i], at);
      var k :| StandingKey(row[i], domains[i], k, values[i], at);
      point := point + [k];
    }
  }

  /** An arm that is called unreachable matches, through keys, only what an earlier unguarded arm matches. */
  lemma UnreachableIsSound(
    table: AliasTable, subjects: seq<Type>, arms: seq<Arm>, domains: Domains, a: nat, values: seq<Value>, at: Bounds)
    returns (b: nat)
    requires AllFit(arms, |subjects|) && DomainsOf(table, subjects, arms, domains)
    requires a < |arms| && Unreachable(arms, domains, a)
    requires forall c | 0 <= c <= a :: LocatedArm(arms[c], at)
    requires AllInhabit(table, subjects, values) && ArmMatchesKeyed(arms[a].checked, values)
    ensures b < a && !arms[b].guarded && ArmMatches(arms[b].checked, values)
  {
    var rows := Unguarded(arms[..a], |subjects|);
    if HasWildcardRow(rows) {
      b := WildRowMatches(arms[..a], |subjects|, values);
    } else {
      var point := ChoosePoint(table, subjects, arms, domains, a, values, at);
      SearchIsExact(rows, ArmRow(arms[a], |subjects|), domains);
      assert TargetPoint(ArmRow(arms[a], |subjects|), domains, point);
      b := CoveredMatches(arms[..a], |subjects|, point, values, at);
    }
  }

  // ----- Running a match -----

  /** The arm that a run takes: the first that matches and whose guard, if it has one, holds. */
  ghost function TakenArm(arms: seq<Arm>, values: seq<Value>, guards: nat -> bool, from: nat): Option<nat>
    requires from <= |arms|
    decreases |arms| - from
  {
    if from == |arms| then None
    else if ArmMatches(arms[from].checked, values) && (!arms[from].guarded || guards(from)) then Some(from)
    else TakenArm(arms, values, guards, from + 1)
  }

  lemma {:induction false} TakenIsFirst(arms: seq<Arm>, values: seq<Value>, guards: nat -> bool, from: nat, a: nat)
    requires from <= a < |arms| && !arms[a].guarded && ArmMatches(arms[a].checked, values)
    ensures TakenArm(arms, values, guards, from).Some? && TakenArm(arms, values, guards, from).value <= a
    decreases a - from
  {
    if from < a {
      TakenIsFirst(arms, values, guards, from + 1, a);
    }
  }

  /** A match that is accepted as exhaustive never falls through, whatever its guards say. */
  lemma ExhaustiveTakesAnArm(
    table: AliasTable, subjects: seq<Type>, arms: seq<Arm>, domains: Domains, values: seq<Value>, guards: nat -> bool)
    requires AllFit(arms, |subjects|) && DomainsOf(table, subjects, arms, domains)
    requires Exhaustive(Unguarded(arms, |subjects|), domains)
    requires AllInhabit(table, subjects, values)
    ensures TakenArm(arms, values, guards, 0).Some?
  {
    var a := ExhaustiveIsSound(table, subjects, arms, domains, values);
    TakenIsFirst(arms, values, guards, 0, a);
  }

  lemma {:induction false} NotTaken(arms: seq<Arm>, values: seq<Value>, guards: nat -> bool, from: nat, a: nat)
    requires from <= |arms| && a < |arms| && !ArmMatches(arms[a].checked, values)
    ensures TakenArm(arms, values, guards, from) != Some(a)
    decreases |arms| - from
  {
    if from < |arms| {
      NotTaken(arms, values, guards, from + 1, a);
    }
  }

  // ----- When the verdict on an arm is right -----

  /** `l` is a literal of the pattern, and it has no key. */
  predicate HasKeyless(p: Pattern, l: Literal) {
    match p
    case LiteralPattern(literal) => literal == l && LiteralKey(l).None?
    case Alternative(alternatives) => exists i | 0 <= i < |alternatives| :: HasKeyless(alternatives[i], l)
    case _ => false
  }

  lemma {:induction false} KeylessValue(p: Pattern, v: Value) returns (l: Literal)
    requires Matches(p, v) && !MatchesKeyed(p, v)
    ensures HasKeyless(p, l) && v == Denotes(l)
  {
    match p
    case LiteralPattern(literal) => l := literal;
    case Alternative(alternatives) =>
      var i :| 0 <= i < |alternatives| && Matches(alternatives[i], v);
      l := KeylessValue(alternatives[i], v);
  }

  lemma {:induction false} KeylessMatches(p: Pattern, l: Literal)
    requires HasKeyless(p, l)
    ensures Matches(p, Denotes(l))
  {
    match p
    case Alternative(alternatives) =>
      var i :| 0 <= i < |alternatives| && HasKeyless(alternatives[i], l);
      KeylessMatches(alternatives[i], l);
    case _ =>
  }

  /** Whatever a keyless literal of the pattern matches, a keyed part matches too. */
  ghost predicate KeysSuffice(table: AliasTable, t: Type, p: Pattern) {
    forall l | HasKeyless(p, l) && Inhabits(table, t, Denotes(l)) :: MatchesKeyed(p, Denotes(l))
  }

  /** The pattern matches some value of the type. */
  ghost predicate Matchable(table: AliasTable, t: Type, p: Pattern) {
    exists v :: Inhabits(table, t, v) && Matches(p, v)
  }

  /** The search can enter the pattern's dimension: it is wild or has a key. */
  ghost predicate Visible(p: Pattern) {
    Wild(p) || exists k :: HasKey(p, k)
  }

  ghost predicate AllVisible(table: AliasTable, subjects: seq<Type>, patterns: seq<Pattern>)
    requires |patterns| == |subjects|
  {
    forall i | 0 <= i < |subjects| :: Matchable(table, subjects[i], patterns[i]) && Visible(patterns[i])
  }

  ghost predicate AllSuffice(table: AliasTable, subjects: seq<Type>, patterns: seq<Pattern>)
    requires |patterns| == |subjects|
  {
    forall i | 0 <= i < |subjects| :: KeysSuffice(table, subjects[i], patterns[i])
  }

  /** The arm, after an arm of just the keyed parts of its patterns. */
  function KeyedFirst(arm: Arm): seq<Arm> {
    var parts := KeyedParts(arm.checked);
    [Arm(parts, parts, false), arm]
  }

  function KeyedParts(ps: seq<Pattern>): (qs: seq<Pattern>)
    ensures |qs| == |ps|
  {
    seq(|ps|, i requires 0 <= i < |ps| => KeyedPart(ps[i]))
  }

  /**
    The arms that can be called unreachable and be taken all the same: each
    pattern can match and is wild or has a key, some pattern has a keyless literal
    that its keyed parts do not cover, and the search of the smallest match that
    shows it, whose domains are `domains`, stays within the budget.
   */
  ghost predicate CanBeMisjudged(table: AliasTable, subjects: seq<Type>, arm: Arm, domains: Domains)
    requires Fits(arm, |subjects|) && |domains| == |subjects|
  {
    && !Sole(arm.checked)
    && AllVisible(table, subjects, arm.checked)
    && !AllSuffice(table, subjects, arm.checked)
    && Points(ArmRow(arm, |subjects|), domains, 0) <= SEARCH_BUDGET
  }

  /** A match that has the arm at a position, and one run of it. */
  datatype Run = Run(arms: seq<Arm>, domains: Domains, position: nat, values: seq<Value>, guards: nat -> bool)

  /** The arm is called unreachable. */
  ghost predicate CalledUnreachable(table: AliasTable, subjects: seq<Type>, arm: Arm, at: Bounds, run: Run) {
    && AllFit(run.arms, |subjects|) && DomainsOf(table, subjects, run.arms, run.domains)
    && run.position < |run.arms| && run.arms[run.position] == arm
    && (forall c | 0 <= c <= run.position :: LocatedArm(run.arms[c], at))
    && AllInhabit(table, subjects, run.values)
    && Unreachable(run.arms, run.domains, run.position)
  }

  /** It is called unreachable, and the run takes it. */
  ghost predicate Misjudged(table: AliasTable, subjects: seq<Type>, arm: Arm, at: Bounds, run: Run) {
    && CalledUnreachable(table, subjects, arm, at, run)
    && TakenArm(run.arms, run.values, run.guards, 0) == Some(run.position)
  }

  /**
    The exact condition: some match calls the arm unreachable in one of its runs
    that takes the arm, if and only if the arm can be misjudged.
   */
  lemma MisjudgedExactly(table: AliasTable, subjects: seq<Type>, arm: Arm, domains: Domains, at: Bounds)
    requires Fits(arm, |subjects|) && LocatedArm(arm, at)
    requires DomainsOf(table, subjects, KeyedFirst(arm), domains)
    ensures (exists run :: Misjudged(table, subjects, arm, at, run)) <==> CanBeMisjudged(table, subjects, arm, domains)
  {
    if CanBeMisjudged(table, subjects, arm, domains) {
      var run := KeylessLiteralIsMisjudged(table, subjects, arm, domains, at);
    } else {
      forall run ensures !Misjudged(table, subjects, arm, at, run) {
        NeverMisjudged(table, subjects, arm, domains, at, run);
      }
    }
  }

  lemma NeverMisjudged(table: AliasTable, subjects: seq<Type>, arm: Arm, domains: Domains, at: Bounds, run: Run)
    requires Fits(arm, |subjects|) && DomainsOf(table, subjects, KeyedFirst(arm), domains)
    requires !CanBeMisjudged(table, subjects, arm, domains)
    ensures !Misjudged(table, subjects, arm, at, run)
  {
    if CalledUnreachable(table, subjects, arm, at, run) {
      UnreachableIsNeverTaken(table, subjects, arm, domains, at, run);
    }
  }

  /** An arm that is called unreachable is never taken, unless it is one that can be misjudged. */
  lemma UnreachableIsNeverTaken(
    table: AliasTable, subjects: seq<Type>, arm: Arm, domains: Domains, at: Bounds, run: Run)
    requires Fits(arm, |subjects|) && DomainsOf(table, subjects, KeyedFirst(arm), domains)
    requires !CanBeMisjudged(table, subjects, arm, domains)
    requires CalledUnreachable(table, subjects, arm, at, run)
    ensures TakenArm(run.arms, run.values, run.guards, 0) != Some(run.position)
  {
    var a := run.position;
    if !ArmMatches(arm.checked, run.values) {
      NotTaken(run.arms, run.values, run.guards, 0, a);
    } else if HasWildcardRow(Unguarded(run.arms[..a], |subjects|)) {
      var b := WildRowMatches(run.arms[..a], |subjects|, run.values);
      TakenIsFirst(run.arms, run.values, run.guards, 0, b);
    } else {
      SearchedMatchesKeyed(table, subjects, arm, domains, at, run);
      var b := UnreachableIsSound(table, subjects, run.arms, run.domains, a, run.values, at);
      TakenIsFirst(run.arms, run.values, run.guards, 0, b);
    }
  }

  /** When the search says so, every position can be entered, and then keys do all the matching. */
  lemma SearchedMatchesKeyed(
    table: AliasTable, subjects: seq<Type>, arm: Arm, domains: Domains, at: Bounds, run: Run)
    requires Fits(arm, |subjects|) && DomainsOf(table, subjects, KeyedFirst(arm), domains)
    requires !CanBeMisjudged(table, subjects, arm, domains)
    requires CalledUnreachable(table, subjects, arm, at, run)
    requires ArmMatches(arm.checked, run.values)
    requires !HasWildcardRow(Unguarded(run.arms[..run.position], |subjects|))
    ensures ArmMatchesKeyed(arm.checked, run.values)
  {
    if !Sole(arm.checked) {
      SearchedIsVisible(table, subjects, arm, at, run);
      SmallestHasFewest(table, subjects, arm, domains, run.arms, run.domains, run.position);
      assert AllSuffice(table, subjects, arm.checked);
      SufficientKeysMatch(table, subjects, arm.checked, run.values);
    }
  }

  lemma SufficientKeysMatch(table: AliasTable, subjects: seq<Type>, patterns: seq<Pattern>, values: seq<Value>)
    requires |patterns| == |subjects| && !Sole(patterns)
    requires AllSuffice(table, subjects, patterns)
    requires AllInhabit(table, subjects, values) && ArmMatches(patterns, values)
    ensures ArmMatchesKeyed(patterns, values)
  {
    forall i | 0 <= i < |subjects| ensures MatchesKeyed(patterns[i], values[i]) {
      SufficientKeys(table, subjects[i], patterns[i], values[i]);
    }
  }

  /** The search found points, within its budget, so every position can be entered. */
  lemma SearchedIsVisible(table: AliasTable, subjects: seq<Type>, arm: Arm, at: Bounds, run: Run)
    requires Fits(arm, |subjects|) && !Sole(arm.checked)
    requires CalledUnreachable(table, subjects, arm, at, run)
    requires ArmMatches(arm.checked, run.values)
    requires !HasWildcardRow(Unguarded(run.arms[..run.position], |subjects|))
    ensures Points(ArmRow(arm, |subjects|), run.domains, 0) <= SEARCH_BUDGET
    ensures AllVisible(table, subjects, arm.checked)
  {
    forall i | 0 <= i < |subjects| ensures Matchable(table, subjects[i], arm.checked[i]) && Visible(arm.checked[i]) {
      assert Matches(arm.checked[i], run.values[i]);
      VisiblePosition(arm.checked[i], ArmRow(arm, |subjects|), run.domains, i);
    }
  }

  lemma SufficientKeys(table: AliasTable, t: Type, p: Pattern, v: Value)
    requires KeysSuffice(table, t, p) && Inhabits(table, t, v) && Matches(p, v)
    ensures MatchesKeyed(p, v)
  {
    if !MatchesKeyed(p, v) {
      var l := KeylessValue(p, v);
    }
  }

  lemma VisiblePosition(p: Pattern, target: Row, domains: Domains, i: nat)
    requires |target| == |domains| && i < |domains| && target[i] == CoverageOf(p)
    requires Points(target, domains, 0) > 0
    ensures Visible(p)
  {
    PointsSelect(target, domains, 0, i);
    var k := SelectedIsAccepted(target[i], domains[i]);
  }

  lemma {:induction false} PointsSelect(target: Row, domains: Domains, d: nat, i: nat)
    requires |target| == |domains| && d <= i < |domains| && Points(target, domains, d) > 0
    ensures Selected(target[i], domains[i]) > 0
    decreases i - d
  {
    assert Points(target, domains, d + 1) > 0;
    if d < i {
      PointsSelect(target, domains, d + 1, i);
    }
  }

  lemma {:induction false} SelectedIsAccepted(c: Coverage, s: seq<Key>) returns (k: Key)
    requires Selected(c, s) > 0
    ensures k in s && Accepts(c, k)
  {
    var last := |s| - 1;
    k := s[last];
    if !Accepts(c, k) {
      k := SelectedIsAccepted(c, s[..last]);
    }
  }

  // ----- The smallest match that has the arm -----

  /** No match has fewer points below the arm. */
  lemma SmallestHasFewest(
    table: AliasTable, subjects: seq<Type>, arm: Arm, domains: Domains, arms: seq<Arm>, other: Domains, a: nat)
    requires Fits(arm, |subjects|) && !Sole(arm.checked)
    requires DomainsOf(table, subjects, KeyedFirst(arm), domains)
    requires DomainsOf(table, subjects, arms, other) && a < |arms| && arms[a] == arm
    ensures Points(ArmRow(arm, |subjects|), domains, 0) <= Points(ArmRow(arm, |subjects|), other, 0)
  {
    forall i | 0 <= i < |subjects| ensures multiset(domains[i]) <= multiset(other[i]) {
      var base := SubjectDomain(table, subjects[i]);
      assert DomainOf(base, KeyedFirst(arm), i, domains[i]) && DomainOf(base, arms, i, other[i]);
      forall k | k in domains[i] ensures k in other[i] {
        if k !in base {
          SmallestMentions(arm, |subjects|, i, k);
          assert MentionedBy(arms[a], i, k);
        }
      }
      DomainsNest(base, domains[i], other[i]);
    }
    PointsGrow(ArmRow(arm, |subjects|), domains, other, 0);
  }

  /** The arm itself mentions every key that the smallest match mentions. */
  lemma SmallestMentions(arm: Arm, subjects: nat, i: nat, k: Key)
    requires Fits(arm, subjects) && !Sole(arm.checked) && i < subjects && Mentioned(KeyedFirst(arm), i, k)
    ensures MentionedBy(arm, i, k)
  {
    var b :| 0 <= b < 2 && MentionedBy(KeyedFirst(arm)[b], i, k);
    if b == 0 {
      KeyedPartCoverage(arm.checked[i]);
      assert k in CoverageOf(KeyedPart(arm.checked[i])).keys;
      ConvertedKeys(arm.written[i], arm.checked[i], k);
    }
  }

  lemma DomainsNest(base: seq<Key>, domain: seq<Key>, other: seq<Key>)
    requires Extends(base, domain) && Extends(base, other)
    requires forall k | k in domain :: k in other
    ensures multiset(domain) <= multiset(other)
  {
    forall k ensures multiset(domain)[k] <= multiset(other)[k] {
      ExtensionCounts(base, domain, k);
      ExtensionCounts(base, other, k);
    }
  }

  lemma {:induction false} SelectedGrows(c: Coverage, s: seq<Key>, t: seq<Key>)
    requires multiset(s) <= multiset(t)
    ensures Selected(c, s) <= Selected(c, t)
    decreases |s|
  {
    if |s| > 0 {
      var last := |s| - 1;
      assert s == s[..last] + [s[last]];
      assert s[last] in multiset(s);
      assert s[last] in multiset(t);
      var i :| 0 <= i < |t| && t[i] == s[last];
      SelectedWithout(c, t, i);
      assert t == t[..i] + [t[i]] + t[i + 1..];
      assert multiset(t[..i] + t[i + 1..]) == multiset(t) - multiset{t[i]};
      SelectedGrows(c, s[..last], t[..i] + t[i + 1..]);
    }
  }

  lemma {:induction false} PointsGrow(target: Row, domains: Domains, other: Domains, d: nat)
    requires |target| == |domains| == |other| && d <= |domains|
    requires forall i | 0 <= i < |domains| :: multiset(domains[i]) <= multiset(other[i])
    ensures Points(target, domains, d) <= Points(target, other, d)
    decreases |domains| - d
  {
    if d < |domains| {
      SelectedGrows(target[d], domains[d], other[d]);
      PointsGrow(target, domains, other, d + 1);
      ProductGrows(Selected(target[d], domains[d]), Selected(target[d], other[d]),
                   Points(target, domains, d + 1), Points(target, other, d + 1));
    }
  }

  lemma ProductGrows(a: nat, b: nat, c: nat, d: nat)
    requires a <= b && c <= d
    ensures a * c <= b * d
  {
    assert a * c <= b * c <= b * d;
  }

  // ----- Literals without a key -----

  /** The pattern without its keyless literals. */
  function KeyedPart(p: Pattern): Pattern {
    match p
    case LiteralPattern(literal) => if LiteralKey(literal).Some? then p else Alternative([])
    case Alternative(alternatives) =>
      Alternative(seq(|alternatives|, i requires 0 <= i < |alternatives| => KeyedPart(alternatives[i])))
    case _ => p
  }

  lemma {:induction false} KeyedPartCoverage(p: Pattern)
    ensures CoverageOf(KeyedPart(p)) == CoverageOf(p)
  {
    match p
    case Alternative(alternatives) =>
      var q := KeyedPart(p);
      forall i | 0 <= i < |alternatives| ensures CoverageOf(q.alternatives[i]) == CoverageOf(alternatives[i]) {
        KeyedPartCoverage(alternatives[i]);
      }
      forall k ensures HasKey(q, k) <==> HasKey(p, k) {
        assert forall i | 0 <= i < |alternatives| ::
          (k in CoverageOf(q.alternatives[i]).keys <==> k in CoverageOf(alternatives[i]).keys);
      }
    case _ =>
  }

  lemma {:induction false} KeyedPartMatches(p: Pattern, v: Value)
    ensures Matches(KeyedPart(p), v) <==> MatchesKeyed(p, v)
  {
    match p
    case Alternative(alternatives) =>
      var q := KeyedPart(p);
      forall i | 0 <= i < |alternatives| ensures Matches(q.alternatives[i], v) <==> MatchesKeyed(alternatives[i], v) {
        KeyedPartMatches(alternatives[i], v);
      }
    case _ =>
  }

  lemma {:induction false} ConvertedReflexive(p: Pattern)
    ensures Converted(p, p)
  {
    match p
    case Alternative(alternatives) =>
      forall i | 0 <= i < |alternatives| { ConvertedReflexive(alternatives[i]); }
    case _ =>
  }

  lemma {:induction false} SelectedSome(c: Coverage, s: seq<Key>, k: Key)
    requires k in s && Accepts(c, k)
    ensures Selected(c, s) > 0
  {
    var last := |s| - 1;
    if s[last] != k {
      assert s == s[..last] + [s[last]];
      SelectedSome(c, s[..last], k);
    }
  }

  /** A value that takes the arm at one position, past the keyed part where that is possible. */
  lemma MissedValue(table: AliasTable, t: Type, p: Pattern) returns (v: Value)
    requires Matchable(table, t, p)
    ensures Inhabits(table, t, v) && Matches(p, v)
    ensures !KeysSuffice(table, t, p) ==> !MatchesKeyed(p, v)
  {
    if KeysSuffice(table, t, p) {
      v :| Inhabits(table, t, v) && Matches(p, v);
    } else {
      var l :| HasKeyless(p, l) && Inhabits(table, t, Denotes(l)) && !MatchesKeyed(p, Denotes(l));
      KeylessMatches(p, l);
      v := Denotes(l);
    }
  }

  lemma {:induction false} MissedValues(table: AliasTable, subjects: seq<Type>, patterns: seq<Pattern>)
    returns (values: seq<Value>)
    requires |patterns| == |subjects|
    requires forall i | 0 <= i < |subjects| :: Matchable(table, subjects[i], patterns[i])
    ensures AllInhabit(table, subjects, values)
    ensures forall i | 0 <= i < |subjects| :: Matches(patterns[i], values[i])
    ensures forall i | 0 <= i < |subjects| :: !KeysSuffice(table, subjects[i], patterns[i]) ==>
              !MatchesKeyed(patterns[i], values[i])
  {
    values := [];
    if |subjects| > 0 {
      var last := |subjects| - 1;
      assert forall i | 0 <= i < last :: Matchable(table, subjects[..last][i], patterns[..last][i]);
      var before := MissedValues(table, subjects[..last], patterns[..last]);
      var v := MissedValue(table, subjects[last], patterns[last]);
      values := before + [v];
      forall i | 0 <= i < |subjects|
        ensures Inhabits(table, subjects[i], values[i]) && Matches(patterns[i], values[i])
        ensures !KeysSuffice(table, subjects[i], patterns[i]) ==> !MatchesKeyed(patterns[i], values[i])
      {
        if i < last {
          assert subjects[..last][i] == subjects[i] && patterns[..last][i] == patterns[i];
        }
      }
    }
  }

  /**
    After an arm of just its keyed parts, the arm is called unreachable, and the
    values that its keyless literals add take it.
   */
  lemma KeylessLiteralIsMisjudged(table: AliasTable, subjects: seq<Type>, arm: Arm, domains: Domains, at: Bounds)
    returns (run: Run)
    requires Fits(arm, |subjects|) && LocatedArm(arm, at)
    requires DomainsOf(table, subjects, KeyedFirst(arm), domains)
    requires CanBeMisjudged(table, subjects, arm, domains)
    ensures run.arms == KeyedFirst(arm) && run.domains == domains && run.position == 1
    ensures Misjudged(table, subjects, arm, at, run)
  {
    VisibleArmIsCalled(table, subjects, arm, domains);
    KeyedPartsLocated(arm, at);
    var values := MissedValues(table, subjects, arm.checked);
    MissedByKeyedParts(arm, values, _ => true);
    run := Run(KeyedFirst(arm), domains, 1, values, _ => true);
  }

  /** After its keyed parts, an arm that the search can enter is called unreachable. */
  lemma VisibleArmIsCalled(table: AliasTable, subjects: seq<Type>, arm: Arm, domains: Domains)
    requires Fits(arm, |subjects|) && !Sole(arm.checked)
    requires DomainsOf(table, subjects, KeyedFirst(arm), domains)
    requires AllVisible(table, subjects, arm.checked)
    requires Points(ArmRow(arm, |subjects|), domains, 0) <= SEARCH_BUDGET
    ensures AllFit(KeyedFirst(arm), |subjects|) && Unreachable(KeyedFirst(arm), domains, 1)
  {
    var row := ArmRow(arm, |subjects|);
    KeyedRows(arm, |subjects|);
    forall i | 0 <= i < |subjects| ensures Selected(row[i], domains[i]) > 0 {
      VisibleIsSelected(table, subjects, arm, domains, i);
    }
    SelfCovered(row, domains);
  }

  /** A target whose own row is covered, and that has some point, is covered. */
  lemma SelfCovered(target: Row, domains: Domains)
    requires |target| == |domains|
    requires forall i | 0 <= i < |domains| :: Selected(target[i], domains[i]) > 0
    requires Points(target, domains, 0) <= SEARCH_BUDGET
    ensures Contains([target], target, domains)
  {
    SomePoint(target, domains, 0);
    forall point | TargetPoint(target, domains, point) ensures PointCovered([target], point) {
      assert RowCovers(target, point);
    }
    SearchIsExact([target], target, domains);
  }

  lemma {:induction false} SomePoint(target: Row, domains: Domains, d: nat)
    requires |target| == |domains| && d <= |domains|
    requires forall i | 0 <= i < |domains| :: Selected(target[i], domains[i]) > 0
    ensures Points(target, domains, d) > 0
    decreases |domains| - d
  {
    if d < |domains| {
      SomePoint(target, domains, d + 1);
    }
  }

  /** At a position that is wild or has a key, the domain holds a key that the arm accepts. */
  lemma VisibleIsSelected(table: AliasTable, subjects: seq<Type>, arm: Arm, domains: Domains, i: nat)
    requires Fits(arm, |subjects|) && !Sole(arm.checked) && i < |subjects|
    requires DomainsOf(table, subjects, KeyedFirst(arm), domains)
    requires Matchable(table, subjects[i], arm.checked[i]) && Visible(arm.checked[i])
    ensures Selected(ArmRow(arm, |subjects|)[i], domains[i]) > 0
  {
    var p := arm.checked[i];
    assert DomainOf(SubjectDomain(table, subjects[i]), KeyedFirst(arm), i, domains[i]);
    if Wild(p) {
      var v :| Inhabits(table, subjects[i], v) && Matches(p, v);
      SelectedSome(CoverageOf(p), domains[i], OwnKey(table, subjects[i], v));
    } else {
      var k :| HasKey(p, k);
      ConvertedKeys(arm.written[i], p, k);
      assert MentionedBy(KeyedFirst(arm)[1], i, k);
      SelectedSome(CoverageOf(p), domains[i], k);
    }
  }

  lemma MissedByKeyedParts(arm: Arm, values: seq<Value>, guards: nat -> bool)
    requires !Sole(arm.checked) && ArmMatches(arm.checked, values)
    requires exists i | 0 <= i < |arm.checked| :: !MatchesKeyed(arm.checked[i], values[i])
    requires !arm.guarded || guards(1)
    ensures TakenArm(KeyedFirst(arm), values, guards, 0) == Some(1)
  {
    var arms := KeyedFirst(arm);
    var i :| 0 <= i < |arm.checked| && !MatchesKeyed(arm.checked[i], values[i]);
    KeyedPartMatches(arm.checked[i], values[i]);
    assert !Matches(arms[0].checked[i], values[i]);
    assert !ArmMatches(arms[0].checked, values);
    assert TakenArm(arms, values, guards, 1) == Some(1);
  }

  /** Both arms have the same row. */
  lemma KeyedRows(arm: Arm, subjects: nat)
    requires Fits(arm, subjects) && !Sole(arm.checked)
    ensures AllFit(KeyedFirst(arm), subjects)
    ensures Unguarded(KeyedFirst(arm)[..1], subjects) == [ArmRow(arm, subjects)]
  {
    var arms := KeyedFirst(arm);
    forall i | 0 <= i < |arm.checked|
      ensures Converted(arms[0].written[i], arms[0].checked[i])
      ensures CoverageOf(arms[0].checked[i]) == CoverageOf(arm.checked[i])
    {
      ConvertedReflexive(KeyedPart(arm.checked[i]));
      KeyedPartCoverage(arm.checked[i]);
    }
    assert ArmRow(arms[0], subjects) == ArmRow(arm, subjects);
    assert arms[..1][..0] == [] && arms[..1][0] == arms[0];
    assert Unguarded([], subjects) == [];
  }

  lemma KeyedPartsLocated(arm: Arm, at: Bounds)
    requires LocatedArm(arm, at)
    ensures forall c | 0 <= c < 2 :: LocatedArm(KeyedFirst(arm)[c], at)
  {
    forall i | 0 <= i < |arm.checked| ensures Located(KeyedPart(arm.checked[i]), at) {
      KeyedPartLocated(arm.checked[i], at);
    }
  }

  lemma {:induction false} KeyedPartLocated(p: Pattern, at: Bounds)
    requires Located(p, at)
    ensures Located(KeyedPart(p), at)
  {
    match p
    case Alternative(alternatives) =>
      forall i | 0 <= i < |alternatives| ensures Located(KeyedPart(alternatives[i]), at) {
        KeyedPartLocated(alternatives[i], at);
      }
    case _ =>
  }

  function CharacterPattern(b: Literal): Pattern {
    Alternative([LiteralPattern(IntegerLiteral("97")), LiteralPattern(b)])
  }

  /** As written, and as validation leaves it on an unsigned 32-bit subject: `97 | 'b'`. */
  function CharacterArm(): Arm {
    Arm([CharacterPattern(CharLiteral(98))], [CharacterPattern(Cast(CharLiteral(98)))], false)
  }

  /** After an arm for `97`, the arm is called unreachable, and 98 takes it. */
  lemma CharacterArmIsMisjudged(table: AliasTable, domains: Domains, guards: nat -> bool)
    requires DomainsOf(table, [PrimitiveType(U32)], KeyedFirst(CharacterArm()), domains)
    ensures AllFit(KeyedFirst(CharacterArm()), 1) && Unreachable(KeyedFirst(CharacterArm()), domains, 1)
    ensures TakenArm(KeyedFirst(CharacterArm()), [Number(98)], guards, 0) == Some(1)
  {
    CharacterMatches(table);
    CharacterPoints(table, domains);
    VisibleArmIsCalled(table, [PrimitiveType(U32)], CharacterArm(), domains);
    MissedByKeyedParts(CharacterArm(), [Number(98)], guards);
  }

  /** 98 matches the arm, not through its key. */
  lemma CharacterMatches(table: AliasTable)
    ensures Fits(CharacterArm(), 1) && !Sole(CharacterArm().checked)
    ensures AllVisible(table, [PrimitiveType(U32)], CharacterArm().checked)
    ensures ArmMatches(CharacterArm().checked, [Number(98)])
    ensures !MatchesKeyed(CharacterArm().checked[0], Number(98))
  {
    CharacterValues();
    CharacterKey();
    CharacterFits();
    assert Inhabits(table, PrimitiveType(U32), Number(98));
    assert Matchable(table, PrimitiveType(U32), CharacterArm().checked[0]);
  }

  lemma CharacterFits()
    ensures Fits(CharacterArm(), 1) && !Sole(CharacterArm().checked)
  {
    var arm := CharacterArm();
    assert Converted(arm.written[0].alternatives[0], arm.checked[0].alternatives[0]);
    assert Converted(arm.written[0].alternatives[1], arm.checked[0].alternatives[1]);
    assert Converted(arm.written[0], arm.checked[0]);
  }

  lemma CharacterPoints(table: AliasTable, domains: Domains)
    requires DomainsOf(table, [PrimitiveType(U32)], KeyedFirst(CharacterArm()), domains)
    ensures Fits(CharacterArm(), 1) && Points(ArmRow(CharacterArm(), 1), domains, 0) <= SEARCH_BUDGET
  {
    CharacterMatches(table);
    CharacterDomain(table, domains);
    var row := ArmRow(CharacterArm(), 1);
    SelectedAtMost(row[0], domains[0]);
    assert Points(row, domains, 1) == 1;
  }

  lemma CharacterValues()
    ensures
      var p := CharacterPattern(Cast(CharLiteral(98)));
      Matches(p, Number(98)) && !MatchesKeyed(p, Number(98))
  {
    var p := CharacterPattern(Cast(CharLiteral(98)));
    assert SignedValue("97") == 97 by {
      assert "97"[..1] == "9" && "9"[..0] == "";
    }
    assert Matches(p.alternatives[1], Number(98));
    assert forall i | 0 <= i < 2 :: !MatchesKeyed(p.alternatives[i], Number(98));
  }

  lemma CharacterKey()
    ensures Visible(CharacterPattern(Cast(CharLiteral(98))))
  {
    var p := CharacterPattern(Cast(CharLiteral(98)));
    assert HasKey(p.alternatives[0], IntegerKey("97"));
    assert HasKey(p, IntegerKey("97"));
  }

  /** The subject's `Other` and the two keys that the arms name. */
  lemma CharacterDomain(table: AliasTable, domains: Domains)
    requires DomainsOf(table, [PrimitiveType(U32)], KeyedFirst(CharacterArm()), domains)
    ensures |domains[0]| <= 3
  {
    var keys := [Other, IntegerKey("97"), IntegerKey(Itoa(98))];
    assert DomainOf([Other], KeyedFirst(CharacterArm()), 0, domains[0]);
    forall k | k in domains[0] ensures k in keys {
      if k != Other {
        CharacterMentions(k);
      }
    }
    DistinctKeysFit(domains[0], keys);
  }

  lemma CharacterMentions(k: Key)
    requires Mentioned(KeyedFirst(CharacterArm()), 0, k)
    ensures k == IntegerKey("97") || k == IntegerKey(Itoa(98))
  {
    SmallestMentions(CharacterArm(), 1, 0, k);
    var p := CharacterPattern(CharLiteral(98));
    var i :| 0 <= i < 2 && HasKey(p.alternatives[i], k);
  }

  /** Distinct keys taken from a list are no more than the list. */
  lemma {:induction false} DistinctKeysFit(s: seq<Key>, keys: seq<Key>)
    requires forall i, j | 0 <= i < j < |s| :: s[i] != s[j]
    requires forall k | k in s :: k in keys
    ensures |s| <= |keys|
    decreases |s|
  {
    if |s| > 0 {
      var last := |s| - 1;
      assert s[last] in keys;
      var i :| 0 <= i < |keys| && keys[i] == s[last];
      var rest := keys[..i] + keys[i + 1..];
      forall k | k in s[..last] ensures k in rest {
        assert k in s && k in keys;
        var m :| 0 <= m < |keys| && keys[m] == k;
        assert m != i;
        assert rest[if m < i then m else m - 1] == k;
      }
      DistinctKeysFit(s[..last], rest);
    }
  }

  lemma {:induction false} SelectedAtMost(c: Coverage, s: seq<Key>)
    ensures Selected(c, s) <= |s|
  {
    if s != [] {
      SelectedAtMost(c, s[..|s| - 1]);
    }
  }

  // ----- Subjects with finitely many values -----

  /** The pattern names only declared values of the type. */
  ghost predicate Declared(table: AliasTable, t: Type, p: Pattern) {
    match p
    case Wildcard => true
    case Variant(_, tagValue) => tagValue != "" && Declares(Underlying(table, {}, t), tagValue)
    case LiteralPattern(literal) => literal.BoolLiteral? && Underlying(table, {}, t) == PrimitiveType(Bool)
    case RangePattern(_, _, _, _) => false
    case Alternative(alternatives) => forall i | 0 <= i < |alternatives| :: Declared(table, t, alternatives[i])
  }

  /** An enum, a tagged union or `bool`, whose declared texts are different numbers. */
  ghost predicate Finite(table: AliasTable, t: Type) {
    && Listed(table, t)
    && var u := Underlying(table, {}, t);
       forall x, y | Declares(u, x) && Declares(u, y) && SignedValue(x) == SignedValue(y) :: x == y
  }

  lemma {:induction false} DeclaredAccepts(table: AliasTable, t: Type, p: Pattern, k: Key, v: Value)
    requires Finite(table, t) && Declared(table, t, p)
    requires k in SubjectDomain(table, t) && Means(k, v) && Matches(p, v)
    ensures Accepts(CoverageOf(p), k)
  {
    match p
    case Variant(_, tagValue) => VariantAccepts(table, t, tagValue, k, v);
    case LiteralPattern(literal) => DomainMeansValues(table, t);
    case Alternative(alternatives) =>
      var i :| 0 <= i < |alternatives| && Matches(alternatives[i], v);
      DeclaredAccepts(table, t, alternatives[i], k, v);
    case _ =>
  }

  lemma VariantAccepts(table: AliasTable, t: Type, text: string, k: Key, v: Value)
    requires Finite(table, t) && Declares(Underlying(table, {}, t), text)
    requires k in SubjectDomain(table, t) && Means(k, v) && v == Number(SignedValue(text))
    ensures k == VariantValue(text)
  {
    KeyIsDeclared(table, t, k);
  }

  /** The keys of a pattern that names declared values are in the subject's own domain. */
  lemma {:induction false} DeclaredKeys(table: AliasTable, t: Type, p: Pattern, q: Pattern, k: Key)
    requires Finite(table, t) && Converted(p, q) && Declared(table, t, q) && HasKey(p, k)
    ensures k in SubjectDomain(table, t)
  {
    match p
    case Variant(_, tagValue) => DeclaredHasKey(table, t, tagValue);
    case LiteralPattern(literal) =>
      assert SubjectDomain(table, t)[if literal.truth then 0 else 1] == BoolKey(literal.truth);
    case Alternative(alternatives) =>
      var i :| 0 <= i < |alternatives| && HasKey(alternatives[i], k);
      DeclaredKeys(table, t, alternatives[i], q.alternatives[i], k);
    case _ =>
  }

  ghost predicate DeclaredArm(table: AliasTable, subjects: seq<Type>, arm: Arm) {
    Sole(arm.checked) ||
    (|arm.checked| == |subjects| &&
     forall i | 0 <= i < |subjects| :: Declared(table, subjects[i], arm.checked[i]))
  }

  /** Arms that name declared values add no key to a domain. */
  lemma DeclaredDomain(table: AliasTable, subjects: seq<Type>, arms: seq<Arm>, domains: Domains, i: nat)
    requires AllFit(arms, |subjects|) && DomainsOf(table, subjects, arms, domains) && i < |subjects|
    requires Finite(table, subjects[i]) && forall a | 0 <= a < |arms| :: DeclaredArm(table, subjects, arms[a])
    ensures domains[i] == SubjectDomain(table, subjects[i])
  {
    var base := SubjectDomain(table, subjects[i]);
    assert DomainOf(base, arms, i, domains[i]);
    forall k | k in domains[i] ensures k in base {
      if Mentioned(arms, i, k) {
        var a :| 0 <= a < |arms| && MentionedBy(arms[a], i, k);
        WrittenIsDeclared(table, subjects, arms[a], i, k);
      }
    }
    LargerHasMore(base, domains[i]);
  }

  lemma LargerHasMore(base: seq<Key>, domain: seq<Key>)
    requires Extends(base, domain)
    ensures domain == base || exists k :: k in domain && k !in base
  {
    if |domain| > |base| {
      var k := domain[|base|];
      assert k in domain && forall j | 0 <= j < |base| :: base[j] == domain[j];
    }
  }

  lemma WrittenIsDeclared(table: AliasTable, subjects: seq<Type>, arm: Arm, i: nat, k: Key)
    requires Fits(arm, |subjects|) && DeclaredArm(table, subjects, arm) && i < |subjects|
    requires Finite(table, subjects[i]) && MentionedBy(arm, i, k)
    ensures k in SubjectDomain(table, subjects[i])
  {
    assert Converted(arm.written[i], arm.checked[i]);
    DeclaredKeys(table, subjects[i], arm.written[i], arm.checked[i], k);
  }

  /**
    Within the budget, the verdict on a match over finite subjects is exact: what
    is not called exhaustive has a tuple of values that no unguarded arm matches.
   */
  lemma FiniteVerdictIsExact(table: AliasTable, subjects: seq<Type>, arms: seq<Arm>, domains: Domains)
    returns (values: seq<Value>)
    requires AllFit(arms, |subjects|) && DomainsOf(table, subjects, arms, domains)
    requires forall i | 0 <= i < |subjects| :: Finite(table, subjects[i])
    requires forall a | 0 <= a < |arms| :: DeclaredArm(table, subjects, arms[a])
    requires Points(AnyRow(|domains|), domains, 0) <= SEARCH_BUDGET
    requires !Exhaustive(Unguarded(arms, |subjects|), domains)
    ensures AllInhabit(table, subjects, values)
    ensures forall a | 0 <= a < |arms| && !arms[a].guarded :: !ArmMatches(arms[a].checked, values)
  {
    forall i | 0 <= i < |subjects| ensures domains[i] == SubjectDomain(table, subjects[i]) {
      DeclaredDomain(table, subjects, arms, domains, i);
    }
    var rows := Unguarded(arms, |subjects|);
    SearchIsExact(rows, AnyRow(|domains|), domains);
    var point :| TargetPoint(AnyRow(|domains|), domains, point) && !PointCovered(rows, point);
    values := MeantValues(table, subjects, point);
    forall a | 0 <= a < |arms| && !arms[a].guarded ensures !ArmMatches(arms[a].checked, values) {
      if ArmMatches(arms[a].checked, values) {
        DeclaredArmCovers(table, subjects, arms[a], point, values);
        UnguardedHasRow(arms, |subjects|, a);
      }
    }
  }

  function MeaningOf(k: Key): Value {
    match k
    case VariantValue(text) => Number(SignedValue(text))
    case BoolKey(truth) => Truth(truth)
    case _ => Opaque(0)
  }

  lemma MeantValues(table: AliasTable, subjects: seq<Type>, point: seq<Key>) returns (values: seq<Value>)
    requires |point| == |subjects|
    requires forall i | 0 <= i < |subjects| ::
      Listed(table, subjects[i]) && point[i] in SubjectDomain(table, subjects[i])
    ensures AllInhabit(table, subjects, values) && forall i | 0 <= i < |point| :: Means(point[i], values[i])
  {
    values := seq(|point|, i requires 0 <= i < |point| => MeaningOf(point[i]));
    forall i | 0 <= i < |point| ensures Means(point[i], values[i]) && Inhabits(table, subjects[i], values[i]) {
      DomainMeansValues(table, subjects[i]);
    }
  }

  lemma DeclaredArmCovers(table: AliasTable, subjects: seq<Type>, arm: Arm, point: seq<Key>, values: seq<Value>)
    requires Fits(arm, |subjects|) && DeclaredArm(table, subjects, arm) && ArmMatches(arm.checked, values)
    requires |subjects| == |point| == |values|
    requires forall i | 0 <= i < |subjects| ::
      Finite(table, subjects[i]) && point[i] in SubjectDomain(table, subjects[i]) && Means(point[i], values[i])
    ensures RowCovers(ArmRow(arm, |subjects|), point)
  {
    if !Sole(arm.checked) {
      forall i | 0 <= i < |subjects| ensures Accepts(CoverageOf(arm.checked[i]), point[i]) {
        DeclaredAccepts(table, subjects[i], arm.checked[i], point[i], values[i]);
      }
    }
  }
}
