/**
  What the identity text of a type determines (types/type.go).

  The text is a cache key and a part of symbol names, so two types that share it
  share an instance.  Under mild conditions on names it can be read in one way
  only, and it determines exactly the `Reading` of the type.
 */
module IdentityLaws {
  import opened Decimal
  import opened Types
  import opened TypeEquality

  // ----- What Identity reads -----

  /**
    The type without what its identity text leaves out: the name and the body of a
    generic instance, the representation of other nominal types, the target of a
    reference, whether a function is variadic, values and variants, and the methods
    of a trait.
   */
  ghost function Reading(t: Type): Type
    decreases t
  {
    match t
    case TypeParameter(p) => TypeParameter(Parameter(p.owner, "", p.index, NoType))
    case DefinedType(moduleName, name, _, genericName, arguments) =>
      if genericName == "" then DefinedType(moduleName, name, NoType, "", [])
      else DefinedType(moduleName, "", NoType, genericName, ReadingAll(arguments))
    case AliasRef(moduleName, name, _) => AliasRef(moduleName, name, None)
    case PointerType(base, mutable) => PointerType(Reading(base), mutable)
    case SliceType(base, mutable) => SliceType(Reading(base), mutable)
    case ArrayType(base, length) => ArrayType(Reading(base), length)
    case SequenceType(_, _) => SequenceType(NoType, 0)
    case FunctionType(parameters, returnType, _, _) =>
      FunctionType(ReadingAll(parameters), Reading(returnType), false, NoType)
    case MultipleReturnType(items) => MultipleReturnType(ReadingAll(items))
    case StructType(fields, packed, _) => StructType(ReadingFields(fields), packed, None)
    case UnionType(moduleName, name, _) => UnionType(moduleName, name, [])
    case EnumType(_, _, _, _, _) => EnumType("", "", EnumText(t), [], [])
    case FlagsType(underlying, _, _) => FlagsType(underlying, [], [])
    case TraitType(d) => TraitType(TraitDefinition("", TraitText(d), [], false))
    case TraitPointerType(d, mutable) => TraitPointerType(TraitDefinition("", TraitText(d), [], false), mutable)
    case _ => t
  }

  ghost function ReadingAll(ts: seq<Type>): seq<Type>
    decreases ts
  {
    if ts == [] then [] else [Reading(ts[0])] + ReadingAll(ts[1..])
  }

  ghost function ReadingFields(fs: seq<Field>): seq<Field>
    decreases fs
  {
    if fs == [] then [] else [Field(fs[0].fieldName, Reading(fs[0].typ))] + ReadingFields(fs[1..])
  }

  function EnumText(t: Type): string
    requires t.EnumType?
  {
    if t.identityName != "" then t.identityName else t.moduleName + ":" + t.name
  }

  // ----- Names -----

  const STOPS: set<char> := {'(', ')', ',', '<', '>'}

  predicate Clean(s: string, stops: set<char>) {
    forall i | 0 <= i < |s| :: s[i] !in stops
  }

  predicate Stopped(s: string, stops: set<char>) {
    s != "" ==> s[0] in stops
  }

  /** A text splits in only one way at its first stop. */
  lemma SplitClean(a: string, b: string, c: string, d: string, stops: set<char>)
    requires Clean(a, stops) && Clean(c, stops) && Stopped(b, stops) && Stopped(d, stops) && a + b == c + d
    ensures a == c && b == d
  {
    NotShorter(a, b, c, d, stops);
    NotShorter(c, d, a, b, stops);
    var s := a + b;
    assert a == s[..|a|] && c == s[..|c|];
    assert b == s[|a|..] && d == s[|c|..];
  }

  lemma NotShorter(a: string, b: string, c: string, d: string, stops: set<char>)
    requires Clean(c, stops) && Stopped(b, stops) && a + b == c + d
    ensures |c| <= |a|
  {
    var s := a + b;
    assert b != "" ==> s[|a|] == b[0];
    assert forall i | 0 <= i < |c| :: s[i] == c[i];
  }

  /** Modules and names that the text can hold: no stops, and no colon in the last part. */
  predicate CleanName(moduleName: string, name: string) {
    Clean(moduleName, STOPS) && Clean(name, STOPS) && ':' !in name
  }

  /** The names in the type keep its text readable. */
  ghost predicate Spelled(t: Type)
    decreases t
  {
    match t
    case TypeParameter(p) => ')' !in p.owner
    case DefinedType(moduleName, name, _, genericName, arguments) =>
      if genericName == "" then CleanName(moduleName, name)
      else CleanName(moduleName, genericName) && SpelledAll(arguments)
    case AliasRef(moduleName, name, _) => ')' !in moduleName && ')' !in name && ':' !in name
    case PointerType(base, _) => Spelled(base)
    case SliceType(base, _) => Spelled(base)
    case ArrayType(base, _) => Spelled(base)
    case FunctionType(parameters, returnType, _, _) => SpelledAll(parameters) && Spelled(returnType)
    case MultipleReturnType(items) => SpelledAll(items)
    case StructType(fields, _, _) => SpelledFields(fields)
    case UnionType(moduleName, name, _) => ')' !in moduleName && ')' !in name && ':' !in name
    case EnumType(_, _, _, _, _) => ')' !in EnumText(t)
    case TraitType(d) => ')' !in TraitText(d)
    case TraitPointerType(d, _) => ')' !in TraitText(d)
    case _ => true
  }

  ghost predicate SpelledAll(ts: seq<Type>)
    decreases ts
  {
    ts != [] ==> Spelled(ts[0]) && SpelledAll(ts[1..])
  }

  ghost predicate SpelledFields(fs: seq<Field>)
    decreases fs
  {
    fs != [] ==>
      Clean(fs[0].fieldName, STOPS) && ':' !in fs[0].fieldName && Spelled(fs[0].typ) && SpelledFields(fs[1..])
  }

  // ----- The text by its parts -----

  /** The constructors, as far as their texts begin differently. */
  ghost function Group(t: Type): (g: nat)
    ensures g < 18
  {
    match t
    case SelfType => 1
    case OpaqueType => 2
    case TypeParameter(_) => 3
    case DefinedType(_, _, _, _, _) => 4
    case AliasRef(_, _, _) => 5
    case PointerType(_, _) => 6
    case SliceType(_, _) => 7
    case ArrayType(_, _) => 8
    case FunctionType(_, _, _, _) => 9
    case MultipleReturnType(_) => 10
    case PrimitiveType(_) => 11
    case StructType(_, _, _) => 12
    case UnionType(_, _, _) => 13
    case EnumType(_, _, _, _, _) => 14
    case FlagsType(_, _, _) => 15
    case TraitType(_) => 16
    case TraitPointerType(_, _) => 17
    case _ => 0
  }

  ghost function Tag(g: nat): string {
    match g
    case 1 => "trait-self"
    case 2 => "opaque"
    case 3 => "param"
    case 4 => "defined"
    case 5 => "alias"
    case 6 => "ptr"
    case 7 => "slice"
    case 8 => "array"
    case 9 => "fn"
    case 10 => "multi"
    case 11 => "primitive"
    case 12 => "struct"
    case 13 => "union"
    case 14 => "enum"
    case 15 => "flags"
    case 16 => "trait"
    case 17 => "dyn"
    case _ => ""
  }

  lemma TagIsClean(g: nat)
    ensures Clean(Tag(g), STOPS) && ':' !in Tag(g)
  {
  }

  lemma TagDecides(g: nat, h: nat)
    requires g < 18 && h < 18 && Tag(g) == Tag(h)
    ensures g == h
  {
    var s, t := Tag(g), Tag(h);
    assert |s| == |t|;
    if |s| > 1 {
      assert s[0] == t[0] && s[1] == t[1];
    }
  }

  ghost function Texts(ts: seq<Type>): string
    decreases ts, 1
  {
    if ts == [] then "" else Identity(ts[0]) + Tail(ts[1..])
  }

  ghost function Tail(ts: seq<Type>): string
    decreases ts, 2
  {
    if ts == [] then "" else "," + Texts(ts)
  }

  ghost function FieldTexts(fs: seq<Field>): string
    decreases fs, 1
  {
    if fs == [] then "" else fs[0].fieldName + (":" + (Identity(fs[0].typ) + FieldTail(fs[1..])))
  }

  ghost function FieldTail(fs: seq<Field>): string
    decreases fs, 2
  {
    if fs == [] then "" else "," + FieldTexts(fs)
  }

  /** What follows the tag. */
  ghost function Rest(t: Type): string {
    match t
    case SelfType | OpaqueType => ""
    case TypeParameter(p) => "(" + (p.Key() + ")")
    case DefinedType(moduleName, name, _, genericName, arguments) =>
      if genericName == "" then "(" + (moduleName + ":" + name + ")")
      else "(" + (moduleName + ":" + genericName + ("<" + (Texts(arguments) + ">)")))
    case AliasRef(moduleName, name, _) => "(" + (moduleName + ":" + name + ")")
    case PointerType(base, mutable) => "(" + (MutText(mutable) + Identity(base) + ")")
    case SliceType(base, mutable) => "(" + (MutText(mutable) + Identity(base) + ")")
    case ArrayType(base, length) => "(" + (Itoa(length) + ":" + Identity(base) + ")")
    case FunctionType(parameters, returnType, _, _) => "(" + (Texts(parameters) + (")->" + Identity(returnType)))
    case MultipleReturnType(items) => "(" + (Texts(items) + ")")
    case PrimitiveType(p) => "(" + (PrimitiveName(p) + ")")
    case StructType(fields, packed, _) => "(" + (PackedText(packed) + FieldTexts(fields) + ")")
    case UnionType(moduleName, name, _) => "(" + (moduleName + ":" + name + ")")
    case EnumType(_, _, _, _, _) => "(" + (EnumText(t) + ")")
    case FlagsType(underlying, _, _) => "(" + ("flags(" + PrimitiveName(underlying) + "))")
    case TraitType(d) => "(" + (TraitText(d) + ")")
    case TraitPointerType(d, mutable) => "(" + (MutText(mutable) + "trait(" + TraitText(d) + "))")
    case _ => Identity(t)
  }

  lemma {:induction false} JoinedTexts(ts: seq<Type>)
    ensures Join(seq(|ts|, i requires 0 <= i < |ts| => Identity(ts[i]))) == Texts(ts)
    decreases ts
  {
    var parts := seq(|ts|, i requires 0 <= i < |ts| => Identity(ts[i]));
    if |ts| > 1 {
      var rest := ts[1..];
      JoinedTexts(rest);
      assert parts[1..] == seq(|rest|, i requires 0 <= i < |rest| => Identity(rest[i]));
      JoinedNext(parts);
    }
  }

  lemma JoinedNext(parts: seq<string>)
    requires |parts| > 1
    ensures Join(parts) == parts[0] + ("," + Join(parts[1..]))
  {
  }

  lemma {:induction false} JoinedFields(fs: seq<Field>)
    ensures
      Join(seq(|fs|, i requires 0 <= i < |fs| => fs[i].fieldName + ":" + Identity(fs[i].typ))) == FieldTexts(fs)
    decreases fs
  {
    var parts := seq(|fs|, i requires 0 <= i < |fs| => fs[i].fieldName + ":" + Identity(fs[i].typ));
    if |fs| > 1 {
      var rest := fs[1..];
      JoinedFields(rest);
      assert parts[1..] == seq(|rest|, i requires 0 <= i < |rest| => rest[i].fieldName + ":" + Identity(rest[i].typ));
      JoinedNext(parts);
    }
  }

  /** The text begins with a tag, and goes on with a stop or not at all. */
  ghost predicate Opens(s: string, g: nat, rest: string) {
    s == Tag(g) + rest && Stopped(rest, STOPS)
  }

  ghost predicate Tagged(t: Type) {
    Opens(Identity(t), Group(t), Rest(t))
  }

  lemma OpensBracket(s: string, g: nat, inner: string)
    requires s == Tag(g) + ("(" + inner)
    ensures Opens(s, g, "(" + inner)
  {
  }

  lemma ParameterText(k: string)
    ensures "param(" + k + ")" == "param" + ("(" + (k + ")"))
  {
  }

  lemma ParameterIsTagged(p: Parameter)
    ensures Tagged(TypeParameter(p))
  {
    ParameterText(p.Key());
  }

  lemma AliasText(m: string, n: string)
    ensures "alias(" + m + ":" + n + ")" == "alias" + ("(" + (m + ":" + n + ")"))
  {
  }

  lemma AliasIsTagged(t: Type)
    requires t.AliasRef?
    ensures Tagged(t)
  {
    AliasText(t.moduleName, t.name);
  }

  lemma UnionText(m: string, n: string)
    ensures "union(" + m + ":" + n + ")" == "union" + ("(" + (m + ":" + n + ")"))
  {
  }

  lemma UnionIsTagged(t: Type)
    requires t.UnionType?
    ensures Tagged(t)
  {
    UnionText(t.moduleName, t.name);
  }

  lemma PointerText(m: string, s: string)
    ensures "ptr(" + m + s + ")" == "ptr" + ("(" + (m + s + ")"))
  {
  }

  lemma PointerIsTagged(base: Type, mutable: bool)
    ensures Tagged(PointerType(base, mutable))
  {
    PointerText(MutText(mutable), Identity(base));
    OpensBracket(Identity(PointerType(base, mutable)), 6, MutText(mutable) + Identity(base) + ")");
  }

  lemma SliceText(m: string, s: string)
    ensures "slice(" + m + s + ")" == "slice" + ("(" + (m + s + ")"))
  {
  }

  lemma SliceIsTagged(base: Type, mutable: bool)
    ensures Tagged(SliceType(base, mutable))
  {
    SliceText(MutText(mutable), Identity(base));
    OpensBracket(Identity(SliceType(base, mutable)), 7, MutText(mutable) + Identity(base) + ")");
  }

  lemma ArrayText(n: string, s: string)
    ensures "array(" + n + ":" + s + ")" == "array" + ("(" + (n + ":" + s + ")"))
  {
  }

  lemma ArrayIsTagged(base: Type, length: int)
    ensures Tagged(ArrayType(base, length))
  {
    ArrayText(Itoa(length), Identity(base));
    OpensBracket(Identity(ArrayType(base, length)), 8, Itoa(length) + ":" + Identity(base) + ")");
  }

  lemma EnumIsTagged(t: Type)
    requires t.EnumType?
    ensures Tagged(t)
  {
  }

  lemma FlagsIsTagged(t: Type)
    requires t.FlagsType?
    ensures Tagged(t)
  {
    var p := PrimitiveName(t.flagsUnderlying);
    assert "flags(flags(" + p + "))" == "flags" + ("(" + ("flags(" + p + "))"));
  }

  lemma TraitPointerIsTagged(t: Type)
    requires t.TraitPointerType?
    ensures Tagged(t)
  {
  }

  lemma DefinedIsTagged(t: Type)
    requires t.DefinedType?
    ensures Tagged(t)
  {
    JoinedTexts(t.typeArguments);
  }

  lemma FunctionIsTagged(t: Type)
    requires t.FunctionType?
    ensures Tagged(t)
  {
    JoinedTexts(t.parameters);
  }

  lemma MultipleIsTagged(t: Type)
    requires t.MultipleReturnType?
    ensures Tagged(t)
  {
    JoinedTexts(t.items);
  }

  lemma StructText(p: string, s: string)
    ensures "struct(" + p + s + ")" == "struct" + ("(" + (p + s + ")"))
  {
  }

  lemma StructIsTagged(t: Type)
    requires t.StructType?
    ensures Tagged(t)
  {
    JoinedFields(t.fields);
    StructText(PackedText(t.packed), FieldTexts(t.fields));
  }

  lemma PrimitiveText(s: string)
    ensures "primitive(" + s + ")" == "primitive" + ("(" + (s + ")"))
  {
  }

  lemma PrimitiveIsTagged(p: Primitive)
    ensures Tagged(PrimitiveType(p))
  {
    PrimitiveText(PrimitiveName(p));
  }

  lemma OtherIsTagged(t: Type)
    requires Group(t) in {0, 1, 2, 16}
    ensures Tagged(t)
  {
  }

  lemma TextIsTagged(t: Type)
    ensures Tagged(t)
  {
    match t
    case TypeParameter(p) => ParameterIsTagged(p);
    case AliasRef(_, _, _) => AliasIsTagged(t);
    case UnionType(_, _, _) => UnionIsTagged(t);
    case PointerType(base, mutable) => PointerIsTagged(base, mutable);
    case SliceType(base, mutable) => SliceIsTagged(base, mutable);
    case ArrayType(base, length) => ArrayIsTagged(base, length);
    case PrimitiveType(p) => PrimitiveIsTagged(p);
    case EnumType(_, _, _, _, _) => EnumIsTagged(t);
    case FlagsType(_, _, _) => FlagsIsTagged(t);
    case TraitPointerType(_, _) => TraitPointerIsTagged(t);
    case DefinedType(_, _, _, _, _) => DefinedIsTagged(t);
    case FunctionType(_, _, _, _) => FunctionIsTagged(t);
    case MultipleReturnType(_) => MultipleIsTagged(t);
    case StructType(_, _, _) => StructIsTagged(t);
    case _ => OtherIsTagged(t);
  }

  lemma Starts(t: Type)
    ensures Identity(t) != "" && Identity(t)[0] !in {')', '>', ','}
  {
    if Group(t) == 0 {
      AtomMarks(t);
    } else {
      TextIsTagged(t);
      TaggedStarts(Identity(t), Group(t), Rest(t));
    }
  }

  lemma TaggedStarts(s: string, g: nat, rest: string)
    requires Opens(s, g, rest) && 0 < g < 18
    ensures s != "" && s[0] !in {')', '>', ','}
  {
    TagIsClean(g);
    assert Tag(g) != "" && s[0] == Tag(g)[0];
  }

  // ----- Reading a text back -----

  /** What may follow a type, and what may follow the last one of a list. */
  predicate After(x: string) {
    Stopped(x, {',', ')', '>'})
  }

  predicate End(x: string) {
    Stopped(x, {')', '>'})
  }

  lemma SameTag(s: string, g: nat, r: string, x: string, t: string, h: nat, q: string, y: string)
    requires Opens(s, g, r) && Opens(t, h, q) && After(x) && After(y) && s + x == t + y
    ensures Tag(g) == Tag(h) && r + x == q + y
  {
    TagIsClean(g);
    TagIsClean(h);
    assert Tag(g) + (r + x) == s + x;
    assert Tag(h) + (q + y) == t + y;
    SplitClean(Tag(g), r + x, Tag(h), q + y, STOPS);
  }

  lemma SameGroup(t: Type, u: Type, x: string, y: string)
    requires After(x) && After(y) && Identity(t) + x == Identity(u) + y
    ensures Group(t) == Group(u) && Rest(t) + x == Rest(u) + y
  {
    TextIsTagged(t);
    TextIsTagged(u);
    SameTag(Identity(t), Group(t), Rest(t), x, Identity(u), Group(u), Rest(u), y);
    TagDecides(Group(t), Group(u));
  }

  /** The same beginning can be dropped. */
  lemma Drop(a: string, x: string, y: string)
    requires a + x == a + y
    ensures x == y
  {
    assert x == (a + x)[|a|..] && y == (a + y)[|a|..];
  }

  lemma Regroup(a: string, b: string, c: string)
    ensures a + b + c == a + (b + c)
  {
  }

  /** The same, inside what something follows. */
  lemma Cut(a: string, p: string, x: string, q: string, y: string)
    requires a + p + x == a + q + y
    ensures p + x == q + y
  {
    Regroup(a, p, x);
    Regroup(a, q, y);
    Drop(a, p + x, q + y);
  }

  /** The same, in two steps. */
  lemma CutOpen(a: string, p: string, r: string, x: string, q: string, s: string, y: string)
    requires a + (p + r) + x == a + (q + s) + y
    ensures p + (r + x) == q + (s + y)
  {
    Cut(a, p + r, x, q + s, y);
    Regroup(p, r, x);
    Regroup(q, s, y);
  }

  /** A text in brackets that holds no closing one. */
  lemma Payload(p: string, x: string, q: string, y: string)
    requires ')' !in p && ')' !in q && "(" + (p + ")") + x == "(" + (q + ")") + y
    ensures p == q && x == y
  {
    CutOpen("(", p, ")", x, q, ")", y);
    SplitClean(p, ")" + x, q, ")" + y, {')'});
    Drop(")", x, y);
  }

  /** No colon comes before the tag of a type. */
  lemma NoColonBeforeTag(p: string, s: string, g: nat, r: string, x: string, t: string, h: nat, q: string, y: string)
    requires Opens(s, g, r) && Opens(t, h, q) && After(x) && After(y)
    requires Clean(p, STOPS) && p + (s + x) == t + y
    ensures ':' !in p
  {
    TagIsClean(g);
    TagIsClean(h);
    assert p + Tag(g) + (r + x) == p + (s + x);
    assert Tag(h) + (q + y) == t + y;
    SplitClean(p + Tag(g), r + x, Tag(h), q + y, STOPS);
    assert p <= Tag(h);
  }

  lemma NoColonBeforeType(p: string, a: Type, x: string, b: Type, y: string)
    requires Clean(p, STOPS) && After(x) && After(y) && p + (Identity(a) + x) == Identity(b) + y
    ensures ':' !in p
  {
    TextIsTagged(a);
    TextIsTagged(b);
    NoColonBeforeTag(p, Identity(a), Group(a), Rest(a), x, Identity(b), Group(b), Rest(b), y);
  }

  lemma MutabilityRead(a: Type, m: bool, x: string, b: Type, n: bool, y: string)
    requires After(x) && After(y) && MutText(m) + Identity(a) + x == MutText(n) + Identity(b) + y
    ensures m == n && Identity(a) + x == Identity(b) + y
  {
    Regroup(MutText(m), Identity(a), x);
    Regroup(MutText(n), Identity(b), y);
    if m == n {
      Drop(MutText(m), Identity(a) + x, Identity(b) + y);
    } else if m {
      NotMutable(a, x, b, y);
    } else {
      NotMutable(b, y, a, x);
    }
  }

  lemma NotMutable(a: Type, x: string, b: Type, y: string)
    requires After(x) && After(y)
    ensures MutText(true) + (Identity(a) + x) != MutText(false) + (Identity(b) + y)
  {
    var s := Identity(b) + y;
    assert MutText(false) + s == s;
    assert MutText(true)[3] == ':';
    if MutText(true) + (Identity(a) + x) == s {
      NoColonBeforeType(MutText(true), a, x, b, y);
    }
  }

  lemma ColonRead(a: string, x: string, b: string, y: string)
    requires ':' !in a && ':' !in b && a + ":" + x == b + ":" + y
    ensures a == b && x == y
  {
    assert a + ":" + x == a + (":" + x);
    assert b + ":" + y == b + (":" + y);
    SplitClean(a, ":" + x, b, ":" + y, {':'});
    Drop(":", x, y);
  }

  lemma LengthRead(m: int, x: string, n: int, y: string)
    requires Itoa(m) + ":" + x == Itoa(n) + ":" + y
    ensures m == n && x == y
  {
    ItoaHasNo(m, ':');
    ItoaHasNo(n, ':');
    ColonRead(Itoa(m), x, Itoa(n), y);
    ItoaInjective(m, n);
  }

  lemma ArrayRead(m: int, s: string, x: string, n: int, t: string, y: string)
    requires "(" + (Itoa(m) + ":" + s + ")") + x == "(" + (Itoa(n) + ":" + t + ")") + y
    ensures m == n && s + (")" + x) == t + (")" + y)
  {
    var a, b := Itoa(m) + ":", Itoa(n) + ":";
    CutOpen("(", a + s, ")", x, b + t, ")", y);
    Regroup(a, s, ")" + x);
    Regroup(b, t, ")" + y);
    LengthRead(m, s + (")" + x), n, t + (")" + y));
  }

  lemma PrimitiveRead(p: Primitive, q: Primitive)
    requires PrimitiveName(p) == PrimitiveName(q)
    ensures p == q
  {
    var s, t := PrimitiveName(p), PrimitiveName(q);
    assert s[0] == t[0] && s[1] == t[1];
  }

  lemma PrimitiveIsClean(p: Primitive)
    ensures ')' !in PrimitiveName(p)
  {
  }

  // ----- Types without parts -----

  ghost predicate Alike(t: Type, u: Type, x: string, y: string) {
    Reading(t) == Reading(u) && x == y
  }

  /** Three places tell the texts in angle brackets apart. */
  ghost predicate SamePlaces(s: string, r: string)
    requires |s| > 3 && |r| > 3
  {
    s[1] == r[1] && s[3] == r[3] && (|s| > 9 && |r| > 9 ==> s[9] == r[9])
  }

  ghost function Marks(t: Type): (char, char) {
    match t
    case NoType => ('n', 'l')
    case SequenceType(_, _) => ('a', 'r')
    case ErrorType => ('e', 'r')
    case UnresolvedEnum => ('u', 'r')
    case NoInitializerType => ('n', ' ')
    case _ => ('u', 't')
  }

  lemma AtomMarks(t: Type)
    requires Group(t) == 0
    ensures |Identity(t)| > 3 && Identity(t)[0] == '<'
    ensures Identity(t)[1] == Marks(t).0 && Identity(t)[3] == Marks(t).1
  {
  }

  lemma AtomsDiffer(t: Type, u: Type)
    requires Group(t) == 0 && Group(u) == 0
    ensures |Identity(t)| > 3 && |Identity(u)| > 3
    ensures SamePlaces(Identity(t), Identity(u)) ==> Reading(t) == Reading(u)
  {
    AtomMarks(t);
    AtomMarks(u);
  }

  lemma AtomUnique(t: Type, u: Type, x: string, y: string)
    requires Group(t) == 0 && Group(u) == 0 && Identity(t) + x == Identity(u) + y
    ensures Alike(t, u, x, y)
  {
    AtomsDiffer(t, u);
    PlacesStay(Identity(t), x, Identity(u), y);
    TextOfReading(t);
    TextOfReading(u);
    Drop(Identity(t), x, y);
  }

  lemma PlacesStay(s: string, x: string, r: string, y: string)
    requires |s| > 3 && |r| > 3 && s + x == r + y
    ensures SamePlaces(s, r)
  {
    var whole := s + x;
    assert s[1] == whole[1] && s[3] == whole[3] && (|s| > 9 ==> s[9] == whole[9]);
    assert r[1] == whole[1] && r[3] == whole[3] && (|r| > 9 ==> r[9] == whole[9]);
  }

  lemma ParameterUnique(p: Parameter, q: Parameter, x: string, y: string)
    requires ')' !in p.owner && ')' !in q.owner && "(" + (p.Key() + ")") + x == "(" + (q.Key() + ")") + y
    ensures p.owner == q.owner && p.index == q.index && x == y
  {
    ItoaHasNo(p.index, ')');
    ItoaHasNo(q.index, ')');
    Payload(p.Key(), x, q.Key(), y);
    KeyIdentifiesParameter(p, q);
  }

  lemma NameUnique(m: string, a: string, x: string, n: string, b: string, y: string)
    requires ')' !in m && ')' !in a && ':' !in a && ')' !in n && ')' !in b && ':' !in b
    requires "(" + (m + ":" + a + ")") + x == "(" + (n + ":" + b + ")") + y
    ensures m == n && a == b && x == y
  {
    Payload(m + ":" + a, x, n + ":" + b, y);
    LastSeparator(m, a, n, b, ':');
  }

  lemma PrimitiveUnique(p: Primitive, q: Primitive, x: string, y: string)
    requires "(" + (PrimitiveName(p) + ")") + x == "(" + (PrimitiveName(q) + ")") + y
    ensures p == q && x == y
  {
    PrimitiveIsClean(p);
    PrimitiveIsClean(q);
    Payload(PrimitiveName(p), x, PrimitiveName(q), y);
    PrimitiveRead(p, q);
  }

  /** A text in two closing brackets, after a fixed beginning. */
  lemma DoublePayload(open: string, p: string, x: string, q: string, y: string)
    requires ')' !in p && ')' !in q && "(" + (open + p + "))") + x == "(" + (open + q + "))") + y
    ensures p == q && x == y
  {
    CutOpen("(", open + p, "))", x, open + q, "))", y);
    Cut(open, p, "))" + x, q, "))" + y);
    SplitClean(p, "))" + x, q, "))" + y, {')'});
    Drop("))", x, y);
  }

  lemma TraitPointerUnique(p: string, m: bool, x: string, q: string, n: bool, y: string)
    requires ')' !in p && ')' !in q
    requires "(" + (MutText(m) + "trait(" + p + "))") + x == "(" + (MutText(n) + "trait(" + q + "))") + y
    ensures p == q && m == n && x == y
  {
    assert ("(" + (MutText(m) + "trait(" + p + "))") + x)[1] == if m then 'm' else 't';
    assert ("(" + (MutText(n) + "trait(" + q + "))") + y)[1] == if n then 'm' else 't';
    DoublePayload(MutText(m) + "trait(", p, x, q, y);
  }

  lemma FlagsUnique(p: Primitive, q: Primitive, x: string, y: string)
    requires "(" + ("flags(" + PrimitiveName(p) + "))") + x == "(" + ("flags(" + PrimitiveName(q) + "))") + y
    ensures p == q && x == y
  {
    PrimitiveIsClean(p);
    PrimitiveIsClean(q);
    DoublePayload("flags(", PrimitiveName(p), x, PrimitiveName(q), y);
    PrimitiveRead(p, q);
  }

  ghost predicate Leaf(t: Type) {
    Group(t) in {0, 1, 2, 3, 5, 11, 13, 14, 15, 16, 17}
  }

  lemma LeafUnique(t: Type, u: Type, x: string, y: string)
    requires Spelled(t) && Spelled(u) && Leaf(t) && Group(t) == Group(u) && Rest(t) + x == Rest(u) + y
    ensures Alike(t, u, x, y)
  {
    match t
    case SelfType | OpaqueType => Drop("", x, y);
    case TypeParameter(p) => ParameterUnique(p, u.parameter, x, y);
    case AliasRef(moduleName, name, _) => NameUnique(moduleName, name, x, u.moduleName, u.name, y);
    case UnionType(moduleName, name, _) => NameUnique(moduleName, name, x, u.moduleName, u.name, y);
    case PrimitiveType(p) => PrimitiveUnique(p, u.primitive, x, y);
    case EnumType(_, _, _, _, _) => Payload(EnumText(t), x, EnumText(u), y);
    case FlagsType(p, _, _) => FlagsUnique(p, u.flagsUnderlying, x, y);
    case TraitType(d) => Payload(TraitText(d), x, TraitText(u.definition), y);
    case TraitPointerType(d, mutable) =>
      TraitPointerUnique(TraitText(d), mutable, x, TraitText(u.definition), u.mutable, y);
    case _ => AtomUnique(t, u, x, y);
  }

  // ----- Types with parts -----

  function LastName(t: Type): string
    requires t.DefinedType?
  {
    if t.genericName == "" then t.name else t.genericName
  }

  /** The names before the arguments, if there are any, and what follows them. */
  ghost function Head(t: Type): string
    requires t.DefinedType?
  {
    t.moduleName + ":" + LastName(t)
  }

  ghost function Rear(t: Type): string
    requires t.DefinedType?
  {
    if t.genericName == "" then ")" else "<" + (Texts(t.typeArguments) + ">)")
  }

  lemma HeadAndRear(t: Type)
    requires t.DefinedType?
    ensures Rest(t) == "(" + (Head(t) + Rear(t))
  {
    if t.genericName != "" {
      Regroup(t.moduleName + ":", t.genericName, Rear(t));
      Regroup(t.moduleName, ":", t.genericName);
    }
  }

  lemma HeadIsClean(t: Type)
    requires t.DefinedType? && Spelled(t)
    ensures Clean(Head(t), STOPS)
  {
  }

  lemma RearStarts(t: Type)
    requires t.DefinedType?
    ensures Rear(t) != "" && Rear(t)[0] == if t.genericName == "" then ')' else '<'
  {
  }

  lemma HeadRead(t: Type, u: Type, x: string, y: string)
    requires t.DefinedType? && u.DefinedType? && Spelled(t) && Spelled(u) && Rest(t) + x == Rest(u) + y
    ensures Head(t) == Head(u) && Rear(t) + x == Rear(u) + y
  {
    HeadAndRear(t);
    HeadAndRear(u);
    CutOpen("(", Head(t), Rear(t), x, Head(u), Rear(u), y);
    HeadIsClean(t);
    HeadIsClean(u);
    RearStarts(t);
    RearStarts(u);
    SplitClean(Head(t), Rear(t) + x, Head(u), Rear(u) + y, STOPS);
  }

  lemma {:induction false} Unique(t: Type, u: Type, x: string, y: string)
    requires Spelled(t) && Spelled(u) && After(x) && After(y) && Identity(t) + x == Identity(u) + y
    ensures Alike(t, u, x, y)
    decreases t, 2
  {
    SameGroup(t, u, x, y);
    if Leaf(t) {
      LeafUnique(t, u, x, y);
    } else {
      PartsUnique(t, u, x, y);
    }
  }

  lemma {:induction false} PartsUnique(t: Type, u: Type, x: string, y: string)
    requires Spelled(t) && Spelled(u) && After(x) && After(y)
    requires !Leaf(t) && Group(t) == Group(u) && Rest(t) + x == Rest(u) + y
    ensures Alike(t, u, x, y)
    decreases t, 1
  {
    match t
    case DefinedType(_, _, _, _, _) => DefinedUnique(t, u, x, y);
    case PointerType(base, mutable) =>
      CutOpen("(", MutText(mutable) + Identity(base), ")", x, MutText(u.mutable) + Identity(u.base), ")", y);
      MutabilityRead(base, mutable, ")" + x, u.base, u.mutable, ")" + y);
      Unique(base, u.base, ")" + x, ")" + y);
      Drop(")", x, y);
    case SliceType(base, mutable) =>
      CutOpen("(", MutText(mutable) + Identity(base), ")", x, MutText(u.mutable) + Identity(u.base), ")", y);
      MutabilityRead(base, mutable, ")" + x, u.base, u.mutable, ")" + y);
      Unique(base, u.base, ")" + x, ")" + y);
      Drop(")", x, y);
    case ArrayType(_, _) => ArrayUnique(t, u, x, y);
    case FunctionType(_, _, _, _) => FunctionUnique(t, u, x, y);
    case MultipleReturnType(items) =>
      CutOpen("(", Texts(items), ")", x, Texts(u.items), ")", y);
      AllUnique(items, u.items, ")" + x, ")" + y);
      Drop(")", x, y);
    case StructType(_, _, _) => StructUnique(t, u, x, y);
  }

  lemma ArrayUnique(t: Type, u: Type, x: string, y: string)
    requires t.ArrayType? && u.ArrayType? && Spelled(t) && Spelled(u) && Rest(t) + x == Rest(u) + y
    ensures Alike(t, u, x, y)
    decreases t, 0
  {
    ArrayRead(t.length, Identity(t.base), x, u.length, Identity(u.base), y);
    Unique(t.base, u.base, ")" + x, ")" + y);
    Drop(")", x, y);
  }

  lemma DefinedUnique(t: Type, u: Type, x: string, y: string)
    requires t.DefinedType? && u.DefinedType? && Spelled(t) && Spelled(u) && Rest(t) + x == Rest(u) + y
    ensures Alike(t, u, x, y)
    decreases t, 0
  {
    HeadRead(t, u, x, y);
    LastSeparator(t.moduleName, LastName(t), u.moduleName, LastName(u), ':');
    RearStarts(t);
    RearStarts(u);
    assert (Rear(t) + x)[0] == (Rear(u) + y)[0];
    if t.genericName == "" {
      Drop(")", x, y);
    } else {
      CutOpen("<", Texts(t.typeArguments), ">)", x, Texts(u.typeArguments), ">)", y);
      AllUnique(t.typeArguments, u.typeArguments, ">)" + x, ">)" + y);
      Drop(">)", x, y);
    }
  }

  lemma FunctionUnique(t: Type, u: Type, x: string, y: string)
    requires t.FunctionType? && u.FunctionType? && Spelled(t) && Spelled(u) && After(x) && After(y)
    requires Rest(t) + x == Rest(u) + y
    ensures Alike(t, u, x, y)
    decreases t, 0
  {
    var p, q := Texts(t.parameters), Texts(u.parameters);
    var a, b := Identity(t.returnType), Identity(u.returnType);
    CutOpen("(", p, ")->" + a, x, q, ")->" + b, y);
    Regroup(")->", a, x);
    Regroup(")->", b, y);
    AllUnique(t.parameters, u.parameters, ")->" + (a + x), ")->" + (b + y));
    Drop(")->", a + x, b + y);
    Unique(t.returnType, u.returnType, x, y);
  }

  lemma AllUnique(ts: seq<Type>, us: seq<Type>, x: string, y: string)
    requires SpelledAll(ts) && SpelledAll(us) && End(x) && End(y) && Texts(ts) + x == Texts(us) + y
    ensures ReadingAll(ts) == ReadingAll(us) && x == y
    decreases ts
  {
    if ts == [] || us == [] {
      NoneOrSome(ts, us, x, y);
    } else {
      Regroup(Identity(ts[0]), Tail(ts[1..]), x);
      Regroup(Identity(us[0]), Tail(us[1..]), y);
      Unique(ts[0], us[0], Tail(ts[1..]) + x, Tail(us[1..]) + y);
      TailRead(ts[1..], us[1..], x, y);
      AllUnique(ts[1..], us[1..], x, y);
    }
  }

  /** Where one list ends, so does the other. */
  lemma NoneOrSome(ts: seq<Type>, us: seq<Type>, x: string, y: string)
    requires (ts == [] || us == []) && End(x) && End(y) && Texts(ts) + x == Texts(us) + y
    ensures ts == us == [] && x == y
  {
    TextsStart(ts, x);
    TextsStart(us, y);
    Drop("", x, y);
  }

  lemma TextsStart(ts: seq<Type>, x: string)
    requires End(x)
    ensures End(Texts(ts) + x) <==> ts == []
  {
    if ts != [] {
      Starts(ts[0]);
    } else {
      assert Texts(ts) + x == x;
    }
  }

  lemma TailStarts(ts: seq<Type>, x: string)
    requires End(x)
    ensures End(Tail(ts) + x) <==> ts == []
    ensures ts == [] ==> Tail(ts) == Texts(ts)
  {
    if ts == [] {
      assert Tail(ts) + x == x;
    }
  }

  lemma TailRead(ts: seq<Type>, us: seq<Type>, x: string, y: string)
    requires End(x) && End(y) && Tail(ts) + x == Tail(us) + y
    ensures Texts(ts) + x == Texts(us) + y
  {
    TailStarts(ts, x);
    TailStarts(us, y);
    if ts != [] {
      Cut(",", Texts(ts), x, Texts(us), y);
    }
  }

  // ----- Fields -----

  lemma FieldsUnique(fs: seq<Field>, gs: seq<Field>, x: string, y: string)
    requires SpelledFields(fs) && SpelledFields(gs) && End(x) && End(y) && FieldTexts(fs) + x == FieldTexts(gs) + y
    ensures ReadingFields(fs) == ReadingFields(gs) && x == y
    decreases fs
  {
    if fs == [] || gs == [] {
      FieldsStart(fs, x);
      FieldsStart(gs, y);
      Drop("", x, y);
    } else {
      var a := Identity(fs[0].typ) + (FieldTail(fs[1..]) + x);
      var b := Identity(gs[0].typ) + (FieldTail(gs[1..]) + y);
      FieldHead(fs, x);
      FieldHead(gs, y);
      ColonRead(fs[0].fieldName, a, gs[0].fieldName, b);
      Unique(fs[0].typ, gs[0].typ, FieldTail(fs[1..]) + x, FieldTail(gs[1..]) + y);
      FieldTailRead(fs[1..], gs[1..], x, y);
      FieldsUnique(fs[1..], gs[1..], x, y);
    }
  }

  lemma FieldHead(fs: seq<Field>, x: string)
    requires fs != []
    ensures FieldTexts(fs) + x == fs[0].fieldName + ":" + (Identity(fs[0].typ) + (FieldTail(fs[1..]) + x))
  {
  }

  lemma FieldsStart(fs: seq<Field>, x: string)
    requires SpelledFields(fs) && End(x)
    ensures End(FieldTexts(fs) + x) <==> fs == []
  {
    if fs != [] {
      FieldHead(fs, x);
    } else {
      assert FieldTexts(fs) + x == x;
    }
  }

  lemma FieldTailStarts(fs: seq<Field>, x: string)
    requires End(x)
    ensures End(FieldTail(fs) + x) <==> fs == []
    ensures fs == [] ==> FieldTail(fs) == FieldTexts(fs)
  {
    if fs == [] {
      assert FieldTail(fs) + x == x;
    }
  }

  lemma FieldTailRead(fs: seq<Field>, gs: seq<Field>, x: string, y: string)
    requires End(x) && End(y) && FieldTail(fs) + x == FieldTail(gs) + y
    ensures FieldTexts(fs) + x == FieldTexts(gs) + y
  {
    FieldTailStarts(fs, x);
    FieldTailStarts(gs, y);
    if fs != [] {
      Cut(",", FieldTexts(fs), x, FieldTexts(gs), y);
    }
  }

  ghost function PackedText(packed: bool): string {
    if packed then "packed:" else ""
  }

  /** Fields do not begin like the word that marks a packed struct. */
  lemma NotPacked(fs: seq<Field>, gs: seq<Field>, x: string, y: string)
    requires SpelledFields(fs) && SpelledFields(gs) && End(x) && End(y)
    ensures "packed:" + (FieldTexts(fs) + x) != FieldTexts(gs) + y
  {
    if "packed:" + (FieldTexts(fs) + x) == FieldTexts(gs) + y {
      PackedHead(fs, gs, x, y);
      Starts(gs[0].typ);
      if fs == [] {
        FieldsStart(fs, x);
      } else {
        FieldHead(fs, x);
        var p := fs[0].fieldName + ":";
        assert p[|fs[0].fieldName|] == ':';
        NoColonBeforeType(
          p, fs[0].typ, FieldTail(fs[1..]) + x, gs[0].typ, FieldTail(gs[1..]) + y);
      }
      assert false;
    }
  }

  lemma PackedHead(fs: seq<Field>, gs: seq<Field>, x: string, y: string)
    requires SpelledFields(gs) && End(y) && "packed:" + (FieldTexts(fs) + x) == FieldTexts(gs) + y
    ensures gs != [] && FieldTexts(fs) + x == Identity(gs[0].typ) + (FieldTail(gs[1..]) + y)
  {
    assert !End("packed:" + (FieldTexts(fs) + x));
    FieldsStart(gs, y);
    FieldHead(gs, y);
    assert "packed:" == "packed" + ":";
    ColonRead("packed", FieldTexts(fs) + x, gs[0].fieldName, Identity(gs[0].typ) + (FieldTail(gs[1..]) + y));
  }

  lemma StructUnique(t: Type, u: Type, x: string, y: string)
    requires t.StructType? && u.StructType? && Spelled(t) && Spelled(u) && Rest(t) + x == Rest(u) + y
    ensures Alike(t, u, x, y)
    decreases t, 0
  {
    CutOpen("(", PackedText(t.packed) + FieldTexts(t.fields), ")", x,
            PackedText(u.packed) + FieldTexts(u.fields), ")", y);
    Regroup(PackedText(t.packed), FieldTexts(t.fields), ")" + x);
    Regroup(PackedText(u.packed), FieldTexts(u.fields), ")" + y);
    PackedRead(t.fields, t.packed, ")" + x, u.fields, u.packed, ")" + y);
    FieldsUnique(t.fields, u.fields, ")" + x, ")" + y);
    Drop(")", x, y);
  }

  lemma PackedRead(fs: seq<Field>, m: bool, x: string, gs: seq<Field>, n: bool, y: string)
    requires SpelledFields(fs) && SpelledFields(gs) && End(x) && End(y)
    requires PackedText(m) + (FieldTexts(fs) + x) == PackedText(n) + (FieldTexts(gs) + y)
    ensures m == n && FieldTexts(fs) + x == FieldTexts(gs) + y
  {
    NotPacked(fs, gs, x, y);
    NotPacked(gs, fs, y, x);
    Regroup("", FieldTexts(fs), x);
    Regroup("", FieldTexts(gs), y);
    Drop(PackedText(m), FieldTexts(fs) + x, FieldTexts(gs) + y);
  }

  // ----- Main results -----

  /** The text reads nothing but the reading. */
  lemma {:induction false} TextOfReading(t: Type)
    ensures Identity(Reading(t)) == Identity(t)
    decreases t, 1
  {
    match t
    case DefinedType(_, _, _, _, arguments) => TextsOfReadings(arguments);
    case PointerType(base, _) => TextOfReading(base);
    case SliceType(base, _) => TextOfReading(base);
    case ArrayType(base, _) => TextOfReading(base);
    case FunctionType(parameters, returnType, _, _) =>
      TextsOfReadings(parameters);
      TextOfReading(returnType);
    case MultipleReturnType(items) => TextsOfReadings(items);
    case StructType(fields, _, _) => FieldTextsOfReadings(fields);
    case _ => TextOfLeaf(t);
  }

  lemma TextOfLeaf(t: Type)
    requires Leaf(t)
    ensures Identity(Reading(t)) == Identity(t)
  {
    if t.EnumType? {
      TextOfEnum(t);
    } else if t.TraitType? || t.TraitPointerType? {
      TextOfTrait(t);
    }
  }

  lemma TextOfTrait(t: Type)
    requires t.TraitType? || t.TraitPointerType?
    ensures Identity(Reading(t)) == Identity(t)
  {
  }

  lemma TextOfEnum(t: Type)
    requires t.EnumType?
    ensures Identity(Reading(t)) == Identity(t)
  {
    assert EnumText(t) != "";
  }

  ghost function TextOfAll(ts: seq<Type>): string {
    Join(seq(|ts|, i requires 0 <= i < |ts| => Identity(ts[i])))
  }

  ghost function TextOfFields(fs: seq<Field>): string {
    Join(seq(|fs|, i requires 0 <= i < |fs| => fs[i].fieldName + ":" + Identity(fs[i].typ)))
  }

  lemma {:induction false} TextsOfReadings(ts: seq<Type>)
    ensures Texts(ReadingAll(ts)) == Texts(ts) && TextOfAll(ReadingAll(ts)) == TextOfAll(ts)
    decreases ts, 0
  {
    JoinedTexts(ts);
    JoinedTexts(ReadingAll(ts));
    if ts != [] {
      TextOfReading(ts[0]);
      TextsOfReadings(ts[1..]);
      assert ReadingAll(ts)[1..] == ReadingAll(ts[1..]);
    }
  }

  lemma {:induction false} FieldTextsOfReadings(fs: seq<Field>)
    ensures FieldTexts(ReadingFields(fs)) == FieldTexts(fs) && TextOfFields(ReadingFields(fs)) == TextOfFields(fs)
    decreases fs, 0
  {
    JoinedFields(fs);
    JoinedFields(ReadingFields(fs));
    if fs != [] {
      TextOfReading(fs[0].typ);
      FieldTextsOfReadings(fs[1..]);
      assert ReadingFields(fs)[1..] == ReadingFields(fs[1..]);
    }
  }

  /** Types have the same text exactly when they have the same reading. */
  lemma IdentityDecides(t: Type, u: Type)
    requires Spelled(t) && Spelled(u)
    ensures Identity(t) == Identity(u) <==> Reading(t) == Reading(u)
  {
    TextOfReading(t);
    TextOfReading(u);
    if Identity(t) == Identity(u) {
      Unique(t, u, "", "");
    }
  }

  /** So have lists of types. */
  lemma TextsDecide(ts: seq<Type>, us: seq<Type>)
    requires SpelledAll(ts) && SpelledAll(us)
    ensures Texts(ts) == Texts(us) <==> ReadingAll(ts) == ReadingAll(us)
  {
    TextsOfReadings(ts);
    TextsOfReadings(us);
    if Texts(ts) == Texts(us) {
      AllUnique(ts, us, "", "");
    }
  }

  /** The text of a trait shows its module and its name, when the names hold no dot. */
  lemma TraitTextDecides(d: TraitDefinition, e: TraitDefinition)
    requires !d.any && !e.any && '.' !in d.traitName && '.' !in e.traitName
    ensures TraitText(d) == TraitText(e) <==> d.traitModule == e.traitModule && d.traitName == e.traitName
  {
    if TraitText(d) == TraitText(e) {
      DotShowsModule(d);
      DotShowsModule(e);
      if d.traitModule != "" {
        LastSeparator(d.traitModule, d.traitName, e.traitModule, e.traitName, '.');
      }
    }
  }

  lemma DotShowsModule(d: TraitDefinition)
    requires !d.any && '.' !in d.traitName
    ensures '.' in TraitText(d) <==> d.traitModule != ""
  {
    if d.traitModule != "" {
      assert TraitText(d)[|d.traitModule|] == '.';
    }
  }

  /** And the text of an enum its module and its name, unless it has an identity of its own. */
  lemma EnumTextDecides(t: Type, u: Type)
    requires t.EnumType? && u.EnumType? && t.identityName == "" && u.identityName == ""
    requires ':' !in t.name && ':' !in u.name
    ensures EnumText(t) == EnumText(u) <==> t.moduleName == u.moduleName && t.name == u.name
  {
    if EnumText(t) == EnumText(u) {
      LastSeparator(t.moduleName, t.name, u.moduleName, u.name, ':');
    }
  }

  /** Unequal types can share a text: one that is variadic, and one that is not. */
  lemma UnequalTypesShareAText()
    ensures
      var plain := FunctionType([], PrimitiveType(Void), false, NoType);
      var variadic := plain.(typedVariadic := true);
      Identity(plain) == Identity(variadic) && !Equals(map[], {}, plain, variadic)
  {
    var plain := FunctionType([], PrimitiveType(Void), false, NoType);
    TextOfReading(plain);
    TextOfReading(plain.(typedVariadic := true));
  }
}
