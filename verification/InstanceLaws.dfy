/**
  What an instance contains (ir/ir.go, loader/specializations.go): its template,
  call by call, with the arguments of the request in place of the parameters.
 */
module InstanceLaws {
  import opened Types
  import opened TypeEquality
  import opened Substitution
  import opened Specializations
  import opened SpecializationLaws

  // ----- Binding the parameters -----

  /** Parameter `i` is the last one with its key. */
  predicate LastWithKey(parameters: seq<Parameter>, i: nat)
    requires i < |parameters|
  {
    forall j | i < j < |parameters| :: parameters[j].Key() != parameters[i].Key()
  }

  lemma BindLast(parameters: seq<Parameter>, arguments: seq<Type>)
    requires |parameters| == |arguments| > 0
    ensures
      var last := |parameters| - 1;
      BindParameters(parameters, arguments)
      == BindParameters(parameters[..last], arguments[..last])[parameters[last].Key() := arguments[last]]
  {
  }

  lemma {:induction false} ParameterIsBound(parameters: seq<Parameter>, arguments: seq<Type>, i: nat)
    requires |parameters| == |arguments| && i < |parameters| && LastWithKey(parameters, i)
    ensures
      var b := BindParameters(parameters, arguments);
      parameters[i].Key() in b && b[parameters[i].Key()] == arguments[i]
  {
    var last := |parameters| - 1;
    BindLast(parameters, arguments);
    if i < last {
      var before, first := parameters[..last], arguments[..last];
      assert before[i] == parameters[i] && first[i] == arguments[i];
      forall j | i < j < last ensures before[j].Key() != before[i].Key() {
        assert before[j] == parameters[j];
      }
      ParameterIsBound(before, first, i);
    }
  }

  ghost predicate HasKey(parameters: seq<Parameter>, k: string) {
    exists i | 0 <= i < |parameters| :: parameters[i].Key() == k
  }

  lemma HasKeyNext(parameters: seq<Parameter>, k: string)
    requires parameters != []
    ensures
      var last := |parameters| - 1;
      HasKey(parameters, k) <==> HasKey(parameters[..last], k) || parameters[last].Key() == k
  {
    var before := parameters[..|parameters| - 1];
    assert forall i | 0 <= i < |before| :: before[i] == parameters[i];
  }

  lemma {:induction false} OnlyParametersAreBound(parameters: seq<Parameter>, arguments: seq<Type>, k: string)
    requires |parameters| == |arguments|
    ensures k in BindParameters(parameters, arguments).Keys <==> HasKey(parameters, k)
  {
    if parameters == [] {
      assert BindParameters(parameters, arguments) == map[];
    } else {
      BindLast(parameters, arguments);
      OnlyParametersAreBound(parameters[..|parameters| - 1], arguments[..|parameters| - 1], k);
      HasKeyNext(parameters, k);
    }
  }

  /** Where a parameter stands, its argument comes in; other parameters stay. */
  lemma ParameterBecomesArgument(parameters: seq<Parameter>, arguments: seq<Type>, p: Parameter)
    requires |parameters| == |arguments|
    ensures
      var t := SubstituteParameters(TypeParameter(p), BindParameters(parameters, arguments));
      && (forall i | 0 <= i < |parameters| && LastWithKey(parameters, i) && parameters[i].Key() == p.Key() ::
            !arguments[i].NoType? ==> t == arguments[i])
      && (!HasKey(parameters, p.Key()) ==>
            t.TypeParameter? && t.parameter.Key() == p.Key())
  {
    var b := BindParameters(parameters, arguments);
    forall i | 0 <= i < |parameters| && LastWithKey(parameters, i) && parameters[i].Key() == p.Key()
      ensures !arguments[i].NoType? ==> SubstituteParameters(TypeParameter(p), b) == arguments[i]
    {
      ParameterIsBound(parameters, arguments, i);
    }
    OnlyParametersAreBound(parameters, arguments, p.Key());
  }

  // ----- The calls of an instance -----

  /** The type in the instance is right for the one in the template. */
  ghost predicate RightType(template: Template, arguments: seq<Type>, written: Type, t: Type)
    requires |arguments| == |template.parameters|
  {
    && t == SubstituteParameters(written, BindParameters(template.parameters, arguments))
    && forall i | 0 <= i < |arguments| && LastWithKey(template.parameters, i) ::
         written == TypeParameter(template.parameters[i]) && !arguments[i].NoType? ==> t == arguments[i]
  }

  lemma SubstitutedIsRight(template: Template, arguments: seq<Type>, written: Type)
    requires |arguments| == |template.parameters|
    ensures RightType(template, arguments, written,
                      SubstituteParameters(written, BindParameters(template.parameters, arguments)))
  {
    forall i | 0 <= i < |arguments| && LastWithKey(template.parameters, i)
      ensures written == TypeParameter(template.parameters[i]) && !arguments[i].NoType? ==>
        SubstituteParameters(written, BindParameters(template.parameters, arguments)) == arguments[i]
    {
      ParameterBecomesArgument(template.parameters, arguments, template.parameters[i]);
    }
  }

  ghost predicate RightReference(template: Template, arguments: seq<Type>, written: Option<Reference>,
                                 r: Option<Reference>)
    requires |arguments| == |template.parameters|
  {
    && (written.Some? <==> r.Some?)
    && (written.Some? ==>
        && r.value.moduleName == written.value.moduleName && r.value.name == written.value.name
        && |r.value.arguments| == |written.value.arguments|
        && forall i | 0 <= i < |r.value.arguments| ::
             RightType(template, arguments, written.value.arguments[i], r.value.arguments[i]))
  }

  /** A requirement is still open, or its method has become the target. */
  ghost predicate RightRequirement(lib: Library, template: Template, arguments: seq<Type>, written: Call, c: Call)
    requires |arguments| == |template.parameters|
  {
    if written.requirement.None? then c.requirement.None? && c.target == written.target
    else
      exists receiver ::
        && RightType(template, arguments, written.requirement.value.receiver, receiver)
        && var required := Requirement(written.requirement.value.name, receiver);
           if HasTypeParameter(receiver) then c.requirement == Some(required) && c.target == written.target
           else c.requirement.None? && RequirementTarget(lib, required) == Some(c.target)
  }

  ghost predicate RightCall(lib: Library, template: Template, arguments: seq<Type>, written: Call, c: Call)
    requires |arguments| == |template.parameters|
  {
    && RightReference(template, arguments, written.generic, c.generic)
    && RightRequirement(lib, template, arguments, written, c)
  }

  lemma InstantiatedReferenceIsRight(template: Template, arguments: seq<Type>, written: Reference)
    requires |arguments| == |template.parameters|
    ensures RightReference(template, arguments, Some(written),
      Some(InstantiatedReference(written, BindParameters(template.parameters, arguments))))
  {
    forall i | 0 <= i < |written.arguments| {
      SubstitutedIsRight(template, arguments, written.arguments[i]);
    }
  }

  /** A call of the template, instantiated and resolved, when its requirement has a method once it is concrete. */
  lemma ResolvedCallIsRight(lib: Library, template: Template, arguments: seq<Type>, written: Call)
    requires |arguments| == |template.parameters|
    requires
      var call := InstantiatedCall(written, BindParameters(template.parameters, arguments));
      Pending(call) ==> RequirementTarget(lib, call.requirement.value).Some?
    ensures
      var call := InstantiatedCall(written, BindParameters(template.parameters, arguments));
      RightCall(lib, template, arguments, written, ResolvedCall(lib, call))
  {
    if written.generic.Some? {
      InstantiatedReferenceIsRight(template, arguments, written.generic.value);
    }
    if written.requirement.Some? {
      SubstitutedIsRight(template, arguments, written.requirement.value.receiver);
    }
  }

  // ----- Units -----

  /** The unit has the functions and calls of its template, one for one. */
  ghost predicate RightUnit(lib: Library, u: Unit) {
    var Request(template, arguments) := u.request;
    && |arguments| == |template.parameters| && template.functions.Some?
    && |u.functions| == |template.functions.value|
    && forall f | 0 <= f < |u.functions| ::
         RightFunction(lib, template, arguments, template.functions.value[f], u.functions[f])
  }

  ghost predicate RightFunction(lib: Library, template: Template, arguments: seq<Type>, written: Function, f: Function)
    requires |arguments| == |template.parameters|
  {
    && f.name == written.name && |f.calls| == |written.calls|
    && forall c | 0 <= c < |f.calls| :: RightCall(lib, template, arguments, written.calls[c], f.calls[c])
  }

  /** Every unit is its template with the arguments of its request in place of the parameters. */
  lemma UnitIsItsTemplate(lib: Library, base: seq<Item>, units: seq<Unit>, u: nat)
    requires Complete(lib, base, units) && u < |units|
    ensures RightUnit(lib, units[u])
  {
    var Request(template, arguments) := units[u].request;
    var functions := Instantiate(units[u].request).value;
    forall f | 0 <= f < |units[u].functions|
      ensures RightFunction(lib, template, arguments, template.functions.value[f], units[u].functions[f])
    {
      FunctionIsRight(lib, base, units, u, f);
    }
  }

  lemma FunctionIsRight(lib: Library, base: seq<Item>, units: seq<Unit>, u: nat, f: nat)
    requires Complete(lib, base, units) && u < |units| && f < |units[u].functions|
    ensures Instantiate(units[u].request).Some? && f < |units[u].request.template.functions.value|
    ensures RightFunction(lib, units[u].request.template, units[u].request.arguments,
                          units[u].request.template.functions.value[f], units[u].functions[f])
  {
    var Request(template, arguments) := units[u].request;
    var functions := Instantiate(units[u].request).value;
    var written := template.functions.value[f];
    ResolvedFunctionsAt(lib, functions, f);
    forall c | 0 <= c < |units[u].functions[f].calls|
      ensures RightCall(lib, template, arguments, written.calls[c], units[u].functions[f].calls[c])
    {
      ResolvedCallsAt(lib, functions[f].calls, c);
      InstanceHasNoRequirement(lib, base, units, u, f, c);
      ResolvedCallIsRight(lib, template, arguments, written.calls[c]);
    }
  }

  /** Only requests without type parameters are instantiated. */
  lemma UnitIsConcrete(lib: Library, base: seq<Item>, units: seq<Unit>, u: nat, i: nat)
    requires Complete(lib, base, units) && u < |units| && i < |units[u].request.arguments|
    ensures !HasTypeParameter(units[u].request.arguments[i])
  {
    assert Justified(lib, base, RequestsOf(units), u);
  }

  /** In the resolved base modules, too, a concrete requirement has become the method; the rest is unchanged. */
  lemma BaseCallIsResolved(lib: Library, modules: seq<Module>, units: seq<Unit>, m: nat, f: nat, c: nat)
    requires Complete(lib, ModulesItems(modules), units)
    requires m < |modules| && f < |modules[m].functions| && c < |modules[m].functions[f].calls|
    ensures
      var written := modules[m].functions[f].calls[c];
      && f < |ResolvedModules(lib, modules)[m].functions|
      && c < |ResolvedModules(lib, modules)[m].functions[f].calls|
      && var r := ResolvedModules(lib, modules)[m].functions[f].calls[c];
         && r.generic == written.generic
         && if written.requirement.None? || HasTypeParameter(written.requirement.value.receiver) then r == written
            else r.requirement.None? && RequirementTarget(lib, written.requirement.value) == Some(r.target)
  {
    var written := modules[m].functions[f].calls[c];
    ResolvedModulesAt(lib, modules, m);
    ResolvedFunctionsAt(lib, modules[m].functions, f);
    ResolvedCallsAt(lib, modules[m].functions[f].calls, c);
    if Pending(written) {
      BaseRequirementIsServed(lib, modules, units, m, f, c);
    }
  }

  lemma {:induction false} ResolvedModulesAt(lib: Library, modules: seq<Module>, m: nat)
    requires m < |modules|
    ensures ResolvedModules(lib, modules)[m] == ResolvedModule(lib, modules[m])
  {
    if m < |modules| - 1 {
      ResolvedModulesAt(lib, modules[..|modules| - 1], m);
    }
  }

  lemma BaseRequirementIsServed(lib: Library, modules: seq<Module>, units: seq<Unit>, m: nat, f: nat, c: nat)
    requires Complete(lib, ModulesItems(modules), units)
    requires m < |modules| && f < |modules[m].functions| && c < |modules[m].functions[f].calls|
    requires Pending(modules[m].functions[f].calls[c])
    ensures RequirementTarget(lib, modules[m].functions[f].calls[c].requirement.value).Some?
  {
    var item := Need(modules[m].functions[f].calls[c].requirement.value);
    FunctionsMeet(modules[m].functions, f, c, item);
    FlatMeets(ModuleParts(modules), m, item);
    var items := ModulesItems(modules);
    var k :| 0 <= k < |items| && items[k] == item;
    assert Served(lib, items[k], RequestsOf(units));
  }

  // ----- Methods -----

  /** A type that has methods, with the module and the name that its methods are stored under. */
  predicate Owner(t: Type, moduleName: string, name: string) {
    match t
    case DefinedType(m, n, _, genericName, _) =>
      moduleName == m && name == (if genericName == "" then n else genericName)
    case AliasRef(m, n, _) => moduleName == m && name == n
    case PrimitiveType(p) => moduleName == "builtin" && name == PrimitiveName(p)
    case _ => false
  }

  /** A requirement finds the method stored for its receiver, or for what its receiver points to, and no other. */
  lemma RequirementFindsMethod(lib: Library, r: Requirement, target: string)
    ensures RequirementTarget(lib, r) == Some(target) <==>
      && target != ""
      && exists moduleName, name ::
           && Owner(if r.receiver.PointerType? then r.receiver.base else r.receiver, moduleName, name)
           && (moduleName, name, r.name) in lib.methods && lib.methods[(moduleName, name, r.name)] == target
  {
    var owner := ConcreteIdentity(r.receiver);
    if owner.Some? {
      assert Owner(if r.receiver.PointerType? then r.receiver.base else r.receiver, owner.value.0, owner.value.1);
    }
  }
}
