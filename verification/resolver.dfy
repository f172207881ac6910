/**
 * Argument injection of yaaf/di.py (`DependencyResolver.call`): each parameter is filled from
 * the context, else from the registry, else left to its default, else the call fails.
 */
module Resolver {
  import opened Wrappers
  import opened Registry

  /** One entry of a callable's signature. */
  datatype Param = Param(name: string, annotation: Annotation, hasDefault: bool)

  /** A keyword argument: a context value or a registered service. */
  datatype Arg<V> = Given(value: V) | Injected(service: Instance)

  /** The TypeError raised for a parameter nothing can supply. */
  datatype ResolveError = MissingDependency(param: string)

  /** Where one parameter's value comes from. */
  datatype Supplied<V> = FromContext(value: V) | FromRegistry(service: Instance) | Defaulted | Missing

  /** The three tiers for one parameter, in the order the resolver tries them. */
  function Supply<V>(p: Param, context: map<string, V>, s: RegistryState, sub: (TypeId, TypeId) -> bool): (r: Supplied<V>)
    requires Wf(s)
    ensures p.name in context ==> r == FromContext(context[p.name])
    ensures r.FromContext? ==> p.name in context
    ensures r.FromRegistry? ==> p.name !in context && Lookup(s, p.annotation, sub) == Some(r.service)
    ensures r.Defaulted? ==> p.name !in context && Lookup(s, p.annotation, sub).None? && p.hasDefault
    ensures r.Missing? <==> p.name !in context && Lookup(s, p.annotation, sub).None? && !p.hasDefault
    ensures p.annotation.Unannotated? && p.name !in context ==> r.Defaulted? || r.Missing?
  {
    if p.name in context then FromContext(context[p.name])
    else match Lookup(s, p.annotation, sub)
      case Some(x) => FromRegistry(x)
      case None => if p.hasDefault then Defaulted else Missing
  }

  /** `kwargs` after processing `params` in order, or the error for the first missing one. */
  function Bind<V>(params: seq<Param>, context: map<string, V>, s: RegistryState, sub: (TypeId, TypeId) -> bool): (r: Result<map<string, Arg<V>>, ResolveError>)
    requires Wf(s)
    ensures r.Success? ==> forall k :: k in r.value ==> exists i :: 0 <= i < |params| && params[i].name == k
  {
    if params == [] then Success(map[])
    else
      var n := |params| - 1;
      match Bind(params[..n], context, s, sub)
      case Failure(e) => Failure(e)
      case Success(kw) =>
        assert forall i :: 0 <= i < n ==> params[..n][i] == params[i];
        match Supply(params[n], context, s, sub)
        case FromContext(v) => Success(kw[params[n].name := Given(v)])
        case FromRegistry(x) => Success(kw[params[n].name := Injected(x)])
        case Defaulted => Success(kw)
        case Missing => Failure(MissingDependency(params[n].name))
  }

  /** No two parameters share a name, as in every Python signature. */
  predicate DistinctNames(params: seq<Param>)
  {
    forall i, j :: 0 <= i < j < |params| ==> params[i].name != params[j].name
  }

  /** `call` fails exactly when some parameter has no supply, and then names the first one. */
  lemma {:induction false} BindFailsAtFirstMissing<V>(params: seq<Param>, context: map<string, V>, s: RegistryState, sub: (TypeId, TypeId) -> bool)
    requires Wf(s)
    ensures Bind(params, context, s, sub).Success? <==> forall i :: 0 <= i < |params| ==> !Supply(params[i], context, s, sub).Missing?
    ensures Bind(params, context, s, sub).Failure? ==> exists k ::
      && 0 <= k < |params|
      && Supply(params[k], context, s, sub).Missing?
      && Bind(params, context, s, sub).error == MissingDependency(params[k].name)
      && forall j :: 0 <= j < k ==> !Supply(params[j], context, s, sub).Missing?
  {
    BindSucceedsIff(params, context, s, sub);
    BindNamesFirstMissing(params, context, s, sub);
  }

  /** Binding one more parameter, from the binding of the ones before it. */
  lemma BindStep<V>(params: seq<Param>, context: map<string, V>, s: RegistryState, sub: (TypeId, TypeId) -> bool)
    requires Wf(s) && params != []
    ensures var n := |params| - 1; var b := Bind(params[..n], context, s, sub);
      && (b.Failure? ==> Bind(params, context, s, sub) == b)
      && (b.Success? && Supply(params[n], context, s, sub).Missing? ==>
            Bind(params, context, s, sub) == Failure(MissingDependency(params[n].name)))
      && (b.Success? && !Supply(params[n], context, s, sub).Missing? ==> Bind(params, context, s, sub).Success?)
  {
  }

  lemma {:induction false} BindSucceedsIff<V>(params: seq<Param>, context: map<string, V>, s: RegistryState, sub: (TypeId, TypeId) -> bool)
    requires Wf(s)
    ensures Bind(params, context, s, sub).Success? <==> forall i :: 0 <= i < |params| ==> !Supply(params[i], context, s, sub).Missing?
  {
    if params != [] {
      var n := |params| - 1;
      var init := params[..n];
      assert forall i :: 0 <= i < n ==> init[i] == params[i];
      BindSucceedsIff(init, context, s, sub);
      BindStep(params, context, s, sub);
    }
  }

  lemma {:induction false} BindNamesFirstMissing<V>(params: seq<Param>, context: map<string, V>, s: RegistryState, sub: (TypeId, TypeId) -> bool)
    requires Wf(s)
    ensures Bind(params, context, s, sub).Failure? ==> exists k ::
      && 0 <= k < |params|
      && Supply(params[k], context, s, sub).Missing?
      && Bind(params, context, s, sub).error == MissingDependency(params[k].name)
      && forall j :: 0 <= j < k ==> !Supply(params[j], context, s, sub).Missing?
  {
    if params != [] && Bind(params, context, s, sub).Failure? {
      var n := |params| - 1;
      var init := params[..n];
      assert forall i :: 0 <= i < n ==> init[i] == params[i];
      BindStep(params, context, s, sub);
      if Bind(init, context, s, sub).Failure? {
        BindNamesFirstMissing(init, context, s, sub);
        var k :| && 0 <= k < n && Supply(init[k], context, s, sub).Missing?
          && Bind(init, context, s, sub).error == MissingDependency(init[k].name)
          && forall j :: 0 <= j < k ==> !Supply(init[j], context, s, sub).Missing?;
        assert Supply(params[k], context, s, sub).Missing?;
      } else {
        BindSucceedsIff(init, context, s, sub);
        assert Supply(params[n], context, s, sub).Missing?;
      }
    }
  }

  /**
   * On success every parameter holds the value of the first tier that applies: the context
   * value even when the registry could supply one, else the registered service; parameters
   * left to their default are absent from the keyword arguments.
   */
  /** `kw` holds what the first applicable tier supplies for `p`, and nothing for a default. */
  ghost predicate BoundAs<V>(kw: map<string, Arg<V>>, p: Param, context: map<string, V>, s: RegistryState, sub: (TypeId, TypeId) -> bool)
    requires Wf(s)
  {
    match Supply(p, context, s, sub)
    case FromContext(v) => p.name in kw && kw[p.name] == Given(v)
    case FromRegistry(x) => p.name in kw && kw[p.name] == Injected(x)
    case Defaulted => p.name !in kw
    case Missing => false
  }

  /** Binding another name leaves a parameter's binding as it was. */
  lemma BoundAsUpdate<V>(kw: map<string, Arg<V>>, k: string, a: Arg<V>, p: Param, context: map<string, V>, s: RegistryState, sub: (TypeId, TypeId) -> bool)
    requires Wf(s) && p.name != k && BoundAs(kw, p, context, s, sub)
    ensures BoundAs(kw[k := a], p, context, s, sub)
  {
  }

  lemma {:induction false} BindValues<V>(params: seq<Param>, context: map<string, V>, s: RegistryState, sub: (TypeId, TypeId) -> bool)
    requires Wf(s) && DistinctNames(params) && Bind(params, context, s, sub).Success?
    ensures forall i :: 0 <= i < |params| ==> BoundAs(Bind(params, context, s, sub).value, params[i], context, s, sub)
  {
    if params != [] {
      var n := |params| - 1;
      var init := params[..n];
      assert forall i :: 0 <= i < n ==> init[i] == params[i];
      assert DistinctNames(init);
      BindValues(init, context, s, sub);
      var kw0 := Bind(init, context, s, sub).value;
      var kw := Bind(params, context, s, sub).value;
      var last := params[n];
      forall i | 0 <= i < |params|
        ensures BoundAs(kw, params[i], context, s, sub)
      {
        if i == n {
          match Supply(last, context, s, sub)
          case FromContext(v) => assert kw == kw0[last.name := Given(v)];
          case FromRegistry(x) => assert kw == kw0[last.name := Injected(x)];
          case Defaulted => assert kw == kw0;
        } else {
          assert params[i].name != last.name;
          assert BoundAs(kw0, init[i], context, s, sub);
          match Supply(last, context, s, sub)
          case FromContext(v) => BoundAsUpdate(kw0, last.name, Given(v), params[i], context, s, sub);
          case FromRegistry(x) => BoundAsUpdate(kw0, last.name, Injected(x), params[i], context, s, sub);
          case Defaulted =>
        }
      }
    }
  }

  /** The resolver object of yaaf/di.py, bound to one registry. */
  class DependencyResolver {
    const registry: ServiceRegistry

    constructor(registry: ServiceRegistry)
      ensures this.registry == registry
    {
      this.registry := registry;
    }

    /**
     * `call(func, context)`: binds the arguments as `Bind` does and applies `func` to them; the
     * missing-dependency error stands for the TypeError the resolver raises.
     */
    method Call<V, R>(func: map<string, Arg<V>> -> R, params: seq<Param>, context: map<string, V>, sub: (TypeId, TypeId) -> bool)
      returns (r: Result<R, ResolveError>)
      requires registry.Valid()
      ensures match Bind(params, context, registry.State(), sub)
        case Success(kw) => r == Success(func(kw))
        case Failure(e) => r == Failure(e)
    {
      var kwargs: map<string, Arg<V>> := map[];
      for i := 0 to |params|
        invariant Bind(params[..i], context, registry.State(), sub) == Success(kwargs)
      {
        var p := params[i];
        assert params[..i + 1][..i] == params[..i];
        if p.name in context {
          kwargs := kwargs[p.name := Given(context[p.name])];
          continue;
        }
        var resolved := registry.Resolve(p.annotation, sub);
        if resolved.Some? {
          kwargs := kwargs[p.name := Injected(resolved.value)];
          continue;
        }
        if p.hasDefault {
          continue;
        }
        assert Bind(params[..i + 1], context, registry.State(), sub).Failure?;
        BindFailureSticks(params, i + 1, context, registry.State(), sub);
        return Failure(MissingDependency(p.name));
      }
      assert params[..|params|] == params;
      return Success(func(kwargs));
    }
  }

  /** Once a prefix fails, the whole signature fails with the same error. */
  lemma {:induction false} BindFailureSticks<V>(params: seq<Param>, k: nat, context: map<string, V>, s: RegistryState, sub: (TypeId, TypeId) -> bool)
    requires Wf(s) && k <= |params| && Bind(params[..k], context, s, sub).Failure?
    ensures Bind(params, context, s, sub) == Bind(params[..k], context, s, sub)
    decreases |params| - k
  {
    if k < |params| {
      var n := |params| - 1;
      assert params[..k + 1][..k] == params[..k];
      BindFailureSticks(params, k + 1, context, s, sub);
      if k + 1 == |params| {
        assert params[..k + 1] == params;
      }
    } else {
      assert params[..k] == params;
    }
  }
}
