/**
 * The service registry of yaaf/di.py: instances kept by their exact type and by alias names,
 * with last-write-wins registration and a three-stage lookup of type annotations.
 */
module Registry {
  import opened Wrappers

  /** A Python class: `name` is its `__name__`, `id` tells apart distinct classes of one name. */
  datatype TypeId = TypeId(name: string, id: nat)

  /** A service object; `cls` is `type(instance)`. */
  datatype Instance = Instance(cls: TypeId, id: nat)

  /** A parameter annotation: absent, a string (postponed annotations), or a class. */
  datatype Annotation = Unannotated | Named(alias: string) | OfType(t: TypeId)

  /**
   * The two dictionaries. `typeOrder` is the key order of `by_type`: Python dictionaries keep a
   * re-assigned key at its first insertion position, and the subtype scan walks that order.
   */
  datatype RegistryState = RegistryState(byType: map<TypeId, Instance>, typeOrder: seq<TypeId>, byAlias: map<string, Instance>)

  ghost predicate Wf(s: RegistryState)
  {
    (forall i, j :: 0 <= i < j < |s.typeOrder| ==> s.typeOrder[i] != s.typeOrder[j])
    && (forall t :: t in s.byType <==> t in s.typeOrder)
  }

  const Empty := RegistryState(map[], [], map[])

  /** Every given alias mapped to `x`. */
  function AliasesTo(aliases: seq<string>, x: Instance): (m: map<string, Instance>)
    ensures forall a :: a in m <==> a in aliases
    ensures forall a :: a in m ==> m[a] == x
  {
    map a | a in aliases :: x
  }

  /** One more alias adds one more entry. */
  lemma AliasesToSnoc(aliases: seq<string>, i: nat, x: Instance)
    requires i < |aliases|
    ensures AliasesTo(aliases[..i + 1], x) == AliasesTo(aliases[..i], x)[aliases[i] := x]
  {
    assert aliases[..i + 1] == aliases[..i] + [aliases[i]];
  }

  /** Updating a union updates its right-hand side. */
  lemma MapUnionUpdate<K, V>(a: map<K, V>, b: map<K, V>, k: K, v: V)
    ensures (a + b)[k := v] == a + b[k := v]
  {
  }

  /**
   * `register(x, aliases)`: `by_type[type(x)] = x`, then `by_alias[type name] = x` when the name
   * is non-empty, then `by_alias[a] = x` for every alias.
   */
  function Registered(s: RegistryState, x: Instance, aliases: seq<string>): (r: RegistryState)
    requires Wf(s)
    ensures Wf(r)
  {
    var order := if x.cls in s.byType then s.typeOrder else s.typeOrder + [x.cls];
    var named := if x.cls.name != "" then s.byAlias[x.cls.name := x] else s.byAlias;
    RegistryState(s.byType[x.cls := x], order, named + AliasesTo(aliases, x))
  }

  /**
   * What registration does: the type entry, the type-name alias and every given alias map to
   * `x`; a new type goes to the end of the key order, a known one keeps its place; every other
   * entry keeps its value.
   */
  lemma RegisterEffect(s: RegistryState, x: Instance, aliases: seq<string>)
    requires Wf(s)
    ensures var r := Registered(s, x, aliases);
      && r.byType.Keys == s.byType.Keys + {x.cls} && r.byType[x.cls] == x
      && (forall t :: t in s.byType && t != x.cls ==> r.byType[t] == s.byType[t])
      && r.typeOrder == (if x.cls in s.byType then s.typeOrder else s.typeOrder + [x.cls])
      && (forall a :: a in aliases ==> a in r.byAlias && r.byAlias[a] == x)
      && (x.cls.name != "" ==> x.cls.name in r.byAlias && r.byAlias[x.cls.name] == x)
      && (forall a :: a in r.byAlias <==> a in s.byAlias || a in aliases || (a == x.cls.name && a != ""))
      && (forall a :: a in s.byAlias && a !in aliases && a != x.cls.name ==> r.byAlias[a] == s.byAlias[a])
  {
  }

  /** Index of the first type in `order` that is a subtype of `t`, if any. */
  function FirstSubtype(order: seq<TypeId>, t: TypeId, sub: (TypeId, TypeId) -> bool): (r: Option<nat>)
    ensures r.Some? ==>
      && r.value < |order|
      && sub(order[r.value], t)
      && forall j :: 0 <= j < r.value ==> !sub(order[j], t)
    ensures r.None? <==> forall j :: 0 <= j < |order| ==> !sub(order[j], t)
  {
    if order == [] then None
    else if sub(order[0], t) then Some(0)
    else match FirstSubtype(order[1..], t, sub)
      case None => None
      case Some(i) => Some(i + 1)
  }

  /**
   * `resolve(annotation)`: a string looks only in `by_alias`; `None` gives nothing; a class gives
   * its exact entry, else the first registered subtype (`sub(a, b)` is `issubclass(a, b)`, with
   * a raising check counted as false), else the alias of its name.
   */
  function Lookup(s: RegistryState, ann: Annotation, sub: (TypeId, TypeId) -> bool): (r: Option<Instance>)
    requires Wf(s)
    ensures r.Some? ==> r.value in s.byType.Values || r.value in s.byAlias.Values
  {
    match ann
    case Unannotated => None
    case Named(a) => if a in s.byAlias then Some(s.byAlias[a]) else None
    case OfType(t) =>
      if t in s.byType then Some(s.byType[t])
      else match FirstSubtype(s.typeOrder, t, sub)
        case Some(i) => Some(s.byType[s.typeOrder[i]])
        case None => if t.name != "" && t.name in s.byAlias then Some(s.byAlias[t.name]) else None
  }

  /**
   * The stages of `resolve`: a string looks only in `by_alias`; no annotation gives nothing; a
   * class gives its exact entry, else the entry of the first subtype in key order, else the
   * alias of its name, else nothing.
   */
  lemma LookupStages(s: RegistryState, ann: Annotation, sub: (TypeId, TypeId) -> bool)
    requires Wf(s)
    ensures ann.Unannotated? ==> Lookup(s, ann, sub).None?
    ensures ann.Named? ==> Lookup(s, ann, sub) == if ann.alias in s.byAlias then Some(s.byAlias[ann.alias]) else None
    ensures ann.OfType? && ann.t in s.byType ==> Lookup(s, ann, sub) == Some(s.byType[ann.t])
    ensures ann.OfType? && ann.t !in s.byType && (exists u :: u in s.byType && sub(u, ann.t)) ==>
      exists i ::
        && 0 <= i < |s.typeOrder|
        && sub(s.typeOrder[i], ann.t)
        && Lookup(s, ann, sub) == Some(s.byType[s.typeOrder[i]])
        && forall j :: 0 <= j < i ==> !sub(s.typeOrder[j], ann.t)
    ensures ann.OfType? && ann.t !in s.byType && (forall u :: u in s.byType ==> !sub(u, ann.t)) ==>
      Lookup(s, ann, sub) == if ann.t.name != "" && ann.t.name in s.byAlias then Some(s.byAlias[ann.t.name]) else None
  {
    if ann.OfType? && ann.t !in s.byType && FirstSubtype(s.typeOrder, ann.t, sub).None? {
      forall u | u in s.byType ensures !sub(u, ann.t) {
        var j :| 0 <= j < |s.typeOrder| && s.typeOrder[j] == u;
      }
    }
  }

  /** Registering then resolving: the instance is found by its type, its type name and every alias. */
  lemma RegisterThenResolve(s: RegistryState, x: Instance, aliases: seq<string>, sub: (TypeId, TypeId) -> bool)
    requires Wf(s)
    ensures Lookup(Registered(s, x, aliases), OfType(x.cls), sub) == Some(x)
    ensures forall a :: a in aliases ==> Lookup(Registered(s, x, aliases), Named(a), sub) == Some(x)
    ensures x.cls.name != "" ==> Lookup(Registered(s, x, aliases), Named(x.cls.name), sub) == Some(x)
  {
    RegisterEffect(s, x, aliases);
  }

  /** Last write wins: a later registration under a shared alias replaces the earlier instance. */
  lemma LaterRegistrationWins(s: RegistryState, x: Instance, y: Instance, xs: seq<string>, ys: seq<string>, a: string, sub: (TypeId, TypeId) -> bool)
    requires Wf(s) && a in xs && a in ys
    ensures Lookup(Registered(Registered(s, x, xs), y, ys), Named(a), sub) == Some(y)
    ensures x.cls == y.cls ==> Lookup(Registered(Registered(s, x, xs), y, ys), OfType(x.cls), sub) == Some(y)
  {
    RegisteredOwnEntries(Registered(s, x, xs), y, ys);
  }

  /** After registering `y`, its class and each of its aliases map to it. */
  lemma RegisteredOwnEntries(s: RegistryState, y: Instance, ys: seq<string>)
    requires Wf(s)
    ensures var r := Registered(s, y, ys);
      && y.cls in r.byType && r.byType[y.cls] == y
      && forall a :: a in ys ==> a in r.byAlias && r.byAlias[a] == y
  {
  }

  /**
   * The registry test of yaaf: an AlphaService registered with the extra alias "AlphaAlias" is
   * found by its class and, through the name fallback, by an unrelated class named AlphaAlias.
   */
  lemma AliasFallbackExample()
    ensures var alphaCls := TypeId("AlphaService", 0);
      var aliasCls := TypeId("AlphaAlias", 1);
      var alpha := Instance(alphaCls, 0);
      var s := Registered(Empty, alpha, ["AlphaAlias"]);
      var exact := (u: TypeId, t: TypeId) => u == t;
      Lookup(s, OfType(alphaCls), exact) == Some(alpha) && Lookup(s, OfType(aliasCls), exact) == Some(alpha)
  {
    var alphaCls := TypeId("AlphaService", 0);
    var aliasCls := TypeId("AlphaAlias", 1);
    var alpha := Instance(alphaCls, 0);
    var s := Registered(Empty, alpha, ["AlphaAlias"]);
    assert s.byType.Keys == {alphaCls};
    assert aliasCls !in s.byType;
  }

  /** The registry object: the two dictionaries, plus the key order of `by_type`. */
  class ServiceRegistry {
    var byType: map<TypeId, Instance>
    var typeOrder: seq<TypeId>
    var byAlias: map<string, Instance>

    function State(): RegistryState
      reads this
    {
      RegistryState(byType, typeOrder, byAlias)
    }

    ghost predicate Valid()
      reads this
    {
      Wf(State())
    }

    /** `ServiceRegistry(by_type=..., by_alias=...)` */
    constructor(initial: RegistryState)
      requires Wf(initial)
      ensures Valid() && State() == initial
    {
      byType := initial.byType;
      typeOrder := initial.typeOrder;
      byAlias := initial.byAlias;
    }

    /** `register`: stores `x` by type, by type name and by every alias, and returns it. */
    method Register(x: Instance, aliases: seq<string>) returns (r: Instance)
      requires Valid()
      modifies this
      ensures Valid()
      ensures State() == Registered(old(State()), x, aliases)
      ensures r == x
    {
      ghost var s0 := State();
      var order := typeOrder;
      if x.cls !in byType {
        order := order + [x.cls];
      }
      var names := byAlias;
      if x.cls.name != "" {
        names := names[x.cls.name := x];
      }
      ghost var named := names;
      for i := 0 to |aliases|
        invariant names == named + AliasesTo(aliases[..i], x)
        invariant State() == s0
      {
        AliasesToSnoc(aliases, i, x);
        MapUnionUpdate(named, AliasesTo(aliases[..i], x), aliases[i], x);
        names := names[aliases[i] := x];
      }
      assert aliases[..|aliases|] == aliases;
      byType, typeOrder, byAlias := byType[x.cls := x], order, names;
      assert byAlias == named + AliasesTo(aliases, x);
      assert State() == Registered(s0, x, aliases);
      r := x;
    }

    /** `resolve`: the scan over `by_type` stops at the first subtype, as `Lookup` describes. */
    method Resolve(ann: Annotation, sub: (TypeId, TypeId) -> bool) returns (r: Option<Instance>)
      requires Valid()
      ensures r == Lookup(State(), ann, sub)
    {
      match ann {
        case Unannotated =>
          return None;
        case Named(a) =>
          if a in byAlias {
            return Some(byAlias[a]);
          }
          return None;
        case OfType(t) =>
          if t in byType {
            return Some(byType[t]);
          }
          for i := 0 to |typeOrder|
            invariant forall j :: 0 <= j < i ==> !sub(typeOrder[j], t)
          {
            if sub(typeOrder[i], t) {
              return Some(byType[typeOrder[i]]);
            }
          }
          if t.name != "" && t.name in byAlias {
            return Some(byAlias[t.name]);
          }
          return None;
      }
    }
  }
}
