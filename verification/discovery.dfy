/**
 * `discover_routes` of yaaf/loader.py: from the directories under the consumers tree to the
 * sorted route table, the filled service registry and the shadow warnings.
 */
module Discovery {
  import opened Wrappers
  import opened Text
  import opened Pattern
  import opened StableSort
  import opened Aliases
  import opened Registry
  import opened Resolver
  import opened Services
  import opened Routes

  /**
   * One directory of the walk: its path parts, whether it holds `_server.py`, the module of its
   * `_service.py` when there is one, and the attributes of its server module.
   */
  datatype DirRecord = DirRecord(parts: seq<string>, hasServer: bool, service: Option<ServiceModule>, server: map<string, ServerAttr>)

  /** A directory that becomes a route. */
  datatype Target = Target(dir: seq<string>, parts: seq<string>, pattern: RoutePattern, server: map<string, ServerAttr>)

  /** What discovery fails with: a `[]` segment (ValueError) or unbuildable services (RuntimeError). */
  datatype DiscoverError = BadSegment | UnresolvedServices(dirs: seq<seq<string>>)

  /** The segments below the first "api": the route's URL segments. */
  function RouteParts(parts: seq<string>): seq<string>
    requires "api" in parts
  {
    parts[IndexOf(parts, "api") + 1..]
  }

  /** The directory is a route: it holds `_server.py` and lies below an "api" directory. */
  predicate IsRouteDir(d: DirRecord)
  {
    d.hasServer && "api" in d.parts
  }

  datatype WalkResult = WalkResult(targets: seq<Target>, jobs: seq<Job>)

  /** The walk loop: route directories in walk order, each with its pattern and service job. */
  function Walk(records: seq<DirRecord>): Result<WalkResult, PatternError>
  {
    if records == [] then Success(WalkResult([], []))
    else
      var n := |records| - 1;
      var d := records[n];
      match Walk(records[..n])
      case Failure(e) => Failure(e)
      case Success(w) =>
        if !IsRouteDir(d) then Success(w)
        else
          var rp := RouteParts(d.parts);
          match Compile(rp, "api")
          case Failure(e) => Failure(e)
          case Success(p) =>
            var jobs := if d.service.Some? then [Job(d.parts, d.service.value, AliasList(rp))] else [];
            Success(WalkResult(w.targets + [Target(d.parts, rp, p, d.server)], w.jobs + jobs))
  }

  /** `service_instances`: each built directory mapped to its instance, later entries winning. */
  function InstanceMap(built: seq<(Job, Instance)>): map<seq<string>, Instance>
  {
    if built == [] then map[]
    else
      var n := |built| - 1;
      InstanceMap(built[..n])[built[n].0.dir := built[n].1]
  }

  function RouteOf(t: Target, instances: map<seq<string>, Instance>): Route
  {
    Route(t.dir, t.parts, t.pattern, HandlersOf(t.server), if t.dir in instances then Some(instances[t.dir]) else None)
  }

  /** The routes in target order, before sorting. */
  function RoutesOf(targets: seq<Target>, instances: map<seq<string>, Instance>): (r: seq<Route>)
    ensures |r| == |targets| && forall i :: 0 <= i < |r| ==> r[i] == RouteOf(targets[i], instances)
  {
    if targets == [] then []
    else RoutesOf(targets[..|targets| - 1], instances) + [RouteOf(targets[|targets| - 1], instances)]
  }

  /** What a successful discovery returns: sorted routes, the registry, the printed warnings. */
  datatype Discovered = Discovered(routes: seq<Route>, registry: RegistryState, warnings: seq<ShadowWarning>)

  /** `discover_routes` as a value. */
  ghost function Discover(baseExists: bool, records: seq<DirRecord>, sub: (TypeId, TypeId) -> bool): Result<Discovered, DiscoverError>
  {
    if !baseExists then Success(Discovered([], Empty, []))
    else
      match Walk(records)
      case Failure(_) => Failure(BadSegment)
      case Success(w) =>
        var fin := Settle(Empty, w.jobs, CollectorOf(sub));
        if fin.unbuilt != [] then Failure(UnresolvedServices(Dirs(fin.unbuilt)))
        else
          var routes := SortBySpecificity(RoutesOf(w.targets, InstanceMap(fin.built)));
          Success(Discovered(routes, fin.state, ShadowWarnings(routes)))
  }

  /** A missing consumers directory gives no routes and an empty registry. */
  lemma MissingBaseIsEmpty(records: seq<DirRecord>, sub: (TypeId, TypeId) -> bool)
    ensures Discover(false, records, sub) == Success(Discovered([], Empty, []))
    ensures Empty.byType == map[] && Empty.byAlias == map[]
  {
  }

  /** Target `t` comes from route directory `i`. */
  predicate FromRecord(t: Target, records: seq<DirRecord>, i: int)
  {
    && 0 <= i < |records|
    && IsRouteDir(records[i])
    && t.dir == records[i].parts
    && t.parts == RouteParts(records[i].parts)
    && t.server == records[i].server
  }

  /** Job `j` is the service module of route directory `i`, with that route's aliases. */
  predicate JobFromRecord(j: Job, records: seq<DirRecord>, i: int)
  {
    && 0 <= i < |records|
    && IsRouteDir(records[i])
    && records[i].service == Some(j.serviceModule)
    && j.dir == records[i].parts
    && j.aliases == AliasList(RouteParts(records[i].parts))
  }

  /** The walk fails exactly when some route directory has a `[]` segment below "api". */
  lemma {:induction false} WalkFails(records: seq<DirRecord>)
    ensures Walk(records).Failure? <==>
      exists i :: 0 <= i < |records| && IsRouteDir(records[i]) && "[]" in RouteParts(records[i].parts)
  {
    if records != [] {
      var n := |records| - 1;
      var init := records[..n];
      WalkFails(init);
      assert forall i :: 0 <= i < n ==> init[i] == records[i];
      var d := records[n];
      if IsRouteDir(d) {
        CompileProperties(RouteParts(d.parts), "api");
      }
    }
  }

  /** A successful walk compiles each target from its record and takes each job from one. */
  lemma {:induction false} WalkSound(records: seq<DirRecord>)
    ensures Walk(records).Success? ==>
      var w := Walk(records).value;
      && (forall t :: t in w.targets ==> Compile(t.parts, "api") == Success(t.pattern))
      && (forall t :: t in w.targets ==> exists i :: FromRecord(t, records, i))
      && (forall j :: j in w.jobs ==> exists i :: JobFromRecord(j, records, i))
  {
    WalkTargetsSound(records);
    WalkJobsSound(records);
  }

  /** A successful walk over one more record extends the walk over the records before it. */
  lemma WalkStep(records: seq<DirRecord>)
    requires records != [] && Walk(records).Success?
    ensures Walk(records[..|records| - 1]).Success?
    ensures var d := records[|records| - 1];
      !IsRouteDir(d) ==> Walk(records).value == Walk(records[..|records| - 1]).value
    ensures var d := records[|records| - 1];
      IsRouteDir(d) ==>
        var rp := RouteParts(d.parts);
        && Compile(rp, "api").Success?
        && Walk(records).value.targets == Walk(records[..|records| - 1]).value.targets + [Target(d.parts, rp, Compile(rp, "api").value, d.server)]
        && Walk(records).value.jobs == Walk(records[..|records| - 1]).value.jobs
             + (if d.service.Some? then [Job(d.parts, d.service.value, AliasList(rp))] else [])
  {
  }

  lemma {:induction false} WalkTargetsSound(records: seq<DirRecord>)
    ensures Walk(records).Success? ==> forall t :: t in Walk(records).value.targets ==>
      Compile(t.parts, "api") == Success(t.pattern) && exists i :: FromRecord(t, records, i)
  {
    if records != [] && Walk(records).Success? {
      var n := |records| - 1;
      var init := records[..n];
      WalkStep(records);
      WalkTargetsSound(init);
      var w0 := Walk(init).value;
      forall t | t in Walk(records).value.targets
        ensures Compile(t.parts, "api") == Success(t.pattern) && exists i :: FromRecord(t, records, i)
      {
        if t in w0.targets {
          var i :| FromRecord(t, init, i);
          assert FromRecord(t, records, i);
        } else {
          assert FromRecord(t, records, n);
        }
      }
    }
  }

  lemma {:induction false} WalkJobsSound(records: seq<DirRecord>)
    ensures Walk(records).Success? ==> forall j :: j in Walk(records).value.jobs ==> exists i :: JobFromRecord(j, records, i)
  {
    if records != [] && Walk(records).Success? {
      var n := |records| - 1;
      var init := records[..n];
      WalkStep(records);
      WalkJobsSound(init);
      var w0 := Walk(init).value;
      forall j | j in Walk(records).value.jobs
        ensures exists i :: JobFromRecord(j, records, i)
      {
        if j in w0.jobs {
          var i :| JobFromRecord(j, init, i);
          assert JobFromRecord(j, records, i);
        } else {
          var d := records[n];
          assert IsRouteDir(d) && d.service.Some?;
          assert j == Job(d.parts, d.service.value, AliasList(RouteParts(d.parts)));
          assert JobFromRecord(j, records, n);
        }
      }
    }
  }

  /** A route directory, and when `needService` holds, one with a service module. */
  predicate Selected(d: DirRecord, needService: bool)
  {
    IsRouteDir(d) && (needService ==> d.service.Some?)
  }

  /** The positions of the selected directories, in walk order. */
  function RouteDirIndices(records: seq<DirRecord>, needService: bool): (r: seq<nat>)
    ensures forall k :: 0 <= k < |r| ==> r[k] < |records| && Selected(records[r[k]], needService)
    ensures forall k, l :: 0 <= k < l < |r| ==> r[k] < r[l]
    ensures forall i :: 0 <= i < |records| && Selected(records[i], needService) ==> i in r
  {
    if records == [] then []
    else
      var n := |records| - 1;
      var init := records[..n];
      var r0 := RouteDirIndices(init, needService);
      assert forall i :: 0 <= i < n ==> init[i] == records[i];
      r0 + if Selected(records[n], needService) then [n] else []
  }

  /** The targets of a successful walk are the route directories, one each, in walk order. */
  lemma {:induction false} WalkTargetsInOrder(records: seq<DirRecord>)
    ensures Walk(records).Success? ==>
      var ts := Walk(records).value.targets; var ix := RouteDirIndices(records, false);
      |ts| == |ix| && forall k :: 0 <= k < |ix| ==> FromRecord(ts[k], records, ix[k])
  {
    if records != [] && Walk(records).Success? {
      var n := |records| - 1;
      var init := records[..n];
      WalkStep(records);
      WalkTargetsInOrder(init);
      var ts0, ix0 := Walk(init).value.targets, RouteDirIndices(init, false);
      var ts, ix := Walk(records).value.targets, RouteDirIndices(records, false);
      assert ix == ix0 + if Selected(records[n], false) then [n] else [];
      forall k | 0 <= k < |ix0| ensures ts[k] == ts0[k] && ix[k] == ix0[k] && FromRecord(ts[k], records, ix[k]) {
        assert FromRecord(ts0[k], init, ix0[k]);
        assert init[ix0[k]] == records[ix0[k]];
      }
    }
  }

  /** The jobs of a successful walk are the route directories with a service module, in walk order. */
  lemma {:induction false} WalkJobsInOrder(records: seq<DirRecord>)
    ensures Walk(records).Success? ==>
      var js := Walk(records).value.jobs; var ix := RouteDirIndices(records, true);
      |js| == |ix| && forall k :: 0 <= k < |ix| ==> JobFromRecord(js[k], records, ix[k])
  {
    if records != [] && Walk(records).Success? {
      var n := |records| - 1;
      var init := records[..n];
      WalkStep(records);
      WalkJobsInOrder(init);
      var js0, ix0 := Walk(init).value.jobs, RouteDirIndices(init, true);
      var js, ix := Walk(records).value.jobs, RouteDirIndices(records, true);
      assert ix == ix0 + if Selected(records[n], true) then [n] else [];
      forall k | 0 <= k < |ix0| ensures js[k] == js0[k] && ix[k] == ix0[k] && JobFromRecord(js[k], records, ix[k]) {
        assert JobFromRecord(js0[k], init, ix0[k]);
        assert init[ix0[k]] == records[ix0[k]];
      }
    }
  }

  /**
   * The walk fails exactly when some route directory has a `[]` segment below "api"; otherwise
   * the targets are the route directories in walk order, one each, compiled from its route
   * parts, and the jobs are the route directories with a service module, one each, in walk order.
   */
  lemma WalkCorrect(records: seq<DirRecord>)
    ensures Walk(records).Failure? <==>
      exists i :: 0 <= i < |records| && IsRouteDir(records[i]) && "[]" in RouteParts(records[i].parts)
    ensures Walk(records).Success? ==>
      var w := Walk(records).value;
      && (forall t :: t in w.targets ==> Compile(t.parts, "api") == Success(t.pattern))
      && (forall t :: t in w.targets ==> exists i :: FromRecord(t, records, i))
      && (forall j :: j in w.jobs ==> exists i :: JobFromRecord(j, records, i))
    ensures Walk(records).Success? ==>
      var w := Walk(records).value; var ix := RouteDirIndices(records, false);
      |w.targets| == |ix| && forall k :: 0 <= k < |ix| ==> FromRecord(w.targets[k], records, ix[k])
    ensures Walk(records).Success? ==>
      var w := Walk(records).value; var ix := RouteDirIndices(records, true);
      |w.jobs| == |ix| && forall k :: 0 <= k < |ix| ==> JobFromRecord(w.jobs[k], records, ix[k])
  {
    WalkFails(records);
    WalkSound(records);
    WalkTargetsInOrder(records);
    WalkJobsInOrder(records);
  }

  /**
   * A successful discovery returns the routes of the walk, each once, sorted by descending
   * specificity with ties in walk order; every route directory with a service module has its
   * service attached; and the warnings are those of the shadow check over the sorted table.
   */
  lemma DiscoverCorrect(records: seq<DirRecord>, sub: (TypeId, TypeId) -> bool)
    requires Discover(true, records, sub).Success? && Walk(records).Success?
    ensures var w := Walk(records).value;
      var fin := Settle(Empty, w.jobs, CollectorOf(sub));
      var d := Discover(true, records, sub).value;
      && multiset(d.routes) == multiset(RoutesOf(w.targets, InstanceMap(fin.built)))
      && (forall i, j :: 0 <= i < j < |d.routes| ==> !MoreSpecific(Specificity(d.routes[j]), Specificity(d.routes[i])))
      && (forall k :: WithKey(d.routes, Specificity, k) == WithKey(RoutesOf(w.targets, InstanceMap(fin.built)), Specificity, k))
      && d.warnings == ShadowWarnings(d.routes)
      && d.registry == RegisterAll(Empty, fin.built)
      && multiset(JobsOf(fin.built)) == multiset(w.jobs)
  {
    var w := Walk(records).value;
    var fin := Settle(Empty, w.jobs, CollectorOf(sub));
    var routes := RoutesOf(w.targets, InstanceMap(fin.built));
    MoreSpecificIsStrict();
    SortByCorrect(routes, Specificity, MoreSpecific);
    SettlePartitions(Empty, w.jobs, CollectorOf(sub));
    SettleRegisters(Empty, w.jobs, CollectorOf(sub));
  }

  /** Every directory whose service was built finds that instance in `service_instances`. */
  lemma {:induction false} InstanceMapHasBuilt(built: seq<(Job, Instance)>)
    ensures forall e :: e in built ==> e.0.dir in InstanceMap(built)
    ensures forall d :: d in InstanceMap(built) ==> exists e :: e in built && e.0.dir == d && InstanceMap(built)[d] == e.1
  {
    if built != [] {
      var n := |built| - 1;
      InstanceMapHasBuilt(built[..n]);
      assert forall e :: e in built ==> e in built[..n] || e == built[n];
      assert forall e :: e in built[..n] ==> e in built;
    }
  }

  /**
   * The walk loop of `discover_routes`: skips directories without `_server.py` or outside
   * "api", compiles each route (stopping at a `[]` segment) and records its service module.
   */
  method WalkRecords(records: seq<DirRecord>) returns (r: Result<WalkResult, PatternError>)
    ensures r.Success? <==> Walk(records).Success?
    ensures r.Success? ==> r == Walk(records)
  {
    var targets: seq<Target> := [];
    var jobs: seq<Job> := [];
    for i := 0 to |records|
      invariant Walk(records[..i]) == Success(WalkResult(targets, jobs))
    {
      var d := records[i];
      assert records[..i + 1][..i] == records[..i] && records[..i + 1][i] == d;
      if !d.hasServer || "api" !in d.parts {
        continue;
      }
      var routeParts := RouteParts(d.parts);
      var compiled := BuildPattern(routeParts, "api");
      if compiled.Failure? {
        WalkFailureSticks(records, i + 1);
        return Failure(compiled.error);
      }
      targets := targets + [Target(d.parts, routeParts, compiled.value, d.server)];
      if d.service.Some? {
        jobs := jobs + [Job(d.parts, d.service.value, AliasList(routeParts))];
      } else {
        assert jobs + [] == jobs;
      }
    }
    assert records[..|records|] == records;
    return Success(WalkResult(targets, jobs));
  }

  /** The route loop: one route per target, with its handlers and its service if one was built. */
  method BuildRoutes(targets: seq<Target>, instances: map<seq<string>, Instance>) returns (routes: seq<Route>)
    ensures routes == RoutesOf(targets, instances)
  {
    routes := [];
    for i := 0 to |targets|
      invariant routes == RoutesOf(targets[..i], instances)
    {
      var t := targets[i];
      RoutesOfSnoc(targets, i, instances);
      var handlers := CollectHandlers(t.server);
      IsHandlersOf(handlers, t.server);
      var service := if t.dir in instances then Some(instances[t.dir]) else None;
      routes := routes + [Route(t.dir, t.parts, t.pattern, handlers, service)];
    }
    assert targets[..|targets|] == targets;
  }

  /** One more target adds its route at the end. */
  lemma RoutesOfSnoc(targets: seq<Target>, i: nat, instances: map<seq<string>, Instance>)
    requires i < |targets|
    ensures RoutesOf(targets[..i + 1], instances) == RoutesOf(targets[..i], instances) + [RouteOf(targets[i], instances)]
  {
    assert targets[..i + 1][..i] == targets[..i];
  }

  /**
   * `discover_routes`: walks the records, builds the services pass after pass, builds the
   * routes, sorts them by specificity and runs the shadow check.
   */
  method DiscoverRoutes(baseExists: bool, records: seq<DirRecord>, sub: (TypeId, TypeId) -> bool)
    returns (r: Result<(seq<Route>, seq<ShadowWarning>), DiscoverError>, registry: ServiceRegistry)
    ensures registry.Valid()
    ensures match Discover(baseExists, records, sub)
      case Success(d) => r == Success((d.routes, d.warnings)) && registry.State() == d.registry
      case Failure(e) => r == Failure(e)
  {
    registry := new ServiceRegistry(Empty);
    if !baseExists {
      return Success(([], [])), registry;
    }
    var walked := WalkRecords(records);
    if walked.Failure? {
      return Failure(BadSegment), registry;
    }
    var resolver := new DependencyResolver(registry);
    var built := ResolveServices(registry, resolver, walked.value.jobs, sub);
    if built.Failure? {
      return Failure(UnresolvedServices(built.error.dirs)), registry;
    }
    var instances := BuildInstanceMap(built.value);
    var routes := BuildRoutes(walked.value.targets, instances);
    routes := SortBySpecificity(routes);
    var warnings := CheckShadows(routes);
    return Success((routes, warnings)), registry;
  }

  /** Filling `service_instances` entry by entry. */
  method BuildInstanceMap(built: seq<(Job, Instance)>) returns (m: map<seq<string>, Instance>)
    ensures m == InstanceMap(built)
  {
    m := map[];
    for i := 0 to |built|
      invariant m == InstanceMap(built[..i])
    {
      assert built[..i + 1][..i] == built[..i];
      m := m[built[i].0.dir := built[i].1];
    }
    assert built[..|built|] == built;
  }

  /** Once the walk fails on a prefix, it fails on the whole record list. */
  lemma {:induction false} WalkFailureSticks(records: seq<DirRecord>, k: nat)
    requires k <= |records| && Walk(records[..k]).Failure?
    ensures Walk(records).Failure?
    decreases |records| - k
  {
    if k < |records| {
      assert records[..k + 1][..k] == records[..k];
      WalkFailureSticks(records, k + 1);
    } else {
      assert records[..k] == records;
    }
  }
}
