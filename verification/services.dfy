/**
 * Building the services of a consumers tree (yaaf/loader.py): how one `_service.py` module
 * yields an instance, and the worklist that builds every module in whatever order the
 * dependencies between them allow.
 */
module Services {
  import opened Wrappers
  import opened Registry
  import opened Resolver

  /** What calling a factory does once its arguments are bound. */
  datatype CallOutcome = Returns(instance: Instance) | ReturnsNone | RaisesTypeError

  /** A callable (class or function): its signature and what its body produces. */
  datatype Callable = Callable(params: seq<Param>, outcome: CallOutcome)

  /** A module attribute: missing, `None`, a plain (non-callable) object, or a callable. */
  datatype Attr = Absent | NoneValue | Plain(value: Instance) | Function(fn: Callable)

  /** The three attributes of a `_service.py` module that yaaf looks at. */
  datatype ServiceModule = ServiceModule(service: Attr, getService: Attr, serviceClass: Attr)

  /** The result of `_collect_services`: an instance, `None`, or a TypeError. */
  datatype Collected = Got(instance: Instance) | GotNone | Raised

  /** `resolver.call(fn, {})`: a missing dependency and a TypeError of the body both raise. */
  function Invoke(fn: Callable, s: RegistryState, sub: (TypeId, TypeId) -> bool): Collected
    requires Wf(s)
  {
    var noContext: map<string, Instance> := map[];
    match Bind(fn.params, noContext, s, sub)
    case Failure(_) => Raised
    case Success(_) =>
      match fn.outcome
      case Returns(x) => Got(x)
      case ReturnsNone => GotNone
      case RaisesTypeError => Raised
  }

  /**
   * `_collect_services`: a non-None `service` wins (called if callable, returned as it is
   * otherwise); then a callable `get_service`; then a callable `Service`; else `None`.
   */
  function Collect(m: ServiceModule, s: RegistryState, sub: (TypeId, TypeId) -> bool): Collected
    requires Wf(s)
  {
    match m.service
    case Plain(x) => Got(x)
    case Function(fn) => Invoke(fn, s, sub)
    case _ =>
      if m.getService.Function? then Invoke(m.getService.fn, s, sub)
      else if m.serviceClass.Function? then Invoke(m.serviceClass.fn, s, sub)
      else GotNone
  }

  /**
   * The factory is invoked with an empty context: it yields its instance exactly when every
   * parameter is resolved from the registry or has a default and its body returns one; a
   * missing dependency and a TypeError of the body both give `Raised`.
   */
  lemma InvokeOutcome(fn: Callable, s: RegistryState, sub: (TypeId, TypeId) -> bool)
    requires Wf(s)
    ensures var r := Invoke(fn, s, sub);
      && (r.Got? <==> fn.outcome.Returns? && Bind<Instance>(fn.params, map[], s, sub).Success?)
      && (r.Got? ==> r.instance == fn.outcome.instance)
      && (r.GotNone? <==> fn.outcome.ReturnsNone? && Bind<Instance>(fn.params, map[], s, sub).Success?)
  {
  }

  /** Shape priority: the highest-priority usable attribute decides, whatever the others hold. */
  lemma CollectPriority(m: ServiceModule, s: RegistryState, sub: (TypeId, TypeId) -> bool)
    requires Wf(s)
    ensures m.service.Plain? ==> Collect(m, s, sub) == Got(m.service.value)
    ensures m.service.Function? ==> Collect(m, s, sub) == Invoke(m.service.fn, s, sub)
    ensures (m.service.Absent? || m.service.NoneValue?) && m.getService.Function? ==>
      Collect(m, s, sub) == Invoke(m.getService.fn, s, sub)
    ensures (m.service.Absent? || m.service.NoneValue?) && !m.getService.Function? && m.serviceClass.Function? ==>
      Collect(m, s, sub) == Invoke(m.serviceClass.fn, s, sub)
    ensures (m.service.Absent? || m.service.NoneValue?) && !m.getService.Function? && !m.serviceClass.Function? ==>
      Collect(m, s, sub) == GotNone
  {
  }

  /** A module that exposes none of the three attributes never yields a service in any state. */
  lemma NoFactoryNeverBuilds(m: ServiceModule, s: RegistryState, sub: (TypeId, TypeId) -> bool)
    requires Wf(s) && (m.service.Absent? || m.service.NoneValue?)
    requires !m.getService.Function? && !m.serviceClass.Function?
    ensures !Collect(m, s, sub).Got?
  {
  }

  /** `_collect_services` on a module, through the resolver bound to the registry. */
  method CollectServices(m: ServiceModule, resolver: DependencyResolver, sub: (TypeId, TypeId) -> bool) returns (r: Collected)
    requires resolver.registry.Valid()
    ensures r == Collect(m, resolver.registry.State(), sub)
  {
    var fn: Callable;
    match m.service {
      case Plain(x) =>
        return Got(x);
      case Function(f) =>
        fn := f;
      case _ =>
        if m.getService.Function? {
          fn := m.getService.fn;
        } else if m.serviceClass.Function? {
          fn := m.serviceClass.fn;
        } else {
          return GotNone;
        }
    }
    var outcome := fn.outcome;
    var call := resolver.Call((kw: map<string, Arg<Instance>>) => outcome, fn.params, map[], sub);
    match call {
      case Failure(_) =>
        r := Raised;
      case Success(Returns(x)) =>
        r := Got(x);
      case Success(ReturnsNone) =>
        r := GotNone;
      case Success(RaisesTypeError) =>
        r := Raised;
    }
  }

  /** One directory with a `_service.py`: its path parts, module and registration aliases. */
  datatype Job = Job(dir: seq<string>, serviceModule: ServiceModule, aliases: seq<string>)

  /** What one pass over the worklist leaves: the registry, the services built, the deferred jobs. */
  datatype PassResult = PassResult(state: RegistryState, built: seq<(Job, Instance)>, remaining: seq<Job>)

  function JobsOf(built: seq<(Job, Instance)>): (r: seq<Job>)
    ensures |r| == |built|
  {
    if built == [] then [] else JobsOf(built[..|built| - 1]) + [built[|built| - 1].0]
  }

  function Dirs(jobs: seq<Job>): (r: seq<seq<string>>)
    ensures |r| == |jobs| && forall i :: 0 <= i < |r| ==> r[i] == jobs[i].dir
  {
    if jobs == [] then [] else Dirs(jobs[..|jobs| - 1]) + [jobs[|jobs| - 1].dir]
  }

  /** The registry after registering each built service with its aliases, in order. */
  function RegisterAll(s: RegistryState, built: seq<(Job, Instance)>): (r: RegistryState)
    requires Wf(s)
    ensures Wf(r)
  {
    if built == [] then s
    else
      var n := |built| - 1;
      Registered(RegisterAll(s, built[..n]), built[n].1, built[n].0.aliases)
  }

  /** How the worklist collects one module against the registry as it stands. */
  type Collector = (ServiceModule, RegistryState) -> Collected

  /** `_collect_services` through a resolver over the given registry state. */
  ghost function CollectorOf(sub: (TypeId, TypeId) -> bool): Collector
  {
    (m: ServiceModule, s: RegistryState) => if Wf(s) then Collect(m, s, sub) else GotNone
  }

  /**
   * One pass of the `while unresolved` loop over `jobs`: each job in turn is collected against
   * the registry as the pass has left it so far; a service is registered at once, a `None` or a
   * TypeError defers the job.
   */
  function Pass(s: RegistryState, jobs: seq<Job>, collect: Collector): (r: PassResult)
    requires Wf(s)
    ensures Wf(r.state)
    ensures |r.built| + |r.remaining| == |jobs|
  {
    if jobs == [] then PassResult(s, [], [])
    else
      var n := |jobs| - 1;
      var p := Pass(s, jobs[..n], collect);
      match collect(jobs[n].serviceModule, p.state)
      case Got(x) => PassResult(Registered(p.state, x, jobs[n].aliases), p.built + [(jobs[n], x)], p.remaining)
      case _ => PassResult(p.state, p.built, p.remaining + [jobs[n]])
  }

  /** Where the worklist ends: final registry, built services in build order, jobs never built. */
  datatype Settlement = Settlement(state: RegistryState, built: seq<(Job, Instance)>, unbuilt: seq<Job>, passes: nat)

  /** Passes repeat while one of them builds something and jobs remain. */
  function Settle(s: RegistryState, jobs: seq<Job>, collect: Collector): (r: Settlement)
    requires Wf(s)
    ensures Wf(r.state)
    decreases |jobs|
  {
    if jobs == [] then Settlement(s, [], [], 0)
    else
      var p := Pass(s, jobs, collect);
      if p.built == [] then Settlement(s, [], jobs, 1)
      else
        var rest := Settle(p.state, p.remaining, collect);
        Settlement(rest.state, p.built + rest.built, rest.unbuilt, rest.passes + 1)
  }

  /** One more job: the pass over `jobs` is the pass over all but the last, then the last job. */
  lemma PassStep(s: RegistryState, jobs: seq<Job>, collect: Collector)
    requires Wf(s) && jobs != []
    ensures var n := |jobs| - 1; var p := Pass(s, jobs[..n], collect);
      var c := collect(jobs[n].serviceModule, p.state);
      && (c.Got? ==> Pass(s, jobs, collect).built == p.built + [(jobs[n], c.instance)]
                     && Pass(s, jobs, collect).remaining == p.remaining
                     && Pass(s, jobs, collect).state == Registered(p.state, c.instance, jobs[n].aliases))
      && (!c.Got? ==> Pass(s, jobs, collect).built == p.built
                      && Pass(s, jobs, collect).remaining == p.remaining + [jobs[n]]
                      && Pass(s, jobs, collect).state == p.state)
  {
  }

  /** The pass over one more job of `jobs`, from the pass over the jobs before it. */
  lemma PassPrefixStep(s: RegistryState, jobs: seq<Job>, i: nat, collect: Collector)
    requires Wf(s) && i < |jobs|
    ensures var p := Pass(s, jobs[..i], collect);
      Pass(s, jobs[..i + 1], collect) ==
        match collect(jobs[i].serviceModule, p.state)
        case Got(x) => PassResult(Registered(p.state, x, jobs[i].aliases), p.built + [(jobs[i], x)], p.remaining)
        case _ => PassResult(p.state, p.built, p.remaining + [jobs[i]])
  {
    assert jobs[..i + 1][..i] == jobs[..i];
  }

  lemma MultisetSnoc<T>(a: seq<T>, x: T)
    ensures multiset(a + [x]) == multiset(a) + multiset{x}
  {
  }

  lemma MultisetLast<T>(a: seq<T>)
    requires a != []
    ensures multiset(a) == multiset(a[..|a| - 1]) + multiset{a[|a| - 1]}
  {
    assert a == a[..|a| - 1] + [a[|a| - 1]];
  }

  /** The last job of a pass lands in exactly one of the two lists. */
  lemma PassPartitionsStep(s: RegistryState, jobs: seq<Job>, collect: Collector)
    requires Wf(s) && jobs != []
    ensures var p := Pass(s, jobs[..|jobs| - 1], collect); var q := Pass(s, jobs, collect);
      multiset(JobsOf(q.built)) + multiset(q.remaining)
        == multiset(JobsOf(p.built)) + multiset(p.remaining) + multiset{jobs[|jobs| - 1]}
  {
    var n := |jobs| - 1;
    var p := Pass(s, jobs[..n], collect);
    PassStep(s, jobs, collect);
    var q := Pass(s, jobs, collect);
    var built, left := multiset(JobsOf(p.built)), multiset(p.remaining);
    if collect(jobs[n].serviceModule, p.state).Got? {
      BuiltJobsSnoc(p.built, q.built, jobs[n]);
      MultisetSwap(built, left, multiset{jobs[n]});
    } else {
      MultisetSnoc(p.remaining, jobs[n]);
      MultisetAssoc(built, left, multiset{jobs[n]});
    }
  }

  lemma MultisetSwap<T>(a: multiset<T>, b: multiset<T>, c: multiset<T>)
    ensures (a + c) + b == (a + b) + c
  {
  }

  lemma MultisetAssoc<T>(a: multiset<T>, b: multiset<T>, c: multiset<T>)
    ensures a + (b + c) == (a + b) + c
  {
  }

  lemma BuiltJobsSnoc(b: seq<(Job, Instance)>, b': seq<(Job, Instance)>, j: Job)
    requires b' != [] && b'[..|b'| - 1] == b && b'[|b'| - 1].0 == j
    ensures multiset(JobsOf(b')) == multiset(JobsOf(b)) + multiset{j}
  {
    MultisetSnoc(JobsOf(b), j);
  }

  /** The pass keeps every job exactly once, either built or deferred. */
  lemma {:induction false} PassPartitions(s: RegistryState, jobs: seq<Job>, collect: Collector)
    requires Wf(s)
    ensures var p := Pass(s, jobs, collect);
      multiset(JobsOf(p.built)) + multiset(p.remaining) == multiset(jobs)
  {
    if jobs != [] {
      var n := |jobs| - 1;
      PassPartitions(s, jobs[..n], collect);
      PassPartitionsStep(s, jobs, collect);
      MultisetLast(jobs);
    }
  }

  /** The pass leaves the registry holding exactly the registrations of what it built, in order. */
  lemma {:induction false} PassRegisters(s: RegistryState, jobs: seq<Job>, collect: Collector)
    requires Wf(s)
    ensures Pass(s, jobs, collect).state == RegisterAll(s, Pass(s, jobs, collect).built)
  {
    if jobs != [] {
      var n := |jobs| - 1;
      PassRegisters(s, jobs[..n], collect);
      PassStep(s, jobs, collect);
      var p := Pass(s, jobs[..n], collect);
      var c := collect(jobs[n].serviceModule, p.state);
      if c.Got? {
        var b := p.built + [(jobs[n], c.instance)];
        assert b[..|b| - 1] == p.built && b[|b| - 1] == (jobs[n], c.instance);
        RegisterAllLast(s, b);
      }
    }
  }

  /** A job is deferred only because collecting it failed in the state the pass had reached. */
  lemma {:induction false} DeferredJobsFailedInPass(s: RegistryState, jobs: seq<Job>, collect: Collector)
    requires Wf(s) && Pass(s, jobs, collect).built == []
    ensures Pass(s, jobs, collect).state == s
    ensures Pass(s, jobs, collect).remaining == jobs
    ensures forall j :: j in jobs ==> !collect(j.serviceModule, s).Got?
  {
    if jobs != [] {
      var n := |jobs| - 1;
      var p := Pass(s, jobs[..n], collect);
      assert !collect(jobs[n].serviceModule, p.state).Got?;
      DeferredJobsFailedInPass(s, jobs[..n], collect);
      assert jobs == jobs[..n] + [jobs[n]];
    }
  }

  /** The worklist stops after at least one and at most one pass per job. */
  lemma {:induction false} SettlePasses(s: RegistryState, jobs: seq<Job>, collect: Collector)
    requires Wf(s)
    ensures Settle(s, jobs, collect).passes <= |jobs|
    ensures jobs != [] ==> Settle(s, jobs, collect).passes >= 1
    decreases |jobs|
  {
    if jobs != [] {
      var p := Pass(s, jobs, collect);
      if p.built != [] {
        SettlePasses(p.state, p.remaining, collect);
      }
    }
  }

  /** Every job is built exactly once or left unbuilt. */
  lemma {:induction false} SettlePartitions(s: RegistryState, jobs: seq<Job>, collect: Collector)
    requires Wf(s)
    ensures var r := Settle(s, jobs, collect);
      multiset(JobsOf(r.built)) + multiset(r.unbuilt) == multiset(jobs)
    decreases |jobs|
  {
    if jobs != [] {
      var p := Pass(s, jobs, collect);
      PassPartitions(s, jobs, collect);
      if p.built != [] {
        SettlePartitions(p.state, p.remaining, collect);
        var rest := Settle(p.state, p.remaining, collect);
        assert Settle(s, jobs, collect).built == p.built + rest.built;
        assert Settle(s, jobs, collect).unbuilt == rest.unbuilt;
        JobsOfAppend(p.built, rest.built);
        var mp, mr, mu := multiset(JobsOf(p.built)), multiset(JobsOf(rest.built)), multiset(rest.unbuilt);
        assert multiset(JobsOf(p.built + rest.built)) == mp + mr;
        MultisetAssoc(mp, mr, mu);
      } else {
        assert JobsOf(Settle(s, jobs, collect).built) == [];
      }
    }
  }

  /** The final registry holds exactly the registrations of the built services, in build order. */
  lemma {:induction false} SettleRegisters(s: RegistryState, jobs: seq<Job>, collect: Collector)
    requires Wf(s)
    ensures Settle(s, jobs, collect).state == RegisterAll(s, Settle(s, jobs, collect).built)
    decreases |jobs|
  {
    if jobs != [] {
      var p := Pass(s, jobs, collect);
      if p.built != [] {
        PassRegisters(s, jobs, collect);
        SettleRegisters(p.state, p.remaining, collect);
        var rest := Settle(p.state, p.remaining, collect);
        assert Settle(s, jobs, collect).built == p.built + rest.built;
        RegisterAllAppend(s, p.built, rest.built);
      }
    }
  }

  /**
   * When jobs are left unbuilt, none of them can be collected in the final registry: a further
   * pass would change nothing, which is when the loader raises.
   */
  lemma {:induction false} SettleStuck(s: RegistryState, jobs: seq<Job>, collect: Collector)
    requires Wf(s)
    ensures var r := Settle(s, jobs, collect);
      forall j :: j in r.unbuilt ==> !collect(j.serviceModule, r.state).Got?
    decreases |jobs|
  {
    if jobs != [] {
      var p := Pass(s, jobs, collect);
      if p.built == [] {
        DeferredJobsFailedInPass(s, jobs, collect);
      } else {
        SettleStuck(p.state, p.remaining, collect);
      }
    }
  }

  lemma {:induction false} JobsOfAppend(a: seq<(Job, Instance)>, b: seq<(Job, Instance)>)
    ensures JobsOf(a + b) == JobsOf(a) + JobsOf(b)
    decreases |b|
  {
    if b == [] {
      assert a + b == a;
    } else {
      var n := |b| - 1;
      assert (a + b)[..|a + b| - 1] == a + b[..n];
      JobsOfAppend(a, b[..n]);
    }
  }

  /** Registering a list is registering all but its last entry, then the last. */
  lemma RegisterAllLast(s: RegistryState, c: seq<(Job, Instance)>)
    requires Wf(s) && c != []
    ensures RegisterAll(s, c) == Registered(RegisterAll(s, c[..|c| - 1]), c[|c| - 1].1, c[|c| - 1].0.aliases)
  {
  }

  lemma {:induction false} RegisterAllAppend(s: RegistryState, a: seq<(Job, Instance)>, b: seq<(Job, Instance)>)
    requires Wf(s)
    ensures RegisterAll(s, a + b) == RegisterAll(RegisterAll(s, a), b)
    decreases |b|
  {
    if b != [] {
      var n := |b| - 1;
      var ab := a + b;
      assert ab[..|ab| - 1] == a + b[..n] && ab[|ab| - 1] == b[n];
      RegisterAllAppend(s, a, b[..n]);
      RegisterAllLast(s, ab);
      RegisterAllLast(RegisterAll(s, a), b);
    } else {
      assert a + b == a;
    }
  }

  /** The RuntimeError of `discover_routes`, naming the directories left unbuilt. */
  datatype LoadError = Unresolved(dirs: seq<seq<string>>)

  /**
   * One pass of the service loop: every job is collected in turn; a built service is
   * registered at once and a job that yields `None` or raises TypeError is kept for the next pass.
   */
  method RunPass(registry: ServiceRegistry, resolver: DependencyResolver, unresolved: seq<Job>, sub: (TypeId, TypeId) -> bool)
    returns (progress: bool, passBuilt: seq<(Job, Instance)>, remaining: seq<Job>)
    requires registry.Valid() && resolver.registry == registry
    modifies registry
    ensures registry.Valid()
    ensures Pass(old(registry.State()), unresolved, CollectorOf(sub)) == PassResult(registry.State(), passBuilt, remaining)
    ensures progress <==> passBuilt != []
  {
    ghost var start := registry.State();
    progress := false;
    remaining := [];
    passBuilt := [];
    for i := 0 to |unresolved|
      invariant registry.Valid()
      invariant Pass(start, unresolved[..i], CollectorOf(sub)) == PassResult(registry.State(), passBuilt, remaining)
      invariant progress <==> passBuilt != []
    {
      PassPrefixStep(start, unresolved, i, CollectorOf(sub));
      var job := unresolved[i];
      var instance := CollectServices(job.serviceModule, resolver, sub);
      assert CollectorOf(sub)(job.serviceModule, registry.State()) == instance;
      if !instance.Got? {
        remaining := remaining + [job];
        continue;
      }
      var _ := registry.Register(instance.instance, job.aliases);
      passBuilt := passBuilt + [(job, instance.instance)];
      progress := true;
    }
    assert unresolved[..|unresolved|] == unresolved;
  }

  /**
   * The service loop of `discover_routes`: passes run while jobs remain, and the loader raises
   * when a pass builds nothing.
   */
  method ResolveServices(registry: ServiceRegistry, resolver: DependencyResolver, jobs: seq<Job>, sub: (TypeId, TypeId) -> bool)
    returns (r: Result<seq<(Job, Instance)>, LoadError>)
    requires registry.Valid() && resolver.registry == registry
    modifies registry
    ensures registry.Valid()
    ensures var fin := Settle(old(registry.State()), jobs, CollectorOf(sub));
      && registry.State() == fin.state
      && r == if fin.unbuilt == [] then Success(fin.built) else Failure(Unresolved(Dirs(fin.unbuilt)))
  {
    ghost var total := Settle(registry.State(), jobs, CollectorOf(sub));
    var built: seq<(Job, Instance)> := [];
    ghost var passes := 0;
    var unresolved := jobs;
    while unresolved != []
      invariant registry.Valid() && resolver.registry == registry
      invariant var fin := Settle(registry.State(), unresolved, CollectorOf(sub));
        total == Settlement(fin.state, built + fin.built, fin.unbuilt, passes + fin.passes)
      decreases |unresolved|
    {
      ghost var start := registry.State();
      var progress, passBuilt, remaining := RunPass(registry, resolver, unresolved, sub);
      if !progress {
        DeferredJobsFailedInPass(start, unresolved, CollectorOf(sub));
        assert built + [] == built;
        return Failure(Unresolved(Dirs(unresolved)));
      }
      ghost var rest := Settle(registry.State(), remaining, CollectorOf(sub));
      assert Settle(start, unresolved, CollectorOf(sub)) == Settlement(rest.state, passBuilt + rest.built, rest.unbuilt, rest.passes + 1);
      assert (built + passBuilt) + rest.built == built + (passBuilt + rest.built);
      built := built + passBuilt;
      passes := passes + 1;
      unresolved := remaining;
    }
    assert built + [] == built;
    return Success(built);
  }
}

/**
 * The dependency between the example services: hello's `Service` takes a `users: UsersService`
 * parameter whose annotation is the stand-in class of consumers/services.py, so it can only be
 * resolved through the "UsersService" alias that the users route registers.
 */
module ServiceScenarios {
  import opened Wrappers
  import opened Registry
  import opened Resolver
  import opened Services

  const UsersStub := TypeId("UsersService", 0)
  const UsersClass := TypeId("Service", 1)
  const HelloClass := TypeId("Service", 2)
  const Users := Instance(UsersClass, 1)
  const Hello := Instance(HelloClass, 2)

  /** A users module whose `Service` class takes no arguments. */
  const UsersJob := Job(["consumers", "api", "users"],
    ServiceModule(Absent, Absent, Function(Callable([], Returns(Users)))),
    ["users", "UsersService", "users"])

  const HelloFactory := Callable([Param("users", OfType(UsersStub), false)], Returns(Hello))

  /** consumers/api/hello/_service.py: `class Service` and `service = Service`. */
  const HelloJob := Job(["consumers", "api", "hello"],
    ServiceModule(Function(HelloFactory), Absent, Function(HelloFactory)),
    ["hello", "HelloService", "hello"])

  /** Classes are related only to themselves. */
  function Exact(u: TypeId, t: TypeId): bool
  {
    u == t
  }

  /** With an empty registry hello cannot be built and users can. */
  lemma CollectOnEmpty()
    ensures CollectorOf(Exact)(HelloJob.serviceModule, Empty) == Raised
    ensures CollectorOf(Exact)(UsersJob.serviceModule, Empty) == Got(Users)
  {
    var noContext: map<string, Instance> := map[];
    var p0 := [Param("users", OfType(UsersStub), false)];
    assert Lookup(Empty, OfType(UsersStub), Exact) == None;
    assert Supply(p0[0], noContext, Empty, Exact) == Missing;
    assert Bind(p0[..0], noContext, Empty, Exact) == Success(map[]);
    assert Bind(p0, noContext, Empty, Exact).Failure?;
    assert Bind<Instance>([], noContext, Empty, Exact) == Success(map[]);
  }

  /** After registering users: one type, and the alias "UsersService" names the instance. */
  lemma UsersRegistry()
    ensures var s1 := Registered(Empty, Users, UsersJob.aliases);
      && UsersStub !in s1.byType && s1.typeOrder == [UsersClass]
      && "UsersService" in s1.byAlias && s1.byAlias["UsersService"] == Users
  {
    RegisterEffect(Empty, Users, UsersJob.aliases);
    assert "UsersService" in UsersJob.aliases;
  }

  /** The annotation `UsersService` resolves, by name, to the users instance. */
  lemma LookupUsersStub()
    ensures Lookup(Registered(Empty, Users, UsersJob.aliases), OfType(UsersStub), Exact) == Some(Users)
  {
    UsersRegistry();
    assert FirstSubtype([UsersClass], UsersStub, Exact) == None;
  }

  /** Once users is registered, hello finds it by its annotation's name. */
  lemma CollectHelloAfterUsers()
    ensures CollectorOf(Exact)(HelloJob.serviceModule, Registered(Empty, Users, UsersJob.aliases)) == Got(Hello)
  {
    var s1 := Registered(Empty, Users, UsersJob.aliases);
    var noContext: map<string, Instance> := map[];
    var p0 := [Param("users", OfType(UsersStub), false)];
    LookupUsersStub();
    assert Supply(p0[0], noContext, s1, Exact) == FromRegistry(Users);
    assert p0[..0] == [];
    assert Bind(p0, noContext, s1, Exact).Success?;
  }

  /** What the scenario needs of a collector: hello fails first and succeeds once users is registered. */
  predicate HelloNeedsUsers(collect: Collector)
  {
    && !collect(HelloJob.serviceModule, Empty).Got?
    && collect(UsersJob.serviceModule, Empty) == Got(Users)
    && collect(HelloJob.serviceModule, Registered(Empty, Users, UsersJob.aliases)) == Got(Hello)
  }

  /** The first pass builds users and defers hello. */
  lemma FirstPass(collect: Collector)
    requires HelloNeedsUsers(collect)
    ensures Pass(Empty, [HelloJob, UsersJob], collect)
      == PassResult(Registered(Empty, Users, UsersJob.aliases), [(UsersJob, Users)], [HelloJob])
  {
    var jobs := [HelloJob, UsersJob];
    assert jobs[..1] == [HelloJob] && [HelloJob][..0] == [];
    assert Pass(Empty, [HelloJob], collect) == PassResult(Empty, [], [HelloJob]);
  }

  /** From the first pass on, hello alone settles in one pass. */
  lemma SecondSettle(collect: Collector)
    requires HelloNeedsUsers(collect)
    ensures var s1 := Registered(Empty, Users, UsersJob.aliases);
      var s2 := Registered(s1, Hello, HelloJob.aliases);
      Settle(s1, [HelloJob], collect) == Settlement(s2, [(HelloJob, Hello)], [], 1)
  {
    var s1 := Registered(Empty, Users, UsersJob.aliases);
    var s2 := Registered(s1, Hello, HelloJob.aliases);
    assert [HelloJob][..0] == [];
    assert Pass(s1, [HelloJob], collect) == PassResult(s2, [(HelloJob, Hello)], []);
    assert Settle(s2, [], collect) == Settlement(s2, [], [], 0);
  }

  /** Any collector with these outcomes settles the two jobs in two passes, users first. */
  lemma SettleHelloUsers(collect: Collector)
    requires HelloNeedsUsers(collect)
    ensures var r := Settle(Empty, [HelloJob, UsersJob], collect);
      r.unbuilt == [] && r.passes == 2 && r.built == [(UsersJob, Users), (HelloJob, Hello)]
  {
    FirstPass(collect);
    SecondSettle(collect);
    assert [(UsersJob, Users)] + [(HelloJob, Hello)] == [(UsersJob, Users), (HelloJob, Hello)];
  }

  /**
   * Discovered hello-first, the services still settle: the first pass defers hello and builds
   * users, the second builds hello.
   */
  lemma HelloWaitsForUsers()
    ensures var r := Settle(Empty, [HelloJob, UsersJob], CollectorOf(Exact));
      && r.unbuilt == []
      && r.passes == 2
      && r.built == [(UsersJob, Users), (HelloJob, Hello)]
  {
    CollectOnEmpty();
    CollectHelloAfterUsers();
    SettleHelloUsers(CollectorOf(Exact));
  }

  /** consumers/api/a: its factory needs `BService`. */
  const AJob := Job(["consumers", "api", "a"],
    ServiceModule(Absent, Absent, Function(Callable([Param("b", Named("BService"), false)], Returns(Instance(TypeId("Service", 5), 5))))),
    ["a", "AService", "a"])

  /** consumers/api/b: its factory needs `AService`. */
  const BJob := Job(["consumers", "api", "b"],
    ServiceModule(Absent, Absent, Function(Callable([Param("a", Named("AService"), false)], Returns(Instance(TypeId("Service", 6), 6))))),
    ["b", "BService", "b"])

  /** A factory whose one parameter names an unregistered service raises on the empty registry. */
  lemma CollectNamedOnEmpty(name: string, stub: string, made: Instance)
    ensures CollectorOf(Exact)(ServiceModule(Absent, Absent, Function(Callable([Param(name, Named(stub), false)], Returns(made)))), Empty) == Raised
  {
    var noContext: map<string, Instance> := map[];
    var ps := [Param(name, Named(stub), false)];
    assert ps[..0] == [];
    assert Bind(ps, noContext, Empty, Exact).Failure?;
  }

  /** A pass in which no job can be built registers nothing and defers both, in order. */
  lemma NeitherBuilt(collect: Collector)
    requires !collect(AJob.serviceModule, Empty).Got? && !collect(BJob.serviceModule, Empty).Got?
    ensures Settle(Empty, [AJob, BJob], collect) == Settlement(Empty, [], [AJob, BJob], 1)
  {
    assert [AJob, BJob][..1] == [AJob] && [AJob][..0] == [];
    assert Pass(Empty, [AJob], collect) == PassResult(Empty, [], [AJob]);
    assert Pass(Empty, [AJob, BJob], collect) == PassResult(Empty, [], [AJob, BJob]);
  }

  /** Two services that each need the other are never built, and the loader names both. */
  lemma CircularDependencyFails()
    ensures var r := Settle(Empty, [AJob, BJob], CollectorOf(Exact));
      r.built == [] && r.unbuilt == [AJob, BJob] && r.passes == 1
  {
    CollectNamedOnEmpty("b", "BService", Instance(TypeId("Service", 5), 5));
    CollectNamedOnEmpty("a", "AService", Instance(TypeId("Service", 6), 6));
    NeitherBuilt(CollectorOf(Exact));
  }
}
