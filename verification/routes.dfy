/**
 * The route table of yaaf/loader.py: the handlers a `_server.py` module offers, the ordering of
 * routes by specificity, and the warning for dynamic routes that would absorb static ones.
 */
module Routes {
  import opened Wrappers
  import opened Text
  import opened Pattern
  import opened StableSort
  import opened Registry
  import opened Resolver

  /** A handler function: its signature and an identity. */
  datatype Handler = Handler(params: seq<Param>, id: nat)

  /** An attribute of a `_server.py` module: a handler function or some other value. */
  datatype ServerAttr = OtherValue | HandlerFn(handler: Handler)

  /** The HTTP methods discovery looks for, in the order it looks. */
  const Methods: seq<string> := ["GET", "POST", "PUT", "DELETE", "PATCH", "OPTIONS", "HEAD"]

  /**
   * The handler map: each method whose lower-cased name is a callable attribute of the
   * server module, mapped to that attribute.
   */
  method CollectHandlers(server: map<string, ServerAttr>) returns (handlers: map<string, Handler>)
    ensures forall m :: m in handlers <==> m in Methods && Lower(m) in server && server[Lower(m)].HandlerFn?
    ensures forall m :: m in handlers ==> handlers[m] == server[Lower(m)].handler
  {
    handlers := map[];
    for i := 0 to |Methods|
      invariant forall m :: m in handlers <==> m in Methods[..i] && Lower(m) in server && server[Lower(m)].HandlerFn?
      invariant forall m :: m in handlers ==> handlers[m] == server[Lower(m)].handler
    {
      var verb := Methods[i];
      var name := Lower(verb);
      PrefixSnoc(Methods, i);
      if name in server && server[name].HandlerFn? {
        handlers := handlers[verb := server[name].handler];
      }
    }
    assert Methods[..|Methods|] == Methods;
  }

  /** Membership in a prefix one element longer. */
  lemma PrefixSnoc<T>(s: seq<T>, i: nat)
    requires i < |s|
    ensures forall x :: x in s[..i + 1] <==> x in s[..i] || x == s[i]
  {
    assert s[..i + 1] == s[..i] + [s[i]];
  }

  /** The handler map of a server module, as a value. */
  function HandlersOf(server: map<string, ServerAttr>): map<string, Handler>
  {
    map m | m in Methods && Lower(m) in server && server[Lower(m)].HandlerFn? :: server[Lower(m)].handler
  }

  /** A map with the keys and values `CollectHandlers` promises is the handler map. */
  lemma IsHandlersOf(handlers: map<string, Handler>, server: map<string, ServerAttr>)
    requires forall m :: m in handlers <==> m in Methods && Lower(m) in server && server[Lower(m)].HandlerFn?
    requires forall m :: m in handlers ==> handlers[m] == server[Lower(m)].handler
    ensures handlers == HandlersOf(server)
  {
  }

  /** A discovered route (`RouteTarget`); the registry every route shares is kept apart. */
  datatype Route = Route(dir: seq<string>, parts: seq<string>, pattern: RoutePattern, handlers: map<string, Handler>, service: Option<Instance>)

  /** A route as discovery builds it: its pattern compiled from directory names below `api`. */
  ghost predicate Compiled(r: Route)
  {
    && Compile(r.parts, "api") == Success(r.pattern)
    && forall i :: 0 <= i < |r.parts| ==> r.parts[i] != "" && '/' !in r.parts[i]
  }

  // ---- Specificity order ------------------------------------------------------------------

  function Specificity(r: Route): (nat, nat)
  {
    (r.pattern.staticCount, r.pattern.segmentCount)
  }

  /** Lexicographically greater: the comparison of `sort(..., reverse=True)` on the key pair. */
  function MoreSpecific(a: (nat, nat), b: (nat, nat)): bool
  {
    a.0 > b.0 || (a.0 == b.0 && a.1 > b.1)
  }

  lemma MoreSpecificIsStrict()
    ensures StrictOrder(MoreSpecific)
  {
  }

  /** `routes.sort(key=(static_count, segment_count), reverse=True)`, a stable sort. */
  function SortBySpecificity(routes: seq<Route>): seq<Route>
  {
    SortBy(routes, Specificity, MoreSpecific)
  }

  /**
   * Sorted routes are the same routes, by descending static count and then descending segment
   * count, and routes of equal specificity keep their discovery order.
   */
  lemma SortBySpecificityCorrect(routes: seq<Route>)
    ensures var r := SortBySpecificity(routes);
      && multiset(r) == multiset(routes)
      && (forall i, j :: 0 <= i < j < |r| ==>
            r[i].pattern.staticCount > r[j].pattern.staticCount
            || (r[i].pattern.staticCount == r[j].pattern.staticCount && r[i].pattern.segmentCount >= r[j].pattern.segmentCount))
      && forall k :: WithKey(r, Specificity, k) == WithKey(routes, Specificity, k)
  {
    MoreSpecificIsStrict();
    SortByCorrect(routes, Specificity, MoreSpecific);
    var r := SortBySpecificity(routes);
    forall i, j | 0 <= i < j < |r|
      ensures r[i].pattern.staticCount > r[j].pattern.staticCount
        || (r[i].pattern.staticCount == r[j].pattern.staticCount && r[i].pattern.segmentCount >= r[j].pattern.segmentCount)
    {
      assert !MoreSpecific(Specificity(r[j]), Specificity(r[i]));
    }
  }

  // ---- Shadow check -----------------------------------------------------------------------

  /** The routes without parameters, in table order (`StaticsAppend`, `StaticsSingle`). */
  function Statics(routes: seq<Route>): (r: seq<Route>)
    ensures forall x :: x in r <==> x in routes && x.pattern.paramNames == []
  {
    if routes == [] then []
    else
      assert routes == [routes[0]] + routes[1..];
      (if routes[0].pattern.paramNames == [] then [routes[0]] else []) + Statics(routes[1..])
  }

  /** The routes with parameters, in table order (`DynamicsAppend`, `DynamicsSingle`). */
  function Dynamics(routes: seq<Route>): (r: seq<Route>)
    ensures forall x :: x in r <==> x in routes && x.pattern.paramNames != []
    ensures |r| <= |routes|
  {
    if routes == [] then []
    else
      assert routes == [routes[0]] + routes[1..];
      (if routes[0].pattern.paramNames != [] then [routes[0]] else []) + Dynamics(routes[1..])
  }

  /** One route is kept as static exactly when it has no parameters. */
  lemma StaticsSingle(x: Route)
    ensures Statics([x]) == if x.pattern.paramNames == [] then [x] else []
  {
    assert [x][1..] == [];
  }

  /** The static filter works piecewise: it keeps table order and every route once. */
  lemma {:induction false} StaticsAppend(a: seq<Route>, b: seq<Route>)
    ensures Statics(a + b) == Statics(a) + Statics(b)
  {
    if a == [] {
      assert a + b == b;
    } else {
      var c := a + b;
      assert c[0] == a[0] && c[1..] == a[1..] + b;
      StaticsAppend(a[1..], b);
      assert Statics(c) == (if a[0].pattern.paramNames == [] then [a[0]] else []) + Statics(c[1..]);
    }
  }

  /** One route is kept as dynamic exactly when it has parameters. */
  lemma DynamicsSingle(x: Route)
    ensures Dynamics([x]) == if x.pattern.paramNames != [] then [x] else []
  {
    assert [x][1..] == [];
  }

  /** The dynamic filter works piecewise: it keeps table order and every route once. */
  lemma {:induction false} DynamicsAppend(a: seq<Route>, b: seq<Route>)
    ensures Dynamics(a + b) == Dynamics(a) + Dynamics(b)
  {
    if a == [] {
      assert a + b == b;
    } else {
      var c := a + b;
      assert c[0] == a[0] && c[1..] == a[1..] + b;
      DynamicsAppend(a[1..], b);
      assert Dynamics(c) == (if a[0].pattern.paramNames != [] then [a[0]] else []) + Dynamics(c[1..]);
    }
  }

  /** The URL path a static route answers. */
  function Candidate(stat: Route): string
  {
    "/api/" + Join(stat.parts, "/")
  }

  /** The dynamic route would answer the static route's path. */
  predicate Shadows(dyn: Route, stat: Route)
  {
    dyn.pattern.segmentCount == stat.pattern.segmentCount && Match(dyn.pattern.pattern, Candidate(stat)).Some?
  }

  /** A warning names the two routes by their segments. */
  datatype ShadowWarning = ShadowWarning(dynamicRoute: seq<string>, staticRoute: seq<string>)

  /** The printed warning line. */
  function WarningText(w: ShadowWarning): string
  {
    "Warning: dynamic route /api/" + Join(w.dynamicRoute, "/") + " matches static route /api/" + Join(w.staticRoute, "/")
  }

  /** The first static route, in order, that the dynamic route shadows. */
  function FirstShadowed(dyn: Route, statics: seq<Route>): (r: Option<nat>)
    ensures r.Some? ==>
      && r.value < |statics|
      && Shadows(dyn, statics[r.value])
      && forall j :: 0 <= j < r.value ==> !Shadows(dyn, statics[j])
    ensures r.None? ==> forall j :: 0 <= j < |statics| ==> !Shadows(dyn, statics[j])
  {
    if statics == [] then None
    else if Shadows(dyn, statics[0]) then Some(0)
    else match FirstShadowed(dyn, statics[1..])
      case None => None
      case Some(i) => Some(i + 1)
  }

  /** The warnings for dynamic routes `dyns` against `statics`: one per shadowing dynamic route. */
  function WarningsFor(dyns: seq<Route>, statics: seq<Route>): (ws: seq<ShadowWarning>)
    ensures |ws| <= |dyns|
  {
    if dyns == [] then []
    else
      var n := |dyns| - 1;
      WarningsFor(dyns[..n], statics) +
        match FirstShadowed(dyns[n], statics)
        case None => []
        case Some(k) => [ShadowWarning(dyns[n].parts, statics[k].parts)]
  }

  /** The warnings of the shadow check over the sorted route list. */
  function ShadowWarnings(routes: seq<Route>): seq<ShadowWarning>
  {
    WarningsFor(Dynamics(routes), Statics(routes))
  }

  /** Every warning pairs a dynamic route with a static route whose path it matches. */
  lemma {:induction false} WarningsPairShadows(dyns: seq<Route>, statics: seq<Route>)
    ensures forall w :: w in WarningsFor(dyns, statics) ==>
      exists d, s :: d in dyns && s in statics && Shadows(d, s) && w == ShadowWarning(d.parts, s.parts)
  {
    if dyns != [] {
      var n := |dyns| - 1;
      WarningsPairShadows(dyns[..n], statics);
      forall w | w in WarningsFor(dyns, statics)
        ensures exists d, s :: d in dyns && s in statics && Shadows(d, s) && w == ShadowWarning(d.parts, s.parts)
      {
        if w in WarningsFor(dyns[..n], statics) {
          var d, s :| d in dyns[..n] && s in statics && Shadows(d, s) && w == ShadowWarning(d.parts, s.parts);
          assert d in dyns;
        } else {
          var k := FirstShadowed(dyns[n], statics).value;
          assert w == ShadowWarning(dyns[n].parts, statics[k].parts);
          assert dyns[n] in dyns && statics[k] in statics;
        }
      }
    }
  }

  /** The dynamic route shadows some static route. */
  predicate ShadowsSome(dyn: Route, statics: seq<Route>)
  {
    exists s :: s in statics && Shadows(dyn, s)
  }

  /** The last dynamic route adds a warning exactly when it shadows some static route. */
  lemma WarningsLength(dyns: seq<Route>, statics: seq<Route>)
    requires dyns != []
    ensures var n := |dyns| - 1;
      |WarningsFor(dyns, statics)| == |WarningsFor(dyns[..n], statics)| + (if ShadowsSome(dyns[n], statics) then 1 else 0)
  {
    var n := |dyns| - 1;
    match FirstShadowed(dyns[n], statics)
    case None =>
    case Some(k) =>
      assert statics[k] in statics;
  }

  /** Every dynamic route shadows some static route. */
  predicate AllShadowSome(dyns: seq<Route>, statics: seq<Route>)
  {
    forall i :: 0 <= i < |dyns| ==> ShadowsSome(dyns[i], statics)
  }

  lemma EverySnoc(dyns: seq<Route>, statics: seq<Route>)
    requires dyns != []
    ensures var n := |dyns| - 1;
      AllShadowSome(dyns, statics) <==> AllShadowSome(dyns[..n], statics) && ShadowsSome(dyns[n], statics)
  {
    var n := |dyns| - 1;
    assert forall i :: 0 <= i < n ==> dyns[..n][i] == dyns[i];
  }

  /** Each dynamic route gets a warning exactly when every one of them shadows some static route. */
  lemma {:induction false} WarningsCount(dyns: seq<Route>, statics: seq<Route>)
    ensures |WarningsFor(dyns, statics)| == |dyns| <==> AllShadowSome(dyns, statics)
  {
    if dyns != [] {
      var n := |dyns| - 1;
      WarningsCount(dyns[..n], statics);
      WarningsLength(dyns, statics);
      EverySnoc(dyns, statics);
    }
  }

  /** A first shadowed static route exists exactly when the dynamic route shadows some static route. */
  lemma FirstShadowedIff(dyn: Route, statics: seq<Route>)
    ensures FirstShadowed(dyn, statics).Some? <==> ShadowsSome(dyn, statics)
  {
    match FirstShadowed(dyn, statics)
    case None =>
    case Some(k) =>
      assert statics[k] in statics;
  }

  /**
   * `idx` lists, in increasing order, the positions of the dynamic routes that got a warning:
   * exactly those that shadow some static route, each warned once, and the warning names the
   * first static route, in order, that it shadows.
   */
  ghost predicate WarnedAt(dyns: seq<Route>, statics: seq<Route>, ws: seq<ShadowWarning>, idx: seq<nat>)
  {
    && |idx| == |ws|
    && Increasing(idx)
    && WarnsAt(dyns, statics, ws, idx)
    && PositionsExact(dyns, statics, idx)
  }

  ghost predicate Increasing(idx: seq<nat>)
  {
    forall k, l :: 0 <= k < l < |idx| ==> idx[k] < idx[l]
  }

  /** The warning at each recorded position names that route's first shadowed static route. */
  ghost predicate WarnsAt(dyns: seq<Route>, statics: seq<Route>, ws: seq<ShadowWarning>, idx: seq<nat>)
    requires |idx| == |ws|
  {
    forall k :: 0 <= k < |idx| ==>
      && idx[k] < |dyns|
      && FirstShadowed(dyns[idx[k]], statics).Some?
      && ws[k] == ShadowWarning(dyns[idx[k]].parts, statics[FirstShadowed(dyns[idx[k]], statics).value].parts)
  }

  /** The recorded positions are exactly those of the shadowing dynamic routes. */
  ghost predicate PositionsExact(dyns: seq<Route>, statics: seq<Route>, idx: seq<nat>)
  {
    forall i :: 0 <= i < |dyns| ==> (ShadowsSome(dyns[i], statics) <==> i in idx)
  }

  /**
   * Per dynamic route: one warning for each dynamic route that shadows some static route, in
   * the order of the dynamic routes, naming the first static route it shadows, and none for
   * the others.
   */
  lemma {:induction false} WarningsPerRoute(dyns: seq<Route>, statics: seq<Route>)
    ensures exists idx :: WarnedAt(dyns, statics, WarningsFor(dyns, statics), idx)
  {
    if dyns == [] {
      assert WarnedAt(dyns, statics, WarningsFor(dyns, statics), []);
    } else {
      var n := |dyns| - 1;
      WarningsPerRoute(dyns[..n], statics);
      var idx :| WarnedAt(dyns[..n], statics, WarningsFor(dyns[..n], statics), idx);
      WarnedSnoc(dyns, statics, idx);
    }
  }

  /** The positions for one more dynamic route: its own position is added when it shadows. */
  lemma WarnedSnoc(dyns: seq<Route>, statics: seq<Route>, idx: seq<nat>)
    requires dyns != []
    requires WarnedAt(dyns[..|dyns| - 1], statics, WarningsFor(dyns[..|dyns| - 1], statics), idx)
    ensures var n := |dyns| - 1;
      WarnedAt(dyns, statics, WarningsFor(dyns, statics), if ShadowsSome(dyns[n], statics) then idx + [n] else idx)
  {
    var n := |dyns| - 1;
    FirstShadowedIff(dyns[n], statics);
    if ShadowsSome(dyns[n], statics) {
      var w := WarningsSnoc(dyns, statics);
      WarnedAdd(dyns, statics, WarningsFor(dyns[..n], statics), idx, w);
    } else {
      var _ := WarningsSnoc(dyns, statics);
      WarnedKeep(dyns, statics, WarningsFor(dyns[..n], statics), idx);
    }
  }

  /** The warnings for one more dynamic route: the earlier ones, then at most its own. */
  lemma WarningsSnoc(dyns: seq<Route>, statics: seq<Route>) returns (w: ShadowWarning)
    requires dyns != []
    ensures var n := |dyns| - 1;
      FirstShadowed(dyns[n], statics).None? ==> WarningsFor(dyns, statics) == WarningsFor(dyns[..n], statics)
    ensures var n := |dyns| - 1;
      FirstShadowed(dyns[n], statics).Some? ==>
        && w == ShadowWarning(dyns[n].parts, statics[FirstShadowed(dyns[n], statics).value].parts)
        && WarningsFor(dyns, statics) == WarningsFor(dyns[..n], statics) + [w]
  {
    var n := |dyns| - 1;
    match FirstShadowed(dyns[n], statics)
    case None =>
      w := ShadowWarning([], []);
      assert WarningsFor(dyns, statics) == WarningsFor(dyns[..n], statics) + [];
    case Some(k) =>
      w := ShadowWarning(dyns[n].parts, statics[k].parts);
  }

  /** A dynamic route that shadows nothing adds no position. */
  lemma WarnedKeep(dyns: seq<Route>, statics: seq<Route>, ws: seq<ShadowWarning>, idx: seq<nat>)
    requires dyns != []
    requires WarnedAt(dyns[..|dyns| - 1], statics, ws, idx)
    requires !ShadowsSome(dyns[|dyns| - 1], statics)
    ensures WarnedAt(dyns, statics, ws, idx)
  {
    var n := |dyns| - 1;
    WarnsAtGrow(dyns, statics, ws, idx);
    var init := dyns[..n];
    forall i | 0 <= i < |dyns| ensures ShadowsSome(dyns[i], statics) <==> i in idx {
      if i < n {
        assert init[i] == dyns[i];
      } else {
        assert forall k :: 0 <= k < |idx| ==> idx[k] != n;
      }
    }
  }

  /** Recorded warnings stay valid when a dynamic route is appended. */
  lemma WarnsAtGrow(dyns: seq<Route>, statics: seq<Route>, ws: seq<ShadowWarning>, idx: seq<nat>)
    requires dyns != [] && |idx| == |ws|
    requires WarnsAt(dyns[..|dyns| - 1], statics, ws, idx)
    ensures WarnsAt(dyns, statics, ws, idx)
    ensures forall k :: 0 <= k < |idx| ==> idx[k] < |dyns| - 1
  {
    var init := dyns[..|dyns| - 1];
    forall k | 0 <= k < |idx|
      ensures && idx[k] < |dyns|
              && FirstShadowed(dyns[idx[k]], statics).Some?
              && ws[k] == ShadowWarning(dyns[idx[k]].parts, statics[FirstShadowed(dyns[idx[k]], statics).value].parts)
    {
      assert init[idx[k]] == dyns[idx[k]];
    }
  }

  /** A dynamic route that shadows adds its position and its warning at the end. */
  lemma WarnedAdd(dyns: seq<Route>, statics: seq<Route>, ws: seq<ShadowWarning>, idx: seq<nat>, w: ShadowWarning)
    requires dyns != []
    requires WarnedAt(dyns[..|dyns| - 1], statics, ws, idx)
    requires FirstShadowed(dyns[|dyns| - 1], statics).Some?
    requires ShadowsSome(dyns[|dyns| - 1], statics)
    requires w == ShadowWarning(dyns[|dyns| - 1].parts, statics[FirstShadowed(dyns[|dyns| - 1], statics).value].parts)
    ensures WarnedAt(dyns, statics, ws + [w], idx + [|dyns| - 1])
  {
    var n := |dyns| - 1;
    WarnsAtGrow(dyns, statics, ws, idx);
    WarnsAtAdd(dyns, statics, ws, idx, w);
    IncreasingAdd(idx, n);
    PositionsAdd(dyns, statics, idx);
  }

  lemma IncreasingAdd(idx: seq<nat>, n: nat)
    requires Increasing(idx)
    requires forall k :: 0 <= k < |idx| ==> idx[k] < n
    ensures Increasing(idx + [n])
  {
    var idx' := idx + [n];
    forall k, l | 0 <= k < l < |idx'| ensures idx'[k] < idx'[l] {
      assert idx'[k] == idx[k];
    }
  }

  lemma WarnsAtAdd(dyns: seq<Route>, statics: seq<Route>, ws: seq<ShadowWarning>, idx: seq<nat>, w: ShadowWarning)
    requires dyns != [] && |idx| == |ws|
    requires WarnsAt(dyns, statics, ws, idx)
    requires FirstShadowed(dyns[|dyns| - 1], statics).Some?
    requires w == ShadowWarning(dyns[|dyns| - 1].parts, statics[FirstShadowed(dyns[|dyns| - 1], statics).value].parts)
    ensures WarnsAt(dyns, statics, ws + [w], idx + [|dyns| - 1])
  {
    var idx', ws' := idx + [|dyns| - 1], ws + [w];
    forall k | 0 <= k < |idx'|
      ensures && idx'[k] < |dyns|
              && FirstShadowed(dyns[idx'[k]], statics).Some?
              && ws'[k] == ShadowWarning(dyns[idx'[k]].parts, statics[FirstShadowed(dyns[idx'[k]], statics).value].parts)
    {
      if k < |idx| {
        assert idx'[k] == idx[k] && ws'[k] == ws[k];
      }
    }
  }

  lemma PositionsAdd(dyns: seq<Route>, statics: seq<Route>, idx: seq<nat>)
    requires dyns != []
    requires PositionsExact(dyns[..|dyns| - 1], statics, idx)
    requires ShadowsSome(dyns[|dyns| - 1], statics)
    ensures PositionsExact(dyns, statics, idx + [|dyns| - 1])
  {
    var n := |dyns| - 1;
    var init, idx' := dyns[..n], idx + [n];
    forall i | 0 <= i < |dyns| ensures ShadowsSome(dyns[i], statics) <==> i in idx' {
      if i < n {
        assert init[i] == dyns[i];
        assert i in idx' <==> i in idx;
      } else {
        assert idx'[|idx|] == n;
      }
    }
  }

  /**
   * Every warning pairs a dynamic route with a static route whose path it matches, there are
   * no more warnings than dynamic routes, and there are as many exactly when every dynamic
   * route shadows some static route (`WarningsPerRoute` gives the warning of each route).
   */
  lemma WarningsSound(dyns: seq<Route>, statics: seq<Route>)
    ensures |WarningsFor(dyns, statics)| <= |dyns|
    ensures forall w :: w in WarningsFor(dyns, statics) ==>
      exists d, s :: d in dyns && s in statics && Shadows(d, s) && w == ShadowWarning(d.parts, s.parts)
    ensures |WarningsFor(dyns, statics)| == |dyns| <==>
      forall i :: 0 <= i < |dyns| ==> ShadowsSome(dyns[i], statics)
  {
    WarningsPairShadows(dyns, statics);
    WarningsCount(dyns, statics);
  }

  /**
   * The inner loop of the shadow check: the static routes are tried in order, those of another
   * length skipped, until one whose path the dynamic pattern matches.
   */
  method FindShadowed(dyn: Route, statics: seq<Route>) returns (k: Option<nat>)
    ensures k == FirstShadowed(dyn, statics)
  {
    var j := 0;
    while j < |statics|
      invariant j <= |statics|
      invariant forall i :: 0 <= i < j ==> !Shadows(dyn, statics[i])
    {
      var stat := statics[j];
      if dyn.pattern.segmentCount != stat.pattern.segmentCount {
        j := j + 1;
        continue;
      }
      var candidate := "/api/" + Join(stat.parts, "/");
      if Match(dyn.pattern.pattern, candidate).Some? {
        assert Shadows(dyn, statics[j]);
        return Some(j);
      }
      j := j + 1;
    }
    return None;
  }

  /** One more dynamic route adds its warning, if any, at the end. */
  lemma WarningsForSnoc(dyns: seq<Route>, statics: seq<Route>, i: nat)
    requires i < |dyns|
    ensures WarningsFor(dyns[..i + 1], statics) == WarningsFor(dyns[..i], statics) +
      match FirstShadowed(dyns[i], statics)
      case None => []
      case Some(k) => [ShadowWarning(dyns[i].parts, statics[k].parts)]
  {
    assert dyns[..i + 1][..i] == dyns[..i];
  }

  /** The outer loop of the shadow check, over the dynamic routes in order. */
  method CheckPairs(dynamics: seq<Route>, statics: seq<Route>) returns (warnings: seq<ShadowWarning>)
    ensures warnings == WarningsFor(dynamics, statics)
  {
    warnings := [];
    for i := 0 to |dynamics|
      invariant warnings == WarningsFor(dynamics[..i], statics)
    {
      var dyn := dynamics[i];
      WarningsForSnoc(dynamics, statics, i);
      var k := FindShadowed(dyn, statics);
      if k.Some? {
        warnings := warnings + [ShadowWarning(dyn.parts, statics[k.value].parts)];
      }
    }
    assert dynamics[..|dynamics|] == dynamics;
  }

  /**
   * The shadow check of `discover_routes`: for each dynamic route, the static routes are tried in
   * order and the first one of the same length whose path the dynamic pattern matches gives a
   * warning, after which the next dynamic route is taken. The routes are not changed.
   */
  method CheckShadows(routes: seq<Route>) returns (warnings: seq<ShadowWarning>)
    ensures warnings == ShadowWarnings(routes)
  {
    var statics := Statics(routes);
    var dynamics := Dynamics(routes);
    warnings := CheckPairs(dynamics, statics);
  }

  /**
   * For compiled routes the check is structural: a dynamic route shadows a static one exactly
   * when both have the same number of segments and every literal segment of the dynamic route
   * equals the static segment at the same position, or, where the static route's last segment
   * ends in a newline and the dynamic route's is literal, when that holds without the newline.
   */
  lemma ShadowsIff(dyn: Route, stat: Route)
    requires Compiled(dyn) && Compiled(stat)
    requires dyn.pattern.paramNames != [] && stat.pattern.paramNames == []
    ensures Shadows(dyn, stat) <==> LiteralsAgree(dyn.parts, stat.parts) || AgreesBeforeNewline(dyn.parts, stat.parts)
  {
    CompiledShape(dyn);
    CompiledShape(stat);
    if |dyn.parts| == |stat.parts| {
      CandidateRendered(stat);
      ShadowIff(dyn.parts, stat.parts, "api");
    }
  }

  /** The path a static route with parts answers is the rendering of its parts under `api`. */
  lemma CandidateRendered(stat: Route)
    requires stat.parts != []
    ensures Candidate(stat) == Render("api", stat.parts)
  {
  }

  /** A compiled route counts one segment per part, and one with parameters has parts. */
  lemma CompiledShape(r: Route)
    requires Compiled(r)
    ensures r.pattern.segmentCount == |r.parts|
    ensures r.pattern.paramNames != [] ==> r.parts != []
  {
    CompileProperties(r.parts, "api");
  }

  lemma StaticThenDynamic(stat: Route, dyn: Route)
    requires stat.pattern.paramNames == [] && dyn.pattern.paramNames != []
    ensures Statics([stat, dyn]) == [stat] && Dynamics([stat, dyn]) == [dyn]
  {
    assert [stat, dyn][1..] == [dyn] && [dyn][1..] == [];
    assert Statics([dyn]) == [] + Statics([]);
    assert Dynamics([dyn]) == [dyn] + Dynamics([]);
    assert Statics([stat, dyn]) == [stat] + Statics([dyn]);
    assert Dynamics([stat, dyn]) == [] + Dynamics([dyn]);
  }

  lemma OneSegmentNames()
    ensures DynamicNames(["hello"]) == [] && DynamicNames(["[name]"]) == ["name"]
  {
    assert IsDynamic("[name]") && !IsDynamic("hello");
    assert ["[name]"][..0] == [] && ["hello"][..0] == [];
    assert StripDynamic("[name]") == "name";
  }

  /**
   * The loader test with routes `hello` and `[name]`: the dynamic route shadows the static one
   * and the printed warning reads as the test expects.
   */
  lemma HelloShadowedByName(hello: Route, name: Route)
    requires Compiled(hello) && hello.parts == ["hello"]
    requires Compiled(name) && name.parts == ["[name]"]
    ensures ShadowWarnings([hello, name]) == [ShadowWarning(["[name]"], ["hello"])]
  {
    OneSegmentNames();
    assert hello.pattern.paramNames == [] && name.pattern.paramNames == ["name"];
    StaticThenDynamic(hello, name);
    ShadowsIff(name, hello);
    assert IsDynamic(name.parts[0]);
    assert Shadows(name, hello);
    assert FirstShadowed(name, [hello]) == Some(0);
    assert [name][..0] == [];
    assert WarningsFor([name], [hello]) == [ShadowWarning(["[name]"], ["hello"])];
  }

  /** The warning line of that test. */
  lemma HelloWarningText()
    ensures WarningText(ShadowWarning(["[name]"], ["hello"])) == "Warning: dynamic route /api/[name] matches static route /api/hello"
  {
    WarningTextSingle("[name]", "hello");
  }

  /** The warning for two one-segment routes. */
  lemma WarningTextSingle(d: string, st: string)
    ensures WarningText(ShadowWarning([d], [st])) == "Warning: dynamic route /api/" + d + " matches static route /api/" + st
  {
  }
}
