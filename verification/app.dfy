/**
 * The ASGI application of yaaf/app.py: the request object, route selection, reading the request
 * body, and the `App` object that discovers its routes lazily and answers one request at a time.
 */
module App {
  import opened Wrappers
  import opened Text
  import opened Pattern
  import opened Registry
  import opened Resolver
  import opened Routes
  import opened Discovery
  import opened Responses

  /**
   * The keys of an ASGI scope the application reads: `type`, `method`, `path` and `headers`
   * (`None` where the key is absent; absent headers are the empty list).
   */
  datatype Scope = Scope(kind: Option<string>, verb: Option<string>, path: Option<string>, headers: seq<(Bytes, Bytes)>)

  /** `dict(pairs)`: the map a list of pairs builds, a later pair overriding an earlier one. */
  function DictOf<K, V>(pairs: seq<(K, V)>): map<K, V>
  {
    if pairs == [] then map[]
    else
      var last := pairs[|pairs| - 1];
      DictOf(pairs[..|pairs| - 1])[last.0 := last.1]
  }

  /** A key is in `dict(pairs)` exactly when some pair has it, and it maps to its last pair's value. */
  lemma {:induction false} DictOfLastWins<K, V>(pairs: seq<(K, V)>)
    ensures forall k :: k in DictOf(pairs) <==> exists i :: 0 <= i < |pairs| && pairs[i].0 == k
    ensures forall k :: k in DictOf(pairs) ==> exists i ::
      && 0 <= i < |pairs| && pairs[i] == (k, DictOf(pairs)[k])
      && forall j :: i < j < |pairs| ==> pairs[j].0 != k
  {
    if pairs != [] {
      var n := |pairs| - 1;
      var init := pairs[..n];
      DictOfLastWins(init);
      forall k | k in DictOf(pairs) ensures exists i :: 0 <= i < |pairs| && pairs[i].0 == k {
        if k != pairs[n].0 {
          assert k in DictOf(init);
          var i :| 0 <= i < |init| && init[i].0 == k;
          assert pairs[i].0 == k;
        }
      }
      forall k | (exists i :: 0 <= i < |pairs| && pairs[i].0 == k) ensures k in DictOf(pairs) {
        var i :| 0 <= i < |pairs| && pairs[i].0 == k;
        if i < n {
          assert init[i].0 == k;
        }
      }
      forall k | k in DictOf(pairs)
        ensures exists i ::
          && 0 <= i < |pairs| && pairs[i] == (k, DictOf(pairs)[k])
          && forall j :: i < j < |pairs| ==> pairs[j].0 != k
      {
        if k == pairs[n].0 {
          assert pairs[n] == (k, DictOf(pairs)[k]);
        } else {
          var i :| && 0 <= i < |init| && init[i] == (k, DictOf(init)[k])
                   && forall j :: i < j < |init| ==> init[j].0 != k;
          assert pairs[i] == (k, DictOf(pairs)[k]);
          forall j | i < j < |pairs| ensures pairs[j].0 != k {
            if j < n {
              assert init[j].0 == k ==> false;
            }
          }
        }
      }
    }
  }

  /** The HTTP request handed to handlers. */
  datatype Request = Request(scope: Scope, body: Bytes, pathParams: map<string, string>)
  {
    /** `Request.method`: the upper-cased method, empty when the scope has none. */
    function Method(): string
    {
      Upper(scope.verb.GetOr(""))
    }

    /** `Request.path`: the path, empty when the scope has none. */
    function Path(): string
    {
      scope.path.GetOr("")
    }

    /** `Request.headers`: the decoded header pairs, a later duplicate overriding an earlier one. */
    function Headers(decode: Bytes -> string): map<string, string>
    {
      DictOf(ConvertPairs(scope.headers, decode))
    }
  }

  /** The request's method is the scope's method in upper case, and the empty string without one. */
  lemma RequestMethod(request: Request)
    ensures request.scope.verb.None? ==> request.Method() == ""
    ensures request.scope.verb.Some? ==>
      |request.Method()| == |request.scope.verb.value|
      && forall i :: 0 <= i < |request.Method()| ==> request.Method()[i] == UpperChar(request.scope.verb.value[i])
  {
  }

  /**
   * Every raw header name, decoded, is a key; every key comes from some raw pair and maps to
   * the value of its last pair.
   */
  lemma HeadersLastWins(request: Request, decode: Bytes -> string)
    ensures var h := request.Headers(decode); var raw := request.scope.headers;
      && (forall i :: 0 <= i < |raw| ==> decode(raw[i].0) in h)
      && forall k :: k in h ==> exists i ::
        && 0 <= i < |raw| && decode(raw[i].0) == k && decode(raw[i].1) == h[k]
        && forall j :: i < j < |raw| ==> decode(raw[j].0) != k
  {
    var h := request.Headers(decode);
    HeaderNamesPresent(request.scope.headers, decode, h);
    HeaderKeysFromLast(request.scope.headers, decode, h);
  }

  lemma HeaderNamesPresent(raw: seq<(Bytes, Bytes)>, decode: Bytes -> string, h: map<string, string>)
    requires h == DictOf(ConvertPairs(raw, decode))
    ensures forall i :: 0 <= i < |raw| ==> decode(raw[i].0) in h
  {
    var pairs := ConvertPairs(raw, decode);
    DictOfLastWins(pairs);
    forall i | 0 <= i < |raw| ensures decode(raw[i].0) in h {
      assert pairs[i].0 == decode(raw[i].0);
    }
  }

  lemma HeaderKeysFromLast(raw: seq<(Bytes, Bytes)>, decode: Bytes -> string, h: map<string, string>)
    requires h == DictOf(ConvertPairs(raw, decode))
    ensures forall k :: k in h ==> exists i ::
        && 0 <= i < |raw| && decode(raw[i].0) == k && decode(raw[i].1) == h[k]
        && forall j :: i < j < |raw| ==> decode(raw[j].0) != k
  {
    var pairs := ConvertPairs(raw, decode);
    DictOfLastWins(pairs);
    forall k | k in h
      ensures exists i ::
        && 0 <= i < |raw| && decode(raw[i].0) == k && decode(raw[i].1) == h[k]
        && forall j :: i < j < |raw| ==> decode(raw[j].0) != k
    {
      var i :| && 0 <= i < |pairs| && pairs[i] == (k, DictOf(pairs)[k])
               && forall j :: i < j < |pairs| ==> pairs[j].0 != k;
      assert decode(raw[i].0) == k && decode(raw[i].1) == h[k];
      assert forall j :: i < j < |raw| ==> decode(raw[j].0) == pairs[j].0;
      assert forall j :: i < j < |raw| ==> decode(raw[j].0) != k;
    }
  }

  // ---- Route selection --------------------------------------------------------------------

  /** A route answers a request when it has a handler for the method and its pattern matches. */
  predicate Serves(route: Route, verb: string, path: string)
  {
    verb in route.handlers && Match(route.pattern.pattern, path).Some?
  }

  /** The index of the first route that answers the request. */
  function Select(routes: seq<Route>, verb: string, path: string): (r: Option<nat>)
    ensures r.Some? ==> r.value < |routes| && Serves(routes[r.value], verb, path)
    ensures r.Some? ==> forall j :: 0 <= j < r.value ==> !Serves(routes[j], verb, path)
    ensures r.None? <==> forall j :: 0 <= j < |routes| ==> !Serves(routes[j], verb, path)
  {
    if routes == [] then None
    else if Serves(routes[0], verb, path) then Some(0)
    else
      match Select(routes[1..], verb, path)
      case None => None
      case Some(k) => Some(k + 1)
  }

  /** The selection loop of `App.__call__`: the first route serving the request, with its groups. */
  method SelectRoute(routes: seq<Route>, verb: string, path: string) returns (m: Option<(Route, seq<string>)>)
    ensures match Select(routes, verb, path)
      case None => m.None?
      case Some(k) => m == Some((routes[k], Match(routes[k].pattern.pattern, path).value))
  {
    m := None;
    for i := 0 to |routes|
      invariant forall j :: 0 <= j < i ==> !Serves(routes[j], verb, path)
    {
      var route := routes[i];
      if verb !in route.handlers {
        continue;
      }
      var result := Match(route.pattern.pattern, path);
      if result.None? {
        continue;
      }
      m := Some((route, result.value));
      return;
    }
  }

  // ---- Reading the body -------------------------------------------------------------------

  /** A received ASGI message: its `type`, its `body` if present, and whether `more_body` is set. */
  datatype Message = Message(kind: Option<string>, body: Option<Bytes>, moreBody: bool)

  predicate IsRequestMessage(m: Message)
  {
    m.kind == Some("http.request")
  }

  /**
   * The body read from the messages in arrival order, and how many were received: reading stops
   * after a message that is not `http.request` or has no `more_body`, or when none are left.
   */
  function BodyOf(messages: seq<Message>): (Bytes, nat)
  {
    if messages == [] then ([], 0)
    else if !IsRequestMessage(messages[0]) then ([], 1)
    else
      var chunk := messages[0].body.GetOr([]);
      if !messages[0].moreBody then (chunk, 1)
      else
        var rest := BodyOf(messages[1..]);
        (chunk + rest.0, 1 + rest.1)
  }

  /** The concatenated bodies of the `http.request` messages among `messages`. */
  function Chunks(messages: seq<Message>): Bytes
  {
    if messages == [] then []
    else (if IsRequestMessage(messages[0]) then messages[0].body.GetOr([]) else []) + Chunks(messages[1..])
  }

  /**
   * Reading consumes a prefix of the messages whose every message but the last announces more
   * body; it stops early only at a message that ends the body, and the body is the chunks received.
   */
  lemma {:induction false} BodyOfStops(messages: seq<Message>)
    ensures var (body, n) := BodyOf(messages);
      && n <= |messages|
      && (messages != [] ==> n > 0)
      && (forall i :: 0 <= i < n - 1 ==> IsRequestMessage(messages[i]) && messages[i].moreBody)
      && (0 < n < |messages| ==> !IsRequestMessage(messages[n - 1]) || !messages[n - 1].moreBody)
      && body == Chunks(messages[..n])
  {
    if messages != [] {
      var (body, n) := BodyOf(messages);
      if !IsRequestMessage(messages[0]) || !messages[0].moreBody {
        assert messages[..1] == [messages[0]];
        assert Chunks(messages[..1]) == (if IsRequestMessage(messages[0]) then messages[0].body.GetOr([]) else []) + Chunks([]);
      } else {
        var tail := messages[1..];
        BodyOfStops(tail);
        var (b', n') := BodyOf(tail);
        assert n == n' + 1;
        assert messages[..n][1..] == tail[..n'];
        assert Chunks(messages[..n]) == messages[0].body.GetOr([]) + Chunks(tail[..n']);
        forall i | 0 <= i < n - 1 ensures IsRequestMessage(messages[i]) && messages[i].moreBody {
          if i > 0 {
            assert messages[i] == tail[i - 1];
          }
        }
        if 0 < n < |messages| {
          assert messages[n - 1] == tail[n' - 1];
        }
      }
    }
  }

  /** The body loop of `App.__call__`. */
  method ReadBody(messages: seq<Message>) returns (body: Bytes, received: nat)
    ensures (body, received) == BodyOf(messages)
  {
    body := [];
    received := 0;
    var more := true;
    assert messages[0..] == messages;
    assert [] + BodyOf(messages).0 == BodyOf(messages).0;
    while more && received < |messages|
      invariant received <= |messages|
      invariant more ==> BodyOf(messages).0 == body + BodyOf(messages[received..]).0
      invariant more ==> BodyOf(messages).1 == received + BodyOf(messages[received..]).1
      invariant !more ==> BodyOf(messages) == (body, received)
      decreases |messages| - received
    {
      var message := messages[received];
      var rest := messages[received..];
      assert rest[0] == message && rest[1..] == messages[received + 1..];
      received := received + 1;
      if !IsRequestMessage(message) {
        assert BodyOf(rest) == ([], 1);
        assert body + [] == body;
        more := false;
      } else {
        var chunk := message.body.GetOr([]);
        if message.moreBody {
          assert BodyOf(rest).0 == chunk + BodyOf(rest[1..]).0;
          assert body + (chunk + BodyOf(rest[1..]).0) == (body + chunk) + BodyOf(rest[1..]).0;
        } else {
          assert BodyOf(rest) == (chunk, 1);
        }
        body := body + chunk;
        more := message.moreBody;
      }
    }
    if more {
      assert messages[received..] == [];
      assert body + [] == body;
    }
  }

  // ---- Handler context --------------------------------------------------------------------

  /** `dict(zip(route.param_names, groups))` */
  function PathParams(names: seq<string>, groups: seq<string>): map<string, string>
  {
    var n := if |names| <= |groups| then |names| else |groups|;
    DictOf(seq(n, i requires 0 <= i < n => (names[i], groups[i])))
  }

  /**
   * For a match of a compiled pattern, each parameter name maps to the group of its last
   * occurrence, and only parameter names are keys.
   */
  lemma PathParamsOfMatch(names: seq<string>, groups: seq<string>)
    requires |names| == |groups|
    ensures forall k :: k in PathParams(names, groups) <==> k in names
    ensures forall i :: 0 <= i < |names| && (forall j :: i < j < |names| ==> names[j] != names[i]) ==>
      PathParams(names, groups)[names[i]] == groups[i]
  {
    var pairs := seq(|names|, i requires 0 <= i < |names| => (names[i], groups[i]));
    DictOfLastWins(pairs);
    forall k | k in names ensures k in PathParams(names, groups) {
      var i :| 0 <= i < |names| && names[i] == k;
      assert pairs[i].0 == k;
    }
    forall i | 0 <= i < |names| && (forall j :: i < j < |names| ==> names[j] != names[i])
      ensures PathParams(names, groups)[names[i]] == groups[i]
    {
      var k := names[i];
      assert pairs[i].0 == k;
      var i' :| && 0 <= i' < |pairs| && pairs[i'] == (k, DictOf(pairs)[k])
                && forall j :: i' < j < |pairs| ==> pairs[j].0 != k;
      assert i' == i;
    }
  }

  /** A value in the handler context: the request, or the path parameters. */
  datatype ContextValue = RequestValue(request: Request) | ParamsValue(params: map<string, string>)

  /** The context `App.__call__` resolves handler arguments from. */
  function ContextOf(request: Request): (c: map<string, ContextValue>)
  {
    map["request" := RequestValue(request), "params" := ParamsValue(request.pathParams),
        "path_params" := ParamsValue(request.pathParams)]
  }

  /** Handlers can ask for exactly `request`, `params` and `path_params`, the last two the same map. */
  lemma ContextShape(request: Request)
    ensures ContextOf(request).Keys == {"request", "params", "path_params"}
    ensures ContextOf(request)["request"] == RequestValue(request)
    ensures ContextOf(request)["params"] == ContextOf(request)["path_params"] == ParamsValue(request.pathParams)
  {
  }

  // ---- Answering a request ----------------------------------------------------------------

  /** Why a request produced no response: discovery failed, a handler argument is missing, or a bad status. */
  datatype AppError = DiscoveryFailed(discover: DiscoverError) | HandlerFailed(resolve: ResolveError) | StatusFailed(response: ResponseError)

  /** The response to one request (or the exception raised instead) and the messages received. */
  datatype Outcome = Outcome(response: Result<Response, AppError>, received: nat)

  /**
   * `App.__call__` once routes exist: 500 for a scope that is not HTTP, 404 when no route serves
   * the request, and otherwise the handler's value, normalised, after reading the body.
   * `invoke` stands for calling a handler with keyword arguments.
   */
  function Respond(routes: seq<Route>, s: RegistryState, scope: Scope, messages: seq<Message>,
                   invoke: (Handler, map<string, Arg<ContextValue>>) -> Value, lib: Library,
                   sub: (TypeId, TypeId) -> bool): Outcome
    requires Wf(s)
  {
    if scope.kind != Some("http") then Outcome(Success(PlainText("Unsupported scope type", 500, None, lib)), 0)
    else
      var verb := Upper(scope.verb.GetOr(""));
      var path := scope.path.GetOr("");
      match Select(routes, verb, path)
      case None => Outcome(Success(PlainText("Not Found", 404, None, lib)), 0)
      case Some(k) =>
        var route := routes[k];
        var groups := Match(route.pattern.pattern, path).value;
        var read := BodyOf(messages);
        var request := Request(scope, read.0, PathParams(route.pattern.paramNames, groups));
        var handler := route.handlers[verb];
        match Bind(handler.params, ContextOf(request), s, sub)
        case Failure(e) => Outcome(Failure(HandlerFailed(e)), read.1)
        case Success(kw) =>
          match AsResponse(invoke(handler, kw), lib)
          case Failure(e) => Outcome(Failure(StatusFailed(e)), read.1)
          case Success(r) => Outcome(Success(r), read.1)
  }

  /**
   * The body is read only for a request some route serves: a non-HTTP scope gets 500 and an
   * unserved request 404, both without receiving a message.
   */
  lemma RespondReadsOnlyWhenRouted(routes: seq<Route>, s: RegistryState, scope: Scope, messages: seq<Message>,
                                   invoke: (Handler, map<string, Arg<ContextValue>>) -> Value, lib: Library,
                                   sub: (TypeId, TypeId) -> bool)
    requires Wf(s)
    ensures var o := Respond(routes, s, scope, messages, invoke, lib, sub);
      var verb := Upper(scope.verb.GetOr("")); var path := scope.path.GetOr("");
      && (scope.kind != Some("http") ==> o == Outcome(Success(PlainText("Unsupported scope type", 500, None, lib)), 0))
      && (scope.kind == Some("http") && Select(routes, verb, path).None? ==>
            o == Outcome(Success(PlainText("Not Found", 404, None, lib)), 0))
      && (scope.kind == Some("http") && Select(routes, verb, path).Some? ==> o.received == BodyOf(messages).1)
  {
  }

  /**
   * When a route serves the request, the handler of the first such route is called with
   * arguments bound from a context whose request carries the whole body and the path parameters.
   * The outcome is its normalised value, or `StatusFailed` when normalising fails.
   */
  lemma RespondCallsFirstServingHandler(routes: seq<Route>, s: RegistryState, scope: Scope, messages: seq<Message>,
                                        invoke: (Handler, map<string, Arg<ContextValue>>) -> Value, lib: Library,
                                        sub: (TypeId, TypeId) -> bool)
    requires Wf(s) && scope.kind == Some("http")
    requires Select(routes, Upper(scope.verb.GetOr("")), scope.path.GetOr("")).Some?
    ensures var verb := Upper(scope.verb.GetOr("")); var path := scope.path.GetOr("");
      var k := Select(routes, verb, path).value;
      var request := Request(scope, BodyOf(messages).0,
        PathParams(routes[k].pattern.paramNames, Match(routes[k].pattern.pattern, path).value));
      var o := Respond(routes, s, scope, messages, invoke, lib, sub);
      && (forall j :: 0 <= j < k ==> !Serves(routes[j], verb, path))
      && request.Method() == verb && request.Path() == path
      && (o.response.Success? ==>
            Bind(routes[k].handlers[verb].params, ContextOf(request), s, sub).Success?
            && AsResponse(invoke(routes[k].handlers[verb], Bind(routes[k].handlers[verb].params, ContextOf(request), s, sub).value), lib)
               == Success(o.response.value))
      && (Bind(routes[k].handlers[verb].params, ContextOf(request), s, sub).Success? ==>
            o.response == match AsResponse(invoke(routes[k].handlers[verb],
                                                  Bind(routes[k].handlers[verb].params, ContextOf(request), s, sub).value), lib)
                          case Success(r) => Success(r)
                          case Failure(e) => Failure(StatusFailed(e)))
  {
  }

  /** A handler's missing dependency surfaces as the failed request, after the body was read. */
  lemma MissingDependencyFails(routes: seq<Route>, s: RegistryState, scope: Scope, messages: seq<Message>,
                               invoke: (Handler, map<string, Arg<ContextValue>>) -> Value, lib: Library,
                               sub: (TypeId, TypeId) -> bool)
    requires Wf(s) && scope.kind == Some("http")
    requires Select(routes, Upper(scope.verb.GetOr("")), scope.path.GetOr("")).Some?
    ensures var verb := Upper(scope.verb.GetOr("")); var path := scope.path.GetOr("");
      var k := Select(routes, verb, path).value;
      var request := Request(scope, BodyOf(messages).0,
        PathParams(routes[k].pattern.paramNames, Match(routes[k].pattern.pattern, path).value));
      var o := Respond(routes, s, scope, messages, invoke, lib, sub);
      Bind(routes[k].handlers[verb].params, ContextOf(request), s, sub).Failure? ==>
        o == Outcome(Failure(HandlerFailed(Bind(routes[k].handlers[verb].params, ContextOf(request), s, sub).error)), BodyOf(messages).1)
  {
  }

  /**
   * A request for `/api/missing` against the single route `/api/hello` is answered 404, and the
   * request body is never read.
   */
  lemma NotFoundExample(hello: Route, scope: Scope, messages: seq<Message>, s: RegistryState,
                        invoke: (Handler, map<string, Arg<ContextValue>>) -> Value, lib: Library,
                        sub: (TypeId, TypeId) -> bool)
    requires Wf(s) && Compiled(hello) && hello.parts == ["hello"] && "GET" in hello.handlers
    requires scope == Scope(Some("http"), Some("GET"), Some("/api/missing"), [])
    ensures Respond([hello], s, scope, messages, invoke, lib, sub) == Outcome(Success(PlainText("Not Found", 404, None, lib)), 0)
  {
    HelloMissesOtherPath(hello);
    assert Upper("GET") == "GET";
    assert Select([hello], "GET", "/api/missing") == None;
    RespondReadsOnlyWhenRouted([hello], s, scope, messages, invoke, lib, sub);
  }

  /** The route `/api/hello` does not serve `/api/missing`. */
  lemma HelloMissesOtherPath(hello: Route)
    requires Compiled(hello) && hello.parts == ["hello"]
    ensures !Serves(hello, "GET", "/api/missing")
  {
    HelloPath(hello.parts);
    StaticRouteMatchesOnlyItself(hello.parts, "api", "/api/missing");
    var missing := "/api/missing";
    assert missing[5] == 'm';
  }

  /** The route `hello` has no parameter and renders as `/api/hello`. */
  lemma HelloPath(parts: seq<string>)
    requires parts == ["hello"]
    ensures forall i :: 0 <= i < |parts| ==> !IsDynamic(parts[i])
    ensures Render("api", parts) == "/api/hello"
  {
    assert !IsDynamic(parts[0]);
    assert Join(parts, "/") == "hello";
  }

  // ---- The application object ------------------------------------------------------------

  /** `App`: the consumers directory and the lazily discovered routes, registry and resolver. */
  class Application {
    const consumersDir: string
    var routes: Option<seq<Route>>
    var registry: ServiceRegistry?
    var resolver: DependencyResolver?

    /** All three have been set by discovery. */
    predicate Ready()
      reads this
    {
      routes.Some? && registry != null && resolver != null
    }

    /** Once ready, the resolver works on the registry discovery filled. */
    ghost predicate Valid()
      reads this, registry
    {
      Ready() ==> resolver.registry == registry && registry.Valid()
    }

    /** `App(consumers_dir)`: nothing is discovered yet. */
    constructor(consumersDir: string)
      ensures this.consumersDir == consumersDir
      ensures routes.None? && registry == null && resolver == null
      ensures Valid() && !Ready()
    {
      this.consumersDir := consumersDir;
      routes := None;
      registry := null;
      resolver := null;
    }

    /**
     * `_ensure_routes`: discovery of the consumers directory (given here as whether it exists
     * and the records of its subdirectories) runs only while something is unset, and a failed
     * discovery leaves the application as it was.
     */
    method EnsureRoutes(baseExists: bool, records: seq<DirRecord>, sub: (TypeId, TypeId) -> bool)
      returns (r: Result<(), DiscoverError>)
      requires Valid()
      modifies this
      ensures Valid()
      ensures r.Success? <==> Ready()
      ensures old(Ready()) ==> r.Success? && unchanged(this)
      ensures !old(Ready()) ==> match Discover(baseExists, records, sub)
        case Success(d) => r.Success? && Ready() && routes == Some(d.routes) && registry.State() == d.registry
        case Failure(e) => r == Failure(e) && unchanged(this)
    {
      if routes.None? || registry == null || resolver == null {
        var discovered, reg := DiscoverRoutes(baseExists, records, sub);
        if discovered.Failure? {
          return Failure(discovered.error);
        }
        routes := Some(discovered.value.0);
        registry := reg;
        resolver := new DependencyResolver(reg);
      }
      return Success(());
    }

    /**
     * `__call__`: discover if needed, then answer as `Respond` says with the discovered routes
     * and registry; the response is returned instead of being sent.
     */
    method Handle(scope: Scope, messages: seq<Message>, baseExists: bool, records: seq<DirRecord>,
                  invoke: (Handler, map<string, Arg<ContextValue>>) -> Value, lib: Library,
                  sub: (TypeId, TypeId) -> bool)
      returns (o: Outcome)
      requires Valid()
      modifies this
      ensures Valid()
      ensures old(Ready()) ==> unchanged(this)
      ensures !old(Ready()) ==> match Discover(baseExists, records, sub)
        case Success(d) => Ready() && routes == Some(d.routes) && registry.State() == d.registry
        case Failure(e) => !Ready() && unchanged(this) && o == Outcome(Failure(DiscoveryFailed(e)), 0)
      ensures Ready() ==> o == Respond(routes.value, registry.State(), scope, messages, invoke, lib, sub)
      ensures !Ready() ==> (Discover(baseExists, records, sub).Failure?
        && o == Outcome(Failure(DiscoveryFailed(Discover(baseExists, records, sub).error)), 0))
    {
      var ensured := EnsureRoutes(baseExists, records, sub);
      if ensured.Failure? {
        return Outcome(Failure(DiscoveryFailed(ensured.error)), 0);
      }
      if scope.kind != Some("http") {
        return Outcome(Success(PlainText("Unsupported scope type", 500, None, lib)), 0);
      }
      var verb := Upper(scope.verb.GetOr(""));
      var path := scope.path.GetOr("");
      var selected := SelectRoute(routes.value, verb, path);
      if selected.None? {
        return Outcome(Success(PlainText("Not Found", 404, None, lib)), 0);
      }
      var (route, groups) := selected.value;
      var body, received := ReadBody(messages);
      var request := Request(scope, body, PathParams(route.pattern.paramNames, groups));
      var handler := route.handlers[verb];
      var result := resolver.Call((kw: map<string, Arg<ContextValue>>) => invoke(handler, kw),
                                  handler.params, ContextOf(request), sub);
      if result.Failure? {
        return Outcome(Failure(HandlerFailed(result.error)), received);
      }
      match AsResponse(result.value, lib)
      case Failure(e) =>
        return Outcome(Failure(StatusFailed(e)), received);
      case Success(response) =>
        return Outcome(Success(response), received);
    }
  }
}
