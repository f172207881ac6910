# yaaf, modelled in Dafny

yaaf is a small filesystem-routed ASGI framework. Each directory below `consumers/api/` that
holds a `_server.py` is a route. A `[name]` directory is a path parameter. An optional
`_service.py` supplies a service object, and that object is registered for dependency injection.
This project models the framework's core and proves properties about it:

- **Route patterns** (`pattern.dfy`): `build_pattern` compiles route segments to an anchored
  pattern. Here the regular expression is a list of segment matchers: a literal, or a capture of
  a non-empty, slash-free piece. Matching is characterised exactly, both ways, including the
  rule of Python's `$` that also accepts the path with one final newline after it.
- **Service aliases** (`aliases.dfy`): the loader's `_service_alias` and the alias list a route's
  service is registered under.
- **Registry and resolver** (`registry.dfy`, `resolver.dfy`):
  - `ServiceRegistry` is a class over `by_type` (in insertion order) and `by_alias`;
  - `register` writes last-wins;
  - `resolve` tries the exact type, then the first registered subtype, then the type's name;
  - `DependencyResolver.call` binds each parameter from the context, then the registry, then its
    default, and otherwise fails.
- **Discovery** (`services.dfy`, `routes.dfy`, `discovery.dfy`):
  - the walk over directory records;
  - the service worklist, which repeats passes until everything is built or a pass builds nothing;
  - handler collection;
  - the stable sort by specificity;
  - the shadow check, which returns its warnings instead of printing them.
- **Type-hint generator** (`gen_services.dfy`): `generate_services` as the list of text chunks it
  writes, with its own camel-case alias, file classification and case-insensitive sort.
- **Responses** (`responses.dfy`): `_with_type`, `text`, `json`, `with_status` and the
  `as_response` case analysis.
- **Application** (`app.dfy`):
  - `Request.method`, `path` and `headers`;
  - route selection;
  - reading the body from a message list;
  - the handler context;
  - `App`, with lazily discovered routes, as a class with three nullable fields.
- **Version bump** (`bump_version.dfy`): the `[project]` version-line rewrite of
  `scripts/bump_version.py`.
- **Support modules**: `text.dfy` (the `str` operations used), `stable_sort.dfy` (a stable
  insertion sort standing for `list.sort`) and `wrappers.dfy` (`Option`, `Result`).

Exceptions become `Result` failures:

- `ValueError` for a `[]` segment;
- `RuntimeError` for unresolved services;
- `TypeError` for a missing dependency;
- `ValueError` or `TypeError` from `int(status)` for a bad status, both stood for by `BadStatus`;
- `SystemExit` in the bump script.

Library behaviour the code relies on is passed in as parameters:

- `issubclass` becomes a `sub` relation;
- `json.dumps`, `str`, `int` and `.encode()` form the `Library` record;
- `bytes.decode` is a `decode` function;
- handler invocation is an `invoke` function.

The type-hint generator and discovery compute service aliases differently. The generator
splits segments at `_` (yaaf/gen_services.py:16-19) and the loader does not
(yaaf/loader.py:193). The model follows the code of each. `GenServices.AliasesAgree` proves the two agree when no segment holds `_`.
`GenServices.AliasesDisagree` exhibits `foo_bar_baz`, which the generator names
`FooBarBazService` and the loader `Foo_bar_bazService`.

## Model

| member | source | states |
|---|---|---|
| Text.IndexOf | yaaf/loader.py:82 | `parts.index("api")`: the index holds the element and no earlier index does |
| Text.SplitPieces | yaaf/gen_services.py:18 | the pieces of `split(d)` never contain `d`, and joined they give the string with every `d` removed |
| Text.DecimalRoundTrip | yaaf/responses.py:43 | the decimal digits written for a length read back as that length |
| Text.Capitalize | yaaf/loader.py:193 | `p[:1].upper() + p[1:]`: the empty string stays empty; otherwise the first character is upper-cased and the rest is kept |
| Text.CapitalizeLower | yaaf/loader.py:193 | `p[:1].upper() + p[1:]` changes only the case of the first character |
| Pattern.StripDynamic | yaaf/gen_services.py:22-25 | brackets are removed exactly when the segment starts with `[` and ends with `]`; otherwise the segment is unchanged |
| Pattern.BuildPattern | yaaf/loader.py:162-182 | the segment loop of `build_pattern` computes exactly the compiled pattern, including the `[]` error |
| Pattern.CompileProperties | yaaf/loader.py:164-182 | empty parts give the prefix-only pattern with no names and counts 0/0; the result fails iff some segment is `[]`; one matcher per segment, a capture exactly at the dynamic segments and a literal elsewhere; `static_count + len(param_names) == segment_count`; every name is a non-empty bracketed segment |
| Pattern.CountsAddUp | yaaf/loader.py:167-182 | literal count plus parameter count is the segment count, and there is one capture per parameter name |
| Pattern.DynamicNamesFromSegments | yaaf/loader.py:171-175 | every parameter name is non-empty and comes from a `[name]` segment |
| Pattern.Match | yaaf/loader.py:176-181 | a match has one group per capture, each non-empty and slash-free |
| Pattern.AnchoredIff | yaaf/loader.py:176-181 | the pattern matches the whole path with groups `g` iff the path is `/prefix/` followed by pieces that fit the matchers (literals verbatim, captures non-empty and slash-free), and `g` are the captured pieces in order |
| Pattern.MatchIff | yaaf/loader.py:176-181 | `pattern.match(path)` gives groups `g` iff the whole path is rendered from fitting pieces with captures `g`, or no such rendering exists, the path ends in one newline, and the path without it is rendered from fitting pieces with captures `g`: Python's `$` also matches before a final newline |
| Pattern.MatchFromRendered | yaaf/loader.py:181 | a path rendered from fitting pieces matches, and its groups are the capture pieces |
| Pattern.MatchFromDecomposes | yaaf/loader.py:181 | every successful match splits the path into fitting pieces |
| Pattern.GroupsMatchParamNames | yaaf/loader.py:175-176 | a match of a compiled route has one group per parameter name |
| Pattern.StaticRouteMatchesOnlyItself | yaaf/loader.py:178-181 | a route of literal segments matches exactly its own path and its own path followed by one newline, with no groups |
| Pattern.ShadowIff | yaaf/loader.py:150-153 | a static route's path matches an equally long dynamic pattern iff every literal segment of the dynamic route equals the static segment at that position, or the static path ends in a newline, the dynamic route's last segment is a literal equal to the static one without that newline, and the other literals agree |
| Pattern.RenderInjective | yaaf/loader.py:152 | slash-free segment lists of the same length with the same rendered path are equal |
| Aliases.IdentifierParts | yaaf/loader.py:191-192 | only identifier segments are kept, and the result is empty iff no stripped segment is an identifier |
| Aliases.ServiceAlias | yaaf/loader.py:185-194 | the alias ends in "Service"; it is "RouteService" when no segment is an identifier, and otherwise the capitalised identifier segments followed by "Service" |
| Aliases.CapitalizedConcat | yaaf/loader.py:193 | for non-empty parts, the concatenation is empty iff there are no parts |
| Aliases.AliasList | yaaf/loader.py:87-91 | the list is exactly the route key, the service alias and (for a non-empty route) the last part, in that order, with the empty ones dropped; a last part equal to the route key is kept twice |
| Aliases.NonEmpty | yaaf/loader.py:91 | exactly the non-empty aliases are kept, and the first is kept when non-empty |
| Aliases.NonEmptySingle | yaaf/loader.py:91 | one alias is kept exactly when it is non-empty |
| Aliases.NonEmptyAppend | yaaf/loader.py:91 | the filter works piecewise on concatenations, so it keeps order and repeated aliases |
| Aliases.UsersAlias | yaaf/loader.py:87-91 | the `users` route registers under `users`, `UsersService`, `users` |
| Registry.AliasesTo | yaaf/di.py:24-25 | exactly the given aliases are mapped, each to the instance |
| Registry.RegisterEffect | yaaf/di.py:18-26 | after `register(x, aliases)`: the type entry, the type-name alias and every alias map to `x`; other keys keep their values; no other key appears; a new type goes to the end of `by_type`'s order and a known type keeps its place |
| Registry.FirstSubtype | yaaf/di.py:38-42 | the index found is a subtype of the annotation and no earlier type is; no index means no registered type is a subtype |
| Registry.Lookup | yaaf/di.py:28-51 | a resolved instance is one the registry holds |
| Registry.LookupStages | yaaf/di.py:28-51 | a string looks only in `by_alias`; `None` resolves to nothing; a type gets its exact entry, else the first subtype in insertion order, else `by_alias[name]` for a non-empty name, else nothing |
| Registry.RegisterThenResolve | yaaf/di.py:18-35 | a registered instance is found by its type, by each alias and by its type name |
| Registry.LaterRegistrationWins | yaaf/di.py:20-25 | a later registration under a shared alias or the same type replaces the earlier instance |
| Registry.AliasFallbackExample | tests/test_di.py:13-21 | the registry test: `AlphaService` is found by its class and, through the name fallback, by the unrelated class `AlphaAlias` |
| Registry.ServiceRegistry.constructor | yaaf/di.py:12-16 | the registry starts from the given maps |
| Registry.ServiceRegistry.Register | yaaf/di.py:18-26 | the in-place update leaves the state `Registered(old state, x, aliases)` and returns `x` |
| Registry.ServiceRegistry.Resolve | yaaf/di.py:28-51 | the scanning loop with early returns computes `Lookup` |
| Resolver.Supply | yaaf/di.py:64-77 | a context value always wins, even over a registry match, and only a parameter in the context takes one; otherwise the registry result, otherwise the default; missing iff none applies; an unannotated parameter not in the context can only default or be missing |
| Resolver.Bind | yaaf/di.py:60-78 | every bound keyword is a parameter name |
| Resolver.BindFailsAtFirstMissing | yaaf/di.py:64-77 | binding fails iff some parameter has no supply, and the error names the first such parameter |
| Resolver.BindValues | yaaf/di.py:64-76 | with distinct names, each parameter gets the context value, else the registered instance, else it is omitted |
| Resolver.BindFailureSticks | yaaf/di.py:77 | once a prefix of the parameters fails, the whole call fails with the same error |
| Resolver.DependencyResolver.constructor | yaaf/di.py:56-58 | the resolver is bound to the given registry |
| Resolver.DependencyResolver.Call | yaaf/di.py:60-78 | the loop builds exactly `Bind`'s keywords and returns the function applied to them, or the missing-dependency error |
| Services.InvokeOutcome | yaaf/loader.py:47-55 | a factory called with an empty context yields its instance iff all its parameters bind and it returns one; it yields `None` iff they bind and it returns `None` |
| Services.CollectPriority | yaaf/loader.py:42-56 | a non-None `service` decides first (called if callable, returned as is otherwise), then a callable `get_service`, then a callable `Service`, else `None` |
| Services.NoFactoryNeverBuilds | yaaf/loader.py:56 | a module with none of the three attributes never yields a service |
| Services.CollectServices | yaaf/loader.py:42-56 | `_collect_services` through the resolver computes `Collect` |
| Services.Pass | yaaf/loader.py:104-115 | a pass keeps the registry well formed and puts every job in either the built or the remaining list |
| Services.PassPartitions | yaaf/loader.py:105-115 | each job of a pass is built or deferred, exactly once |
| Services.PassRegisters | yaaf/loader.py:113-114 | the pass's registry is the old one with the built services registered in build order |
| Services.DeferredJobsFailedInPass | yaaf/loader.py:106-112 | a pass that builds nothing leaves the registry unchanged, and every job failed to collect in it |
| Services.Settle | yaaf/loader.py:102-119 | the repeated passes keep the registry well formed |
| Services.SettlePasses | yaaf/loader.py:102-119 | the loop runs at least one pass when jobs exist and never more passes than jobs |
| Services.SettlePartitions | yaaf/loader.py:100-119 | every directory's service is built exactly once or left unbuilt |
| Services.SettleRegisters | yaaf/loader.py:113-114 | the final registry holds exactly the built services' registrations, in build order |
| Services.SettleStuck | yaaf/loader.py:116-118 | no job left unbuilt can be collected in the final registry, which is why the loader raises |
| Services.RunPass | yaaf/loader.py:103-115 | one pass of the loop leaves the registry, built list and remaining list that `Pass` gives; `progress` holds iff something was built |
| Services.ResolveServices | yaaf/loader.py:100-119 | the `while unresolved` loop ends in `Settle`'s registry; it succeeds with the built services iff nothing is left, and otherwise fails naming exactly the unbuilt directories |
| ServiceScenarios.HelloWaitsForUsers | consumers/api/hello/_service.py:4-13 | discovered hello-first, the services still settle in two passes, users before hello |
| ServiceScenarios.CircularDependencyFails | yaaf/loader.py:116-118 | two services needing each other build nothing in one pass, and the loader names both |
| Routes.CollectHandlers | yaaf/loader.py:124-128 | a method is in the handler map iff its lower-cased name is a callable attribute of the server module, and it maps to that attribute |
| StableSort.SortByCorrect | yaaf/loader.py:144 | the stable sort returns a permutation of its input, ordered by the key order, with items whose keys tie kept in input order |
| Routes.MoreSpecificIsStrict | yaaf/loader.py:144 | the specificity order is a strict order |
| Routes.SortBySpecificityCorrect | yaaf/loader.py:144 | the sorted routes are a permutation of the input, ordered by descending static count and then descending segment count, and routes of equal specificity keep discovery order |
| Routes.Statics | yaaf/loader.py:146 | exactly the routes without parameters |
| Routes.StaticsSingle | yaaf/loader.py:146 | one route is kept iff it has no parameters |
| Routes.StaticsAppend | yaaf/loader.py:146 | the filter works piecewise on concatenations, so the static routes come in table order, each once |
| Routes.Dynamics | yaaf/loader.py:147 | exactly the routes with parameters |
| Routes.DynamicsSingle | yaaf/loader.py:147 | one route is kept iff it has parameters |
| Routes.DynamicsAppend | yaaf/loader.py:147 | the filter works piecewise on concatenations, so the dynamic routes come in table order, each once |
| Routes.FirstShadowed | yaaf/loader.py:149-158 | the static route reported is the first one in order that the dynamic route shadows |
| Routes.WarningsFor | yaaf/loader.py:148-158 | no more warnings than dynamic routes |
| Routes.FirstShadowedIff | yaaf/loader.py:149-153 | a first shadowed static route exists iff the dynamic route shadows some static route |
| Routes.WarningsPerRoute | yaaf/loader.py:148-158 | the warnings correspond, in order, to a strictly increasing list of dynamic-route positions: exactly the positions of the routes that shadow some static route, so each such route is warned once and no other route is warned, and each warning names that route and the first static route, in order, it shadows |
| Routes.WarningsSound | yaaf/loader.py:148-158 | every warning pairs a dynamic route with a static route it shadows; every dynamic route gets a warning iff each shadows some static route |
| Routes.CheckShadows | yaaf/loader.py:146-158 | the nested loop with `break` computes the warning list |
| Routes.ShadowsIff | yaaf/loader.py:150-153 | for compiled routes, shadowing means the same segment count and agreement on every literal segment, or agreement up to a final newline at the end of the static route's last segment |
| Routes.HelloShadowedByName | tests/test_loader.py:25-39 | with routes `hello` and `[name]`, exactly one warning is given: `[name]` shadows `hello` |
| Routes.HelloWarningText | yaaf/loader.py:154-157 | the warning reads "Warning: dynamic route /api/[name] matches static route /api/hello" |
| Discovery.RoutesOf | yaaf/loader.py:121-142 | one route per target, in target order |
| Discovery.MissingBaseIsEmpty | yaaf/loader.py:61-63 | a missing consumers directory gives no routes and an empty registry |
| Discovery.RouteDirIndices | yaaf/loader.py:74-95 | the positions, strictly increasing, of exactly the route directories (optionally only those with a service module) |
| Discovery.WalkCorrect | yaaf/loader.py:74-95 | the walk fails iff some route directory has a `[]` segment below `api`; otherwise the targets are the route directories, one each and in walk order, each compiled from its route parts, and the jobs are the route directories with a service module, one each and in walk order |
| Discovery.WalkFailureSticks | yaaf/loader.py:84 | the first failing directory makes the whole discovery fail |
| Discovery.InstanceMapHasBuilt | yaaf/loader.py:113 | every built service is found under its directory, and each entry comes from a built service |
| Discovery.DiscoverCorrect | yaaf/loader.py:59-159 | the routes are the walked routes, each once, sorted by descending specificity with ties in walk order; the warnings are the shadow check of these routes; the registry holds exactly the built services; every job was built |
| Discovery.WalkRecords | yaaf/loader.py:74-95 | the walk loop computes `Walk`, failing exactly when it does |
| Discovery.BuildRoutes | yaaf/loader.py:121-142 | the route loop builds `RoutesOf` |
| Discovery.BuildInstanceMap | yaaf/loader.py:113 | the loop fills `service_instances` as `InstanceMap` says |
| Discovery.DiscoverRoutes | yaaf/loader.py:59-159 | `discover_routes` returns exactly the routes, warnings and registry of `Discover`, or its error |
| GenServices.GenServiceAlias | yaaf/gen_services.py:28-32 | the generator's alias ends in "Service" |
| GenServices.CapitalizedPiecesSpelling | yaaf/gen_services.py:18 | capitalising the pieces changes only case and adds no `_` |
| GenServices.CamelCaseSpelling | yaaf/gen_services.py:16-19 | `_camel_case` holds no `_` and, up to case, is the parts run together with every `_` dropped |
| GenServices.GenServiceAliasNoUnderscore | yaaf/gen_services.py:28-32 | the generator's alias holds no `_` |
| GenServices.GenServiceAliasSpelling | yaaf/gen_services.py:28-32 | before "Service", the alias spells the identifier segments without underscores, up to case |
| GenServices.GenServiceAliasFallback | yaaf/gen_services.py:31 | "RouteService" when the identifier segments hold nothing but underscores |
| GenServices.IdentifierPartsNoUnderscore | yaaf/gen_services.py:30 | identifier segments of `_`-free segments are `_`-free |
| GenServices.CamelCaseOfPlainParts | yaaf/gen_services.py:16-19 | on non-empty `_`-free parts, the camel case is capitalise-and-join |
| GenServices.AliasesAgree | yaaf/gen_services.py:28-32 | with no `_` in any segment, the generator's alias equals the loader's |
| GenServices.AliasesDisagree | consumers/api/__init__.py:11 | `foo_bar_baz` becomes "FooBarBazService" in the generator and "Foo_bar_bazService" in the loader |
| GenServices.GenRouteParts | yaaf/gen_services.py:50-51 | the route parts are shorter than the file path |
| GenServices.Classify | yaaf/gen_services.py:48-59 | a file is a dynamic route iff it is below `api` and some route segment is bracketed; a static route is below `api` with only identifier segments |
| GenServices.StaticHasNoDynamicPart | yaaf/gen_services.py:52-57 | a static route has no bracketed segment, and its module path is `base.api.<parts>._service` |
| GenServices.GatherCorrect | yaaf/gen_services.py:47-59 | every import entry comes from a static route file and every stub alias from a dynamic one; every static and dynamic route file contributes |
| GenServices.NoEntriesIff | yaaf/gen_services.py:55-59 | no entries iff no file is a static route |
| GenServices.LexLessStrict | yaaf/gen_services.py:61 | comparison of lower-cased aliases is a strict order |
| GenServices.SortedEntriesCorrect | yaaf/gen_services.py:61 | the entries are sorted by lower-cased alias, as a permutation, and entries with equal keys keep discovery order |
| GenServices.GatherFiles | yaaf/gen_services.py:45-59 | the file loop computes `Gather` |
| GenServices.RenderModule | yaaf/gen_services.py:63-81 | the appends to `lines` build `ModuleLines` |
| GenServices.GenerateServices | yaaf/gen_services.py:35-86 | the written text is the concatenation of `Generated` |
| GenServices.GeneratedImports | yaaf/gen_services.py:52-75 | every import line names a static route's module (never a dynamic one); every static route is imported; every dynamic route gets a Protocol stub |
| GenServices.PassOnlyWithoutImports | yaaf/gen_services.py:65-69 | `pass` is written iff there are no entries |
| GenServices.PassIffNoStaticRoute | yaaf/gen_services.py:65-69 | the TYPE_CHECKING block is `pass` iff no route is static |
| GenServices.EmptyElseBlock | yaaf/gen_services.py:70-72 | as written, with no static route the `else:` block has no indented body |
| GenServices.EmptyTreeExample | yaaf/gen_services.py:63-78 | an `api` tree without routes generates an empty `else:` block |
| GenServices.FixedBlocksHaveBodies | yaaf/gen_services.py:63-78 | with `pass` also under `else:` when there are no entries, both blocks always have bodies |
| GenServices.GatheredAliases | yaaf/gen_services.py:58-59 | every gathered alias ends in "Service" |
| GenServices.GeneratedFixedHasBodies | yaaf/gen_services.py:63-78 | the corrected module for any consumers tree gives every block a body |
| GenServices.FixedAgreesWithStaticRoutes | yaaf/gen_services.py:65-72 | the correction changes nothing when some route is static |
| Responses.Response.WithStatus | yaaf/responses.py:51-53 | only the status changes; body and headers are kept |
| Responses.BuildResponse | yaaf/responses.py:30-44 | the `extend`/`append` steps build exactly `_with_type`'s response |
| Responses.WithTypeHeaders | yaaf/responses.py:39-44 | content-type first, then the extras in the given order, then content-length, whose digits read back as `len(body)` |
| Responses.AsResponseCases | yaaf/responses.py:56-69 | a Response is returned unchanged; bytes give the body, 200 and octet-stream; str gives its encoding, 200 and text/plain; dict and list give the JSON text, 200 and application/json; any other value, including a tuple that is not a pair, gives `str(value)` as text/plain |
| Responses.TupleUnwraps | yaaf/responses.py:64-66 | `(v, s)` succeeds iff `v` normalises and `int(s)` succeeds, and then has status `int(s)` with `v`'s body and headers |
| Responses.OuterStatusWins | yaaf/responses.py:64-66 | in `((v, s1), s2)` the outer status wins |
| Responses.AsResponseIdempotent | yaaf/responses.py:58-59 | normalising an already normalised response changes nothing |
| Responses.TupleStatusExample | tests/test_responses.py:24-27 | `("nope", 404)` gives status 404 and the body "nope" |
| App.DictOfLastWins | yaaf/app.py:93 | `dict(pairs)` has exactly the keys of the pairs, each mapped to the value of its last pair |
| App.RequestMethod | yaaf/app.py:22-25 | the method is the scope's method upper-cased, or "" without one |
| App.HeadersLastWins | yaaf/app.py:32-36 | every raw header name, decoded, is a key; every key comes from a raw pair and holds the value of its last pair |
| App.Select | yaaf/app.py:68-76 | the selected route has a handler for the method and matches the path, and no earlier route does both; nothing is selected iff no route does |
| App.SelectRoute | yaaf/app.py:68-76 | the loop with `continue`/`break` selects `Select`'s route with its groups |
| App.BodyOfStops | yaaf/app.py:84-91 | reading consumes a prefix of the messages; every consumed message but the last is an `http.request` with `more_body`; reading stops early only at a message that ends the body; the body is the concatenation of the received chunks |
| App.ReadBody | yaaf/app.py:84-91 | the `while more_body` loop yields `BodyOf`'s body and message count |
| App.PathParamsOfMatch | yaaf/app.py:93 | for as many groups as names, the keys are exactly the parameter names, and a name's last occurrence maps to its group |
| App.ContextShape | yaaf/app.py:96-100 | the context has exactly the keys request, params and path_params, and params and path_params are the same map |
| App.RespondReadsOnlyWhenRouted | yaaf/app.py:61-91 | a non-http scope gets 500 "Unsupported scope type" and an unserved request gets 404 "Not Found", both without receiving a message; a served request receives the messages `BodyOf` says |
| App.RespondCallsFirstServingHandler | yaaf/app.py:82-105 | the handler of the first serving route is called with arguments bound from a context whose request carries the body and the path parameters and reports the upper-cased method and the scope's path; the response succeeds only with the handler's normalised value, and once binding succeeds the outcome is that value or `StatusFailed` when `int(status)` fails |
| App.MissingDependencyFails | yaaf/app.py:101 | a handler's missing dependency fails the request after the body was read |
| App.NotFoundExample | tests/test_app_integration.py:94-108 | `/api/missing` against the single route `/api/hello` is 404 and reads no body |
| App.Application.constructor | yaaf/app.py:46-51 | a new application has nothing discovered |
| App.Application.EnsureRoutes | yaaf/app.py:53-56 | discovery runs only while a field is unset, so a second call changes nothing; a failed discovery leaves the fields unset |
| App.Application.Handle | yaaf/app.py:58-106 | on a first call the fields become `Discover`'s routes and registry, or, when discovery fails, stay unset with that failure as the outcome; a later call changes nothing; once ready, the outcome is `Respond` over the discovered routes and registry |
| BumpVersion.TargetFrom | scripts/bump_version.py:20-29 | the target is the first line the loop rewrites; no target iff no line qualifies |
| BumpVersion.BumpLines | scripts/bump_version.py:17-34 | the flag loop with its single write and `break` returns `Bump`: the joined lines with the target replaced, or the exit message |
| BumpVersion.HeaderOpens | scripts/bump_version.py:21-25 | the `[project]` header opens the section whatever came before, and is never rewritten |
| BumpVersion.InProjectIff | scripts/bump_version.py:21-25 | the section is open after some lines iff a `[project]` header came earlier and no later line starts with `[` |
| BumpVersion.TargetInSection | scripts/bump_version.py:20-29 | the rewritten line is a version line after a `[project]` header with no `[` line in between, and no earlier line qualified |
| BumpVersion.OutsideSectionUntouched | scripts/bump_version.py:21-26 | a line before any header, or after a `[` line that follows every header, is never rewritten |
| BumpVersion.NoVersionFails | scripts/bump_version.py:31-32 | the script exits with its message iff no line qualifies |
| BumpVersion.SplitJoin | scripts/bump_version.py:34 | splitting the newline-joined lines gives the lines back |
| BumpVersion.BumpOutputLines | scripts/bump_version.py:26-34 | the written text, split at newlines, is the input lines with only the target replaced by `version = "<stamp>"`, then the empty piece after the final newline |
| BumpVersion.ExampleFile | scripts/bump_version.py:20-29 | in a file with version lines before, inside and after `[project]`, only the one inside is the target |

## Left out

- Filesystem and imports are not modelled: `os.walk`, `Path.rglob`, `_load_module`, `sys.path`
  edits and the file reads and writes. Discovery takes a list of directory records, the
  generator a list of file paths, and the bump script a list of lines and a stamp.
- The `re` engine is not modelled. Patterns are explicit segment matchers, so `re.escape` is
  literal equality.
- `inspect.signature` is replaced by parameter descriptors (name, annotation, has-default), and
  `issubclass` by a `sub` parameter, under which `TypeError` and `AttributeError` from
  `issubclass` never occur.
- Library calls are parameters: `json.dumps`, `str(value)`, `int(value)`, `.encode()` and
  `.decode()`. Their results are not specified.
- `str.isidentifier`, `upper`, `lower` and `strip` follow the ASCII subset of Python's rules.
- Async transport is not modelled: `Response.send`, `await receive()` and `await send(...)`,
  `inspect.isawaitable`. A handler's value is taken after any awaiting, and the response is
  returned instead of sent. The incoming messages are a finite list; when it runs out,
  reading stops as if the client had disconnected.
- The shadow warning is returned as data instead of printed.
- `Request.text` (a plain `body.decode()`) is not modelled.
- `content.splitlines()` is not modelled: the bump script takes the lines themselves, and
  `BumpVersion.BumpOutputLines` assumes they hold no newline. Reading the time for the stamp
  is not modelled either: the stamp is a parameter, and the final `print(stamp)`
  (scripts/bump_version.py:35) is left out with the other I/O.
- Sorting in place is modelled as reassigning a sequence with a stable insertion sort,
  not as Python's in-place timsort.
- Exceptions other than those named above (`ImportError`, errors raised inside user code) are not
  modelled; a handler or factory either returns a value or `None`, or raises `TypeError`.
- `yaaf/cli.py`, `yaaf/types.py` and `yaaf/__init__.py` are not part of this model.
- App.Application.Handle: the outcome does not model the handler's own exceptions, which
  propagate out of `__call__` unchanged.

## Findings

| source | as written | input that shows it | evidently intended | confidence | as-written member | corrected member |
|---|---|---|---|---|---|---|
| yaaf/gen_services.py:70-72 | when no route is static, `else:` is written with nothing indented after it, so the generated `__init__.py` is not valid Python | a consumers tree with an `api` directory and no static route (for example none at all, or only `[name]`) | `pass` under `else:` as under `if TYPE_CHECKING:` when there are no static aliases | not executed | GenServices.EmptyElseBlock | GenServices.GeneratedFixedHasBodies |
