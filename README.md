# NextPHP Rest router and container, modelled in Dafny

This project models the two core classes of the NextPHP Rest package:

- `Router` (src/Router.php) registers routes from the attributes of
  controller classes and dispatches a request. Dispatch works in four steps:
  1. strip the configured base URI;
  2. enforce the CORS origin list;
  3. try the route templates of the request's HTTP method in registration
     order, and run the first match through its middleware onion;
  4. turn the outcome into the input response, or a JSON 403, 404 or 500
     response.
- `Container` (src/DI/Container.php) is a singleton cache keyed by class
  name. A miss constructs the class, resolving its class-typed constructor
  parameters recursively.

The model follows the PHP code branch by branch:

- `Router` is a class whose `routes` and `prefix` fields change in place. Its
  methods are proved against ghost specification functions (`RoutingSpec`,
  `DispatchSpec`, `Registration.AddAll`).
- `Container` is a class whose `instances` map its methods reassign. Each
  method is proved against a ghost function over the set of cached class
  names (`DI.Resolve`). That function is in turn proved equivalent to a
  declarative reference, `DI.Resolvable`.
- Pure parts are datatypes, functions and lemmas:
  - path normalisation and the ordered route tables (`RouteTable`);
  - the `{name}` placeholder templates and their PCRE matching
    (`PathTemplate`);
  - the verb-attribute table and route declarations (`Registration`);
  - `array_reduce` middleware composition and its run semantics (`Pipeline`).
- Code the router cannot see is given as data:
  - reflection over controllers and classes;
  - the request's method, path and `Origin` header;
  - middleware `handle` methods and controller actions.

Files:

| file | module |
|---|---|
| wrappers.dfy | `Wrappers`: `Option`, `Result` |
| container.dfy | `DI`: the container |
| template.dfy | `PathTemplate`: route templates and matching |
| route_table.dfy | `RouteTable`: `addRoute`'s normalisation and the per-method tables |
| registration.dfy | `Registration`: attributes to route declarations |
| pipeline.dfy | `Pipeline`: `createMiddlewareHandler` and running the onion |
| cors.dfy | `Cors`: `isOriginAllowed` |
| router.dfy | `Rest`: the `Router` class, `dispatch` and its properties |

## Behaviour of the code worth knowing

The model keeps each of these behaviours of the PHP source:

- **Exact-key fallback is reachable (Router.php:306-312).** A request whose
  path is the literal text of a key with a placeholder, such as
  `/users/{id}`, matches no template of its own key, because `{` is not in
  the class `[a-zA-Z0-9_]` that replaces the placeholder at line 289. When
  no other key's template matches it either (a key such as `/users/{{id}}`
  would, capturing `id`), it reaches the `isset` test at line 306. That branch calls the action with no
  middleware and returns `true` whatever the action returns
  (`Rest.PlaceholderKeyBypassesMiddlewares`).
- **The default base URI `/` hides every route (Router.php:81, 221-223).**
  With the default, line 222 cuts the leading `/` off every path. A stored
  key always starts with `/` (line 196), so a path such as `/users` (one
  whose second character is not `/`) matches nothing and the request ends in
  404 (`Rest.DefaultBaseUriHidesRoutes`). A path starting with `//` keeps a
  leading `/` after the cut and can still match.
- **A caught exception without a logger escapes `dispatch`.** The catch
  block at Router.php:247-248 calls `$this->logger->error(...)` with no null
  check. Without a logger that call raises an `Error`, which escapes the
  dispatcher. The model's reply is then `Crashed`, not 500.
- **A PHP `Error` from a middleware or an action escapes `dispatch`.** The
  catch at Router.php:247 names `\Exception`, which does not cover `Error`
  (a `TypeError`, or an `ArgumentCountError` when the fallback call at line
  310 passes fewer arguments than the action declares). The model's
  `Pipeline.Errored` outcome passes through every layer and ends in
  `Crashed`.
- **A falsy pipeline result is a 404.** Only a truthy result counts as
  handled (`(bool)` at line 301).
- **The container has no cycle detection (Container.php:12-34).** Resolving
  a class whose constructor dependencies lead back to it recurses without
  end, unless some class on the cycle is already cached: the `isset` test at
  lines 14-16 then ends the recursion. The model requires an acyclic class
  graph, which also excludes such pre-seeded cycles.

## Model

| member | source | states |
|---|---|---|
| DI.Container.constructor | src/DI/Container.php:10 | a new container has an empty cache |
| DI.Resolve | src/DI/Container.php:12-34 | resolution only adds to the cache; it adds only existing classes, none ranked above the requested one; success caches the class; a hit changes nothing; an unknown, uncached class fails with "class missing" |
| DI.ResolveAll | src/DI/Container.php:27-28 | resolving the parameters in order only grows the cache; on success every class-typed parameter's class is cached |
| DI.ResolveParam | src/DI/Container.php:36-48 | a class-typed parameter resolves its class; a builtin parameter caches nothing and succeeds exactly when it has a default; without one it fails with "Cannot resolve parameter" and the parameter's name |
| DI.Message | src/DI/Container.php:18 | the missing-class message is the class name between `Class "` and `" does not exist`; the parameter message is `Cannot resolve parameter ` followed by the name, as at line 47 |
| DI.MessageInjective | src/DI/Container.php:47 | two exceptions have the same message exactly when they are the same error for the same class or parameter |
| DI.ResolveAllFirstFailure | src/DI/Container.php:27-28 | a failing parameter list fails at its first failing parameter: every parameter before it resolves, and the list's result is that parameter's result from the cache they left |
| DI.ResolvableMonotone | src/DI/Container.php:14-16 | pre-seeding more of the cache never makes a class unresolvable |
| DI.ResolvableExtension | src/DI/Container.php:14-32 | caching classes that were resolvable anyway leaves resolvability unchanged, in both directions |
| DI.ResolveCorrect | src/DI/Container.php:12-34 | `get` succeeds exactly when the class is resolvable by the reference definition; every class it caches on the way was resolvable |
| DI.ResolveAllCorrect | src/DI/Container.php:27-29 | the parameter list resolves exactly when each parameter is resolvable from the starting cache |
| DI.Container.Get | src/DI/Container.php:12-34 | the cache after the call and the failure match `Resolve`; old entries are kept; each new entry is a fresh instance of its class built from arguments that match its parameters; success returns a non-null value that is now cached under the name; a hit returns the stored instance and changes nothing |
| DI.Container.ResolveParameters | src/DI/Container.php:27-29 | left-to-right resolution that stops at the first exception and agrees with `ResolveAll`; each returned argument is the cached instance of its class, or the default |
| DI.Container.ResolveParameter | src/DI/Container.php:36-48 | agrees with `ResolveParam`; the value is the cached instance for a class type, otherwise the default |
| DI.Container.Set | src/DI/Container.php:50-53 | overwrites exactly the entry for the class |
| DI.GetTwice | src/DI/Container.php:14-16 | a second `get` of a class returns the identical instance; a class that failed fails again |
| DI.SetThenGet | src/DI/Container.php:50-53 | after `set(c, x)` with non-null `x`, `get(c)` returns `x` and constructs nothing |
| PathTemplate.WordRun | src/Router.php:289 | the longest prefix of word characters `[a-zA-Z0-9_]`: all word characters, followed by the end or a non-word character |
| PathTemplate.PlaceholderAt | src/Router.php:289 | a recognised placeholder is `{`, a non-empty run of word characters, then `}` |
| PathTemplate.PlaceholderAtExact | src/Router.php:289 | every `{name}` that starts the template is recognised, with its exact length |
| PathTemplate.Parse | src/Router.php:289 | every placeholder token's name is a valid `[a-zA-Z0-9_]+` word |
| PathTemplate.RenderParse | src/Router.php:289 | compiling a template loses nothing: the tokens spell the template back |
| PathTemplate.ParseTail | src/Router.php:289 | after the first token, compiling goes on from the rest of the template; the first token is a literal exactly when no placeholder starts the template |
| PathTemplate.ParseHeadNotBraced | src/Router.php:289 | a run of literal tokens at the start of the compiled template does not spell a placeholder |
| PathTemplate.ParseLeavesNoBracedLiterals | src/Router.php:289 | no run of literal tokens left by compiling spells a `{name}` placeholder: `preg_replace` replaced every one |
| PathTemplate.Match | src/Router.php:289-291 | a match yields one capture per placeholder; each capture is a word, and together they fill the template to exactly the path |
| PathTemplate.TryLengths | src/Router.php:289-290 | the backtracking step gives captures of the right count that fill the rest of the template to the path |
| PathTemplate.TryLengthsChoice | src/Router.php:289-290 | the group's capture is a prefix of the path of at most the allowed length, and the rest of the template matches what follows it |
| PathTemplate.TryLengthsTop | src/Router.php:289-290 | the longest candidate is taken when the rest matches after it, and given back otherwise |
| PathTemplate.TryLengthsLongest | src/Router.php:289-290 | for every candidate longer than the chosen one, the rest of the template does not match |
| PathTemplate.MatchGreedy | src/Router.php:289-290 | PCRE's choice: the first capture is the longest word prefix after which the rest of the template still matches, and the rest is matched the same way |
| PathTemplate.MatchComplete | src/Router.php:289-290 | every valid filling of the template is matched |
| PathTemplate.MatchIff | src/Router.php:289-290 | a path matches a template if and only if it is a valid filling of it |
| PathTemplate.MatchFill | src/Router.php:289-291 | when placeholders are separated by non-word characters, matching a filled path returns exactly the values filled in |
| PathTemplate.LiteralKeyMatchesItself | src/Router.php:289-290 | a template without placeholders matches its own text with no captures |
| PathTemplate.PlaceholderKeyMissesItself | src/Router.php:289-290 | a template with a placeholder never matches its own literal text |
| RouteTable.NormalizePath | src/Router.php:196 | a stored key always starts with `/` |
| RouteTable.TrimLeftKeepsSuffix | src/Router.php:196 | left trimming keeps a suffix that does not start with `/` |
| RouteTable.TrimLeftDropsSlashes | src/Router.php:196 | left trimming removes only slashes |
| RouteTable.TrimRightKeepsPrefix | src/Router.php:196 | right trimming keeps a prefix that does not end with `/` |
| RouteTable.TrimRightDropsSlashes | src/Router.php:196 | right trimming removes only slashes |
| RouteTable.NormalizeShape | src/Router.php:196 | a stored key starts with `/`; it is either "/" or has no `/` second nor at its end |
| RouteTable.NormalizeRemovesOnlySlashes | src/Router.php:196 | the key is `/` followed by the path with its leading and trailing slashes removed |
| RouteTable.NormalizedFixpoint | src/Router.php:196 | a key of the stored shape is its own normalisation |
| RouteTable.NormalizeIdempotent | src/Router.php:196 | normalising twice is normalising once |
| RouteTable.Lookup | src/Router.php:306-308 | `isset($table[$key])` holds exactly when some entry has that key, and the value is that entry's route |
| RouteTable.Put | src/Router.php:202-206 | after assigning a key the table holds that key with the new route, and it grew by at most one entry |
| RouteTable.PutKeepsPositions | src/Router.php:202-206 | assigning a key replaces only the entry with that key, in place, or appends a new entry at the end |
| RouteTable.PutLookup | src/Router.php:202-206 | after assigning a key, that key holds the new route and every other key what it held before |
| RouteTable.PutUnique | src/Router.php:202-206 | assigning a key keeps the keys unique |
| RouteTable.PutTwice | src/Router.php:202-206 | assigning a key twice leaves only the second route, at the key's position |
| RouteTable.AddRoute | src/Router.php:194-207 | after `addRoute` the method has a table, holding the normalised path with the new route |
| RouteTable.AddRouteOnlyTouchesKey | src/Router.php:194-207 | `addRoute` touches only its method's table, creating it when missing, and in it only the normalised key |
| RouteTable.AddRouteTwice | src/Router.php:194-207 | two `addRoute`s whose paths normalise alike leave only the second route |
| RouteTable.PutWellFormed | src/Router.php:196-206 | assigning a normalised key keeps a table's keys unique and normalised |
| RouteTable.AddRouteWellFormed | src/Router.php:194-207 | `addRoute` keeps every table well formed |
| RouteTable.NormalizedKeyNeedsSlash | src/Router.php:289-290 | a stored key's template never matches a path that does not start with `/` |
| RouteTable.FirstMatch | src/Router.php:287-303 | the hit is the first entry, in table order, whose template matches, with its captures; no hit means no entry matches |
| Registration.VerbOfFirst | src/Router.php:138-150 | the lookup finds a class exactly when the table lists it, and returns the verb of the first such entry |
| Registration.VerbTableDistinct | src/Router.php:139-148 | no attribute class appears twice among the verb arms |
| Registration.HttpMethodFromAttributeTable | src/Router.php:136-151 | each of the ten verb attribute classes maps to its verb; every other class maps to null |
| Registration.NonVerbAttributes | src/Router.php:136-151 | the Middleware and RouteGroup attributes map to null, so they add no route |
| Registration.MiddlewareNames | src/Router.php:159-183 | the names are exactly the arguments of the Middleware attributes, at most one per attribute |
| Registration.MiddlewareNamesAppend | src/Router.php:175-183 | collecting over a concatenation concatenates the collections |
| Registration.CollectMiddlewares | src/Router.php:175-183 | the loop of `getClassMiddlewares`/`getMiddlewares` returns the Middleware attributes' names in attribute order |
| Registration.GroupPrefix | src/Router.php:103-107 | the prefix is the argument of the first RouteGroup attribute, or none when there is none |
| Registration.MethodRoutesIff | src/Router.php:115-121 | a method declares a route exactly when one of its verb attributes does, at prefix + path, with the class middlewares before the method's own |
| Registration.ControllerRoutesIff | src/Router.php:112-123 | a controller declares exactly the routes its methods' verb attributes declare |
| Registration.AddAll | src/Router.php:112-123 | a sequence of `addRoute` calls keeps every method table that existed, and the last call's method has a table |
| Registration.AddAllAppend | src/Router.php:112-123 | applying two batches of `addRoute` calls in turn equals applying their concatenation |
| Registration.AddAllWellFormed | src/Router.php:194-207 | any sequence of registrations keeps every table well formed |
| Registration.LaterRegistrationWins | src/Router.php:202-206 | of two declarations with the same verb and normalised path, the later one is what the table holds |
| Registration.AddAllLookup | src/Router.php:112-123 | after registration a verb and key hold the route of the last declaration for them, or what they held before |
| Pipeline.Reverse | src/Router.php:327 | `array_reverse`: same length, elements in reverse order |
| Pipeline.ReduceNest | src/Router.php:326-335 | folding layers onto a nested handler prepends the reversed list |
| Pipeline.Reduce | src/Router.php:326-335 | the `array_reduce` fold wraps the handler built so far once per middleware: the result's layers are the middlewares in reverse, then the starting handler's layers |
| Pipeline.CreateMiddlewareHandler | src/Router.php:324-336 | the composed handler nests the middlewares in declaration order around the core, first outermost; with none it is the core |
| Pipeline.NestLayers | src/Router.php:324-336 | the layers of the composed handler are the middleware list itself |
| Pipeline.RunSpec | src/Router.php:294-301 | running a handler only ever adds classes to the container's cache |
| Pipeline.Call | src/Router.php:294-301 | calling the composed handler resolves each middleware when it is reached; the result, events and cache agree with `RunSpec` |
| Pipeline.OnionTraceFlat | src/Router.php:326-335 | the onion is all "before"s in declaration order, the core, then all "after"s in reverse order |
| Pipeline.OnionRun | src/Router.php:324-336 | the action runs if and only if every middleware and the controller resolve and every middleware calls `$next`; then the action's result is the result and the events form the onion |
| Pipeline.ActionRunsIff | src/Router.php:324-336 | the action appears in the events exactly when every middleware and the controller pass |
| Pipeline.OnionResult | src/Router.php:324-336 | when all pass, the result is the action's and the events form the onion, cut after the action when it throws |
| Pipeline.ShortCircuit | src/Router.php:328-332 | a middleware that answers itself ends the run with its answer; no inner middleware and not the action runs |
| Cors.OriginAllowed | src/Router.php:264-272 | the reference definition of `isOriginAllowed` (some entry keyed `*` or by the origin lists the method), which `Cors.IsOriginAllowed`'s loop is proved equal to; its own contract adds that an empty list allows nothing, which is why `dispatch` tests for emptiness first (line 225) |
| Cors.IsOriginAllowed | src/Router.php:264-272 | true if and only if some entry, keyed `*` or by the origin, lists the request method |
| Rest.StripBase | src/Router.php:221-223 | a truthy base URI that prefixes the path is cut off; otherwise the path is unchanged |
| Rest.CorsHeaders | src/Router.php:230-232 | three header lines are sent, and the first carries the request's origin exactly, after the `Access-Control-Allow-Origin: ` field name |
| Rest.RoutingSpec | src/Router.php:282-315 | routing only adds to the container's cache; when no template matches, the request is unhandled exactly when no key equals the path |
| Rest.Conclude | src/Router.php:241-253 | the reply after routing: the input response exactly when the request was handled, 404 exactly when it was not, 500 carrying the exception's message exactly when an exception was thrown and a logger is set, and an escape exactly for an `Error` or an exception without a logger |
| Rest.DispatchSpec | src/Router.php:216-255 | dispatch only adds to the container's cache; it answers 403 exactly when a configured origin list rejects the origin/method pair |
| Rest.DispatchForbidden | src/Router.php:225-238 | unfolding helper for `Rest.Router.Dispatch`: a configured origin list that rejects the origin/method pair gives 403, with no headers, no routing and no cache change |
| Rest.DispatchAllowed | src/Router.php:225-254 | unfolding helper for `Rest.Router.Dispatch`: otherwise the three CORS headers are sent (when a list is configured) and the routing outcome decides the reply |
| Rest.Router.constructor | src/Router.php:79-85 | the base URI defaults to "/"; allowed origins default to none; the route table starts empty |
| Rest.Router.AddRoute | src/Router.php:194-207 | the table becomes `RouteTable.AddRoute` of the old one; the prefix is unchanged; the tables stay well formed |
| Rest.Router.RegisterRoutesFromController | src/Router.php:92-128 | an unknown class registers nothing; otherwise the table gets every declared route in reflection order under the group prefix; the prefix is restored and the tables stay well formed |
| Rest.Router.RegisterMethod | src/Router.php:113-122 | one `addRoute` per verb attribute of the method, in attribute order; the tables stay well formed |
| Rest.Router.HandleRouting | src/Router.php:282-315 | outcome, events and container cache agree with `RoutingSpec`: the first matching template's pipeline, else the exact-key fallback (handled unless the action throws or raises an `Error`), else unhandled; the cache only grows |
| Rest.Router.Dispatch | src/Router.php:216-255 | reply, headers, events and cache agree with `DispatchSpec`: 403 before routing, then 500 with an exception's message (or an escape without a logger), an escape for a PHP `Error`, 404, or the input response |
| Rest.Router.GetRoutes | src/Router.php:343-346 | returns the table, whose keys are unique and normalised |
| Rest.DefaultBaseUriHidesRoutes | src/Router.php:221-246 | with the default base URI "/", a request for a path such as `/users` ends in 404; nothing runs and nothing is cached |
| Rest.UnslashedPathMatchesNothing | src/Router.php:282-315 | a path not starting with `/` is not handled, runs nothing and caches nothing |
| Rest.MatchedRouteRunsOnion | src/Router.php:287-301 | for a matched route whose middlewares pass and whose controller resolves, the action runs with the captures inside the onion; its truthiness decides handled or 404 |
| Rest.PlaceholderKeyBypassesMiddlewares | src/Router.php:306-312 | when no template in the method's table matches a request whose path is a stored key, such as the literal text of a placeholder key, the action runs with no middleware; it counts as handled unless the action throws an exception or raises an `Error`, which pass through |

## Left out

- Reflection is given as data:
  - `ReflectionClass` becomes a map from controller name to its attributes and methods;
  - `class_exists` and constructors become the `Universe` map;
  - the failing `new ReflectionClass` at Router.php:95-101 is "the controller is not in the map", and its log line is dropped.
- Attribute `newInstance()` (Router.php:105, 114, 163, 179) is not modelled as code. Each attribute is its class name and its one string argument. The model has no failing `newInstance`: the case where an attribute class is missing, or a non-repeatable attribute is repeated, is left out (see the next two lines).
- Registration.MiddlewareNames: collects one name per Middleware attribute, including a repeated one. The Middleware and verb attribute classes are declared with a bare `#[\Attribute]`, so they are not repeatable. For a second Middleware attribute on the same class or method, `newInstance()` raises an `Error` (at line 163 for a class; for a method, at line 114 or at line 179, whichever first reaches the repeated Middleware attribute). Registration then stops with the group prefix not restored. So in any registration that completes, each target carries at most one Middleware attribute, and the model's lists agree with PHP on those.
- Registration.CollectMiddlewares: same limit as `Registration.MiddlewareNames`. It states the loop's result for any attribute list, including the repeated attributes on which PHP's `newInstance()` raises an `Error` instead.
- The logger is reduced to whether one exists. Its messages are not modelled.
- `header()` output is returned as the list of header lines sent.
- Reading `$_SERVER['HTTP_ORIGIN']` and `parse_url(..., PHP_URL_PATH)` is left out. The origin and the path are inputs.
- The `Request`/`Response` objects are left out. A handled request returns the input response (`Unchanged`), and the JSON error responses are `Json(status, error, message)`.
- What middlewares and actions do is given by an environment:
  - a middleware either calls `$next` and returns its result, or answers by itself;
  - whatever it does after `$next` returns is not modelled;
  - its behaviour depends only on its class name;
  - an action's result depends only on the route and the captures, and is reduced to its truthiness, the message of a thrown exception, or a raised `Error`.
- PathTemplate.Match: characters of a key that PCRE treats as metacharacters (`.`, `+`, `(`, `[` and so on) are matched literally, and so is the `@` that delimits the pattern at line 289 (in a key it ends the pattern early, and `preg_match` fails with a warning). Keys whose regex meaning differs are not modelled.
- DI.Container.Get:
  - requires an acyclic constructor-dependency graph. On a cycle PHP recurses without end, unless a class on the cycle is already cached (lines 14-16 then end the recursion); the acyclicity requirement also excludes these pre-seeded cycles, so they are not modelled;
  - assumes a constructor itself does not throw;
  - treats class names case-sensitively and ignores autoloading.
- DI.Message: the exception texts are modelled, but an `Error` or exception raised by a class's own constructor (inside `new $class()` or `newInstanceArgs`, lines 25 and 29) is not; constructors always succeed here. An `Error` raised by a middleware or an action is modelled, as `Pipeline.Errored`.
- Cors.IsOriginAllowed: PHP turns a numeric-string origin key into an integer; here every key stays a string.
- Registration.HttpMethodFromAttributeTable: the source of the Get, Patch and Pri attribute classes is not part of this model. The verb table takes their fully qualified names from the `use` list of Router.php.
- Rest.Router.RegisterRoutesFromController: an `Error` raised mid-registration by `newInstance()` (lines 105, 114, 163, 179) stops registration and leaves the group prefix unrestored. This happens for a repeated non-repeatable attribute (two Middleware attributes, or the same verb attribute twice, on one target) or an attribute class that does not exist. The model has no such failure: a repeated verb attribute there just adds the same route twice, the second overwriting the first.
- Which `Error` a middleware or an action raises, and its message, are not modelled (`Pipeline.Errored` records only that it is not an `Exception`).
- Rest.MatchedRouteRunsOnion: states the full onion trace only for runs where the action does not throw. When it throws, `Pipeline.OnionResult` gives the cut-off trace.
- Concurrency does not arise: PHP serves one request per process.
