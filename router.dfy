/**
 * The `Router` class of src/Router.php: it registers routes from controller
 * descriptors, and dispatches a request by stripping the base URI, checking
 * CORS, finding the first route whose template matches, and running its
 * middleware pipeline; the outcome is the input response, or a JSON error
 * response with status 403, 404 or 500.
 *
 * Outside the model and given as inputs: the reflection data of the
 * controllers, the request's method and the path part of its URI, the
 * request's `Origin` header, and the behaviour of middlewares and
 * controller actions. The `header()` calls are returned as the list of
 * header lines sent; the logger is reduced to whether there is one.
 */
module Rest {
  import opened Wrappers
  import DI
  import PathTemplate
  import RouteTable
  import Registration
  import Pipeline
  import Cors

  /** The constructor's `$config`; an entry that is missing or null is None. */
  datatype Config = Config(baseUri: Option<string>, allowedOrigins: Option<Cors.Origins>)

  /** What `dispatch` reads from the request: its method, and the path part of its URI. */
  datatype Request = Request(verb: string, path: string)

  /**
   * What `dispatch` ends with: the input response as it is, a JSON response
   * with a status, or an `Error` that escapes it: one raised by a middleware
   * or an action (only `Exception`s are caught), or the one raised when an
   * exception is caught while there is no logger to report it to (line 248
   * calls a method on the null logger).
   */
  datatype Reply =
    | Unchanged
    | Json(status: int, error: string, message: string)
    | Crashed

  /** A dispatch: the reply, the header lines sent, the cached class names afterwards, and the pipeline's events. */
  datatype Dispatched = Dispatched(reply: Reply, headers: seq<string>, cached: set<string>, trace: seq<Pipeline.Event>)

  /** PHP's truthiness of a string: only "" and "0" are false. */
  predicate Truthy(s: string) {
    s != "" && s != "0"
  }

  /** The path the routes see: a truthy base URI that starts the path is cut off. */
  function StripBase(baseUri: string, path: string): (uri: string)
    ensures Truthy(baseUri) && baseUri <= path ==> path == baseUri + uri
    ensures !(Truthy(baseUri) && baseUri <= path) ==> uri == path
  {
    if Truthy(baseUri) && baseUri <= path then path[|baseUri|..] else path
  }

  /** The fixed texts of `dispatch`'s responses and headers. */
  const ForbiddenReply: Reply := Json(403, "Forbidden", "Origin or method not allowed")
  const NotFoundReply: Reply := Json(404, "Not Found", "No route matches the provided URI")
  const ServerErrorTitle: string := "Internal Server Error"
  const AllowOriginField: string := "Access-Control-Allow-Origin: "
  const AllowMethodsHeader: string :=
    "Access-Control-Allow-Methods: GET, POST, PUT, DELETE, PATCH, OPTIONS, HEAD, TRACE, CONNECT, PRI"
  const AllowHeadersHeader: string := "Access-Control-Allow-Headers: Content-Type, Authorization"

  /** The three headers sent for an allowed origin. */
  function CorsHeaders(origin: string): (h: seq<string>)
    ensures |h| == 3 && AllowOriginField <= h[0] && h[0][|AllowOriginField|..] == origin
  {
    [AllowOriginField + origin, AllowMethodsHeader, AllowHeadersHeader]
  }

  /**
   * `handleRouting`: run the pipeline of the first route, in table order,
   * whose template matches. Failing that, a route stored under exactly the
   * path is called directly, with no middleware and no captures, and counts
   * as handled whatever the action returns. Otherwise nothing is handled.
   */
  ghost function RoutingSpec(u: DI.Universe, rank: map<string, nat>, s: set<string>, routes: RouteTable.Routes,
                             verb: string, uri: string, env: Pipeline.Env): (r: Pipeline.Run)
    requires DI.Acyclic(u, rank)
    ensures s <= r.cached
    ensures var t := RouteTable.TableFor(routes, verb);
      RouteTable.FirstMatch(t, uri).None? ==> (r.outcome == Pipeline.Returned(false) <==> RouteTable.Lookup(t, uri).None?)
  {
    var t := RouteTable.TableFor(routes, verb);
    match RouteTable.FirstMatch(t, uri)
    case Some(hit) =>
      var route := t[hit.index].1;
      Pipeline.RunSpec(u, rank, s,
        Pipeline.CreateMiddlewareHandler(route.middlewares, Pipeline.Core(route, hit.captures)), env)
    case None =>
      match RouteTable.Lookup(t, uri)
      case None => Pipeline.Run(Pipeline.Returned(false), s, [])
      case Some(route) =>
        var o := DI.Resolve(u, rank, s, route.resource);
        if o.error.Some? then Pipeline.Run(Pipeline.Threw(DI.Message(o.error.value)), o.cached, [])
        else
          var res := env.action(route, []);
          Pipeline.Run(if res.Returned? then Pipeline.Returned(true) else res, o.cached, [Pipeline.Action(route, [])])
  }

  /**
   * The end of `dispatch` once routing ran: an exception becomes a 500
   * carrying its message (or escapes, without a logger), an `Error`
   * escapes, an unhandled request is a 404, and a handled one returns the
   * input response.
   */
  function Conclude(outcome: Pipeline.Outcome, hasLogger: bool): (r: Reply)
    ensures r == Unchanged <==> outcome == Pipeline.Returned(true)
    ensures r == NotFoundReply <==> outcome == Pipeline.Returned(false)
    ensures r.Json? && r.status == 500 <==> outcome.Threw? && hasLogger
    ensures r.Json? && r.status == 500 ==> r.message == outcome.message
    ensures r == Crashed <==> outcome.Errored? || (outcome.Threw? && !hasLogger)
  {
    match outcome
    case Threw(message) => if hasLogger then Json(500, ServerErrorTitle, message) else Crashed
    case Errored => Crashed
    case Returned(handled) => if handled then Unchanged else NotFoundReply
  }

  /**
   * `dispatch`: a configured origin list that does not allow the pair
   * answers 403 before any routing; otherwise an exception becomes 500 with
   * its message (or escapes, without a logger), an `Error` escapes, an
   * unhandled request is a 404, and a handled one returns the input response.
   */
  ghost function DispatchSpec(u: DI.Universe, rank: map<string, nat>, s: set<string>, baseUri: string,
                              origins: Cors.Origins, hasLogger: bool, routes: RouteTable.Routes,
                              request: Request, origin: Option<string>, env: Pipeline.Env): (d: Dispatched)
    requires DI.Acyclic(u, rank)
    ensures s <= d.cached
    ensures d.reply.Json? && d.reply.status == 403 <==>
            origins != [] && !Cors.OriginAllowed(origins, origin.GetOr(""), request.verb)
  {
    var uri := StripBase(baseUri, request.path);
    var from := origin.GetOr("");
    if origins != [] && !Cors.OriginAllowed(origins, from, request.verb) then
      Dispatched(ForbiddenReply, [], s, [])
    else
      var headers := if origins != [] then CorsHeaders(from) else [];
      var run := RoutingSpec(u, rank, s, routes, request.verb, uri, env);
      Dispatched(Conclude(run.outcome, hasLogger), headers, run.cached, run.trace)
  }

  lemma DispatchForbidden(u: DI.Universe, rank: map<string, nat>, s: set<string>, baseUri: string,
                          origins: Cors.Origins, hasLogger: bool, routes: RouteTable.Routes,
                          request: Request, origin: Option<string>, env: Pipeline.Env)
    requires DI.Acyclic(u, rank)
    requires origins != [] && !Cors.OriginAllowed(origins, origin.GetOr(""), request.verb)
    ensures DispatchSpec(u, rank, s, baseUri, origins, hasLogger, routes, request, origin, env) ==
            Dispatched(ForbiddenReply, [], s, [])
  {
  }

  lemma DispatchAllowed(u: DI.Universe, rank: map<string, nat>, s: set<string>, baseUri: string,
                        origins: Cors.Origins, hasLogger: bool, routes: RouteTable.Routes,
                        request: Request, origin: Option<string>, env: Pipeline.Env)
    requires DI.Acyclic(u, rank)
    requires origins == [] || Cors.OriginAllowed(origins, origin.GetOr(""), request.verb)
    ensures var run := RoutingSpec(u, rank, s, routes, request.verb, StripBase(baseUri, request.path), env);
      DispatchSpec(u, rank, s, baseUri, origins, hasLogger, routes, request, origin, env) ==
      Dispatched(Conclude(run.outcome, hasLogger), if origins != [] then CorsHeaders(origin.GetOr("")) else [],
                 run.cached, run.trace)
  {
  }

  class Router {
    /** Per HTTP method, the ordered table from normalised path to route. */
    var routes: RouteTable.Routes
    const baseUri: string
    const allowedOrigins: Cors.Origins
    const container: DI.Container
    /** The path prefix of the route group being registered; "" between registrations. */
    var prefix: string
    /** Whether a logger was given. */
    const hasLogger: bool

    /** The container's classes have no dependency cycle, and every table is well formed. */
    ghost predicate Valid()
      reads this
    {
      DI.Acyclic(container.classes, container.rank) && RouteTable.WellFormed(routes)
    }

    /** `__construct`: the base URI defaults to "/", the allowed origins to none. */
    constructor (config: Config, container: DI.Container, hasLogger: bool)
      requires DI.Acyclic(container.classes, container.rank)
      ensures baseUri == config.baseUri.GetOr("/") && allowedOrigins == config.allowedOrigins.GetOr([])
      ensures this.container == container && this.hasLogger == hasLogger
      ensures routes == map[] && prefix == "" && Valid()
    {
      baseUri := config.baseUri.GetOr("/");
      allowedOrigins := config.allowedOrigins.GetOr([]);
      this.container := container;
      this.hasLogger := hasLogger;
      routes := map[];
      prefix := "";
    }

    /** `addRoute`: store the route under the normalised path in the method's table. */
    method AddRoute(verb: string, path: string, resource: string, action: string, middlewares: seq<string>)
      requires Valid()
      modifies this
      ensures routes == RouteTable.AddRoute(old(routes), verb, path, RouteTable.Route(resource, action, middlewares))
      ensures prefix == old(prefix) && Valid()
    {
      RouteTable.AddRouteWellFormed(routes, verb, path, RouteTable.Route(resource, action, middlewares));
      var fullPath := RouteTable.NormalizePath(path);
      if verb !in routes {
        routes := routes[verb := []];
      }
      routes := routes[verb := RouteTable.Put(routes[verb], fullPath, RouteTable.Route(resource, action, middlewares))];
    }

    /**
     * `registerRoutesFromController`: an unknown class registers nothing;
     * otherwise every verb attribute of every method becomes an `addRoute`
     * call under the group prefix, and the prefix is restored afterwards.
     */
    method RegisterRoutesFromController(controller: string, reflection: map<string, Registration.ControllerClass>)
      requires Valid()
      modifies this
      ensures controller !in reflection ==> routes == old(routes)
      ensures controller in reflection ==>
        routes == Registration.AddAll(old(routes),
                                      Registration.DeclaredRoutes(old(prefix), controller, reflection[controller]))
      ensures prefix == old(prefix) && Valid()
    {
      if controller !in reflection {
        return;
      }
      var cls := reflection[controller];
      var group := Registration.GroupPrefix(cls.attributes);
      var previousPrefix := prefix;
      if group.Some? {
        prefix := prefix + group.value;
      }
      assert prefix == old(prefix) + group.GetOr("");
      var classMiddlewares := Registration.CollectMiddlewares(cls.attributes);
      ghost var p := prefix;
      var i := 0;
      while i < |cls.methods|
        invariant 0 <= i <= |cls.methods| && prefix == p && Valid()
        invariant routes == Registration.AddAll(old(routes),
                              Registration.ControllerRoutes(p, controller, classMiddlewares, cls.methods[..i]))
      {
        var m := cls.methods[i];
        ghost var before := routes;
        Registration.ControllerRoutesAddStep(old(routes), before, p, controller, classMiddlewares, cls.methods, i);
        RegisterMethod(controller, classMiddlewares, m);
        assert routes == Registration.AddAll(before, Registration.MethodRoutes(p, controller, classMiddlewares, m, m.attributes));
        i := i + 1;
      }
      assert cls.methods[..i] == cls.methods;
      Registration.AddAllWellFormed(old(routes), Registration.DeclaredRoutes(old(prefix), controller, cls));
      if group.Some? {
        prefix := previousPrefix;
      }
    }

    /** The inner loop of `registerRoutesFromController`: one `addRoute` per verb attribute of method `m`. */
    method RegisterMethod(controller: string, classMiddlewares: seq<string>, m: Registration.MethodDecl)
      requires Valid()
      modifies this
      ensures routes == Registration.AddAll(old(routes),
                          Registration.MethodRoutes(prefix, controller, classMiddlewares, m, m.attributes))
      ensures prefix == old(prefix) && Valid()
    {
      ghost var p := prefix;
      var j := 0;
      while j < |m.attributes|
        invariant 0 <= j <= |m.attributes| && prefix == p && Valid()
        invariant routes == Registration.AddAll(old(routes),
                              Registration.MethodRoutes(p, controller, classMiddlewares, m, m.attributes[..j]))
      {
        var attribute := m.attributes[j];
        ghost var before := routes;
        Registration.MethodRoutesAddStep(old(routes), before, p, controller, classMiddlewares, m, j);
        var httpMethod := Registration.HttpMethodFromAttribute(attribute.name);
        if httpMethod.Some? {
          var routePath := prefix + attribute.argument;
          var methodMiddlewares := Registration.CollectMiddlewares(m.attributes);
          AddRoute(httpMethod.value, routePath, controller, m.name, classMiddlewares + methodMiddlewares);
          assert routes == RouteTable.AddRoute(before, httpMethod.value, p + attribute.argument,
                                               RouteTable.Route(controller, m.name, classMiddlewares + methodMiddlewares));
        }
        j := j + 1;
      }
      assert m.attributes[..j] == m.attributes;
    }

    /**
     * `handleRouting`: try the method's routes in table order and run the
     * pipeline of the first whose template matches; otherwise fall back to
     * a route stored under exactly the path.
     */
    method HandleRouting(uri: string, verb: string, env: Pipeline.Env) returns (handled: Pipeline.Outcome, trace: seq<Pipeline.Event>)
      requires Valid()
      modifies container
      ensures var r := RoutingSpec(container.classes, container.rank, old(container.Cached()), routes, verb, uri, env);
        handled == r.outcome && trace == r.trace && container.Cached() == r.cached
      ensures DI.Extends(old(container.instances), container.instances)
    {
      if verb in routes {
        var table := routes[verb];
        var i := 0;
        while i < |table|
          invariant 0 <= i <= |table|
          invariant forall j :: 0 <= j < i ==> PathTemplate.Match(PathTemplate.Parse(table[j].0), uri).None?
        {
          var (path, details) := table[i];
          var matches := PathTemplate.Match(PathTemplate.Parse(path), uri);
          if matches.Some? {
            assert RouteTable.FirstMatch(table, uri) == Some(RouteTable.Hit(i, matches.value));
            var handler := Pipeline.CreateMiddlewareHandler(details.middlewares, Pipeline.Core(details, matches.value));
            handled, trace := Pipeline.Call(container, handler, env);
            return;
          }
          i := i + 1;
        }
        assert RouteTable.FirstMatch(table, uri).None?;
      }
      var exact := RouteTable.Lookup(RouteTable.TableFor(routes, verb), uri);
      if exact.Some? {
        var route := exact.value;
        var controller := container.Get(route.resource);
        if controller.Failure? {
          return Pipeline.Threw(DI.Message(controller.error)), [];
        }
        var res := env.action(route, []);
        trace := [Pipeline.Action(route, [])];
        if !res.Returned? {
          return res, trace;
        }
        return Pipeline.Returned(true), trace;
      }
      return Pipeline.Returned(false), [];
    }

    /** `dispatch`. */
    method Dispatch(request: Request, origin: Option<string>, env: Pipeline.Env)
      returns (reply: Reply, headers: seq<string>, trace: seq<Pipeline.Event>)
      requires Valid()
      modifies container
      ensures Dispatched(reply, headers, container.Cached(), trace) ==
              DispatchSpec(container.classes, container.rank, old(container.Cached()), baseUri,
                           allowedOrigins, hasLogger, routes, request, origin, env)
      ensures DI.Extends(old(container.instances), container.instances)
    {
      ghost var s := container.Cached();
      var uri := StripBase(baseUri, request.path);
      headers := [];
      if allowedOrigins != [] {
        var from := origin.GetOr("");
        var allowed := Cors.IsOriginAllowed(allowedOrigins, from, request.verb);
        if !allowed {
          DispatchForbidden(container.classes, container.rank, s, baseUri, allowedOrigins, hasLogger, routes, request, origin, env);
          return ForbiddenReply, [], [];
        }
        headers := CorsHeaders(from);
      }
      DispatchAllowed(container.classes, container.rank, s, baseUri, allowedOrigins, hasLogger, routes, request, origin, env);
      var outcome;
      outcome, trace := HandleRouting(uri, request.verb, env);
      reply := Conclude(outcome, hasLogger);
    }

    /** `getRoutes`: the table as registered; every key is normalised and unique. */
    method GetRoutes() returns (r: RouteTable.Routes)
      requires Valid()
      ensures r == routes && RouteTable.WellFormed(r)
    {
      r := routes;
    }
  }

  // ---------------------------------------------------------------------
  // Properties of dispatch
  // ---------------------------------------------------------------------

  /**
   * With the default base URI "/", the leading slash of a path such as
   * "/users" is cut off before routing; every key starts with "/", so no
   * route matches and the request ends in 404 without running anything.
   */
  lemma DefaultBaseUriHidesRoutes(u: DI.Universe, rank: map<string, nat>, s: set<string>, origins: Cors.Origins,
                                  hasLogger: bool, routes: RouteTable.Routes, request: Request,
                                  origin: Option<string>, env: Pipeline.Env)
    requires DI.Acyclic(u, rank) && RouteTable.WellFormed(routes)
    requires |request.path| >= 1 && request.path[0] == '/' && (|request.path| == 1 || request.path[1] != '/')
    requires origins == [] || Cors.OriginAllowed(origins, origin.GetOr(""), request.verb)
    ensures var d := DispatchSpec(u, rank, s, "/", origins, hasLogger, routes, request, origin, env);
      d.reply == NotFoundReply && d.cached == s && d.trace == []
  {
    var uri := StripBase("/", request.path);
    assert uri == request.path[1..];
    UnslashedPathMatchesNothing(u, rank, s, routes, request.verb, uri, env);
  }

  /** A path that does not start with `/` matches no stored key, so routing handles nothing and runs nothing. */
  lemma UnslashedPathMatchesNothing(u: DI.Universe, rank: map<string, nat>, s: set<string>, routes: RouteTable.Routes,
                                    verb: string, uri: string, env: Pipeline.Env)
    requires DI.Acyclic(u, rank) && RouteTable.WellFormed(routes)
    requires uri == [] || uri[0] != '/'
    ensures RoutingSpec(u, rank, s, routes, verb, uri, env) == Pipeline.Run(Pipeline.Returned(false), s, [])
  {
    var t := RouteTable.TableFor(routes, verb);
    forall j | 0 <= j < |t|
      ensures PathTemplate.Match(PathTemplate.Parse(t[j].0), uri).None?
    {
      RouteTable.NormalizedKeyNeedsSlash(t[j].0, uri);
    }
    assert RouteTable.FirstMatch(t, uri).None?;
    assert RouteTable.Lookup(t, uri).None?;
  }

  /**
   * A matched route whose middlewares all resolve and call `$next`, and
   * whose controller resolves: the action runs with the captures inside the
   * onion of the middlewares, and the request is handled exactly when the
   * action's result is truthy (a falsy result is a 404).
   */
  lemma MatchedRouteRunsOnion(u: DI.Universe, rank: map<string, nat>, s: set<string>, routes: RouteTable.Routes,
                              verb: string, uri: string, env: Pipeline.Env)
    requires DI.Acyclic(u, rank)
    requires RouteTable.FirstMatch(RouteTable.TableFor(routes, verb), uri).Some?
    requires var t := RouteTable.TableFor(routes, verb);
      var route := t[RouteTable.FirstMatch(t, uri).value.index].1;
      Pipeline.AllPass(u, rank, s, route.middlewares, env) && DI.Resolvable(u, rank, s, route.resource)
    ensures var t := RouteTable.TableFor(routes, verb);
      var hit := RouteTable.FirstMatch(t, uri).value;
      var route := t[hit.index].1;
      var r := RoutingSpec(u, rank, s, routes, verb, uri, env);
      r.outcome == env.action(route, hit.captures) &&
      (r.outcome.Returned? ==>
         r.trace == Pipeline.Befores(route.middlewares) + [Pipeline.Action(route, hit.captures)] +
                    Pipeline.Afters(Pipeline.Reverse(route.middlewares)))
  {
    var t := RouteTable.TableFor(routes, verb);
    var hit := RouteTable.FirstMatch(t, uri).value;
    var route := t[hit.index].1;
    Pipeline.OnionRun(u, rank, s, route.middlewares, route, hit.captures, env);
    Pipeline.OnionTraceFlat(route.middlewares, [Pipeline.Action(route, hit.captures)]);
  }

  /**
   * A request for the literal text of a key with a placeholder, say
   * "/users/{id}", matches no template of its own key (`{` is not a word
   * character). When no other key's template matches it either, it
   * reaches the exact-key fallback: the controller action runs with no
   * middleware at all, and the request counts as handled even when the
   * action's result is falsy. (An action that declares a parameter for the
   * placeholder is called here without it, and the `ArgumentCountError` it
   * raises is the `Errored` outcome, which escapes `dispatch`.)
   */
  lemma PlaceholderKeyBypassesMiddlewares(u: DI.Universe, rank: map<string, nat>, s: set<string>,
                                          routes: RouteTable.Routes, verb: string, i: nat, env: Pipeline.Env)
    requires DI.Acyclic(u, rank)
    requires var t := RouteTable.TableFor(routes, verb);
      i < |t| && RouteTable.UniqueKeys(t) && RouteTable.FirstMatch(t, t[i].0).None? &&
      DI.Resolvable(u, rank, s, t[i].1.resource)
    ensures var t := RouteTable.TableFor(routes, verb);
      var route := t[i].1;
      var r := RoutingSpec(u, rank, s, routes, verb, t[i].0, env);
      r.trace == [Pipeline.Action(route, [])] &&
      r.outcome == if env.action(route, []).Returned? then Pipeline.Returned(true) else env.action(route, [])
  {
    var t := RouteTable.TableFor(routes, verb);
    var route := RouteTable.Lookup(t, t[i].0).value;
    var j :| 0 <= j < |t| && t[j] == (t[i].0, route);
    assert j == i;
    DI.ResolveCorrect(u, rank, s, t[i].1.resource);
  }
}
