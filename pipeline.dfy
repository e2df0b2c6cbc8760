/**
 * The middleware pipeline of a matched route (src/Router.php:293-301,
 * 324-336). `createMiddlewareHandler` folds the reversed middleware list
 * with `array_reduce`, so the first middleware is the outermost layer and
 * the core closure (which resolves the controller and calls its action) is
 * innermost. Each layer resolves its middleware class through the container
 * only when it is called.
 *
 * Middlewares and controller actions are code this model cannot see: an
 * `Env` says, per middleware class, whether `handle` calls `$next` or
 * answers by itself, and, per route and captures, what the action yields.
 */
module Pipeline {
  import DI
  import RouteTable

  /** A composed handler: the core closure, or a middleware layer around the next handler. */
  datatype Handler =
    | Core(route: RouteTable.Route, captures: seq<string>)
    | Layer(middleware: string, next: Handler)

  // ---------------------------------------------------------------------
  // Building the handler: array_reduce(array_reverse($middlewares), ...)
  // ---------------------------------------------------------------------

  /** `array_reverse`. */
  function Reverse<T>(s: seq<T>): (r: seq<T>)
    ensures |r| == |s| && forall i :: 0 <= i < |s| ==> r[i] == s[|s| - 1 - i]
  {
    if s == [] then [] else Reverse(s[1..]) + [s[0]]
  }

  /** `array_reduce` with the reducer that wraps the handler built so far in one more layer. */
  function Reduce(middlewares: seq<string>, acc: Handler): (r: Handler)
    ensures Layers(r) == Reverse(middlewares) + Layers(acc)
  {
    if middlewares == [] then acc
    else
      var r := Reduce(middlewares[1..], Layer(middlewares[0], acc));
      assert Layers(Layer(middlewares[0], acc)) == [middlewares[0]] + Layers(acc);
      assert Reverse(middlewares) == Reverse(middlewares[1..]) + [middlewares[0]];
      r
  }

  /**
   * `createMiddlewareHandler`: the fold over the reversed list nests the
   * middlewares in declaration order around the core, the first outermost;
   * with no middleware it is the core itself.
   */
  function CreateMiddlewareHandler(middlewares: seq<string>, core: Handler): (h: Handler)
    ensures h == Nest(middlewares, core)
  {
    ReduceNest(Reverse(middlewares), [], core);
    assert Reverse(Reverse(middlewares)) + [] == middlewares;
    Reduce(Reverse(middlewares), core)
  }

  /** The intended shape: the first middleware outermost, then the others in order, then the core. */
  function Nest(middlewares: seq<string>, core: Handler): Handler {
    if middlewares == [] then core else Layer(middlewares[0], Nest(middlewares[1..], core))
  }

  /** The middleware classes of a handler, outermost first. */
  function Layers(h: Handler): seq<string> {
    match h
    case Core(_, _) => []
    case Layer(m, next) => [m] + Layers(next)
  }

  lemma {:induction false} ReduceNest(s: seq<string>, t: seq<string>, core: Handler)
    ensures Reduce(s, Nest(t, core)) == Nest(Reverse(s) + t, core)
  {
    if s != [] {
      var t' := [s[0]] + t;
      assert t'[0] == s[0] && t'[1..] == t;
      assert Layer(s[0], Nest(t, core)) == Nest(t', core);
      assert Reduce(s, Nest(t, core)) == Reduce(s[1..], Nest(t', core));
      ReduceNest(s[1..], t', core);
      assert Reverse(s) == Reverse(s[1..]) + [s[0]];
      assert Reverse(s[1..]) + t' == Reverse(s) + t;
    } else {
      assert Reverse(s) + t == t;
    }
  }

  /** The layers of the nested handler are the middlewares, in declaration order. */
  lemma {:induction false} NestLayers(middlewares: seq<string>, route: RouteTable.Route, captures: seq<string>)
    ensures Layers(Nest(middlewares, Core(route, captures))) == middlewares
  {
    if middlewares != [] {
      NestLayers(middlewares[1..], route, captures);
    }
  }

  // ---------------------------------------------------------------------
  // Running the handler
  // ---------------------------------------------------------------------

  /**
   * What a call yields: the truthiness of the returned value, the message
   * of a thrown `Exception`, or a PHP `Error` (a `TypeError`, an
   * `ArgumentCountError`, ...), which is not an `Exception`.
   */
  datatype Outcome = Returned(truthy: bool) | Threw(message: string) | Errored

  /** What a middleware's `handle` does: pass the request on to `$next` and return its result, or answer itself. */
  datatype Behaviour = CallNext | Answer(result: Outcome)

  /** The observable steps of a run. */
  datatype Event =
    | Before(middleware: string)
    | After(middleware: string)
    | Action(route: RouteTable.Route, captures: seq<string>)

  /** The code behind the handlers: middleware behaviour by class name, and controller actions. */
  datatype Env = Env(middleware: string -> Behaviour, action: (RouteTable.Route, seq<string>) -> Outcome)

  /** A run's result, the container's cached class names afterwards, and its events. */
  datatype Run = Run(outcome: Outcome, cached: set<string>, trace: seq<Event>)

  /** A middleware logs "after" once its part returns normally, and not when an exception or error passes through it. */
  function Closing(m: string, o: Outcome): seq<Event> {
    if o.Returned? then [After(m)] else []
  }

  /**
   * Calling handler `h` with the container caching `s`: each layer first
   * gets its middleware from the container (an exception there ends the
   * run), logs "before", and either calls the next handler or answers; the
   * core gets the controller and calls the action with the captures.
   */
  ghost function RunSpec(u: DI.Universe, rank: map<string, nat>, s: set<string>, h: Handler, env: Env): (r: Run)
    requires DI.Acyclic(u, rank)
    ensures s <= r.cached
    decreases h
  {
    match h
    case Core(route, captures) =>
      var o := DI.Resolve(u, rank, s, route.resource);
      if o.error.Some? then Run(Threw(DI.Message(o.error.value)), o.cached, [])
      else Run(env.action(route, captures), o.cached, [Action(route, captures)])
    case Layer(m, next) =>
      var o := DI.Resolve(u, rank, s, m);
      if o.error.Some? then Run(Threw(DI.Message(o.error.value)), o.cached, [])
      else match env.middleware(m)
        case Answer(res) => Run(res, o.cached, [Before(m)] + Closing(m, res))
        case CallNext =>
          var inner := RunSpec(u, rank, o.cached, next, env);
          Run(inner.outcome, inner.cached, [Before(m)] + inner.trace + Closing(m, inner.outcome))
  }

  /** Invoking the composed handler: the closures of `createMiddlewareHandler` and the core closure. */
  method Call(container: DI.Container, h: Handler, env: Env) returns (outcome: Outcome, trace: seq<Event>)
    requires DI.Acyclic(container.classes, container.rank)
    modifies container
    ensures var r := RunSpec(container.classes, container.rank, old(container.Cached()), h, env);
      outcome == r.outcome && trace == r.trace && container.Cached() == r.cached
    ensures DI.Extends(old(container.instances), container.instances)
    decreases h
  {
    match h {
      case Core(route, captures) =>
        var controller := container.Get(route.resource);
        if controller.Failure? {
          return Threw(DI.Message(controller.error)), [];
        }
        outcome := env.action(route, captures);
        trace := [Action(route, captures)];
      case Layer(m, next) =>
        var instance := container.Get(m);
        if instance.Failure? {
          return Threw(DI.Message(instance.error)), [];
        }
        match env.middleware(m) {
          case Answer(res) =>
            outcome := res;
            trace := [Before(m)] + Closing(m, res);
          case CallNext =>
            ghost var between := container.instances;
            var rest;
            outcome, rest := Call(container, next, env);
            DI.ExtendsTransitive(old(container.instances), between, container.instances);
            trace := [Before(m)] + rest + Closing(m, outcome);
        }
    }
  }

  // ---------------------------------------------------------------------
  // The onion
  // ---------------------------------------------------------------------

  /** Every middleware, in order, logs "before", runs what it wraps, then logs "after". */
  function OnionTrace(middlewares: seq<string>, core: seq<Event>): seq<Event> {
    if middlewares == [] then core
    else [Before(middlewares[0])] + OnionTrace(middlewares[1..], core) + [After(middlewares[0])]
  }

  /** A "before" event per middleware, in order. */
  function Befores(middlewares: seq<string>): seq<Event> {
    if middlewares == [] then [] else [Before(middlewares[0])] + Befores(middlewares[1..])
  }

  /** An "after" event per middleware, in order. */
  function Afters(middlewares: seq<string>): seq<Event> {
    if middlewares == [] then [] else [After(middlewares[0])] + Afters(middlewares[1..])
  }

  lemma {:induction false} AftersAppend(a: seq<string>, b: seq<string>)
    ensures Afters(a + b) == Afters(a) + Afters(b)
  {
    if a != [] {
      assert (a + b)[0] == a[0] && (a + b)[1..] == a[1..] + b;
      AftersAppend(a[1..], b);
    } else {
      assert a + b == b;
    }
  }

  /** The onion flattened: all "before"s in declaration order, the core, all "after"s in reverse order. */
  lemma {:induction false} OnionTraceFlat(middlewares: seq<string>, core: seq<Event>)
    ensures OnionTrace(middlewares, core) == Befores(middlewares) + core + Afters(Reverse(middlewares))
  {
    if middlewares != [] {
      var m := middlewares[0];
      var rest := middlewares[1..];
      OnionTraceFlat(rest, core);
      assert Reverse(middlewares) == Reverse(rest) + [m];
      AftersAppend(Reverse(rest), [m]);
    }
  }

  /** Every middleware is resolvable from the cache `s` and calls `$next`. */
  ghost predicate AllPass(u: DI.Universe, rank: map<string, nat>, s: set<string>, middlewares: seq<string>, env: Env)
    requires DI.Acyclic(u, rank)
  {
    forall i :: 0 <= i < |middlewares| ==>
      DI.Resolvable(u, rank, s, middlewares[i]) && env.middleware(middlewares[i]).CallNext?
  }

  /** Caching classes that were resolvable anyway does not change which middlewares pass. */
  lemma AllPassExtension(u: DI.Universe, rank: map<string, nat>, s: set<string>, g: set<string>,
                         middlewares: seq<string>, env: Env)
    requires DI.Acyclic(u, rank)
    requires forall k :: k in g ==> DI.Resolvable(u, rank, s, k)
    ensures AllPass(u, rank, s + g, middlewares, env) <==> AllPass(u, rank, s, middlewares, env)
  {
    forall i | 0 <= i < |middlewares|
      ensures DI.Resolvable(u, rank, s + g, middlewares[i]) <==> DI.Resolvable(u, rank, s, middlewares[i])
    {
      DI.ResolvableExtension(u, rank, s, g, middlewares[i]);
    }
  }

  /** The first middleware passes and so do the others. */
  lemma AllPassCons(u: DI.Universe, rank: map<string, nat>, s: set<string>, middlewares: seq<string>, env: Env)
    requires DI.Acyclic(u, rank) && middlewares != []
    ensures AllPass(u, rank, s, middlewares, env) <==>
      DI.Resolvable(u, rank, s, middlewares[0]) && env.middleware(middlewares[0]).CallNext? &&
      AllPass(u, rank, s, middlewares[1..], env)
  {
    var rest := middlewares[1..];
    if DI.Resolvable(u, rank, s, middlewares[0]) && env.middleware(middlewares[0]).CallNext? && AllPass(u, rank, s, rest, env) {
      forall i | 0 <= i < |middlewares|
        ensures DI.Resolvable(u, rank, s, middlewares[i]) && env.middleware(middlewares[i]).CallNext?
      {
        if i > 0 {
          assert middlewares[i] == rest[i - 1];
        }
      }
    }
    if AllPass(u, rank, s, middlewares, env) {
      forall i | 0 <= i < |rest|
        ensures DI.Resolvable(u, rank, s, rest[i]) && env.middleware(rest[i]).CallNext?
      {
        assert rest[i] == middlewares[i + 1];
      }
    }
  }

  /**
   * The controller action runs exactly when every middleware and the
   * controller can be resolved and every middleware calls `$next`; then its
   * result is the pipeline's result and the events form the onion (cut
   * after the action when it throws).
   */
  lemma OnionRun(u: DI.Universe, rank: map<string, nat>, s: set<string>,
                 middlewares: seq<string>, route: RouteTable.Route, captures: seq<string>, env: Env)
    requires DI.Acyclic(u, rank)
    ensures var r := RunSpec(u, rank, s, Nest(middlewares, Core(route, captures)), env);
      Action(route, captures) in r.trace <==>
        AllPass(u, rank, s, middlewares, env) && DI.Resolvable(u, rank, s, route.resource)
    ensures var r := RunSpec(u, rank, s, Nest(middlewares, Core(route, captures)), env);
      AllPass(u, rank, s, middlewares, env) && DI.Resolvable(u, rank, s, route.resource) ==>
        r.outcome == env.action(route, captures) &&
        r.trace == if !r.outcome.Returned? then Befores(middlewares) + [Action(route, captures)]
                   else OnionTrace(middlewares, [Action(route, captures)])
  {
    ActionRunsIff(u, rank, s, middlewares, route, captures, env);
    if AllPass(u, rank, s, middlewares, env) && DI.Resolvable(u, rank, s, route.resource) {
      OnionResult(u, rank, s, middlewares, route, captures, env);
    }
  }

  /** The action appears in the events exactly when every middleware and the controller pass. */
  lemma {:induction false} ActionRunsIff(u: DI.Universe, rank: map<string, nat>, s: set<string>,
                                         middlewares: seq<string>, route: RouteTable.Route, captures: seq<string>, env: Env)
    requires DI.Acyclic(u, rank)
    ensures var r := RunSpec(u, rank, s, Nest(middlewares, Core(route, captures)), env);
      Action(route, captures) in r.trace <==>
        AllPass(u, rank, s, middlewares, env) && DI.Resolvable(u, rank, s, route.resource)
    decreases middlewares
  {
    if middlewares == [] {
      DI.ResolveCorrect(u, rank, s, route.resource);
    } else {
      var m := middlewares[0];
      var rest := middlewares[1..];
      var o := DI.Resolve(u, rank, s, m);
      DI.ResolveCorrect(u, rank, s, m);
      AllPassCons(u, rank, s, middlewares, env);
      if o.error.None? && env.middleware(m).CallNext? {
        var g := o.cached - s;
        assert o.cached == s + g;
        ActionRunsIff(u, rank, o.cached, rest, route, captures, env);
        AllPassExtension(u, rank, s, g, rest, env);
        DI.ResolvableExtension(u, rank, s, g, route.resource);
        var inner := RunSpec(u, rank, o.cached, Nest(rest, Core(route, captures)), env);
        assert RunSpec(u, rank, s, Nest(middlewares, Core(route, captures)), env).trace ==
               [Before(m)] + inner.trace + Closing(m, inner.outcome);
      }
    }
  }

  /** When everything passes, the action's result is the result and the events form the onion. */
  lemma {:induction false} OnionResult(u: DI.Universe, rank: map<string, nat>, s: set<string>,
                                       middlewares: seq<string>, route: RouteTable.Route, captures: seq<string>, env: Env)
    requires DI.Acyclic(u, rank)
    requires AllPass(u, rank, s, middlewares, env) && DI.Resolvable(u, rank, s, route.resource)
    ensures var r := RunSpec(u, rank, s, Nest(middlewares, Core(route, captures)), env);
      r.outcome == env.action(route, captures) &&
      r.trace == if !r.outcome.Returned? then Befores(middlewares) + [Action(route, captures)]
                 else OnionTrace(middlewares, [Action(route, captures)])
    decreases middlewares
  {
    if middlewares == [] {
      DI.ResolveCorrect(u, rank, s, route.resource);
    } else {
      var m := middlewares[0];
      var rest := middlewares[1..];
      var o := DI.Resolve(u, rank, s, m);
      AllPassCons(u, rank, s, middlewares, env);
      DI.ResolveCorrect(u, rank, s, m);
      var g := o.cached - s;
      assert o.cached == s + g;
      AllPassExtension(u, rank, s, g, rest, env);
      DI.ResolvableExtension(u, rank, s, g, route.resource);
      OnionResult(u, rank, o.cached, rest, route, captures, env);
      var r := RunSpec(u, rank, s, Nest(middlewares, Core(route, captures)), env);
      var inner := RunSpec(u, rank, o.cached, Nest(rest, Core(route, captures)), env);
      assert r.trace == [Before(m)] + inner.trace + Closing(m, inner.outcome);
      if !r.outcome.Returned? {
        assert Befores(middlewares) == [Before(m)] + Befores(rest);
      }
    }
  }

  /**
   * A middleware that answers by itself, reached because every middleware
   * before it passed, ends the run: its answer is the result, the action is
   * never called, and no inner middleware runs.
   */
  lemma {:induction false} ShortCircuit(u: DI.Universe, rank: map<string, nat>, s: set<string>,
                                        middlewares: seq<string>, k: nat, route: RouteTable.Route,
                                        captures: seq<string>, env: Env)
    requires DI.Acyclic(u, rank)
    requires k < |middlewares| && AllPass(u, rank, s, middlewares[..k], env)
    requires DI.Resolvable(u, rank, s, middlewares[k]) && env.middleware(middlewares[k]).Answer?
    ensures var r := RunSpec(u, rank, s, Nest(middlewares, Core(route, captures)), env);
      var res := env.middleware(middlewares[k]).result;
      r.outcome == res &&
      r.trace == if !res.Returned? then Befores(middlewares[..k + 1]) else OnionTrace(middlewares[..k + 1], [])
    decreases k
  {
    var m := middlewares[0];
    var rest := middlewares[1..];
    var o := DI.Resolve(u, rank, s, m);
    var r := RunSpec(u, rank, s, Nest(middlewares, Core(route, captures)), env);
    var res := env.middleware(middlewares[k]).result;
    DI.ResolveCorrect(u, rank, s, m);
    if k == 0 {
      assert middlewares[..1] == [m] && middlewares[..1][1..] == [];
    } else {
      assert middlewares[..k][0] == m;
      var g := o.cached - s;
      assert o.cached == s + g;
      var passed := rest[..k - 1];
      assert AllPass(u, rank, s, passed, env) by {
        forall i | 0 <= i < |passed|
          ensures DI.Resolvable(u, rank, s, passed[i]) && env.middleware(passed[i]).CallNext?
        {
          assert passed[i] == middlewares[..k][i + 1];
        }
      }
      AllPassExtension(u, rank, s, g, passed, env);
      assert rest[k - 1] == middlewares[k];
      DI.ResolvableExtension(u, rank, s, g, rest[k - 1]);
      ShortCircuit(u, rank, o.cached, rest, k - 1, route, captures, env);
      var inner := RunSpec(u, rank, o.cached, Nest(rest, Core(route, captures)), env);
      assert r.trace == [Before(m)] + inner.trace + Closing(m, inner.outcome);
      assert middlewares[..k + 1][0] == m && middlewares[..k + 1][1..] == rest[..k];
    }
  }
}
