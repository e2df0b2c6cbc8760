/**
 * The dependency-injection container of src/DI/Container.php: a lazily
 * filled cache of singletons, keyed by class name, whose misses are filled
 * by constructing the class with recursively resolved constructor arguments.
 *
 * The runtime's class table (what PHP's reflection would report) is given
 * as data, a `Universe`. Instances are objects, so "the same instance" is
 * reference equality, as in PHP.
 */
module DI {
  import opened Wrappers

  /** An object built by the container: its class and its constructor arguments. */
  class Instance {
    const cls: string
    const args: seq<Value>

    constructor (cls: string, args: seq<Value>)
      ensures this.cls == cls && this.args == args
    {
      this.cls := cls;
      this.args := args;
    }
  }

  /** A PHP value that can sit in the cache or be passed to a constructor. */
  datatype Value = Null | Scalar(literal: string) | Object(obj: Instance)

  /**
   * A constructor parameter: typed by a (non-builtin) class, or builtin
   * (or untyped), with or without a default value.
   */
  datatype Param =
    | ClassTyped(name: string, typeName: string)
    | Builtin(name: string, default: Option<Value>)

  /** A class as reflection sees it: no constructor, or its parameter list. */
  datatype ClassDecl = ClassDecl(ctor: Option<seq<Param>>)

  /** The instantiable classes that exist at run time. */
  type Universe = map<string, ClassDecl>

  /** The two exceptions the container throws. */
  datatype Error = ClassMissing(cls: string) | UnresolvableParameter(param: string)

  /** The exception message, as `getMessage()` would return it. */
  function Message(e: Error): (m: string)
    ensures e.ClassMissing? ==>
      ClassMissingOpen <= m && |m| == |ClassMissingOpen| + |e.cls| + |ClassMissingClose| &&
      m[|ClassMissingOpen|..|m| - |ClassMissingClose|] == e.cls && m[|m| - |ClassMissingClose|..] == ClassMissingClose
    ensures e.UnresolvableParameter? ==>
      UnresolvableParameterText <= m && m[|UnresolvableParameterText|..] == e.param
  {
    match e
    case ClassMissing(c) => ClassMissingOpen + c + ClassMissingClose
    case UnresolvableParameter(p) => UnresolvableParameterText + p
  }

  const ClassMissingOpen: string := "Class \""
  const ClassMissingClose: string := "\" does not exist"
  const UnresolvableParameterText: string := "Cannot resolve parameter "

  /** The message of an exception tells which error it was, and for which class or parameter. */
  lemma MessageInjective(e1: Error, e2: Error)
    ensures Message(e1) == Message(e2) <==> e1 == e2
  {
    if e1.ClassMissing? != e2.ClassMissing? {
      assert Message(e1)[1] != Message(e2)[1];
    }
  }

  // ---------------------------------------------------------------------
  // Acyclic class graphs
  // ---------------------------------------------------------------------

  /** The rank of a class name; names without one rank 0. */
  function Rank(rank: map<string, nat>, c: string): nat {
    if c in rank then rank[c] else 0
  }

  /**
   * Every class-typed constructor parameter names a class of strictly
   * smaller rank, so constructor resolution cannot cycle.
   */
  ghost predicate Acyclic(u: Universe, rank: map<string, nat>) {
    forall c, p :: c in u && u[c].ctor.Some? && p in u[c].ctor.value && p.ClassTyped? ==>
      Rank(rank, p.typeName) < Rank(rank, c)
  }

  /** Every class-typed parameter in `ps` ranks below `bound`. */
  ghost predicate Bounded(rank: map<string, nat>, ps: seq<Param>, bound: nat) {
    forall p :: p in ps && p.ClassTyped? ==> Rank(rank, p.typeName) < bound
  }

  // ---------------------------------------------------------------------
  // Resolution at the level of cached class names
  // ---------------------------------------------------------------------

  /**
   * What a resolution does to the set of cached (non-null) entries: the
   * exception it throws, if any, and the cached names afterwards.
   */
  datatype Outcome = Outcome(error: Option<Error>, cached: set<string>)

  /**
   * `get(c)` starting from the cached names `s`: a hit returns at once;
   * an unknown class throws; otherwise the parameters are resolved in
   * order and, if all succeed, `c` is cached. The cache only grows, only
   * real classes are added, and nothing of higher rank than `c` is added.
   */
  ghost function Resolve(u: Universe, rank: map<string, nat>, s: set<string>, c: string): (r: Outcome)
    requires Acyclic(u, rank)
    ensures s <= r.cached && r.cached - s <= u.Keys
    ensures forall k :: k in r.cached - s ==> Rank(rank, k) <= Rank(rank, c)
    ensures r.error.None? ==> c in r.cached
    ensures c in s ==> r == Outcome(None, s)
    ensures c !in s && c !in u ==> r == Outcome(Some(ClassMissing(c)), s)
    decreases Rank(rank, c), 2, 0
  {
    if c in s then Outcome(None, s)
    else if c !in u then Outcome(Some(ClassMissing(c)), s)
    else match u[c].ctor
      case None => Outcome(None, s + {c})
      case Some(ps) =>
        var deps := ResolveAll(u, rank, s, ps, Rank(rank, c));
        if deps.error.Some? then deps else Outcome(None, deps.cached + {c})
  }

  /**
   * The `array_map` over the constructor's parameters: left to right, the
   * first failure stops it, and what earlier parameters cached stays cached.
   */
  ghost function ResolveAll(u: Universe, rank: map<string, nat>, s: set<string>, ps: seq<Param>, bound: nat): (r: Outcome)
    requires Acyclic(u, rank) && Bounded(rank, ps, bound)
    ensures s <= r.cached && r.cached - s <= u.Keys
    ensures forall k :: k in r.cached - s ==> Rank(rank, k) < bound
    ensures r.error.None? ==> forall p :: p in ps && p.ClassTyped? ==> p.typeName in r.cached
    decreases bound, 1, |ps|
  {
    if ps == [] then Outcome(None, s)
    else
      var first := ResolveParam(u, rank, s, ps[0], bound);
      if first.error.Some? then first
      else ResolveAll(u, rank, first.cached, ps[1..], bound)
  }

  /** `resolveParameter`: a class-typed parameter is a recursive `get`; otherwise its default, or an exception. */
  ghost function ResolveParam(u: Universe, rank: map<string, nat>, s: set<string>, p: Param, bound: nat): (r: Outcome)
    requires Acyclic(u, rank)
    requires p.ClassTyped? ==> Rank(rank, p.typeName) < bound
    ensures s <= r.cached && r.cached - s <= u.Keys
    ensures forall k :: k in r.cached - s ==> Rank(rank, k) < bound
    ensures p.ClassTyped? && r.error.None? ==> p.typeName in r.cached
    ensures p.Builtin? ==> r.cached == s && (r.error.None? <==> p.default.Some?)
    ensures p.Builtin? && p.default.None? ==> r.error == Some(UnresolvableParameter(p.name))
    decreases bound, 0, 0
  {
    match p
    case ClassTyped(_, t) => Resolve(u, rank, s, t)
    case Builtin(n, d) =>
      if d.Some? then Outcome(None, s) else Outcome(Some(UnresolvableParameter(n)), s)
  }

  /** Every parameter of a prefix of `ps` is bounded as the parameters of `ps` are. */
  lemma BoundedPrefix(rank: map<string, nat>, ps: seq<Param>, i: nat, bound: nat)
    requires Bounded(rank, ps, bound) && i <= |ps|
    ensures Bounded(rank, ps[..i], bound)
  {
    forall p | p in ps[..i] && p.ClassTyped? ensures Rank(rank, p.typeName) < bound {
      var j :| 0 <= j < i && ps[..i][j] == p;
      assert ps[j] == p;
    }
  }

  /**
   * Parameter `ps[i]` is where resolving `ps` stops: the parameters before
   * it all resolve, and resolving it, from the cache they leave, gives the
   * whole list's outcome.
   */
  ghost predicate StopsAt(u: Universe, rank: map<string, nat>, s: set<string>, ps: seq<Param>, bound: nat, i: nat)
    requires Acyclic(u, rank) && Bounded(rank, ps, bound) && i < |ps|
  {
    BoundedPrefix(rank, ps, i, bound);
    var before := ResolveAll(u, rank, s, ps[..i], bound);
    before.error.None? && ResolveParam(u, rank, before.cached, ps[i], bound) == ResolveAll(u, rank, s, ps, bound)
  }

  /**
   * A failing parameter list throws the exception of its first failing
   * parameter, with what the parameters before it cached left in the cache.
   */
  lemma {:induction false} ResolveAllFirstFailure(u: Universe, rank: map<string, nat>, s: set<string>, ps: seq<Param>, bound: nat)
    requires Acyclic(u, rank) && Bounded(rank, ps, bound)
    requires ResolveAll(u, rank, s, ps, bound).error.Some?
    ensures exists i :: 0 <= i < |ps| && StopsAt(u, rank, s, ps, bound, i)
    decreases |ps|
  {
    var first := ResolveParam(u, rank, s, ps[0], bound);
    BoundedPrefix(rank, ps, 0, bound);
    assert ps[..0] == [];
    if first.error.Some? {
      assert StopsAt(u, rank, s, ps, bound, 0);
    } else {
      var s1 := first.cached;
      var rest := ps[1..];
      ResolveAllFirstFailure(u, rank, s1, rest, bound);
      var j :| 0 <= j < |rest| && StopsAt(u, rank, s1, rest, bound, j);
      BoundedPrefix(rank, ps, j + 1, bound);
      BoundedPrefix(rank, rest, j, bound);
      var pre := ps[..j + 1];
      assert pre[0] == ps[0] && pre[1..] == rest[..j];
      assert ResolveAll(u, rank, s, pre, bound) == ResolveAll(u, rank, s1, rest[..j], bound);
      assert ps[j + 1] == rest[j];
      assert StopsAt(u, rank, s, ps, bound, j + 1);
    }
  }

  // ---------------------------------------------------------------------
  // A declarative reference: which classes can be resolved at all
  // ---------------------------------------------------------------------

  /**
   * `c` is resolvable from the cached names `s` when it is cached, or it is a
   * class without a constructor, or all of its constructor's parameters are.
   */
  ghost predicate Resolvable(u: Universe, rank: map<string, nat>, s: set<string>, c: string)
    requires Acyclic(u, rank)
    decreases Rank(rank, c), 1
  {
    c in s ||
    (c in u && (u[c].ctor.None? ||
                forall p :: p in u[c].ctor.value ==> ParamResolvable(u, rank, s, p, Rank(rank, c))))
  }

  /** A parameter is resolvable when its class is, or when it has a default. */
  ghost predicate ParamResolvable(u: Universe, rank: map<string, nat>, s: set<string>, p: Param, bound: nat)
    requires Acyclic(u, rank)
    requires p.ClassTyped? ==> Rank(rank, p.typeName) < bound
    decreases bound, 0
  {
    match p
    case ClassTyped(_, t) => Resolvable(u, rank, s, t)
    case Builtin(_, d) => d.Some?
  }

  /** Pre-seeding more of the cache never makes a class unresolvable. */
  lemma {:induction false} ResolvableMonotone(u: Universe, rank: map<string, nat>, s1: set<string>, s2: set<string>, c: string)
    requires Acyclic(u, rank) && s1 <= s2
    requires Resolvable(u, rank, s1, c)
    ensures Resolvable(u, rank, s2, c)
    decreases Rank(rank, c)
  {
    if c !in s1 && u[c].ctor.Some? {
      forall p | p in u[c].ctor.value
        ensures ParamResolvable(u, rank, s2, p, Rank(rank, c))
      {
        if p.ClassTyped? {
          ResolvableMonotone(u, rank, s1, s2, p.typeName);
        }
      }
    }
  }

  /** Caching classes that were resolvable anyway changes nothing about what is resolvable. */
  lemma {:induction false} ResolvableExtension(u: Universe, rank: map<string, nat>, s: set<string>, g: set<string>, c: string)
    requires Acyclic(u, rank)
    requires forall k :: k in g ==> Resolvable(u, rank, s, k)
    ensures Resolvable(u, rank, s + g, c) <==> Resolvable(u, rank, s, c)
    decreases Rank(rank, c)
  {
    if Resolvable(u, rank, s, c) {
      ResolvableMonotone(u, rank, s, s + g, c);
    }
    if Resolvable(u, rank, s + g, c) && c !in s && c !in g && u[c].ctor.Some? {
      forall p | p in u[c].ctor.value
        ensures ParamResolvable(u, rank, s, p, Rank(rank, c))
      {
        assert ParamResolvable(u, rank, s + g, p, Rank(rank, c));
        if p.ClassTyped? {
          ResolvableExtension(u, rank, s, g, p.typeName);
        }
      }
    }
  }

  /**
   * `get(c)` succeeds exactly when `c` is resolvable, and every class it
   * caches on the way was resolvable before it started.
   */
  lemma {:induction false} ResolveCorrect(u: Universe, rank: map<string, nat>, s: set<string>, c: string)
    requires Acyclic(u, rank)
    ensures Resolve(u, rank, s, c).error.None? <==> Resolvable(u, rank, s, c)
    ensures forall k :: k in Resolve(u, rank, s, c).cached - s ==> Resolvable(u, rank, s, k)
    decreases Rank(rank, c), 2
  {
    if c !in s && c in u && u[c].ctor.Some? {
      ResolveAllCorrect(u, rank, s, u[c].ctor.value, Rank(rank, c));
    }
  }

  /** The parameter list resolves exactly when each parameter is resolvable from the starting cache. */
  lemma {:induction false} ResolveAllCorrect(u: Universe, rank: map<string, nat>, s: set<string>, ps: seq<Param>, bound: nat)
    requires Acyclic(u, rank) && Bounded(rank, ps, bound)
    ensures ResolveAll(u, rank, s, ps, bound).error.None? <==>
            forall p :: p in ps ==> ParamResolvable(u, rank, s, p, bound)
    ensures forall k :: k in ResolveAll(u, rank, s, ps, bound).cached - s ==> Resolvable(u, rank, s, k)
    decreases bound, 1, |ps|
  {
    if ps != [] {
      var first := ResolveParam(u, rank, s, ps[0], bound);
      if ps[0].ClassTyped? {
        ResolveCorrect(u, rank, s, ps[0].typeName);
      }
      if first.error.None? {
        var s1 := first.cached;
        var g := s1 - s;
        assert s1 == s + g;
        ResolveAllCorrect(u, rank, s1, ps[1..], bound);
        forall p | p in ps[1..]
          ensures ParamResolvable(u, rank, s1, p, bound) <==> ParamResolvable(u, rank, s, p, bound)
        {
          if p.ClassTyped? {
            ResolvableExtension(u, rank, s, g, p.typeName);
          }
        }
        forall k | k in ResolveAll(u, rank, s1, ps[1..], bound).cached - s1
          ensures Resolvable(u, rank, s, k)
        {
          ResolvableExtension(u, rank, s, g, k);
        }
        assert ParamResolvable(u, rank, s, ps[0], bound);
        assert ResolveAll(u, rank, s, ps, bound) == ResolveAll(u, rank, s1, ps[1..], bound);
        if forall p :: p in ps ==> ParamResolvable(u, rank, s, p, bound) {
          forall p | p in ps[1..] ensures ParamResolvable(u, rank, s1, p, bound) {
            assert p in ps;
          }
        }
        if ResolveAll(u, rank, s1, ps[1..], bound).error.None? {
          forall p | p in ps ensures ParamResolvable(u, rank, s, p, bound) {
            if p != ps[0] {
              assert p in ps[1..];
            }
          }
        }
      } else {
        assert !ParamResolvable(u, rank, s, ps[0], bound);
      }
    }
  }

  // ---------------------------------------------------------------------
  // What the cache holds
  // ---------------------------------------------------------------------

  /** The argument passed for parameter `p` is what resolving it yields in cache `inst`. */
  ghost predicate ArgMatches(p: Param, a: Value, inst: map<string, Value>) {
    match p
    case ClassTyped(_, t) => t in inst && inst[t] != Null && a == inst[t]
    case Builtin(_, d) => d.Some? && a == d.value
  }

  /** The constructor arguments are the resolved parameters, in declaration order; none without a constructor. */
  ghost predicate ArgsMatch(ctor: Option<seq<Param>>, args: seq<Value>, inst: map<string, Value>) {
    match ctor
    case None => args == []
    case Some(ps) => |args| == |ps| && forall i :: 0 <= i < |ps| ==> ArgMatches(ps[i], args[i], inst)
  }

  /** The entry for `k` is an instance of class `k` built from the resolved parameters. */
  ghost predicate Built(u: Universe, inst: map<string, Value>, k: string) {
    k in inst && inst[k].Object? && inst[k].obj.cls == k && k in u &&
    ArgsMatch(u[k].ctor, inst[k].obj.args, inst)
  }

  /** The cached names: keys whose entry is set (PHP's `isset` is false for null). */
  function CachedKeys(inst: map<string, Value>): set<string> {
    set k | k in inst && inst[k] != Null
  }

  /**
   * `after` keeps every key of `before` and every non-null entry of it;
   * every entry that differs is non-null and replaces a missing or null one.
   */
  ghost predicate Extends(before: map<string, Value>, after: map<string, Value>) {
    (forall k :: k in before ==> k in after && (before[k] != Null ==> after[k] == before[k])) &&
    (forall k :: k in after ==>
       (k in before && after[k] == before[k]) || (after[k] != Null && (k !in before || before[k] == Null)))
  }

  lemma ExtendsKeepsBuilt(u: Universe, a: map<string, Value>, b: map<string, Value>, k: string)
    requires Extends(a, b) && Built(u, a, k)
    ensures Built(u, b, k)
  {
    var ctor := u[k].ctor;
    if ctor.Some? {
      var args := a[k].obj.args;
      forall i | 0 <= i < |ctor.value| ensures ArgMatches(ctor.value[i], args[i], b) {
        assert ArgMatches(ctor.value[i], args[i], a);
      }
    }
  }

  lemma ExtendsKeepsArgs(ps: seq<Param>, args: seq<Value>, a: map<string, Value>, b: map<string, Value>)
    requires Extends(a, b) && |args| <= |ps|
    requires forall i :: 0 <= i < |args| ==> ArgMatches(ps[i], args[i], a)
    ensures forall i :: 0 <= i < |args| ==> ArgMatches(ps[i], args[i], b)
  {
    forall i | 0 <= i < |args| ensures ArgMatches(ps[i], args[i], b) {
      assert ArgMatches(ps[i], args[i], a);
    }
  }

  /** Extending the cache keeps earlier arguments matching; one more matching argument goes at the end. */
  lemma ExtendsKeepsArgsSnoc(ps: seq<Param>, args: seq<Value>, x: Value, a: map<string, Value>, b: map<string, Value>)
    requires Extends(a, b) && |args| < |ps|
    requires forall i :: 0 <= i < |args| ==> ArgMatches(ps[i], args[i], a)
    requires ArgMatches(ps[|args|], x, b)
    ensures forall i :: 0 <= i < |args| + 1 ==> ArgMatches(ps[i], (args + [x])[i], b)
  {
    ExtendsKeepsArgs(ps, args, a, b);
    forall i | 0 <= i < |args| + 1 ensures ArgMatches(ps[i], (args + [x])[i], b) {
      if i < |args| {
        assert (args + [x])[i] == args[i];
      }
    }
  }

  /** Entries built since `s0` stay built when the cache is extended by further built entries. */
  lemma ExtendsKeepsAllBuilt(u: Universe, s0: set<string>, a: map<string, Value>, b: map<string, Value>)
    requires Extends(a, b)
    requires forall k :: k in CachedKeys(a) - s0 ==> Built(u, a, k)
    requires forall k :: k in CachedKeys(b) - CachedKeys(a) ==> Built(u, b, k)
    ensures forall k :: k in CachedKeys(b) - s0 ==> Built(u, b, k)
  {
    forall k | k in CachedKeys(b) - s0 ensures Built(u, b, k) {
      if k in CachedKeys(a) {
        ExtendsKeepsBuilt(u, a, b, k);
      }
    }
  }

  lemma ExtendsTransitive(a: map<string, Value>, b: map<string, Value>, c: map<string, Value>)
    requires Extends(a, b) && Extends(b, c)
    ensures Extends(a, c)
  {
  }

  // ---------------------------------------------------------------------
  // The container object
  // ---------------------------------------------------------------------

  class Container {
    /** The singleton cache, `$instances`. */
    var instances: map<string, Value>
    /** The classes that exist at run time. */
    const classes: Universe
    /** A ranking witnessing that constructor dependencies are acyclic. */
    ghost const rank: map<string, nat>

    constructor (classes: Universe, ghost rank: map<string, nat>)
      requires Acyclic(classes, rank)
      ensures this.classes == classes && this.rank == rank && instances == map[]
    {
      this.classes := classes;
      this.rank := rank;
      instances := map[];
    }

    ghost function Cached(): set<string>
      reads this
    {
      CachedKeys(instances)
    }

    /**
     * `get`: the cached instance if there is one; otherwise construct the
     * class from its resolved parameters, cache it and return it.
     */
    method Get(c: string) returns (r: Result<Value, Error>)
      requires Acyclic(classes, rank)
      modifies this
      decreases Rank(rank, c), 3
      ensures var o := Resolve(classes, rank, old(Cached()), c);
        Cached() == o.cached && (r.Failure? <==> o.error.Some?) && (r.Failure? ==> o.error == Some(r.error))
      ensures Extends(old(instances), instances)
      ensures forall k :: k in Cached() - old(Cached()) ==> Built(classes, instances, k) && fresh(instances[k].obj)
      ensures r.Success? ==> r.value != Null && c in instances && instances[c] == r.value
      ensures c in old(Cached()) ==> r == Success(old(instances)[c]) && instances == old(instances)
    {
      if c in instances && instances[c] != Null {
        return Success(instances[c]);
      }
      if c !in classes {
        return Failure(ClassMissing(c));
      }
      var args: seq<Value> := [];
      if classes[c].ctor.Some? {
        var deps := ResolveParameters(classes[c].ctor.value, Rank(rank, c));
        if deps.Failure? {
          return Failure(deps.error);
        }
        args := deps.value;
      }
      var instance := new Instance(c, args);
      ghost var before := instances;
      instances := instances[c := Object(instance)];
      assert Extends(before, instances);
      ExtendsTransitive(old(instances), before, instances);
      forall k | k in Cached() - old(Cached())
        ensures Built(classes, instances, k) && fresh(instances[k].obj)
      {
        if k != c {
          ExtendsKeepsBuilt(classes, before, instances, k);
        } else if classes[c].ctor.Some? {
          ExtendsKeepsArgs(classes[c].ctor.value, args, before, instances);
        }
      }
      r := Success(Object(instance));
    }

    /**
     * The `array_map` of `get` over a constructor's parameters: resolve them
     * left to right, stopping at the first exception.
     */
    method ResolveParameters(ps: seq<Param>, ghost bound: nat) returns (r: Result<seq<Value>, Error>)
      requires Acyclic(classes, rank) && Bounded(rank, ps, bound)
      modifies this
      decreases bound, 2
      ensures var o := ResolveAll(classes, rank, old(Cached()), ps, bound);
        Cached() == o.cached && (r.Failure? <==> o.error.Some?) && (r.Failure? ==> o.error == Some(r.error))
      ensures Extends(old(instances), instances)
      ensures forall k :: k in Cached() - old(Cached()) ==> Built(classes, instances, k) && fresh(instances[k].obj)
      ensures r.Success? ==> |r.value| == |ps| && forall j :: 0 <= j < |ps| ==> ArgMatches(ps[j], r.value[j], instances)
    {
      ghost var s0 := Cached();
      var deps: seq<Value> := [];
      var i := 0;
      while i < |ps|
        invariant 0 <= i <= |ps|
        invariant Extends(old(instances), instances)
        invariant ResolveAll(classes, rank, s0, ps, bound) == ResolveAll(classes, rank, Cached(), ps[i..], bound)
        invariant |deps| == i && forall j :: 0 <= j < i ==> ArgMatches(ps[j], deps[j], instances)
        invariant forall k :: k in Cached() - s0 ==> Built(classes, instances, k) && fresh(instances[k].obj)
      {
        ghost var before := instances;
        assert ps[i..][0] == ps[i] && ps[i..][1..] == ps[i + 1..];
        var a := ResolveParameter(ps[i], bound);
        if a.Failure? {
          return Failure(a.error);
        }
        ExtendsKeepsArgsSnoc(ps, deps, a.value, before, instances);
        ExtendsTransitive(old(instances), before, instances);
        ExtendsKeepsAllBuilt(classes, s0, before, instances);
        forall k | k in Cached() - s0 ensures fresh(instances[k].obj) {
          if k in CachedKeys(before) {
            assert instances[k] == before[k];
          }
        }
        deps := deps + [a.value];
        i := i + 1;
      }
      r := Success(deps);
    }
    /** `resolveParameter`: a recursive `get` for a class-typed parameter, else its default, else an exception. */
    method ResolveParameter(p: Param, ghost bound: nat) returns (r: Result<Value, Error>)
      requires Acyclic(classes, rank)
      requires p.ClassTyped? ==> Rank(rank, p.typeName) < bound
      modifies this
      decreases bound, 0
      ensures var o := ResolveParam(classes, rank, old(Cached()), p, bound);
        Cached() == o.cached && (r.Failure? <==> o.error.Some?) && (r.Failure? ==> o.error == Some(r.error))
      ensures Extends(old(instances), instances)
      ensures forall k :: k in Cached() - old(Cached()) ==> Built(classes, instances, k) && fresh(instances[k].obj)
      ensures r.Success? ==> ArgMatches(p, r.value, instances)
    {
      match p {
        case ClassTyped(_, t) =>
          r := Get(t);
        case Builtin(n, d) =>
          if d.Some? {
            r := Success(d.value);
          } else {
            r := Failure(UnresolvableParameter(n));
          }
      }
    }

    /** `set`: overwrite the cache entry for `c`, whatever it held. */
    method Set(c: string, x: Value)
      modifies this
      ensures instances == old(instances)[c := x]
    {
      instances := instances[c := x];
    }
  }

  /** Two `get`s of the same class return the identical instance, and the second changes nothing. */
  method GetTwice(container: Container, c: string) returns (r1: Result<Value, Error>, r2: Result<Value, Error>)
    requires Acyclic(container.classes, container.rank)
    modifies container
    ensures r1.Success? ==> r2 == r1
    ensures r1.Failure? ==> r2.Failure?
  {
    r1 := container.Get(c);
    ghost var between := container.instances;
    r2 := container.Get(c);
    if r1.Failure? {
      ghost var s := CachedKeys(old(container.instances));
      ResolveCorrect(container.classes, container.rank, s, c);
      assert !Resolvable(container.classes, container.rank, s, c);
      ghost var g := CachedKeys(between) - s;
      assert CachedKeys(between) == s + g;
      ResolveCorrect(container.classes, container.rank, CachedKeys(between), c);
      ResolvableExtension(container.classes, container.rank, s, g, c);
    }
  }

  /** After `set(c, x)` with a non-null `x`, `get(c)` returns `x` and constructs nothing. */
  method SetThenGet(container: Container, c: string, x: Value) returns (r: Result<Value, Error>)
    requires Acyclic(container.classes, container.rank) && x != Null
    modifies container
    ensures r == Success(x) && container.instances == old(container.instances)[c := x]
  {
    container.Set(c, x);
    r := container.Get(c);
  }
}
