/**
 * The router's route table (src/Router.php:194-207, 282-304): per HTTP
 * method, an insertion-ordered PHP array from normalised path to route.
 * Assigning to an existing key replaces its value where it stands; a new
 * key goes at the end. Iteration order decides which route matches first.
 */
module RouteTable {
  import opened Wrappers
  import PathTemplate

  /** The value stored per path: controller class, controller method and middlewares. */
  datatype Route = Route(resource: string, action: string, middlewares: seq<string>)

  /** One method's routes, in PHP array order. */
  type Table = seq<(string, Route)>

  /** All routes, keyed by HTTP method. */
  type Routes = map<string, Table>

  // ---------------------------------------------------------------------
  // Path normalisation: '/' . trim($path, '/')
  // ---------------------------------------------------------------------

  /** Drop every leading `/`. */
  function TrimLeft(s: string): string {
    if s != [] && s[0] == '/' then TrimLeft(s[1..]) else s
  }

  /** Drop every trailing `/`. */
  function TrimRight(s: string): string {
    if s != [] && s[|s| - 1] == '/' then TrimRight(s[..|s| - 1]) else s
  }

  /** What `TrimLeft` keeps is a suffix of its input that does not start with `/`. */
  lemma {:induction false} TrimLeftKeepsSuffix(s: string)
    ensures var r := TrimLeft(s);
      |r| <= |s| && r == s[|s| - |r|..] && (r == [] || r[0] != '/')
  {
    if s != [] && s[0] == '/' {
      var r := TrimLeft(s[1..]);
      TrimLeftKeepsSuffix(s[1..]);
      assert s[1..][|s| - 1 - |r|..] == s[|s| - |r|..];
    }
  }

  /** What `TrimLeft` removes is a run of slashes. */
  lemma {:induction false} TrimLeftDropsSlashes(s: string)
    ensures forall i :: 0 <= i < |s| - |TrimLeft(s)| ==> s[i] == '/'
  {
    if s != [] && s[0] == '/' {
      var n := |TrimLeft(s[1..])|;
      TrimLeftDropsSlashes(s[1..]);
      forall i | 0 <= i < |s| - n ensures s[i] == '/' {
        if i > 0 {
          assert s[i] == s[1..][i - 1];
        }
      }
    }
  }

  /** What `TrimRight` keeps is a prefix of its input that does not end with `/`. */
  lemma {:induction false} TrimRightKeepsPrefix(s: string)
    ensures var r := TrimRight(s);
      |r| <= |s| && r == s[..|r|] && (r == [] || r[|r| - 1] != '/')
  {
    if s != [] && s[|s| - 1] == '/' {
      var r := TrimRight(s[..|s| - 1]);
      TrimRightKeepsPrefix(s[..|s| - 1]);
      assert s[..|s| - 1][..|r|] == s[..|r|];
    }
  }

  /** What `TrimRight` removes is a run of slashes. */
  lemma {:induction false} TrimRightDropsSlashes(s: string)
    ensures forall i :: |TrimRight(s)| <= i < |s| ==> s[i] == '/'
  {
    if s != [] && s[|s| - 1] == '/' {
      var n := |TrimRight(s[..|s| - 1])|;
      TrimRightDropsSlashes(s[..|s| - 1]);
      forall i | n <= i < |s| ensures s[i] == '/' {
        if i < |s| - 1 {
          assert s[i] == s[..|s| - 1][i];
        }
      }
    }
  }

  /** PHP's `trim($s, '/')`. */
  function Trim(s: string): string {
    TrimRight(TrimLeft(s))
  }

  /** The key a route path is stored under. */
  function NormalizePath(path: string): (key: string)
    ensures |key| > 0 && key[0] == '/'
  {
    "/" + Trim(path)
  }

  /** A key starts with `/`, and is either exactly "/" or has no `/` right after the first character nor at the end. */
  lemma NormalizeShape(path: string)
    ensures var key := NormalizePath(path);
      key[0] == '/' && (key == "/" || (key[1] != '/' && key[|key| - 1] != '/'))
  {
    var l := TrimLeft(path);
    var t := TrimRight(l);
    TrimLeftKeepsSuffix(path);
    TrimRightKeepsPrefix(l);
    if t != [] {
      assert t[0] == l[0];
    }
    assert NormalizePath(path)[1..] == t;
  }

  /** `path[..i]` and `path[j..]` consist of slashes only. */
  predicate SlashesOutside(path: string, i: nat, j: nat) {
    i <= j <= |path| &&
    (forall k :: 0 <= k < i ==> path[k] == '/') && (forall k :: j <= k < |path| ==> path[k] == '/')
  }

  /** The key is the path with slashes, and only slashes, removed from its two ends. */
  lemma NormalizeRemovesOnlySlashes(path: string)
    ensures exists i: nat, j: nat :: SlashesOutside(path, i, j) && NormalizePath(path) == "/" + path[i..j]
  {
    var l := TrimLeft(path);
    var t := TrimRight(l);
    TrimLeftKeepsSuffix(path);
    TrimLeftDropsSlashes(path);
    TrimRightKeepsPrefix(l);
    TrimRightDropsSlashes(l);
    var i := |path| - |l|;
    var j := i + |t|;
    assert l == path[i..];
    assert t == path[i..j];
    forall k | j <= k < |path| ensures path[k] == '/' {
      assert path[k] == l[k - i];
    }
    assert SlashesOutside(path, i, j);
    assert NormalizePath(path) == "/" + path[i..j];
  }

  /** The shape of a stored key. */
  predicate Normalized(key: string) {
    |key| > 0 && key[0] == '/' && (key == "/" || (key[1] != '/' && key[|key| - 1] != '/'))
  }

  /** A key of that shape is its own normalisation, so normalising twice changes nothing. */
  lemma NormalizedFixpoint(key: string)
    requires Normalized(key)
    ensures NormalizePath(key) == key
  {
    var rest := key[1..];
    assert TrimLeft(key) == rest by {
      if rest != [] {
        assert rest[0] == key[1];
      }
    }
    if rest != [] {
      assert rest[|rest| - 1] == key[|key| - 1];
    }
    assert TrimRight(rest) == rest;
  }

  lemma NormalizeIdempotent(path: string)
    ensures NormalizePath(NormalizePath(path)) == NormalizePath(path)
  {
    NormalizeShape(path);
    NormalizedFixpoint(NormalizePath(path));
  }

  // ---------------------------------------------------------------------
  // The ordered table
  // ---------------------------------------------------------------------

  /** PHP array keys are unique. */
  predicate UniqueKeys(t: Table) {
    forall i, j :: 0 <= i < j < |t| ==> t[i].0 != t[j].0
  }

  /** `$table[$key]` when it is set. */
  function Lookup(t: Table, key: string): (r: Option<Route>)
    ensures r.Some? <==> exists i :: 0 <= i < |t| && t[i].0 == key
    ensures r.Some? ==> exists i :: 0 <= i < |t| && t[i] == (key, r.value)
  {
    if t == [] then None
    else if t[0].0 == key then Some(t[0].1)
    else Lookup(t[1..], key)
  }

  /**
   * `$table[$key] = $route`: an existing key keeps its position and gets the
   * new route; a new key is appended.
   */
  function Put(t: Table, key: string, route: Route): (r: Table)
    ensures (key, route) in r && |t| <= |r| <= |t| + 1
  {
    if t == [] then [(key, route)]
    else if t[0].0 == key then [(key, route)] + t[1..]
    else [t[0]] + Put(t[1..], key, route)
  }

  /**
   * A put changes no position: the table grows only by a new key at the end,
   * every key stays where it was, and no entry for another key changes.
   */
  lemma {:induction false} PutKeepsPositions(t: Table, key: string, route: Route)
    ensures var r := Put(t, key, route);
      |r| == (if Lookup(t, key).Some? then |t| else |t| + 1) &&
      (forall i :: 0 <= i < |t| ==> r[i].0 == t[i].0) &&
      (forall i :: 0 <= i < |t| && t[i].0 != key ==> r[i] == t[i]) &&
      (Lookup(t, key).None? ==> r[|t|] == (key, route))
  {
    if t != [] && t[0].0 != key {
      PutKeepsPositions(t[1..], key, route);
    }
  }

  /** After a put, the key holds the new route and every other key what it held before. */
  lemma {:induction false} PutLookup(t: Table, key: string, route: Route, k: string)
    ensures Lookup(Put(t, key, route), k) == if k == key then Some(route) else Lookup(t, k)
  {
    if t != [] && t[0].0 != key {
      PutLookup(t[1..], key, route, k);
    }
  }

  /** A put keeps the keys unique. */
  lemma PutUnique(t: Table, key: string, route: Route)
    requires UniqueKeys(t)
    ensures UniqueKeys(Put(t, key, route))
  {
    var r := Put(t, key, route);
    PutKeepsPositions(t, key, route);
    if |r| > |t| {
      assert Lookup(t, key).None?;
    }
  }

  /** Putting a key twice leaves only the second route, where the key stood. */
  lemma {:induction false} PutTwice(t: Table, key: string, r1: Route, r2: Route)
    ensures Put(Put(t, key, r1), key, r2) == Put(t, key, r2)
  {
    if t != [] && t[0].0 != key {
      PutTwice(t[1..], key, r1, r2);
    }
  }

  /** The table of a method; a method with no table behaves as an empty one. */
  function TableFor(routes: Routes, verb: string): Table {
    if verb in routes then routes[verb] else []
  }

  /** `addRoute`: store the route under the normalised path in the method's table. */
  function AddRoute(routes: Routes, verb: string, path: string, route: Route): (r: Routes)
    ensures verb in r && (NormalizePath(path), route) in r[verb]
  {
    routes[verb := Put(TableFor(routes, verb), NormalizePath(path), route)]
  }

  /**
   * `addRoute` touches only the method's table, creating it when missing,
   * and in it only the entry for the normalised path.
   */
  lemma AddRouteOnlyTouchesKey(routes: Routes, verb: string, path: string, route: Route)
    ensures var r := AddRoute(routes, verb, path, route);
      r.Keys == routes.Keys + {verb} &&
      (forall m :: m in routes && m != verb ==> r[m] == routes[m]) &&
      (forall k :: Lookup(r[verb], k) == if k == NormalizePath(path) then Some(route) else Lookup(TableFor(routes, verb), k))
  {
    var r := AddRoute(routes, verb, path, route);
    forall k
      ensures Lookup(r[verb], k) == if k == NormalizePath(path) then Some(route) else Lookup(TableFor(routes, verb), k)
    {
      PutLookup(TableFor(routes, verb), NormalizePath(path), route, k);
    }
  }

  /**
   * Adding a route under a path that normalises to the key of an earlier one
   * leaves only the later route, where the earlier one stood.
   */
  lemma AddRouteTwice(routes: Routes, verb: string, p1: string, r1: Route, p2: string, r2: Route)
    requires NormalizePath(p1) == NormalizePath(p2)
    ensures AddRoute(AddRoute(routes, verb, p1, r1), verb, p2, r2) == AddRoute(routes, verb, p2, r2)
  {
    var t := TableFor(routes, verb);
    var key := NormalizePath(p2);
    PutTwice(t, key, r1, r2);
    assert TableFor(AddRoute(routes, verb, p1, r1), verb) == Put(t, key, r1);
  }

  /** The table's keys are unique and each is a normalised path. */
  ghost predicate TableWellFormed(t: Table) {
    UniqueKeys(t) && forall i :: 0 <= i < |t| ==> Normalized(t[i].0)
  }

  /** Every method's table is well formed. */
  ghost predicate WellFormed(routes: Routes) {
    forall m :: m in routes ==> TableWellFormed(routes[m])
  }

  lemma PutWellFormed(t: Table, key: string, route: Route)
    requires TableWellFormed(t) && Normalized(key)
    ensures TableWellFormed(Put(t, key, route))
  {
    var t' := Put(t, key, route);
    PutUnique(t, key, route);
    PutKeepsPositions(t, key, route);
    forall i | 0 <= i < |t'|
      ensures Normalized(t'[i].0)
    {
      if i < |t| {
        assert t'[i].0 == t[i].0;
      }
    }
  }

  /** `addRoute` keeps every table well formed. */
  lemma AddRouteWellFormed(routes: Routes, verb: string, path: string, route: Route)
    requires WellFormed(routes)
    ensures WellFormed(AddRoute(routes, verb, path, route))
  {
    NormalizeShape(path);
    PutWellFormed(TableFor(routes, verb), NormalizePath(path), route);
  }

  /** A stored key starts with `/`, so its template never matches text that does not. */
  lemma NormalizedKeyNeedsSlash(key: string, uri: string)
    requires Normalized(key) && (uri == [] || uri[0] != '/')
    ensures PathTemplate.Match(PathTemplate.Parse(key), uri).None?
  {
    assert PathTemplate.PlaceholderAt(key) == 0;
    assert PathTemplate.Parse(key)[0] == PathTemplate.Lit('/');
  }

  // ---------------------------------------------------------------------
  // First match
  // ---------------------------------------------------------------------

  /** Which entry matched, and the values it captured. */
  datatype Hit = Hit(index: nat, captures: seq<string>)

  /**
   * The first entry, in table order, whose compiled key matches `uri`;
   * entries after it are never looked at.
   */
  function FirstMatch(t: Table, uri: string): (r: Option<Hit>)
    ensures r.Some? ==>
      r.value.index < |t| && PathTemplate.Match(PathTemplate.Parse(t[r.value.index].0), uri) == Some(r.value.captures)
    ensures r.Some? ==> forall j :: 0 <= j < r.value.index ==> PathTemplate.Match(PathTemplate.Parse(t[j].0), uri).None?
    ensures r.None? ==> forall j :: 0 <= j < |t| ==> PathTemplate.Match(PathTemplate.Parse(t[j].0), uri).None?
  {
    if t == [] then None
    else match PathTemplate.Match(PathTemplate.Parse(t[0].0), uri)
      case Some(caps) => Some(Hit(0, caps))
      case None =>
        var rest := FirstMatch(t[1..], uri);
        if rest.None? then None else Some(Hit(rest.value.index + 1, rest.value.captures))
  }
}
