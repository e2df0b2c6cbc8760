/**
 * Turning a controller's attributes into routes (src/Router.php:92-183).
 * Reflection is replaced by data: a controller class is its list of class
 * attributes and its methods, each with its own attribute list, in the
 * order reflection reports them. Every attribute class of the package holds
 * one string (a path, a prefix or a middleware class name), its `argument`.
 */
module Registration {
  import opened Wrappers
  import RouteTable

  /** An attribute as reflection reports it: the attribute class name and its one constructor argument. */
  datatype Attribute = Attribute(name: string, argument: string)

  datatype MethodDecl = MethodDecl(name: string, attributes: seq<Attribute>)

  datatype ControllerClass = ControllerClass(attributes: seq<Attribute>, methods: seq<MethodDecl>)

  /** The attribute classes the router looks for, by fully qualified name. */
  const MiddlewareAttribute: string := "NextPHP\\Rest\\Http\\Middleware"
  const RouteGroupAttribute: string := "NextPHP\\Rest\\Http\\RouteGroup"

  /** The ten verb attribute classes and the HTTP methods they stand for, in the order of the `match`. */
  const VerbTable: seq<(string, string)> := [
    ("NextPHP\\Rest\\Http\\Get", "GET"),
    ("NextPHP\\Rest\\Http\\Post", "POST"),
    ("NextPHP\\Rest\\Http\\Put", "PUT"),
    ("NextPHP\\Rest\\Http\\Delete", "DELETE"),
    ("NextPHP\\Rest\\Http\\Patch", "PATCH"),
    ("NextPHP\\Rest\\Http\\Options", "OPTIONS"),
    ("NextPHP\\Rest\\Http\\Head", "HEAD"),
    ("NextPHP\\Rest\\Http\\Trace", "TRACE"),
    ("NextPHP\\Rest\\Http\\Connect", "CONNECT"),
    ("NextPHP\\Rest\\Http\\Pri", "PRI")
  ]

  /** The verb of the first entry of `table` for class `name`, as a `match` picks its first matching arm. */
  function VerbOf(table: seq<(string, string)>, name: string): Option<string>
  {
    if table == [] then None
    else if table[0].0 == name then Some(table[0].1)
    else VerbOf(table[1..], name)
  }

  /** The lookup finds a class exactly when the table lists it, and then the verb of its first entry. */
  lemma {:induction false} VerbOfFirst(table: seq<(string, string)>, name: string)
    ensures VerbOf(table, name).None? <==> forall i :: 0 <= i < |table| ==> table[i].0 != name
    ensures VerbOf(table, name).Some? ==>
      exists i :: 0 <= i < |table| && table[i] == (name, VerbOf(table, name).value) &&
                  forall j :: 0 <= j < i ==> table[j].0 != name
  {
    if table != [] && table[0].0 != name {
      VerbOfFirst(table[1..], name);
      if VerbOf(table, name).Some? {
        var i :| 0 <= i < |table[1..]| && table[1..][i] == (name, VerbOf(table, name).value) &&
                 forall j :: 0 <= j < i ==> table[1..][j].0 != name;
        assert table[i + 1] == table[1..][i];
        forall j | 0 <= j < i + 1 ensures table[j].0 != name {
          if j > 0 {
            assert table[j] == table[1..][j - 1];
          }
        }
      }
    } else if table != [] {
      assert table[0] == (name, VerbOf(table, name).value);
    }
  }

  /** `getHttpMethodFromAttribute`: the verb of a verb attribute class, null for any other class. */
  function HttpMethodFromAttribute(name: string): Option<string> {
    VerbOf(VerbTable, name)
  }

  /** No attribute class appears twice in the table. */
  lemma VerbTableDistinct()
    ensures forall i, j :: 0 <= i < j < |VerbTable| ==> VerbTable[i].0 != VerbTable[j].0
  {
  }

  /** Each verb attribute class maps to its own verb, and every other class to null. */
  lemma HttpMethodFromAttributeTable(name: string)
    ensures forall i :: 0 <= i < |VerbTable| && VerbTable[i].0 == name ==> HttpMethodFromAttribute(name) == Some(VerbTable[i].1)
    ensures HttpMethodFromAttribute(name).None? <==> forall i :: 0 <= i < |VerbTable| ==> VerbTable[i].0 != name
  {
    VerbTableDistinct();
    VerbOfFirst(VerbTable, name);
  }

  /** The Middleware and RouteGroup attributes add no route. */
  lemma NonVerbAttributes()
    ensures HttpMethodFromAttribute(MiddlewareAttribute).None?
    ensures HttpMethodFromAttribute(RouteGroupAttribute).None?
  {
  }

  // ---------------------------------------------------------------------
  // Middleware lists: getClassMiddlewares / getMiddlewares
  // ---------------------------------------------------------------------

  /** The Middleware attributes' class names, in attribute order. */
  function MiddlewareNames(attrs: seq<Attribute>): (names: seq<string>)
    ensures |names| <= |attrs|
    ensures forall x :: x in names <==> exists a :: a in attrs && a.name == MiddlewareAttribute && a.argument == x
  {
    if attrs == [] then []
    else (if attrs[0].name == MiddlewareAttribute then [attrs[0].argument] else []) + MiddlewareNames(attrs[1..])
  }

  lemma {:induction false} MiddlewareNamesAppend(a: seq<Attribute>, b: seq<Attribute>)
    ensures MiddlewareNames(a + b) == MiddlewareNames(a) + MiddlewareNames(b)
  {
    if a != [] {
      assert (a + b)[1..] == a[1..] + b;
      MiddlewareNamesAppend(a[1..], b);
    } else {
      assert a + b == b;
    }
  }

  /** The loop of `getClassMiddlewares` and `getMiddlewares`: collect the Middleware attributes' class names. */
  method CollectMiddlewares(attrs: seq<Attribute>) returns (middlewares: seq<string>)
    ensures middlewares == MiddlewareNames(attrs)
  {
    middlewares := [];
    var i := 0;
    while i < |attrs|
      invariant 0 <= i <= |attrs|
      invariant middlewares == MiddlewareNames(attrs[..i])
    {
      MiddlewareNamesAppend(attrs[..i], [attrs[i]]);
      assert attrs[..i + 1] == attrs[..i] + [attrs[i]];
      if attrs[i].name == MiddlewareAttribute {
        middlewares := middlewares + [attrs[i].argument];
      }
      i := i + 1;
    }
    assert attrs[..i] == attrs;
  }

  /** The prefix of the first RouteGroup attribute, if there is one. */
  function GroupPrefix(attrs: seq<Attribute>): (prefix: Option<string>)
    ensures prefix.Some? <==> exists a :: a in attrs && a.name == RouteGroupAttribute
    ensures prefix.Some? ==> exists i :: 0 <= i < |attrs| && attrs[i] == Attribute(RouteGroupAttribute, prefix.value) &&
                                         forall j :: 0 <= j < i ==> attrs[j].name != RouteGroupAttribute
  {
    if attrs == [] then None
    else if attrs[0].name == RouteGroupAttribute then Some(attrs[0].argument)
    else GroupPrefix(attrs[1..])
  }

  // ---------------------------------------------------------------------
  // The routes a controller declares
  // ---------------------------------------------------------------------

  /** One `addRoute` call: verb, path before normalisation, and the stored route. */
  datatype RouteDecl = RouteDecl(verb: string, path: string, route: RouteTable.Route)

  /**
   * Attribute `a` of method `m` declares `d`: `a` is a verb attribute, the
   * path is the prefix followed by the attribute's path, and the middlewares
   * are the class's followed by the method's.
   */
  ghost predicate Declares(prefix: string, controller: string, classMiddlewares: seq<string>, m: MethodDecl, a: Attribute, d: RouteDecl) {
    HttpMethodFromAttribute(a.name) == Some(d.verb) &&
    d.path == prefix + a.argument &&
    d.route == RouteTable.Route(controller, m.name, classMiddlewares + MiddlewareNames(m.attributes))
  }

  /** The route one attribute of one method declares, if it is a verb attribute. */
  function DeclFor(prefix: string, controller: string, classMiddlewares: seq<string>, m: MethodDecl, a: Attribute): seq<RouteDecl>
  {
    match HttpMethodFromAttribute(a.name)
    case None => []
    case Some(verb) =>
      [RouteDecl(verb, prefix + a.argument,
                 RouteTable.Route(controller, m.name, classMiddlewares + MiddlewareNames(m.attributes)))]
  }

  /** The routes of the first attributes of method `m`, in attribute order. */
  function MethodRoutes(prefix: string, controller: string, classMiddlewares: seq<string>, m: MethodDecl, attrs: seq<Attribute>): seq<RouteDecl>
  {
    if attrs == [] then []
    else MethodRoutes(prefix, controller, classMiddlewares, m, attrs[..|attrs| - 1]) +
         DeclFor(prefix, controller, classMiddlewares, m, attrs[|attrs| - 1])
  }

  /** The routes of a list of methods, method by method. */
  function ControllerRoutes(prefix: string, controller: string, classMiddlewares: seq<string>, methods: seq<MethodDecl>): seq<RouteDecl>
  {
    if methods == [] then []
    else
      var m := methods[|methods| - 1];
      ControllerRoutes(prefix, controller, classMiddlewares, methods[..|methods| - 1]) +
      MethodRoutes(prefix, controller, classMiddlewares, m, m.attributes)
  }

  /**
   * Everything `registerRoutesFromController` adds, given the router's
   * `prefix` field on entry: the group prefix is appended to it, and the class
   * middlewares go before each method's own.
   */
  function DeclaredRoutes(prefix: string, controller: string, cls: ControllerClass): seq<RouteDecl>
  {
    ControllerRoutes(prefix + GroupPrefix(cls.attributes).GetOr(""), controller,
                     MiddlewareNames(cls.attributes), cls.methods)
  }

  /** Which declarations one method contributes: one per verb attribute, nothing else. */
  lemma {:induction false} MethodRoutesIff(prefix: string, controller: string, classMiddlewares: seq<string>,
                                           m: MethodDecl, attrs: seq<Attribute>, d: RouteDecl)
    ensures d in MethodRoutes(prefix, controller, classMiddlewares, m, attrs) <==>
            exists j :: 0 <= j < |attrs| && Declares(prefix, controller, classMiddlewares, m, attrs[j], d)
  {
    if attrs != [] {
      var last := |attrs| - 1;
      var init := attrs[..last];
      MethodRoutesIff(prefix, controller, classMiddlewares, m, init, d);
      assert d in DeclFor(prefix, controller, classMiddlewares, m, attrs[last]) <==>
             Declares(prefix, controller, classMiddlewares, m, attrs[last], d);
      if exists j :: 0 <= j < |attrs| && Declares(prefix, controller, classMiddlewares, m, attrs[j], d) {
        var j :| 0 <= j < |attrs| && Declares(prefix, controller, classMiddlewares, m, attrs[j], d);
        if j < last {
          assert init[j] == attrs[j];
        }
      }
      if d in MethodRoutes(prefix, controller, classMiddlewares, m, init) {
        var j :| 0 <= j < last && Declares(prefix, controller, classMiddlewares, m, init[j], d);
        assert init[j] == attrs[j];
      }
    }
  }

  /** Some attribute of method `m` declares `d`. */
  ghost predicate MethodDeclares(prefix: string, controller: string, classMiddlewares: seq<string>, m: MethodDecl, d: RouteDecl) {
    exists j :: 0 <= j < |m.attributes| && Declares(prefix, controller, classMiddlewares, m, m.attributes[j], d)
  }

  /**
   * A controller declares exactly the routes its methods' verb attributes
   * declare, as `Declares` describes them.
   */
  lemma {:induction false} ControllerRoutesIff(prefix: string, controller: string, classMiddlewares: seq<string>,
                                               methods: seq<MethodDecl>, d: RouteDecl)
    ensures d in ControllerRoutes(prefix, controller, classMiddlewares, methods) <==>
            exists i :: 0 <= i < |methods| && MethodDeclares(prefix, controller, classMiddlewares, methods[i], d)
  {
    if methods != [] {
      var last := |methods| - 1;
      var m := methods[last];
      ControllerRoutesIff(prefix, controller, classMiddlewares, methods[..last], d);
      MethodRoutesIff(prefix, controller, classMiddlewares, m, m.attributes, d);
      SomeMethodDeclaresSnoc(prefix, controller, classMiddlewares, methods, d);
    }
  }

  lemma SomeMethodDeclaresSnoc(prefix: string, controller: string, classMiddlewares: seq<string>,
                               methods: seq<MethodDecl>, d: RouteDecl)
    requires methods != []
    ensures var init := methods[..|methods| - 1];
      (exists i :: 0 <= i < |methods| && MethodDeclares(prefix, controller, classMiddlewares, methods[i], d)) <==>
      (exists i :: 0 <= i < |init| && MethodDeclares(prefix, controller, classMiddlewares, init[i], d)) ||
      MethodDeclares(prefix, controller, classMiddlewares, methods[|methods| - 1], d)
  {
    var last := |methods| - 1;
    var init := methods[..last];
    if exists i :: 0 <= i < |methods| && MethodDeclares(prefix, controller, classMiddlewares, methods[i], d) {
      var i :| 0 <= i < |methods| && MethodDeclares(prefix, controller, classMiddlewares, methods[i], d);
      if i < last {
        assert init[i] == methods[i];
      }
    }
    if exists i :: 0 <= i < last && MethodDeclares(prefix, controller, classMiddlewares, init[i], d) {
      var i :| 0 <= i < last && MethodDeclares(prefix, controller, classMiddlewares, init[i], d);
      assert init[i] == methods[i];
    }
  }

  // ---------------------------------------------------------------------
  // Applying the declarations
  // ---------------------------------------------------------------------

  /** The route table after the `addRoute` calls of `decls`, in order. */
  function AddAll(routes: RouteTable.Routes, decls: seq<RouteDecl>): (r: RouteTable.Routes)
    ensures routes.Keys <= r.Keys
    ensures decls != [] ==> decls[|decls| - 1].verb in r
  {
    if decls == [] then routes
    else
      var d := decls[|decls| - 1];
      RouteTable.AddRoute(AddAll(routes, decls[..|decls| - 1]), d.verb, d.path, d.route)
  }

  /** Applying two lists of declarations one after the other is applying their concatenation. */
  lemma {:induction false} AddAllAppend(routes: RouteTable.Routes, a: seq<RouteDecl>, b: seq<RouteDecl>)
    ensures AddAll(AddAll(routes, a), b) == AddAll(routes, a + b)
    decreases |b|
  {
    if b == [] {
      assert a + b == a;
    } else {
      var init := b[..|b| - 1];
      var d := b[|b| - 1];
      AddAllAppend(routes, a, init);
      assert (a + b)[..|a + b| - 1] == a + init && (a + b)[|a + b| - 1] == d;
      var mid := AddAll(routes, a + init);
      assert AddAll(routes, a + b) == RouteTable.AddRoute(mid, d.verb, d.path, d.route);
      assert AddAll(AddAll(routes, a), b) == RouteTable.AddRoute(mid, d.verb, d.path, d.route);
    }
  }

  /** One more attribute adds its declaration, if any, at the end. */
  lemma MethodRoutesStep(prefix: string, controller: string, classMiddlewares: seq<string>, m: MethodDecl, j: nat)
    requires j < |m.attributes|
    ensures MethodRoutes(prefix, controller, classMiddlewares, m, m.attributes[..j + 1]) ==
            MethodRoutes(prefix, controller, classMiddlewares, m, m.attributes[..j]) +
            DeclFor(prefix, controller, classMiddlewares, m, m.attributes[j])
  {
    assert m.attributes[..j + 1][..j] == m.attributes[..j];
  }

  /**
   * One turn of the attribute loop of `registerRoutesFromController`: the
   * routes after attribute `j` are those before it, with one more
   * `addRoute` when the attribute names a verb.
   */
  lemma MethodRoutesAddStep(routes: RouteTable.Routes, before: RouteTable.Routes, prefix: string, controller: string,
                            classMiddlewares: seq<string>, m: MethodDecl, j: nat)
    requires j < |m.attributes|
    requires before == AddAll(routes, MethodRoutes(prefix, controller, classMiddlewares, m, m.attributes[..j]))
    ensures var a := m.attributes[j];
      AddAll(routes, MethodRoutes(prefix, controller, classMiddlewares, m, m.attributes[..j + 1])) ==
      match HttpMethodFromAttribute(a.name)
      case None => before
      case Some(verb) =>
        RouteTable.AddRoute(before, verb, prefix + a.argument,
                            RouteTable.Route(controller, m.name, classMiddlewares + MiddlewareNames(m.attributes)))
  {
    MethodRoutesStep(prefix, controller, classMiddlewares, m, j);
    AddAllSnoc(routes, MethodRoutes(prefix, controller, classMiddlewares, m, m.attributes[..j]),
               DeclFor(prefix, controller, classMiddlewares, m, m.attributes[j]));
  }

  /** One turn of the method loop: the routes after method `i` are those before it plus that method's routes. */
  lemma ControllerRoutesAddStep(routes: RouteTable.Routes, before: RouteTable.Routes, prefix: string, controller: string,
                                classMiddlewares: seq<string>, methods: seq<MethodDecl>, i: nat)
    requires i < |methods|
    requires before == AddAll(routes, ControllerRoutes(prefix, controller, classMiddlewares, methods[..i]))
    ensures AddAll(routes, ControllerRoutes(prefix, controller, classMiddlewares, methods[..i + 1])) ==
            AddAll(before, MethodRoutes(prefix, controller, classMiddlewares, methods[i], methods[i].attributes))
  {
    assert methods[..i + 1][..i] == methods[..i];
    AddAllAppend(routes, ControllerRoutes(prefix, controller, classMiddlewares, methods[..i]),
                 MethodRoutes(prefix, controller, classMiddlewares, methods[i], methods[i].attributes));
  }

  /** Applying at most one more declaration. */
  lemma AddAllSnoc(routes: RouteTable.Routes, decls: seq<RouteDecl>, step: seq<RouteDecl>)
    requires |step| <= 1
    ensures AddAll(routes, decls + step) ==
            if step == [] then AddAll(routes, decls)
            else RouteTable.AddRoute(AddAll(routes, decls), step[0].verb, step[0].path, step[0].route)
  {
    if step == [] {
      assert decls + step == decls;
    } else {
      assert (decls + step)[..|decls|] == decls && (decls + step)[|decls|] == step[0];
    }
  }

  /** Registration keeps every table well formed. */
  lemma {:induction false} AddAllWellFormed(routes: RouteTable.Routes, decls: seq<RouteDecl>)
    requires RouteTable.WellFormed(routes)
    ensures RouteTable.WellFormed(AddAll(routes, decls))
  {
    if decls != [] {
      var d := decls[|decls| - 1];
      AddAllWellFormed(routes, decls[..|decls| - 1]);
      RouteTable.AddRouteWellFormed(AddAll(routes, decls[..|decls| - 1]), d.verb, d.path, d.route);
    }
  }

  /**
   * When two declarations share a verb and a normalised path, the later one
   * is what the table holds, at the position the first one took.
   */
  lemma LaterRegistrationWins(routes: RouteTable.Routes, d1: RouteDecl, d2: RouteDecl)
    requires d1.verb == d2.verb && RouteTable.NormalizePath(d1.path) == RouteTable.NormalizePath(d2.path)
    ensures AddAll(routes, [d1, d2]) == AddAll(routes, [d2])
  {
    assert [d1, d2][..1] == [d1] && [d1][..0] == [] && [d2][..0] == [];
    RouteTable.AddRouteTwice(routes, d1.verb, d1.path, d1.route, d2.path, d2.route);
  }

  /** The route of the last declaration in `decls` for this verb and key, if any. */
  function LastDecl(decls: seq<RouteDecl>, verb: string, key: string): Option<RouteTable.Route> {
    if decls == [] then None
    else
      var d := decls[|decls| - 1];
      if d.verb == verb && RouteTable.NormalizePath(d.path) == key then Some(d.route)
      else LastDecl(decls[..|decls| - 1], verb, key)
  }

  /**
   * After the `addRoute` calls of `decls`, a verb and key hold the route of
   * the last declaration for them, or what they held before if none
   * declares them.
   */
  lemma {:induction false} AddAllLookup(routes: RouteTable.Routes, decls: seq<RouteDecl>, verb: string, key: string)
    ensures RouteTable.Lookup(RouteTable.TableFor(AddAll(routes, decls), verb), key) ==
            if LastDecl(decls, verb, key).Some? then LastDecl(decls, verb, key)
            else RouteTable.Lookup(RouteTable.TableFor(routes, verb), key)
  {
    if decls != [] {
      var d := decls[|decls| - 1];
      var before := AddAll(routes, decls[..|decls| - 1]);
      AddAllLookup(routes, decls[..|decls| - 1], verb, key);
      if d.verb == verb {
        RouteTable.PutLookup(RouteTable.TableFor(before, verb), RouteTable.NormalizePath(d.path), d.route, key);
      }
    }
  }
}
