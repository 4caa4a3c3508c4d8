/** The source index of scripts/check-route-sync.py: its routes and handlers are dictionaries
    that `add_route` and the walk over the nests update in place. */
module NestIndex {
  import opened Wrappers
  import opened NestGraph

  type RouteTable = map<string, set<Method>>
  type HandlerTable = map<(string, Method), set<Handler>>

  datatype Tables = Tables(routes: RouteTable, handlers: HandlerTable)

  const EMPTY_TABLES := Tables(map[], map[])

  function MethodsAt(routes: RouteTable, path: string): set<Method> {
    if path in routes then routes[path] else {}
  }

  function HandlersAt(handlers: HandlerTable, key: (string, Method)): set<Handler> {
    if key in handlers then handlers[key] else {}
  }

  /** The handlers with a name. */
  function Named(handlers: set<Handler>): set<Handler> {
    handlers - {""}
  }

  function PathKeys(path: string, methods: set<Method>): (keys: set<(string, Method)>)
    ensures forall key :: key in keys <==> key.0 == path && key.1 in methods
  {
    set m | m in methods :: (path, m)
  }

  /** The handler table after the registrations of `methods`, a part of `byMethod`. */
  function WithHandlers(h: HandlerTable, path: string, byMethod: ByMethod, methods: set<Method>): HandlerTable
    requires methods <= byMethod.Keys
  {
    map key | key in h.Keys + PathKeys(path, methods) ::
      if key.0 == path && key.1 in methods then HandlersAt(h, key) + Named(byMethod[key.1]) else h[key]
  }

  function AddMount(t: Tables, m: Mount): Tables {
    Tables(
      t.routes[m.path := MethodsAt(t.routes, m.path) + m.byMethod.Keys],
      WithHandlers(t.handlers, m.path, m.byMethod, m.byMethod.Keys))
  }

  function AddMounts(t: Tables, ms: seq<Mount>): Tables {
    if ms == [] then t else AddMount(AddMounts(t, ms[..|ms| - 1]), ms[|ms| - 1])
  }

  lemma {:induction false} AddMountsInTurn(t: Tables, a: seq<Mount>, b: seq<Mount>)
    ensures AddMounts(t, a + b) == AddMounts(AddMounts(t, a), b)
    decreases |b|
  {
    if b == [] {
      assert a + b == a;
    } else {
      var last := |b| - 1;
      assert (a + b)[..|a + b| - 1] == a + b[..last];
      AddMountsInTurn(t, a, b[..last]);
    }
  }

  lemma AddMountsNext(t: Tables, ms: seq<Mount>, i: nat)
    requires i < |ms|
    ensures AddMounts(t, ms[..i + 1]) == AddMount(AddMounts(t, ms[..i]), ms[i])
  {
    assert ms[..i + 1][..i] == ms[..i];
  }

  /** One more method of a registration. */
  lemma WithOneMore(h: HandlerTable, path: string, byMethod: ByMethod, done: set<Method>, m: Method)
    requires done <= byMethod.Keys && m in byMethod && m !in done
    ensures HandlersAt(WithHandlers(h, path, byMethod, done), (path, m)) == HandlersAt(h, (path, m))
    ensures WithHandlers(h, path, byMethod, done + {m})
         == WithHandlers(h, path, byMethod, done)[(path, m) := HandlersAt(h, (path, m)) + Named(byMethod[m])]
  {
    var before, after := WithHandlers(h, path, byMethod, done), WithHandlers(h, path, byMethod, done + {m});
    hide HandlersAt, Named;
    var updated := before[(path, m) := HandlersAt(h, (path, m)) + Named(byMethod[m])];
    assert after.Keys == updated.Keys;
    assert forall key | key in after :: after[key] == updated[key];
  }

  class SourceIndex {
    var routes: RouteTable
    var handlers: HandlerTable

    ghost function Contents(): Tables
      reads this
    {
      Tables(routes, handlers)
    }

    constructor ()
      ensures Contents() == EMPTY_TABLES
    {
      routes, handlers := map[], map[];
    }

    /** `add_route`. */
    method AddRoute(path: string, byMethod: ByMethod)
      modifies this
      ensures Contents() == AddMount(old(Contents()), Mount(path, byMethod))
    {
      routes := routes[path := (if path in routes then routes[path] else {}) + byMethod.Keys];
      var todo := byMethod.Keys;
      while todo != {}
        invariant todo <= byMethod.Keys
        invariant routes == old(routes)[path := MethodsAt(old(routes), path) + byMethod.Keys]
        invariant handlers == WithHandlers(old(handlers), path, byMethod, byMethod.Keys - todo)
        decreases todo
      {
        var m :| m in todo;
        var key := (path, m);
        var known := if key in handlers then handlers[key] else {};
        var named := set h | h in byMethod[m] && h != "";
        WithOneMore(old(handlers), path, byMethod, byMethod.Keys - todo, m);
        assert named == Named(byMethod[m]) && known == HandlersAt(handlers, key);
        assert byMethod.Keys - todo + {m} == byMethod.Keys - (todo - {m});
        hide WithHandlers, HandlersAt, Named;
        handlers := handlers[key := known + named];
        todo := todo - {m};
      }
      assert byMethod.Keys - todo == byMethod.Keys;
    }

    /** `walk`, recursively: the index grows by what the walk registers, in its order. */
    method WalkFrom(rs: Routers, name: Name, prefix: string, seen: set<Name>)
      modifies this
      ensures Contents() == AddMounts(old(Contents()), Walk(rs, name, prefix, seen))
      decreases |rs.fns.Keys - seen|
    {
      hide Walk, WalkNests, WalkNest, AddMounts, AddMount, Target, JoinPath.Join;
      WalkUnfolds(rs, name, prefix, seen);
      NoMounts(Contents());
      if name !in rs.fns || name in seen {
        return;
      }
      var fn := rs.fns[name];
      ghost var direct := DirectMounts(fn.routes, prefix);
      assert direct[..0] == [];
      for i := 0 to |fn.routes|
        invariant Contents() == AddMounts(old(Contents()), direct[..i])
      {
        AddRoute(JoinPath.Join(prefix, fn.routes[i].path), fn.routes[i].byMethod);
        AddMountsNext(old(Contents()), direct, i);
      }
      assert direct[..|fn.routes|] == direct == direct + [];
      for j := 0 to |fn.nests|
        invariant Contents() == AddMounts(old(Contents()), direct + WalkNests(rs, name, prefix, seen, j))
      {
        var target := Target(rs, name, fn.nests[j]);
        WalkNextNest(rs, name, prefix, seen, j, direct);
        AddMountsInTurn(old(Contents()), direct + WalkNests(rs, name, prefix, seen, j), WalkNest(rs, name, prefix, seen, j));
        if target.Some? {
          WalkFrom(rs, target.value, JoinPath.Join(prefix, fn.nests[j].prefix), seen + {name});
        } else {
          NoMounts(Contents());
        }
      }
    }

    /** The routers that some router nests. */
    method NestedNames(rs: Routers) returns (reachable: set<Name>)
      requires rs.Valid()
      ensures forall n :: n in reachable <==> IsNested(rs, n)
    {
      reachable := {};
      for i := 0 to |rs.names|
        invariant forall n :: n in reachable <==> LedToByFirst(rs, i, n)
      {
        var name := rs.names[i];
        var nests := rs.fns[name].nests;
        for j := 0 to |nests|
          invariant forall n :: n in reachable <==> LedToByFirst(rs, i, n) || exists l :: 0 <= l < j && NestLeads(rs, name, l, n)
        {
          var target := Target(rs, name, nests[j]);
          if target.Some? {
            reachable := reachable + {target.value};
          }
          assert forall n :: NestLeads(rs, name, j, n) <==> target == Some(n);
        }
        LedToByNext(rs, i);
      }
      forall n ensures n in reachable <==> IsNested(rs, n) {
        NestedExactly(rs, n);
      }
    }

    /** `_resolve_nesting`: find the routers that nobody nests and walk from each. */
    method ResolveNesting(rs: Routers)
      requires rs.Valid()
      modifies this
      ensures Contents() == AddMounts(old(Contents()), RootMounts(rs, |rs.names|))
    {
      ghost var start := Contents();
      var reachable := NestedNames(rs);
      NoRootMounts(rs, start);
      hide Walk, AddMounts, IsNested, RootMounts;
      for i := 0 to |rs.names|
        invariant Contents() == AddMounts(start, RootMounts(rs, i))
      {
        RootMountsNext(rs, i, start);
        if rs.names[i] !in reachable {
          WalkFrom(rs, rs.names[i], "", {});
        }
      }
    }
  }

  /** Nest `j` of `caller` leads to `target`. */
  predicate NestLeads(rs: Routers, caller: Name, j: int, target: Name) {
    && caller in rs.fns && 0 <= j < |rs.fns[caller].nests|
    && Target(rs, caller, rs.fns[caller].nests[j]) == Some(target)
  }

  /** A nest of one of the first `n` routers leads to `target`. */
  ghost predicate LedToByFirst(rs: Routers, n: nat, target: Name)
    requires n <= |rs.names|
  {
    exists k, j :: 0 <= k < n && NestLeads(rs, rs.names[k], j, target)
  }

  lemma LedToByNext(rs: Routers, n: nat)
    requires n < |rs.names|
    ensures forall target ::
              (LedToByFirst(rs, n + 1, target)
               <==> LedToByFirst(rs, n, target) || exists j :: NestLeads(rs, rs.names[n], j, target))
  {
    hide NestLeads;
  }

  lemma NestedExactly(rs: Routers, name: Name)
    requires rs.Valid()
    ensures IsNested(rs, name) <==> LedToByFirst(rs, |rs.names|, name)
  {
    if IsNested(rs, name) {
      var caller, prefix :| NestsUnder(rs, caller, prefix, name);
      var j :| 0 <= j < |rs.fns[caller].nests| && Target(rs, caller, rs.fns[caller].nests[j]) == Some(name);
      assert NestLeads(rs, caller, j, name);
      assert caller in rs.names;
      var k :| 0 <= k < |rs.names| && rs.names[k] == caller;
    }
    if k, j :| 0 <= k < |rs.names| && NestLeads(rs, rs.names[k], j, name) {
      assert NestsUnder(rs, rs.names[k], rs.fns[rs.names[k]].nests[j].prefix, name);
    }
  }

  lemma NoRootMounts(rs: Routers, t: Tables)
    ensures AddMounts(t, RootMounts(rs, 0)) == t
  {
  }

  /** What one more router adds, when it is a root. */
  lemma RootMountsNext(rs: Routers, n: nat, t: Tables)
    requires rs.Valid() && n < |rs.names|
    ensures AddMounts(t, RootMounts(rs, n + 1))
         == if IsNested(rs, rs.names[n]) then AddMounts(t, RootMounts(rs, n))
            else AddMounts(AddMounts(t, RootMounts(rs, n)), Walk(rs, rs.names[n], "", {}))
  {
    hide IsNested, Walk, AddMounts;
    assert rs.names[n] in rs.names;
    if IsNested(rs, rs.names[n]) {
      assert RootMounts(rs, n) + [] == RootMounts(rs, n);
    } else {
      AddMountsInTurn(t, RootMounts(rs, n), Walk(rs, rs.names[n], "", {}));
    }
  }

  lemma NoMounts(t: Tables)
    ensures AddMounts(t, []) == t
  {
  }

  lemma WalkUnfolds(rs: Routers, name: Name, prefix: string, seen: set<Name>)
    ensures Walk(rs, name, prefix, seen) ==
              if name !in rs.fns || name in seen then []
              else DirectMounts(rs.fns[name].routes, prefix) + WalkNests(rs, name, prefix, seen, |rs.fns[name].nests|)
    ensures name in rs.fns && name !in seen ==> WalkNests(rs, name, prefix, seen, 0) == []
  {
    hide WalkNest, DirectMounts;
  }

  /** What one more nest adds. */
  lemma WalkNextNest(rs: Routers, name: Name, prefix: string, seen: set<Name>, j: nat, direct: seq<Mount>)
    requires name in rs.fns && name !in seen && j < |rs.fns[name].nests|
    ensures direct + WalkNests(rs, name, prefix, seen, j + 1)
         == direct + WalkNests(rs, name, prefix, seen, j) + WalkNest(rs, name, prefix, seen, j)
    ensures match Target(rs, name, rs.fns[name].nests[j])
            case None => WalkNest(rs, name, prefix, seen, j) == []
            case Some(target) =>
              && WalkNest(rs, name, prefix, seen, j)
                 == Walk(rs, target, JoinPath.Join(prefix, rs.fns[name].nests[j].prefix), seen + {name})
              && |rs.fns.Keys - (seen + {name})| < |rs.fns.Keys - seen|
  {
    assert rs.fns.Keys - (seen + {name}) == (rs.fns.Keys - seen) - {name};
    hide Target, Walk, WalkNest;
    var before, here := WalkNests(rs, name, prefix, seen, j), WalkNest(rs, name, prefix, seen, j);
    assert direct + (before + here) == direct + before + here;
  }

  // ----- what ends up in the tables

  predicate MountsMethod(m: Mount, path: string, verb: Method) {
    m.path == path && verb in m.byMethod
  }

  predicate MountsHandler(m: Mount, path: string, verb: Method, handler: Handler) {
    m.path == path && verb in m.byMethod && handler in m.byMethod[verb] && handler != ""
  }

  lemma MountEffect(t: Tables, m: Mount, path: string, verb: Method, handler: Handler)
    ensures path in AddMount(t, m).routes <==> path in t.routes || m.path == path
    ensures verb in MethodsAt(AddMount(t, m).routes, path) <==> verb in MethodsAt(t.routes, path) || MountsMethod(m, path, verb)
    ensures (path, verb) in AddMount(t, m).handlers <==> (path, verb) in t.handlers || MountsMethod(m, path, verb)
    ensures handler in HandlersAt(AddMount(t, m).handlers, (path, verb))
       <==> handler in HandlersAt(t.handlers, (path, verb)) || MountsHandler(m, path, verb, handler)
  {
  }

  /** The tables hold what they held and what each mount registers, and nothing else. */
  lemma {:induction false} TablesHoldTheMounts(t: Tables, ms: seq<Mount>, path: string, verb: Method, handler: Handler)
    ensures path in AddMounts(t, ms).routes <==> path in t.routes || exists m :: m in ms && m.path == path
    ensures verb in MethodsAt(AddMounts(t, ms).routes, path)
       <==> verb in MethodsAt(t.routes, path) || exists m :: m in ms && MountsMethod(m, path, verb)
    ensures (path, verb) in AddMounts(t, ms).handlers
       <==> (path, verb) in t.handlers || exists m :: m in ms && MountsMethod(m, path, verb)
    ensures handler in HandlersAt(AddMounts(t, ms).handlers, (path, verb))
       <==> handler in HandlersAt(t.handlers, (path, verb)) || exists m :: m in ms && MountsHandler(m, path, verb, handler)
    decreases |ms|
  {
    hide AddMount, MethodsAt, HandlersAt, MountsMethod, MountsHandler;
    if ms != [] {
      var before, last := ms[..|ms| - 1], ms[|ms| - 1];
      TablesHoldTheMounts(t, before, path, verb, handler);
      MountEffect(AddMounts(t, before), last, path, verb, handler);
      assert forall m :: m in ms <==> m in before || m == last;
    }
  }

  /** After resolution from an empty index, the routes are exactly what repeat-free chains
      from un-nested routers mount, and the handlers have exactly the matching keys and
      the names that those mounts give. */
  lemma ResolvedRoutesExactly(rs: Routers, path: string, verb: Method, handler: Handler)
    requires rs.Valid()
    ensures var t := AddMounts(EMPTY_TABLES, RootMounts(rs, |rs.names|));
      && (verb in MethodsAt(t.routes, path) <==>
            exists c, m :: MountedBy(rs, c, m) && MountsMethod(m, path, verb))
      && ((path, verb) in t.handlers <==> verb in MethodsAt(t.routes, path))
      && (handler in HandlersAt(t.handlers, (path, verb)) <==>
            exists c, m :: MountedBy(rs, c, m) && MountsHandler(m, path, verb, handler))
  {
    var ms := RootMounts(rs, |rs.names|);
    TablesHoldTheMounts(EMPTY_TABLES, ms, path, verb, handler);
    hide MountedBy, AddMounts, MountsMethod, MountsHandler;
    forall m ensures m in ms <==> exists c :: MountedBy(rs, c, m) {
      ResolutionIsExact(rs, m);
    }
  }
}
