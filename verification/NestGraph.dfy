/** Nest resolution of scripts/check-route-sync.py as functions: names, the walk over the
    nest graph, and the chains of nests that it must enumerate. */
module NestGraph {
  import opened Wrappers
  import JoinPath

  type Name = string
  type Method = string
  type Handler = string

  /** What one `.route(...)` registers: its methods, each with its handlers. */
  type ByMethod = map<Method, set<Handler>>

  datatype Route = Route(path: string, byMethod: ByMethod)

  datatype Nest = Nest(prefix: string, callee: Name)

  /** One router: the routes it registers directly and the routers it nests. */
  datatype RouterFn = RouterFn(routes: seq<Route>, nests: seq<Nest>)

  /** The routers of a repository, in the order they were recorded. */
  datatype Routers = Routers(names: seq<Name>, fns: map<Name, RouterFn>) {
    ghost predicate Valid() {
      && (forall i, j | 0 <= i < j < |names| :: names[i] != names[j])
      && (forall n :: n in names <==> n in fns)
    }
  }

  // ----- resolving a callee

  predicate EndsWith(s: string, suffix: string) {
    |suffix| <= |s| && s[|s| - |suffix|..] == suffix
  }

  /** `rsplit("::", 1)[0]`, or the empty string when there is no separator. */
  function ParentOf(caller: Name): Name {
    if |caller| < 2 then ""
    else if caller[|caller| - 2..] == "::" then caller[..|caller| - 2]
    else ParentOf(caller[..|caller| - 1])
  }

  function WithSuffix(names: seq<Name>, suffix: string): seq<Name> {
    if names == [] then []
    else (if EndsWith(names[0], suffix) then [names[0]] else []) + WithSuffix(names[1..], suffix)
  }

  /** The name itself, else the name beside the caller, else the only name that ends in it. */
  function Resolve(rs: Routers, name: Name, caller: Name): Option<Name> {
    if name in rs.fns then Some(name)
    else
      var beside := ParentOf(caller) + "::" + name;
      if beside in rs.fns then Some(beside)
      else
        var candidates := WithSuffix(rs.names, "::" + name);
        if |candidates| == 1 then Some(candidates[0]) else None
  }

  /** The router a nest leads to. Python takes an empty name for a missing one. */
  function Target(rs: Routers, caller: Name, nest: Nest): Option<Name> {
    var target := Resolve(rs, nest.callee, caller);
    if target == Some("") then None else target
  }

  // ----- what a callee resolves to

  predicate SeparatorAt(s: string, i: int) {
    0 <= i < |s| - 1 && s[i] == ':' && s[i + 1] == ':'
  }

  ghost predicate IsLastSeparator(s: string, i: int) {
    SeparatorAt(s, i) && forall k | SeparatorAt(s, k) :: k <= i
  }

  /** What stands before the last "::" of a caller's name; nothing when there is none. */
  ghost predicate IsModuleOf(m: Name, caller: Name) {
    if exists i :: SeparatorAt(caller, i)
    then exists i :: IsLastSeparator(caller, i) && m == caller[..i]
    else m == ""
  }

  /** The caller has the router `module::callee` beside it. */
  ghost predicate IsBeside(rs: Routers, caller: Name, callee: Name, target: Name) {
    target in rs.fns && exists m :: IsModuleOf(m, caller) && target == m + "::" + callee
  }

  /** The router's last segments are `callee`. */
  ghost predicate IsQualified(rs: Routers, callee: Name, target: Name) {
    target in rs.fns && exists m: Name :: target == m + ("::" + callee)
  }

  /** A recorded name stands for itself; else it means the router beside the caller; else
      the one router whose name ends in it, if there is exactly one. */
  ghost predicate Means(rs: Routers, caller: Name, callee: Name, target: Name) {
    if callee in rs.fns then target == callee
    else if exists t :: IsBeside(rs, caller, callee, t) then IsBeside(rs, caller, callee, target)
    else IsQualified(rs, callee, target) && forall n | IsQualified(rs, callee, n) :: n == target
  }

  /** Resolution finds the router that a callee means and no other. */
  lemma TargetExactly(rs: Routers, caller: Name, nest: Nest, target: Name)
    requires rs.Valid()
    ensures Target(rs, caller, nest) == Some(target) <==> target != "" && Means(rs, caller, nest.callee, target)
  {
    var callee := nest.callee;
    var beside := ParentOf(caller) + "::" + callee;
    ParentIsModule(caller);
    hide ParentOf, IsModuleOf, EndsWith, WithSuffix;
    forall t ensures IsBeside(rs, caller, callee, t) <==> t == beside && beside in rs.fns {
      assert IsModuleOf(ParentOf(caller), caller);
    }
    assert IsBeside(rs, caller, callee, beside) <==> beside in rs.fns;
    hide IsBeside;
    var candidates := WithSuffix(rs.names, "::" + callee);
    OnlyCandidate(rs, callee, target);
    assert candidates == [target] <==> |candidates| == 1 && candidates[0] == target;
  }

  lemma OnlyCandidate(rs: Routers, callee: Name, target: Name)
    requires rs.Valid()
    ensures WithSuffix(rs.names, "::" + callee) == [target]
       <==> IsQualified(rs, callee, target) && forall n | IsQualified(rs, callee, n) :: n == target
  {
    forall n ensures IsQualified(rs, callee, n) <==> n in rs.fns && EndsWith(n, "::" + callee) {
      EndsWithExactly(n, "::" + callee);
    }
    hide IsQualified;
    var suffix := "::" + callee;
    var candidates := WithSuffix(rs.names, suffix);
    WithSuffixIsAmong(rs.names, suffix);
    WithSuffixIsRepeatFree(rs.names, suffix);
    hide EndsWith, WithSuffix;
    if candidates == [target] {
      assert target in candidates;
    } else if target in candidates {
      var k :| 0 <= k < |candidates| && candidates[k] == target;
      if |candidates| > 1 {
        var other := candidates[if k == 0 then 1 else 0];
        assert other in candidates && other != target;
      }
    }
  }

  lemma EndsWithExactly(s: string, suffix: string)
    ensures EndsWith(s, suffix) <==> exists m: string :: s == m + suffix
  {
    if EndsWith(s, suffix) {
      assert s == s[..|s| - |suffix|] + suffix;
    }
  }

  lemma {:induction false} WithSuffixIsRepeatFree(names: seq<Name>, suffix: string)
    requires forall i, j | 0 <= i < j < |names| :: names[i] != names[j]
    ensures RepeatFree(WithSuffix(names, suffix))
  {
    if names != [] {
      WithSuffixIsRepeatFree(names[1..], suffix);
      WithSuffixIsAmong(names[1..], suffix);
      hide EndsWith;
      var rest := WithSuffix(names[1..], suffix);
      assert forall i | 0 <= i < |rest| :: rest[i] in rest && rest[i] in names[1..];
    }
  }

  lemma ParentIsModule(caller: Name)
    ensures forall m :: IsModuleOf(m, caller) <==> m == ParentOf(caller)
  {
    var i := ParentEndsAtLastSeparator(caller);
    hide ParentOf, SeparatorAt;
  }

  lemma {:induction false} ParentEndsAtLastSeparator(caller: Name) returns (i: int)
    ensures if exists k :: SeparatorAt(caller, k)
            then IsLastSeparator(caller, i) && ParentOf(caller) == caller[..i]
            else ParentOf(caller) == ""
  {
    i := |caller| - 2;
    if |caller| >= 2 && caller[|caller| - 2..] != "::" {
      var shorter := caller[..|caller| - 1];
      assert forall k :: SeparatorAt(caller, k) <==> SeparatorAt(shorter, k);
      i := ParentEndsAtLastSeparator(shorter);
    } else if |caller| >= 2 {
      assert SeparatorAt(caller, i);
    }
  }

  lemma {:induction false} WithSuffixIsAmong(names: seq<Name>, suffix: string)
    ensures forall n :: n in WithSuffix(names, suffix) <==> n in names && EndsWith(n, suffix)
  {
    if names != [] {
      WithSuffixIsAmong(names[1..], suffix);
    }
  }

  /** A nest leads to a recorded router or nowhere. */
  lemma TargetIsRecorded(rs: Routers, caller: Name, nest: Nest)
    requires rs.Valid()
    ensures Target(rs, caller, nest).Some? ==> Target(rs, caller, nest).value in rs.fns
  {
    WithSuffixIsAmong(rs.names, "::" + nest.callee);
    var candidates := WithSuffix(rs.names, "::" + nest.callee);
    assert |candidates| == 1 ==> candidates[0] in candidates;
  }

  // ----- the walk

  /** A registration with its full path. */
  datatype Mount = Mount(path: string, byMethod: ByMethod)

  function DirectMounts(routes: seq<Route>, prefix: string): seq<Mount> {
    seq(|routes|, i requires 0 <= i < |routes| => Mount(JoinPath.Join(prefix, routes[i].path), routes[i].byMethod))
  }

  /** What `walk` registers, in order: nothing for an unknown or repeated router, else the
      router's own routes and then what its nests register. */
  function Walk(rs: Routers, name: Name, prefix: string, seen: set<Name>): seq<Mount>
    decreases |rs.fns.Keys - seen|, 1, 0
  {
    if name !in rs.fns || name in seen then []
    else DirectMounts(rs.fns[name].routes, prefix) + WalkNests(rs, name, prefix, seen, |rs.fns[name].nests|)
  }

  /** What the first `n` nests of `name` register. */
  function WalkNests(rs: Routers, name: Name, prefix: string, seen: set<Name>, n: nat): seq<Mount>
    requires name in rs.fns && name !in seen && n <= |rs.fns[name].nests|
    decreases |rs.fns.Keys - seen|, 0, n
  {
    if n == 0 then []
    else WalkNests(rs, name, prefix, seen, n - 1) + WalkNest(rs, name, prefix, seen, n - 1)
  }

  /** What nest `j` of `name` registers. */
  function WalkNest(rs: Routers, name: Name, prefix: string, seen: set<Name>, j: nat): seq<Mount>
    requires name in rs.fns && name !in seen && j < |rs.fns[name].nests|
    decreases |rs.fns.Keys - seen|, 0, j
  {
    var nest := rs.fns[name].nests[j];
    match Target(rs, name, nest)
    case None => []
    case Some(target) =>
      assert rs.fns.Keys - (seen + {name}) == (rs.fns.Keys - seen) - {name};
      Walk(rs, target, JoinPath.Join(prefix, nest.prefix), seen + {name})
  }

  // ----- chains of nests

  /** Routers joined by nests: `names[i]` nests `names[i + 1]` under `prefixes[i]`. */
  datatype Chain = Chain(names: seq<Name>, prefixes: seq<string>)

  ghost predicate NestsUnder(rs: Routers, caller: Name, prefix: string, target: Name) {
    && caller in rs.fns
    && exists j :: 0 <= j < |rs.fns[caller].nests|
         && rs.fns[caller].nests[j].prefix == prefix
         && Target(rs, caller, rs.fns[caller].nests[j]) == Some(target)
  }

  ghost predicate IsChain(rs: Routers, c: Chain) {
    && |c.names| == |c.prefixes| + 1
    && (forall i | 0 <= i < |c.names| :: c.names[i] in rs.fns)
    && (forall i | 0 <= i < |c.prefixes| :: NestsUnder(rs, c.names[i], c.prefixes[i], c.names[i + 1]))
  }

  predicate RepeatFree(names: seq<Name>) {
    forall i, j | 0 <= i < j < |names| :: names[i] != names[j]
  }

  /** The prefixes of a chain, joined from the left. */
  function FoldPrefixes(prefix: string, prefixes: seq<string>): string
    decreases |prefixes|
  {
    if prefixes == [] then prefix else FoldPrefixes(JoinPath.Join(prefix, prefixes[0]), prefixes[1..])
  }

  ghost predicate Registers(rs: Routers, name: Name, path: string, byMethod: ByMethod) {
    name in rs.fns && Route(path, byMethod) in rs.fns[name].routes
  }

  /** Chain `c` from `name` mounts `m`: its last router registers a route that the joined
      prefixes carry to the mount's path, and the walk does not turn back on the way. */
  ghost predicate Mounts(rs: Routers, name: Name, prefix: string, seen: set<Name>, c: Chain, m: Mount) {
    && IsChain(rs, c) && RepeatFree(c.names)
    && c.names[0] == name
    && (forall i | 0 <= i < |c.names| :: c.names[i] !in seen)
    && exists path ::
         && Registers(rs, c.names[|c.names| - 1], path, m.byMethod)
         && m.path == JoinPath.Join(FoldPrefixes(prefix, c.prefixes), path)
  }

  // ----- the walk registers what the chains mount

  /** Nest `j` of `name` registers `m`. */
  predicate NestRegisters(rs: Routers, name: Name, prefix: string, seen: set<Name>, j: nat, m: Mount)
    requires name in rs.fns && name !in seen && j < |rs.fns[name].nests|
  {
    m in WalkNest(rs, name, prefix, seen, j)
  }

  lemma {:induction false} InSomeNest(rs: Routers, name: Name, prefix: string, seen: set<Name>, n: nat, m: Mount)
    requires name in rs.fns && name !in seen && n <= |rs.fns[name].nests|
    ensures m in WalkNests(rs, name, prefix, seen, n)
       <==> exists j :: 0 <= j < n && NestRegisters(rs, name, prefix, seen, j, m)
  {
    if n > 0 {
      InSomeNest(rs, name, prefix, seen, n - 1, m);
      assert NestRegisters(rs, name, prefix, seen, n - 1, m) <==> m in WalkNest(rs, name, prefix, seen, n - 1);
    }
  }

  /** Sound: whatever the walk registers is mounted by a repeat-free chain. */
  lemma {:induction false} WalkIsSound(rs: Routers, name: Name, prefix: string, seen: set<Name>, m: Mount) returns (c: Chain)
    requires m in Walk(rs, name, prefix, seen)
    ensures Mounts(rs, name, prefix, seen, c, m)
    decreases |rs.fns.Keys - seen|
  {
    var fn := rs.fns[name];
    InSomeNest(rs, name, prefix, seen, |fn.nests|, m);
    if j :| 0 <= j < |fn.nests| && NestRegisters(rs, name, prefix, seen, j, m) {
      var nest := fn.nests[j];
      var target := Target(rs, name, nest).value;
      assert rs.fns.Keys - (seen + {name}) == (rs.fns.Keys - seen) - {name};
      var rest := WalkIsSound(rs, target, JoinPath.Join(prefix, nest.prefix), seen + {name}, m);
      c := Chain([name] + rest.names, [nest.prefix] + rest.prefixes);
      assert NestsUnder(rs, name, nest.prefix, target);
      hide Walk, WalkNest, WalkNests;
      ChainGrows(rs, name, prefix, seen, nest.prefix, rest, m);
    } else {
      assert m in DirectMounts(fn.routes, prefix);
      c := OwnChain(rs, name, prefix, seen, m);
    }
  }

  lemma OwnChain(rs: Routers, name: Name, prefix: string, seen: set<Name>, m: Mount) returns (c: Chain)
    requires name in rs.fns && name !in seen && m in DirectMounts(rs.fns[name].routes, prefix)
    ensures Mounts(rs, name, prefix, seen, c, m)
  {
    var routes := rs.fns[name].routes;
    c := Chain([name], []);
    var i :| 0 <= i < |routes| && DirectMounts(routes, prefix)[i] == m;
    assert routes[i] == Route(routes[i].path, m.byMethod);
    assert Registers(rs, name, routes[i].path, m.byMethod);
    assert FoldPrefixes(prefix, c.prefixes) == prefix;
  }

  lemma ChainGrows(rs: Routers, name: Name, prefix: string, seen: set<Name>, nestPrefix: string, rest: Chain, m: Mount)
    requires name in rs.fns && name !in seen
    requires |rest.names| > 0 && NestsUnder(rs, name, nestPrefix, rest.names[0])
    requires Mounts(rs, rest.names[0], JoinPath.Join(prefix, nestPrefix), seen + {name}, rest, m)
    ensures Mounts(rs, name, prefix, seen, Chain([name] + rest.names, [nestPrefix] + rest.prefixes), m)
  {
    hide NestsUnder, Registers, JoinPath.Join;
    var c := Chain([name] + rest.names, [nestPrefix] + rest.prefixes);
    assert c.prefixes[1..] == rest.prefixes;
    forall i | 0 <= i < |c.prefixes| ensures NestsUnder(rs, c.names[i], c.prefixes[i], c.names[i + 1]) {
      if i > 0 {
        assert NestsUnder(rs, rest.names[i - 1], rest.prefixes[i - 1], rest.names[i]);
      }
    }
    assert IsChain(rs, c);
    assert RepeatFree(c.names);
    assert forall i | 0 <= i < |c.names| :: c.names[i] !in seen;
    assert FoldPrefixes(prefix, c.prefixes) == FoldPrefixes(JoinPath.Join(prefix, nestPrefix), rest.prefixes);
  }

  /** Complete: whatever a repeat-free chain mounts, the walk registers. */
  lemma {:induction false} WalkIsComplete(rs: Routers, name: Name, prefix: string, seen: set<Name>, c: Chain, m: Mount)
    requires Mounts(rs, name, prefix, seen, c, m)
    ensures m in Walk(rs, name, prefix, seen)
    decreases |c.prefixes|
  {
    var fn := rs.fns[name];
    InSomeNest(rs, name, prefix, seen, |fn.nests|, m);
    if c.prefixes == [] {
      var path :| Registers(rs, name, path, m.byMethod) && m.path == JoinPath.Join(prefix, path);
      var i :| 0 <= i < |fn.routes| && fn.routes[i] == Route(path, m.byMethod);
      assert DirectMounts(fn.routes, prefix)[i] == m;
    } else {
      assert NestsUnder(rs, name, c.prefixes[0], c.names[1]);
      var j :| 0 <= j < |fn.nests| && fn.nests[j].prefix == c.prefixes[0] && Target(rs, name, fn.nests[j]) == Some(c.names[1]);
      ChainShrinks(rs, name, prefix, seen, c, m);
      WalkIsComplete(rs, c.names[1], JoinPath.Join(prefix, c.prefixes[0]), seen + {name}, Chain(c.names[1..], c.prefixes[1..]), m);
      assert NestRegisters(rs, name, prefix, seen, j, m);
    }
  }

  lemma ChainShrinks(rs: Routers, name: Name, prefix: string, seen: set<Name>, c: Chain, m: Mount)
    requires Mounts(rs, name, prefix, seen, c, m) && c.prefixes != []
    ensures Mounts(rs, c.names[1], JoinPath.Join(prefix, c.prefixes[0]), seen + {name}, Chain(c.names[1..], c.prefixes[1..]), m)
  {
    hide NestsUnder, Registers, JoinPath.Join;
    var rest := Chain(c.names[1..], c.prefixes[1..]);
    forall i | 0 <= i < |rest.prefixes| ensures NestsUnder(rs, rest.names[i], rest.prefixes[i], rest.names[i + 1]) {
      assert NestsUnder(rs, c.names[i + 1], c.prefixes[i + 1], c.names[i + 2]);
    }
    assert IsChain(rs, rest);
    assert forall i | 0 <= i < |rest.names| :: rest.names[i] == c.names[i + 1];
    assert RepeatFree(rest.names);
    assert FoldPrefixes(prefix, c.prefixes) == FoldPrefixes(JoinPath.Join(prefix, c.prefixes[0]), rest.prefixes);
  }

  // ----- roots

  /** Some router, possibly itself, nests it. */
  ghost predicate IsNested(rs: Routers, name: Name) {
    exists caller, prefix :: NestsUnder(rs, caller, prefix, name)
  }

  /** A router that the resolution starts from. */
  ghost predicate IsRoot(rs: Routers, name: Name) {
    name in rs.fns && !IsNested(rs, name)
  }

  /** What the walks from the first `n` routers that are roots register. */
  ghost function RootMounts(rs: Routers, n: nat): seq<Mount>
    requires n <= |rs.names|
  {
    if n == 0 then []
    else RootMounts(rs, n - 1) + if IsRoot(rs, rs.names[n - 1]) then Walk(rs, rs.names[n - 1], "", {}) else []
  }

  lemma {:induction false} FromSomeRoot(rs: Routers, n: nat, m: Mount)
    requires n <= |rs.names|
    ensures m in RootMounts(rs, n)
       <==> exists i :: 0 <= i < n && IsRoot(rs, rs.names[i]) && m in Walk(rs, rs.names[i], "", {})
  {
    hide Walk, IsRoot;
    if n > 0 {
      FromSomeRoot(rs, n - 1, m);
    }
  }

  /** A chain from a root mounts `m`. */
  ghost predicate MountedBy(rs: Routers, c: Chain, m: Mount) {
    |c.names| > 0 && IsRoot(rs, c.names[0]) && Mounts(rs, c.names[0], "", {}, c, m)
  }

  /** Route resolution: exactly the registrations that repeat-free chains from un-nested
      routers mount, on cyclic nest graphs too. */
  lemma ResolutionIsExact(rs: Routers, m: Mount)
    requires rs.Valid()
    ensures m in RootMounts(rs, |rs.names|) <==> exists c :: MountedBy(rs, c, m)
  {
    FromSomeRoot(rs, |rs.names|, m);
    if m in RootMounts(rs, |rs.names|) {
      var i :| 0 <= i < |rs.names| && IsRoot(rs, rs.names[i]) && m in Walk(rs, rs.names[i], "", {});
      var c := WalkIsSound(rs, rs.names[i], "", {}, m);
      assert MountedBy(rs, c, m);
    }
    if c :| MountedBy(rs, c, m) {
      WalkIsComplete(rs, c.names[0], "", {}, c, m);
    }
  }

  // ----- grouping of the prefixes

  /** The path of a route seen from the inside out: each nest's prefix before what it nests. */
  function FoldOutwards(prefixes: seq<string>, path: string): string
    decreases |prefixes|
  {
    if prefixes == [] then path else JoinPath.Join(prefixes[0], FoldOutwards(prefixes[1..], path))
  }

  /** The prefix that the walk accumulates gives the same full path as mounting outwards,
      when every nested prefix is "/" or contains something other than slashes. */
  lemma {:induction false} AccumulatedPrefixRegroups(prefix: string, prefixes: seq<string>, path: string)
    requires forall i | 0 <= i < |prefixes| :: prefixes[i] == "/" || JoinPath.HasText(prefixes[i])
    ensures JoinPath.Join(FoldPrefixes(prefix, prefixes), path) == JoinPath.Join(prefix, FoldOutwards(prefixes, path))
    decreases |prefixes|
  {
    if prefixes != [] {
      AccumulatedPrefixRegroups(JoinPath.Join(prefix, prefixes[0]), prefixes[1..], path);
      JoinPath.JoinRegroupsExactly(prefixes[0]);
      assert JoinPath.Regroups(prefix, prefixes[0], FoldOutwards(prefixes[1..], path));
    }
  }
}
