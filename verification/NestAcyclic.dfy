/** When every router is mounted: on acyclic nest graphs always, on cyclic ones not. */
module NestAcyclic {
  import opened Wrappers
  import opened NestGraph
  import opened SetFacts

  /** No chain of one or more nests comes back to where it started. */
  ghost predicate Acyclic(rs: Routers) {
    forall c | IsChain(rs, c) && |c.prefixes| > 0 :: c.names[0] != c.names[|c.names| - 1]
  }

  /** A repeat-free chain from a root reaches `name`. */
  ghost predicate ReachedBy(rs: Routers, c: Chain, name: Name) {
    && IsChain(rs, c) && RepeatFree(c.names)
    && IsRoot(rs, c.names[0])
    && c.names[|c.names| - 1] == name
  }

  function SetOf(names: seq<Name>): set<Name> {
    set i | 0 <= i < |names| :: names[i]
  }

  lemma {:induction false} RepeatFreeSize(names: seq<Name>)
    requires RepeatFree(names)
    ensures |SetOf(names)| == |names|
  {
    if names != [] {
      var last := |names| - 1;
      RepeatFreeSize(names[..last]);
      assert SetOf(names) == SetOf(names[..last]) + {names[last]};
    }
  }

  /** A repeat-free chain is no longer than the number of routers. */
  lemma ChainIsShort(rs: Routers, c: Chain)
    requires IsChain(rs, c) && RepeatFree(c.names)
    ensures |c.names| <= |rs.fns|
  {
    RepeatFreeSize(c.names);
    assert SetOf(c.names) <= rs.fns.Keys;
    SubsetIsSmaller(SetOf(c.names), rs.fns.Keys);
    assert |rs.fns| == |rs.fns.Keys|;
  }

  /** The part of a chain up to its router `n`. */
  function Upto(c: Chain, n: nat): Chain
    requires n < |c.names| && |c.names| == |c.prefixes| + 1
  {
    Chain(c.names[..n + 1], c.prefixes[..n])
  }

  /** Climbing from a router to whoever nests it ends at a root, since on an acyclic graph
      it never meets a router twice. */
  lemma {:induction false} ClimbToRoot(rs: Routers, c: Chain) returns (up: Chain)
    requires Acyclic(rs) && IsChain(rs, c) && RepeatFree(c.names)
    ensures ReachedBy(rs, up, c.names[|c.names| - 1])
    decreases |rs.fns| - |c.names|
  {
    ChainIsShort(rs, c);
    if !IsNested(rs, c.names[0]) {
      up := c;
    } else {
      var caller, prefix :| NestsUnder(rs, caller, prefix, c.names[0]);
      var longer := Chain([caller] + c.names, [prefix] + c.prefixes);
      LongerChain(rs, caller, prefix, c);
      ChainIsShort(rs, longer);
      up := ClimbToRoot(rs, longer);
    }
  }

  lemma LongerChain(rs: Routers, caller: Name, prefix: string, c: Chain)
    requires Acyclic(rs) && IsChain(rs, c) && RepeatFree(c.names)
    requires NestsUnder(rs, caller, prefix, c.names[0])
    ensures IsChain(rs, Chain([caller] + c.names, [prefix] + c.prefixes))
    ensures RepeatFree([caller] + c.names)
  {
    hide NestsUnder;
    var longer := Chain([caller] + c.names, [prefix] + c.prefixes);
    assert caller in rs.fns by { CallerIsRecorded(rs, caller, prefix, c.names[0]); }
    forall i | 0 <= i < |longer.prefixes| ensures NestsUnder(rs, longer.names[i], longer.prefixes[i], longer.names[i + 1]) {
      if i > 0 {
        assert NestsUnder(rs, c.names[i - 1], c.prefixes[i - 1], c.names[i]);
      }
    }
    assert IsChain(rs, longer);
    forall n | 0 <= n < |c.names| ensures c.names[n] != caller {
      var cycle := Upto(longer, n + 1);
      assert IsChain(rs, cycle);
      assert cycle.names[0] == caller && cycle.names[|cycle.names| - 1] == c.names[n];
    }
  }

  lemma CallerIsRecorded(rs: Routers, caller: Name, prefix: string, target: Name)
    requires NestsUnder(rs, caller, prefix, target)
    ensures caller in rs.fns
  {
  }

  /** No route is lost on an acyclic nest graph: each registered route is among the mounts,
      under at least one full path. */
  lemma NoRouteIsLostWhenAcyclic(rs: Routers, name: Name, path: string, byMethod: ByMethod) returns (full: string)
    requires rs.Valid() && Acyclic(rs) && Registers(rs, name, path, byMethod)
    ensures Mount(full, byMethod) in RootMounts(rs, |rs.names|)
  {
    var self := Chain([name], []);
    assert IsChain(rs, self);
    var c := ClimbToRoot(rs, self);
    full := JoinPath.Join(FoldPrefixes("", c.prefixes), path);
    var m := Mount(full, byMethod);
    assert Mounts(rs, c.names[0], "", {}, c, m);
    assert MountedBy(rs, c, m);
    ResolutionIsExact(rs, m);
  }

  /** Any chain from a root, repeats and all, leads to `name`. */
  ghost predicate LedTo(rs: Routers, c: Chain, name: Name) {
    IsChain(rs, c) && IsRoot(rs, c.names[0]) && c.names[|c.names| - 1] == name
  }

  /** The chain without the detour from router `i` back to it at `j`. */
  function CutLoop(c: Chain, i: nat, j: nat): Chain
    requires |c.names| == |c.prefixes| + 1 && i < j < |c.names|
  {
    Chain(c.names[..i + 1] + c.names[j + 1..], c.prefixes[..i] + c.prefixes[j..])
  }

  lemma CutLoopIsChain(rs: Routers, c: Chain, i: nat, j: nat)
    requires IsChain(rs, c) && i < j < |c.names| && c.names[i] == c.names[j]
    ensures IsChain(rs, CutLoop(c, i, j))
  {
    hide NestsUnder;
    var d := CutLoop(c, i, j);
    forall n | 0 <= n < |d.prefixes| ensures NestsUnder(rs, d.names[n], d.prefixes[n], d.names[n + 1]) {
      var at := if n < i then n else n + j - i;
      assert NestsUnder(rs, c.names[at], c.prefixes[at], c.names[at + 1]);
    }
  }

  /** Stopping at repeated routers loses none: a router that any chain from a root leads to
      is reached by a repeat-free one. */
  lemma {:induction false} RepeatsAreNeedless(rs: Routers, c: Chain, name: Name) returns (d: Chain)
    requires LedTo(rs, c, name)
    ensures ReachedBy(rs, d, name)
    decreases |c.names|
  {
    if RepeatFree(c.names) {
      d := c;
    } else {
      var i, j :| 0 <= i < j < |c.names| && c.names[i] == c.names[j];
      CutLoopIsChain(rs, c, i, j);
      d := RepeatsAreNeedless(rs, CutLoop(c, i, j), name);
    }
  }

  /** Walking without repeats reaches the same routers as walking with them. */
  lemma RouterIsReachedExactly(rs: Routers, name: Name)
    ensures (exists c :: ReachedBy(rs, c, name)) <==> (exists c :: LedTo(rs, c, name))
  {
    if c :| ReachedBy(rs, c, name) {
      assert LedTo(rs, c, name);
    }
    if c :| LedTo(rs, c, name) {
      var d := RepeatsAreNeedless(rs, c, name);
    }
  }

  /** The mount of a route of router `name` by chain `c`. */
  function MountOf(c: Chain, path: string, byMethod: ByMethod): Mount {
    Mount(JoinPath.Join(FoldPrefixes("", c.prefixes), path), byMethod)
  }

  /** A registered route is mounted through its own router exactly when some chain from an
      un-nested router leads there, and then it is among what resolution registers; on a
      cyclic graph there may be no such chain. */
  lemma RouteIsMountedExactly(rs: Routers, name: Name, path: string, byMethod: ByMethod)
    requires rs.Valid() && Registers(rs, name, path, byMethod)
    ensures (exists c: Chain :: MountedBy(rs, c, MountOf(c, path, byMethod)) && c.names[|c.names| - 1] == name)
       <==> (exists c :: LedTo(rs, c, name))
    ensures (exists c :: LedTo(rs, c, name)) ==> exists full :: Mount(full, byMethod) in RootMounts(rs, |rs.names|)
  {
    RouterIsReachedExactly(rs, name);
    if c: Chain :| MountedBy(rs, c, MountOf(c, path, byMethod)) && c.names[|c.names| - 1] == name {
      assert LedTo(rs, c, name);
    }
    if c :| ReachedBy(rs, c, name) {
      assert MountedBy(rs, c, MountOf(c, path, byMethod));
      ResolutionIsExact(rs, MountOf(c, path, byMethod));
    }
  }

  /** What an un-nested router registers is mounted at exactly the path it was given. */
  lemma RootRoutesKeepTheirPath(rs: Routers, name: Name, path: string, byMethod: ByMethod)
    requires rs.Valid() && IsRoot(rs, name) && Registers(rs, name, path, byMethod)
    ensures Mount(path, byMethod) in RootMounts(rs, |rs.names|)
  {
    var self, m := Chain([name], []), Mount(path, byMethod);
    JoinPath.JoinExactly("", path, path);
    assert IsChain(rs, self);
    assert Registers(rs, self.names[|self.names| - 1], path, m.byMethod);
    assert FoldPrefixes("", self.prefixes) == "";
    assert MountedBy(rs, self, m);
    ResolutionIsExact(rs, m);
  }

  /** Two routers that nest each other have no root, so nothing they register is mounted. */
  lemma CycleLosesItsRoutes(byMethod: ByMethod) returns (rs: Routers)
    ensures rs.Valid() && Registers(rs, "a", "/x", byMethod)
    ensures RootMounts(rs, |rs.names|) == []
  {
    var a := RouterFn([Route("/x", byMethod)], [Nest("/b", "b")]);
    var b := RouterFn([], [Nest("/a", "a")]);
    rs := Routers(["a", "b"], map["a" := a, "b" := b]);
    assert "a" != "b" by { assert "a"[0] != "b"[0]; }
    assert Target(rs, "a", a.nests[0]) == Some("b");
    assert Target(rs, "b", b.nests[0]) == Some("a");
    assert NestsUnder(rs, "a", "/b", "b") && NestsUnder(rs, "b", "/a", "a");
    assert !IsRoot(rs, "a") && !IsRoot(rs, "b");
    hide IsRoot, Walk;
    assert RootMounts(rs, 1) == RootMounts(rs, 0) == [];
    assert RootMounts(rs, 2) == RootMounts(rs, 1);
  }
}
