/** The task graph the generator declares with `app.task(name, deps, body)`.
    Only the static dependency lists are modelled; the host runner that
    schedules them is not part of this model. */
module TaskGraph {

  /** Task to its declared dependencies, in declaration order. */
  type Graph<T> = map<T, seq<T>>

  /** The tasks generator.js registers. */
  datatype TaskName =
    | Options | Plugins | Middleware | Data | New | Verbmd | PromptVerbmd
    | Ask | Templates | Setup | Readme | Default

  /** Every task generator.js registers, with the dependencies it declares
      (:221 ask, :287 setup, :300 readme, :329 default; the rest declare none). */
  const Declared: Graph<TaskName> := map[
    Options := [],
    Plugins := [],
    Middleware := [],
    Data := [],
    New := [],
    Verbmd := [],
    PromptVerbmd := [],
    Ask := [PromptVerbmd],
    Templates := [],
    Setup := [Options, Plugins, Middleware, Data],
    Readme := [Setup, Templates, Verbmd],
    Default := [Readme]
  ]

  /** Tasks started at run time by `app.build` from inside a task body:
      `verbmd` builds `ask` (:181) and `prompt-verbmd` builds `new` (:201). */
  const DynamicBuilds: Graph<TaskName> := map[
    Verbmd := [Ask],
    PromptVerbmd := [New]
  ]

  predicate Edge<T(!new)>(g: Graph<T>, a: T, b: T)
  {
    a in g && b in g[a]
  }

  ghost predicate IsPath<T(!new)>(g: Graph<T>, p: seq<T>)
  {
    |p| >= 1 && forall i :: 0 <= i < |p| - 1 ==> Edge(g, p[i], p[i + 1])
  }

  /** `b` is a transitive dependency of `a`: a path of one or more edges. */
  ghost predicate Reaches<T(!new)>(g: Graph<T>, a: T, b: T)
  {
    exists p :: IsPath(g, p) && |p| >= 2 && p[0] == a && p[|p| - 1] == b
  }

  ghost predicate Acyclic<T(!new)>(g: Graph)
  {
    forall a :: !Reaches(g, a, a)
  }

  /** A ranking certificate: every dependency ranks strictly below its dependent. */
  ghost predicate Ranked<T(!new)>(g: Graph<T>, rank: map<T, nat>)
  {
    forall a, b :: Edge(g, a, b) ==> a in rank && b in rank && rank[b] < rank[a]
  }

  /** A path minus its first task is still a path. */
  lemma PathTail<T(!new)>(g: Graph<T>, p: seq<T>)
    requires IsPath(g, p) && |p| >= 2
    ensures IsPath(g, p[1..])
    ensures Edge(g, p[0], p[1])
  {
    forall i | 0 <= i < |p[1..]| - 1
      ensures Edge(g, p[1..][i], p[1..][i + 1])
    {
      assert Edge(g, p[i + 1], p[i + 2]);
    }
  }

  lemma {:induction false} RankFallsAlongPath<T(!new)>(g: Graph<T>, rank: map<T, nat>, p: seq<T>)
    requires Ranked(g, rank)
    requires IsPath(g, p) && |p| >= 2
    ensures p[0] in rank && p[|p| - 1] in rank && rank[p[|p| - 1]] < rank[p[0]]
  {
    PathTail(g, p);
    var last := p[|p| - 1];
    if |p| == 2 {
      assert last == p[1];
    } else {
      RankFallsAlongPath(g, rank, p[1..]);
      assert p[1..][0] == p[1] && p[1..][|p[1..]| - 1] == last;
      assert rank[last] < rank[p[1]] < rank[p[0]];
    }
  }

  /** A graph with a ranking has no cycle. */
  lemma RankedIsAcyclic<T(!new)>(g: Graph<T>, rank: map<T, nat>)
    requires Ranked(g, rank)
    ensures Acyclic(g)
  {
    forall a | Reaches(g, a, a)
      ensures false
    {
      var p :| IsPath(g, p) && |p| >= 2 && p[0] == a && p[|p| - 1] == a;
      RankFallsAlongPath(g, rank, p);
    }
  }

  const DeclaredRank: map<TaskName, nat> := map[
    Options := 0, Plugins := 0, Middleware := 0, Data := 0,
    New := 0, Verbmd := 0, PromptVerbmd := 0, Templates := 0,
    Ask := 1, Setup := 1, Readme := 2, Default := 3
  ]

  /** The declared graph is acyclic. */
  lemma DeclaredIsAcyclic()
    ensures Ranked(Declared, DeclaredRank)
    ensures Acyclic(Declared)
  {
    RankedIsAcyclic(Declared, DeclaredRank);
  }

  // ---------------------------------------------------------------------------
  // Transitive dependency closure
  // ---------------------------------------------------------------------------

  /** All tasks `t` transitively depends on, computed along the ranking. */
  function Closure<T(!new)>(g: Graph<T>, rank: map<T, nat>, t: T): set<T>
    requires Ranked(g, rank) && t in rank
    decreases rank[t], 1, 0
  {
    if t in g then
      assert forall d :: d in g[t] ==> Edge(g, t, d);
      ClosureOf(g, rank, g[t], rank[t])
    else {}
  }

  /** The dependencies `ds` together with everything they depend on. */
  function ClosureOf<T(!new)>(g: Graph<T>, rank: map<T, nat>, ds: seq<T>, bound: nat): set<T>
    requires Ranked(g, rank)
    requires forall d :: d in ds ==> d in rank && rank[d] < bound
    decreases bound, 0, |ds|
  {
    if |ds| == 0 then {}
    else {ds[0]} + Closure(g, rank, ds[0]) + ClosureOf(g, rank, ds[1..], bound)
  }

  lemma {:induction false} ClosureOfMembers<T(!new)>(g: Graph<T>, rank: map<T, nat>, ds: seq<T>, bound: nat, x: T)
    requires Ranked(g, rank)
    requires forall d :: d in ds ==> d in rank && rank[d] < bound
    ensures x in ClosureOf(g, rank, ds, bound) <==>
              exists d :: d in ds && (x == d || x in Closure(g, rank, d))
    decreases |ds|
  {
    if |ds| > 0 {
      var tail := ds[1..];
      ClosureOfMembers(g, rank, tail, bound, x);
      assert ClosureOf(g, rank, ds, bound)
             == {ds[0]} + Closure(g, rank, ds[0]) + ClosureOf(g, rank, tail, bound);
      if x in ClosureOf(g, rank, ds, bound) {
        if x != ds[0] && x !in Closure(g, rank, ds[0]) {
          var d :| d in tail && (x == d || x in Closure(g, rank, d));
          assert d in ds;
        }
      }
      if exists d :: d in ds && (x == d || x in Closure(g, rank, d)) {
        var d :| d in ds && (x == d || x in Closure(g, rank, d));
        if d != ds[0] {
          assert d in tail;
        }
      }
    }
  }

  /** The computed closure is exactly the set of tasks reachable along declared
      dependencies. */
  lemma {:induction false} ClosureIsReachability<T(!new)>(g: Graph<T>, rank: map<T, nat>, t: T, x: T)
    requires Ranked(g, rank) && t in rank
    ensures x in Closure(g, rank, t) <==> Reaches(g, t, x)
    decreases rank[t]
  {
    if x in Closure(g, rank, t) {
      ClosureOfMembers(g, rank, g[t], rank[t], x);
      var d :| d in g[t] && (x == d || x in Closure(g, rank, d));
      assert Edge(g, t, d);
      if x == d {
        assert IsPath(g, [t, d]);
      } else {
        ClosureIsReachability(g, rank, d, x);
        var p :| IsPath(g, p) && |p| >= 2 && p[0] == d && p[|p| - 1] == x;
        var q := [t] + p;
        assert IsPath(g, q) by {
          forall i | 0 <= i < |q| - 1
            ensures Edge(g, q[i], q[i + 1])
          {
            if i > 0 {
              assert q[i] == p[i - 1] && q[i + 1] == p[i];
            }
          }
        }
        assert q[|q| - 1] == x;
      }
    }
    if Reaches(g, t, x) {
      var p :| IsPath(g, p) && |p| >= 2 && p[0] == t && p[|p| - 1] == x;
      assert Edge(g, p[0], p[1]);
      var d := p[1];
      ClosureOfMembers(g, rank, g[t], rank[t], x);
      if |p| > 2 {
        PathTail(g, p);
        assert Reaches(g, d, x) by {
          assert p[1..][|p[1..]| - 1] == x;
        }
        ClosureIsReachability(g, rank, d, x);
      }
    }
  }

  /** Dependencies that declare nothing contribute only themselves. */
  lemma {:induction false} ClosureOfLeaves<T(!new)>(g: Graph<T>, rank: map<T, nat>, ds: seq<T>, bound: nat)
    requires Ranked(g, rank)
    requires forall d :: d in ds ==> d in rank && rank[d] < bound
    requires forall d :: d in ds ==> d !in g || g[d] == []
    ensures ClosureOf(g, rank, ds, bound) == set d | d in ds
    decreases |ds|
  {
    if |ds| > 0 {
      ClosureOfLeaves(g, rank, ds[1..], bound);
      assert Closure(g, rank, ds[0]) == {};
      assert (set d | d in ds) == {ds[0]} + (set d | d in ds[1..]);
    }
  }

  /** A task whose dependencies declare none of their own depends on exactly them. */
  lemma ClosureOfParentOfLeaves<T(!new)>(g: Graph<T>, rank: map<T, nat>, t: T)
    requires Ranked(g, rank) && t in rank && t in g
    requires forall d :: d in g[t] ==> d !in g || g[d] == []
    ensures Closure(g, rank, t) == set d | d in g[t]
  {
    assert forall d :: d in g[t] ==> Edge(g, t, d);
    ClosureOfLeaves(g, rank, g[t], rank[t]);
  }

  /** The closure of a task with dependencies `[first] + rest`, where `rest` declare none. */
  lemma ClosureOfFirstThenLeaves<T(!new)>(g: Graph<T>, rank: map<T, nat>, t: T)
    requires Ranked(g, rank) && t in rank && t in g && |g[t]| > 0
    requires forall d :: d in g[t][1..] ==> d !in g || g[d] == []
    ensures g[t][0] in rank
    ensures Closure(g, rank, t)
            == {g[t][0]} + Closure(g, rank, g[t][0]) + (set d | d in g[t][1..])
  {
    var ds := g[t];
    assert Edge(g, t, ds[0]);
    assert forall d :: d in ds ==> Edge(g, t, d);
    assert forall d :: d in ds[1..] ==> d in ds;
    ClosureOfLeaves(g, rank, ds[1..], rank[t]);
  }

  /** The closure of `setup` from the shape of its declaration alone. */
  lemma SetupClosureFrom(g: Graph<TaskName>, rank: map<TaskName, nat>)
    requires Ranked(g, rank) && Setup in rank && Setup in g
    requires g[Setup] == [Options, Plugins, Middleware, Data]
    requires forall d :: d in g[Setup] ==> d !in g || g[d] == []
    ensures Closure(g, rank, Setup) == {Options, Plugins, Middleware, Data}
  {
    ClosureOfParentOfLeaves(g, rank, Setup);
    assert (set d | d in g[Setup]) == {Options, Plugins, Middleware, Data};
  }

  lemma SetupClosure()
    ensures Ranked(Declared, DeclaredRank)
    ensures Closure(Declared, DeclaredRank, Setup) == {Options, Plugins, Middleware, Data}
  {
    DeclaredIsAcyclic();
    assert Declared[Options] == [] && Declared[Plugins] == [];
    assert Declared[Middleware] == [] && Declared[Data] == [];
    SetupClosureFrom(Declared, DeclaredRank);
  }

  lemma ReadmeClosureComputed()
    ensures Ranked(Declared, DeclaredRank)
    ensures Closure(Declared, DeclaredRank, Readme)
            == {Setup, Options, Plugins, Middleware, Data, Templates, Verbmd}
  {
    DeclaredIsAcyclic();
    SetupClosure();
    ReadmeClosureFrom(Declared, DeclaredRank);
  }

  /** The closure of `readme` from the shape of its declaration alone. */
  lemma ReadmeClosureFrom(g: Graph<TaskName>, rank: map<TaskName, nat>)
    requires Ranked(g, rank) && Readme in rank && Readme in g
    requires g[Readme] == [Setup, Templates, Verbmd]
    requires Templates in g && g[Templates] == [] && Verbmd in g && g[Verbmd] == []
    requires Closure(g, rank, Setup) == {Options, Plugins, Middleware, Data}
    ensures Closure(g, rank, Readme)
            == {Setup, Options, Plugins, Middleware, Data, Templates, Verbmd}
  {
    var ds := g[Readme];
    assert ds[1..] == [Templates, Verbmd];
    ClosureOfFirstThenLeaves(g, rank, Readme);
    assert (set d | d in ds[1..]) == {Templates, Verbmd};
  }

  /** Everything `readme` depends on, directly or not. */
  const ReadmeDependencies: set<TaskName> :=
    {Setup, Options, Plugins, Middleware, Data, Templates, Verbmd}

  lemma ReachesFromReadme(x: TaskName)
    ensures Reaches(Declared, Readme, x) <==> x in ReadmeDependencies
  {
    ReadmeClosureComputed();
    ClosureIsReachability(Declared, DeclaredRank, Readme, x);
  }

  /** `readme` transitively depends on exactly these seven tasks. */
  lemma ReadmeClosure()
    ensures forall x :: Reaches(Declared, Readme, x) <==> x in ReadmeDependencies
  {
    forall x
      ensures Reaches(Declared, Readme, x) <==> x in ReadmeDependencies
    {
      ReachesFromReadme(x);
    }
  }

  /** `default` runs `readme` and, through it, everything `readme` needs. */
  lemma DefaultClosure(x: TaskName)
    ensures Reaches(Declared, Default, x) <==> x == Readme || x in ReadmeDependencies
  {
    var g, rank := Declared, DeclaredRank;
    DeclaredIsAcyclic();
    ReadmeClosureComputed();
    var ds := g[Default];
    assert ds == [Readme];
    assert Closure(g, rank, Default) == ClosureOf(g, rank, ds, rank[Default]);
    assert ClosureOf(g, rank, ds, rank[Default])
           == {Readme} + Closure(g, rank, Readme) + ClosureOf(g, rank, ds[1..], rank[Default]);
    ClosureIsReachability(g, rank, Default, x);
  }

  lemma LastStep<T(!new)>(g: Graph<T>, p: seq<T>)
    requires IsPath(g, p) && |p| >= 2
    ensures Edge(g, p[|p| - 2], p[|p| - 1])
  {
  }

  /** A task no declared list names is never reached as a dependency. */
  lemma UnlistedIsUnreached<T(!new)>(g: Graph<T>, x: T)
    requires forall t :: t in g ==> x !in g[t]
    ensures forall a :: !Reaches(g, a, x)
  {
    forall a
      ensures !Reaches(g, a, x)
    {
      if Reaches(g, a, x) {
        var p :| IsPath(g, p) && |p| >= 2 && p[0] == a && p[|p| - 1] == x;
        LastStep(g, p);
      }
    }
  }

  /** `ask` and `new` are only ever started through `app.build`, never as a
      declared dependency. */
  lemma AskAndNewOnlyDynamic()
    ensures forall a :: !Reaches(Declared, a, Ask) && !Reaches(Declared, a, New)
    ensures Edge(DynamicBuilds, Verbmd, Ask) && Edge(DynamicBuilds, PromptVerbmd, New)
  {
    UnlistedIsUnreached(Declared, Ask);
    UnlistedIsUnreached(Declared, New);
  }

  /** Declared dependencies plus the run-time `app.build` calls. */
  function WithBuilds<T(!new)>(g: Graph<T>, builds: Graph<T>): (r: Graph<T>)
    ensures r.Keys == g.Keys
    ensures forall a, b :: Edge(r, a, b) <==> Edge(g, a, b) || (a in g && Edge(builds, a, b))
  {
    map t | t in g :: g[t] + (if t in builds then builds[t] else [])
  }

  const FullRank: map<TaskName, nat> := map[
    Options := 0, Plugins := 0, Middleware := 0, Data := 0,
    New := 0, Templates := 0, PromptVerbmd := 1, Ask := 2,
    Verbmd := 3, Setup := 1, Readme := 4, Default := 5
  ]

  /** A ranking of both graphs ranks their union. */
  lemma RankedWithBuilds<T(!new)>(g: Graph<T>, builds: Graph<T>, rank: map<T, nat>)
    requires Ranked(g, rank) && Ranked(builds, rank)
    ensures Ranked(WithBuilds(g, builds), rank)
  {
    var r := WithBuilds(g, builds);
    forall a, b | Edge(r, a, b)
      ensures a in rank && b in rank && rank[b] < rank[a]
    {
    }
  }

  lemma FullRankRanksDeclared()
    ensures Ranked(Declared, FullRank)
  {
  }

  lemma FullRankRanksBuilds()
    ensures Ranked(DynamicBuilds, FullRank)
  {
  }

  /** Even counting the `app.build` calls, no task can end up starting itself. */
  lemma BuildsKeepAcyclic()
    ensures Acyclic(WithBuilds(Declared, DynamicBuilds))
  {
    FullRankRanksDeclared();
    FullRankRanksBuilds();
    RankedWithBuilds(Declared, DynamicBuilds, FullRank);
    RankedIsAcyclic(WithBuilds(Declared, DynamicBuilds), FullRank);
  }
}
