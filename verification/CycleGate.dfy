/** The import-cycle gate: the reachability worklist and the coloured depth-first search. */
module CycleGate {
  import opened Sorting
  import opened CycleKey

  type Graph = map<File, seq<File>>

  function Deps(g: Graph, f: File): seq<File> {
    if f in g then g[f] else []
  }

  /** Consecutive files of the list are joined by dependencies. */
  ghost predicate Walk(g: Graph, p: seq<File>) {
    p != [] && forall i :: 0 <= i < |p| - 1 ==> p[i + 1] in Deps(g, p[i])
  }

  ghost predicate ClosedWalk(g: Graph, c: seq<File>) {
    |c| >= 2 && c[0] == c[|c| - 1] && Walk(g, c)
  }

  ghost predicate HasCycle(g: Graph) {
    exists c :: ClosedWalk(g, c)
  }

  // ----- reachability

  ghost predicate Path(deps: File -> seq<File>, p: seq<File>, from: File, to: File) {
    && p != [] && p[0] == from && p[|p| - 1] == to
    && forall i :: 0 <= i < |p| - 1 ==> p[i + 1] in deps(p[i])
  }

  ghost predicate Reachable(deps: File -> seq<File>, from: File, to: File) {
    exists p :: Path(deps, p, from, to)
  }

  lemma ReachableStart(deps: File -> seq<File>, f: File)
    ensures Reachable(deps, f, f)
  {
    assert Path(deps, [f], f, f);
  }

  lemma ReachableStep(deps: File -> seq<File>, from: File, f: File, d: File)
    requires Reachable(deps, from, f) && d in deps(f)
    ensures Reachable(deps, from, d)
  {
    var p :| Path(deps, p, from, f);
    assert Path(deps, p + [d], from, d);
  }

  /** A set closed under dependencies holds everything reachable from its members. */
  lemma {:induction false} ClosedHolds(deps: File -> seq<File>, s: set<File>, p: seq<File>, from: File, to: File)
    requires Path(deps, p, from, to) && from in s
    requires forall f, d :: f in s && d in deps(f) ==> d in s
    ensures to in s
    decreases |p|
  {
    if |p| > 1 {
      assert p[1] in deps(p[0]);
      ClosedHolds(deps, s, p[1..], p[1], to);
    }
  }

  /**
   Files still to scan wait on a stack. The universe is any finite set of files closed under dependencies;
   it only bounds the search.
   */
  method BuildGraph(entrypoint: File, deps: File -> seq<File>, ghost universe: set<File>) returns (graph: Graph)
    requires entrypoint in universe && forall f, d :: f in universe && d in deps(f) ==> d in universe
    ensures forall f :: f in graph <==> Reachable(deps, entrypoint, f)
    ensures forall f :: f in graph ==> graph[f] == deps(f) && forall d :: d in graph[f] ==> d in graph
  {
    graph := map[];
    var stack := [entrypoint];
    ReachableStart(deps, entrypoint);
    while |stack| > 0
      invariant entrypoint in graph || entrypoint in stack
      invariant forall f :: f in stack ==> f in universe && Reachable(deps, entrypoint, f)
      invariant forall f :: f in graph ==> f in universe && Reachable(deps, entrypoint, f) && graph[f] == deps(f)
      invariant forall f, d :: f in graph && d in deps(f) ==> d in graph || d in stack
      decreases universe - graph.Keys, |stack|
    {
      var file := stack[|stack| - 1];
      ghost var before := stack;
      stack := stack[..|stack| - 1];
      assert before == stack + [file];
      if file !in graph {
        ghost var keys := graph.Keys;
        graph := graph[file := deps(file)];
        assert graph.Keys == keys + {file};
        forall d | d in deps(file)
          ensures Reachable(deps, entrypoint, d)
        {
          ReachableStep(deps, entrypoint, file, d);
        }
        for i := 0 to |deps(file)|
          invariant forall f :: f in stack ==> f in universe && Reachable(deps, entrypoint, f)
          invariant forall f :: f in before && f != file ==> f in stack
          invariant forall j :: 0 <= j < i ==> deps(file)[j] in graph || deps(file)[j] in stack
        {
          if deps(file)[i] !in graph {
            stack := stack + [deps(file)[i]];
          }
        }
      }
    }
    forall f | Reachable(deps, entrypoint, f)
      ensures f in graph
    {
      var p :| Path(deps, p, entrypoint, f);
      ClosedHolds(deps, graph.Keys, p, entrypoint, f);
    }
  }

  // ----- depth-first search

  /** A reported cycle: a closed walk that repeats no file but the first. */
  ghost predicate IsCycle(g: Graph, c: seq<File>) {
    ClosedWalk(g, c) && Distinct(c[..|c| - 1])
  }

  /** Somewhere in the list v directly follows u. */
  ghost predicate EdgeIn(c: seq<File>, u: File, v: File) {
    exists i: nat :: i + 1 < |c| && c[i] == u && c[i + 1] == v
  }

  /** The dependency of u on v is part of some recorded cycle. */
  ghost predicate Covered(m: map<string, seq<File>>, u: File, v: File) {
    exists k :: k in m && EdgeIn(m[k], u, v)
  }

  /** Everything recorded stays as it is. */
  ghost predicate Grown(m: map<string, seq<File>>, m': map<string, seq<File>>) {
    forall k :: k in m ==> k in m' && m'[k] == m[k]
  }

  lemma CoversMore(m: map<string, seq<File>>, m': map<string, seq<File>>)
    requires Grown(m, m')
    ensures forall u, v :: Covered(m, u, v) ==> Covered(m', u, v)
  {
    hide EdgeIn;
    forall u, v | Covered(m, u, v)
      ensures Covered(m', u, v)
    {
      var k :| k in m && EdgeIn(m[k], u, v);
      assert k in m' && EdgeIn(m'[k], u, v);
    }
  }

  ghost predicate StepMet(c: seq<File>, i: nat, m: map<string, seq<File>>) {
    i + 1 < |c| && Covered(m, c[i], c[i + 1])
  }

  /** Every file in the list depends only on files before it, recorded cycles aside. */
  ghost predicate Ordered(g: Graph, order: seq<File>, m: map<string, seq<File>>) {
    forall i, d :: 0 <= i < |order| && d in Deps(g, order[i]) ==> d in order[..i] || Covered(m, order[i], d)
  }

  /**
   If the files of a graph can be ordered with dependencies first, apart from those in recorded cycles,
   every closed walk shares a dependency with a recorded cycle; with none recorded there is no closed walk.
   */
  lemma WalkMeetsCycle(g: Graph, order: seq<File>, m: map<string, seq<File>>, c: seq<File>)
    requires Ordered(g, order, m) && (forall f :: f in g ==> f in order) && ClosedWalk(g, c)
    ensures exists i: nat :: StepMet(c, i, m)
  {
    hide Covered;
    if !exists i: nat :: StepMet(c, i, m) {
      assert c[0 + 1] in Deps(g, c[0]);
      var i :| 0 <= i < |order| && order[i] == c[0];
      NoReturn(g, order, m, c, i);
    }
  }

  /** Infinite descent: an unmet closed walk from position i would give one from an earlier position. */
  lemma {:induction false} NoReturn(g: Graph, order: seq<File>, m: map<string, seq<File>>, c: seq<File>, i: nat)
    requires Ordered(g, order, m) && ClosedWalk(g, c) && i < |order| && order[i] == c[0]
    requires forall k: nat :: !StepMet(c, k, m)
    ensures false
    decreases i
  {
    hide Covered, Ordered;
    LaterIsEarlier(g, order, m, c, i, |c| - 1);
    var j :| 0 <= j < i && order[j] == c[|c| - 1];
    NoReturn(g, order, m, c, j);
  }

  /** Along an unmet walk the position in the order falls, so a walk from position i cannot come back to it. */
  lemma {:induction false} LaterIsEarlier(g: Graph, order: seq<File>, m: map<string, seq<File>>, c: seq<File>, i: nat,
                                          n: nat)
    requires Ordered(g, order, m) && Walk(g, c) && 0 < n < |c| && i < |order| && order[i] == c[0]
    requires forall k: nat :: !StepMet(c, k, m)
    ensures exists j :: 0 <= j < i && order[j] == c[n]
    decreases n
  {
    hide Covered;
    assert c[0 + 1] in Deps(g, order[i]);
    assert !StepMet(c, 0, m);
    assert c[1] in order[..i];
    var j :| 0 <= j < |order[..i]| && order[..i][j] == c[1];
    assert order[j] == c[1];
    if n > 1 {
      forall k: nat
        ensures !StepMet(c[1..], k, m)
      {
        assert !StepMet(c, k + 1, m);
      }
      assert Walk(g, c[1..]) by {
        forall k | 0 <= k < |c[1..]| - 1
          ensures c[1..][k + 1] in Deps(g, c[1..][k])
        {
          assert c[k + 1 + 1] in Deps(g, c[k + 1]);
        }
      }
      hide Ordered, Walk;
      LaterIsEarlier(g, order, m, c[1..], j, n - 1);
      var k :| 0 <= k < j && order[k] == c[1..][n - 1];
      assert order[k] == c[n];
    }
  }

  // ----- the search state, as values

  /** The path is a walk without repetitions, and `visiting` is exactly its contents. */
  ghost predicate OnPath(g: Graph, path: seq<File>, visiting: set<File>) {
    Distinct(path) && (forall f :: f in visiting <==> f in path) && (path != [] ==> Walk(g, path))
  }

  /** `visited` is the finished files, ordered dependencies first but for those in recorded cycles. */
  ghost predicate Finished(g: Graph, finished: seq<File>, visited: set<File>, m: map<string, seq<File>>) {
    (forall f :: f in visited <==> f in finished) && Ordered(g, finished, m)
  }

  ghost predicate KeyedCycle(g: Graph, le: (string, string) -> bool, k: string, c: seq<File>) {
    IsCycle(g, c) && WithoutTail(c) != [] && k == CanonicalCycle(c, le)
  }

  ghost predicate AllKeyed(g: Graph, le: (string, string) -> bool, m: map<string, seq<File>>) {
    forall k :: k in m ==> KeyedCycle(g, le, k, m[k])
  }

  lemma Push(g: Graph, path: seq<File>, visiting: set<File>, file: File)
    requires OnPath(g, path, visiting) && file !in visiting && (path != [] ==> file in Deps(g, path[|path| - 1]))
    ensures OnPath(g, path + [file], visiting + {file})
  {
    assert file !in path;
  }

  ghost predicate ClosedUnder(g: Graph, s: set<File>) {
    forall f, d :: f in s && d in Deps(g, f) ==> d in s
  }

  /** The keys of the map, in the order in which they were first set. */
  ghost predicate Remembers(keys: seq<string>, m: map<string, seq<File>>) {
    Distinct(keys) && forall k :: k in keys <==> k in m
  }

  /** A file is finished once its dependencies are, or lie on recorded cycles. */
  lemma Finish(g: Graph, finished: seq<File>, visited: set<File>, m: map<string, seq<File>>, file: File)
    requires Finished(g, finished, visited, m)
    requires forall d :: d in Deps(g, file) ==> d in visited || Covered(m, file, d)
    ensures Finished(g, finished + [file], visited + {file}, m)
  {
    hide Covered;
    var f' := finished + [file];
    forall i, d | 0 <= i < |f'| && d in Deps(g, f'[i])
      ensures d in f'[..i] || Covered(m, f'[i], d)
    {
      if i < |finished| {
        assert f'[..i] == finished[..i];
      } else {
        assert f'[..i] == finished;
      }
    }
  }

  lemma StillFinished(g: Graph, finished: seq<File>, visited: set<File>, m: map<string, seq<File>>,
                      m': map<string, seq<File>>)
    requires Finished(g, finished, visited, m) && Grown(m, m')
    ensures Finished(g, finished, visited, m')
  {
    CoversMore(m, m');
    hide Covered;
  }

  // ----- the order in which files are pushed

  /** Files are listed in the order in which they were pushed. */
  ghost predicate Climbs(w: seq<File>, rank: map<File, nat>) {
    && (forall i :: 0 <= i < |w| ==> w[i] in rank)
    && forall i, j :: 0 <= i < j < |w| ==> rank[w[i]] < rank[w[j]]
  }

  ghost predicate AllClimb(m: map<string, seq<File>>, rank: map<File, nat>) {
    forall k :: k in m ==> m[k] != [] && Climbs(WithoutTail(m[k]), rank)
  }

  /** Each file is pushed once: the ranks, below the number of pushes, are those of the files seen so far. */
  ghost predicate Ranked(rank: map<File, nat>, pushes: nat, seen: set<File>, path: seq<File>,
                         m: map<string, seq<File>>) {
    rank.Keys == seen && (forall f :: f in rank ==> rank[f] < pushes) && Climbs(path, rank) && AllClimb(m, rank)
  }

  lemma RotationTurns(w: seq<File>, i: nat)
    requires i < |w|
    ensures var r := Rotation(w, i);
      |r| == |w| && if i == 0 then r == w else r[|w| - i - 1] == w[|w| - 1] && r[|w| - i] == w[0]
  {
  }

  /** A list in push order has no other rotation in push order: it would have to turn back to its first file. */
  lemma ClimbingRotation(w: seq<File>, r: seq<File>, rank: map<File, nat>)
    requires Climbs(w, rank) && Climbs(r, rank) && IsRotation(w, r)
    ensures w == r
  {
    var i :| 0 <= i < |w| && r == Rotation(w, i);
    RotationTurns(w, i);
    hide Rotation;
  }

  lemma StillClimbs(w: seq<File>, rank: map<File, nat>, file: File, pushes: nat)
    requires Climbs(w, rank) && file !in rank
    ensures Climbs(w, rank[file := pushes])
  {
  }

  lemma PushRanked(rank: map<File, nat>, pushes: nat, seen: set<File>, path: seq<File>, m: map<string, seq<File>>,
                   file: File)
    requires Ranked(rank, pushes, seen, path, m) && file !in seen
    ensures Ranked(rank[file := pushes], pushes + 1, seen + {file}, path + [file], m)
  {
    var rank' := rank[file := pushes];
    assert Climbs(path + [file], rank') by {
      hide AllClimb;
      StillClimbs(path, rank, file, pushes);
    }
    hide Climbs, WithoutTail;
    forall k | k in m
      ensures Climbs(WithoutTail(m[k]), rank')
    {
      StillClimbs(WithoutTail(m[k]), rank, file, pushes);
    }
  }

  lemma PopRanked(rank: map<File, nat>, pushes: nat, seen: set<File>, path: seq<File>, m: map<string, seq<File>>)
    requires Ranked(rank, pushes, seen, path, m) && path != []
    ensures Ranked(rank, pushes, seen, path[..|path| - 1], m)
  {
    hide AllClimb;
  }

  lemma RankedClimb(rank: map<File, nat>, pushes: nat, seen: set<File>, path: seq<File>, m: map<string, seq<File>>)
    requires Ranked(rank, pushes, seen, path, m)
    ensures Climbs(path, rank) && AllClimb(m, rank)
  {
  }

  lemma SuffixClimbs(path: seq<File>, rank: map<File, nat>, start: nat)
    requires Climbs(path, rank) && start < |path|
    ensures var c := path[start..] + [path[start]]; WithoutTail(c) == path[start..] && Climbs(path[start..], rank)
  {
    var c, w := path[start..] + [path[start]], path[start..];
    assert c[..|c| - 1] == w;
    assert forall i :: 0 <= i < |w| ==> w[i] == path[start + i];
  }

  /** What a cycle is stored over is the same cycle: it has the same key, so it is a rotation, in push order like it. */
  lemma StoreGrows(g: Graph, le: (string, string) -> bool, m: map<string, seq<File>>, key: string, cycle: seq<File>,
                   rank: map<File, nat>)
    requires AllFilesNamed(g) && AllKeyed(g, le, m) && KeyedCycle(g, le, key, cycle)
    requires AllClimb(m, rank) && Climbs(WithoutTail(cycle), rank)
    ensures Grown(m, m[key := cycle]) && AllKeyed(g, le, m[key := cycle]) && AllClimb(m[key := cycle], rank)
  {
    hide IsCycle, CanonicalCycle, WithoutTail, IsRotation, AllFilesNamed, Climbs;
    CycleFilesNamed(g, cycle);
    if key in m {
      assert KeyedCycle(g, le, key, m[key]);
      CycleFilesNamed(g, m[key]);
      SameKeyRotates(WithoutTail(m[key]), WithoutTail(cycle), le);
      ClimbingRotation(WithoutTail(m[key]), WithoutTail(cycle), rank);
    }
  }

  /** The step back to the start of a cycle is its last one. */
  lemma LastStep(front: seq<File>, file: File)
    requires front != []
    ensures EdgeIn(front + [file], front[|front| - 1], file)
  {
    var c, i := front + [file], |front| - 1;
    assert i + 1 < |c| && c[i] == front[i] && c[i + 1] == file;
  }

  /** A back edge closes a cycle with the part of the path that starts at its target. */
  lemma BackEdge(g: Graph, path: seq<File>, visiting: set<File>, start: nat)
    requires OnPath(g, path, visiting) && start < |path| && path[start] in Deps(g, path[|path| - 1])
    ensures IsCycle(g, path[start..] + [path[start]])
  {
    var cycle := path[start..] + [path[start]];
    assert cycle[..|cycle| - 1] == path[start..];
    forall i | 0 <= i < |cycle| - 1
      ensures cycle[i + 1] in Deps(g, cycle[i])
    {
      assert cycle[i] == path[start + i];
      if i + 1 < |path| - start {
        assert path[start + i + 1] in Deps(g, path[start + i]);
      }
    }
    forall i, j | 0 <= i < j < |path[start..]|
      ensures path[start..][i] != path[start..][j]
    {
      assert path[start + i] != path[start + j];
    }
  }

  /** The state of the search; `finished`, `rank` and `pushes` record what it did. */
  ghost predicate Search(g: Graph, le: (string, string) -> bool, universe: set<File>, visiting: set<File>,
                         visited: set<File>, path: seq<File>, m: map<string, seq<File>>, keys: seq<string>,
                         finished: seq<File>, rank: map<File, nat>, pushes: nat) {
    && ClosedUnder(g, universe) && visiting <= universe && visited <= universe && visiting !! visited
    && OnPath(g, path, visiting) && Finished(g, finished, visited, m) && AllFilesNamed(g) && AllKeyed(g, le, m)
    && Ranked(rank, pushes, visiting + visited, path, m) && Remembers(keys, m)
  }

  lemma SearchOnPath(g: Graph, le: (string, string) -> bool, universe: set<File>, visiting: set<File>,
                     visited: set<File>, path: seq<File>, m: map<string, seq<File>>, keys: seq<string>,
                     finished: seq<File>, rank: map<File, nat>, pushes: nat, file: File)
    requires Search(g, le, universe, visiting, visited, path, m, keys, finished, rank, pushes) && file in visiting
    ensures path != [] && file in path && (forall k :: k in m <==> k in keys)
  {
  }

  /** Storing the cycle that the path closes keeps the state in order, and all that was recorded. */
  lemma StoreKeeps(g: Graph, le: (string, string) -> bool, universe: set<File>, visiting: set<File>,
                   visited: set<File>, path: seq<File>, m: map<string, seq<File>>, keys: seq<string>,
                   finished: seq<File>, rank: map<File, nat>, pushes: nat, start: nat)
    requires Search(g, le, universe, visiting, visited, path, m, keys, finished, rank, pushes)
    requires start < |path| && path[start] in Deps(g, path[|path| - 1])
    ensures var c := path[start..] + [path[start]];
      && IsCycle(g, c) && WithoutTail(c) != []
      && var key := CanonicalCycle(c, le);
         var m', keys' := m[key := c], if key in m then keys else keys + [key];
         && Search(g, le, universe, visiting, visited, path, m', keys', finished, rank, pushes)
         && Grown(m, m') && Covered(m', path[|path| - 1], path[start])
  {
    var c := path[start..] + [path[start]];
    BackEdge(g, path, visiting, start);
    CycleHasBody(g, c);
    var key := CanonicalCycle(c, le);
    hide *;
    hide CanonicalCycle, WithoutTail;
    SearchParts(g, le, universe, visiting, visited, path, m, keys, finished, rank, pushes);
    SuffixClimbs(path, rank, start);
    assert KeyedCycle(g, le, key, c) by { KeyedBy(g, le, c); }
    StoreGrows(g, le, m, key, c, rank);
    StillFinished(g, finished, visited, m, m[key := c]);
    Remember(keys, m, key, c);
    CoveredByLast(m[key := c], key, path, start, path[start]);
    SearchMoved(g, le, universe, visiting, visited, path, m, keys, finished, rank, pushes, m[key := c],
                if key in m then keys else keys + [key]);
  }

  lemma KeyedBy(g: Graph, le: (string, string) -> bool, c: seq<File>)
    requires IsCycle(g, c) && WithoutTail(c) != []
    ensures KeyedCycle(g, le, CanonicalCycle(c, le), c)
  {
  }

  lemma SearchParts(g: Graph, le: (string, string) -> bool, universe: set<File>, visiting: set<File>,
                    visited: set<File>, path: seq<File>, m: map<string, seq<File>>, keys: seq<string>,
                    finished: seq<File>, rank: map<File, nat>, pushes: nat)
    requires Search(g, le, universe, visiting, visited, path, m, keys, finished, rank, pushes)
    ensures AllFilesNamed(g) && AllKeyed(g, le, m) && Finished(g, finished, visited, m) && Remembers(keys, m)
    ensures Climbs(path, rank) && AllClimb(m, rank)
  {
  }

  lemma SearchMoved(g: Graph, le: (string, string) -> bool, universe: set<File>, visiting: set<File>,
                    visited: set<File>, path: seq<File>, m: map<string, seq<File>>, keys: seq<string>,
                    finished: seq<File>, rank: map<File, nat>, pushes: nat, m': map<string, seq<File>>,
                    keys': seq<string>)
    requires Search(g, le, universe, visiting, visited, path, m, keys, finished, rank, pushes)
    requires Finished(g, finished, visited, m') && AllKeyed(g, le, m') && AllClimb(m', rank) && Remembers(keys', m')
    ensures Search(g, le, universe, visiting, visited, path, m', keys', finished, rank, pushes)
  {
    hide OnPath, Finished, AllKeyed, AllClimb, Remembers, Climbs, ClosedUnder, AllFilesNamed;
  }

  class CycleFinder {
    const graph: Graph
    const le: (string, string) -> bool
    ghost const universe: set<File>
    var visiting: set<File>
    var visited: set<File>
    var path: seq<File>
    // A map that remembers the order in which its keys were first set.
    var cyclesByKey: map<string, seq<File>>
    var keys: seq<string>
    ghost var finished: seq<File>
    ghost var rank: map<File, nat>
    ghost var pushes: nat

    constructor (graph: Graph, le: (string, string) -> bool)
      requires AllFilesNamed(graph)
      ensures this.graph == graph && this.le == le && Valid()
      ensures visiting == {} && visited == {} && path == [] && cyclesByKey == map[] && keys == []
      ensures graph.Keys <= universe
    {
      this.graph, this.le := graph, le;
      universe := graph.Keys + set f, d | f in graph.Keys && d in graph[f] :: d;
      visiting, visited, path, cyclesByKey, keys := {}, {}, [], map[], [];
      finished, rank, pushes := [], map[], 0;
    }

    ghost predicate Valid()
      reads this
    {
      Search(graph, le, universe, visiting, visited, path, cyclesByKey, keys, finished, rank, pushes)
    }

    /** The file is on the path, so the path from there on is a cycle; it is stored under its key. */
    method Record(file: File) returns (ghost cycle: seq<File>)
      requires Valid() && file in visiting && path != [] && file in Deps(graph, path[|path| - 1])
      modifies `cyclesByKey, `keys
      ensures Valid() && IsCycle(graph, cycle) && WithoutTail(cycle) != []
      ensures exists start :: 0 <= start < |path| && path[start] == file && cycle == path[start..] + [file]
      ensures var key := CanonicalCycle(cycle, le);
        && cyclesByKey == old(cyclesByKey)[key := cycle] && Grown(old(cyclesByKey), cyclesByKey)
        && keys == old(keys) + (if key in old(keys) then [] else [key])
      ensures Covered(cyclesByKey, path[|path| - 1], file)
    {
      hide Search, IsCycle, CanonicalCycle, Deps, Covered, WithoutTail, Grown;
      SearchOnPath(graph, le, universe, visiting, visited, path, cyclesByKey, keys, finished, rank, pushes, file);
      var start := 0;
      while path[start] != file
        invariant 0 <= start < |path| && file in path[start..]
        decreases |path| - start
      {
        assert path[start..] == [path[start]] + path[start + 1..];
        start := start + 1;
      }
      StoreKeeps(graph, le, universe, visiting, visited, path, cyclesByKey, keys, finished, rank, pushes, start);
      var found := path[start..] + [file];
      cycle := found;
      var key := CanonicalCycle(found, le);
      if key !in cyclesByKey {
        keys := keys + [key];
      }
      cyclesByKey := cyclesByKey[key := found];
    }

    method Visit(file: File)
      requires Valid() && file in universe
      requires path != [] ==> file in Deps(graph, path[|path| - 1])
      modifies this
      ensures Valid() && visiting == old(visiting) && path == old(path) && old(visited) <= visited
      ensures Grown(old(cyclesByKey), cyclesByKey)
      ensures file in visited || (file in visiting && path != [] && Covered(cyclesByKey, path[|path| - 1], file))
      decreases universe - visiting - visited
    {
      hide AllKeyed, OnPath, Finished, Covered, AllFilesNamed, Ranked, Remembers,
           ClosedUnder, Deps, Walk;
      if file in visiting {
        VisitingOnPath(graph, path, visiting, file);
        ghost var _ := Record(file);
        return;
      }
      if file in visited { return; }
      Push(graph, path, visiting, file);
      PushRanked(rank, pushes, visiting + visited, path, cyclesByKey, file);
      assert visiting + visited + {file} == (visiting + {file}) + visited;
      rank, pushes := rank[file := pushes], pushes + 1;
      visiting := visiting + {file};
      path := path + [file];
      var deps := Deps(graph, file);
      assert forall i :: 0 <= i < |deps| ==> deps[i] in universe && deps[i] in deps by {
        DepsWithin(graph, universe, file);
      }
      for i := 0 to |deps|
        invariant Valid() && visiting == old(visiting) + {file} && path == old(path) + [file]
        invariant old(visited) <= visited && Grown(old(cyclesByKey), cyclesByKey)
        invariant forall j :: 0 <= j < i ==> deps[j] in visited || Covered(cyclesByKey, file, deps[j])
      {
        assert universe - visiting - visited < old(universe - visiting - visited) by {
          assert file in old(universe - visiting - visited);
        }
        ghost var before := cyclesByKey;
        Visit(deps[i]);
        CoversMore(before, cyclesByKey);
      }
      Leave(file, old(path), old(visiting));
    }

    method Leave(file: File, ghost above: seq<File>, ghost waiting: set<File>)
      requires Valid() && path == above + [file] && visiting == waiting + {file}
      requires file !in waiting && OnPath(graph, above, waiting)
      requires forall d :: d in Deps(graph, file) ==> d in visited || Covered(cyclesByKey, file, d)
      modifies `visiting, `visited, `path, `finished
      ensures Valid() && visiting == waiting && path == above && visited == old(visited) + {file}
    {
      hide AllKeyed, OnPath, Finished, AllFilesNamed, Covered, Ranked, Remembers;
      PopRanked(rank, pushes, visiting + visited, path, cyclesByKey);
      path := path[..|path| - 1];
      assert path == above;
      visiting := visiting - {file};
      assert visiting == waiting;
      Finish(graph, finished, visited, cyclesByKey, file);
      visited := visited + {file};
      finished := finished + [file];
      assert visiting + visited == old(visiting + visited);
    }
  }

  lemma Remember(keys: seq<string>, m: map<string, seq<File>>, key: string, cycle: seq<File>)
    requires Remembers(keys, m)
    ensures key in m <==> key in keys
    ensures Remembers(if key in m then keys else keys + [key], m[key := cycle])
  {
  }

  lemma DepsWithin(g: Graph, s: set<File>, file: File)
    requires ClosedUnder(g, s) && file in s
    ensures forall i :: 0 <= i < |Deps(g, file)| ==> Deps(g, file)[i] in s
  {
  }

  lemma CoveredByLast(m: map<string, seq<File>>, key: string, path: seq<File>, start: nat, file: File)
    requires start < |path| && key in m && m[key] == path[start..] + [file]
    ensures Covered(m, path[|path| - 1], file)
  {
    LastStep(path[start..], file);
  }

  lemma CycleHasBody(g: Graph, c: seq<File>)
    requires IsCycle(g, c)
    ensures WithoutTail(c) != []
  {
  }

  lemma VisitingOnPath(g: Graph, path: seq<File>, visiting: set<File>, file: File)
    requires OnPath(g, path, visiting) && file in visiting
    ensures path != [] && file in path
  {
  }

  ghost predicate Separate(c: seq<File>, d: seq<File>) {
    c != [] && d != [] && !IsRotation(WithoutTail(c), WithoutTail(d))
  }

  /** No two listed cycles are rotations of each other. */
  ghost predicate NoRotations(cycles: seq<seq<File>>) {
    forall i, j :: 0 <= i < j < |cycles| ==> Separate(cycles[i], cycles[j])
  }

  /** The walk goes through a dependency of a listed cycle. */
  ghost predicate Meets(c: seq<File>, cycles: seq<seq<File>>) {
    exists i: nat, j: nat :: i + 1 < |c| && j < |cycles| && EdgeIn(cycles[j], c[i], c[i + 1])
  }

  ghost predicate AllFilesNamed(g: Graph) {
    forall f, d :: f in g && d in g[f] ==> Named(d)
  }

  lemma CycleFilesNamed(g: Graph, c: seq<File>)
    requires AllFilesNamed(g) && IsCycle(g, c)
    ensures WithoutTail(c) != [] && AllNamed(WithoutTail(c)) && c == Closed(WithoutTail(c))
  {
    var w := WithoutTail(c);
    forall f | f in w
      ensures Named(f)
    {
      var i :| 0 <= i < |w| && w[i] == f;
      var k := if i == 0 then |c| - 1 else i;
      assert c[k] == f && c[k - 1 + 1] in Deps(g, c[k - 1]);
    }
  }

  /** `units` orders the files to visit, `le` the written cycles. */
  method FindCycles(graph: Graph, units: (File, File) -> bool, le: (string, string) -> bool)
    returns (cycles: seq<seq<File>>)
    requires AllFilesNamed(graph)
    ensures cycles != [] <==> HasCycle(graph)
    ensures forall c :: c in cycles ==> IsCycle(graph, c)
    ensures forall c :: ClosedWalk(graph, c) ==> Meets(c, cycles)
    ensures NoRotations(cycles)
    ensures Preorder(le) ==> InOrder(cycles, le)
  {
    hide AllKeyed, OnPath, Finished, IsCycle, Ordered, ClosedWalk, Meets, Preorder, Sorted, Climbs, AllClimb,
         NoRotations, Ranked, Remembers, AllFilesNamed;
    var finder := new CycleFinder(graph, le);
    var files := SortedKeys(graph.Keys, units);
    for i := 0 to |files|
      invariant finder.Valid() && finder.path == [] && finder.visiting == {}
      invariant forall j :: 0 <= j < i ==> files[j] in finder.visited
      invariant fresh(finder)
    {
      finder.Visit(files[i]);
    }
    RankedClimb(finder.rank, finder.pushes, finder.visiting + finder.visited, finder.path, finder.cyclesByKey);
    cycles := SortedValues(finder.cyclesByKey, finder.keys, graph, le, finder.rank);
    forall c | ClosedWalk(graph, c)
      ensures Meets(c, cycles)
    {
      AllFinished(graph, finder.finished, finder.visited, finder.cyclesByKey, cycles, c);
    }
    ListedIff(graph, cycles);
  }

  lemma AllFinished(g: Graph, finished: seq<File>, visited: set<File>, m: map<string, seq<File>>,
                    cycles: seq<seq<File>>, c: seq<File>)
    requires Finished(g, finished, visited, m) && (forall f :: f in g ==> f in visited) && ClosedWalk(g, c)
    requires forall k :: k in m ==> m[k] in cycles
    ensures Meets(c, cycles)
  {
    hide EdgeIn, Ordered, ClosedWalk;
    WalkMeetsCycle(g, finished, m, c);
    var i: nat :| StepMet(c, i, m);
    var k :| k in m && EdgeIn(m[k], c[i], c[i + 1]);
    var j: nat :| j < |cycles| && cycles[j] == m[k];
    assert EdgeIn(cycles[j], c[i], c[i + 1]);
  }

  lemma ListedIff(g: Graph, cycles: seq<seq<File>>)
    requires forall c :: c in cycles ==> IsCycle(g, c)
    requires forall c :: ClosedWalk(g, c) ==> Meets(c, cycles)
    ensures cycles != [] <==> HasCycle(g)
  {
    if cycles != [] {
      assert IsCycle(g, cycles[0]);
    }
  }

  ghost predicate InOrder(cycles: seq<seq<File>>, le: (string, string) -> bool) {
    forall i, j :: 0 <= i < j < |cycles| ==> le(Join(cycles[i]), Join(cycles[j]))
  }

  function ByWriting(le: (string, string) -> bool): (seq<File>, seq<File>) -> bool {
    (c: seq<File>, d: seq<File>) => le(Join(c), Join(d))
  }

  /** The values of the map in the order in which their keys were first set. */
  function Values(m: map<string, seq<File>>, keys: seq<string>): (r: seq<seq<File>>)
    requires forall k :: k in keys ==> k in m
    ensures |r| == |keys| && forall i :: 0 <= i < |r| ==> keys[i] in m && r[i] == m[keys[i]]
  {
    seq(|keys|, i requires 0 <= i < |keys| => assert keys[i] in keys; m[keys[i]])
  }

  /** The recorded cycles, sorted by how they are written; where writings tie, in the order they were recorded. */
  method SortedValues(m: map<string, seq<File>>, keys: seq<string>, ghost g: Graph, le: (string, string) -> bool,
                      ghost rank: map<File, nat>)
    returns (cycles: seq<seq<File>>)
    requires AllKeyed(g, le, m) && AllFilesNamed(g) && AllClimb(m, rank)
    requires Remembers(keys, m)
    ensures cycles == Sort(Values(m, keys), ByWriting(le))
    ensures forall c :: c in cycles ==> IsCycle(g, c)
    ensures forall k :: k in m ==> m[k] in cycles
    ensures NoRotations(cycles)
    ensures Preorder(le) ==> InOrder(cycles, le)
  {
    hide IsCycle, NoRotations, Climbs, AllFilesNamed, Join, InOrder, Preorder, Sorted;
    var values := Values(m, keys);
    cycles := Sort(values, ByWriting(le));
    SortPermutes(values, ByWriting(le));
    forall k | k in m
      ensures m[k] in values
    {
      var i :| 0 <= i < |keys| && keys[i] == k;
      assert values[i] == m[k];
    }
    forall c | c in values
      ensures IsCycle(g, c)
    {
      var i :| 0 <= i < |values| && values[i] == c;
      assert KeyedCycle(g, le, keys[i], m[keys[i]]);
    }
    SortApart(g, le, m, keys, rank);
    if Preorder(le) {
      SortedByWriting(values, le);
    }
  }

  lemma SortedByWriting(values: seq<seq<File>>, le: (string, string) -> bool)
    requires Preorder(le)
    ensures InOrder(Sort(values, ByWriting(le)), le)
  {
    hide Join;
    forall a, b
      ensures ByWriting(le)(a, b) || ByWriting(le)(b, a)
    {
      assert le(Join(a), Join(b)) || le(Join(b), Join(a));
    }
    forall a, b, c | ByWriting(le)(a, b) && ByWriting(le)(b, c)
      ensures ByWriting(le)(a, c)
    {
      assert le(Join(a), Join(b)) && le(Join(b), Join(c));
    }
    SortSorts(values, ByWriting(le));
  }

  /** Under different keys are different cycles, and no two cycles in push order are rotations of each other. */
  lemma KeysSeparate(g: Graph, le: (string, string) -> bool, m: map<string, seq<File>>, k: string, l: string,
                     rank: map<File, nat>)
    requires AllKeyed(g, le, m) && AllFilesNamed(g) && AllClimb(m, rank) && k in m && l in m && k != l
    ensures m[k] != m[l] && Separate(m[k], m[l])
  {
    hide IsCycle, CanonicalCycle, WithoutTail, IsRotation, AllFilesNamed, Climbs;
    assert KeyedCycle(g, le, k, m[k]) && KeyedCycle(g, le, l, m[l]);
    CycleFilesNamed(g, m[k]);
    CycleFilesNamed(g, m[l]);
    if IsRotation(WithoutTail(m[k]), WithoutTail(m[l])) {
      ClimbingRotation(WithoutTail(m[k]), WithoutTail(m[l]), rank);
    }
  }

  lemma SortApart(g: Graph, le: (string, string) -> bool, m: map<string, seq<File>>, keys: seq<string>,
                  rank: map<File, nat>)
    requires AllKeyed(g, le, m) && AllFilesNamed(g) && AllClimb(m, rank)
    requires Distinct(keys) && forall k :: k in keys ==> k in m
    ensures NoRotations(Sort(Values(m, keys), ByWriting(le)))
  {
    hide AllKeyed, AllFilesNamed, AllClimb, Separate;
    var values := Values(m, keys);
    var cycles := Sort(values, ByWriting(le));
    forall i, j | 0 <= i < j < |values|
      ensures values[i] != values[j]
    {
      KeysSeparate(g, le, m, keys[i], keys[j], rank);
    }
    SortDistinct(values, ByWriting(le));
    SortPermutes(values, ByWriting(le));
    hide Sort, Values;
    forall i, j | 0 <= i < j < |cycles|
      ensures Separate(cycles[i], cycles[j])
    {
      assert cycles[i] in cycles && cycles[j] in cycles;
      var p :| 0 <= p < |values| && values[p] == cycles[i];
      var q :| 0 <= q < |values| && values[q] == cycles[j];
      assert p != q;
      KeysSeparate(g, le, m, keys[p], keys[q], rank);
    }
  }

  /** A closed walk of dependencies. */
  ghost predicate DependencyCycle(deps: File -> seq<File>, c: seq<File>) {
    |c| >= 2 && Path(deps, c, c[0], c[0])
  }

  ghost predicate CycleFrom(deps: File -> seq<File>, c: seq<File>, from: set<File>) {
    DependencyCycle(deps, c) && c[0] in from
  }

  ghost predicate ReachableCycle(deps: File -> seq<File>, entrypoint: File, c: seq<File>) {
    DependencyCycle(deps, c) && Reachable(deps, entrypoint, c[0])
  }

  ghost predicate GraphOf(g: Graph, deps: File -> seq<File>) {
    forall f :: f in g ==> g[f] == deps(f) && forall d :: d in g[f] ==> d in g
  }

  lemma {:induction false} StaysInGraph(g: Graph, deps: File -> seq<File>, c: seq<File>, i: nat)
    requires GraphOf(g, deps) && i < |c| && c[0] in g && Path(deps, c, c[0], c[|c| - 1])
    ensures c[i] in g
  {
    if i > 0 {
      StaysInGraph(g, deps, c, i - 1);
      assert c[i - 1 + 1] in deps(c[i - 1]);
    }
  }

  lemma WalkInGraph(g: Graph, deps: File -> seq<File>, c: seq<File>)
    requires GraphOf(g, deps) && DependencyCycle(deps, c) && c[0] in g
    ensures ClosedWalk(g, c)
  {
    forall i | 0 <= i < |c| - 1
      ensures c[i + 1] in Deps(g, c[i])
    {
      StaysInGraph(g, deps, c, i);
    }
  }

  /** The graph has a cycle exactly when some reachable file lies on a closed walk of dependencies. */
  lemma CyclesOfGraph(g: Graph, deps: File -> seq<File>)
    requires GraphOf(g, deps)
    ensures HasCycle(g) <==> exists c :: CycleFrom(deps, c, g.Keys)
  {
    if HasCycle(g) {
      var c :| ClosedWalk(g, c);
      assert c[0 + 1] in Deps(g, c[0]);
      assert forall i :: 0 <= i < |c| - 1 ==> c[i + 1] in Deps(g, c[i]);
      assert CycleFrom(deps, c, g.Keys);
    }
    if exists c :: CycleFrom(deps, c, g.Keys) {
      var c :| CycleFrom(deps, c, g.Keys);
      WalkInGraph(g, deps, c);
    }
  }

  lemma SameCycles(g: Graph, deps: File -> seq<File>, entrypoint: File)
    requires forall f :: f in g <==> Reachable(deps, entrypoint, f)
    ensures (exists c :: CycleFrom(deps, c, g.Keys)) <==> (exists c :: ReachableCycle(deps, entrypoint, c))
  {
    hide Path, Reachable;
    if exists c :: CycleFrom(deps, c, g.Keys) {
      var c :| CycleFrom(deps, c, g.Keys);
      assert c[0] in g;
      assert ReachableCycle(deps, entrypoint, c);
    }
    if exists c :: ReachableCycle(deps, entrypoint, c) {
      var c :| ReachableCycle(deps, entrypoint, c);
      assert c[0] in g;
      assert CycleFrom(deps, c, g.Keys);
    }
  }

  /**
   The gate: it reports a cycle exactly when one can be reached from the entrypoint, and whoever goes round
   in dependencies passes through one of the dependencies reported.
   */
  method CheckCircularDependencies(entrypoint: File, deps: File -> seq<File>, units: (File, File) -> bool,
                                   le: (string, string) -> bool, ghost universe: set<File>)
    returns (fileCount: nat, cycles: seq<seq<File>>)
    requires entrypoint in universe && forall f, d :: f in universe && d in deps(f) ==> d in universe
    requires forall f :: Named(f) || !Reachable(deps, entrypoint, f)
    ensures cycles != [] <==> exists c :: ReachableCycle(deps, entrypoint, c)
    ensures forall c :: c in cycles ==> DependencyCycle(deps, c)
    ensures forall c :: ReachableCycle(deps, entrypoint, c) ==> Meets(c, cycles)
    ensures NoRotations(cycles)
    ensures Preorder(le) ==> InOrder(cycles, le)
    ensures exists s: set<File> :: fileCount == |s| && forall f :: f in s <==> Reachable(deps, entrypoint, f)
  {
    hide DependencyCycle, Reachable, NoRotations, ReachableCycle, CycleFrom, Preorder, Meets;
    var graph := BuildGraph(entrypoint, deps, universe);
    assert AllFilesNamed(graph);
    cycles := FindCycles(graph, units, le);
    fileCount := |graph.Keys|;
    CyclesOfGraph(graph, deps);
    SameCycles(graph, deps, entrypoint);
    ReportedAreCycles(graph, deps, cycles);
    forall c | ReachableCycle(deps, entrypoint, c)
      ensures Meets(c, cycles)
    {
      ReachableIsClosed(graph, deps, entrypoint, c);
    }
  }

  lemma ReachableIsClosed(g: Graph, deps: File -> seq<File>, entrypoint: File, c: seq<File>)
    requires GraphOf(g, deps) && ReachableCycle(deps, entrypoint, c)
    requires forall f :: f in g <==> Reachable(deps, entrypoint, f)
    ensures ClosedWalk(g, c)
  {
    hide Reachable;
    assert c[0] in g;
    WalkInGraph(g, deps, c);
  }

  lemma ReportedAreCycles(g: Graph, deps: File -> seq<File>, cycles: seq<seq<File>>)
    requires GraphOf(g, deps) && forall c :: c in cycles ==> IsCycle(g, c)
    ensures forall c :: c in cycles ==> DependencyCycle(deps, c)
  {
    forall c | c in cycles
      ensures DependencyCycle(deps, c)
    {
      assert IsCycle(g, c);
      assert forall i :: 0 <= i < |c| - 1 ==> c[i + 1] in Deps(g, c[i]);
    }
  }
}
