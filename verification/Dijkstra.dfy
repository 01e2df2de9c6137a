/** The shortest-path routine of the CPU-bound benchmark: `min_distance` and `dijkstra`.

Distances are integers with the constant `INF` for "no edge" and "not reached". The result is stated over all paths:
every path weighs at least `dist[v]`, and a `dist[v]` below `INF` is the weight of some path.
 */
module Dijkstra {

  const INF := 1000000
  const INT_MAX := 0x7FFF_FFFF

  /** A square matrix of weights small enough that adding one to a finite distance stays inside a C `int`. */
  ghost predicate IsGraph(g: seq<seq<int>>) {
    && (forall u :: 0 <= u < |g| ==> |g[u]| == |g|)
    && (forall u, v :: 0 <= u < |g| && 0 <= v < |g| ==> 0 <= g[u][v] <= INT_MAX - INF)
  }

  ghost predicate IsEdge(g: seq<seq<int>>, u: nat, v: nat)
    requires IsGraph(g)
  {
    u < |g| && v < |g| && g[u][v] != INF
  }

  ghost predicate StepAt(g: seq<seq<int>>, p: seq<nat>, i: nat)
    requires IsGraph(g) && i + 1 < |p|
  {
    IsEdge(g, p[i], p[i+1])
  }

  /** `p` lists the vertices of a path, first to last. */
  ghost predicate IsPath(g: seq<seq<int>>, p: seq<nat>)
    requires IsGraph(g)
  {
    && p != []
    && (forall i :: 0 <= i < |p| ==> p[i] < |g|)
    && (forall i: nat :: i < |p| - 1 ==> StepAt(g, p, i))
  }

  ghost predicate Connects(g: seq<seq<int>>, src: nat, v: nat, p: seq<nat>)
    requires IsGraph(g)
  {
    IsPath(g, p) && p[0] == src && p[|p|-1] == v
  }

  lemma DropLast(g: seq<seq<int>>, p: seq<nat>)
    requires IsGraph(g) && IsPath(g, p) && |p| > 1
    ensures IsPath(g, p[..|p|-1]) && IsEdge(g, p[|p|-2], p[|p|-1])
  {
    assert StepAt(g, p, |p|-2);
    var q := p[..|p|-1];
    forall i: nat | i < |q| - 1
      ensures StepAt(g, q, i)
    {
      assert StepAt(g, p, i);
    }
  }

  ghost function Weight(g: seq<seq<int>>, p: seq<nat>): (w: nat)
    requires IsGraph(g) && IsPath(g, p)
  {
    if |p| == 1 then 0
    else
      DropLast(g, p);
      Weight(g, p[..|p|-1]) + g[p[|p|-2]][p[|p|-1]]
  }

  ghost predicate HasPathOfWeight(g: seq<seq<int>>, src: nat, v: nat, d: int)
    requires IsGraph(g)
  {
    exists p :: Connects(g, src, v, p) && Weight(g, p) == d
  }

  /** `d` is the least weight of a path from `src` to `v`, cut off at `INF`. */
  ghost predicate IsDistance(g: seq<seq<int>>, src: nat, v: nat, d: int)
    requires IsGraph(g)
  {
    && d <= INF
    && (forall p :: Connects(g, src, v, p) ==> d <= Weight(g, p))
    && (d < INF ==> HasPathOfWeight(g, src, v, d))
  }

  // ---------- what the rounds keep ----------

  /** Every finite entry is the weight of a path. */
  ghost predicate Witnessed(g: seq<seq<int>>, src: nat, dist: seq<int>)
    requires IsGraph(g) && |dist| == |g|
  {
    forall v: nat :: v < |g| ==> 0 <= dist[v] <= INF && (dist[v] < INF ==> HasPathOfWeight(g, src, v, dist[v]))
  }

  /** The edge from `u` to `v` cannot improve `dist[v]`. */
  ghost predicate Relaxed(g: seq<seq<int>>, dist: seq<int>, u: nat, v: nat)
    requires IsGraph(g) && |dist| == |g| && u < |g| && v < |g|
  {
    IsEdge(g, u, v) && dist[u] < INF ==> dist[v] <= dist[u] + g[u][v]
  }

  ghost predicate Settled(g: seq<seq<int>>, dist: seq<int>, done: set<nat>)
    requires IsGraph(g) && |dist| == |g|
  {
    && (forall u :: u in done ==> u < |g|)
    && (forall u, v: nat :: u in done && v < |g| ==> Relaxed(g, dist, u, v))
    && (forall u, v: nat :: u in done && v < |g| && v !in done ==> dist[u] <= dist[v])
  }

  /** The entry of `v` after the edges out of `u` have been tried, the vertices in `done` left alone. */
  ghost function AfterRelax(g: seq<seq<int>>, dist: seq<int>, done: set<nat>, u: nat, v: nat): int
    requires IsGraph(g) && |dist| == |g| && u < |g| && v < |g|
  {
    if v !in done && IsEdge(g, u, v) && dist[u] != INF && dist[u] + g[u][v] < dist[v] then dist[u] + g[u][v]
        else dist[v]
  }

  lemma ExtendPath(g: seq<seq<int>>, src: nat, u: nat, v: nat, p: seq<nat>)
    requires IsGraph(g) && Connects(g, src, u, p) && IsEdge(g, u, v)
    ensures Connects(g, src, v, p + [v]) && Weight(g, p + [v]) == Weight(g, p) + g[u][v]
  {
    var q := p + [v];
    forall i: nat | i < |q| - 1
      ensures StepAt(g, q, i)
    {
      if i < |p| - 1 {
        assert StepAt(g, p, i);
      }
    }
    assert q[..|p|] == p;
  }

  /** Once all but one vertex are settled, no path beats the table, the last vertex's included. */
  lemma {:induction false} NoPathIsShorter(g: seq<seq<int>>, src: nat, dist: seq<int>, done: set<nat>, last: nat,
                                           p: seq<nat>)
    requires IsGraph(g) && |dist| == |g| && Witnessed(g, src, dist) && Settled(g, dist, done)
    requires forall v: nat :: v < |g| && v !in done ==> v == last
    requires src < |g| && dist[src] == 0
    requires IsPath(g, p) && p[0] == src
    ensures dist[p[|p|-1]] <= Weight(g, p)
    decreases |p|
  {
    if |p| > 1 {
      var q, u, v := p[..|p|-1], p[|p|-2], p[|p|-1];
      DropLast(g, p);
      NoPathIsShorter(g, src, dist, done, last, q);
      if u in done && dist[u] < INF {
        assert Relaxed(g, dist, u, v);
      }
    }
  }

  lemma {:induction false} SubsetOfRange(s: set<nat>, n: nat)
    requires forall x :: x in s ==> x < n
    ensures |s| <= n
  {
    if n > 0 {
      SubsetOfRange(s - {n - 1}, n - 1);
    } else {
      assert s == {};
    }
  }

  lemma {:induction false} SomeVertexIsLeft(done: set<nat>, n: nat) returns (x: nat)
    requires |done| < n && forall u :: u in done ==> u < n
    ensures x < n && x !in done
  {
    if n - 1 in done {
      x := SomeVertexIsLeft(done - {n - 1}, n - 1);
    } else {
      x := n - 1;
    }
  }

  lemma OneVertexIsLeft(done: set<nat>, n: nat, x: nat, y: nat)
    requires n > 0 && |done| == n - 1 && forall u :: u in done ==> u < n
    requires x < n && x !in done && y < n && y !in done
    ensures x == y
  {
    var more := done + {x};
    if y !in more {
      assert |more + {y}| == |done| + 2;
      SubsetOfRange(more + {y}, n);
    }
  }

  lemma WitnessedGrows(g: seq<seq<int>>, src: nat, before: seq<int>, after: seq<int>, done: set<nat>, u: nat)
    requires IsGraph(g) && |before| == |after| == |g| && u < |g|
    requires Witnessed(g, src, before)
    requires forall v: nat :: v < |g| ==> after[v] == AfterRelax(g, before, done, u, v)
    ensures Witnessed(g, src, after)
  {
    forall v: nat | v < |g|
      ensures 0 <= after[v] <= INF && (after[v] < INF ==> HasPathOfWeight(g, src, v, after[v]))
    {
      if after[v] != before[v] {
        var p :| Connects(g, src, u, p) && Weight(g, p) == before[u];
        ExtendPath(g, src, u, v, p);
      }
    }
  }

  lemma SettledGrows(g: seq<seq<int>>, before: seq<int>, after: seq<int>, done: set<nat>, u: nat)
    requires IsGraph(g) && |before| == |after| == |g| && u < |g| && u !in done
    requires Settled(g, before, done)
    requires forall v: nat :: v < |g| && v !in done ==> before[u] <= before[v] <= INF
    requires forall v: nat :: v < |g| ==> after[v] == AfterRelax(g, before, done + {u}, u, v)
    ensures Settled(g, after, done + {u})
  {
    forall x, v: nat | x in done + {u} && v < |g|
      ensures Relaxed(g, after, x, v)
    {
      if x in done {
        assert Relaxed(g, before, x, v);
      } else if v in done {
        assert before[v] <= before[u];
      }
    }
  }

  // ---------- the routines ----------

  /** The unvisited vertex with the least distance, the last of equals; -1 when none is within `INF`. */
  method MinDistance(dist: array<int>, visited: array<bool>, vertices: nat) returns (minIndex: int)
    requires vertices <= dist.Length && vertices <= visited.Length
    ensures minIndex == -1 <==> forall v :: 0 <= v < vertices && !visited[v] ==> dist[v] > INF
    ensures minIndex != -1 ==> 0 <= minIndex < vertices && !visited[minIndex] && dist[minIndex] <= INF
    ensures minIndex != -1 ==> forall v :: 0 <= v < vertices && !visited[v] ==>
                                 dist[minIndex] <= dist[v] && (v > minIndex ==> dist[minIndex] < dist[v])
  {
    var min := INF;
    minIndex := -1;
    for v := 0 to vertices
      invariant minIndex == -1 ==> min == INF && forall x :: 0 <= x < v && !visited[x] ==> dist[x] > INF
      invariant minIndex != -1 ==> 0 <= minIndex < v && !visited[minIndex] && min == dist[minIndex] <= INF
      invariant minIndex != -1 ==> forall x :: 0 <= x < v && !visited[x] ==>
                min <= dist[x] && (x > minIndex ==> min < dist[x])
    {
      if !visited[v] && dist[v] <= min {
        min := dist[v];
        minIndex := v;
      }
    }
  }

  /** The inner loop of a round. */
  method Relax(graph: seq<seq<int>>, dist: array<int>, visited: array<bool>, u: nat, ghost done: set<nat>)
    requires IsGraph(graph) && |graph| == dist.Length == visited.Length && u in done && u < |graph|
    requires forall v: nat :: v < |graph| ==> (visited[v] <==> v in done)
    modifies dist
    ensures forall v: nat :: v < |graph| ==> dist[v] == AfterRelax(graph, old(dist[..]), done, u, v)
  {
    ghost var before := dist[..];
    for v := 0 to |graph|
      invariant forall x: nat :: x < |graph| ==>
                dist[x] == if x < v then AfterRelax(graph, before, done, u, x) else before[x]
    {
      if !visited[v] && graph[u][v] != INF && dist[u] != INF && dist[u] + graph[u][v] < dist[v] {
        dist[v] := dist[u] + graph[u][v];
      }
    }
  }

  /** `dijkstra`: when it returns, only `last` was never visited, and every entry is a distance. */
  method Solve(graph: seq<seq<int>>, dist: array<int>, visited: array<bool>, src: nat) returns (ghost last: nat)
    requires IsGraph(graph) && |graph| == dist.Length == visited.Length && src < |graph|
    modifies dist, visited
    ensures forall v: nat :: v < |graph| ==> IsDistance(graph, src, v, dist[v])
    ensures last < |graph| && forall v: nat :: v < |graph| ==> (visited[v] <==> v != last)
  {
    var vertices := |graph|;
    for i := 0 to vertices
      invariant forall v :: 0 <= v < i ==> dist[v] == INF && !visited[v]
    {
      dist[i] := INF;
      visited[i] := false;
    }
    dist[src] := 0;

    ghost var done: set<nat> := {};
    assert Connects(graph, src, src, [src]) && Weight(graph, [src]) == 0;
    assert InRounds(graph, src, dist[..], done);
    hide InRounds, AfterRelax, IsDistance;
    for count := 0 to vertices - 1
      invariant |done| == count && forall v: nat :: v < vertices ==> (visited[v] <==> v in done)
      invariant InRounds(graph, src, dist[..], done)
    {
      ghost var before := dist[..];
      InRange(graph, src, before, done);
      ghost var left := SomeVertexIsLeft(done, vertices);
      assert !visited[left] && before[left] <= INF;
      var u := MinDistance(dist, visited, vertices);
      assert forall v: nat :: v < vertices && v !in done ==> before[u] <= before[v] <= INF;
      visited[u] := true;
      Relax(graph, dist, visited, u, done + {u});
      RoundKeeps(graph, src, before, dist[..], done, u);
      done := done + {u};
    }

    last := SomeVertexIsLeft(done, vertices);
    forall v: nat | v < vertices && v !in done
      ensures v == last
    {
      OneVertexIsLeft(done, vertices, v, last);
    }
    AllAreDistances(graph, src, dist[..], done, last);
  }

  /** What holds after each round of `dijkstra`. */
  ghost predicate InRounds(g: seq<seq<int>>, src: nat, dist: seq<int>, done: set<nat>)
    requires IsGraph(g) && |dist| == |g|
  {
    Witnessed(g, src, dist) && Settled(g, dist, done) && src < |g| && dist[src] == 0
  }

  lemma RoundKeeps(g: seq<seq<int>>, src: nat, before: seq<int>, after: seq<int>, done: set<nat>, u: nat)
    requires IsGraph(g) && |before| == |after| == |g| && u < |g| && u !in done && InRounds(g, src, before, done)
    requires forall v: nat :: v < |g| && v !in done ==> before[u] <= before[v] <= INF
    requires forall v: nat :: v < |g| ==> after[v] == AfterRelax(g, before, done + {u}, u, v)
    ensures InRounds(g, src, after, done + {u})
  {
    WitnessedGrows(g, src, before, after, done + {u}, u);
    SettledGrows(g, before, after, done, u);
  }

  lemma InRange(g: seq<seq<int>>, src: nat, dist: seq<int>, done: set<nat>)
    requires IsGraph(g) && |dist| == |g| && InRounds(g, src, dist, done)
    ensures (forall v: nat :: v < |g| ==> 0 <= dist[v] <= INF) && forall u :: u in done ==> u < |g|
  {
  }

  lemma AllAreDistances(g: seq<seq<int>>, src: nat, dist: seq<int>, done: set<nat>, last: nat)
    requires IsGraph(g) && |dist| == |g| && InRounds(g, src, dist, done)
    requires forall v: nat :: v < |g| && v !in done ==> v == last
    ensures forall v: nat :: v < |g| ==> IsDistance(g, src, v, dist[v])
  {
    forall v: nat, p | v < |g| && Connects(g, src, v, p)
      ensures dist[v] <= Weight(g, p)
    {
      NoPathIsShorter(g, src, dist, done, last, p);
    }
  }

  // ---------- when INF means unreachable ----------

  ghost predicate IsSimple(p: seq<nat>) {
    forall i, j :: 0 <= i < j < |p| ==> p[i] != p[j]
  }

  /** Cutting out cycles turns any path into a simple one between the same vertices. */
  lemma {:induction false} SimplePathExists(g: seq<seq<int>>, src: nat, v: nat, p: seq<nat>) returns (q: seq<nat>)
    requires IsGraph(g) && Connects(g, src, v, p)
    ensures Connects(g, src, v, q) && IsSimple(q)
    decreases |p|
  {
    if IsSimple(p) {
      q := p;
    } else {
      var i, j :| 0 <= i < j < |p| && p[i] == p[j];
      var shorter := p[..i] + p[j..];
      forall k: nat | k < |shorter| - 1
        ensures StepAt(g, shorter, k)
      {
        assert StepAt(g, p, if k < i then k else k - i + j);
      }
      q := SimplePathExists(g, src, v, shorter);
    }
  }

  /** When every simple path weighs less than `INF`, an entry is `INF` exactly at the unreachable vertices. */
  lemma InfMeansUnreachable(g: seq<seq<int>>, src: nat, v: nat, d: int)
    requires IsGraph(g) && src < |g| && v < |g|
    requires IsDistance(g, src, v, d)
    requires forall q :: IsPath(g, q) && IsSimple(q) ==> Weight(g, q) < INF
    ensures d == INF <==> !exists p :: Connects(g, src, v, p)
  {
    if p :| Connects(g, src, v, p) {
      var q := SimplePathExists(g, src, v, p);
    }
  }

  lemma {:induction false} WeightBound(g: seq<seq<int>>, p: seq<nat>, w: nat)
    requires IsGraph(g) && IsPath(g, p)
    requires forall u: nat, v: nat :: IsEdge(g, u, v) ==> g[u][v] <= w
    ensures Weight(g, p) <= (|p| - 1) * w
    decreases |p|
  {
    if |p| > 1 {
      DropLast(g, p);
      WeightBound(g, p[..|p|-1], w);
      assert (|p| - 1) * w == (|p| - 2) * w + w;
    }
  }

  lemma {:induction false} SimplePathIsShort(n: nat, p: seq<nat>)
    requires IsSimple(p) && forall i :: 0 <= i < |p| ==> p[i] < n
    ensures |p| <= n
  {
    var s := set i | 0 <= i < |p| :: p[i];
    DistinctElements(p);
    SubsetOfRange(s, n);
  }

  lemma {:induction false} DistinctElements(p: seq<nat>)
    requires IsSimple(p)
    ensures |set i | 0 <= i < |p| :: p[i]| == |p|
  {
    var s := set i | 0 <= i < |p| :: p[i];
    if p == [] {
      assert s == {};
    } else {
      var q := p[..|p|-1];
      DistinctElements(q);
      var r := set i | 0 <= i < |q| :: q[i];
      assert s == r + {p[|p|-1]} by {
        forall x | x in s ensures x in r + {p[|p|-1]} {
          var i :| 0 <= i < |p| && p[i] == x;
          if i < |q| { assert q[i] == x; }
        }
        forall x | x in r ensures x in s {
          var i :| 0 <= i < |q| && q[i] == x;
          assert p[i] == x;
        }
      }
    }
  }

  const MAX_VERTICES := 200

  /** In the benchmark's graphs (at most `MAX_VERTICES` vertices, weights at most 20) `INF` always means unreachable. */
  lemma BenchmarkInfMeansUnreachable(g: seq<seq<int>>, src: nat, v: nat, d: int)
    requires IsGraph(g) && |g| <= MAX_VERTICES && src < |g| && v < |g|
    requires forall x: nat, y: nat :: IsEdge(g, x, y) ==> g[x][y] <= 20
    requires IsDistance(g, src, v, d)
    ensures d == INF <==> !exists p :: Connects(g, src, v, p)
  {
    forall q | IsPath(g, q) && IsSimple(q)
      ensures Weight(g, q) < INF
    {
      SimplePathIsShort(|g|, q);
      WeightBound(g, q, 20);
    }
    InfMeansUnreachable(g, src, v, d);
  }
}
