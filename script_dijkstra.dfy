/** The browser's `dijkstra(graph, start)`: an O(N^2) Dijkstra over the
    adjacency matrix that fills the `dist`, `visited` and `prev` arrays. */
module ScriptDijkstra {
  import opened Distances
  import opened MatrixPaths

  /** Every recorded predecessor is a vertex with a nonzero cell towards its successor. */
  predicate PrevEdges(g: seq<seq<int>>, n: nat, prev: seq<Option<nat>>)
    requires Square(g, n) && |prev| == n
  {
    forall v :: 0 <= v < n && prev[v].Some? ==> prev[v].value < n && g[prev[v].value][v] != 0
  }

  /** The number of vertices not yet visited. */
  ghost function Unvisited(visited: seq<bool>): nat
  {
    if visited == [] then 0 else (if visited[0] then 0 else 1) + Unvisited(visited[1..])
  }

  /** The invariant of the rounds without the part about relaxed edges: the
      predecessor links have the shape of ChainOk and point at visited vertices,
      visited vertices have finite distances, and no visited vertex is farther
      than an unvisited one. */
  ghost predicate Sound(g: seq<seq<int>>, n: nat, s: nat, dist: seq<Dist>, visited: seq<bool>, prev: seq<Option<nat>>)
    requires Square(g, n)
  {
    && ChainOk(g, n, s, dist, prev) && |visited| == n
    && (forall v :: 0 <= v < n && prev[v].Some? ==> prev[v].value < n && visited[prev[v].value])
    && (forall x :: 0 <= x < n && visited[x] ==> dist[x].Fin?)
    && (forall a, b :: 0 <= a < n && 0 <= b < n && visited[a] && !visited[b] ==> Le(dist[a], dist[b]))
  }

  /** The edges from `x` to the vertices below `lo` have been relaxed. */
  ghost predicate Relaxed(g: seq<seq<int>>, n: nat, dist: seq<Dist>, x: nat, lo: nat)
    requires Square(g, n) && |dist| == n && x < n && lo <= n
  {
    forall v :: 0 <= v < lo && g[x][v] != 0 ==> Le(dist[v], Plus(dist[x], g[x][v]))
  }

  /** The invariant between two rounds. */
  ghost predicate Inv(g: seq<seq<int>>, n: nat, s: nat, dist: seq<Dist>, visited: seq<bool>, prev: seq<Option<nat>>)
    requires Square(g, n)
  {
    && Sound(g, n, s, dist, visited, prev)
    && (forall x :: 0 <= x < n && visited[x] ==> Relaxed(g, n, dist, x, n))
  }

  /** The invariant inside a round: `u` has just been visited, it is the
      farthest visited vertex, and its edges towards the vertices below `lo`
      have been relaxed. */
  ghost predicate Mid(g: seq<seq<int>>, n: nat, s: nat, dist: seq<Dist>, visited: seq<bool>, prev: seq<Option<nat>>, u: nat, lo: nat)
    requires Square(g, n)
  {
    && Sound(g, n, s, dist, visited, prev)
    && u < n && lo <= n && visited[u]
    && (forall a :: 0 <= a < n && visited[a] ==> Le(dist[a], dist[u]))
    && (forall x :: 0 <= x < n && visited[x] && x != u ==> Relaxed(g, n, dist, x, n))
    && Relaxed(g, n, dist, u, lo)
  }

  /** How the rounds can end: an unvisited vertex of finite distance is the only
      unvisited vertex. */
  ghost predicate Finished(dist: seq<Dist>, visited: seq<bool>)
    requires |dist| == |visited|
  {
    forall x, y :: 0 <= x < |visited| && 0 <= y < |visited| && !visited[x] && dist[x].Fin? && y != x ==> visited[y]
  }

  lemma {:induction false} UnvisitedAll(visited: seq<bool>)
    requires forall k :: 0 <= k < |visited| ==> !visited[k]
    ensures Unvisited(visited) == |visited|
  {
    if visited != [] {
      UnvisitedAll(visited[1..]);
    }
  }

  /** Marking an unvisited vertex visited lowers the count by one. */
  lemma {:induction false} UnvisitedMark(visited: seq<bool>, u: nat)
    requires u < |visited| && !visited[u]
    ensures Unvisited(visited[u := true]) == Unvisited(visited) - 1
  {
    if u == 0 {
      assert visited[u := true][1..] == visited[1..];
    } else {
      assert visited[u := true][1..] == visited[1..][u - 1 := true];
      UnvisitedMark(visited[1..], u - 1);
    }
  }

  lemma {:induction false} UnvisitedAtLeastOne(visited: seq<bool>, x: nat)
    requires x < |visited| && !visited[x]
    ensures Unvisited(visited) >= 1
  {
    if x > 0 {
      UnvisitedAtLeastOne(visited[1..], x - 1);
    }
  }

  /** Two distinct unvisited vertices make the count at least two. */
  lemma {:induction false} UnvisitedAtLeastTwo(visited: seq<bool>, x: nat, y: nat)
    requires x < y < |visited| && !visited[x] && !visited[y]
    ensures Unvisited(visited) >= 2
  {
    if x == 0 {
      UnvisitedAtLeastOne(visited[1..], y - 1);
    } else {
      UnvisitedAtLeastTwo(visited[1..], x - 1, y - 1);
    }
  }

  /** After N-1 full rounds a single vertex is left unvisited. */
  lemma FinishedByCount(dist: seq<Dist>, visited: seq<bool>)
    requires |dist| == |visited| && Unvisited(visited) <= 1
    ensures Finished(dist, visited)
  {
    forall x, y | 0 <= x < |visited| && 0 <= y < |visited| && !visited[x] && y != x
      ensures visited[y]
    {
      if !visited[y] {
        if x < y { UnvisitedAtLeastTwo(visited, x, y); } else { UnvisitedAtLeastTwo(visited, y, x); }
      }
    }
  }

  /** Visiting the closest unvisited vertex keeps the invariant and starts its round. */
  lemma VisitStep(g: seq<seq<int>>, n: nat, s: nat, dist: seq<Dist>, visited: seq<bool>, prev: seq<Option<nat>>, u: nat)
    requires Square(g, n) && NonNeg(g, n) && Inv(g, n, s, dist, visited, prev)
    requires u < n && !visited[u] && dist[u].Fin?
    requires forall j :: 0 <= j < n && !visited[j] ==> Le(dist[u], dist[j])
    ensures Mid(g, n, s, dist, visited[u := true], prev, u, 0)
  {
    var vis := visited[u := true];
    assert forall a :: 0 <= a < n && vis[a] ==> Le(dist[a], dist[u]);
    assert forall a, b :: 0 <= a < n && 0 <= b < n && vis[a] && !vis[b] ==> Le(dist[a], dist[b]);
  }

  /** An improving relaxation of u -> v only lowers the distance of an
      unvisited vertex other than the source, to no less than `dist[u]`. */
  lemma ImprovingTarget(g: seq<seq<int>>, n: nat, s: nat, dist: seq<Dist>, visited: seq<bool>, prev: seq<Option<nat>>,
                        u: nat, v: nat)
    requires Square(g, n) && NonNeg(g, n) && Mid(g, n, s, dist, visited, prev, u, v) && v < n
    requires g[u][v] != 0 && Less(Plus(dist[u], g[u][v]), dist[v])
    ensures !visited[v] && v != s && v != u
    ensures dist[u].Fin? && dist[u].n >= 0 && g[u][v] > 0
  {
    assert dist[u].Fin?;
  }

  /** An improving relaxation keeps Sound. */
  lemma ImproveKeepsSound(g: seq<seq<int>>, n: nat, s: nat, dist: seq<Dist>, visited: seq<bool>, prev: seq<Option<nat>>,
                          u: nat, v: nat, dist': seq<Dist>, prev': seq<Option<nat>>)
    requires Square(g, n) && Sound(g, n, s, dist, visited, prev) && u < n && v < n && visited[u]
    requires forall a :: 0 <= a < n && visited[a] ==> Le(dist[a], dist[u])
    requires !visited[v] && v != s && dist[u].Fin? && dist[u].n >= 0 && g[u][v] > 0
    requires Less(Plus(dist[u], g[u][v]), dist[v])
    requires dist' == dist[v := Plus(dist[u], g[u][v])] && prev' == prev[v := Some(u)]
    ensures Sound(g, n, s, dist', visited, prev')
  {
    assert ChainOk(g, n, s, dist', prev') by {
      forall x | 0 <= x < n && prev'[x].Some? ensures Linked(g, n, dist', prev'[x].value, x) {
        if x != v {
          assert Linked(g, n, dist, prev[x].value, x);
        }
      }
    }
  }

  /** An improving relaxation keeps every relaxed row relaxed. */
  lemma ImproveKeepsRelaxed(g: seq<seq<int>>, n: nat, dist: seq<Dist>, visited: seq<bool>,
                            u: nat, v: nat, lo: nat, dist': seq<Dist>)
    requires Square(g, n) && |dist| == n && |visited| == n && u < n && v < n && lo <= n
    requires !visited[v] && Less(Plus(dist[u], g[u][v]), dist[v])
    requires dist' == dist[v := Plus(dist[u], g[u][v])]
    requires forall x :: 0 <= x < n && visited[x] ==> Relaxed(g, n, dist, x, if x == u then lo else n)
    ensures forall x :: 0 <= x < n && visited[x] ==> Relaxed(g, n, dist', x, if x == u then lo else n)
  {
    forall x | 0 <= x < n && visited[x] ensures Relaxed(g, n, dist', x, if x == u then lo else n) {
      assert Relaxed(g, n, dist, x, if x == u then lo else n);
      assert dist'[x] == dist[x];
    }
  }

  /** An improving relaxation of u -> v keeps the invariant of the round. */
  lemma RelaxImproving(g: seq<seq<int>>, n: nat, s: nat, dist: seq<Dist>, visited: seq<bool>, prev: seq<Option<nat>>,
                       u: nat, v: nat, dist': seq<Dist>, prev': seq<Option<nat>>)
    requires Square(g, n) && NonNeg(g, n) && Mid(g, n, s, dist, visited, prev, u, v) && v < n
    requires g[u][v] != 0 && Less(Plus(dist[u], g[u][v]), dist[v])
    requires dist' == dist[v := Plus(dist[u], g[u][v])] && prev' == prev[v := Some(u)]
    ensures Mid(g, n, s, dist', visited, prev', u, v + 1)
  {
    ImprovingTarget(g, n, s, dist, visited, prev, u, v);
    ImproveKeepsSound(g, n, s, dist, visited, prev, u, v, dist', prev');
    ImproveKeepsRelaxed(g, n, dist, visited, u, v, v, dist');
    assert dist'[u] == dist[u];
    assert forall x :: 0 <= x < n && visited[x] && x != u ==> Relaxed(g, n, dist', x, n);
    assert Relaxed(g, n, dist', u, v);
  }

  /** Relaxing the edge u -> v keeps the invariant and extends the relaxed part
      of `u`'s row by one cell. */
  lemma RelaxStep(g: seq<seq<int>>, n: nat, s: nat, dist: seq<Dist>, visited: seq<bool>, prev: seq<Option<nat>>,
                  u: nat, v: nat, dist': seq<Dist>, prev': seq<Option<nat>>)
    requires Square(g, n) && NonNeg(g, n) && Mid(g, n, s, dist, visited, prev, u, v) && v < n
    requires g[u][v] != 0 && Less(Plus(dist[u], g[u][v]), dist[v]) ==>
      dist' == dist[v := Plus(dist[u], g[u][v])] && prev' == prev[v := Some(u)]
    requires !(g[u][v] != 0 && Less(Plus(dist[u], g[u][v]), dist[v])) ==> dist' == dist && prev' == prev
    ensures Mid(g, n, s, dist', visited, prev', u, v + 1)
  {
    if g[u][v] != 0 && Less(Plus(dist[u], g[u][v]), dist[v]) {
      RelaxImproving(g, n, s, dist, visited, prev, u, v, dist', prev');
    } else {
      assert Relaxed(g, n, dist, u, v + 1);
    }
  }

  /** At the end of the rounds no edge can improve a distance any more. */
  lemma ClosedAtExit(g: seq<seq<int>>, n: nat, s: nat, dist: seq<Dist>, visited: seq<bool>, prev: seq<Option<nat>>)
    requires Square(g, n) && NonNeg(g, n) && Inv(g, n, s, dist, visited, prev) && Finished(dist, visited)
    ensures Closed(g, n, dist)
  {
    forall x, y | 0 <= x < n && 0 <= y < n && dist[x].Fin? && g[x][y] != 0
      ensures Le(dist[y], Plus(dist[x], g[x][y]))
    {
      if visited[x] {
        assert Relaxed(g, n, dist, x, n);
      } else if y != x {
        assert visited[y];
      }
    }
  }

  /** The scan for the next vertex: the unvisited vertex of least distance,
      the lowest index among equals, or -1 when every vertex is visited. */
  method SelectMin(dist: seq<Dist>, visited: seq<bool>) returns (u: int)
    requires |dist| == |visited|
    ensures -1 <= u < |dist|
    ensures u == -1 <==> forall j :: 0 <= j < |visited| ==> visited[j]
    ensures u != -1 ==> !visited[u]
    ensures u != -1 ==> forall j :: 0 <= j < |dist| && !visited[j] ==> Le(dist[u], dist[j])
    ensures u != -1 ==> forall j :: 0 <= j < u && !visited[j] ==> Less(dist[u], dist[j])
  {
    u := -1;
    var j := 0;
    while j < |dist|
      invariant 0 <= j <= |dist| && -1 <= u < j
      invariant u == -1 <==> forall k :: 0 <= k < j ==> visited[k]
      invariant u != -1 ==> !visited[u]
      invariant u != -1 ==> forall k :: 0 <= k < j && !visited[k] ==> Le(dist[u], dist[k])
      invariant u != -1 ==> forall k :: 0 <= k < u && !visited[k] ==> Less(dist[u], dist[k])
    {
      if !visited[j] && (u == -1 || Less(dist[j], dist[u])) {
        u := j;
      }
      j := j + 1;
    }
  }

  /** The relaxation loop of one round: every nonzero cell of row `u` that
      gives a strictly shorter distance updates `dist` and `prev`. Whatever the
      cells, an entry only changes to a strictly shorter distance reached
      through the cell from `u`. Without negative cells `dist[u]` itself stays
      put, so the new arrays are the strict relaxation of the old ones. */
  method RelaxRow(graph: seq<seq<int>>, n: nat, start: nat, u: nat,
                  d: array<Dist>, visited: array<bool>, p: array<Option<nat>>)
    requires Square(graph, n) && u < n && d.Length == n && visited.Length == n && p.Length == n
    requires PrevEdges(graph, n, p[..])
    requires NonNeg(graph, n) ==> Mid(graph, n, start, d[..], visited[..], p[..], u, 0)
    modifies d, p
    ensures PrevEdges(graph, n, p[..])
    ensures forall w :: 0 <= w < n && (d[w] != old(d[w]) || p[w] != old(p[w])) ==>
      p[w] == Some(u) && graph[u][w] != 0 && Less(d[w], old(d[w]))
    ensures NonNeg(graph, n) ==> forall w :: 0 <= w < n ==>
      if graph[u][w] != 0 && Less(Plus(old(d[u]), graph[u][w]), old(d[w]))
      then d[w] == Plus(old(d[u]), graph[u][w]) && p[w] == Some(u)
      else d[w] == old(d[w]) && p[w] == old(p[w])
    ensures NonNeg(graph, n) ==> Mid(graph, n, start, d[..], visited[..], p[..], u, n)
  {
    var v := 0;
    while v < n
      invariant 0 <= v <= n
      invariant PrevEdges(graph, n, p[..])
      invariant forall w :: v <= w < n ==> d[w] == old(d[w]) && p[w] == old(p[w])
      invariant forall w :: 0 <= w < n && (d[w] != old(d[w]) || p[w] != old(p[w])) ==>
        p[w] == Some(u) && graph[u][w] != 0 && Less(d[w], old(d[w]))
      invariant NonNeg(graph, n) ==> d[u] == old(d[u])
      invariant NonNeg(graph, n) ==> forall w :: 0 <= w < v ==>
        if graph[u][w] != 0 && Less(Plus(old(d[u]), graph[u][w]), old(d[w]))
        then d[w] == Plus(old(d[u]), graph[u][w]) && p[w] == Some(u)
        else d[w] == old(d[w]) && p[w] == old(p[w])
      invariant NonNeg(graph, n) ==> Mid(graph, n, start, d[..], visited[..], p[..], u, v)
    {
      ghost var distBefore, prevBefore := d[..], p[..];
      if graph[u][v] != 0 && Less(Plus(d[u], graph[u][v]), d[v]) {
        d[v] := Plus(d[u], graph[u][v]);
        p[v] := Some(u);
        assert d[..] == distBefore[v := Plus(distBefore[u], graph[u][v])];
        assert p[..] == prevBefore[v := Some(u)];
      }
      if NonNeg(graph, n) {
        RelaxStep(graph, n, start, distBefore, visited[..], prevBefore, u, v, d[..], p[..]);
      }
      v := v + 1;
    }
  }

  /** Dijkstra from `start` over a `numVertices` x `numVertices` matrix. The
      arrays are sized from `numVertices`, as the browser code sizes them from
      its global vertex count. Negative cells are not rejected; what holds for
      every matrix is stated unconditionally, the rest for matrices without
      negative cells. */
  method Dijkstra(graph: seq<seq<int>>, numVertices: nat, start: nat) returns (dist: seq<Dist>, prev: seq<Option<nat>>)
    requires Square(graph, numVertices) && start < numVertices
    ensures |dist| == numVertices && |prev| == numVertices
    ensures PrevEdges(graph, numVertices, prev)
    ensures NonNeg(graph, numVertices) ==> ChainOk(graph, numVertices, start, dist, prev)
    ensures NonNeg(graph, numVertices) ==>
      forall t :: 0 <= t < numVertices ==> (dist[t].Fin? <==> Reachable(graph, numVertices, start, t))
    ensures NonNeg(graph, numVertices) ==>
      forall t, q :: IsPath(graph, numVertices, q, start, t) ==> Le(dist[t], Fin(PathWeight(graph, numVertices, q)))
  {
    var n := numVertices;
    var d := new Dist[n](_ => Inf);
    var visited := new bool[n](_ => false);
    var p: array<Option<nat>> := new Option<nat>[n](_ => None);
    d[start] := Fin(0);
    UnvisitedAll(visited[..]);

    var i := 0;
    while i < n - 1
      invariant 0 <= i <= n - 1
      invariant d.Length == n && visited.Length == n && p.Length == n
      invariant Unvisited(visited[..]) == n - i
      invariant PrevEdges(graph, n, p[..])
      invariant NonNeg(graph, n) ==> Inv(graph, n, start, d[..], visited[..], p[..])
    {
      var u := SelectMin(d[..], visited[..]);
      if u == -1 || d[u] == Inf {
        assert Finished(d[..], visited[..]);
        break;
      }
      ghost var visitedBefore := visited[..];
      visited[u] := true;
      assert visited[..] == visitedBefore[u := true];
      UnvisitedMark(visitedBefore, u);
      if NonNeg(graph, n) {
        VisitStep(graph, n, start, d[..], visitedBefore, p[..], u);
      }

      RelaxRow(graph, n, start, u, d, visited, p);
      i := i + 1;
    }
    if i == n - 1 {
      FinishedByCount(d[..], visited[..]);
    }

    dist, prev := d[..], p[..];
    if NonNeg(graph, n) {
      ClosedAtExit(graph, n, start, dist, visited[..], prev);
      FiniteIffReachable(graph, n, start, dist, prev);
      ClosedIsOptimal(graph, n, start, dist);
    }
  }
}
