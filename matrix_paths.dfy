/** Directed paths over the browser's adjacency matrix: cell `g[u][v]` holds the
    weight of the edge u -> v, and 0 means that there is no edge. */
module MatrixPaths {
  import opened Distances

  /** The matrix has `n` rows of `n` cells each. */
  predicate Square(g: seq<seq<int>>, n: nat)
  {
    |g| == n && forall i :: 0 <= i < n ==> |g[i]| == n
  }

  /** Every cell is a non-negative weight. */
  predicate NonNeg(g: seq<seq<int>>, n: nat)
    requires Square(g, n)
  {
    forall i, j :: 0 <= i < n && 0 <= j < n ==> g[i][j] >= 0
  }

  /** Every vertex of `q` is in range and every step of `q` is a nonzero cell. */
  predicate IsWalk(g: seq<seq<int>>, n: nat, q: seq<int>)
    requires Square(g, n)
  {
    && (forall k :: 0 <= k < |q| ==> 0 <= q[k] < n)
    && (forall k :: 0 <= k < |q| - 1 ==> g[q[k]][q[k + 1]] != 0)
  }

  /** `q` is a walk from `s` to `t` (a single vertex is a walk from itself to itself). */
  predicate IsPath(g: seq<seq<int>>, n: nat, q: seq<int>, s: int, t: int)
    requires Square(g, n)
  {
    |q| >= 1 && q[0] == s && q[|q| - 1] == t && IsWalk(g, n, q)
  }

  /** The sum of the weights of the steps of `q`. */
  function PathWeight(g: seq<seq<int>>, n: nat, q: seq<int>): int
    requires Square(g, n) && IsWalk(g, n, q)
    decreases |q|
  {
    if |q| <= 1 then 0
    else PathWeight(g, n, q[..|q| - 1]) + g[q[|q| - 2]][q[|q| - 1]]
  }

  ghost predicate Reachable(g: seq<seq<int>>, n: nat, s: int, t: int)
    requires Square(g, n)
  {
    exists q :: IsPath(g, n, q, s, t)
  }

  /** `prev[v] == Some(u)` records that `dist[v]` was reached through the edge u -> v. */
  predicate Linked(g: seq<seq<int>>, n: nat, dist: seq<Dist>, u: nat, v: nat)
    requires Square(g, n) && |dist| == n && v < n
  {
    u < n && g[u][v] > 0 && dist[u].Fin? && dist[v] == Fin(dist[u].n + g[u][v])
  }

  /** The shape of `dist` and `prev` that a run of Dijkstra leaves behind on a
      matrix without negative cells: the source is at distance 0 and has no
      predecessor, every other vertex has a predecessor exactly when its
      distance is finite, and each predecessor link is an edge whose weight
      accounts for the difference of the two distances. */
  ghost predicate ChainOk(g: seq<seq<int>>, n: nat, s: nat, dist: seq<Dist>, prev: seq<Option<nat>>)
    requires Square(g, n)
  {
    && |dist| == n && |prev| == n && s < n
    && dist[s] == Fin(0) && prev[s] == None
    && (forall v :: 0 <= v < n && dist[v].Fin? ==> dist[v].n >= 0)
    && (forall v :: 0 <= v < n && v != s ==> (dist[v].Fin? <==> prev[v].Some?))
    && (forall v :: 0 <= v < n && prev[v].Some? ==> Linked(g, n, dist, prev[v].value, v))
  }

  /** No edge can improve on `dist`: the triangle inequality holds along every
      edge leaving a vertex of finite distance. */
  ghost predicate Closed(g: seq<seq<int>>, n: nat, dist: seq<Dist>)
    requires Square(g, n) && |dist| == n
  {
    forall x, y :: 0 <= x < n && 0 <= y < n && dist[x].Fin? && g[x][y] != 0 ==>
      Le(dist[y], Plus(dist[x], g[x][y]))
  }

  /** The vertices met when following `prev` back from `t`, in forward order. */
  ghost function ChainPath(g: seq<seq<int>>, n: nat, s: nat, dist: seq<Dist>, prev: seq<Option<nat>>, t: nat): seq<nat>
    requires Square(g, n) && ChainOk(g, n, s, dist, prev)
    requires t < n && dist[t].Fin?
    decreases dist[t].n
  {
    match prev[t]
    case None => [t]
    case Some(u) =>
      assert Linked(g, n, dist, u, t);
      ChainPath(g, n, s, dist, prev, u) + [t]
  }

  /** Following `prev` back from a vertex of finite distance ends at the source,
      and the steps taken form a path whose weight is that distance. */
  lemma {:induction false} ChainPathIsPath(g: seq<seq<int>>, n: nat, s: nat, dist: seq<Dist>, prev: seq<Option<nat>>, t: nat)
    requires Square(g, n) && ChainOk(g, n, s, dist, prev)
    requires t < n && dist[t].Fin?
    ensures IsPath(g, n, ChainPath(g, n, s, dist, prev, t), s, t)
    ensures PathWeight(g, n, ChainPath(g, n, s, dist, prev, t)) == dist[t].n
    decreases dist[t].n
  {
    match prev[t]
    case None =>
      assert t == s;
    case Some(u) =>
      assert Linked(g, n, dist, u, t);
      ChainPathIsPath(g, n, s, dist, prev, u);
      var front := ChainPath(g, n, s, dist, prev, u);
      var q := front + [t];
      assert q == ChainPath(g, n, s, dist, prev, t);
      assert q[..|q| - 1] == front;
      assert IsWalk(g, n, q) by {
        forall k | 0 <= k < |q| - 1 ensures g[q[k]][q[k + 1]] != 0 {
          if k < |front| - 1 {
            assert q[k] == front[k] && q[k + 1] == front[k + 1];
          }
        }
      }
  }

  /** On a closed distance vector, the distance of the end of a walk is at most
      the distance of its start plus the weight of the walk. */
  lemma {:induction false} WalkBound(g: seq<seq<int>>, n: nat, dist: seq<Dist>, q: seq<int>)
    requires Square(g, n) && |dist| == n && Closed(g, n, dist)
    requires |q| >= 1 && IsWalk(g, n, q) && dist[q[0]].Fin?
    ensures Le(dist[q[|q| - 1]], Fin(dist[q[0]].n + PathWeight(g, n, q)))
    decreases |q|
  {
    if |q| > 1 {
      var front := q[..|q| - 1];
      assert IsWalk(g, n, front);
      WalkBound(g, n, dist, front);
      assert front[|front| - 1] == q[|q| - 2];
    }
  }

  /** With the source at distance 0, a closed distance vector is a lower bound
      on the weight of every path from the source. */
  lemma ClosedIsOptimal(g: seq<seq<int>>, n: nat, s: nat, dist: seq<Dist>)
    requires Square(g, n) && |dist| == n && s < n && dist[s] == Fin(0) && Closed(g, n, dist)
    ensures forall t, q :: IsPath(g, n, q, s, t) ==> Le(dist[t], Fin(PathWeight(g, n, q)))
  {
    forall t, q | IsPath(g, n, q, s, t) ensures Le(dist[t], Fin(PathWeight(g, n, q))) {
      WalkBound(g, n, dist, q);
    }
  }

  /** When `dist` and `prev` have the shape of a finished run and `dist` is
      closed, a distance is finite exactly when its vertex is reachable. */
  lemma FiniteIffReachable(g: seq<seq<int>>, n: nat, s: nat, dist: seq<Dist>, prev: seq<Option<nat>>)
    requires Square(g, n) && ChainOk(g, n, s, dist, prev) && Closed(g, n, dist)
    ensures forall t :: 0 <= t < n ==> (dist[t].Fin? <==> Reachable(g, n, s, t))
  {
    forall t | 0 <= t < n ensures dist[t].Fin? <==> Reachable(g, n, s, t) {
      if dist[t].Fin? {
        ChainPathIsPath(g, n, s, dist, prev, t);
      }
      if Reachable(g, n, s, t) {
        var q :| IsPath(g, n, q, s, t);
        WalkBound(g, n, dist, q);
      }
    }
  }
}
