/** Directed paths over the server's dict-of-dicts graph: `g[x][y]` is the
    weight of the edge x -> y. A neighbour key that is not itself a vertex of
    `g` is not an edge. */
module SparsePaths {
  import opened Distances

  /** Vertex labels, the keys of the JSON object the server receives. */
  type Label = string

  type Graph = map<Label, map<Label, int>>

  predicate Edge(g: Graph, x: Label, y: Label)
  {
    x in g && y in g[x] && y in g
  }

  /** Every vertex of `q` is a vertex of `g` and every step of `q` is an edge. */
  predicate IsWalk(g: Graph, q: seq<Label>)
  {
    && (forall k :: 0 <= k < |q| ==> q[k] in g)
    && (forall k :: 0 <= k < |q| - 1 ==> Edge(g, q[k], q[k + 1]))
  }

  predicate IsPath(g: Graph, q: seq<Label>, s: Label, t: Label)
  {
    |q| >= 1 && q[0] == s && q[|q| - 1] == t && IsWalk(g, q)
  }

  /** The sum of the weights of the steps of `q`. */
  function PathWeight(g: Graph, q: seq<Label>): int
    requires IsWalk(g, q)
    decreases |q|
  {
    if |q| <= 1 then 0
    else PathWeight(g, q[..|q| - 1]) + g[q[|q| - 2]][q[|q| - 1]]
  }

  ghost predicate Reachable(g: Graph, s: Label, t: Label)
  {
    exists q :: IsPath(g, q, s, t)
  }

  predicate NonNeg(g: Graph)
  {
    forall x, y :: x in g && y in g[x] ==> g[x][y] >= 0
  }

  /** Every edge leaving a vertex of finite distance reaches a vertex of finite distance. */
  ghost predicate FiniteClosed(g: Graph, d: map<Label, Dist>)
    requires d.Keys == g.Keys
  {
    forall x, y :: Edge(g, x, y) && d[x].Fin? ==> d[y].Fin?
  }

  /** No edge can improve on `d`. */
  ghost predicate Closed(g: Graph, d: map<Label, Dist>)
    requires d.Keys == g.Keys
  {
    forall x, y :: Edge(g, x, y) && d[x].Fin? ==> Le(d[y], Plus(d[x], g[x][y]))
  }

  /** Putting a vertex with an edge to the start of a walk in front of it gives
      a walk that is heavier by that edge. */
  lemma {:induction false} Prepend(g: Graph, x: Label, q: seq<Label>)
    requires |q| >= 1 && IsWalk(g, q) && Edge(g, x, q[0])
    ensures IsWalk(g, [x] + q)
    ensures PathWeight(g, [x] + q) == g[x][q[0]] + PathWeight(g, q)
    decreases |q|
  {
    var r := [x] + q;
    assert IsWalk(g, r) by {
      forall k | 0 <= k < |r| - 1 ensures Edge(g, r[k], r[k + 1]) {
        if k > 0 {
          assert r[k] == q[k - 1] && r[k + 1] == q[k];
        }
      }
    }
    if |q| > 1 {
      var front := q[..|q| - 1];
      assert IsWalk(g, front);
      Prepend(g, x, front);
      assert r[..|r| - 1] == [x] + front;
    }
  }

  /** Along any walk from a vertex of finite distance, finite distances stay finite. */
  lemma {:induction false} WalkFinite(g: Graph, d: map<Label, Dist>, q: seq<Label>)
    requires d.Keys == g.Keys && FiniteClosed(g, d)
    requires |q| >= 1 && IsWalk(g, q) && d[q[0]].Fin?
    ensures d[q[|q| - 1]].Fin?
    decreases |q|
  {
    if |q| > 1 {
      var front := q[..|q| - 1];
      assert IsWalk(g, front);
      WalkFinite(g, d, front);
      assert Edge(g, q[|q| - 2], q[|q| - 1]);
    }
  }

  /** On a closed distance map, the distance of the end of a walk is at most the
      distance of its start plus the weight of the walk. */
  lemma {:induction false} WalkBound(g: Graph, d: map<Label, Dist>, q: seq<Label>)
    requires d.Keys == g.Keys && Closed(g, d)
    requires |q| >= 1 && IsWalk(g, q) && d[q[0]].Fin?
    ensures Le(d[q[|q| - 1]], Fin(d[q[0]].n + PathWeight(g, q)))
    decreases |q|
  {
    if |q| > 1 {
      var front := q[..|q| - 1];
      assert IsWalk(g, front);
      WalkBound(g, d, front);
      assert Edge(g, q[|q| - 2], q[|q| - 1]);
    }
  }

  /** When edges keep finite distances finite, every node reachable from a
      node of finite distance has a finite distance. */
  lemma ReachableIsFinite(g: Graph, d: map<Label, Dist>, s: Label)
    requires d.Keys == g.Keys && FiniteClosed(g, d) && s in g && d[s].Fin?
    ensures forall t :: Reachable(g, s, t) ==> t in g && d[t].Fin?
  {
    forall t | Reachable(g, s, t) ensures t in g && d[t].Fin? {
      var q :| IsPath(g, q, s, t);
      WalkFinite(g, d, q);
    }
  }

  /** With the start at distance 0, a closed distance map is a lower bound on
      the weight of every path from the start. */
  lemma ClosedIsOptimal(g: Graph, d: map<Label, Dist>, s: Label)
    requires d.Keys == g.Keys && Closed(g, d) && s in g && d[s] == Fin(0)
    ensures forall t, q :: IsPath(g, q, s, t) ==> t in g && Le(d[t], Fin(PathWeight(g, q)))
  {
    forall t, q | IsPath(g, q, s, t) ensures t in g && Le(d[t], Fin(PathWeight(g, q))) {
      WalkBound(g, d, q);
    }
  }
}
