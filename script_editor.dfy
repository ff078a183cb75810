/** The browser editor's state and its handlers: create the matrix, add or
    remove an edge, and find a path (run `dijkstra`, then rebuild the path from
    the `prev` array). */
module ScriptEditor {
  import opened Distances
  import opened MatrixPaths
  import opened ScriptDijkstra

  /** The range of vertex counts the "create graph" handler accepts. */
  const MinVertices := 2
  const MaxVertices := 26

  /** The sequence reversed, as JavaScript's in-place `reverse()` leaves it. */
  function Backwards(s: seq<nat>): (r: seq<nat>)
    ensures |r| == |s| && forall i :: 0 <= i < |s| ==> r[i] == s[|s| - 1 - i]
  {
    if s == [] then [] else [s[|s| - 1]] + Backwards(s[..|s| - 1])
  }

  /** Reversing `s + [x]` puts `x` in front of the reversed `s`. */
  lemma BackwardsSnoc(s: seq<nat>, x: nat)
    ensures Backwards(s + [x]) == [x] + Backwards(s)
  {
    assert (s + [x])[..|s|] == s;
  }

  /** The path reconstruction of the "find path" handler: when `destino` has a
      finite distance, push the vertices met by following `prev` from
      `destino` until `null`, then reverse; otherwise the path stays empty. */
  method BuildPath(graph: seq<seq<int>>, numVertices: nat, origem: nat, dist: seq<Dist>, prev: seq<Option<nat>>,
                   destino: nat) returns (lastPath: seq<nat>)
    requires Square(graph, numVertices) && ChainOk(graph, numVertices, origem, dist, prev)
    requires destino < numVertices
    ensures dist[destino].Inf? ==> lastPath == []
    ensures dist[destino].Fin? ==> lastPath == ChainPath(graph, numVertices, origem, dist, prev, destino)
  {
    lastPath := [];
    if dist[destino] != Inf {
      ghost var whole := ChainPath(graph, numVertices, origem, dist, prev, destino);
      var at: Option<nat> := Some(destino);
      while at != None
        invariant at.Some? ==> at.value < numVertices && dist[at.value].Fin?
        invariant at.Some? ==> ChainPath(graph, numVertices, origem, dist, prev, at.value) + Backwards(lastPath) == whole
        invariant at.None? ==> Backwards(lastPath) == whole
        decreases if at.Some? then dist[at.value].n + 1 else 0
      {
        var x := at.value;
        BackwardsSnoc(lastPath, x);
        lastPath := lastPath + [x];
        at := prev[x];
        if at.Some? {
          assert Linked(graph, numVertices, dist, at.value, x);
        }
      }
      lastPath := Backwards(lastPath);
    }
  }

  /** The page's global state: the adjacency matrix, the vertex count the
      arrays of `dijkstra` are sized from, and the last path found. */
  class Editor {
    var graph: seq<seq<int>>
    var numVertices: int
    var lastPath: seq<nat>

    /** The matrix is square, whatever the vertex count says. */
    ghost predicate Matrix()
      reads this
    {
      Square(graph, |graph|)
    }

    /** The matrix is `numVertices` x `numVertices`. */
    ghost predicate Valid()
      reads this
    {
      numVertices >= 0 && Square(graph, numVertices)
    }

    constructor ()
      ensures Matrix() && Valid() && graph == [] && numVertices == 0 && lastPath == []
    {
      graph := [];
      numVertices := 0;
      lastPath := [];
    }

    /** "Create graph": the count is stored before it is checked, so a
        rejected count still replaces `numVertices` while the matrix is kept. */
    method CreateGraph(n: int) returns (ok: bool)
      requires Matrix()
      modifies this`graph, this`numVertices
      ensures Matrix()
      ensures numVertices == n
      ensures ok <==> MinVertices <= n <= MaxVertices
      ensures ok ==> Valid() && forall i, j :: 0 <= i < n && 0 <= j < n ==> graph[i][j] == 0
      ensures !ok ==> graph == old(graph)
    {
      numVertices := n;
      if n < MinVertices || n > MaxVertices {
        return false;
      }
      graph := seq(n, _ => seq(n, _ => 0));
      ok := true;
    }

    /** "Add edge": -1 stands for a label that is not found and `None` for a
        weight that does not parse. Any other weight is written as it is,
        zero, negative and self-loops included. The labels index the matrix
        itself, which after a rejected "create graph" may be of another size
        than `numVertices`. */
    method AddEdge(u: int, v: int, w: Option<int>) returns (ok: bool)
      requires Matrix() && -1 <= u < |graph| && -1 <= v < |graph|
      modifies this`graph
      ensures Matrix() && |graph| == |old(graph)|
      ensures old(Valid()) ==> Valid()
      ensures ok <==> u != -1 && v != -1 && w.Some?
      ensures ok ==> graph[u][v] == w.value
      ensures forall i, j :: 0 <= i < |graph| && 0 <= j < |graph| && !(ok && i == u && j == v) ==>
        graph[i][j] == old(graph)[i][j]
    {
      if u == -1 || v == -1 || w.None? {
        return false;
      }
      graph := graph[u := graph[u][v := w.value]];
      ok := true;
    }

    /** "Remove edge": zero the cell u -> v. Removing an absent edge changes
        nothing, so removing twice is removing once. */
    method RemoveEdge(u: int, v: int) returns (ok: bool)
      requires Matrix() && -1 <= u < |graph| && -1 <= v < |graph|
      modifies this`graph
      ensures Matrix() && |graph| == |old(graph)|
      ensures old(Valid()) ==> Valid()
      ensures ok <==> u != -1 && v != -1
      ensures ok ==> graph[u][v] == 0
      ensures forall i, j :: 0 <= i < |graph| && 0 <= j < |graph| && !(ok && i == u && j == v) ==>
        graph[i][j] == old(graph)[i][j]
      ensures ok && old(graph)[u][v] == 0 ==> graph == old(graph)
    {
      if u == -1 || v == -1 {
        return false;
      }
      if graph[u][v] == 0 {
        assert graph[u][v := 0] == graph[u];
      }
      graph := graph[u := graph[u][v := 0]];
      ok := true;
    }

    /** "Find path": run `dijkstra` from `origem`, rebuild `lastPath` towards
        `destino` and report `dist[destino]`. */
    method FindPath(origem: int, destino: int) returns (ok: bool, distance: Dist)
      requires Valid() && NonNeg(graph, numVertices)
      requires -1 <= origem < numVertices && -1 <= destino < numVertices
      modifies this`lastPath
      ensures ok <==> origem != -1 && destino != -1
      ensures !ok ==> lastPath == old(lastPath)
      ensures ok ==> (distance.Fin? <==> Reachable(graph, numVertices, origem, destino))
      ensures ok && distance.Inf? ==> lastPath == []
      ensures ok && distance.Fin? ==>
        IsPath(graph, numVertices, lastPath, origem, destino) && PathWeight(graph, numVertices, lastPath) == distance.n
      ensures ok && distance.Fin? ==>
        forall q :: IsPath(graph, numVertices, q, origem, destino) ==> distance.n <= PathWeight(graph, numVertices, q)
      ensures ok && origem == destino ==> distance == Fin(0) && lastPath == [origem]
    {
      if origem == -1 || destino == -1 {
        return false, Inf;
      }
      var dist, prev := Dijkstra(graph, numVertices, origem);
      lastPath := BuildPath(graph, numVertices, origem, dist, prev, destino);
      distance := dist[destino];
      if distance.Fin? {
        ChainPathIsPath(graph, numVertices, origem, dist, prev, destino);
      }
      ok := true;
    }
  }
}
