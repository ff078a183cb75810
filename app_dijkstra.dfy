/** The server's `dijkstra(graph, start, end)`: Dijkstra over a dict-of-dicts
    graph with an `unvisited` set, followed by the rebuilding of the path from
    `previous_nodes`. Python's set iteration order is an arbitrary choice here. */
module App {
  import opened Distances
  import opened SparsePaths

  /** The returned object: `distancia` is `None` and `caminho` empty when `end`
      cannot be reached. */
  datatype Response = Response(distancia: Option<int>, caminho: seq<Label>)

  /** The scan for the current node: an unvisited node of least distance
      (which of several such nodes depends on the set's iteration order). */
  method Closest(distances: map<Label, Dist>, unvisited: set<Label>) returns (currentNode: Label)
    requires unvisited != {} && unvisited <= distances.Keys
    ensures currentNode in unvisited
    ensures forall node :: node in unvisited ==> Le(distances[currentNode], distances[node])
  {
    var best: Option<Label> := None;
    var rest := unvisited;
    while rest != {}
      invariant rest <= unvisited
      invariant best.None? ==> rest == unvisited
      invariant best.Some? ==> best.value in unvisited
      invariant best.Some? ==> forall x :: x in unvisited && x !in rest ==> Le(distances[best.value], distances[x])
      decreases |rest|
    {
      var node :| node in rest;
      if best.None? || Less(distances[node], distances[best.value]) {
        best := Some(node);
      }
      rest := rest - {node};
    }
    currentNode := best.value;
  }

  /** Relaxing the edge currentNode -> v changes `v`: `v` is a neighbour that
      is still unvisited and the new distance is strictly shorter. */
  predicate Improves(graph: Graph, currentNode: Label, distances: map<Label, Dist>, unvisited: set<Label>, v: Label)
    requires currentNode in graph && currentNode in distances && v in distances
  {
    v in graph[currentNode] && v in unvisited && Less(Plus(distances[currentNode], graph[currentNode][v]), distances[v])
  }

  /** The loop over `graph[current_node].items()`: each node is updated
      exactly when relaxing its edge improves it, whatever the order of the
      items. */
  method RelaxNeighbours(graph: Graph, currentNode: Label, distances: map<Label, Dist>,
                         previousNodes: map<Label, Option<Label>>, unvisited: set<Label>)
    returns (distances': map<Label, Dist>, previousNodes': map<Label, Option<Label>>)
    requires currentNode in graph && currentNode in distances && currentNode !in unvisited
    requires unvisited <= distances.Keys && previousNodes.Keys == distances.Keys
    ensures distances'.Keys == distances.Keys && previousNodes'.Keys == previousNodes.Keys
    ensures forall v :: v in distances ==>
      if Improves(graph, currentNode, distances, unvisited, v)
      then distances'[v] == Plus(distances[currentNode], graph[currentNode][v]) && previousNodes'[v] == Some(currentNode)
      else distances'[v] == distances[v] && previousNodes'[v] == previousNodes[v]
  {
    distances', previousNodes' := distances, previousNodes;
    var todo := graph[currentNode].Keys;
    while todo != {}
      invariant todo <= graph[currentNode].Keys
      invariant distances'.Keys == distances.Keys && previousNodes'.Keys == previousNodes.Keys
      invariant forall v :: v in distances ==>
        if v !in todo && Improves(graph, currentNode, distances, unvisited, v)
        then distances'[v] == Plus(distances[currentNode], graph[currentNode][v]) && previousNodes'[v] == Some(currentNode)
        else distances'[v] == distances[v] && previousNodes'[v] == previousNodes[v]
      decreases |todo|
    {
      var neighbor :| neighbor in todo;
      var weight := graph[currentNode][neighbor];
      if neighbor in unvisited {
        var newDistance := Plus(distances'[currentNode], weight);
        if Less(newDistance, distances'[neighbor]) {
          distances' := distances'[neighbor := newDistance];
          previousNodes' := previousNodes'[neighbor := Some(currentNode)];
        }
      }
      todo := todo - {neighbor};
    }
  }

  /** `previous_nodes[v] == u`: `u` was visited, u -> v is an edge whose weight
      accounts for the difference of the distances, and `u` was visited before
      `v` if `v` is visited. */
  ghost predicate Link(g: Graph, d: map<Label, Dist>, unvisited: set<Label>, rank: map<Label, nat>, u: Label, v: Label)
  {
    && u in g && u !in unvisited && u in rank && v in g[u] && u in d && v in d
    && d[u].Fin? && d[v] == Fin(d[u].n + g[u][v])
    && (v !in unvisited ==> v in rank && rank[u] < rank[v])
  }

  /** The edges from the visited node `x` to unvisited nodes have been relaxed. */
  ghost predicate Frontier(g: Graph, d: map<Label, Dist>, unvisited: set<Label>, x: Label)
    requires d.Keys == g.Keys && x in g
  {
    forall v :: Edge(g, x, v) && v in unvisited ==> Le(d[v], Plus(d[x], g[x][v]))
  }

  /** The bookkeeping of the loop: the maps cover the graph, `rank` numbers
      the visited nodes in the order of their visit, and the start keeps
      distance 0 and no predecessor. */
  ghost predicate Shape(g: Graph, s: Label, d: map<Label, Dist>, p: map<Label, Option<Label>>, unvisited: set<Label>,
                        rank: map<Label, nat>, round: nat)
  {
    && s in g && d.Keys == g.Keys && p.Keys == g.Keys && unvisited <= g.Keys
    && rank.Keys == g.Keys - unvisited
    && (forall x :: x in rank ==> rank[x] < round)
    && d[s] == Fin(0) && p[s] == None
    && (s in unvisited ==> unvisited == g.Keys)
  }

  /** Every node other than the start has a predecessor exactly when its
      distance is finite, and every predecessor is a Link. */
  ghost predicate Links(g: Graph, s: Label, d: map<Label, Dist>, p: map<Label, Option<Label>>, unvisited: set<Label>,
                        rank: map<Label, nat>)
    requires d.Keys == g.Keys && p.Keys == g.Keys
  {
    && (forall v :: v in g && v != s ==> (d[v].Fin? <==> p[v].Some?))
    && (forall v :: v in g && p[v].Some? ==> Link(g, d, unvisited, rank, p[v].value, v))
  }

  /** Visited nodes have finite distances, and all but the `pending` one have
      had their edges relaxed. */
  ghost predicate Settled(g: Graph, d: map<Label, Dist>, unvisited: set<Label>, pending: set<Label>)
    requires d.Keys == g.Keys
  {
    && (forall x :: x in g && x !in unvisited ==> d[x].Fin?)
    && (forall x :: x in g && x !in unvisited && x !in pending ==> Frontier(g, d, unvisited, x))
  }

  /** The loop invariant, for every weight. `pending` holds the node whose
      neighbours are about to be relaxed, if any. */
  ghost predicate Tracked(g: Graph, s: Label, d: map<Label, Dist>, p: map<Label, Option<Label>>, unvisited: set<Label>,
                          rank: map<Label, nat>, round: nat, pending: set<Label>)
  {
    && Shape(g, s, d, p, unvisited, rank, round)
    && Links(g, s, d, p, unvisited, rank)
    && Settled(g, d, unvisited, pending)
  }

  /** The initial maps: the start at 0, everything else at infinity, no
      predecessors, nothing visited. */
  lemma InitialTracked(g: Graph, s: Label, d: map<Label, Dist>, p: map<Label, Option<Label>>)
    requires s in g && d == (map x | x in g :: Inf)[s := Fin(0)] && p == map x | x in g :: None
    ensures Tracked(g, s, d, p, g.Keys, map[], 0, {})
    ensures NonNeg(g) ==> Ordered(g, d, g.Keys)
  {
    assert Shape(g, s, d, p, g.Keys, map[], 0);
  }

  /** The part of the invariant that needs non-negative weights: no visited
      node is farther than an unvisited one, and the edges between visited
      nodes cannot improve anything. */
  ghost predicate Ordered(g: Graph, d: map<Label, Dist>, unvisited: set<Label>)
    requires d.Keys == g.Keys
  {
    && (forall a, b :: a in g && a !in unvisited && b in g && b in unvisited ==> Le(d[a], d[b]))
    && (forall x, v :: Edge(g, x, v) && x !in unvisited && v !in unvisited ==> Le(d[v], Plus(d[x], g[x][v])))
  }

  /** While the start is unvisited nothing has been visited, so the first node
      of finite distance chosen is the start itself. */
  lemma FirstVisitIsStart(g: Graph, s: Label, d: map<Label, Dist>, p: map<Label, Option<Label>>, unvisited: set<Label>,
                          rank: map<Label, nat>, round: nat, currentNode: Label)
    requires Tracked(g, s, d, p, unvisited, rank, round, {})
    requires currentNode in unvisited && d[currentNode].Fin? && s in unvisited
    ensures currentNode == s
  {
  }

  /** Removing the closest node from `unvisited` keeps the invariant, with that
      node pending. */
  lemma VisitStep(g: Graph, s: Label, d: map<Label, Dist>, p: map<Label, Option<Label>>, unvisited: set<Label>,
                  rank: map<Label, nat>, round: nat, currentNode: Label)
    requires Tracked(g, s, d, p, unvisited, rank, round, {})
    requires currentNode in unvisited && d[currentNode].Fin?
    requires forall x :: x in unvisited ==> Le(d[currentNode], d[x])
    ensures Tracked(g, s, d, p, unvisited - {currentNode}, rank[currentNode := round], round + 1, {currentNode})
  {
    var unvisited', rank' := unvisited - {currentNode}, rank[currentNode := round];
    if s in unvisited {
      FirstVisitIsStart(g, s, d, p, unvisited, rank, round, currentNode);
    }
    assert Shape(g, s, d, p, unvisited', rank', round + 1) by {
      assert rank'.Keys == g.Keys - unvisited';
    }
    assert Links(g, s, d, p, unvisited', rank') by {
      forall v | v in g && p[v].Some? ensures Link(g, d, unvisited', rank', p[v].value, v) {
        assert Link(g, d, unvisited, rank, p[v].value, v);
      }
    }
    assert Settled(g, d, unvisited', {currentNode}) by {
      forall x | x in g && x !in unvisited' && x !in {currentNode} ensures Frontier(g, d, unvisited', x) {
        assert Frontier(g, d, unvisited, x);
      }
    }
  }

  /** With non-negative weights, visiting the closest node keeps Ordered, and the
      visited node is the farthest visited one. */
  lemma VisitOrdered(g: Graph, s: Label, d: map<Label, Dist>, p: map<Label, Option<Label>>, unvisited: set<Label>,
                     rank: map<Label, nat>, round: nat, currentNode: Label)
    requires NonNeg(g) && Tracked(g, s, d, p, unvisited, rank, round, {}) && Ordered(g, d, unvisited)
    requires currentNode in unvisited && d[currentNode].Fin?
    requires forall x :: x in unvisited ==> Le(d[currentNode], d[x])
    ensures Ordered(g, d, unvisited - {currentNode})
    ensures forall a :: a in g && a !in unvisited - {currentNode} ==> Le(d[a], d[currentNode])
  {
    var unvisited' := unvisited - {currentNode};
    forall x, v | Edge(g, x, v) && x !in unvisited' && v !in unvisited'
      ensures Le(d[v], Plus(d[x], g[x][v]))
    {
      if x != currentNode && v == currentNode {
        assert Frontier(g, d, unvisited, x);
      }
    }
  }

  /** `d'` and `p'` are what relaxing the edges leaving `currentNode` makes of `d` and `p`. */
  ghost predicate RelaxedMaps(g: Graph, currentNode: Label, d: map<Label, Dist>, p: map<Label, Option<Label>>, unvisited: set<Label>,
                              d': map<Label, Dist>, p': map<Label, Option<Label>>)
    requires currentNode in g && currentNode in d
  {
    && d'.Keys == d.Keys && p'.Keys == p.Keys && p.Keys == d.Keys
    && forall v :: v in d ==>
      if Improves(g, currentNode, d, unvisited, v)
      then d'[v] == Plus(d[currentNode], g[currentNode][v]) && p'[v] == Some(currentNode)
      else d'[v] == d[v] && p'[v] == p[v]
  }

  lemma RelaxLinks(g: Graph, s: Label, d: map<Label, Dist>, p: map<Label, Option<Label>>, unvisited: set<Label>,
                   rank: map<Label, nat>, round: nat, currentNode: Label,
                   d': map<Label, Dist>, p': map<Label, Option<Label>>)
    requires Shape(g, s, d, p, unvisited, rank, round) && Links(g, s, d, p, unvisited, rank)
    requires currentNode in g && currentNode !in unvisited && d[currentNode].Fin?
    requires RelaxedMaps(g, currentNode, d, p, unvisited, d', p')
    ensures Links(g, s, d', p', unvisited, rank)
  {
    assert d'[currentNode] == d[currentNode];
    forall v | v in g && p'[v].Some? ensures Link(g, d', unvisited, rank, p'[v].value, v) {
      if !Improves(g, currentNode, d, unvisited, v) {
        var u := p[v].value;
        assert Link(g, d, unvisited, rank, u, v);
        assert d'[u] == d[u];
      }
    }
  }

  lemma RelaxSettled(g: Graph, d: map<Label, Dist>, p: map<Label, Option<Label>>, unvisited: set<Label>, currentNode: Label,
                     d': map<Label, Dist>, p': map<Label, Option<Label>>)
    requires d.Keys == g.Keys && currentNode in g && currentNode !in unvisited
    requires Settled(g, d, unvisited, {currentNode})
    requires RelaxedMaps(g, currentNode, d, p, unvisited, d', p')
    ensures Settled(g, d', unvisited, {})
  {
    forall x | x in g && x !in unvisited ensures d'[x].Fin? && Frontier(g, d', unvisited, x) {
      assert d'[x] == d[x];
      forall v | Edge(g, x, v) && v in unvisited ensures Le(d'[v], Plus(d'[x], g[x][v])) {
        if x != currentNode {
          assert Frontier(g, d, unvisited, x);
        }
      }
    }
  }

  /** Relaxing the neighbours of the pending node restores the invariant. */
  lemma RelaxStep(g: Graph, s: Label, d: map<Label, Dist>, p: map<Label, Option<Label>>, unvisited: set<Label>,
                  rank: map<Label, nat>, round: nat, currentNode: Label,
                  d': map<Label, Dist>, p': map<Label, Option<Label>>)
    requires Tracked(g, s, d, p, unvisited, rank, round, {currentNode}) && currentNode in g && currentNode !in unvisited
    requires RelaxedMaps(g, currentNode, d, p, unvisited, d', p')
    ensures Tracked(g, s, d', p', unvisited, rank, round, {})
  {
    assert s !in unvisited;
    assert !Improves(g, currentNode, d, unvisited, s);
    RelaxLinks(g, s, d, p, unvisited, rank, round, currentNode, d', p');
    RelaxSettled(g, d, p, unvisited, currentNode, d', p');
  }

  /** With non-negative weights, relaxing the neighbours of the pending node keeps Ordered. */
  lemma RelaxOrdered(g: Graph, s: Label, d: map<Label, Dist>, p: map<Label, Option<Label>>, unvisited: set<Label>,
                     rank: map<Label, nat>, round: nat, currentNode: Label,
                     d': map<Label, Dist>, p': map<Label, Option<Label>>)
    requires NonNeg(g) && Tracked(g, s, d, p, unvisited, rank, round, {currentNode}) && currentNode in g && currentNode !in unvisited
    requires Ordered(g, d, unvisited)
    requires forall a :: a in g && a !in unvisited ==> Le(d[a], d[currentNode])
    requires RelaxedMaps(g, currentNode, d, p, unvisited, d', p')
    ensures Ordered(g, d', unvisited)
  {
    forall a, b | a in g && a !in unvisited && b in unvisited ensures Le(d'[a], d'[b]) {
      assert Le(d[a], d[currentNode]);
    }
  }

  /** When every unvisited node is at infinity, the distances are final: edges
      keep finite distances finite, and with non-negative weights they cannot
      improve any distance. */
  lemma ExitClosed(g: Graph, s: Label, d: map<Label, Dist>, p: map<Label, Option<Label>>, unvisited: set<Label>,
                   rank: map<Label, nat>, round: nat)
    requires Tracked(g, s, d, p, unvisited, rank, round, {})
    requires forall x :: x in unvisited ==> d[x] == Inf
    ensures FiniteClosed(g, d)
    ensures NonNeg(g) && Ordered(g, d, unvisited) ==> Closed(g, d)
  {
    forall x, y | Edge(g, x, y) && d[x].Fin? ensures d[y].Fin? && (NonNeg(g) && Ordered(g, d, unvisited) ==> Le(d[y], Plus(d[x], g[x][y]))) {
      assert Frontier(g, d, unvisited, x);
    }
  }

  /** One step of the walk back: putting `node` in front of the path built so
      far keeps it a path to `end` of the right weight, and the predecessor
      of `node`, if any, was visited before it. */
  lemma StepBack(g: Graph, s: Label, end: Label, d: map<Label, Dist>, p: map<Label, Option<Label>>,
                 unvisited: set<Label>, rank: map<Label, nat>, round: nat, path: seq<Label>, node: Label)
    requires Shape(g, s, d, p, unvisited, rank, round) && Links(g, s, d, p, unvisited, rank)
    requires node in g && node !in unvisited && d[node].Fin?
    requires path == [] ==> node == end
    requires path != [] ==> IsPath(g, path, path[0], end) && p[path[0]] == Some(node)
    requires path != [] ==> d[path[0]].Fin? && d[end] == Fin(d[path[0]].n + PathWeight(g, path))
    ensures IsPath(g, [node] + path, node, end) && d[end] == Fin(d[node].n + PathWeight(g, [node] + path))
    ensures p[node].Some? ==> p[node].value in g && p[node].value !in unvisited && d[p[node].value].Fin?
    ensures p[node].Some? ==> p[node].value in rank && rank[p[node].value] < rank[node]
  {
    if path != [] {
      assert Link(g, d, unvisited, rank, node, path[0]);
      Prepend(g, node, path);
    }
    if p[node].Some? {
      assert Link(g, d, unvisited, rank, p[node].value, node);
    }
  }

  /** The rebuilding of the path: when `end` has a finite distance, insert the
      nodes met by following `previous_nodes` from `end` at the front of the
      path until `None`. The path leads from the start to `end` and weighs
      the distance of `end`, whatever the weights; `rank` shows the walk back
      ends. */
  method Reconstruct(graph: Graph, start: Label, end: Label, distances: map<Label, Dist>, previousNodes: map<Label, Option<Label>>,
                     unvisited: set<Label>, ghost rank: map<Label, nat>, ghost round: nat) returns (path: seq<Label>)
    requires Shape(graph, start, distances, previousNodes, unvisited, rank, round)
    requires Links(graph, start, distances, previousNodes, unvisited, rank)
    requires end in graph && (distances[end].Fin? ==> end !in unvisited)
    ensures distances[end].Inf? ==> path == []
    ensures distances[end].Fin? ==>
      IsPath(graph, path, start, end) && PathWeight(graph, path) == distances[end].n
    ensures start == end ==> path == [start]
  {
    path := [];
    if distances[end] != Inf {
      var current: Option<Label> := Some(end);
      while current != None
        invariant current.Some? ==> current.value in graph && current.value !in unvisited && distances[current.value].Fin?
        invariant path == [] ==> current == Some(end)
        invariant path != [] ==> IsPath(graph, path, path[0], end) && current == previousNodes[path[0]]
        invariant path != [] ==> distances[path[0]].Fin? && distances[end] == Fin(distances[path[0]].n + PathWeight(graph, path))
        invariant start == end && path != [] ==> path == [start]
        decreases if current.Some? then rank[current.value] + 1 else 0
      {
        var node := current.value;
        StepBack(graph, start, end, distances, previousNodes, unvisited, rank, round, path, node);
        path := [node] + path;
        current := previousNodes[node];
      }
    }
  }

  /** The main loop: repeatedly take the closest unvisited node, stop when it
      is at infinity, otherwise visit it and relax its edges to unvisited
      neighbours. On exit the predecessors form a rooted tree of Links over
      the visited nodes, edges keep finite distances finite, and with
      non-negative weights no edge can improve any distance. */
  method Explore(graph: Graph, start: Label)
    returns (distances: map<Label, Dist>, previousNodes: map<Label, Option<Label>>,
             unvisited: set<Label>, ghost rank: map<Label, nat>, ghost round: nat)
    requires start in graph
    ensures Shape(graph, start, distances, previousNodes, unvisited, rank, round)
    ensures Links(graph, start, distances, previousNodes, unvisited, rank)
    ensures forall x :: x in graph ==> (distances[x].Fin? <==> x !in unvisited)
    ensures FiniteClosed(graph, distances)
    ensures NonNeg(graph) ==> Closed(graph, distances)
  {
    distances := map node | node in graph :: Inf;
    distances := distances[start := Fin(0)];
    previousNodes := map node | node in graph :: None;
    unvisited := graph.Keys;
    rank := map[];
    round := 0;
    InitialTracked(graph, start, distances, previousNodes);

    while unvisited != {}
      invariant Tracked(graph, start, distances, previousNodes, unvisited, rank, round, {})
      invariant NonNeg(graph) ==> Ordered(graph, distances, unvisited)
      decreases |unvisited|
    {
      var currentNode := Closest(distances, unvisited);
      if distances[currentNode] == Inf {
        assert forall x :: x in unvisited ==> distances[x] == Inf;
        break;
      }
      VisitStep(graph, start, distances, previousNodes, unvisited, rank, round, currentNode);
      if NonNeg(graph) {
        VisitOrdered(graph, start, distances, previousNodes, unvisited, rank, round, currentNode);
      }
      unvisited := unvisited - {currentNode};
      rank, round := rank[currentNode := round], round + 1;

      ghost var distancesBefore, previousBefore := distances, previousNodes;
      distances, previousNodes := RelaxNeighbours(graph, currentNode, distances, previousNodes, unvisited);
      RelaxStep(graph, start, distancesBefore, previousBefore, unvisited, rank, round, currentNode, distances, previousNodes);
      if NonNeg(graph) {
        RelaxOrdered(graph, start, distancesBefore, previousBefore, unvisited, rank, round, currentNode, distances, previousNodes);
      }
    }
    ExitClosed(graph, start, distances, previousNodes, unvisited, rank, round);
  }

  /** `dijkstra(graph, start, end)`: the main loop, then the path to `end`
      rebuilt from `previous_nodes`. Path validity, its weight, reachability
      and the start == end case hold for every weight, since only unvisited
      neighbours are relaxed; optimality needs non-negative weights. */
  method Dijkstra(graph: Graph, start: Label, end: Label) returns (result: Response)
    requires start in graph && end in graph
    ensures result.distancia.None? <==> result.caminho == []
    ensures result.distancia.Some? <==> Reachable(graph, start, end)
    ensures result.distancia.Some? ==>
      IsPath(graph, result.caminho, start, end) && PathWeight(graph, result.caminho) == result.distancia.value
    ensures start == end ==> result == Response(Some(0), [start])
    ensures NonNeg(graph) && result.distancia.Some? ==>
      forall q :: IsPath(graph, q, start, end) ==> result.distancia.value <= PathWeight(graph, q)
  {
    var distances, previousNodes, unvisited, rank, round := Explore(graph, start);
    var path := Reconstruct(graph, start, end, distances, previousNodes, unvisited, rank, round);
    result := Response(if distances[end] != Inf then Some(distances[end].n) else None, path);
    ReachableIsFinite(graph, distances, start);
    if NonNeg(graph) {
      ClosedIsOptimal(graph, distances, start);
    }
  }
}
