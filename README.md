# Shortest paths in the graph editor

The application lets a user build a small directed weighted graph and ask for
the shortest path between two vertices. The same Dijkstra computation exists
twice, and this project models both.

- **Browser version.** The page keeps the graph as an N x N adjacency matrix of
  integers, where 0 means "no edge". It offers four actions:
  - "create graph" (2 to 26 vertices);
  - "add edge", which writes one cell;
  - "remove edge", which zeroes one cell;
  - "find path", which runs an array-based `dijkstra` with `dist`, `visited` and
    `prev` arrays over N-1 rounds, then rebuilds the path by following `prev`
    back from the target and reversing it.
- **Server version.** `dijkstra(graph, start, end)` works on a dict of dicts
  keyed by vertex labels. It keeps an `unvisited` set, relaxes only neighbours
  that are still unvisited, and answers `{distancia, caminho}`. An unreachable
  target gives `None` and `[]`.

Modules:

- `Distances`: the shared values.
  - `Dist` is either `Fin(n)` or `Inf`. `Inf` stands for `Infinity` and
    `float('infinity')`.
  - `Option` stands for `null` and `None`.
  - The `<` comparison and the `+` addition of both languages on these values.
- `MatrixPaths`: paths over the matrix and the facts that make a finished
  `dist`/`prev` pair correct:
  - `ChainOk`: the predecessor links are edges whose weights account for the
    distances;
  - `Closed`: no edge can improve any distance;
  - the optimality lemma;
  - the reachability lemma.
- `ScriptDijkstra`: the browser's `dijkstra`.
  - It runs on Dafny arrays.
  - The minimum scan and the relaxation of one row are methods of their own.
  - The invariant of the rounds is kept by step lemmas.
- `ScriptEditor`: the page's global state as a class `Editor` (`graph`,
  `numVertices`, `lastPath`), with one method per action. The path
  reconstruction is `BuildPath`.
- `SparsePaths`: paths over the server's dict-of-dicts graph. A neighbour key
  that is not itself a vertex is not an edge.
- `App`: the server's `dijkstra`.
  - The main loop is `Explore` and the path rebuilding is `Reconstruct`.
  - Python's set iteration order is an arbitrary choice among the candidates.
  - A ghost `rank` records the order in which vertices were visited; it proves
    that the walk back along `previous_nodes` ends.

What is proved:

- Browser version, for every matrix:
  - every recorded predecessor is a nonzero cell;
  - the minimum scan picks an unvisited vertex of least distance, breaking ties
    by the lowest index.
- Browser version, when no cell is negative:
  - `dist[t]` is finite exactly when `t` is reachable;
  - `dist[t]` is at most the weight of every path;
  - the rebuilt path goes from the origin to the target through nonzero cells,
    and its weights sum to the reported distance;
  - a query from a vertex to itself answers `[origem]` at distance 0.
- Server version, for every weight:
  - `distancia` is `None` exactly when `caminho` is empty, and exactly when
    `end` is unreachable;
  - a returned path runs from `start` to `end` along edges of the graph, and its
    weights sum to `distancia`;
  - `start == end` answers distance 0 and path `[start]`.
- Server version, with non-negative weights: `distancia` is no larger than the
  weight of any path.

The model follows the code as written:

- Adding an edge accepts any weight that parses as an integer, including 0,
  negative weights and self-loops.
- Relaxation in the browser tests the cell for `!== 0`, not for `> 0`.
- `numVertices` is assigned before it is validated, so a rejected count still
  replaces it.
- Optimality is proved against every path, not only simple ones.

## Model

| member | source | states |
|---|---|---|
| `MatrixPaths.ChainPathIsPath` | static/script.js:89-95 | Following `prev` back from a vertex of finite distance ends at the source. The vertices met form a path through nonzero cells whose weight equals that distance. |
| `MatrixPaths.WalkBound` | static/script.js:119-124 | On a distance vector that no edge can improve, the end of a walk is at most the start's distance plus the walk's weight. |
| `MatrixPaths.ClosedIsOptimal` | static/script.js:102-128 | With the source at 0 and no improving edge, `dist[t]` is at most the weight of every path from the source to `t`. |
| `MatrixPaths.FiniteIffReachable` | static/script.js:108-116 | For a finished `dist`/`prev` pair, `dist[t]` is finite if and only if `t` is reachable from the source. |
| `ScriptDijkstra.FinishedByCount` | static/script.js:108 | After N-1 rounds at most one vertex is unvisited, so no unvisited vertex of finite distance has an unvisited companion. |
| `ScriptDijkstra.VisitStep` | static/script.js:116-117 | Marking the closest unvisited vertex visited keeps the invariant. That vertex is then the farthest visited vertex. |
| `ScriptDijkstra.RelaxStep` | static/script.js:120-123 | Relaxing one cell keeps the invariant and extends the relaxed part of the row. An update sets `prev[v] = u` only along a nonzero cell, with `dist[v] = dist[u] + graph[u][v]`. |
| `ScriptDijkstra.ClosedAtExit` | static/script.js:108-125 | When the rounds end, normally or by the early break, no edge can improve any distance. |
| `ScriptDijkstra.SelectMin` | static/script.js:109-114 | It returns -1 exactly when every vertex is visited. Otherwise it returns an unvisited vertex whose distance is at most every unvisited distance and strictly below every unvisited vertex of lower index, so ties go to the lowest index. |
| `ScriptDijkstra.RelaxRow` | static/script.js:119-124 | For every matrix, an entry changes only when its distance becomes strictly shorter; `prev` then points at `u` through a nonzero cell, and every recorded predecessor stays a nonzero cell. With non-negative cells, the new `dist` and `prev` are exactly the strict relaxation of the old ones along row `u`: a cell changes the target if and only if it is nonzero and `dist[u] + graph[u][v] < dist[v]`, so an equal-cost route never replaces `prev`. The round invariant then holds with the whole row relaxed. |
| `ScriptDijkstra.Dijkstra` | static/script.js:102-128 | `dist` and `prev` have `numVertices` entries, and every predecessor is a nonzero cell. With non-negative cells: `dist[start]` is 0 with no predecessor; each predecessor link accounts for the distances; `dist[t]` is finite if and only if `t` is reachable; and `dist[t]` is at most the weight of every path to `t`. |
| `ScriptEditor.Backwards` | static/script.js:94 | The result has the length of the input, and its entry `i` is the input's entry `|s| - 1 - i`: the sequence reversed, as `reverse()` leaves the array. |
| `ScriptEditor.BuildPath` | static/script.js:89-95 | An infinite target gives an empty path. A finite target gives the chain of `prev` links from the source to the target, in forward order. |
| `ScriptEditor.Editor.constructor` | static/script.js:5-15 | The page starts with an empty matrix, zero vertices and an empty last path. |
| `ScriptEditor.Editor.CreateGraph` | static/script.js:18-27 | `numVertices` becomes the requested count in every case. The call succeeds if and only if the count is between 2 and 26, and then the matrix is n x n with every cell 0. Otherwise the matrix is unchanged, and it stays square. |
| `ScriptEditor.Editor.AddEdge` | static/script.js:47-57 | The labels index the stored matrix, even after a rejected count has made `numVertices` stale. The call succeeds if and only if both labels are found and the weight parses. Then cell u -> v holds the weight. Every other cell is unchanged, including v -> u. The matrix keeps its size, and a consistent editor stays consistent. |
| `ScriptEditor.Editor.RemoveEdge` | static/script.js:63-72 | The labels index the stored matrix, even after a rejected count. The call succeeds if and only if both labels are found. Then cell u -> v is 0 and every other cell is unchanged. Removing an absent edge leaves the matrix equal to what it was, so a second removal changes nothing. |
| `ScriptEditor.Editor.FindPath` | static/script.js:78-98 | A rejected label leaves `lastPath` untouched. Otherwise the distance is finite if and only if the target is reachable, and an unreachable target gives an empty `lastPath`. A reachable target gives a path from the origin to the target whose weight is the distance and is minimal. The origin as target gives distance 0 and path `[origem]`. |
| `SparsePaths.Prepend` | app.py:43 | Putting a vertex with an edge to the head of a walk in front of it gives a walk heavier by exactly that edge. |
| `SparsePaths.WalkFinite` | app.py:31-36 | When edges keep finite distances finite, a walk from a finite vertex ends at a finite vertex. |
| `SparsePaths.WalkBound` | app.py:31-36 | On a distance map no edge can improve, the end of a walk is at most the start's distance plus the walk's weight. |
| `SparsePaths.ReachableIsFinite` | app.py:16-36 | Every vertex reachable from a finite vertex is finite, when edges keep finite distances finite. |
| `SparsePaths.ClosedIsOptimal` | app.py:16-36 | With the start at 0 and no improving edge, every distance is at most the weight of every path from the start. |
| `App.Closest` | app.py:18-21 | The chosen node is unvisited, and its distance is at most that of every unvisited node. |
| `App.RelaxNeighbours` | app.py:31-36 | The key sets are kept, so keys that are not vertices are ignored. A node changes exactly when it is an unvisited neighbour whose new distance is strictly shorter; it then gets that distance and the current node as predecessor. Equal-cost alternatives change nothing. |
| `App.InitialTracked` | app.py:11-14 | The initial maps satisfy the loop invariant: the start at 0, the others at infinity, no predecessors, everything unvisited. |
| `App.FirstVisitIsStart` | app.py:18-28 | While the start is unvisited, the only node of finite distance is the start, so it is the first node visited. |
| `App.VisitStep` | app.py:18-28 | Removing the closest node of finite distance from `unvisited` keeps the invariant. The visited node gets the next rank. |
| `App.VisitOrdered` | app.py:18-28 | With non-negative weights, the visited nodes are never farther than the unvisited ones, and that stays true after the visit. |
| `App.RelaxLinks` | app.py:31-36 | After relaxation each predecessor is still a visited node, and its edge accounts for the distance difference. |
| `App.RelaxSettled` | app.py:31-36 | After relaxing the current node, every visited node has a finite distance and its edges to unvisited nodes are relaxed. |
| `App.RelaxStep` | app.py:31-36 | Relaxing the neighbours of the node just visited restores the loop invariant. |
| `App.RelaxOrdered` | app.py:31-36 | With non-negative weights, relaxation keeps visited nodes no farther than unvisited ones. |
| `App.ExitClosed` | app.py:23-25 | When every unvisited node is at infinity, edges keep finite distances finite. With non-negative weights, no edge can improve any distance. |
| `App.Explore` | app.py:11-36 | On exit, a node's distance is finite exactly when it was visited, and predecessors form links towards the start. Edges keep finite distances finite, and with non-negative weights no edge can improve a distance. |
| `App.StepBack` | app.py:42-44 | Inserting the predecessor at the front keeps a path to `end` of the right weight. The predecessor was visited earlier, so the walk back ends. |
| `App.Reconstruct` | app.py:39-44 | An infinite `end` gives `[]`. A finite `end` gives a path from `start` to `end` whose weight is the distance of `end`. `start == end` gives `[start]`. |
| `App.Dijkstra` | app.py:6-49 | `distancia` is `None` if and only if `caminho` is empty, and if and only if `end` is unreachable. A returned path runs from `start` to `end` and weighs `distancia`. `start == end` answers `(0, [start])`. With non-negative weights, `distancia` is at most the weight of every path. |

## Left out

- Canvas drawing, the circular vertex layout and the HTML built by
  `renderMatrix` and `mostrarResultado` are presentation only.
- DOM events, `alert`, reading input fields, `parseInt` and label lookup are
  not modelled. A label that is not found is passed as -1, and a weight that
  does not parse is passed as `None`.
- A vertex count that is `NaN` is not modelled: the count is an `int`.
- ScriptEditor.Editor.AddEdge and ScriptEditor.Editor.RemoveEdge: a label
  index outside the stored matrix is excluded by a precondition. There
  JavaScript fails, or grows the array:
  - a row label at or beyond the matrix size throws a `TypeError`;
  - a column label beyond it grows row `u`.
- ScriptEditor.Editor.FindPath: labels at or above `numVertices` are excluded by
  a precondition. The page behaves as follows with such labels:
  - A target label beyond the count hangs the page. Its `dist` entry is
    `undefined`, not `Infinity`, so the walk along `prev` pushes `undefined`
    forever. For example, with 3 vertices, target "D".
  - An origin label beyond the count writes its 0 outside the range the
    minimum scan reads. The first round then stops at `Infinity`, and the page
    reports that there is no path.
- The Flask application, its routes and the JSON decoding and encoding are not
  modelled. `Dijkstra` takes the decoded graph.
- Python's set iteration order is modelled as an arbitrary choice, so ties
  between equally distant nodes may go either way.
- `start` and `end` must be keys of the graph; both are preconditions here.
  The server behaves as follows when they are not:
  - A missing `end` raises `KeyError` when its distance is read.
  - A missing `start` that equals `end` also raises `KeyError`, during the walk
    back along `previous_nodes`.
  - A missing `start` with `end` present gives `{None, []}`. Assigning the
    start's distance adds a key that is not in `unvisited`, so the first scan
    sees only infinite distances and stops.
- Weights are unbounded integers. The floating-point behaviour of very large
  JavaScript or Python numbers is not modelled.
- ScriptDijkstra.Dijkstra: its distance, reachability and optimality guarantees
  are stated only for matrices without negative cells. With a negative cell a
  visited vertex can be improved after its round, and its `prev` chain can
  form a cycle.
- ScriptEditor.Editor.FindPath: requires a matrix without negative cells.
  Otherwise the `prev` walk in the handler can cycle forever. For example,
  with three vertices and edges A -> B of weight 1 and B -> A of weight -5, a
  query from A to B never ends.
- App.Dijkstra: optimality is stated only for non-negative weights. The other
  guarantees hold for every weight, because visited nodes are never relaxed
  again.
- ScriptEditor.Editor.FindPath: requires a consistent editor, where the matrix
  is `numVertices` x `numVertices`. After a rejected "create graph" the stored
  count can differ from the matrix size, and the page still accepts "find
  path". The model says nothing about that state.
  - With a smaller count, `dijkstra` sizes its arrays from that count. A target
    beyond it has an `undefined` distance, not `Infinity`, so the handler's
    walk along `prev` pushes `undefined` forever. For example: create 5
    vertices, enter 1, then look for a path from A to B.
  - AddEdge and RemoveEdge do cover this state, since they index the stored
    matrix.
- The previous path is kept as a sequence field. The drawing that highlights
  it is not modelled.
