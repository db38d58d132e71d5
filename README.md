# CP Problem Visualizer, modelled in Dafny

A Dafny model of the algorithmic core of `cp_problem_visualizer.cpp`. The program is a
console tool that traces four textbook algorithms step by step. It also builds an
undirected graph from an edge list. Each tracer becomes a method, and what it prints
becomes the trace the method returns:

- **Binary search** (`BinarySearch`). The `while (l <= r)` loop keeps the inclusive bounds
  `l` and `r`. The trace is a sequence of `Step(l, r, mid, a[mid], move)`, where the move
  is found, move right or move left. The method also returns the final report:
  found at an index, or not found.
- **BFS** (`BreadthFirst`). A FIFO queue plus a `visited` array, where a node is flagged
  at the moment it is pushed. Each printed block becomes
  `Step(queue snapshot, dequeued node, pushed neighbours)`.
- **DFS** (`DepthFirst`). The recursive `dfsHelper` shares one `visited` array across the
  whole call tree and carries a `depth`. The trace holds `Visiting(node, depth)` and
  `GoDeeper(node, depth)` lines, where the depth is the indentation level in units of
  two spaces. The pure functions `DfsCall` and `DfsLoop` define the same call tree as
  a reference, and the method is proved to print exactly what they compute.
- **Fibonacci DP** (`FibonacciDp`). The bottom-up fill of `dp[0..n]`, proved equal to the
  recursive `Fib`.
- **Graph construction** (`Adjacency`). The edge loop in `main` appends `v` to `adj[u]` and
  `u` to `adj[v]`. The module proves that the result is symmetric.

`Graph` holds what the two traversals share: walks, reachability, edge-closed node sets,
and the count of unvisited flags. That count is the measure that makes the DFS
recursion terminate.

The tracers are imperative, as in the source:

- the `visited` vectors are `array<bool>` that the methods modify;
- the DP table is an `array<int>`;
- every loop is a `while` or `for` with its invariants;
- `dfsHelper` is a recursive method whose `decreases` clause is the number of unvisited
  nodes, paired with whether `node` itself was already visited.

Each method is proved against pure specification functions and ghost predicates. Lemmas
then prove what those specifications imply.

## Model

| member | source | states |
|---|---|---|
| Adjacency.EdgeInsertion | cp_problem_visualizer.cpp:170-171 | Inserting one edge (u, v) appends v to u's list and u to v's list. A self-loop appends u twice to its own list. Every other list is unchanged. |
| Adjacency.NeighbourCount | cp_problem_visualizer.cpp:167-172 | Node v occurs in u's list once for every input edge (u, v) and once for every input edge (v, u). |
| Adjacency.Symmetric | cp_problem_visualizer.cpp:167-172 | The built graph is symmetric: v occurs in u's list exactly as often as u occurs in v's list, so v is a neighbour of u iff u is a neighbour of v. |
| Adjacency.NeighboursInRange | cp_problem_visualizer.cpp:165-172 | When every endpoint is a node index, every list entry is one too. |
| Adjacency.InsertEdge | cp_problem_visualizer.cpp:167-172 | One loop iteration, appending v to adj[u] and then u to adj[v], turns the lists of the first i edges into those of the first i + 1. |
| Adjacency.BuiltGraph | cp_problem_visualizer.cpp:165-172 | Lists built from edges whose endpoints are node indices form a valid graph that is symmetric in multiplicities. |
| Adjacency.BuildAdjacency | cp_problem_visualizer.cpp:165-172 | The edge loop yields n lists. List w holds the contributions of the edges at w, in input order. The result is a valid graph and is symmetric in multiplicities. |
| Adjacency.ScenarioFourNodes | cp_problem_visualizer.cpp:167-172 | Edges (0,1), (0,2), (1,3) on four nodes give the lists 0: 1 2, 1: 0 3, 2: 0 and 3: 1. |
| Adjacency.RunFourNodes | cp_problem_visualizer.cpp:165-172 | Running the edge loop on that input builds exactly those lists. |
| BinarySearch.BisectionSteps | cp_problem_visualizer.cpp:26-44 | Every probe satisfies l <= mid <= r, and its bounds lie within the initial bounds. The printed value is a[mid]. A step reports found iff a[mid] == target, and only the last step can report found. |
| BinarySearch.NextBounds | cp_problem_visualizer.cpp:37-43 | After a probe that misses, the new bounds are nested in the old ones and the range at least halves. |
| BinarySearch.BisectionMiss | cp_problem_visualizer.cpp:37-43 | After a probe that misses, the step is recorded with its move, then bisection continues on the half the move selects. |
| BinarySearch.MoveRightStep | cp_problem_visualizer.cpp:37-39 | A probe below the target records "move right" and continues in mid + 1 .. r. |
| BinarySearch.MoveLeftStep | cp_problem_visualizer.cpp:41-43 | A probe above the target records "move left" and continues in l .. mid - 1. |
| BinarySearch.FoundStep | cp_problem_visualizer.cpp:33-35 | A probe that hits is the last step, and the report names index mid. |
| BinarySearch.EmptyBounds | cp_problem_visualizer.cpp:26 | Once l > r, no further steps are taken. |
| BinarySearch.MissesOnly | cp_problem_visualizer.cpp:33-47 | In a run where only the last step can hit, "not found" is reported iff no step hit. |
| BinarySearch.NotFoundIffNoHit | cp_problem_visualizer.cpp:25-47 | A bisection ends with "not found" iff none of its probes hit the target. |
| BinarySearch.OutcomeAfterMiss | cp_problem_visualizer.cpp:37-44 | A probe that misses does not change the final report. |
| BinarySearch.FoundIsCorrect | cp_problem_visualizer.cpp:33-35 | A "found at index i" report has i within the bounds and a[i] == target. |
| BinarySearch.TargetInNextBounds | cp_problem_visualizer.cpp:37-43 | On a sorted sequence, the half discarded after a miss holds no occurrence of the target. |
| BinarySearch.NotFoundIsCorrect | cp_problem_visualizer.cpp:26-47 | On a sorted sequence whose occurrences of the target all lie within the bounds, "not found" is reported iff the target does not occur. |
| BinarySearch.BisectionLength | cp_problem_visualizer.cpp:26-43 | The loop takes at most Bits(r - l + 1) = ceil(log2(r - l + 2)) steps, so it terminates. |
| BinarySearch.SearchLength | cp_problem_visualizer.cpp:21-43 | Over the whole sequence there are at most ceil(log2(length of a + 1)) steps. |
| BinarySearch.WholeSearch | cp_problem_visualizer.cpp:20-48 | For the bisection of 0 .. length of a - 1 and the report its last step determines: a found index lies in a and holds the target. "Not found" is reported iff no probe hit. On sorted input "not found" is reported iff the target does not occur. There are at most ceil(log2(length of a + 1)) steps. An empty sequence gives no step and "not found". |
| BinarySearch.Search | cp_problem_visualizer.cpp:20-48 | The loop prints exactly the bisection of 0 .. length of a - 1, returning at the probe that hits. The report is "found at mid" for a final hit and "not found" otherwise. `WholeSearch` states what the trace and the report then guarantee. |
| BinarySearch.ScenarioFound | cp_problem_visualizer.cpp:20-48 | On 1 3 5 7 9 11 with target 7, the probes are indices 2, 4 and 3, and the report is index 3. |
| BinarySearch.RunFound | cp_problem_visualizer.cpp:20-48 | Running the tracer on that input yields exactly those three steps and the report index 3. |
| Graph.UnvisitedMark | cp_problem_visualizer.cpp:77 | Flagging an unvisited node lowers the number of unvisited nodes by exactly one. |
| Graph.ClosedContainsReachable | cp_problem_visualizer.cpp:75-81 | A node set that contains s and is closed under edges contains every node reachable from s. |
| BreadthFirst.DiscoverNeighbour | cp_problem_visualizer.cpp:76-78 | Flagging and pushing an unflagged neighbour of a discovered node keeps three facts: the flags are exactly the discovered nodes, none is discovered twice, and all are reachable from start. |
| BreadthFirst.NewNeighboursExact | cp_problem_visualizer.cpp:75-81 | The nodes the for-each pushes are neighbours that were not discovered before it, and every neighbour is either already discovered or pushed. No node is pushed twice, even when it occurs twice in the list. |
| BreadthFirst.PushedSoFar | cp_problem_visualizer.cpp:76-80 | At each list entry, an entry already flagged is skipped and an unflagged one is pushed next. The remaining pushes are then those of the rest of the list. |
| BreadthFirst.PushingStart | cp_problem_visualizer.cpp:75 | Before the first neighbour, the for-each's invariant holds with nothing pushed. |
| BreadthFirst.PushingSkip | cp_problem_visualizer.cpp:76 | Skipping a flagged neighbour keeps the for-each's invariant. |
| BreadthFirst.PushingPush | cp_problem_visualizer.cpp:76-79 | Flagging and pushing an unflagged neighbour keeps the for-each's invariant. |
| BreadthFirst.PushingDone | cp_problem_visualizer.cpp:75-81 | After the last neighbour, every neighbour is discovered and the pushes are exactly `NewNeighbours` of the list. |
| BreadthFirst.PushNeighbours | cp_problem_visualizer.cpp:75-81 | The for-each appends the pushed nodes to the queue. The pushed nodes are exactly the neighbours of the dequeued node that were not yet discovered, each once, in adjacency-list order (`NewNeighbours`). Afterwards every neighbour is discovered, and the flags are exactly the discovered nodes. |
| BreadthFirst.ProgressInit | cp_problem_visualizer.cpp:52-59 | After start is pushed and flagged, the loop invariant holds. |
| BreadthFirst.ProgressFront | cp_problem_visualizer.cpp:71-72 | The dequeued node is a discovered node, and fewer nodes than the graph has have been visited. |
| BreadthFirst.ProgressStep | cp_problem_visualizer.cpp:62-83 | One iteration (snapshot, dequeue, push) keeps the loop invariant: visits followed by the queue equal start followed by the pushes. |
| BreadthFirst.AllReachableVisited | cp_problem_visualizer.cpp:62-83 | Once every visited node's neighbours are discovered, every node reachable from start has been visited. |
| BreadthFirst.ProgressDone | cp_problem_visualizer.cpp:62-83 | With the queue empty, the visits are start followed by the pushes, with no node twice: exactly the nodes reachable from start. |
| BreadthFirst.SnapshotLengthsStep | cp_problem_visualizer.cpp:62-73 | Every printed snapshot runs to the last node discovered before its block: block k shows 1 + (nodes pushed by earlier blocks) - k nodes. Appending a block whose snapshot has that length keeps this for the whole trace. |
| BreadthFirst.Bfs | cp_problem_visualizer.cpp:51-84 | The first step's snapshot is [start] and it visits start. The visit order is start followed by the pushes. No node is visited twice, and there are at most n steps. A node is visited iff it is reachable from start. Step k's snapshot is the window of the discovery order from its k-th node to the last node discovered before the step. Its pushes are exactly the neighbours of its node not discovered by then, in list order. On the four-node example these clauses determine the whole trace (`ScenarioFourNodes`, `RunFourNodes`). |
| BreadthFirst.PushesPrefix | cp_problem_visualizer.cpp:62-83 | The nodes pushed by the first k blocks are a prefix of all the nodes pushed. |
| BreadthFirst.DiscoveredSoFar | cp_problem_visualizer.cpp:58-83 | After k blocks, the nodes discovered are start followed by what those blocks pushed, and that many blocks are eventually printed. |
| BreadthFirst.ScenarioStep | cp_problem_visualizer.cpp:62-81 | Block k visits the k-th discovered node. Its queue runs from there up to the last node discovered so far, and its pushes are computed from that prefix. |
| BreadthFirst.ScenarioNeighbours | cp_problem_visualizer.cpp:75-81 | For the four-node example: with 0 discovered, node 0 pushes 1 and 2; with 0, 1 and 2 discovered, node 1 pushes 3; with all four discovered, nodes 2 and 3 push nothing. |
| BreadthFirst.ScenarioFirstStep | cp_problem_visualizer.cpp:62-81 | In the four-node example, block 1 shows queue [0], visits 0 and pushes 1 and 2. |
| BreadthFirst.ScenarioSecondStep | cp_problem_visualizer.cpp:62-81 | In the four-node example, block 2 shows queue [1 2], visits 1 and pushes 3. |
| BreadthFirst.ScenarioThirdStep | cp_problem_visualizer.cpp:62-81 | In the four-node example, block 3 shows queue [2 3], visits 2 and pushes nothing. |
| BreadthFirst.ScenarioLastStep | cp_problem_visualizer.cpp:62-81 | In the four-node example, block 4 shows queue [3], visits 3 and pushes nothing. |
| BreadthFirst.ScenarioFourNodes | cp_problem_visualizer.cpp:51-84 | Any trace meeting the guarantees of `Bfs` on edges (0,1), (0,2), (1,3) from node 0 is the four blocks above: visit order 0, 1, 2, 3. |
| BreadthFirst.RunFourNodes | cp_problem_visualizer.cpp:51-84 | Running the BFS tracer on that graph from node 0 yields exactly those four blocks. |
| DepthFirst.VisitedNodesAppend | cp_problem_visualizer.cpp:90 | The visited nodes of a concatenated trace are those of the two parts, in order. |
| DepthFirst.PartialStart | cp_problem_visualizer.cpp:88-90 | After marking node and printing "Visiting node", the call's invariant holds with node as its only visit. |
| DepthFirst.DescendFresh | cp_problem_visualizer.cpp:93-95 | A recursive call on an unvisited neighbour visits only nodes unvisited before it, so no node is visited twice. |
| DepthFirst.DescendCount | cp_problem_visualizer.cpp:93-95 | Each visit consumes one unvisited node. |
| DepthFirst.DescendReach | cp_problem_visualizer.cpp:92-95 | Nodes visited below a neighbour are reachable from node. |
| DepthFirst.DescendClosed | cp_problem_visualizer.cpp:92-97 | After the recursive call returns, every neighbour of a node visited below node is flagged. |
| DepthFirst.DescendDepths | cp_problem_visualizer.cpp:94-95 | Lines sit at the call's depth or deeper, by fewer levels than there are visits. |
| DepthFirst.DescendNested | cp_problem_visualizer.cpp:94-95 | Each "Go deeper to w" at depth d is followed at once by "Visiting node w" at depth d + 1. Each later "Visiting node" line follows its "Go deeper" line. |
| DepthFirst.CallInside | cp_problem_visualizer.cpp:90-95 | After a call's "Visiting node" line at depth d, every line it prints is a "Go deeper to" at depth d or deeper, or a visit deeper than d. |
| DepthFirst.DescendParented | cp_problem_visualizer.cpp:92-95 | After a descent, every "Go deeper to w" line still has a parent line. The new line's parent is node's own "Visiting node" line, and w is a neighbour of node. Lines inside the sub-call keep their parents inside the sub-call. |
| DepthFirst.ParentedRejectsShortcut | cp_problem_visualizer.cpp:92-95 | On the path 0 - 1 - 2, a trace that goes deeper from 0 straight to 2 breaks the parent clause. |
| DepthFirst.ParentedAcceptsPath | cp_problem_visualizer.cpp:87-98 | On the same path, the trace that goes deeper from 1 to 2 meets the parent clause. |
| DepthFirst.Descend | cp_problem_visualizer.cpp:92-97 | One descent into an unvisited neighbour keeps the call's invariant, including the parent clause. |
| DepthFirst.Shrinks | cp_problem_visualizer.cpp:93-95 | The recursion measure (unvisited count, whether node was visited on entry) strictly decreases at every recursive call. |
| DepthFirst.MarkCount | cp_problem_visualizer.cpp:88 | Setting visited[node] lowers the unvisited count by one if node was unvisited, and leaves it unchanged otherwise. |
| DepthFirst.DfsCall | cp_problem_visualizer.cpp:87-98 | Reference definition of one dfsHelper call: mark node, print "Visiting node", then run the for-each. Afterwards node is flagged and no flag was cleared. The unvisited count drops, unless node was flagged on entry. |
| DepthFirst.DfsLoop | cp_problem_visualizer.cpp:92-97 | Reference definition of the for-each from neighbour i on: a flagged neighbour is skipped, and an unflagged one prints "Go deeper to" followed by its own call. No flag is cleared and the unvisited count never rises. |
| DepthFirst.FollowsDescend | cp_problem_visualizer.cpp:93-96 | A descent into an unvisited neighbour extends the printed lines by "Go deeper to w" and the sub-call's lines, which keeps them a prefix of the reference call's output. |
| DepthFirst.FollowsDone | cp_problem_visualizer.cpp:92-97 | After the last neighbour, the printed lines and the flags are exactly those of the reference call. |
| DepthFirst.ScannedStart | cp_problem_visualizer.cpp:88-90 | Before the first neighbour, the for-each's invariant holds with "Visiting node" printed. |
| DepthFirst.ScannedSkip | cp_problem_visualizer.cpp:92-93 | Passing over a visited neighbour keeps the for-each's invariant. |
| DepthFirst.ScannedDescend | cp_problem_visualizer.cpp:92-96 | Descending into an unvisited neighbour keeps the for-each's invariant. |
| DepthFirst.DfsHelper | cp_problem_visualizer.cpp:87-98 | On return, the printed lines and the new flags are exactly those of the reference call `DfsCall` on the entry flags. The flags are the old flags plus exactly the visited nodes, so flags only grow and visited[node] holds. Node is visited first, each node at most once, and every later visit was unvisited on entry. All visited nodes are reachable from node. Every neighbour of a visited node is flagged. Depths stay within depth .. depth + visits - 1. "Go deeper" and "Visiting" lines pair up. Each "Go deeper to w" line at depth d has a parent: the "Visiting node p" line at depth d of the call still open, with w a neighbour of p. |
| DepthFirst.DfsComplete | cp_problem_visualizer.cpp:100-104 | From an all-unvisited vector, the visits are exactly the nodes reachable from start, each once. No line is deeper than the node count minus one. Lines are nested and each "Go deeper" line has a parent. |
| DepthFirst.Dfs | cp_problem_visualizer.cpp:100-104 | The trace is that of the reference call `DfsCall` from start at depth 0 on an all-unvisited vector. It starts with "Visiting node start" at depth 0. The visits are exactly the nodes reachable from start, with no node twice. Every depth is below the node count. The go-deeper/visiting lines are properly nested. Each "Go deeper to w" line at depth d is printed by the call open at depth d, whose node has w as a neighbour. |
| DepthFirst.ScenarioNodeThree | cp_problem_visualizer.cpp:87-98 | In the four-node example, the call at node 3 (with 0 and 1 visited) prints only "Visiting node 3" at depth 2 and flags 3. |
| DepthFirst.ScenarioNodeOne | cp_problem_visualizer.cpp:87-98 | In the four-node example, the call at node 1 skips 0 and goes deeper to 3. |
| DepthFirst.ScenarioNodeTwo | cp_problem_visualizer.cpp:87-98 | In the four-node example, the call at node 2 prints only "Visiting node 2" and leaves all four flagged. |
| DepthFirst.ScenarioFourNodes | cp_problem_visualizer.cpp:87-104 | On edges (0,1), (0,2), (1,3) from node 0, the lines are: Visiting 0, Go deeper to 1, Visiting 1, Go deeper to 3, Visiting 3, Go deeper to 2, Visiting 2. This is pre-order 0, 1, 3, 2. |
| DepthFirst.RunFourNodes | cp_problem_visualizer.cpp:100-104 | Running the DFS tracer on that graph from node 0 yields exactly those seven lines. |
| FibonacciDp.FillTable | cp_problem_visualizer.cpp:107-124 | The table has n + 1 cells, dp[i] == Fib(i) for 0 <= i <= n, and the reported value is Fib(n). This includes n = 0, where there is a single cell and no loop iteration. |
| FibonacciDp.FibMonotone | cp_problem_visualizer.cpp:117-118 | The table never decreases towards higher indices. |
| FibonacciDp.FibFitsInt32 | cp_problem_visualizer.cpp:110-118 | Every cell dp[i] with i <= 46 fits in a signed 32-bit int, and dp[47] does not. |
| FibonacciDp.ScenarioFive | cp_problem_visualizer.cpp:107-124 | For n = 5 the cells are 0 1 1 2 3 5. |
| FibonacciDp.RunFive | cp_problem_visualizer.cpp:107-124 | Running the tracer with n = 5 prints the cells 0 1 1 2 3 5 and reports 5. |

## Left out

- Console I/O is not part of this model: the menu, every `cin` read, the "Invalid choice" branch and the banners (lines 127-194). Each tracer instead takes its input as parameters, and the edge loop takes the edge list.
- The exact output text is not modelled: step counters, arrows, spacing, and the two-space indentation per DFS level. The traces keep every printed value as data instead.
- The BFS queue snapshot is not printed element by element (lines 64-68); each step records it as a sequence.
- Undefined behaviour on bad input becomes `requires` clauses:
  - node indices in edges lie within 0 .. n - 1 (`EndpointsInRange`);
  - adjacency entries are node indices (`ValidGraph`);
  - `start` is a node;
  - `n` is a `nat` in the DP, and so is the node count in `Adjacency.BuildAdjacency`. The source's `vector<vector<int>> adj(n)` with a negative `n` is not modelled.
- BinarySearch.WholeSearch: an unsorted array is not excluded. The search runs on any sequence. Only the "not found iff absent" clause is stated as conditional on sortedness.
- FibonacciDp.FillTable: uses mathematical integers and does not model the signed 32-bit overflow from n = 47 on, which is undefined behaviour in C++. FibFitsInt32 shows the model equals the 32-bit table exactly for n <= 46.
- BreadthFirst.Bfs: the visit order is not proved to be by increasing distance from start.
- Call-stack exhaustion in deep DFS recursion is not modelled.
