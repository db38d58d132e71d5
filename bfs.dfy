/** The BFS tracer: a FIFO queue of pending nodes and a visited flag per node;
    a node is marked visited when it is pushed, so it is pushed at most once. */
module BreadthFirst {
  import opened Graph

  /** One printed block: the queue snapshot taken before the dequeue, the node
      dequeued ("Visiting node"), and the neighbours pushed ("-> Push"), in order. */
  datatype Step = Step(queue: seq<int>, node: int, pushed: seq<int>)

  /** The "Visiting node" events in order. */
  function Visits(steps: seq<Step>): (r: seq<int>)
    ensures |r| == |steps| && forall k :: 0 <= k < |steps| ==> r[k] == steps[k].node
  {
    if steps == [] then [] else Visits(steps[..|steps| - 1]) + [steps[|steps| - 1].node]
  }

  lemma VisitsAppend(steps: seq<Step>, s: Step)
    ensures Visits(steps + [s]) == Visits(steps) + [s.node]
  {
    assert (steps + [s])[..|steps|] == steps;
  }

  /** The "Push" events in order. */
  function Pushes(steps: seq<Step>): seq<int>
  {
    if steps == [] then [] else Pushes(steps[..|steps| - 1]) + steps[|steps| - 1].pushed
  }

  lemma PushesAppend(steps: seq<Step>, s: Step)
    ensures Pushes(steps + [s]) == Pushes(steps) + s.pushed
  {
    assert (steps + [s])[..|steps|] == steps;
  }

  /** The nodes discovered so far, in discovery order, against the visited flags:
      exactly the flagged nodes, each discovered once, each reachable from start. */
  ghost predicate Discovered(adj: seq<seq<int>>, start: int, found: seq<int>, flags: seq<bool>)
  {
    && |flags| == |adj|
    && (forall w :: w in found ==> 0 <= w < |adj|)
    && (forall w :: 0 <= w < |adj| ==> (flags[w] <==> w in found))
    && NoDup(found)
    && Unvisited(flags) + |found| == |adj|
    && (forall w :: w in found ==> Reachable(adj, start, w))
  }

  /** Pushing an undiscovered neighbour of a discovered node keeps Discovered. */
  lemma DiscoverNeighbour(adj: seq<seq<int>>, start: int, found: seq<int>, flags: seq<bool>, node: int, neigh: int)
    requires Discovered(adj, start, found, flags)
    requires node in found && 0 <= neigh < |adj| && neigh in adj[node] && !flags[neigh]
    ensures Discovered(adj, start, found + [neigh], flags[neigh := true])
  {
    UnvisitedMark(flags, neigh);
    ReachableStep(adj, start, node, neigh);
    NoDupConcat(found, [neigh]);
  }

  /** The neighbours in ns that are not yet known, in order, each once: what the
      for-each over ns pushes when `known` are the nodes flagged visited. */
  function NewNeighbours(ns: seq<int>, known: seq<int>): seq<int>
    decreases |ns|
  {
    if ns == [] then []
    else if ns[0] in known then NewNeighbours(ns[1..], known)
    else [ns[0]] + NewNeighbours(ns[1..], known + [ns[0]])
  }

  /** The new neighbours are neighbours, none of them known and none twice, and
      every neighbour is known or new. */
  lemma {:induction false} NewNeighboursExact(ns: seq<int>, known: seq<int>)
    decreases |ns|
    ensures forall x :: x in NewNeighbours(ns, known) ==> x in ns && x !in known
    ensures forall x :: x in ns ==> x in known || x in NewNeighbours(ns, known)
    ensures NoDup(NewNeighbours(ns, known))
  {
    if ns != [] {
      var rest := ns[1..];
      assert forall x :: x in ns ==> x == ns[0] || x in rest;
      if ns[0] in known {
        NewNeighboursExact(rest, known);
      } else {
        NewNeighboursExact(rest, known + [ns[0]]);
        NoDupConcat([ns[0]], NewNeighbours(rest, known + [ns[0]]));
      }
    }
  }

  /** One more turn of the for-each: the neighbour at position j is pushed
      exactly when it is not yet known. */
  lemma PushedSoFar(ns: seq<int>, j: int, found: seq<int>, pushed: seq<int>, total: seq<int>)
    requires 0 <= j < |ns|
    requires pushed + NewNeighbours(ns[j..], found + pushed) == total
    ensures ns[j] in found + pushed ==> pushed + NewNeighbours(ns[j + 1..], found + pushed) == total
    ensures ns[j] !in found + pushed ==>
      (pushed + [ns[j]]) + NewNeighbours(ns[j + 1..], found + (pushed + [ns[j]])) == total
  {
    assert ns[j..][0] == ns[j] && ns[j..][1..] == ns[j + 1..];
    assert found + pushed + [ns[j]] == found + (pushed + [ns[j]]);
    assert pushed + [ns[j]] + NewNeighbours(ns[j + 1..], found + pushed + [ns[j]]) ==
      pushed + ([ns[j]] + NewNeighbours(ns[j + 1..], found + pushed + [ns[j]]));
  }

  /** Step k of a run whose discovered nodes (in discovery order) are `found`:
      its snapshot starts with the node it visits and is the window of `found`
      from position k on; it pushes exactly the neighbours of that node not
      discovered before it, in adjacency order; and every neighbour of that
      node has been discovered. */
  ghost predicate StepShape(adj: seq<seq<int>>, found: seq<int>, k: int, s: Step)
  {
    && 0 <= s.node < |adj|
    && |s.queue| > 0 && s.queue[0] == s.node
    && 0 <= k && k + |s.queue| <= |found| && s.queue == found[k..k + |s.queue|]
    && s.pushed == NewNeighbours(adj[s.node], found[..k + |s.queue|])
    && (forall j :: 0 <= j < |s.pushed| ==> s.pushed[j] in adj[s.node])
    && (forall w :: w in adj[s.node] ==> w in found)
  }

  lemma ShapesGrow(adj: seq<seq<int>>, steps: seq<Step>, found: seq<int>, more: seq<int>)
    requires forall k :: 0 <= k < |steps| ==> StepShape(adj, found, k, steps[k])
    ensures forall k :: 0 <= k < |steps| ==> StepShape(adj, found + more, k, steps[k])
  {
    forall k | 0 <= k < |steps|
      ensures StepShape(adj, found + more, k, steps[k])
    {
      var q := steps[k].queue;
      assert StepShape(adj, found, k, steps[k]);
      assert (found + more)[k..k + |q|] == found[k..k + |q|];
      assert (found + more)[..k + |q|] == found[..k + |q|];
    }
  }

  /** The block just printed has the shape of step |steps|. */
  lemma CloseStep(adj: seq<seq<int>>, steps: seq<Step>, found: seq<int>, snapshot: seq<int>, pushed: seq<int>, s: Step)
    requires found == Visits(steps) + snapshot
    requires s == Step(snapshot, s.node, pushed) && 0 <= s.node < |adj|
    requires snapshot != [] && snapshot[0] == s.node
    requires forall i :: 0 <= i < |pushed| ==> pushed[i] in adj[s.node]
    requires forall w :: w in adj[s.node] ==> w in found + pushed
    requires pushed == NewNeighbours(adj[s.node], found)
    ensures StepShape(adj, found + pushed, |steps|, s)
  {
    assert (found + pushed)[|steps|..|steps| + |snapshot|] == snapshot;
    assert (found + pushed)[..|steps| + |snapshot|] == found;
  }

  /** Dequeuing the front and appending the pushed nodes keeps visits + queue = discovered. */
  lemma DequeueAppend(visits: seq<int>, snapshot: seq<int>, pushed: seq<int>)
    requires snapshot != []
    ensures visits + [snapshot[0]] + (snapshot[1..] + pushed) == visits + snapshot + pushed
  {
    var rest := snapshot[1..];
    assert snapshot == [snapshot[0]] + rest;
    calc {
      visits + snapshot + pushed;
      (visits + ([snapshot[0]] + rest)) + pushed;
      { assert visits + ([snapshot[0]] + rest) == (visits + [snapshot[0]]) + rest; }
      ((visits + [snapshot[0]]) + rest) + pushed;
      (visits + [snapshot[0]]) + (rest + pushed);
    }
  }

  /** Once every visited node's neighbours are all visited, the visits are
      closed under edges and hence contain every node reachable from start. */
  lemma AllReachableVisited(adj: seq<seq<int>>, start: int, steps: seq<Step>)
    requires start in Visits(steps)
    requires forall k :: 0 <= k < |steps| ==> StepShape(adj, Visits(steps), k, steps[k])
    ensures forall v :: Reachable(adj, start, v) ==> v in Visits(steps)
  {
    forall x, w | x in Visits(steps) && 0 <= x < |adj| && w in adj[x]
      ensures w in Visits(steps)
    {
      var k :| 0 <= k < |steps| && Visits(steps)[k] == x;
      assert StepShape(adj, Visits(steps), k, steps[k]);
    }
    forall v | Reachable(adj, start, v)
      ensures v in Visits(steps)
    {
      ClosedContainsReachable(adj, Visits(steps), start, v);
    }
  }

  /** The state of the for-each over adj[node] before position j: the flags
      agree with the discovered nodes, the neighbours before j are flagged, and
      the nodes pushed so far followed by what the rest of the list will push
      are exactly the new neighbours of node. */
  ghost predicate Pushing(adj: seq<seq<int>>, start: int, node: int, found: seq<int>, j: int,
                          pushed: seq<int>, flags: seq<bool>)
  {
    && ValidGraph(adj) && 0 <= node < |adj| && node in found && 0 <= j <= |adj[node]|
    && Discovered(adj, start, found + pushed, flags)
    && (forall i :: 0 <= i < j ==> flags[adj[node][i]])
    && (forall i :: 0 <= i < |pushed| ==> pushed[i] in adj[node])
    && pushed + NewNeighbours(adj[node][j..], found + pushed) == NewNeighbours(adj[node], found)
  }

  lemma PushingStart(adj: seq<seq<int>>, start: int, node: int, found: seq<int>, flags: seq<bool>)
    requires ValidGraph(adj) && 0 <= node < |adj| && node in found
    requires Discovered(adj, start, found, flags)
    ensures Pushing(adj, start, node, found, 0, [], flags)
  {
    assert adj[node][0..] == adj[node] && found + [] == found;
  }

  /** A neighbour already flagged is skipped. */
  lemma PushingSkip(adj: seq<seq<int>>, start: int, node: int, found: seq<int>, j: int,
                    pushed: seq<int>, flags: seq<bool>)
    requires Pushing(adj, start, node, found, j, pushed, flags)
    requires j < |adj[node]| && flags[adj[node][j]]
    ensures Pushing(adj, start, node, found, j + 1, pushed, flags)
  {
    PushedSoFar(adj[node], j, found, pushed, NewNeighbours(adj[node], found));
  }

  /** A neighbour not yet flagged is flagged and pushed. */
  lemma PushingPush(adj: seq<seq<int>>, start: int, node: int, found: seq<int>, j: int,
                    pushed: seq<int>, flags: seq<bool>)
    requires Pushing(adj, start, node, found, j, pushed, flags)
    requires j < |adj[node]| && !flags[adj[node][j]]
    ensures Pushing(adj, start, node, found, j + 1, pushed + [adj[node][j]], flags[adj[node][j] := true])
  {
    var neigh := adj[node][j];
    PushedSoFar(adj[node], j, found, pushed, NewNeighbours(adj[node], found));
    assert found + pushed + [neigh] == found + (pushed + [neigh]);
    DiscoverNeighbour(adj, start, found + pushed, flags, node, neigh);
  }

  /** After the last neighbour: the pushed nodes are exactly the new neighbours. */
  lemma PushingDone(adj: seq<seq<int>>, start: int, node: int, found: seq<int>,
                    pushed: seq<int>, flags: seq<bool>)
    requires 0 <= node < |adj| && Pushing(adj, start, node, found, |adj[node]|, pushed, flags)
    ensures Discovered(adj, start, found + pushed, flags)
    ensures forall i :: 0 <= i < |pushed| ==> pushed[i] in adj[node]
    ensures forall w :: w in adj[node] ==> w in found + pushed
    ensures pushed == NewNeighbours(adj[node], found)
  {
    assert adj[node][|adj[node]|..] == [];
    assert pushed + [] == pushed;
  }

  /** The for-each over adj[node]: every neighbour not yet visited is marked
      visited and pushed onto the queue, in adjacency order. */
  method PushNeighbours(adj: seq<seq<int>>, start: int, visited: array<bool>, node: int,
                        queue: seq<int>, ghost found: seq<int>)
    returns (queue': seq<int>, pushed: seq<int>)
    requires ValidGraph(adj) && 0 <= node < |adj| && node in found
    requires Discovered(adj, start, found, visited[..])
    modifies visited
    ensures queue' == queue + pushed
    ensures Discovered(adj, start, found + pushed, visited[..])
    ensures forall i :: 0 <= i < |pushed| ==> pushed[i] in adj[node]
    ensures forall w :: w in adj[node] ==> w in found + pushed
    ensures pushed == NewNeighbours(adj[node], found)
  {
    queue' := queue;
    pushed := [];
    PushingStart(adj, start, node, found, visited[..]);
    for j := 0 to |adj[node]|
      invariant queue' == queue + pushed
      invariant Pushing(adj, start, node, found, j, pushed, visited[..])
    {
      var neigh := adj[node][j];
      if !visited[neigh] {
        ghost var flags := visited[..];
        PushingPush(adj, start, node, found, j, pushed, flags);
        visited[neigh] := true;
        assert visited[..] == flags[neigh := true];
        queue' := queue' + [neigh];
        pushed := pushed + [neigh];
      } else {
        PushingSkip(adj, start, node, found, j, pushed, visited[..]);
      }
    }
    PushingDone(adj, start, node, found, pushed, visited[..]);
  }

  /** The state at the head of the while loop: `found` lists the nodes pushed
      so far (start first); the visited ones are a prefix of it and the queue is
      the rest; the flags, snapshots and pushes agree with it. */
  ghost predicate Progress(adj: seq<seq<int>>, start: int, steps: seq<Step>, queue: seq<int>,
                           found: seq<int>, flags: seq<bool>)
  {
    && found == Visits(steps) + queue == [start] + Pushes(steps)
    && (steps == [] ==> queue == [start])
    && (steps != [] ==> steps[0].node == start && steps[0].queue == [start])
    && Discovered(adj, start, found, flags)
    && (forall k :: 0 <= k < |steps| ==> StepShape(adj, found, k, steps[k]))
    && SnapshotLengths(steps)
  }

  /** The snapshot of step k ends where the nodes pushed before it end: it holds
      every node pushed so far (start included) and not yet visited. */
  ghost predicate SnapshotLengths(steps: seq<Step>)
  {
    forall k :: 0 <= k < |steps| ==> k + |steps[k].queue| == 1 + |Pushes(steps[..k])|
  }

  lemma SnapshotLengthsStep(steps: seq<Step>, step: Step)
    requires SnapshotLengths(steps)
    requires |steps| + |step.queue| == 1 + |Pushes(steps)|
    ensures SnapshotLengths(steps + [step])
  {
    var all := steps + [step];
    forall k | 0 <= k < |all|
      ensures k + |all[k].queue| == 1 + |Pushes(all[..k])|
    {
      if k < |steps| {
        assert all[..k] == steps[..k];
        assert all[k] == steps[k];
      } else {
        assert all[..k] == steps;
      }
    }
  }

  /** One iteration of the while loop keeps Progress. */
  lemma ProgressStep(adj: seq<seq<int>>, start: int, steps: seq<Step>, snapshot: seq<int>,
                     found: seq<int>, pushed: seq<int>, before: seq<bool>, flags: seq<bool>)
    requires snapshot != [] && 0 <= snapshot[0] < |adj|
    requires Progress(adj, start, steps, snapshot, found, before)
    requires Discovered(adj, start, found + pushed, flags)
    requires forall i :: 0 <= i < |pushed| ==> pushed[i] in adj[snapshot[0]]
    requires forall w :: w in adj[snapshot[0]] ==> w in found + pushed
    requires pushed == NewNeighbours(adj[snapshot[0]], found)
    ensures Progress(adj, start, steps + [Step(snapshot, snapshot[0], pushed)], snapshot[1..] + pushed, found + pushed, flags)
  {
    var step := Step(snapshot, snapshot[0], pushed);
    SequencesStep(start, steps, snapshot, found, step);
    SnapshotLengthsStep(steps, step);
    ShapesStep(adj, steps, found, step);
  }

  lemma SequencesStep(start: int, steps: seq<Step>, snapshot: seq<int>, found: seq<int>, step: Step)
    requires snapshot != [] && step == Step(snapshot, snapshot[0], step.pushed)
    requires found == Visits(steps) + snapshot == [start] + Pushes(steps)
    requires steps == [] ==> snapshot == [start]
    requires steps != [] ==> steps[0].node == start && steps[0].queue == [start]
    ensures found + step.pushed == Visits(steps + [step]) + (snapshot[1..] + step.pushed)
    ensures found + step.pushed == [start] + Pushes(steps + [step])
    ensures (steps + [step])[0].node == start && (steps + [step])[0].queue == [start]
    ensures |steps| + |snapshot| == 1 + |Pushes(steps)|
  {
    DequeueAppend(Visits(steps), snapshot, step.pushed);
    PushesAppend(steps, step);
    VisitsAppend(steps, step);
    assert found + step.pushed == [start] + (Pushes(steps) + step.pushed);
  }

  lemma ShapesStep(adj: seq<seq<int>>, steps: seq<Step>, found: seq<int>, step: Step)
    requires |step.queue| > 0 && step.node == step.queue[0] && 0 <= step.node < |adj|
    requires found == Visits(steps) + step.queue
    requires forall k :: 0 <= k < |steps| ==> StepShape(adj, found, k, steps[k])
    requires forall i :: 0 <= i < |step.pushed| ==> step.pushed[i] in adj[step.node]
    requires forall w :: w in adj[step.node] ==> w in found + step.pushed
    requires step.pushed == NewNeighbours(adj[step.node], found)
    ensures forall k :: 0 <= k < |steps| + 1 ==> StepShape(adj, found + step.pushed, k, (steps + [step])[k])
  {
    ShapesGrow(adj, steps, found, step.pushed);
    CloseStep(adj, steps, found, step.queue, step.pushed, step);
    forall k | 0 <= k < |steps| + 1
      ensures StepShape(adj, found + step.pushed, k, (steps + [step])[k])
    {
      if k < |steps| {
        assert (steps + [step])[k] == steps[k];
      }
    }
  }

  /** Before the loop: start alone is discovered, queued and flagged. */
  lemma ProgressInit(adj: seq<seq<int>>, start: int, flags: seq<bool>)
    requires 0 <= start < |adj| && |flags| == |adj|
    requires forall i :: 0 <= i < |flags| ==> !flags[i]
    ensures Progress(adj, start, [], [start], [start], flags[start := true])
  {
    UnvisitedAllFalse(flags);
    UnvisitedMark(flags, start);
    ReachableSelf(adj, start);
  }

  /** The front of a non-empty queue is a discovered node, and fewer nodes than
      the graph has have been visited so far. */
  lemma ProgressFront(adj: seq<seq<int>>, start: int, steps: seq<Step>, queue: seq<int>,
                      found: seq<int>, flags: seq<bool>)
    requires Progress(adj, start, steps, queue, found, flags) && queue != []
    ensures queue[0] in found && 0 <= queue[0] < |adj| && |steps| < |adj|
  {
    assert found[|Visits(steps)|] == queue[0];
  }

  /** With the queue empty, the visits are all the discovered nodes: each once,
      and exactly the nodes reachable from start. */
  lemma ProgressDone(adj: seq<seq<int>>, start: int, steps: seq<Step>, found: seq<int>, flags: seq<bool>)
    requires Progress(adj, start, steps, [], found, flags)
    ensures steps != [] && steps[0].node == start && steps[0].queue == [start]
    ensures Visits(steps) == [start] + Pushes(steps)
    ensures NoDup(Visits(steps)) && |steps| <= |adj|
    ensures forall v :: v in Visits(steps) <==> Reachable(adj, start, v)
    ensures forall k :: 0 <= k < |steps| ==> StepShape(adj, Visits(steps), k, steps[k])
    ensures SnapshotLengths(steps)
  {
    assert found == Visits(steps);
    assert Visits(steps)[0] == start;
    AllReachableVisited(adj, start, steps);
  }

  /** The tracer. The visited nodes are those reachable from start, each visited
      once, start first; each step's snapshot is the queue at that point. */
  method Bfs(start: int, adj: seq<seq<int>>) returns (steps: seq<Step>)
    requires ValidGraph(adj)
    requires 0 <= start < |adj|
    ensures steps != [] && steps[0].node == start && steps[0].queue == [start]
    ensures Visits(steps) == [start] + Pushes(steps)
    ensures NoDup(Visits(steps)) && |steps| <= |adj|
    ensures forall v :: v in Visits(steps) <==> Reachable(adj, start, v)
    ensures forall k :: 0 <= k < |steps| ==> StepShape(adj, Visits(steps), k, steps[k])
    ensures SnapshotLengths(steps)
  {
    var n := |adj|;
    var visited := new bool[n](_ => false);
    ghost var initial := visited[..];
    visited[start] := true;
    ProgressInit(adj, start, initial);
    assert visited[..] == initial[start := true];
    var queue := [start];
    ghost var found := [start];
    steps := [];
    while queue != []
      invariant visited.Length == n
      invariant Progress(adj, start, steps, queue, found, visited[..])
      decreases n - |steps|
    {
      ProgressFront(adj, start, steps, queue, found, visited[..]);
      var snapshot := queue;
      var node := queue[0];
      queue := queue[1..];
      var pushed;
      ghost var before := visited[..];
      queue, pushed := PushNeighbours(adj, start, visited, node, queue, found);
      ProgressStep(adj, start, steps, snapshot, found, pushed, before, visited[..]);
      found := found + pushed;
      steps := steps + [Step(snapshot, node, pushed)];
    }
    ProgressDone(adj, start, steps, found, visited[..]);
  }

  /** The pushes of the first k steps are a prefix of all the pushes. */
  lemma {:induction false} PushesPrefix(steps: seq<Step>, k: int)
    requires 0 <= k <= |steps|
    decreases |steps| - k
    ensures |Pushes(steps[..k])| <= |Pushes(steps)|
    ensures Pushes(steps)[..|Pushes(steps[..k])|] == Pushes(steps[..k])
  {
    if k < |steps| {
      PushesPrefix(steps, k + 1);
      assert steps[..k + 1] == steps[..k] + [steps[k]];
      PushesAppend(steps[..k], steps[k]);
    } else {
      assert steps[..k] == steps;
    }
  }

  /** The pushes of the first k + 1 steps extend those of the first k by step k's. */
  lemma PushesNext(steps: seq<Step>, k: int)
    requires 0 <= k < |steps|
    ensures Pushes(steps[..k + 1]) == Pushes(steps[..k]) + steps[k].pushed
  {
    assert steps[..k + 1] == steps[..k] + [steps[k]];
    PushesAppend(steps[..k], steps[k]);
  }

  /** Step k visits the node discovered k-th, and its queue runs up to the last node pushed so far. */
  lemma ScenarioStep(adj: seq<seq<int>>, steps: seq<Step>, k: int)
    requires 0 <= k < |steps|
    requires forall i {:trigger StepShape(adj, Visits(steps), i, steps[i])} :: 0 <= i < |steps| ==> StepShape(adj, Visits(steps), i, steps[i])
    requires SnapshotLengths(steps)
    ensures 0 <= steps[k].node < |adj| && steps[k].node == Visits(steps)[k]
    ensures k + |steps[k].queue| == 1 + |Pushes(steps[..k])| <= |steps|
    ensures steps[k].queue == Visits(steps)[k..k + |steps[k].queue|]
    ensures steps[k].pushed == NewNeighbours(adj[steps[k].node], Visits(steps)[..k + |steps[k].queue|])
  {
    assert StepShape(adj, Visits(steps), k, steps[k]);
  }

  /** The nodes each step of the four-node scenario pushes, given what is already discovered. */
  lemma ScenarioNeighbours()
    ensures NewNeighbours([1, 2], [0]) == [1, 2]
    ensures NewNeighbours([0, 3], [0] + [1, 2]) == [3]
    ensures NewNeighbours([0], [0] + ([1, 2] + [3])) == []
    ensures NewNeighbours([1], [0] + ([1, 2] + [3])) == []
  {
  }

  /** The nodes discovered after k steps: the start, then what those steps pushed. */
  lemma DiscoveredSoFar(steps: seq<Step>, start: int, k: int, pushed: seq<int>)
    requires 0 <= k <= |steps|
    requires Visits(steps) == [start] + Pushes(steps)
    requires Pushes(steps[..k]) == pushed
    ensures 1 + |pushed| <= |steps|
    ensures Visits(steps)[..1 + |pushed|] == [start] + pushed
  {
    PushesPrefix(steps, k);
    PrefixAfterStart(start, Pushes(steps), pushed);
  }

  lemma PrefixAfterStart(start: int, all: seq<int>, pushed: seq<int>)
    requires |pushed| <= |all| && all[..|pushed|] == pushed
    ensures ([start] + all)[..1 + |pushed|] == [start] + pushed
  {
    assert ([start] + all)[..1 + |pushed|] == [start] + all[..|pushed|];
  }

  /** Once the first k steps have pushed all but the start, those are all the nodes visited. */
  lemma DiscoveredAll(steps: seq<Step>, start: int, k: int, pushed: seq<int>)
    requires 0 <= k <= |steps| <= 1 + |pushed|
    requires Visits(steps) == [start] + Pushes(steps)
    requires Pushes(steps[..k]) == pushed
    ensures |steps| == 1 + |pushed|
    ensures Visits(steps) == [start] + pushed
  {
    DiscoveredSoFar(steps, start, k, pushed);
    assert Visits(steps) == Visits(steps)[..1 + |pushed|];
  }

  /** The four-node scenario, first step: node 0 pushes 1 and 2. */
  lemma ScenarioFirstStep(steps: seq<Step>)
    requires steps != [] && steps[0].node == 0 && steps[0].queue == [0]
    requires Visits(steps) == [0] + Pushes(steps)
    requires |steps| <= 4
    requires forall k {:trigger StepShape([[1, 2], [0, 3], [0], [1]], Visits(steps), k, steps[k])} :: 0 <= k < |steps| ==> StepShape([[1, 2], [0, 3], [0], [1]], Visits(steps), k, steps[k])
    requires SnapshotLengths(steps)
    ensures steps[0] == Step([0], 0, [1, 2])
    ensures Pushes(steps[..1]) == [1, 2]
  {
    ScenarioStep([[1, 2], [0, 3], [0], [1]], steps, 0);
    assert steps[..0] == [];
    assert Visits(steps)[..1] == [0];
    ScenarioNeighbours();
    PushesNext(steps, 0);
  }

  /** The four-node scenario, second step: node 1, with 2 still queued, pushes 3. */
  lemma ScenarioSecondStep(steps: seq<Step>)
    requires steps != [] && steps[0].node == 0 && steps[0].queue == [0]
    requires Visits(steps) == [0] + Pushes(steps)
    requires |steps| <= 4
    requires forall k {:trigger StepShape([[1, 2], [0, 3], [0], [1]], Visits(steps), k, steps[k])} :: 0 <= k < |steps| ==> StepShape([[1, 2], [0, 3], [0], [1]], Visits(steps), k, steps[k])
    requires SnapshotLengths(steps)
    requires Pushes(steps[..1]) == [1, 2]
    requires |steps| >= 3 && Visits(steps)[..3] == [0] + [1, 2]
    ensures steps[1] == Step([1, 2], 1, [3])
    ensures Pushes(steps[..2]) == [1, 2] + [3]
  {
    ScenarioStep([[1, 2], [0, 3], [0], [1]], steps, 1);
    ScenarioNeighbours();
    PushesNext(steps, 1);
  }

  /** The four-node scenario, third step: node 2, with 3 still queued, pushes nothing. */
  lemma ScenarioThirdStep(steps: seq<Step>)
    requires steps != [] && steps[0].node == 0 && steps[0].queue == [0]
    requires Visits(steps) == [0] + Pushes(steps)
    requires |steps| <= 4
    requires forall k {:trigger StepShape([[1, 2], [0, 3], [0], [1]], Visits(steps), k, steps[k])} :: 0 <= k < |steps| ==> StepShape([[1, 2], [0, 3], [0], [1]], Visits(steps), k, steps[k])
    requires SnapshotLengths(steps)
    requires |steps| == 4 && Pushes(steps[..2]) == [1, 2] + [3]
    requires Visits(steps) == [0] + ([1, 2] + [3])
    ensures steps[2] == Step([2, 3], 2, [])
    ensures Pushes(steps[..3]) == ([1, 2] + [3]) + []
  {
    ScenarioStep([[1, 2], [0, 3], [0], [1]], steps, 2);
    ScenarioNeighbours();
    PushesNext(steps, 2);
  }

  /** The four-node scenario, last step: node 3, alone in the queue, pushes nothing. */
  lemma ScenarioLastStep(steps: seq<Step>)
    requires steps != [] && steps[0].node == 0 && steps[0].queue == [0]
    requires Visits(steps) == [0] + Pushes(steps)
    requires |steps| <= 4
    requires forall k {:trigger StepShape([[1, 2], [0, 3], [0], [1]], Visits(steps), k, steps[k])} :: 0 <= k < |steps| ==> StepShape([[1, 2], [0, 3], [0], [1]], Visits(steps), k, steps[k])
    requires SnapshotLengths(steps)
    requires |steps| == 4 && Pushes(steps[..3]) == ([1, 2] + [3]) + []
    requires Visits(steps) == [0] + ([1, 2] + [3])
    ensures steps[3] == Step([3], 3, [])
  {
    ScenarioStep([[1, 2], [0, 3], [0], [1]], steps, 3);
    ScenarioNeighbours();
  }

  lemma FourSteps(steps: seq<Step>, a: Step, b: Step, c: Step, d: Step)
    requires |steps| == 4 && steps[0] == a && steps[1] == b && steps[2] == c && steps[3] == d
    ensures steps == [a, b, c, d]
  {
  }

  /** Four nodes with edges (0,1), (0,2), (1,3), so adjacency 0: 1 2, 1: 0 3,
      2: 0, 3: 1, from node 0: the queue evolves [0], [1 2], [2 3], [3], the
      nodes are visited in the order 0, 1, 2, 3, and 1, 2 and then 3 are pushed.
      Every run meeting the guarantees of Bfs is this one. */
  lemma ScenarioFourNodes(steps: seq<Step>)
    requires steps != [] && steps[0].node == 0 && steps[0].queue == [0]
    requires Visits(steps) == [0] + Pushes(steps)
    requires |steps| <= 4
    requires forall k {:trigger StepShape([[1, 2], [0, 3], [0], [1]], Visits(steps), k, steps[k])} :: 0 <= k < |steps| ==> StepShape([[1, 2], [0, 3], [0], [1]], Visits(steps), k, steps[k])
    requires SnapshotLengths(steps)
    ensures steps == [Step([0], 0, [1, 2]), Step([1, 2], 1, [3]), Step([2, 3], 2, []), Step([3], 3, [])]
  {
    ScenarioFirstStep(steps);
    DiscoveredSoFar(steps, 0, 1, [1, 2]);
    ScenarioSecondStep(steps);
    DiscoveredAll(steps, 0, 2, [1, 2] + [3]);
    ScenarioThirdStep(steps);
    ScenarioLastStep(steps);
    FourSteps(steps, Step([0], 0, [1, 2]), Step([1, 2], 1, [3]), Step([2, 3], 2, []), Step([3], 3, []));
  }

  /** Running the tracer on the four-node graph from node 0 prints exactly the scenario's four blocks. */
  method RunFourNodes() returns (steps: seq<Step>)
    ensures steps == [Step([0], 0, [1, 2]), Step([1, 2], 1, [3]), Step([2, 3], 2, []), Step([3], 3, [])]
  {
    steps := Bfs(0, [[1, 2], [0, 3], [0], [1]]);
    ScenarioFourNodes(steps);
  }
}
