/** The DFS tracer: a recursive helper that marks a node visited, prints it at
    its recursion depth and descends into every neighbour that is still
    unvisited, sharing one visited vector across all calls. */
module DepthFirst {
  import opened Graph

  /** The printed lines: "Visiting node" at the depth of the call visiting it,
      and "Go deeper to" at the depth of the call that descends. */
  datatype Event = Visiting(node: int, depth: nat) | GoDeeper(node: int, depth: nat)

  /** The nodes of the "Visiting node" lines, in order. */
  function VisitedNodes(events: seq<Event>): (r: seq<int>)
    ensures |r| <= |events|
    ensures events != [] && events[0].Visiting? ==> r != [] && r[0] == events[0].node
  {
    if events == [] then []
    else (if events[0].Visiting? then [events[0].node] else []) + VisitedNodes(events[1..])
  }

  lemma {:induction false} VisitedNodesAppend(a: seq<Event>, b: seq<Event>)
    ensures VisitedNodes(a + b) == VisitedNodes(a) + VisitedNodes(b)
  {
    if a == [] {
      assert a + b == b;
    } else {
      assert (a + b)[0] == a[0];
      assert (a + b)[1..] == a[1..] + b;
      VisitedNodesAppend(a[1..], b);
    }
  }

  /** What a call prints and the flags it leaves behind. */
  datatype Run = Run(events: seq<Event>, flags: seq<bool>)

  /** Marking a node lowers the unvisited count by one if it was unvisited, and by nothing otherwise. */
  lemma MarkCount(flags: seq<bool>, node: int)
    requires 0 <= node < |flags|
    ensures Unvisited(flags[node := true]) == Unvisited(flags) - (if flags[node] then 0 else 1)
  {
    if flags[node] {
      assert flags[node := true] == flags;
    } else {
      UnvisitedMark(flags, node);
    }
  }

  /** The call dfsHelper(node, .., depth) on the flags `flags`: mark node, print
      "Visiting node", then go through the neighbours. */
  function DfsCall(adj: seq<seq<int>>, node: int, depth: nat, flags: seq<bool>): (r: Run)
    requires ValidGraph(adj) && 0 <= node < |adj| && |flags| == |adj|
    decreases Unvisited(flags), if flags[node] then 1 else 0, 0
    ensures |r.flags| == |adj| && r.flags[node]
    ensures Unvisited(r.flags) < Unvisited(flags) || (Unvisited(r.flags) == Unvisited(flags) && flags[node])
    ensures forall w :: 0 <= w < |adj| && flags[w] ==> r.flags[w]
  {
    MarkCount(flags, node);
    var rest := DfsLoop(adj, node, 0, depth, flags[node := true]);
    Run([Visiting(node, depth)] + rest.events, rest.flags)
  }

  /** The for-each of dfsHelper from the i-th neighbour of node on: a neighbour
      still unvisited gets "Go deeper to" and a call one level deeper. */
  function DfsLoop(adj: seq<seq<int>>, node: int, i: nat, depth: nat, flags: seq<bool>): (r: Run)
    requires ValidGraph(adj) && 0 <= node < |adj| && i <= |adj[node]| && |flags| == |adj|
    decreases Unvisited(flags), 0, |adj[node]| - i
    ensures |r.flags| == |adj|
    ensures Unvisited(r.flags) <= Unvisited(flags)
    ensures forall w :: 0 <= w < |adj| && flags[w] ==> r.flags[w]
  {
    if i == |adj[node]| then Run([], flags)
    else
      var w := adj[node][i];
      if flags[w] then DfsLoop(adj, node, i + 1, depth, flags)
      else
        var sub := DfsCall(adj, w, depth + 1, flags);
        var rest := DfsLoop(adj, node, i + 1, depth, sub.flags);
        Run([GoDeeper(w, depth)] + sub.events + rest.events, rest.flags)
  }

  /** The flags after a call are the flags before it plus the nodes it visited. */
  ghost predicate Marks(adj: seq<seq<int>>, before: seq<bool>, after: seq<bool>, visits: seq<int>)
  {
    && |before| == |adj| && |after| == |adj|
    && (forall k :: 0 <= k < |visits| ==> 0 <= visits[k] < |adj|)
    && (forall w :: 0 <= w < |adj| ==> (after[w] <==> before[w] || w in visits))
  }

  /** A call at `node` visits node first, then only nodes unvisited when it
      began, and no node twice. */
  ghost predicate FreshVisits(before: seq<bool>, node: int, visits: seq<int>)
  {
    && visits != [] && visits[0] == node
    && NoDup(visits)
    && (forall k :: 1 <= k < |visits| && 0 <= visits[k] < |before| ==> !before[visits[k]])
  }

  /** Each visit but a repeated one at `node` itself consumes one unvisited node. */
  ghost predicate Counted(before: seq<bool>, after: seq<bool>, node: int, visits: seq<int>)
    requires 0 <= node < |before|
  {
    Unvisited(after) + |visits| == Unvisited(before) + (if before[node] then 1 else 0)
  }

  /** Every neighbour of a node visited below `node` is marked. */
  ghost predicate ClosedBelow(adj: seq<seq<int>>, node: int, visits: seq<int>, after: seq<bool>)
    requires |after| == |adj| && forall k :: 0 <= k < |visits| ==> 0 <= visits[k] < |adj|
    requires ValidGraph(adj)
  {
    forall k, i :: 1 <= k < |visits| && 0 <= i < |adj[visits[k]]| ==> after[adj[visits[k]][i]]
  }

  /** Every line lies at the call's depth or deeper, but by fewer levels than
      there are visits. */
  ghost predicate DepthsWithin(events: seq<Event>, depth: nat, count: nat)
  {
    forall k :: 0 <= k < |events| ==> depth <= events[k].depth < depth + count
  }

  /** Each "Go deeper to w" at depth d is immediately followed by "Visiting
      node w" at depth d + 1, and each "Visiting node" but the first
      immediately follows the "Go deeper" that led to it. */
  ghost predicate Nested(events: seq<Event>)
  {
    && (forall k :: 0 <= k < |events| && events[k].GoDeeper? ==>
          k + 1 < |events| && events[k + 1] == Visiting(events[k].node, events[k].depth + 1))
    && (forall k :: 0 < k < |events| && events[k].Visiting? ==>
          events[k - 1].GoDeeper? && events[k - 1].node == events[k].node &&
          events[k - 1].depth + 1 == events[k].depth)
  }

  /** A line printed inside a call at depth d after its "Visiting node" line:
      a "Go deeper to" of that call or deeper, or a visit by a deeper call. */
  ghost predicate Inside(e: Event, d: nat)
  {
    if e.Visiting? then e.depth > d else e.depth >= d
  }

  /** Line j is the "Visiting node p" of the call that prints the "Go deeper
      to w" line k: same depth, w a neighbour of p, and that call has not
      returned in between. */
  ghost predicate ParentOf(adj: seq<seq<int>>, events: seq<Event>, j: int, k: int)
    requires 0 <= j < k < |events|
  {
    && events[j].Visiting? && events[j].depth == events[k].depth
    && 0 <= events[j].node < |adj| && events[k].node in adj[events[j].node]
    && (forall i :: j < i < k ==> Inside(events[i], events[k].depth))
  }

  /** Every "Go deeper to" line comes from the call open at its depth, along an edge. */
  ghost predicate Parented(adj: seq<seq<int>>, events: seq<Event>)
  {
    forall k :: 0 <= k < |events| && events[k].GoDeeper? ==>
      exists j :: 0 <= j < k && ParentOf(adj, events, j, k)
  }

  /** On the path 0 - 1 - 2 a trace that enters 2 from 0 has no parent for that
      line: 2 is not a neighbour of 0, and the call at 1 is the one still open. */
  lemma ParentedRejectsShortcut()
    ensures !Parented([[1], [0, 2], [1]],
                      [Visiting(0, 0), GoDeeper(1, 0), Visiting(1, 1), GoDeeper(2, 0), Visiting(2, 1)])
  {
    var adj := [[1], [0, 2], [1]];
    var events := [Visiting(0, 0), GoDeeper(1, 0), Visiting(1, 1), GoDeeper(2, 0), Visiting(2, 1)];
    forall j | 0 <= j < 3
      ensures !ParentOf(adj, events, j, 3)
    {
      if j == 0 {
        assert 2 !in adj[0];
      }
    }
  }

  /** The same graph: the trace dfsHelper prints goes deeper to 2 from the call at 1. */
  lemma ParentedAcceptsPath()
    ensures Parented([[1], [0, 2], [1]],
                     [Visiting(0, 0), GoDeeper(1, 0), Visiting(1, 1), GoDeeper(2, 1), Visiting(2, 2)])
  {
    var adj := [[1], [0, 2], [1]];
    var events := [Visiting(0, 0), GoDeeper(1, 0), Visiting(1, 1), GoDeeper(2, 1), Visiting(2, 2)];
    assert ParentOf(adj, events, 0, 1);
    assert ParentOf(adj, events, 2, 3);
  }

  /** What a call dfsHelper(node, .., depth) has done so far, against the flags
      before it began and the flags now. */
  ghost predicate Partial(adj: seq<seq<int>>, node: int, depth: nat, before: seq<bool>,
                          after: seq<bool>, events: seq<Event>)
  {
    && ValidGraph(adj) && 0 <= node < |adj|
    && events != [] && events[0] == Visiting(node, depth)
    && Marks(adj, before, after, VisitedNodes(events))
    && FreshVisits(before, node, VisitedNodes(events))
    && Counted(before, after, node, VisitedNodes(events))
    && (forall w :: w in VisitedNodes(events) ==> Reachable(adj, node, w))
    && ClosedBelow(adj, node, VisitedNodes(events), after)
    && DepthsWithin(events, depth, |VisitedNodes(events)|)
    && Nested(events)
    && Parented(adj, events)
  }

  /** The first i neighbours of node are marked. */
  ghost predicate NeighboursMarked(adj: seq<seq<int>>, node: int, i: int, flags: seq<bool>)
    requires ValidGraph(adj) && 0 <= node < |adj| && |flags| == |adj|
  {
    forall m :: 0 <= m < i && m < |adj[node]| ==> flags[adj[node][m]]
  }

  /** Right after "Visiting node": node alone is visited. */
  lemma PartialStart(adj: seq<seq<int>>, node: int, depth: nat, before: seq<bool>)
    requires ValidGraph(adj) && 0 <= node < |adj| && |before| == |adj|
    ensures Partial(adj, node, depth, before, before[node := true], [Visiting(node, depth)])
  {
    var events := [Visiting(node, depth)];
    assert VisitedNodes(events) == [node] by {
      assert events[1..] == [];
    }
    if before[node] {
      assert before[node := true] == before;
    } else {
      UnvisitedMark(before, node);
    }
    ReachableSelf(adj, node);
  }

  /** The flags only grow across a call. */
  lemma MarksGrow(adj: seq<seq<int>>, before: seq<bool>, after: seq<bool>, visits: seq<int>)
    requires Marks(adj, before, after, visits)
    ensures forall w :: 0 <= w < |adj| && before[w] ==> after[w]
  {
  }

  lemma NeighboursMarkedGrow(adj: seq<seq<int>>, node: int, i: int, f0: seq<bool>, f1: seq<bool>)
    requires ValidGraph(adj) && 0 <= node < |adj| && |f0| == |adj| && |f1| == |adj|
    requires forall w :: 0 <= w < |adj| && f0[w] ==> f1[w]
    requires NeighboursMarked(adj, node, i, f0)
    ensures NeighboursMarked(adj, node, i, f1)
  {
  }

  /** A finished call at `node` marked all neighbours of everything it visited. */
  lemma ClosedAfterCall(adj: seq<seq<int>>, node: int, depth: nat, before: seq<bool>, after: seq<bool>, events: seq<Event>)
    requires Partial(adj, node, depth, before, after, events)
    requires NeighboursMarked(adj, node, |adj[node]|, after)
    ensures forall k, i :: 0 <= k < |VisitedNodes(events)| && 0 <= i < |adj[VisitedNodes(events)[k]]| ==>
      after[adj[VisitedNodes(events)[k]][i]]
  {
  }

  /** The flags and visits after descending into an unvisited neighbour. */
  lemma DescendMarks(adj: seq<seq<int>>, entry: seq<bool>, f0: seq<bool>, f1: seq<bool>, v: seq<int>, vc: seq<int>)
    requires Marks(adj, entry, f0, v) && Marks(adj, f0, f1, vc)
    ensures Marks(adj, entry, f1, v + vc)
  {
  }

  lemma DescendFresh(adj: seq<seq<int>>, node: int, entry: seq<bool>, f0: seq<bool>, f1: seq<bool>, neigh: int, v: seq<int>, vc: seq<int>)
    requires Marks(adj, entry, f0, v) && FreshVisits(entry, node, v)
    requires Marks(adj, f0, f1, vc) && FreshVisits(f0, neigh, vc)
    requires 0 <= neigh < |adj| && !f0[neigh]
    ensures FreshVisits(entry, node, v + vc)
  {
    assert forall k :: 0 <= k < |vc| ==> !f0[vc[k]];
    assert forall x :: x in v ==> f0[x];
    NoDupConcat(v, vc);
    forall k | 1 <= k < |v + vc| && 0 <= (v + vc)[k] < |entry|
      ensures !entry[(v + vc)[k]]
    {
      if k >= |v| {
        var w := vc[k - |v|];
        assert (v + vc)[k] == w;
        assert !f0[w] by {
          if k - |v| == 0 {
            assert w == neigh;
          }
        }
      }
    }
  }

  lemma DescendCount(entry: seq<bool>, f0: seq<bool>, f1: seq<bool>, node: int, neigh: int, v: seq<int>, vc: seq<int>)
    requires 0 <= node < |entry| && 0 <= neigh < |f0| && !f0[neigh]
    requires Counted(entry, f0, node, v) && Counted(f0, f1, neigh, vc)
    ensures Counted(entry, f1, node, v + vc)
  {
  }

  lemma DescendReach(adj: seq<seq<int>>, node: int, neigh: int, v: seq<int>, vc: seq<int>)
    requires 0 <= node < |adj| && neigh in adj[node]
    requires forall w :: w in v ==> Reachable(adj, node, w)
    requires forall w :: w in vc ==> Reachable(adj, neigh, w)
    ensures forall w :: w in v + vc ==> Reachable(adj, node, w)
  {
    forall w | w in vc
      ensures Reachable(adj, node, w)
    {
      ReachablePrepend(adj, node, neigh, w);
    }
  }

  lemma DescendClosed(adj: seq<seq<int>>, node: int, neigh: int, v: seq<int>, vc: seq<int>, f0: seq<bool>, f1: seq<bool>)
    requires ValidGraph(adj) && 0 <= neigh < |adj| && |f0| == |adj| && |f1| == |adj|
    requires v != [] && vc != [] && vc[0] == neigh
    requires forall k :: 0 <= k < |v| ==> 0 <= v[k] < |adj|
    requires forall k :: 0 <= k < |vc| ==> 0 <= vc[k] < |adj|
    requires ClosedBelow(adj, node, v, f0)
    requires forall w :: 0 <= w < |adj| && f0[w] ==> f1[w]
    requires ClosedBelow(adj, neigh, vc, f1)
    requires NeighboursMarked(adj, neigh, |adj[neigh]|, f1)
    ensures forall k :: 0 <= k < |v + vc| ==> 0 <= (v + vc)[k] < |adj|
    ensures ClosedBelow(adj, node, v + vc, f1)
  {
    var all := v + vc;
    forall k, i | 1 <= k < |all| && 0 <= i < |adj[all[k]]|
      ensures f1[adj[all[k]][i]]
    {
      if k < |v| {
        assert all[k] == v[k];
        assert f0[adj[v[k]][i]];
      } else {
        assert all[k] == vc[k - |v|];
      }
    }
  }

  /** Where the lines of events, the "Go deeper" line and the callee's lines sit
      in their concatenation. */
  lemma DescentLayout(events: seq<Event>, neigh: int, depth: nat, sub: seq<Event>)
    ensures var all := events + [GoDeeper(neigh, depth)] + sub;
      && |all| == |events| + 1 + |sub|
      && (forall k :: 0 <= k < |events| ==> all[k] == events[k])
      && all[|events|] == GoDeeper(neigh, depth)
      && (forall k :: |events| < k < |all| ==> all[k] == sub[k - |events| - 1])
  {
  }

  lemma DescendDepths(events: seq<Event>, sub: seq<Event>, neigh: int, depth: nat, count: nat, subCount: nat)
    requires count >= 1
    requires DepthsWithin(events, depth, count) && DepthsWithin(sub, depth + 1, subCount)
    ensures DepthsWithin(events + [GoDeeper(neigh, depth)] + sub, depth, count + subCount)
  {
    DescentLayout(events, neigh, depth, sub);
  }

  lemma DescendNested(events: seq<Event>, sub: seq<Event>, neigh: int, depth: nat)
    requires events != [] && sub != [] && sub[0] == Visiting(neigh, depth + 1)
    requires Nested(events) && Nested(sub)
    ensures Nested(events + [GoDeeper(neigh, depth)] + sub)
  {
    DescentLayout(events, neigh, depth, sub);
    assert !events[|events| - 1].GoDeeper?;
  }

  /** After its first line, everything a call prints lies inside it. */
  lemma CallInside(events: seq<Event>, depth: nat, count: nat)
    requires DepthsWithin(events, depth, count) && Nested(events)
    ensures forall i :: 0 < i < |events| ==> Inside(events[i], depth)
  {
    forall i | 0 < i < |events|
      ensures Inside(events[i], depth)
    {
      if events[i].Visiting? {
        assert events[i - 1].depth + 1 == events[i].depth;
      }
    }
  }

  /** A descent from node to its neighbour keeps every "Go deeper" line
      attached to its parent call: the new line to node's own "Visiting" line,
      the sub-call's lines to their parents inside the sub-call. */
  lemma DescendParented(adj: seq<seq<int>>, node: int, depth: nat, events: seq<Event>, neigh: int, sub: seq<Event>)
    requires events != [] && events[0] == Visiting(node, depth) && 0 <= node < |adj| && neigh in adj[node]
    requires forall i :: 0 < i < |events| ==> Inside(events[i], depth)
    requires Parented(adj, events) && Parented(adj, sub)
    ensures Parented(adj, events + [GoDeeper(neigh, depth)] + sub)
  {
    var all := events + [GoDeeper(neigh, depth)] + sub;
    var n := |events|;
    DescentLayout(events, neigh, depth, sub);
    forall k | 0 <= k < |all| && all[k].GoDeeper?
      ensures exists j :: 0 <= j < k && ParentOf(adj, all, j, k)
    {
      if k < n {
        var j :| 0 <= j < k && ParentOf(adj, events, j, k);
        assert ParentOf(adj, all, j, k);
      } else if k == n {
        assert ParentOf(adj, all, 0, k);
      } else {
        var m := k - n - 1;
        assert sub[m] == all[k];
        var j :| 0 <= j < m && ParentOf(adj, sub, j, m);
        assert ParentOf(adj, all, j + n + 1, k);
      }
    }
  }

  /** A "Go deeper" line is not a visit. */
  lemma DescentVisits(events: seq<Event>, neigh: int, depth: nat, sub: seq<Event>)
    ensures VisitedNodes(events + [GoDeeper(neigh, depth)] + sub) == VisitedNodes(events) + VisitedNodes(sub)
  {
    VisitedNodesAppend(events, [GoDeeper(neigh, depth)]);
    assert VisitedNodes([GoDeeper(neigh, depth)]) == [] by {
      assert [GoDeeper(neigh, depth)][1..] == [];
    }
    assert VisitedNodes(events) + [] == VisitedNodes(events);
    VisitedNodesAppend(events + [GoDeeper(neigh, depth)], sub);
  }

  /** Descending into an unvisited neighbour, and the whole call returning, keeps Partial. */
  lemma Descend(adj: seq<seq<int>>, node: int, depth: nat, entry: seq<bool>, f0: seq<bool>, f1: seq<bool>,
                events: seq<Event>, neigh: int, sub: seq<Event>)
    requires Partial(adj, node, depth, entry, f0, events)
    requires 0 <= neigh < |adj| && neigh in adj[node] && !f0[neigh]
    requires Partial(adj, neigh, depth + 1, f0, f1, sub)
    requires NeighboursMarked(adj, neigh, |adj[neigh]|, f1)
    ensures Partial(adj, node, depth, entry, f1, events + [GoDeeper(neigh, depth)] + sub)
  {
    var v, vc := VisitedNodes(events), VisitedNodes(sub);
    DescentVisits(events, neigh, depth, sub);
    DescendMarks(adj, entry, f0, f1, v, vc);
    DescendFresh(adj, node, entry, f0, f1, neigh, v, vc);
    DescendCount(entry, f0, f1, node, neigh, v, vc);
    DescendReach(adj, node, neigh, v, vc);
    MarksGrow(adj, f0, f1, vc);
    DescendClosed(adj, node, neigh, v, vc, f0, f1);
    DescendDepths(events, sub, neigh, depth, |v|, |vc|);
    DescendNested(events, sub, neigh, depth);
    CallInside(events, depth, |v|);
    DescendParented(adj, node, depth, events, neigh, sub);
  }

  /** A descent consumes an unvisited node, so the recursion measure drops. */
  lemma Shrinks(entry: seq<bool>, f0: seq<bool>, node: int, v: seq<int>)
    requires 0 <= node < |entry| && v != []
    requires Counted(entry, f0, node, v)
    ensures Unvisited(f0) < Unvisited(entry) || (Unvisited(f0) == Unvisited(entry) && entry[node])
  {
  }

  lemma NeighboursMarkedNext(adj: seq<seq<int>>, node: int, j: int, f0: seq<bool>, f1: seq<bool>)
    requires ValidGraph(adj) && 0 <= node < |adj| && 0 <= j < |adj[node]| && |f0| == |adj| && |f1| == |adj|
    requires forall w :: 0 <= w < |adj| && f0[w] ==> f1[w]
    requires NeighboursMarked(adj, node, j, f0) && f1[adj[node][j]]
    ensures NeighboursMarked(adj, node, j + 1, f1)
  {
  }

  /** The lines printed so far, followed by what the for-each prints from the
      j-th neighbour on, are what the whole call prints; and the for-each leaves
      the flags the whole call leaves. */
  ghost predicate Follows(adj: seq<seq<int>>, node: int, depth: nat, entry: seq<bool>, j: int,
                          flags: seq<bool>, events: seq<Event>)
  {
    && ValidGraph(adj) && 0 <= node < |adj| && |entry| == |adj| && 0 <= j <= |adj[node]| && |flags| == |adj|
    && var rest := DfsLoop(adj, node, j, depth, flags);
       Run(events + rest.events, rest.flags) == DfsCall(adj, node, depth, entry)
  }

  /** After marking node and printing "Visiting node", the for-each has all of the call still to do. */
  lemma FollowsStart(adj: seq<seq<int>>, node: int, depth: nat, entry: seq<bool>)
    requires ValidGraph(adj) && 0 <= node < |adj| && |entry| == |adj|
    ensures Follows(adj, node, depth, entry, 0, entry[node := true], [Visiting(node, depth)])
  {
  }

  /** A neighbour that is already visited is passed over. */
  lemma FollowsSkip(adj: seq<seq<int>>, node: int, depth: nat, entry: seq<bool>, j: int,
                    flags: seq<bool>, events: seq<Event>)
    requires Follows(adj, node, depth, entry, j, flags, events)
    requires j < |adj[node]| && flags[adj[node][j]]
    ensures Follows(adj, node, depth, entry, j + 1, flags, events)
  {
  }

  /** An unvisited neighbour gets "Go deeper to" and then everything its call prints. */
  lemma FollowsDescend(adj: seq<seq<int>>, node: int, depth: nat, entry: seq<bool>, j: int,
                       f0: seq<bool>, f1: seq<bool>, events: seq<Event>, sub: seq<Event>)
    requires Follows(adj, node, depth, entry, j, f0, events)
    requires j < |adj[node]| && !f0[adj[node][j]]
    requires DfsCall(adj, adj[node][j], depth + 1, f0) == Run(sub, f1)
    ensures Follows(adj, node, depth, entry, j + 1, f1, events + [GoDeeper(adj[node][j], depth)] + sub)
  {
    var w := adj[node][j];
    var rest := DfsLoop(adj, node, j + 1, depth, f1);
    assert DfsLoop(adj, node, j, depth, f0) == Run([GoDeeper(w, depth)] + sub + rest.events, rest.flags);
    assert events + ([GoDeeper(w, depth)] + sub + rest.events) == (events + [GoDeeper(w, depth)] + sub) + rest.events;
  }

  /** Past the last neighbour the call is complete. */
  lemma FollowsDone(adj: seq<seq<int>>, node: int, depth: nat, entry: seq<bool>,
                    flags: seq<bool>, events: seq<Event>)
    requires 0 <= node < |adj| && Follows(adj, node, depth, entry, |adj[node]|, flags, events)
    ensures DfsCall(adj, node, depth, entry) == Run(events, flags)
  {
    assert events + [] == events;
  }

  /** What holds before the j-th pass of dfsHelper's for-each. */
  ghost predicate Scanned(adj: seq<seq<int>>, node: int, depth: nat, entry: seq<bool>, j: int,
                          flags: seq<bool>, events: seq<Event>)
  {
    && Partial(adj, node, depth, entry, flags, events)
    && 0 <= j <= |adj[node]| && |flags| == |adj|
    && NeighboursMarked(adj, node, j, flags)
    && Follows(adj, node, depth, entry, j, flags, events)
  }

  lemma ScannedStart(adj: seq<seq<int>>, node: int, depth: nat, entry: seq<bool>)
    requires ValidGraph(adj) && 0 <= node < |adj| && |entry| == |adj|
    ensures Scanned(adj, node, depth, entry, 0, entry[node := true], [Visiting(node, depth)])
  {
    PartialStart(adj, node, depth, entry);
    FollowsStart(adj, node, depth, entry);
  }

  lemma ScannedSkip(adj: seq<seq<int>>, node: int, depth: nat, entry: seq<bool>, j: int,
                    flags: seq<bool>, events: seq<Event>)
    requires Scanned(adj, node, depth, entry, j, flags, events)
    requires j < |adj[node]| && flags[adj[node][j]]
    ensures Scanned(adj, node, depth, entry, j + 1, flags, events)
  {
    FollowsSkip(adj, node, depth, entry, j, flags, events);
    NeighboursMarkedNext(adj, node, j, flags, flags);
  }

  lemma ScannedDescend(adj: seq<seq<int>>, node: int, depth: nat, entry: seq<bool>, j: int,
                       f0: seq<bool>, f1: seq<bool>, events: seq<Event>, sub: seq<Event>)
    requires Scanned(adj, node, depth, entry, j, f0, events)
    requires j < |adj[node]| && !f0[adj[node][j]]
    requires Partial(adj, adj[node][j], depth + 1, f0, f1, sub) && |f1| == |adj|
    requires NeighboursMarked(adj, adj[node][j], |adj[adj[node][j]]|, f1)
    requires DfsCall(adj, adj[node][j], depth + 1, f0) == Run(sub, f1)
    ensures Scanned(adj, node, depth, entry, j + 1, f1, events + [GoDeeper(adj[node][j], depth)] + sub)
  {
    var neigh := adj[node][j];
    Descend(adj, node, depth, entry, f0, f1, events, neigh, sub);
    MarksGrow(adj, f0, f1, VisitedNodes(sub));
    FollowsDescend(adj, node, depth, entry, j, f0, f1, events, sub);
    NeighboursMarkedNext(adj, node, j, f0, f1);
  }

  /** dfsHelper(node, adj, visited, depth). Afterwards the flags are the old
      flags plus exactly the visited nodes, node first and each once, all
      reachable from node, and every neighbour of a visited node is marked. */
  method DfsHelper(node: int, adj: seq<seq<int>>, visited: array<bool>, depth: nat) returns (events: seq<Event>)
    requires ValidGraph(adj) && 0 <= node < |adj| && visited.Length == |adj|
    modifies visited
    decreases Unvisited(visited[..]), if visited[node] then 1 else 0
    ensures Partial(adj, node, depth, old(visited[..]), visited[..], events)
    ensures NeighboursMarked(adj, node, |adj[node]|, visited[..])
    ensures DfsCall(adj, node, depth, old(visited[..])) == Run(events, visited[..])
  {
    ghost var entry := visited[..];
    visited[node] := true;
    ScannedStart(adj, node, depth, entry);
    assert visited[..] == entry[node := true];
    events := [Visiting(node, depth)];
    for j := 0 to |adj[node]|
      invariant Scanned(adj, node, depth, entry, j, visited[..], events)
    {
      var neigh := adj[node][j];
      ghost var f0 := visited[..];
      if !visited[neigh] {
        Shrinks(entry, f0, node, VisitedNodes(events));
        var sub := DfsHelper(neigh, adj, visited, depth + 1);
        ScannedDescend(adj, node, depth, entry, j, f0, visited[..], events, sub);
        events := events + [GoDeeper(neigh, depth)] + sub;
      } else {
        ScannedSkip(adj, node, depth, entry, j, f0, events);
      }
    }
    FollowsDone(adj, node, depth, entry, visited[..], events);
  }

  /** From a fresh vector, a finished call visits exactly the reachable nodes. */
  lemma DfsComplete(adj: seq<seq<int>>, start: int, before: seq<bool>, after: seq<bool>, events: seq<Event>)
    requires forall i :: 0 <= i < |before| ==> !before[i]
    requires Partial(adj, start, 0, before, after, events)
    requires NeighboursMarked(adj, start, |adj[start]|, after)
    ensures events[0] == Visiting(start, 0)
    ensures NoDup(VisitedNodes(events)) && |VisitedNodes(events)| <= |adj|
    ensures forall w :: w in VisitedNodes(events) <==> Reachable(adj, start, w)
    ensures forall k :: 0 <= k < |events| ==> events[k].depth < |adj|
    ensures Nested(events) && Parented(adj, events)
  {
    UnvisitedAllFalse(before);
    ClosedAfterCall(adj, start, 0, before, after, events);
    var v := VisitedNodes(events);
    assert Closed(adj, v) by {
      forall x, w | x in v && 0 <= x < |adj| && w in adj[x]
        ensures w in v
      {
        var k :| 0 <= k < |v| && v[k] == x;
        var i :| 0 <= i < |adj[x]| && adj[x][i] == w;
        assert after[adj[v[k]][i]];
      }
    }
    forall w | Reachable(adj, start, w)
      ensures w in v
    {
      ClosedContainsReachable(adj, v, start, w);
    }
  }

  /** visualizeDFS: dfsHelper(start, .., 0) on an all-unvisited vector. The
      visits are the nodes reachable from start, each once, start first, and
      no line is indented by as many levels as there are nodes. */
  method Dfs(start: int, adj: seq<seq<int>>) returns (events: seq<Event>)
    requires ValidGraph(adj) && 0 <= start < |adj|
    ensures events != [] && events[0] == Visiting(start, 0)
    ensures NoDup(VisitedNodes(events)) && |VisitedNodes(events)| <= |adj|
    ensures forall w :: w in VisitedNodes(events) <==> Reachable(adj, start, w)
    ensures forall k :: 0 <= k < |events| ==> events[k].depth < |adj|
    ensures Nested(events) && Parented(adj, events)
    ensures events == DfsCall(adj, start, 0, seq(|adj|, _ => false)).events
  {
    var visited := new bool[|adj|](_ => false);
    ghost var initial := visited[..];
    assert initial == seq(|adj|, _ => false);
    events := DfsHelper(start, adj, visited, 0);
    DfsComplete(adj, start, initial, visited[..], events);
  }

  /** From node 3 with 0 and 1 visited: node 3's only neighbour, 1, is visited. */
  lemma ScenarioNodeThree()
    ensures DfsCall([[1, 2], [0, 3], [0], [1]], 3, 2, [true, true, false, false])
         == Run([Visiting(3, 2)], [true, true, false, true])
  {
    var adj := [[1, 2], [0, 3], [0], [1]];
    var f2 := [true, true, false, false];
    var f3 := [true, true, false, true];
    assert f2[3 := true] == f3;
    assert DfsLoop(adj, 3, 1, 2, f3) == Run([], f3);
    assert DfsLoop(adj, 3, 0, 2, f3) == Run([], f3);
  }

  /** From node 1 with 0 visited: 0 is skipped, then the call goes deeper to 3. */
  lemma ScenarioNodeOne()
    ensures DfsCall([[1, 2], [0, 3], [0], [1]], 1, 1, [true, false, false, false])
         == Run([Visiting(1, 1), GoDeeper(3, 1), Visiting(3, 2)], [true, true, false, true])
  {
    var adj := [[1, 2], [0, 3], [0], [1]];
    var f1 := [true, false, false, false];
    var f2 := [true, true, false, false];
    var f3 := [true, true, false, true];
    assert f1[1 := true] == f2;
    ScenarioNodeThree();
    assert DfsLoop(adj, 1, 2, 1, f3) == Run([], f3);
    assert DfsLoop(adj, 1, 1, 1, f2) == Run([GoDeeper(3, 1), Visiting(3, 2)], f3);
    assert DfsLoop(adj, 1, 0, 1, f2) == Run([GoDeeper(3, 1), Visiting(3, 2)], f3);
  }

  /** From node 2 with 0, 1 and 3 visited: its only neighbour, 0, is visited. */
  lemma ScenarioNodeTwo()
    ensures DfsCall([[1, 2], [0, 3], [0], [1]], 2, 1, [true, true, false, true])
         == Run([Visiting(2, 1)], [true, true, true, true])
  {
    var adj := [[1, 2], [0, 3], [0], [1]];
    var f3 := [true, true, false, true];
    var f4 := [true, true, true, true];
    assert f3[2 := true] == f4;
    assert DfsLoop(adj, 2, 1, 1, f4) == Run([], f4);
    assert DfsLoop(adj, 2, 0, 1, f4) == Run([], f4);
  }

  /** The demonstration graph, edges (0, 1), (0, 2) and (1, 3), searched from 0:
      the program prints Visiting 0, Go deeper to 1, Visiting 1, Go deeper to 3,
      Visiting 3, Go deeper to 2, Visiting 2, so nodes are visited in the order 0, 1, 3, 2. */
  lemma ScenarioFourNodes()
    ensures DfsCall([[1, 2], [0, 3], [0], [1]], 0, 0, [false, false, false, false]).events
         == [Visiting(0, 0), GoDeeper(1, 0), Visiting(1, 1), GoDeeper(3, 1), Visiting(3, 2),
             GoDeeper(2, 0), Visiting(2, 1)]
  {
    var adj := [[1, 2], [0, 3], [0], [1]];
    var f0 := [false, false, false, false];
    var f1 := [true, false, false, false];
    var f3 := [true, true, false, true];
    var f4 := [true, true, true, true];
    assert f0[0 := true] == f1;
    ScenarioNodeOne();
    ScenarioNodeTwo();
    assert DfsLoop(adj, 0, 2, 0, f4) == Run([], f4);
    assert DfsLoop(adj, 0, 1, 0, f3) == Run([GoDeeper(2, 0), Visiting(2, 1)], f4);
    assert DfsLoop(adj, 0, 0, 0, f1)
        == Run([GoDeeper(1, 0), Visiting(1, 1), GoDeeper(3, 1), Visiting(3, 2), GoDeeper(2, 0), Visiting(2, 1)], f4);
  }

  /** Running the visualiser's DFS on the demonstration graph from node 0. */
  method RunFourNodes() returns (events: seq<Event>)
    ensures events == [Visiting(0, 0), GoDeeper(1, 0), Visiting(1, 1), GoDeeper(3, 1), Visiting(3, 2),
                       GoDeeper(2, 0), Visiting(2, 1)]
  {
    var adj := [[1, 2], [0, 3], [0], [1]];
    assert ValidGraph(adj);
    events := Dfs(0, adj);
    assert seq(4, _ => false) == [false, false, false, false];
    ScenarioFourNodes();
  }
}
