/** Graphs as the program stores them: node i's neighbours are the list adj[i],
    nodes are 0 .. |adj| - 1. Also walks, reachability and the visited-flag
    vectors shared by the two traversals. */
module Graph {

  /** Every entry of every adjacency list names a node of the graph. */
  ghost predicate ValidGraph(adj: seq<seq<int>>)
  {
    forall u, k :: 0 <= u < |adj| && 0 <= k < |adj[u]| ==> 0 <= adj[u][k] < |adj|
  }

  /** p is a non-empty walk: its nodes exist and each one is a neighbour of the one before. */
  ghost predicate IsWalk(adj: seq<seq<int>>, p: seq<int>)
  {
    && |p| > 0
    && (forall i :: 0 <= i < |p| ==> 0 <= p[i] < |adj|)
    && (forall i :: 0 < i < |p| ==> p[i] in adj[p[i - 1]])
  }

  ghost predicate Reachable(adj: seq<seq<int>>, s: int, t: int)
  {
    exists p :: IsWalk(adj, p) && p[0] == s && p[|p| - 1] == t
  }

  /** No node reached from a member of s by one edge lies outside s. */
  ghost predicate Closed(adj: seq<seq<int>>, s: seq<int>)
  {
    forall x, w :: x in s && 0 <= x < |adj| && w in adj[x] ==> w in s
  }

  ghost predicate NoDup(s: seq<int>)
  {
    forall i, j :: 0 <= i < j < |s| ==> s[i] != s[j]
  }

  lemma ReachableSelf(adj: seq<seq<int>>, s: int)
    requires 0 <= s < |adj|
    ensures Reachable(adj, s, s)
  {
    assert IsWalk(adj, [s]);
  }

  /** A walk to u followed by the edge u -> v is a walk to v. */
  lemma ReachableStep(adj: seq<seq<int>>, s: int, u: int, v: int)
    requires 0 <= u < |adj| && 0 <= v < |adj| && v in adj[u]
    requires Reachable(adj, s, u)
    ensures Reachable(adj, s, v)
  {
    var p :| IsWalk(adj, p) && p[0] == s && p[|p| - 1] == u;
    var q := p + [v];
    assert IsWalk(adj, q);
  }

  /** The edge u -> v followed by a walk from v to t is a walk from u to t. */
  lemma ReachablePrepend(adj: seq<seq<int>>, u: int, v: int, t: int)
    requires 0 <= u < |adj| && v in adj[u]
    requires Reachable(adj, v, t)
    ensures Reachable(adj, u, t)
  {
    var p :| IsWalk(adj, p) && p[0] == v && p[|p| - 1] == t;
    var q := [u] + p;
    assert forall i :: 0 < i < |q| ==> q[i] == p[i - 1];
    assert IsWalk(adj, q);
  }

  /** A set of nodes that holds s and is closed under edges holds every node reachable from s. */
  lemma ClosedContainsReachable(adj: seq<seq<int>>, nodes: seq<int>, s: int, t: int)
    requires Closed(adj, nodes) && s in nodes
    requires Reachable(adj, s, t)
    ensures t in nodes
  {
    var p :| IsWalk(adj, p) && p[0] == s && p[|p| - 1] == t;
    var i := 0;
    while i < |p| - 1
      invariant 0 <= i < |p| && p[i] in nodes
    {
      assert p[i + 1] in adj[p[i]];
      i := i + 1;
    }
  }

  lemma NoDupConcat(a: seq<int>, b: seq<int>)
    requires NoDup(a) && NoDup(b)
    requires forall x :: x in a ==> x !in b
    ensures NoDup(a + b)
  {
    forall i, j | 0 <= i < j < |a + b|
      ensures (a + b)[i] != (a + b)[j]
    {
      if j >= |a| && i < |a| {
        assert (a + b)[i] in a && (a + b)[j] in b;
      }
    }
  }

  /** Number of false flags: the nodes a traversal has not yet marked visited. */
  function Unvisited(flags: seq<bool>): (c: nat)
    ensures c <= |flags|
  {
    if flags == [] then 0 else (if flags[0] then 0 else 1) + Unvisited(flags[1..])
  }

  lemma {:induction false} UnvisitedAllFalse(flags: seq<bool>)
    requires forall i :: 0 <= i < |flags| ==> !flags[i]
    ensures Unvisited(flags) == |flags|
  {
    if flags != [] {
      UnvisitedAllFalse(flags[1..]);
    }
  }

  /** Marking one unvisited node lowers the count by exactly one. */
  lemma {:induction false} UnvisitedMark(flags: seq<bool>, i: int)
    requires 0 <= i < |flags| && !flags[i]
    ensures Unvisited(flags[i := true]) == Unvisited(flags) - 1
  {
    if i == 0 {
      assert flags[i := true][1..] == flags[1..];
    } else {
      assert flags[i := true][1..] == flags[1..][i - 1 := true];
      UnvisitedMark(flags[1..], i - 1);
    }
  }
}
