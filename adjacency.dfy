/** Building the undirected graph in main: every input edge (u, v) is appended
    to u's list as v and to v's list as u. */
module Adjacency {
  import opened Graph

  type Edge = (int, int)

  /** What inserting edge e appends to node w's list: the other endpoint once
      per end of e that is w (so a self-loop at w appends w twice). */
  function Contribution(e: Edge, w: int): seq<int>
  {
    (if e.0 == w then [e.1] else []) + (if e.1 == w then [e.0] else [])
  }

  /** The neighbour list of w: the contributions of the edges at w, in edge order. */
  function Neighbours(edges: seq<Edge>, w: int): seq<int>
  {
    if edges == [] then [] else Contribution(edges[0], w) + Neighbours(edges[1..], w)
  }

  /** How many times the directed pair (u, v) occurs among the edges. */
  function Occurrences(edges: seq<Edge>, u: int, v: int): nat
  {
    if edges == [] then 0
    else (if edges[0] == (u, v) then 1 else 0) + Occurrences(edges[1..], u, v)
  }

  ghost predicate EndpointsInRange(edges: seq<Edge>, n: int)
  {
    forall i :: 0 <= i < |edges| ==> 0 <= edges[i].0 < n && 0 <= edges[i].1 < n
  }

  /** Inserting one more edge appends one entry to each endpoint's list (two to
      the node of a self-loop) and leaves every other list as it was. */
  lemma {:induction false} EdgeInsertion(edges: seq<Edge>, e: Edge, w: int)
    ensures w != e.0 && w != e.1 ==> Neighbours(edges + [e], w) == Neighbours(edges, w)
    ensures w == e.0 && w != e.1 ==> Neighbours(edges + [e], w) == Neighbours(edges, w) + [e.1]
    ensures w == e.1 && w != e.0 ==> Neighbours(edges + [e], w) == Neighbours(edges, w) + [e.0]
    ensures w == e.0 && w == e.1 ==> Neighbours(edges + [e], w) == Neighbours(edges, w) + [w, w]
  {
    NeighboursAppend(edges, e, w);
  }

  lemma {:induction false} NeighboursAppend(edges: seq<Edge>, e: Edge, w: int)
    ensures Neighbours(edges + [e], w) == Neighbours(edges, w) + Contribution(e, w)
  {
    if edges == [] {
      assert [e][1..] == [];
      assert Neighbours([e], w) == Contribution(e, w) + Neighbours([], w);
    } else {
      var rest := edges[1..];
      assert (edges + [e])[0] == edges[0];
      assert (edges + [e])[1..] == rest + [e];
      NeighboursAppend(rest, e, w);
      calc {
        Neighbours(edges + [e], w);
        Contribution(edges[0], w) + Neighbours(rest + [e], w);
        Contribution(edges[0], w) + (Neighbours(rest, w) + Contribution(e, w));
        (Contribution(edges[0], w) + Neighbours(rest, w)) + Contribution(e, w);
      }
    }
  }

  /** v occurs in u's list once for every edge (u, v) and once for every edge (v, u). */
  lemma {:induction false} NeighbourCount(edges: seq<Edge>, u: int, v: int)
    ensures multiset(Neighbours(edges, u))[v] == Occurrences(edges, u, v) + Occurrences(edges, v, u)
  {
    if edges != [] {
      NeighbourCount(edges[1..], u, v);
    }
  }

  /** The adjacency is symmetric, counting multiplicities. */
  lemma Symmetric(edges: seq<Edge>, u: int, v: int)
    ensures multiset(Neighbours(edges, u))[v] == multiset(Neighbours(edges, v))[u]
    ensures v in Neighbours(edges, u) <==> u in Neighbours(edges, v)
  {
    NeighbourCount(edges, u, v);
    NeighbourCount(edges, v, u);
  }

  lemma {:induction false} NeighboursInRange(edges: seq<Edge>, n: int, w: int)
    requires EndpointsInRange(edges, n)
    ensures forall k :: 0 <= k < |Neighbours(edges, w)| ==> 0 <= Neighbours(edges, w)[k] < n
  {
    if edges != [] {
      NeighboursInRange(edges[1..], n, w);
    }
  }

  /** One iteration of the edge loop: appending v to u's list and then u to v's
      list turns the lists of the first i edges into those of the first i + 1. */
  lemma InsertEdge(n: nat, edges: seq<Edge>, i: int, adj: seq<seq<int>>, mid: seq<seq<int>>, adj': seq<seq<int>>)
    requires EndpointsInRange(edges, n) && 0 <= i < |edges|
    requires |adj| == n && forall w :: 0 <= w < n ==> adj[w] == Neighbours(edges[..i], w)
    requires mid == adj[edges[i].0 := adj[edges[i].0] + [edges[i].1]]
    requires adj' == mid[edges[i].1 := mid[edges[i].1] + [edges[i].0]]
    ensures |adj'| == n && forall w :: 0 <= w < n ==> adj'[w] == Neighbours(edges[..i + 1], w)
  {
    assert edges[..i + 1] == edges[..i] + [edges[i]];
    forall w | 0 <= w < n
      ensures adj'[w] == Neighbours(edges[..i + 1], w)
    {
      EdgeInsertion(edges[..i], edges[i], w);
    }
  }

  /** Lists built from in-range edges form a valid, symmetric graph. */
  lemma BuiltGraph(n: nat, edges: seq<Edge>, adj: seq<seq<int>>)
    requires EndpointsInRange(edges, n)
    requires |adj| == n && forall w :: 0 <= w < n ==> adj[w] == Neighbours(edges, w)
    ensures ValidGraph(adj)
    ensures forall u, v :: 0 <= u < n && 0 <= v < n ==> multiset(adj[u])[v] == multiset(adj[v])[u]
  {
    forall u | 0 <= u < n
      ensures forall k :: 0 <= k < |adj[u]| ==> 0 <= adj[u][k] < n
    {
      NeighboursInRange(edges, n, u);
    }
    forall u, v | 0 <= u < n && 0 <= v < n
      ensures multiset(adj[u])[v] == multiset(adj[v])[u]
    {
      Symmetric(edges, u, v);
    }
  }

  /** The loop of main that inserts the edges into n empty lists. */
  method BuildAdjacency(n: nat, edges: seq<Edge>) returns (adj: seq<seq<int>>)
    requires EndpointsInRange(edges, n)
    ensures |adj| == n
    ensures forall w :: 0 <= w < n ==> adj[w] == Neighbours(edges, w)
    ensures ValidGraph(adj)
    ensures forall u, v :: 0 <= u < n && 0 <= v < n ==> multiset(adj[u])[v] == multiset(adj[v])[u]
  {
    adj := seq(n, _ => []);
    for i := 0 to |edges|
      invariant |adj| == n
      invariant forall w :: 0 <= w < n ==> adj[w] == Neighbours(edges[..i], w)
    {
      var (u, v) := edges[i];
      var mid := adj[u := adj[u] + [v]];
      var next := mid[v := mid[v] + [u]];
      InsertEdge(n, edges, i, adj, mid, next);
      adj := next;
    }
    assert edges[..|edges|] == edges;
    BuiltGraph(n, edges, adj);
  }

  /** Four nodes with edges (0,1), (0,2), (1,3): the lists are 0: 1 2, 1: 0 3,
      2: 0 and 3: 1, so any adjacency holding those lists for the nodes 0 .. 3 is this one. */
  lemma ScenarioFourNodes(adj: seq<seq<int>>)
    requires |adj| == 4
    requires forall w :: 0 <= w < 4 ==> adj[w] == Neighbours([(0, 1), (0, 2), (1, 3)], w)
    ensures adj == [[1, 2], [0, 3], [0], [1]]
  {
    var edges := [(0, 1), (0, 2), (1, 3)];
    assert adj[0] == Neighbours(edges, 0) == [1, 2];
    assert adj[1] == Neighbours(edges, 1) == [0, 3];
    assert adj[2] == Neighbours(edges, 2) == [0];
    assert adj[3] == Neighbours(edges, 3) == [1];
  }

  /** Running the edge loop on the four-node example builds exactly those lists. */
  method RunFourNodes() returns (adj: seq<seq<int>>)
    ensures adj == [[1, 2], [0, 3], [0], [1]]
  {
    adj := BuildAdjacency(4, [(0, 1), (0, 2), (1, 3)]);
    ScenarioFourNodes(adj);
  }
}
