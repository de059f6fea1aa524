/** Adjacency construction: the edge fold of `get_graph_from_csv` in main.py.

    A Python dict is modelled as a `Graph`: `keys` is the dict's key
    iteration order (insertion order of first appearance) and `adj` its
    contents. The CSV reading that produces the edge list is not modelled;
    the fold takes an already-parsed sequence of integer pairs. */
module Graphs {

  type Edge = (int, int)

  datatype Graph = Graph(keys: seq<int>, adj: map<int, seq<int>>)

  predicate Distinct(s: seq<int>) {
    forall i, j :: 0 <= i < j < |s| ==> s[i] != s[j]
  }

  /** What every Python dict satisfies: each key once, and `keys` lists
      exactly the keys of `adj`. */
  predicate Valid(g: Graph) {
    && Distinct(g.keys)
    && (forall v :: v in g.keys ==> v in g.adj)
    && (forall v :: v in g.adj ==> v in g.keys)
  }

  /** Undirectedness: whoever appears in a neighbour list is a vertex whose
      own list mentions the owner. */
  ghost predicate Symmetric(g: Graph) {
    forall u, w :: u in g.adj && w in g.adj[u] ==> w in g.adj && u in g.adj[w]
  }

  /** The neighbour list of `v`, empty when `v` is not a key. */
  function Adj(g: Graph, v: int): seq<int> {
    if v in g.adj then g.adj[v] else []
  }

  /** `vertices_neighbors[x].append(y)` on a `defaultdict(list)`: the first
      access to a missing key inserts it (at the end of the key order) with
      an empty list. */
  function AddArc(g: Graph, x: int, y: int): (r: Graph)
    ensures Valid(g) ==> Valid(r)
    ensures r.adj.Keys == g.adj.Keys + {x}
    ensures r.adj[x] == Adj(g, x) + [y]
    ensures forall v :: v in g.adj && v != x ==> r.adj[v] == g.adj[v]
    ensures r.keys == if x in g.adj then g.keys else g.keys + [x]
  {
    if x in g.adj then Graph(g.keys, g.adj[x := g.adj[x] + [y]])
    else Graph(g.keys + [x], g.adj[x := [y]])
  }

  /** One row of the CSV: `b` is appended to `a`'s list, then `a` to `b`'s. */
  function AddEdge(g: Graph, e: Edge): Graph {
    AddArc(AddArc(g, e.0, e.1), e.1, e.0)
  }

  // ----- Independent descriptions of the result -----

  /** Every endpoint of every edge, in reading order (first endpoint first). */
  function Endpoints(edges: seq<Edge>): seq<int> {
    if |edges| == 0 then []
    else
      var e := edges[|edges| - 1];
      Endpoints(edges[..|edges| - 1]) + [e.0] + [e.1]
  }

  /** The vertices that occur in some edge. */
  function Vertices(edges: seq<Edge>): set<int> {
    set v | v in Endpoints(edges)
  }

  /** The neighbours of `v`: for each edge in order, the other endpoint
      whenever `v` is an endpoint, twice for a self-pair. */
  function Neighbours(edges: seq<Edge>, v: int): seq<int> {
    if |edges| == 0 then []
    else
      var e := edges[|edges| - 1];
      Neighbours(edges[..|edges| - 1], v)
        + (if e.0 == v then [e.1] else [])
        + (if e.1 == v then [e.0] else [])
  }

  /** `s` with every repeated occurrence dropped: its elements in order of
      first appearance. */
  function FirstSeen(s: seq<int>): seq<int> {
    if |s| == 0 then []
    else
      var d := FirstSeen(s[..|s| - 1]);
      if s[|s| - 1] in d then d else d + [s[|s| - 1]]
  }

  /** Dropping repeats loses no element and leaves each element once. */
  lemma {:induction false} FirstSeenElements(s: seq<int>)
    ensures forall v :: v in FirstSeen(s) <==> v in s
    ensures Distinct(FirstSeen(s))
  {
    if |s| > 0 {
      var p := s[..|s| - 1];
      FirstSeenElements(p);
      assert s == p + [s[|s| - 1]];
    }
  }

  // ----- The fold -----

  /** The graph built from `edges`: a valid dict whose keys are exactly the
      vertices of the edges in order of first appearance, each mapped to
      its non-empty neighbour list with edge order and duplicates kept. */
  function Build(edges: seq<Edge>): (g: Graph)
    ensures Valid(g)
    ensures g.adj.Keys == Vertices(edges)
    ensures g.keys == FirstSeen(Endpoints(edges))
    ensures forall v :: v in g.adj ==> g.adj[v] == Neighbours(edges, v) && |g.adj[v]| > 0
  {
    if |edges| == 0 then Graph([], map[])
    else
      var prefix, e := edges[..|edges| - 1], edges[|edges| - 1];
      var g0 := Build(prefix);
      StepKeys(edges, g0);
      StepFirstSeen(edges, g0);
      FirstSeenElements(Endpoints(edges));
      StepNeighbours(edges, g0);
      AddEdge(g0, e)
  }

  /** One fold step adds exactly the pair's endpoints to the key set. */
  lemma StepKeys(edges: seq<Edge>, g0: Graph)
    requires |edges| > 0
    requires g0.adj.Keys == Vertices(edges[..|edges| - 1])
    ensures AddEdge(g0, edges[|edges| - 1]).adj.Keys == Vertices(edges)
  {
    var e := edges[|edges| - 1];
    var s0 := Endpoints(edges[..|edges| - 1]);
    assert Endpoints(edges) == s0 + [e.0] + [e.1];
    forall v ensures v in Vertices(edges) <==> v in s0 || v == e.0 || v == e.1 {
      assert v in Endpoints(edges) <==> v in s0 || v == e.0 || v == e.1;
    }
  }

  /** One fold step appends the pair's endpoints that were not yet keys,
      first endpoint first. */
  lemma StepFirstSeen(edges: seq<Edge>, g0: Graph)
    requires |edges| > 0
    requires g0.adj.Keys == Vertices(edges[..|edges| - 1])
    requires g0.keys == FirstSeen(Endpoints(edges[..|edges| - 1]))
    ensures AddEdge(g0, edges[|edges| - 1]).keys == FirstSeen(Endpoints(edges))
  {
    var e := edges[|edges| - 1];
    var s0 := Endpoints(edges[..|edges| - 1]);
    assert Endpoints(edges) == s0 + [e.0] + [e.1];
    assert forall v :: v in g0.adj <==> v in s0;
    ArcFirstSeen(g0, s0, e.0, e.1);
    ArcFirstSeen(AddArc(g0, e.0, e.1), s0 + [e.0], e.1, e.0);
  }

  /** Appending to a list inserts its owner as a key exactly when the owner
      is seen for the first time. */
  lemma ArcFirstSeen(g: Graph, s: seq<int>, x: int, y: int)
    requires g.keys == FirstSeen(s)
    requires forall v :: v in g.adj <==> v in s
    ensures AddArc(g, x, y).keys == FirstSeen(s + [x])
    ensures forall v :: v in AddArc(g, x, y).adj <==> v in s + [x]
  {
    FirstSeenElements(s);
    assert (s + [x])[..|s|] == s;
  }

  /** One fold step keeps every list equal to its per-vertex description. */
  lemma StepNeighbours(edges: seq<Edge>, g0: Graph)
    requires |edges| > 0
    requires g0.adj.Keys == Vertices(edges[..|edges| - 1])
    requires forall v :: v in g0.adj ==> g0.adj[v] == Neighbours(edges[..|edges| - 1], v) && |g0.adj[v]| > 0
    ensures forall v :: v in AddEdge(g0, edges[|edges| - 1]).adj ==>
      AddEdge(g0, edges[|edges| - 1]).adj[v] == Neighbours(edges, v)
      && |AddEdge(g0, edges[|edges| - 1]).adj[v]| > 0
  {
    forall v | v in AddEdge(g0, edges[|edges| - 1]).adj
      ensures AddEdge(g0, edges[|edges| - 1]).adj[v] == Neighbours(edges, v)
      && |AddEdge(g0, edges[|edges| - 1]).adj[v]| > 0
    {
      if v !in g0.adj {
        NeighboursOfAbsent(edges[..|edges| - 1], v);
      }
      StepNeighbour(edges, g0, v);
    }
  }

  lemma StepNeighbour(edges: seq<Edge>, g0: Graph, v: int)
    requires |edges| > 0
    requires v in g0.adj ==> g0.adj[v] == Neighbours(edges[..|edges| - 1], v) && |g0.adj[v]| > 0
    requires v !in g0.adj ==> Neighbours(edges[..|edges| - 1], v) == []
    requires v in AddEdge(g0, edges[|edges| - 1]).adj
    ensures AddEdge(g0, edges[|edges| - 1]).adj[v] == Neighbours(edges, v)
    ensures |AddEdge(g0, edges[|edges| - 1]).adj[v]| > 0
  {
    var e := edges[|edges| - 1];
    var g2 := AddEdge(g0, e);
    if v != e.0 && v != e.1 {
      assert v in g0.adj;
    } else if v == e.0 && v == e.1 {
      assert g2.adj[v] == Adj(g0, v) + [e.1] + [e.0];
    } else if v == e.0 {
      assert g2.adj[v] == Adj(g0, v) + [e.1];
    } else {
      assert g2.adj[v] == Adj(g0, v) + [e.0];
    }
  }

  lemma {:induction false} NeighboursOfAbsent(edges: seq<Edge>, v: int)
    requires v !in Vertices(edges)
    ensures Neighbours(edges, v) == []
  {
    if |edges| > 0 {
      var prefix := edges[..|edges| - 1];
      assert Endpoints(edges) == Endpoints(prefix) + [edges[|edges| - 1].0] + [edges[|edges| - 1].1];
      NeighboursOfAbsent(prefix, v);
    }
  }

  // ----- Symmetry -----

  /** For distinct `a` and `b`, `b` occurs in `a`'s list exactly as often as
      `a` occurs in `b`'s: each pair contributes to both lists at once. */
  lemma {:induction false} NeighbourCountSymmetric(edges: seq<Edge>, a: int, b: int)
    requires a != b
    ensures multiset(Neighbours(edges, a))[b] == multiset(Neighbours(edges, b))[a]
  {
    if |edges| > 0 {
      NeighbourCountSymmetric(edges[..|edges| - 1], a, b);
    }
  }

  /** The built graph's lists are mutually consistent, counted with
      multiplicity. */
  lemma BuildCountSymmetric(edges: seq<Edge>, a: int, b: int)
    requires a != b
    requires a in Build(edges).adj && b in Build(edges).adj
    ensures multiset(Build(edges).adj[a])[b] == multiset(Build(edges).adj[b])[a]
  {
    NeighbourCountSymmetric(edges, a, b);
  }

  /** Every graph built from an edge list is undirected. */
  lemma BuildSymmetric(edges: seq<Edge>)
    ensures Symmetric(Build(edges))
  {
    var g := Build(edges);
    forall u, w | u in g.adj && w in g.adj[u]
      ensures w in g.adj && u in g.adj[w]
    {
      NeighbourMember(edges, u, w);
      if u != w {
        NeighbourCountSymmetric(edges, u, w);
        assert multiset(g.adj[u])[w] > 0;
      }
    }
  }

  /** Whatever occurs in a neighbour list is an endpoint of some pair. */
  lemma {:induction false} NeighbourMember(edges: seq<Edge>, u: int, w: int)
    requires w in Neighbours(edges, u)
    ensures w in Vertices(edges)
  {
    var prefix := edges[..|edges| - 1];
    var e := edges[|edges| - 1];
    assert Endpoints(edges) == Endpoints(prefix) + [e.0] + [e.1];
    if w in Neighbours(prefix, u) {
      NeighbourMember(prefix, u, w);
    }
  }
}
