/** The colouring pass of `greedy_coloring` (main.py).

    Vertices are visited in the degree order of module Ordering; each one
    receives the least colour in `{0, ..., N-1}` (N the number of vertices)
    that no already-coloured neighbour carries. Python's `min` raises on an
    empty set; here the choice returns an `Option`, and the pass proves the
    empty case never arises. */
module Coloring {
  import opened Options
  import opened Graphs
  import opened Ordering

  type Colors = map<int, nat>

  /** `set(colors[n] for n in neighbors if n in colors)`. */
  function UsedColors(colors: Colors, neighbours: seq<int>): set<nat> {
    set w | w in neighbours && w in colors :: colors[w]
  }

  /** `c` is the least natural number outside `used`. */
  ghost predicate IsLeastFree(c: nat, used: set<nat>) {
    c !in used && forall d: nat :: d < c ==> d in used
  }

  /** `min(set(range(n)) - used)`, with `None` where Python's `min` raises. */
  function MinFree(used: set<nat>, n: nat): (r: Option<nat>)
    ensures r.None? <==> forall c: nat :: c < n ==> c in used
    ensures r.Some? ==> r.value < n && IsLeastFree(r.value, used)
  {
    MinFreeFrom(used, 0, n)
  }

  function MinFreeFrom(used: set<nat>, lo: nat, n: nat): (r: Option<nat>)
    requires forall d: nat :: d < lo ==> d in used
    ensures r.None? <==> forall c: nat :: lo <= c < n ==> c in used
    ensures r.Some? ==> lo <= r.value < n && IsLeastFree(r.value, used)
    decreases n - lo
  {
    if lo >= n then None
    else if lo !in used then Some(lo)
    else MinFreeFrom(used, lo + 1, n)
  }

  // ----- The available set is never empty -----

  /** `set(range(n))`. */
  function Range(n: nat): set<nat> {
    if n == 0 then {} else Range(n - 1) + {n - 1}
  }

  lemma {:induction false} RangeFacts(n: nat)
    ensures |Range(n)| == n
    ensures forall c: nat :: c in Range(n) <==> c < n
  {
    if n > 0 {
      RangeFacts(n - 1);
    }
  }

  lemma {:induction false} SubsetSize(a: set<nat>, b: set<nat>)
    requires a <= b
    ensures |a| <= |b|
  {
    assert b == a + (b - a);
  }

  /** The colours carried by the first `i` vertices of `order`. */
  function PrefixColors(colors: Colors, order: seq<int>, i: nat): set<nat>
    requires i <= |order|
  {
    set j | 0 <= j < i && order[j] in colors :: colors[order[j]]
  }

  lemma {:induction false} PrefixColorsSize(colors: Colors, order: seq<int>, i: nat)
    requires i <= |order|
    ensures |PrefixColors(colors, order, i)| <= i
  {
    if i > 0 {
      PrefixColorsSize(colors, order, i - 1);
      var extra: set<nat> := if order[i - 1] in colors then {colors[order[i - 1]]} else {};
      assert PrefixColors(colors, order, i) == PrefixColors(colors, order, i - 1) + extra;
    }
  }

  /** If every colour below `n` is used, at least `n` colours are used. */
  lemma RangeCovered(used: set<nat>, n: nat)
    requires forall c: nat :: c < n ==> c in used
    ensures |used| >= n
  {
    RangeFacts(n);
    SubsetSize(Range(n), used);
  }

  /** The set `possible_colors - neighbor_colors` of main.py is non-empty
      while fewer than `n` vertices are coloured: the coloured vertices are
      among the first `i < n` of the order, so at most `i` colours are used,
      and `min` is defined. */
  lemma FreeColorExists(colors: Colors, neighbours: seq<int>, n: nat, order: seq<int>, i: nat)
    requires i <= |order| && i < n
    requires forall v :: v in colors ==> v in order[..i]
    ensures |UsedColors(colors, neighbours)| <= i
    ensures MinFree(UsedColors(colors, neighbours), n).Some?
  {
    var used := UsedColors(colors, neighbours);
    forall c | c in used ensures c in PrefixColors(colors, order, i) {
      var w :| w in neighbours && w in colors && colors[w] == c;
      var j :| 0 <= j < i && order[..i][j] == w;
      assert order[j] == w;
    }
    SubsetSize(used, PrefixColors(colors, order, i));
    PrefixColorsSize(colors, order, i);
    if MinFree(used, n).None? {
      RangeCovered(used, n);
      assert false;
    }
  }

  // ----- What the pass computes -----

  /** The colours of those neighbours of `order[k]` that precede it in
      `order`: the colours already assigned when `order[k]` is reached. */
  function EarlierColors(g: Graph, order: seq<int>, colors: Colors, k: nat): set<nat>
    requires k < |order|
  {
    set j | 0 <= j < k && order[j] in Adj(g, order[k]) && order[j] in colors :: colors[order[j]]
  }

  /** Each vertex of `order` is coloured with the least colour that none of
      its neighbours coloured before it carries. */
  ghost predicate GreedyChoice(g: Graph, order: seq<int>, colors: Colors) {
    forall k :: 0 <= k < |order| ==>
      order[k] in colors && IsLeastFree(colors[order[k]], EarlierColors(g, order, colors, k))
  }

  /** No two distinct adjacent vertices share a colour (self-loops aside). */
  ghost predicate Proper(g: Graph, colors: Colors) {
    forall u, w :: u in colors && w in colors && u != w && w in Adj(g, u) ==> colors[u] != colors[w]
  }

  /** `greedy_coloring(graph)`: every key is coloured exactly once, with a
      colour below the number of vertices, by the largest-first greedy rule;
      on an undirected graph the colouring is proper. */
  method GreedyColoring(g: Graph) returns (colors: Colors)
    requires Valid(g)
    ensures forall v :: v in colors <==> v in g.adj
    ensures forall v :: v in colors ==> colors[v] < |g.keys|
    ensures GreedyChoice(g, SortByDegree(g, g.keys), colors)
    ensures Symmetric(g) ==> Proper(g, colors)
  {
    var order := SortByDegree(g, g.keys);
    assert |order| == |g.keys| by {
      assert |multiset(order)| == |multiset(g.keys)|;
    }
    colors := ColorInOrder(g, order, |g.keys|);
    forall v ensures v in order <==> v in g.adj {
      assert v in order <==> v in multiset(order);
    }
    if Symmetric(g) {
      GreedyIsProper(g, order, colors);
    }
  }

  /** The loop of main.py lines 45-54 over a given order of distinct
      vertices, with colour universe `{0, ..., n-1}`. */
  method ColorInOrder(g: Graph, order: seq<int>, n: nat) returns (colors: Colors)
    requires Distinct(order) && |order| <= n
    ensures forall v :: v in colors <==> v in order
    ensures forall v :: v in colors ==> colors[v] < n
    ensures GreedyChoice(g, order, colors)
  {
    colors := map[];
    var i := 0;
    while i < |order|
      invariant i <= |order|
      invariant |colors| == i
      invariant forall v :: v in colors <==> v in order[..i]
      invariant forall v :: v in colors ==> colors[v] < n
      invariant forall k :: 0 <= k < i ==>
        order[k] in colors && IsLeastFree(colors[order[k]], EarlierColors(g, order, colors, k))
    {
      var v := order[i];
      var used := UsedColors(colors, Adj(g, v));
      FreeColorExists(colors, Adj(g, v), n, order, i);
      var c := MinFree(used, n).value;
      ColorStep(g, order, colors, i, c, colors[v := c]);
      colors := colors[v := c];
      i := i + 1;
    }
    assert order[..i] == order;
  }

  /** One iteration of the pass: colouring `order[i]` with the least colour
      its coloured neighbours leave free extends the greedy rule to the
      first `i + 1` vertices; the colours seen by the vertices up to
      `order[i]` are unchanged by it. */
  lemma ColorStep(g: Graph, order: seq<int>, colors: Colors, i: nat, c: nat, colors': Colors)
    requires i < |order| && Distinct(order)
    requires forall v :: v in colors <==> v in order[..i]
    requires forall k :: 0 <= k < i ==>
      order[k] in colors && IsLeastFree(colors[order[k]], EarlierColors(g, order, colors, k))
    requires IsLeastFree(c, UsedColors(colors, Adj(g, order[i])))
    requires colors' == colors[order[i] := c]
    ensures forall v :: v in colors' <==> v in order[..i + 1]
    ensures forall k :: 0 <= k < i + 1 ==>
      order[k] in colors' && IsLeastFree(colors'[order[k]], EarlierColors(g, order, colors', k))
    ensures forall k :: 0 <= k <= i ==> EarlierColors(g, order, colors', k) == EarlierColors(g, order, colors, k)
  {
    EarlierIsUsed(g, order, colors, i);
    assert order[..i + 1] == order[..i] + [order[i]];
    forall k | 0 <= k <= i
      ensures EarlierColors(g, order, colors', k) == EarlierColors(g, order, colors, k)
    {
      EarlierColorsFrame(g, order, colors, colors', k);
    }
  }

  /** The colours used by coloured neighbours, as the pass computes them,
      are the colours of the neighbours earlier in the order. */
  lemma EarlierIsUsed(g: Graph, order: seq<int>, colors: Colors, i: nat)
    requires i < |order|
    requires forall v :: v in colors <==> v in order[..i]
    ensures EarlierColors(g, order, colors, i) == UsedColors(colors, Adj(g, order[i]))
  {
    forall c | c in UsedColors(colors, Adj(g, order[i]))
      ensures c in EarlierColors(g, order, colors, i)
    {
      var w :| w in Adj(g, order[i]) && w in colors && colors[w] == c;
      var j :| 0 <= j < i && order[..i][j] == w;
      assert order[j] == w;
    }
    forall c | c in EarlierColors(g, order, colors, i)
      ensures c in UsedColors(colors, Adj(g, order[i]))
    {
      var j :| 0 <= j < i && order[j] in Adj(g, order[i]) && order[j] in colors && colors[order[j]] == c;
      var w := order[j];
      assert w in Adj(g, order[i]) && w in colors && colors[w] == c;
    }
  }

  /** Colouring a vertex that is not among the first `k` leaves the colours
      seen at position `k` unchanged. */
  lemma EarlierColorsFrame(g: Graph, order: seq<int>, colors: Colors, colors': Colors, k: nat)
    requires k < |order|
    requires forall j :: 0 <= j < k ==> (order[j] in colors <==> order[j] in colors')
    requires forall j :: 0 <= j < k && order[j] in colors ==> colors'[order[j]] == colors[order[j]]
    ensures EarlierColors(g, order, colors', k) == EarlierColors(g, order, colors, k)
  {
  }

  /** The greedy rule yields a proper colouring of an undirected graph: of
      two adjacent vertices, the later one avoided the earlier one's colour. */
  lemma GreedyIsProper(g: Graph, order: seq<int>, colors: Colors)
    requires Symmetric(g)
    requires GreedyChoice(g, order, colors)
    requires forall v :: v in colors ==> v in order
    ensures Proper(g, colors)
  {
    forall u, w | u in colors && w in colors && u != w && w in Adj(g, u)
      ensures colors[u] != colors[w]
    {
      var i :| 0 <= i < |order| && order[i] == u;
      var j :| 0 <= j < |order| && order[j] == w;
      if j < i {
        assert colors[w] in EarlierColors(g, order, colors, i);
      } else {
        assert u in Adj(g, w);
        assert colors[u] in EarlierColors(g, order, colors, j);
      }
    }
  }

  lemma LeastFreeUnique(a: nat, b: nat, used: set<nat>)
    requires IsLeastFree(a, used) && IsLeastFree(b, used)
    ensures a == b
  {
  }

  /** Agreement of two greedy colourings on the first `i` vertices. */
  lemma {:induction false} GreedyAgree(g: Graph, order: seq<int>, c1: Colors, c2: Colors, i: nat)
    requires i <= |order|
    requires GreedyChoice(g, order, c1) && GreedyChoice(g, order, c2)
    ensures forall k :: 0 <= k < i ==> c1[order[k]] == c2[order[k]]
  {
    if i > 0 {
      GreedyAgree(g, order, c1, c2, i - 1);
      var k := i - 1;
      assert EarlierColors(g, order, c1, k) == EarlierColors(g, order, c2, k);
      LeastFreeUnique(c1[order[k]], c2[order[k]], EarlierColors(g, order, c1, k));
    }
  }

  /** Determinism: for a fixed order there is exactly one colouring of its
      vertices that follows the greedy rule. */
  lemma GreedyUnique(g: Graph, order: seq<int>, c1: Colors, c2: Colors)
    requires GreedyChoice(g, order, c1) && GreedyChoice(g, order, c2)
    requires forall v :: v in c1 <==> v in order
    requires forall v :: v in c2 <==> v in order
    ensures c1 == c2
  {
    GreedyAgree(g, order, c1, c2, |order|);
    forall v ensures v in c1.Keys <==> v in c2.Keys {
    }
    assert c1.Keys == c2.Keys;
    forall v | v in c1 ensures c1[v] == c2[v] {
      var k :| 0 <= k < |order| && order[k] == v;
    }
  }

  // ----- The two pieces together -----

  /** `greedy_coloring(get_graph_from_csv(...))` on an already-parsed edge
      list: every vertex of the edges gets a colour, the colouring is
      proper, and it is the greedy colouring of the built graph. */
  method ColorEdges(edges: seq<Edge>) returns (colors: Colors)
    ensures forall v :: v in colors <==> v in Vertices(edges)
    ensures Proper(Build(edges), colors)
    ensures GreedyChoice(Build(edges), SortByDegree(Build(edges), Build(edges).keys), colors)
  {
    var g := Build(edges);
    BuildSymmetric(edges);
    colors := GreedyColoring(g);
  }
}
