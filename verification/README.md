# Greedy largest-first graph colouring, modelled in Dafny

This project models the algorithmic core of a small Python program,
`main.py`, that reads an edge list, builds an adjacency dictionary and
colours the graph with the greedy "largest-first" heuristic. The model has
two pieces, which follow the program's two functions.

- **Adjacency construction** (`graphs.dfy`, module `Graphs`). This is the
  edge fold inside `get_graph_from_csv`. A Python dict is modelled as a
  `Graph`: `keys` holds the dict's key order, which is the insertion order
  of first appearance, and `adj` maps each vertex to its neighbour list.
  `Build` folds a sequence of integer pairs. Each pair `(a, b)` appends `b`
  to `a`'s list and then `a` to `b`'s list. A key missing from the
  `defaultdict` is inserted at the end of the key order on first access.
  The result is described independently by `Endpoints`, `FirstSeen`,
  `Vertices` and `Neighbours`.
- **Greedy colouring** (`ordering.dfy` and `coloring.dfy`, modules
  `Ordering` and `Coloring`). This is `greedy_coloring`.
  - The processing order is the keys sorted by neighbour-list length,
    largest first. Python's `sorted(..., reverse=True)` is stable, so the
    model uses an insertion sort that keeps keys of equal degree in key
    order.
  - The colour universe is `{0, ..., N-1}`, where N is the number of keys.
  - `ColorInOrder` is the loop. Each vertex receives the least colour of
    the universe that no already-coloured neighbour carries. Python's
    `min` of an empty set raises `ValueError`. `MinFree` models that
    failure as `None`, and `FreeColorExists` proves it cannot happen.

Colourings are `map<int, nat>`. Everything is a value, so `greedy_coloring`
cannot change its argument graph. For the same graph, including its key
order, the result is the same: `GreedyUnique` proves this.

Three points about what the code does:
- Self-pairs `(v, v)` are not filtered. A self-pair appends `v` twice to
  `v`'s own list. Self-loops are left out of the proper-colouring property.
- `greedy_coloring` never checks that a free colour remains. If none did,
  `min` at main.py:54 would raise `ValueError`. The model proves that case
  unreachable (`FreeColorExists`).
- `greedy_coloring` accepts any dict. A colouring is proper only when the
  dict is undirected, so `GreedyColoring` promises properness under
  `Symmetric(g)`. Every graph that `Build` returns is undirected
  (`BuildSymmetric`).

## Model

| member | source | states |
|---|---|---|
| Graphs.Build | main.py:18-26 | The built dict has exactly the vertices of the pairs as keys. Its key order is the order in which endpoints are first seen. Each list is non-empty, keeps edge order and keeps duplicates, and equals the per-vertex description `Neighbours`. |
| Graphs.NeighbourCountSymmetric | main.py:22-25 | For `a != b`, `b` occurs in `a`'s neighbour list exactly as often as `a` occurs in `b`'s. |
| Graphs.BuildCountSymmetric | main.py:22-26 | The same equality of counts holds for the lists in the built dict. |
| Graphs.BuildSymmetric | main.py:22-26 | The built graph is undirected. Anything in a neighbour list is a key, and that key's list contains the list's owner. |
| Graphs.StepFirstSeen | main.py:23-25 | One pair appends, in order, those of its endpoints that were not yet keys. The key order stays the first-seen order of all endpoints read so far. |
| Ordering.SortByDegree | main.py:36-40 | The order is a permutation of the keys and is non-increasing in degree. It is also stable: the keys of each degree appear in key order. Distinct keys stay distinct. |
| Ordering.InsertClasses | main.py:36-40 | Inserting one key into a sorted order adds it after every key of its own degree. Other degree classes are unchanged. |
| Ordering.SortUnique | main.py:36-40 | Two orders that are both non-increasing in degree and have the same degree classes are equal. |
| Ordering.SortByDegreeCharacterized | main.py:36-40 | Any order of the keys that is non-increasing in degree and stable is exactly the processing order. |
| Coloring.MinFree | main.py:43-54 | It returns the least colour below `n` that is not in use. That colour is the least natural number not in use. It returns `None`, the case where `min` raises, exactly when every colour below `n` is in use. |
| Coloring.FreeColorExists | main.py:43-54 | While fewer than N vertices are coloured, `possible_colors - neighbor_colors` is non-empty, so `min` is defined. At most as many colours are in use as vertices have been coloured. |
| Coloring.EarlierIsUsed | main.py:46-50 | The colours gathered from coloured neighbours are the colours of the neighbours that come earlier in the order. |
| Coloring.ColorStep | main.py:45-54 | Colouring the next vertex with the least free colour extends the greedy rule by one vertex. The colours already seen by earlier vertices do not change. |
| Coloring.ColorInOrder | main.py:45-54 | Every vertex of the order is coloured exactly once, with a colour below `n`. Each colour is the least natural number not used by a neighbour coloured earlier. |
| Coloring.GreedyColoring | main.py:29-55 | The result's domain is the key set. Every colour is below the number of keys. The colouring follows the greedy rule along the stable degree order. On an undirected graph it is proper. |
| Coloring.GreedyIsProper | main.py:45-54 | On an undirected graph, a greedy colouring gives distinct adjacent vertices distinct colours. |
| Coloring.GreedyAgree | main.py:45-54 | Two greedy colourings along the same order agree on every prefix of the order. |
| Coloring.GreedyUnique | main.py:29-55 | For a fixed order, only one colouring of its vertices follows the greedy rule, so the result is deterministic. |
| Coloring.ColorEdges | main.py:64-65 | Colouring the graph built from an edge list colours every vertex of the edges. The colouring is proper and is the greedy colouring of that graph. |

## Left out

- Opening the file, `csv.reader` tokenising, skipping the header and `int` conversion (main.py:19-23) are I/O and parsing. The model takes an already-parsed `seq<(int, int)>`. For the same reason the parse error of a malformed row is not modelled.
- `main()` (main.py:58-69) is left out: the hard-coded path, the calls in sequence, and printing `max(colors.values()) + 1`. This is reporting. `max` of an empty colouring would raise there. Only the composition of lines 64-65 is modelled, as `ColorEdges`.
- Python's hashing and the cost of `set` and `dict` operations are not modelled. Sets and dicts are mathematical sets and maps. The graph's key order is carried explicitly as a sequence.
- Coloring.GreedyColoring: the proper-colouring promise excludes self-loops, and it is conditional on `Symmetric(g)`. An arbitrary dict passed to `greedy_coloring` can give an improper colouring.
- The key order of the returned colouring dict is not modelled. `main.py:54` inserts keys in processing order, but `Colors` is a plain map. Nothing in the program reads that order: `main()` only takes `max` of the values.
