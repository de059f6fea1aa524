/** The processing order of `greedy_coloring` (main.py): the graph's keys
    sorted by neighbour-list length, largest first. Python's `sorted` with
    `reverse=True` is stable, so keys of equal length keep their key order.
    The sort is modelled as an insertion sort that places each key after
    every key already placed whose list is at least as long. */
module Ordering {
  import opened Graphs

  /** `len(graph[v])`; duplicates and self-loops count. */
  function Degree(g: Graph, v: int): nat {
    |Adj(g, v)|
  }

  predicate SortedByDegree(g: Graph, s: seq<int>) {
    forall i, j :: 0 <= i < j < |s| ==> Degree(g, s[i]) >= Degree(g, s[j])
  }

  /** The elements of `s` whose degree is `d`, in the order they occur in `s`. */
  function DegreeClass(g: Graph, s: seq<int>, d: nat): seq<int> {
    if |s| == 0 then []
    else (if Degree(g, s[0]) == d then [s[0]] else []) + DegreeClass(g, s[1..], d)
  }

  /** Stability: every degree class keeps its relative order. */
  ghost predicate SameClasses(g: Graph, s: seq<int>, t: seq<int>) {
    forall d: nat :: DegreeClass(g, s, d) == DegreeClass(g, t, d)
  }

  lemma {:induction false} DegreeClassAppend(g: Graph, s: seq<int>, x: int, d: nat)
    ensures DegreeClass(g, s + [x], d) == DegreeClass(g, s, d) + (if Degree(g, x) == d then [x] else [])
  {
    if |s| > 0 {
      assert (s + [x])[1..] == s[1..] + [x];
      DegreeClassAppend(g, s[1..], x, d);
    }
  }

  lemma {:induction false} DegreeClassEmpty(g: Graph, s: seq<int>, d: nat)
    requires forall i :: 0 <= i < |s| ==> Degree(g, s[i]) != d
    ensures DegreeClass(g, s, d) == []
  {
    if |s| > 0 {
      DegreeClassEmpty(g, s[1..], d);
    }
  }

  /** Places `x` after the leading run of elements of degree at least its own. */
  function Insert(g: Graph, x: int, s: seq<int>): seq<int> {
    if |s| == 0 then [x]
    else if Degree(g, s[0]) >= Degree(g, x) then [s[0]] + Insert(g, x, s[1..])
    else [x] + s
  }

  /** Insertion adds `x` and loses nothing. */
  lemma {:induction false} InsertPermutes(g: Graph, x: int, s: seq<int>)
    ensures multiset(Insert(g, x, s)) == multiset(s) + multiset{x}
  {
    if |s| > 0 && Degree(g, s[0]) >= Degree(g, x) {
      InsertPermutes(g, x, s[1..]);
      assert s == [s[0]] + s[1..];
    }
  }

  lemma InsertMembers(g: Graph, x: int, s: seq<int>)
    ensures forall y :: y in Insert(g, x, s) <==> y == x || y in s
  {
    InsertPermutes(g, x, s);
    forall y ensures y in Insert(g, x, s) <==> y == x || y in s {
      assert y in Insert(g, x, s) <==> y in multiset(Insert(g, x, s));
    }
  }

  lemma {:induction false} InsertSorted(g: Graph, x: int, s: seq<int>)
    requires SortedByDegree(g, s)
    ensures SortedByDegree(g, Insert(g, x, s))
  {
    if |s| > 0 && Degree(g, s[0]) >= Degree(g, x) {
      var t := Insert(g, x, s[1..]);
      InsertSorted(g, x, s[1..]);
      InsertMembers(g, x, s[1..]);
      var r := [s[0]] + t;
      forall i, j | 0 <= i < j < |r| ensures Degree(g, r[i]) >= Degree(g, r[j]) {
        if i == 0 {
          assert r[j] in t;
        } else {
          assert r[i] == t[i - 1] && r[j] == t[j - 1];
        }
      }
    }
  }

  lemma {:induction false} InsertClasses(g: Graph, x: int, s: seq<int>, d: nat)
    requires SortedByDegree(g, s)
    ensures DegreeClass(g, Insert(g, x, s), d) == DegreeClass(g, s, d) + (if Degree(g, x) == d then [x] else [])
  {
    var tail := if Degree(g, x) == d then [x] else [];
    if |s| > 0 {
      var head := if Degree(g, s[0]) == d then [s[0]] else [];
      assert DegreeClass(g, s, d) == head + DegreeClass(g, s[1..], d);
      if Degree(g, s[0]) >= Degree(g, x) {
        var t := Insert(g, x, s[1..]);
        assert ([s[0]] + t)[1..] == t;
        InsertClasses(g, x, s[1..], d);
      } else {
        assert ([x] + s)[1..] == s;
        assert DegreeClass(g, [x] + s, d) == tail + DegreeClass(g, s, d);
        if Degree(g, x) == d {
          assert forall i :: 0 <= i < |s| ==> Degree(g, s[i]) <= Degree(g, s[0]);
          DegreeClassEmpty(g, s, d);
        }
      }
    }
  }

  lemma {:induction false} InsertDistinct(g: Graph, x: int, s: seq<int>)
    requires Distinct(s) && x !in s
    ensures Distinct(Insert(g, x, s))
  {
    if |s| > 0 && Degree(g, s[0]) >= Degree(g, x) {
      var t := Insert(g, x, s[1..]);
      InsertDistinct(g, x, s[1..]);
      InsertMembers(g, x, s[1..]);
      var r := [s[0]] + t;
      forall i, j | 0 <= i < j < |r| ensures r[i] != r[j] {
        if i == 0 {
          assert r[j] in t;
          assert s[0] !in s[1..];
        } else {
          assert r[i] == t[i - 1] && r[j] == t[j - 1];
        }
      }
    }
  }

  /** `sorted(graph, key=lambda v: len(graph[v]), reverse=True)`: a
      permutation of `keys`, non-increasing in degree, stable. */
  function SortByDegree(g: Graph, keys: seq<int>): (r: seq<int>)
    ensures multiset(r) == multiset(keys)
    ensures SortedByDegree(g, r)
    ensures SameClasses(g, r, keys)
    ensures Distinct(keys) ==> Distinct(r)
  {
    if |keys| == 0 then []
    else
      var p, x := keys[..|keys| - 1], keys[|keys| - 1];
      var t := SortByDegree(g, p);
      SortStep(g, keys, t);
      Insert(g, x, t)
  }

  lemma SortStep(g: Graph, keys: seq<int>, t: seq<int>)
    requires |keys| > 0
    requires multiset(t) == multiset(keys[..|keys| - 1])
    requires SortedByDegree(g, t)
    requires SameClasses(g, t, keys[..|keys| - 1])
    requires Distinct(keys[..|keys| - 1]) ==> Distinct(t)
    ensures multiset(Insert(g, keys[|keys| - 1], t)) == multiset(keys)
    ensures SortedByDegree(g, Insert(g, keys[|keys| - 1], t))
    ensures SameClasses(g, Insert(g, keys[|keys| - 1], t), keys)
    ensures Distinct(keys) ==> Distinct(Insert(g, keys[|keys| - 1], t))
  {
    var p, x := keys[..|keys| - 1], keys[|keys| - 1];
    assert keys == p + [x];
    InsertPermutes(g, x, t);
    InsertSorted(g, x, t);
    forall d: nat ensures DegreeClass(g, Insert(g, x, t), d) == DegreeClass(g, keys, d) {
      InsertClasses(g, x, t, d);
      DegreeClassAppend(g, p, x, d);
    }
    if Distinct(keys) {
      assert x !in p;
      assert x !in multiset(t);
      InsertDistinct(g, x, t);
    }
  }

  // ----- The order is pinned down by its specification -----

  lemma {:induction false} DegreeClassMembers(g: Graph, s: seq<int>, d: nat)
    ensures forall y :: y in DegreeClass(g, s, d) ==> y in s && Degree(g, y) == d
  {
    if |s| > 0 {
      DegreeClassMembers(g, s[1..], d);
    }
  }

  /** If `s` has a first element, the stable sorted `t` with the same
      classes has one too, of at least the same degree. */
  lemma HeadDegree(g: Graph, s: seq<int>, t: seq<int>)
    requires SortedByDegree(g, t)
    requires SameClasses(g, s, t)
    requires |s| > 0
    ensures |t| > 0 && Degree(g, t[0]) >= Degree(g, s[0])
  {
    var d := Degree(g, s[0]);
    assert DegreeClass(g, s, d) == [s[0]] + DegreeClass(g, s[1..], d);
    DegreeClassMembers(g, t, d);
    var y := DegreeClass(g, t, d)[0];
    assert y in DegreeClass(g, t, d);
    var k :| 0 <= k < |t| && t[k] == y;
    assert k == 0 || Degree(g, t[0]) >= Degree(g, t[k]);
  }

  /** Two sequences, both non-increasing in degree and with the same degree
      classes, are equal: sortedness and stability determine the order. */
  lemma {:induction false} SortUnique(g: Graph, s: seq<int>, t: seq<int>)
    requires SortedByDegree(g, s) && SortedByDegree(g, t)
    requires SameClasses(g, s, t)
    ensures s == t
    decreases |s|
  {
    if |s| == 0 {
      if |t| > 0 {
        HeadDegree(g, t, s);
        assert false;
      }
    } else {
      HeadDegree(g, s, t);
      HeadDegree(g, t, s);
      var D := Degree(g, s[0]);
      var cs, ct := DegreeClass(g, s, D), DegreeClass(g, t, D);
      assert cs == [s[0]] + DegreeClass(g, s[1..], D);
      assert ct == [t[0]] + DegreeClass(g, t[1..], D);
      assert cs == ct;
      assert cs[0] == s[0] && ct[0] == t[0];
      forall d: nat ensures DegreeClass(g, s[1..], d) == DegreeClass(g, t[1..], d) {
        if d == D {
          assert cs[1..] == DegreeClass(g, s[1..], D);
          assert ct[1..] == DegreeClass(g, t[1..], D);
        } else {
          assert DegreeClass(g, s, d) == DegreeClass(g, s[1..], d);
          assert DegreeClass(g, t, d) == DegreeClass(g, t[1..], d);
        }
      }
      assert SortedByDegree(g, s[1..]) && SortedByDegree(g, t[1..]);
      SortUnique(g, s[1..], t[1..]);
      assert s == [s[0]] + s[1..] && t == [t[0]] + t[1..];
    }
  }

  /** The processing order is the only order of the keys that is
      non-increasing in degree and keeps each degree class in key order. */
  lemma SortByDegreeCharacterized(g: Graph, keys: seq<int>, order: seq<int>)
    requires SortedByDegree(g, order)
    requires SameClasses(g, order, keys)
    ensures order == SortByDegree(g, keys)
  {
    SortUnique(g, order, SortByDegree(g, keys));
  }
}
