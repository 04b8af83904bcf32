/** The abstract DAG state the proposals work on: a set of directed edges over the nodes
    0 .. n-1, its parent sets and in-degrees, and reachability (descendants) defined as
    the least set of nodes closed under following edges. */
module Graphs {

  type Node = nat

  /** (u, v) is the edge u -> v, the non-zero entry adj[u, v] of the adjacency matrix. */
  type Edge = (Node, Node)

  /** Every edge joins two of the nodes 0 .. n-1. */
  predicate InRange(n: nat, E: set<Edge>)
  {
    forall e | e in E :: e.0 < n && e.1 < n
  }

  /** The parents of v: the sources of the edges into v. */
  function Parents(E: set<Edge>, v: Node): (r: set<Node>)
    ensures forall u :: u in r <==> (u, v) in E
  {
    set e | e in E && e.1 == v :: e.0
  }

  function InDegree(E: set<Edge>, v: Node): nat
  {
    |Parents(E, v)|
  }

  /** Some node of 0 .. n-1 has more than fanIn parents. */
  predicate ExceedsFanIn(n: nat, E: set<Edge>, fanIn: int)
  {
    exists v :: 0 <= v < n && InDegree(E, v) > fanIn
  }

  /** The edges that remain once every edge into a node of S is removed. */
  function Orphaned(E: set<Edge>, S: set<Node>): (r: set<Edge>)
    ensures r <= E
    ensures forall e :: e in r <==> e in E && e.1 !in S
  {
    set e | e in E && e.1 !in S
  }

  /** The edges p -> t for every p of P, as `product(ps, [t])` lists them. */
  function Into(P: set<Node>, t: Node): (r: set<Edge>)
    ensures forall e :: e in r <==> e.0 in P && e.1 == t
  {
    set p | p in P :: (p, t)
  }

  // ---------------------------------------------------------------------------
  // Reachability

  /** The nodes one edge away from some node of S. */
  function Successors(E: set<Edge>, S: set<Node>): (r: set<Node>)
    ensures forall e | e in E && e.0 in S :: e.1 in r
    ensures forall x | x in r :: exists e :: e in E && e.0 in S && e.1 == x
  {
    set e | e in E && e.0 in S :: e.1
  }

  function Heads(E: set<Edge>): set<Node>
  {
    set e | e in E :: e.1
  }

  /** No edge leaves T. */
  ghost predicate Closed(E: set<Edge>, T: set<Node>)
  {
    forall e | e in E :: e.0 in T ==> e.1 in T
  }

  /** The least superset of S that no edge leaves (see ClosureLeast). */
  function Closure(E: set<Edge>, S: set<Node>): (r: set<Node>)
    ensures S <= r
    ensures Closed(E, r)
    decreases Heads(E) - S
  {
    var next := S + Successors(E, S);
    if next == S then S
    else
      assert Successors(E, S) <= Heads(E);
      assert Heads(E) - next < Heads(E) - S by {
        var x :| x in next && x !in S;
        assert x in Heads(E) - S;
      }
      Closure(E, next)
  }

  lemma {:induction false} ClosureLeast(E: set<Edge>, S: set<Node>, T: set<Node>)
    requires S <= T && Closed(E, T)
    ensures Closure(E, S) <= T
    decreases Heads(E) - S
  {
    var next := S + Successors(E, S);
    if next != S {
      assert Successors(E, S) <= Heads(E);
      assert Heads(E) - next < Heads(E) - S by {
        var x :| x in next && x !in S;
        assert x in Heads(E) - S;
      }
      ClosureLeast(E, next, T);
    }
  }

  /** The descendants of u: the nodes reached from u along one or more edges
      (`DAGState.descendants`). */
  function Descendants(E: set<Edge>, u: Node): (r: set<Node>)
    ensures forall e | e in E && e.0 == u :: e.1 in r
    ensures Closed(E, r)
  {
    Closure(E, Successors(E, {u}))
  }

  /** No node is its own descendant. */
  ghost predicate Acyclic(E: set<Edge>)
  {
    forall u :: u !in Descendants(E, u)
  }

  lemma EdgeReaches(E: set<Edge>, u: Node, v: Node)
    requires (u, v) in E
    ensures v in Descendants(E, u)
  {
    assert v in Successors(E, {u});
  }

  /** A set closed under the edges that holds every successor of u holds every descendant. */
  lemma DescendantsWithin(E: set<Edge>, u: Node, T: set<Node>)
    requires Closed(E, T) && Successors(E, {u}) <= T
    ensures Descendants(E, u) <= T
  {
    ClosureLeast(E, Successors(E, {u}), T);
  }

  lemma DescendantsTransitive(E: set<Edge>, x: Node, y: Node)
    requires x in Descendants(E, y)
    ensures Descendants(E, x) <= Descendants(E, y)
  {
    var D := Descendants(E, y);
    forall w | w in Successors(E, {x}) ensures w in D {
      var e :| e in E && e.0 in {x} && e.1 == w;
    }
    DescendantsWithin(E, x, D);
  }

  /** Fewer edges reach no more nodes. */
  lemma DescendantsMonotonic(E1: set<Edge>, E2: set<Edge>, u: Node)
    requires E1 <= E2
    ensures Descendants(E1, u) <= Descendants(E2, u)
  {
    var D := Descendants(E2, u);
    forall w | w in Successors(E1, {u}) ensures w in D {
      var e :| e in E1 && e.0 in {u} && e.1 == w;
    }
    DescendantsWithin(E1, u, D);
  }

  lemma SubgraphAcyclic(E1: set<Edge>, E2: set<Edge>)
    requires E1 <= E2 && Acyclic(E2)
    ensures Acyclic(E1)
  {
    forall u ensures u !in Descendants(E1, u) {
      DescendantsMonotonic(E1, E2, u);
    }
  }

  lemma AcyclicNoSelfLoop(E: set<Edge>, u: Node, v: Node)
    requires Acyclic(E) && (u, v) in E
    ensures u != v && u !in Descendants(E, v)
  {
    EdgeReaches(E, u, v);
    if u in Descendants(E, v) {
      DescendantsTransitive(E, u, v);
      assert false;
    }
  }

  /** Nothing reaches a node that has no parents. */
  lemma ParentlessUnreached(E: set<Edge>, t: Node, u: Node)
    requires Parents(E, t) == {}
    ensures t !in Descendants(E, u)
  {
    var T := Heads(E);
    forall e | e in E ensures e.1 in T { }
    assert (set e | e in E :: e.1) == T;
    forall w | w in Successors(E, {u}) ensures w in T {
      var e :| e in E && e.0 in {u} && e.1 == w;
    }
    DescendantsWithin(E, u, T);
    if t in T {
      assert false;
    }
  }

  /** Giving t new parents P keeps the graph acyclic when none of P is t or one of t's
      descendants: a new cycle would have to enter t through some p of P after leaving t. */
  lemma {:induction false} AddParentsAcyclic(E: set<Edge>, t: Node, P: set<Node>)
    requires Acyclic(E)
    requires t !in P && P !! Descendants(E, t)
    ensures Acyclic(E + Into(P, t))
  {
    var E' := E + Into(P, t);
    var Dt := Descendants(E, t);
    forall w ensures w !in Descendants(E', w) {
      var D := Descendants(E, w);
      var hit := exists p :: p in P && (p in D || p == w);
      var T := D + if hit then {t} + Dt else {};
      forall e | e in E' && e.0 in T ensures e.1 in T {
        if e in E {
          if e.0 in D {
          } else if e.0 == t {
            assert e.1 in Successors(E, {t});
          } else {
            assert e.0 in Dt;
          }
        } else {
          assert e.0 in P && e.1 == t;
          assert e.0 !in Dt && e.0 != t;
          assert e.0 in D;
        }
      }
      forall x | x in Successors(E', {w}) ensures x in T {
        var e :| e in E' && e.0 in {w} && e.1 == x;
        if e in E {
          assert x in Successors(E, {w});
        } else {
          assert e.0 in P && e.0 == w;
        }
      }
      DescendantsWithin(E', w, T);
      assert w !in D;
      if hit && w in {t} + Dt {
        var p :| p in P && (p in D || p == w);
        if w == t {
          assert false;
        } else {
          DescendantsTransitive(E, w, t);
          assert false;
        }
      }
    }
  }

  /** Orphaning t and u and then giving them the parents P and Q leaves each with exactly
      its new parents and every other node with its old ones. */
  lemma ReplaceParents(E: set<Edge>, t: Node, u: Node, P: set<Node>, Q: set<Node>)
    requires t != u
    ensures var E' := Orphaned(E, {t, u}) + Into(P, t) + Into(Q, u);
      && Parents(E', t) == P && Parents(E', u) == Q
      && forall w | w != t && w != u :: Parents(E', w) == Parents(E, w)
  {
    var E' := Orphaned(E, {t, u}) + Into(P, t) + Into(Q, u);
    assert Parents(E', t) == P;
    assert Parents(E', u) == Q;
  }

  /** Adding u -> v keeps the graph acyclic when there is no path from v back to u. */
  lemma AddEdgeAcyclic(E: set<Edge>, u: Node, v: Node)
    requires Acyclic(E) && u != v && u !in Descendants(E, v)
    ensures Acyclic(E + {(u, v)})
  {
    AddParentsAcyclic(E, v, {u});
    assert Into({u}, v) == {(u, v)};
  }

  // ---------------------------------------------------------------------------
  // Row-major enumeration of matrix positions: the order in which scipy's
  // `nonzero()` lists the non-zero entries of an n-by-n matrix.

  /** Positions (u, k), (u, k+1), ..., (u, n-1) of row u where P holds, left to right. */
  function RowWhere(n: nat, u: Node, k: nat, P: (Node, Node) -> bool): (r: seq<Edge>)
    decreases n - k
  {
    if k >= n then [] else (if P(u, k) then [(u, k)] else []) + RowWhere(n, u, k + 1, P)
  }

  /** Positions of rows u .. n-1 where P holds, row by row. */
  function GridWhere(n: nat, u: nat, P: (Node, Node) -> bool): (r: seq<Edge>)
    decreases n - u
  {
    if u >= n then [] else RowWhere(n, u, 0, P) + GridWhere(n, u + 1, P)
  }

  /** All positions of an n-by-n matrix where P holds, in row-major order. */
  function PositionsWhere(n: nat, P: (Node, Node) -> bool): (r: seq<Edge>)
  {
    GridWhere(n, 0, P)
  }

  /** The same positions as a set, as a count of non-zero entries sees them. */
  function PositionSet(n: nat, P: (Node, Node) -> bool): (r: set<Edge>)
  {
    set u: nat, v: nat | u < n && v < n && P(u, v) :: (u, v)
  }

  predicate Distinct<T(==)>(s: seq<T>)
  {
    forall a, b | 0 <= a < b < |s| :: s[a] != s[b]
  }

  lemma DistinctConcat<T>(s: seq<T>, t: seq<T>)
    requires Distinct(s) && Distinct(t)
    requires forall x | x in s :: x !in t
    ensures Distinct(s + t)
  {
    forall a, b | 0 <= a < b < |s + t| ensures (s + t)[a] != (s + t)[b] {
      if a < |s| && b >= |s| {
        assert (s + t)[a] in s && (s + t)[b] in t;
      }
    }
  }

  lemma {:induction false} DistinctCardinality<T>(s: seq<T>)
    requires Distinct(s)
    ensures |set x | x in s| == |s|
  {
    if s != [] {
      DistinctCardinality(s[1..]);
      assert (set x | x in s) == {s[0]} + (set x | x in s[1..]);
      assert s[0] !in (set x | x in s[1..]);
    }
  }

  lemma {:induction false} RowWhereFacts(n: nat, u: Node, k: nat, P: (Node, Node) -> bool)
    ensures Distinct(RowWhere(n, u, k, P))
    ensures forall e :: e in RowWhere(n, u, k, P) <==> e.0 == u && k <= e.1 < n && P(e.0, e.1)
    decreases n - k
  {
    if k < n {
      RowWhereFacts(n, u, k + 1, P);
      var head: seq<Edge> := if P(u, k) then [(u, k)] else [];
      DistinctConcat(head, RowWhere(n, u, k + 1, P));
      assert RowWhere(n, u, k, P) == head + RowWhere(n, u, k + 1, P);
    }
  }

  lemma {:induction false} GridWhereFacts(n: nat, u: nat, P: (Node, Node) -> bool)
    ensures Distinct(GridWhere(n, u, P))
    ensures forall e :: e in GridWhere(n, u, P) <==> u <= e.0 < n && e.1 < n && P(e.0, e.1)
    decreases n - u
  {
    if u < n {
      GridWhereFacts(n, u + 1, P);
      RowWhereFacts(n, u, 0, P);
      DistinctConcat(RowWhere(n, u, 0, P), GridWhere(n, u + 1, P));
    }
  }

  /** The enumeration lists every position where P holds exactly once, so its length is
      the number of such positions. */
  lemma PositionsWhereFacts(n: nat, P: (Node, Node) -> bool)
    ensures Distinct(PositionsWhere(n, P))
    ensures forall e :: e in PositionsWhere(n, P) <==> e.0 < n && e.1 < n && P(e.0, e.1)
    ensures (set e | e in PositionsWhere(n, P)) == PositionSet(n, P)
    ensures |PositionsWhere(n, P)| == |PositionSet(n, P)|
  {
    GridWhereFacts(n, 0, P);
    var s := PositionsWhere(n, P);
    assert (set e | e in s) == PositionSet(n, P) by {
      forall e | e in PositionSet(n, P) ensures e in s { }
    }
    DistinctCardinality(s);
  }
}
