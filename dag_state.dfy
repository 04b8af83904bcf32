/** The DAG state the proposals consume: an object holding the current edges of the graph
    and the fan-in bound stamped on it (`fan_in_`), with the mutators the moves call. The
    state's own internals (a sparse adjacency matrix and a cached ancestor matrix) are
    replaced by the edge set; descendants come from Graphs. */
module DagStates {
  import opened Graphs

  class DagState {
    /** The number of nodes, `state.shape[0]`. */
    const n: nat
    var edges: set<Edge>
    /** The fan-in bound stamped on the state (`fan_in_`). */
    var fanIn: int

    ghost predicate Valid()
      reads this
    {
      InRange(n, edges)
    }

    constructor (n: nat, edges: set<Edge>, fanIn: int)
      requires InRange(n, edges)
      ensures Valid()
      ensures this.n == n && this.edges == edges && this.fanIn == fanIn
    {
      this.n := n;
      this.edges := edges;
      this.fanIn := fanIn;
    }

    /** `state.copy()`: an independent state with the same graph and stamp. */
    method Copy() returns (c: DagState)
      requires Valid()
      ensures fresh(c) && c.Valid()
      ensures c.n == n && c.edges == edges && c.fanIn == fanIn
    {
      c := new DagState(n, edges, fanIn);
    }

    /** `add_edge(u, v)`. */
    method AddEdge(u: Node, v: Node)
      requires Valid() && u < n && v < n
      modifies this
      ensures Valid()
      ensures edges == old(edges) + {(u, v)} && fanIn == old(fanIn)
    {
      edges := edges + {(u, v)};
    }

    /** `remove_edge(u, v)`. */
    method RemoveEdge(u: Node, v: Node)
      requires Valid()
      modifies this
      ensures Valid()
      ensures edges == old(edges) - {(u, v)} && fanIn == old(fanIn)
    {
      edges := edges - {(u, v)};
    }

    /** `orphan(nodes)`: remove every edge into a node of `nodes`. */
    method Orphan(nodes: set<Node>)
      requires Valid()
      modifies this
      ensures Valid()
      ensures edges == Orphaned(old(edges), nodes) && fanIn == old(fanIn)
    {
      edges := Orphaned(edges, nodes);
    }

    /** `add_edges(es)`. */
    method AddEdges(es: set<Edge>)
      requires Valid() && InRange(n, es)
      modifies this
      ensures Valid()
      ensures edges == old(edges) + es && fanIn == old(fanIn)
    {
      edges := edges + es;
    }
  }
}
