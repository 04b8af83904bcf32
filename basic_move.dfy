/** `basic_move`: propose a neighbour of the current DAG that has one edge more or one
    edge less. The neighbourhood is listed as two position lists of the adjacency
    matrix (addable and deletable edges), one of the two kinds is chosen in proportion
    to the sizes of the lists, one edge of that list is drawn, and the proposal returns
    the new graph, the symbolic acceptance ratio and the score difference. */
module BasicMove {
  import opened Outcomes
  import opened Graphs
  import opened Draws
  import opened DagStates
  import opened ParentSets

  // ---------------------------------------------------------------------------
  // The neighbourhood: `basic_move.moves`, `_n_adds`, `_n_deletes`

  /** Entry (u, v) of `1 - I - (adj + ancestor_matrix)` once the columns of the nodes
      whose in-degree has reached the fan-in are zeroed. The ancestor matrix marks
      (u, v) when v reaches u, so a non-zero entry is an edge whose addition closes no
      cycle. */
  function AddEntry(E: set<Edge>, fanIn: int, u: Node, v: Node): int
  {
    if InDegree(E, v) >= fanIn then 0
    else (if u == v then 0 else 1) - (if (u, v) in E then 1 else 0) - (if u in Descendants(E, v) then 1 else 0)
  }

  /** u -> v may be added: no self-loop, not an edge yet, no path from v back to u, and v
      is below the fan-in. */
  predicate Addable(E: set<Edge>, fanIn: int, u: Node, v: Node)
  {
    u != v && (u, v) !in E && u !in Descendants(E, v) && InDegree(E, v) < fanIn
  }

  /** In a DAG the matrix entry is non-zero exactly at the addable edges: an edge u -> v
      and a path from v to u cannot both be there, so the entry is never -1. */
  lemma AddEntryAddable(E: set<Edge>, fanIn: int, u: Node, v: Node)
    requires Acyclic(E)
    ensures AddEntry(E, fanIn, u, v) != 0 <==> Addable(E, fanIn, u, v)
  {
    if (u, v) in E {
      AcyclicNoSelfLoop(E, u, v);
    }
    if u == v {
      assert u !in Descendants(E, u);
    }
  }

  /** The addable edges, as a set. */
  function AddableSet(n: nat, E: set<Edge>, fanIn: int): set<Edge>
  {
    set u: nat, v: nat | u < n && v < n && Addable(E, fanIn, u, v) :: (u, v)
  }

  /** `list(zip(*add.nonzero()))`: the non-zero entries, in row-major order. */
  function AddableEdges(n: nat, E: set<Edge>, fanIn: int): seq<Edge>
  {
    PositionsWhere(n, (u: Node, v: Node) => AddEntry(E, fanIn, u, v) != 0)
  }

  /** `list(zip(*state.adj.nonzero()))`: the current edges, in row-major order. */
  function DeletableEdges(n: nat, E: set<Edge>): seq<Edge>
  {
    PositionsWhere(n, (u: Node, v: Node) => (u, v) in E)
  }

  /** `basic_move.moves(state)`: the addable and the deletable edges, for the fan-in
      stamped on the state. */
  function Moves(n: nat, E: set<Edge>, fanIn: int): (r: (seq<Edge>, seq<Edge>))
    ensures ArcsWithin(n, r)
  {
    PositionsWhereFacts(n, (u: Node, v: Node) => AddEntry(E, fanIn, u, v) != 0);
    PositionsWhereFacts(n, (u: Node, v: Node) => (u, v) in E);
    (AddableEdges(n, E, fanIn), DeletableEdges(n, E))
  }

  lemma AddablePositions(n: nat, E: set<Edge>, fanIn: int)
    requires Acyclic(E)
    ensures PositionSet(n, (u: Node, v: Node) => AddEntry(E, fanIn, u, v) != 0) == AddableSet(n, E, fanIn)
  {
    forall u: nat, v: nat | u < n && v < n {
      AddEntryAddable(E, fanIn, u, v);
    }
  }

  lemma DeletablePositions(n: nat, E: set<Edge>)
    requires InRange(n, E)
    ensures PositionSet(n, (u: Node, v: Node) => (u, v) in E) == E
  {
    forall e | e in E ensures e in PositionSet(n, (u: Node, v: Node) => (u, v) in E) {
      assert e.0 < n && e.1 < n;
    }
  }

  /** Both lists hold each of their edges once: the addable list exactly the addable
      edges, the deletable list exactly the current edges. */
  lemma MovesCharacterised(n: nat, E: set<Edge>, fanIn: int)
    requires InRange(n, E) && Acyclic(E)
    ensures Distinct(Moves(n, E, fanIn).0) && Distinct(Moves(n, E, fanIn).1)
    ensures forall e :: e in Moves(n, E, fanIn).0 <==> e.0 < n && e.1 < n && Addable(E, fanIn, e.0, e.1)
    ensures forall e :: e in Moves(n, E, fanIn).1 <==> e in E
    ensures |Moves(n, E, fanIn).0| == |AddableSet(n, E, fanIn)| && |Moves(n, E, fanIn).1| == |E|
  {
    var P := (u: Node, v: Node) => AddEntry(E, fanIn, u, v) != 0;
    PositionsWhereFacts(n, P);
    AddablePositions(n, E, fanIn);
    forall e: Edge | e.0 < n && e.1 < n ensures P(e.0, e.1) <==> Addable(E, fanIn, e.0, e.1) {
      AddEntryAddable(E, fanIn, e.0, e.1);
    }
    PositionsWhereFacts(n, (u: Node, v: Node) => (u, v) in E);
    DeletablePositions(n, E);
  }

  /** `_n_adds(state, fan_in)`: the number of non-zero entries of the masked matrix,
      which in a DAG is the number of addable edges. */
  function NAdds(n: nat, E: set<Edge>, fanIn: int): (r: nat)
    ensures r == |PositionSet(n, (u: Node, v: Node) => AddEntry(E, fanIn, u, v) != 0)|
  {
    var P := (u: Node, v: Node) => AddEntry(E, fanIn, u, v) != 0;
    PositionsWhereFacts(n, P);
    |PositionsWhere(n, P)|
  }

  /** In a DAG `_n_adds` counts the addable edges, so `_n_adds(state, state.fan_in_)` is
      the length of the addable list of `moves`. */
  lemma NAddsCountsAddable(n: nat, E: set<Edge>, fanIn: int)
    requires Acyclic(E)
    ensures NAdds(n, E, fanIn) == |AddableSet(n, E, fanIn)|
  {
    AddablePositions(n, E, fanIn);
  }

  /** `_n_deletes(state)`: the number of edges. */
  function NDeletes(n: nat, E: set<Edge>): (r: nat)
    ensures InRange(n, E) ==> r == |E|
  {
    var P := (u: Node, v: Node) => (u, v) in E;
    PositionsWhereFacts(n, P);
    if InRange(n, E) then DeletablePositions(n, E); |PositionsWhere(n, P)| else |PositionsWhere(n, P)|
  }

  // ---------------------------------------------------------------------------
  // The proposal: `basic_move.propose`

  datatype MoveKind = Add | Delete

  /** The acceptance ratio `scoreDiff + log(qMove / qInv)`, kept symbolic. */
  datatype BasicAcceptance = BasicAcceptance(scoreDiff: real, qMove: nat, qInv: nat)

  /** What one proposal does: the kind of move, the edge it adds or deletes, the new
      edge set and the acceptance ratio. */
  datatype BasicProposal = BasicProposal(kind: MoveKind, edge: Edge, edges: set<Edge>, acceptance: BasicAcceptance)

  /** `rng.choice([0, 1], p=[a, d] / (a + d))` driven by the uniform number u: a kind
      whose list is empty is never chosen. With both lists empty the shares are NaN and
      numpy refuses them. */
  function ChooseMove(a: nat, d: nat, u: real): (r: Result<MoveKind>)
    requires 0.0 <= u < 1.0
    ensures r.Err? <==> a + d == 0
    ensures r.Err? ==> r.error == InvalidProbabilities
    ensures r == Ok(Add) ==> a > 0
    ensures r == Ok(Delete) ==> d > 0
  {
    if a + d == 0 then Err(InvalidProbabilities)
    else
      var t := (a + d) as real;
      var p := [a as real / t, d as real / t];
      assert a as real / t + d as real / t == t / t == 1.0;
      assert Sum(p[1..]) == p[1] by {
        assert p[1..][1..] == [];
      }
      var m := Categorical(p, u).value;
      if m == 0 then Ok(Add) else Ok(Delete)
  }

  /** Every edge of both lists joins two of the nodes 0 .. n-1. */
  predicate ArcsWithin(n: nat, arcs: (seq<Edge>, seq<Edge>))
  {
    (forall e | e in arcs.0 :: e.0 < n && e.1 < n) && (forall e | e in arcs.1 :: e.0 < n && e.1 < n)
  }

  /** `arcs[move]`: the list of the chosen kind. */
  function MoveList(arcs: (seq<Edge>, seq<Edge>), kind: MoveKind): seq<Edge>
  {
    if kind == Add then arcs.0 else arcs.1
  }

  /** The edge the proposal applies: entry `pick % len` of the chosen list. */
  function ChosenEdge(arcs: (seq<Edge>, seq<Edge>), kind: MoveKind, pick: nat): (e: Edge)
    requires |MoveList(arcs, kind)| > 0
    ensures e in MoveList(arcs, kind)
  {
    var list := MoveList(arcs, kind);
    list[pick % |list|]
  }

  /** The edges after `add_edge` or `remove_edge` of e. */
  function Applied(E: set<Edge>, kind: MoveKind, e: Edge): set<Edge>
  {
    if kind == Add then E + {e} else E - {e}
  }

  /** The ratio of a move that changes v's parents from E to E': the score difference
      `scores[v][parents'(v)] - scores[v][parents(v)]`, the forward count qMove, and the
      reverse count `_n_adds(new_state, fan_in) + _n_deletes(new_state)`, by which qMove
      is divided. */
  function Assess(n: nat, E: set<Edge>, E': set<Edge>, fanIn: int, scores: seq<ParentSetDistribution>,
                  v: Node, qMove: nat): (r: Result<BasicAcceptance>)
    requires v < |scores|
    ensures r.Err? ==> r.error in {UnknownParentSet, ZeroDivision}
    ensures r == Err(ZeroDivision) ==> NAdds(n, E', fanIn) + NDeletes(n, E') == 0
    ensures r.Ok? ==>
      && Lookup(scores[v], Parents(E, v)).Ok? && Lookup(scores[v], Parents(E', v)).Ok?
      && r.value.scoreDiff == Lookup(scores[v], Parents(E', v)).value - Lookup(scores[v], Parents(E, v)).value
      && r.value.qMove == qMove
      && r.value.qInv == NAdds(n, E', fanIn) + NDeletes(n, E') && r.value.qInv > 0
    ensures (Lookup(scores[v], Parents(E, v)).Ok? && Lookup(scores[v], Parents(E', v)).Ok?
             && NAdds(n, E', fanIn) + NDeletes(n, E') > 0) ==> r.Ok?
  {
    match Lookup(scores[v], Parents(E, v))
    case Err(e) => Err(e)
    case Ok(zOld) =>
      match Lookup(scores[v], Parents(E', v))
      case Err(e) => Err(e)
      case Ok(zNew) =>
        var qInv := NAdds(n, E', fanIn) + NDeletes(n, E');
        if qInv == 0 then Err(ZeroDivision) else Ok(BasicAcceptance(zNew - zOld, qMove, qInv))
  }

  /** `basic_move.propose(state, arcs, scores, rng)` with the uniform number u of the
      kind draw and the index draw pick: add or delete one listed edge, score v's old and
      new parent sets, and count the neighbourhoods. Fails when both lists are empty, when
      a parent set is not a key of v's table, or when the new graph has no neighbours. */
  function Plan(n: nat, E: set<Edge>, fanIn: int, arcs: (seq<Edge>, seq<Edge>),
                scores: seq<ParentSetDistribution>, u: real, pick: nat): (r: Result<BasicProposal>)
    requires 0.0 <= u < 1.0
    requires ArcsWithin(n, arcs) && |scores| == n
    ensures r == Err(InvalidProbabilities) <==> |arcs.0| + |arcs.1| == 0
    ensures r.Err? ==> r.error in {InvalidProbabilities, UnknownParentSet, ZeroDivision}
    ensures r == Err(ZeroDivision) ==>
      exists kind, e | e in MoveList(arcs, kind) ::
        NAdds(n, Applied(E, kind, e), fanIn) + NDeletes(n, Applied(E, kind, e)) == 0
    ensures r.Ok? ==> r.value.edge in MoveList(arcs, r.value.kind)
                      && r.value.edge.1 < n
                      && r.value.edges == Applied(E, r.value.kind, r.value.edge)
    ensures r.Ok? ==>
      var v := r.value.edge.1;
      && Lookup(scores[v], Parents(E, v)).Ok?
      && Lookup(scores[v], Parents(r.value.edges, v)).Ok?
      && r.value.acceptance.scoreDiff
         == Lookup(scores[v], Parents(r.value.edges, v)).value - Lookup(scores[v], Parents(E, v)).value
    ensures r.Ok? ==>
      && r.value.acceptance.qMove == |arcs.0| + |arcs.1|
      && r.value.acceptance.qInv == NAdds(n, r.value.edges, fanIn) + NDeletes(n, r.value.edges)
      && r.value.acceptance.qInv > 0
  {
    match ChooseMove(|arcs.0|, |arcs.1|, u)
    case Err(e) => Err(e)
    case Ok(kind) =>
      var edge := ChosenEdge(arcs, kind, pick);
      var edges := Applied(E, kind, edge);
      match Assess(n, E, edges, fanIn, scores, edge.1, |arcs.0| + |arcs.1|)
      case Err(e) => Err(e)
      case Ok(acceptance) => Ok(BasicProposal(kind, edge, edges, acceptance))
  }

  // ---------------------------------------------------------------------------
  // What a move does to the graph

  /** Only the target v of the move changes parents, gaining or losing the source u. */
  lemma AppliedChangesOneParentSet(E: set<Edge>, kind: MoveKind, e: Edge)
    ensures forall w | w != e.1 :: Parents(Applied(E, kind, e), w) == Parents(E, w)
    ensures kind == Add ==> Parents(Applied(E, kind, e), e.1) == Parents(E, e.1) + {e.0}
    ensures kind == Delete ==> Parents(Applied(E, kind, e), e.1) == Parents(E, e.1) - {e.0}
  {
  }

  /** The score difference of a proposal is the change of the graph's decomposable score:
      only v's term of the sum changes. */
  lemma PlanScoreDifference(n: nat, E: set<Edge>, fanIn: int, arcs: (seq<Edge>, seq<Edge>),
                            scores: seq<ParentSetDistribution>, u: real, pick: nat)
    requires 0.0 <= u < 1.0 && ArcsWithin(n, arcs) && |scores| == n
    requires Plan(n, E, fanIn, arcs, scores, u, pick).Ok? && GraphScore(scores, E, n).Ok?
    ensures var p := Plan(n, E, fanIn, arcs, scores, u, pick).value;
      && GraphScore(scores, p.edges, n).Ok?
      && p.acceptance.scoreDiff == GraphScore(scores, p.edges, n).value - GraphScore(scores, E, n).value
  {
    var p := Plan(n, E, fanIn, arcs, scores, u, pick).value;
    AppliedChangesOneParentSet(E, p.kind, p.edge);
    GraphScoreOneChange(scores, E, p.edges, n, p.edge.1);
  }

  /** Adding an addable edge to a DAG within the fan-in gives a DAG within the fan-in. */
  lemma AddKeepsDag(n: nat, E: set<Edge>, fanIn: int, e: Edge)
    requires InRange(n, E) && Acyclic(E) && !ExceedsFanIn(n, E, fanIn)
    requires e.0 < n && e.1 < n && Addable(E, fanIn, e.0, e.1)
    ensures InRange(n, E + {e}) && Acyclic(E + {e}) && !ExceedsFanIn(n, E + {e}, fanIn)
  {
    AddEdgeAcyclic(E, e.0, e.1);
    forall w | 0 <= w < n ensures InDegree(E + {e}, w) <= fanIn {
      AddedInDegree(E, fanIn, e, w);
    }
  }

  lemma AddedInDegree(E: set<Edge>, fanIn: int, e: Edge, w: Node)
    requires InDegree(E, w) <= fanIn && InDegree(E, e.1) < fanIn
    ensures InDegree(E + {e}, w) <= fanIn
  {
    if w == e.1 {
      assert Parents(E + {e}, w) == Parents(E, w) + {e.0};
    } else {
      assert Parents(E + {e}, w) == Parents(E, w);
    }
  }

  /** Deleting an edge of a DAG within the fan-in gives a DAG within the fan-in. */
  lemma DeleteKeepsDag(n: nat, E: set<Edge>, fanIn: int, e: Edge)
    requires InRange(n, E) && Acyclic(E) && !ExceedsFanIn(n, E, fanIn)
    ensures InRange(n, E - {e}) && Acyclic(E - {e}) && !ExceedsFanIn(n, E - {e}, fanIn)
  {
    SubgraphAcyclic(E - {e}, E);
    forall w | 0 <= w < n ensures InDegree(E - {e}, w) <= fanIn {
      assert InDegree(E, w) <= fanIn;
      if w == e.1 {
        assert Parents(E - {e}, w) == Parents(E, w) - {e.0};
      } else {
        assert Parents(E - {e}, w) == Parents(E, w);
      }
    }
  }

  /** e is a move of the given kind from E: an addable edge, or an edge of E. */
  predicate InNeighbourhood(n: nat, E: set<Edge>, fanIn: int, kind: MoveKind, e: Edge)
  {
    if kind == Add then e.0 < n && e.1 < n && Addable(E, fanIn, e.0, e.1) else e in E
  }

  /** The list `moves` gives for a kind holds exactly that kind's moves. */
  lemma MoveListNeighbourhood(n: nat, E: set<Edge>, fanIn: int, kind: MoveKind, e: Edge)
    requires InRange(n, E) && Acyclic(E)
    ensures e in MoveList(Moves(n, E, fanIn), kind) <==> InNeighbourhood(n, E, fanIn, kind, e)
  {
    MovesCharacterised(n, E, fanIn);
  }

  /** A move from the neighbourhood of a DAG within the fan-in changes exactly one edge
      and gives again a DAG within the fan-in. */
  lemma NeighbourKeepsDag(n: nat, E: set<Edge>, fanIn: int, kind: MoveKind, e: Edge)
    requires InRange(n, E) && Acyclic(E) && !ExceedsFanIn(n, E, fanIn)
    requires InNeighbourhood(n, E, fanIn, kind, e)
    ensures (Applied(E, kind, e) - E) + (E - Applied(E, kind, e)) == {e}
    ensures InRange(n, Applied(E, kind, e)) && Acyclic(Applied(E, kind, e))
    ensures !ExceedsFanIn(n, Applied(E, kind, e), fanIn)
  {
    if kind == Add {
      AddKeepsDag(n, E, fanIn, e);
    } else {
      DeleteKeepsDag(n, E, fanIn, e);
    }
  }

  function Reverse(kind: MoveKind): MoveKind
  {
    if kind == Add then Delete else Add
  }

  /** The reverse of a move from the neighbourhood of a DAG within the fan-in is in the
      neighbourhood of the new graph under the old fan-in, and undoes it: a deleted edge
      can be added back, an added edge deleted. */
  lemma NeighbourReversible(n: nat, E: set<Edge>, fanIn: int, kind: MoveKind, e: Edge)
    requires InRange(n, E) && Acyclic(E) && !ExceedsFanIn(n, E, fanIn)
    requires InNeighbourhood(n, E, fanIn, kind, e)
    ensures InNeighbourhood(n, Applied(E, kind, e), fanIn, Reverse(kind), e)
    ensures Applied(Applied(E, kind, e), Reverse(kind), e) == E
  {
    var E' := Applied(E, kind, e);
    if kind == Delete {
      AcyclicNoSelfLoop(E, e.0, e.1);
      DescendantsMonotonic(E', E, e.1);
      AppliedChangesOneParentSet(E, kind, e);
      assert InDegree(E, e.1) <= fanIn;
      assert e.0 < n && e.1 < n;
    }
  }

  /** The reverse count of a move from the neighbourhood of a DAG within the fan-in is
      the number of addable edges plus the number of edges of the new graph, under the
      old fan-in, and it is never 0. */
  lemma NeighbourCounts(n: nat, E: set<Edge>, fanIn: int, kind: MoveKind, e: Edge)
    requires InRange(n, E) && Acyclic(E) && !ExceedsFanIn(n, E, fanIn)
    requires InNeighbourhood(n, E, fanIn, kind, e)
    ensures NAdds(n, Applied(E, kind, e), fanIn) + NDeletes(n, Applied(E, kind, e))
      == |AddableSet(n, Applied(E, kind, e), fanIn)| + |Applied(E, kind, e)|
    ensures NAdds(n, Applied(E, kind, e), fanIn) + NDeletes(n, Applied(E, kind, e)) > 0
  {
    NeighbourKeepsDag(n, E, fanIn, kind, e);
    NeighbourReversible(n, E, fanIn, kind, e);
    var E' := Applied(E, kind, e);
    NAddsCountsAddable(n, E', fanIn);
    if kind == Delete {
      assert e in AddableSet(n, E', fanIn);
    }
  }

  /** On the neighbourhood of a DAG within the fan-in the proposal never divides by
      zero: it fails only for want of any move, or on a parent set missing from a table. */
  lemma PlanNeverDividesByZero(n: nat, E: set<Edge>, fanIn: int, scores: seq<ParentSetDistribution>, u: real, pick: nat)
    requires 0.0 <= u < 1.0 && |scores| == n
    requires InRange(n, E) && Acyclic(E) && !ExceedsFanIn(n, E, fanIn)
    ensures Plan(n, E, fanIn, Moves(n, E, fanIn), scores, u, pick) != Err(ZeroDivision)
  {
    var arcs := Moves(n, E, fanIn);
    if Plan(n, E, fanIn, arcs, scores, u, pick) == Err(ZeroDivision) {
      var kind, e :| e in MoveList(arcs, kind) &&
        NAdds(n, Applied(E, kind, e), fanIn) + NDeletes(n, Applied(E, kind, e)) == 0;
      MoveListNeighbourhood(n, E, fanIn, kind, e);
      NeighbourCounts(n, E, fanIn, kind, e);
      assert false;
    }
  }

  /** A proposal from the listed neighbourhood of a DAG within the fan-in gives again a
      DAG within the fan-in, differing from the old graph in the drawn edge alone. */
  lemma PlanKeepsDag(n: nat, E: set<Edge>, fanIn: int, scores: seq<ParentSetDistribution>, u: real, pick: nat)
    requires 0.0 <= u < 1.0 && |scores| == n
    requires InRange(n, E) && Acyclic(E) && !ExceedsFanIn(n, E, fanIn)
    requires Plan(n, E, fanIn, Moves(n, E, fanIn), scores, u, pick).Ok?
    ensures var p := Plan(n, E, fanIn, Moves(n, E, fanIn), scores, u, pick).value;
      && InRange(n, p.edges) && Acyclic(p.edges) && !ExceedsFanIn(n, p.edges, fanIn)
      && (p.edges - E) + (E - p.edges) == {p.edge}
  {
    var p := Plan(n, E, fanIn, Moves(n, E, fanIn), scores, u, pick).value;
    MoveListNeighbourhood(n, E, fanIn, p.kind, p.edge);
    NeighbourKeepsDag(n, E, fanIn, p.kind, p.edge);
  }

  /** With complete tables, a proposal from the listed neighbourhood of a DAG within the
      fan-in always succeeds once there is a move to make: both lists cannot be empty,
      the old and the new parent set of the target are keys of its table, and the new
      graph has a neighbour. */
  lemma PlanSucceeds(n: nat, E: set<Edge>, fanIn: int, scores: seq<ParentSetDistribution>, u: real, pick: nat)
    requires 0.0 <= u < 1.0
    requires InRange(n, E) && Acyclic(E) && !ExceedsFanIn(n, E, fanIn) && Complete(n, scores, fanIn)
    requires |Moves(n, E, fanIn).0| + |Moves(n, E, fanIn).1| > 0
    ensures Plan(n, E, fanIn, Moves(n, E, fanIn), scores, u, pick).Ok?
  {
    var arcs := Moves(n, E, fanIn);
    var kind := ChooseMove(|arcs.0|, |arcs.1|, u).value;
    var e := ChosenEdge(arcs, kind, pick);
    var E' := Applied(E, kind, e);
    MoveListNeighbourhood(n, E, fanIn, kind, e);
    NeighbourKeepsDag(n, E, fanIn, kind, e);
    NeighbourCounts(n, E, fanIn, kind, e);
    OwnParentSetKnown(n, E, e.1, scores, fanIn);
    OwnParentSetKnown(n, E', e.1, scores, fanIn);
    assert Assess(n, E, E', fanIn, scores, e.1, |arcs.0| + |arcs.1|).Ok?;
  }

  /** `new_state = state.copy()` followed by `add_edge` or `remove_edge` of e. */
  method ApplyToCopy(state: DagState, kind: MoveKind, e: Edge) returns (next: DagState)
    requires state.Valid() && e.0 < state.n && e.1 < state.n
    ensures fresh(next) && next.Valid() && next.n == state.n && next.fanIn == state.fanIn
    ensures next.edges == Applied(state.edges, kind, e)
  {
    next := state.Copy();
    if kind == Delete {
      next.RemoveEdge(e.0, e.1);
    } else {
      next.AddEdge(e.0, e.1);
    }
  }

  /** `basic_move.propose`: draws the kind and the edge and scores the move (Plan), applies
      the move to a copy of the state, which it returns, and leaves the input state as it
      was. */
  method Propose(state: DagState, arcs: (seq<Edge>, seq<Edge>), scores: seq<ParentSetDistribution>,
                 u: real, pick: nat)
    returns (r: Result<(DagState, BasicAcceptance, real)>)
    requires state.Valid() && ArcsWithin(state.n, arcs) && |scores| == state.n
    requires 0.0 <= u < 1.0
    ensures var plan := Plan(state.n, state.edges, state.fanIn, arcs, scores, u, pick);
      && (r.Ok? <==> plan.Ok?)
      && (r.Err? ==> r.error == plan.error)
      && (r.Ok? ==> fresh(r.value.0) && r.value.0.Valid() && r.value.0.n == state.n
                    && r.value.0.edges == plan.value.edges && r.value.0.fanIn == state.fanIn
                    && r.value.1 == plan.value.acceptance && r.value.2 == plan.value.acceptance.scoreDiff)
  {
    var plan := Plan(state.n, state.edges, state.fanIn, arcs, scores, u, pick);
    if plan.Err? {
      return Err(plan.error);
    }
    var next := ApplyToCopy(state, plan.value.kind, plan.value.edge);
    r := Ok((next, plan.value.acceptance, plan.value.acceptance.scoreDiff));
  }
}
