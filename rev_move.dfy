/** `rev_move`: reverse one edge i -> j of the current DAG by resampling the parent sets
    of both endpoints. Both i and j lose their parents; i draws a new parent set that
    holds j and avoids i's descendants, then j draws one that avoids j's descendants in
    the graph that now has j -> i. The acceptance ratio is built from the four
    normalising constants of the conditioned tables and the numbers of edges before and
    after the move. */
module RevMove {
  import opened Outcomes
  import opened Graphs
  import opened DagStates
  import opened ParentSets
  import BasicMove

  // ---------------------------------------------------------------------------
  // The neighbourhood: `rev_move.moves`

  /** `rev_move.moves(state)`: every edge can be reversed, listed in the row-major order in
      which `adj.nonzero()` lists them; each edge appears exactly once. */
  function Moves(n: nat, E: set<Edge>): (r: seq<Edge>)
    ensures ArcsWithin(n, r)
    ensures InRange(n, E) ==> Distinct(r) && |r| == |E|
    ensures InRange(n, E) ==> forall e :: e in r <==> e in E
  {
    if InRange(n, E) then
      BasicMove.DeletablePositions(n, E);
      PositionsWhereFacts(n, (u: Node, v: Node) => (u, v) in E);
      BasicMove.DeletableEdges(n, E)
    else
      PositionsWhereFacts(n, (u: Node, v: Node) => (u, v) in E);
      BasicMove.DeletableEdges(n, E)
  }

  /** Every listed arc is an edge of the graph. */
  predicate ArcsOf(E: set<Edge>, arcs: seq<Edge>)
  {
    forall e | e in arcs :: e in E
  }

  /** Every listed arc joins two of the nodes 0 .. n-1. */
  predicate ArcsWithin(n: nat, arcs: seq<Edge>)
  {
    forall e | e in arcs :: e.0 < n && e.1 < n
  }

  // ---------------------------------------------------------------------------
  // The pieces of `rev_move.propose`

  /** `lambda ps: ps.isdisjoint(D)`. */
  function Avoiding(D: set<Node>): (c: Option<PSet -> bool>)
    ensures forall ps :: Holds(c, ps) <==> ps !! D
  {
    Some((ps: PSet) => ps !! D)
  }

  /** `lambda ps: x in ps and ps.isdisjoint(D)`. */
  function HoldingAvoiding(x: Node, D: set<Node>): (c: Option<PSet -> bool>)
    ensures forall ps :: Holds(c, ps) <==> x in ps && ps !! D
  {
    Some((ps: PSet) => x in ps && ps !! D)
  }

  /** `arcs[rng.choice(n)]` with the index draw pick; `rng.choice(0)` raises. */
  function DrawArc(arcs: seq<Edge>, pick: nat): (r: Result<Edge>)
    ensures r.Err? <==> arcs == []
    ensures r.Err? ==> r.error == EmptyChoice
    ensures r.Ok? ==> r.value in arcs
  {
    if arcs == [] then Err(EmptyChoice) else Ok(arcs[pick % |arcs|])
  }

  /** `scores[i][parents(i)] + scores[j][parents(j)]`, or the KeyError of the first parent
      set that is not a key. */
  function PairScore(scores: seq<ParentSetDistribution>, E: set<Edge>, i: Node, j: Node): (r: Result<real>)
    requires i < |scores| && j < |scores|
    ensures r.Ok? <==> Lookup(scores[i], Parents(E, i)).Ok? && Lookup(scores[j], Parents(E, j)).Ok?
    ensures r.Err? ==> r.error == UnknownParentSet
  {
    match Lookup(scores[i], Parents(E, i))
    case Err(e) => Err(e)
    case Ok(a) =>
      match Lookup(scores[j], Parents(E, j))
      case Err(e) => Err(e)
      case Ok(b) => Ok(a + b)
  }

  /** The outcome of the two draws: i's new parents with the normaliser z*_i of its
      slice, j's new parents with the normaliser z_j of its slice, and the new edges. */
  datatype Reattachment = Reattachment(psI: PSet, zStarI: LogZ, psJ: PSet, zJ: LogZ, edges: set<Edge>)

  /** The part of the move that works on the copy: `orphan([i, j])`, draw i's parents
      among the keys that hold j and avoid i's descendants, add them, draw j's parents
      among the keys that avoid j's new descendants, add them. Fails when a slice is empty.
      The two normalisers returned are the `log_z` of the slices drawn from. */
  function Reattach(E: set<Edge>, i: Node, j: Node, scores: seq<ParentSetDistribution>,
                    pickI: nat, pickJ: nat): (r: Result<Reattachment>)
    requires i < |scores| && j < |scores|
    ensures r.Err? ==> r.error == EmptyDistribution
    ensures r.Ok? ==>
      var E1 := Orphaned(E, {i, j}) + Into(r.value.psI, i);
      && r.value.edges == E1 + Into(r.value.psJ, j)
      && j in r.value.psI && r.value.psI !! Descendants(Orphaned(E, {i, j}), i)
      && r.value.psI in KeySet(scores[i].items)
      && r.value.psJ !! Descendants(E1, j)
      && r.value.psJ in KeySet(scores[j].items)
      && LogPartition(scores[i], HoldingAvoiding(j, Descendants(Orphaned(E, {i, j}), i))) == Ok(r.value.zStarI)
      && LogPartition(scores[j], Avoiding(Descendants(E1, j))) == Ok(r.value.zJ)
  {
    var E0 := Orphaned(E, {i, j});
    match Sample(scores[i], HoldingAvoiding(j, Descendants(E0, i)), pickI)
    case Err(e) => Err(e)
    case Ok(drawI) =>
      var E1 := E0 + Into(drawI.0, i);
      match Sample(scores[j], Avoiding(Descendants(E1, j)), pickJ)
      case Err(e) => Err(e)
      case Ok(drawJ) => Ok(Reattachment(drawI.0, drawI.1, drawJ.0, drawJ.1, E1 + Into(drawJ.0, j)))
  }

  /** The symbolic log acceptance ratio `z*_i + z_j - z*_j - z_i + log(qMove / qInv)`, with
      qMove the number of arcs before the move and qInv the number of edges after it. */
  datatype RevAcceptance = RevAcceptance(zStarI: LogZ, zJ: LogZ, zStarJ: LogZ, zI: LogZ, qMove: nat, qInv: nat)

  datatype RevProposal = RevProposal(arc: Edge, reattachment: Reattachment, acceptance: RevAcceptance,
                                     scoreDiff: real)

  /** The second half of the move, once the arc i -> j is drawn and the old graph is
      scored: reattach i and j, score their new parent sets, and count the new edges, by
      which qMove is divided. */
  function Finish(n: nat, E: set<Edge>, arc: Edge, qMove: nat, scores: seq<ParentSetDistribution>,
                  scoreOld: real, zI: LogZ, zStarJ: LogZ, pickI: nat, pickJ: nat): (r: Result<RevProposal>)
    requires |scores| == n && arc.0 < n && arc.1 < n
    ensures r.Err? ==> r.error in {UnknownParentSet, EmptyDistribution, ZeroDivision}
    ensures r == Err(ZeroDivision) ==>
      && Reattach(E, arc.0, arc.1, scores, pickI, pickJ).Ok?
      && BasicMove.NDeletes(n, Reattach(E, arc.0, arc.1, scores, pickI, pickJ).value.edges) == 0
    ensures r.Ok? ==>
      && r.value.arc == arc
      && Reattach(E, arc.0, arc.1, scores, pickI, pickJ) == Ok(r.value.reattachment)
      && r.value.acceptance == RevAcceptance(r.value.reattachment.zStarI, r.value.reattachment.zJ,
                                             zStarJ, zI, qMove, BasicMove.NDeletes(n, r.value.reattachment.edges))
      && r.value.acceptance.qInv > 0
      && PairScore(scores, r.value.reattachment.edges, arc.0, arc.1).Ok?
      && r.value.scoreDiff == PairScore(scores, r.value.reattachment.edges, arc.0, arc.1).value - scoreOld
  {
    match Reattach(E, arc.0, arc.1, scores, pickI, pickJ)
    case Err(e) => Err(e)
    case Ok(re) =>
      match PairScore(scores, re.edges, arc.0, arc.1)
      case Err(e) => Err(e)
      case Ok(scoreNew) =>
        var qInv := BasicMove.NDeletes(n, re.edges);
        if qInv == 0 then Err(ZeroDivision)
        else Ok(RevProposal(arc, re, RevAcceptance(re.zStarI, re.zJ, zStarJ, zI, qMove, qInv), scoreNew - scoreOld))
  }

  /** The old graph's side of the move i -> j: the score of the two old parent sets `score_old`, the
      normaliser z_i of i's keys that avoid i's descendants, and the normaliser z*_j of
      j's keys that hold i and avoid j's descendants. */
  datatype Survey = Survey(scoreOld: real, zI: LogZ, zStarJ: LogZ)

  function Inspect(E: set<Edge>, i: Node, j: Node, scores: seq<ParentSetDistribution>): (r: Result<Survey>)
    requires i < |scores| && j < |scores|
    ensures r.Err? ==> r.error in {UnknownParentSet, EmptyDistribution}
    ensures r.Ok? ==>
      && PairScore(scores, E, i, j) == Ok(r.value.scoreOld)
      && LogPartition(scores[i], Avoiding(Descendants(E, i))) == Ok(r.value.zI)
      && LogPartition(scores[j], HoldingAvoiding(i, Descendants(E, j))) == Ok(r.value.zStarJ)
  {
    match PairScore(scores, E, i, j)
    case Err(e) => Err(e)
    case Ok(scoreOld) =>
      match LogPartition(scores[i], Avoiding(Descendants(E, i)))
      case Err(e) => Err(e)
      case Ok(zI) =>
        match LogPartition(scores[j], HoldingAvoiding(i, Descendants(E, j)))
        case Err(e) => Err(e)
        case Ok(zStarJ) => Ok(Survey(scoreOld, zI, zStarJ))
  }

  /** `rev_move.propose(state, arcs, scores, rng)` with the draws pick (the arc), pickI and
      pickJ (the two parent sets): reverse the drawn arc i -> j, and score the move. The
      errors come in the order the source raises them. */
  function Plan(n: nat, E: set<Edge>, arcs: seq<Edge>, scores: seq<ParentSetDistribution>,
                pick: nat, pickI: nat, pickJ: nat): (r: Result<RevProposal>)
    requires |scores| == n && ArcsWithin(n, arcs)
    ensures r == Err(EmptyChoice) <==> arcs == []
    ensures r.Err? ==> r.error in {EmptyChoice, UnknownParentSet, EmptyDistribution, ZeroDivision}
    ensures r.Ok? ==>
      && r.value.arc in arcs
      && Inspect(E, r.value.arc.0, r.value.arc.1, scores).Ok?
      && var sv := Inspect(E, r.value.arc.0, r.value.arc.1, scores).value;
         r == Finish(n, E, r.value.arc, |arcs|, scores, sv.scoreOld, sv.zI, sv.zStarJ, pickI, pickJ)
  {
    match DrawArc(arcs, pick)
    case Err(e) => Err(e)
    case Ok(arc) =>
      match Inspect(E, arc.0, arc.1, scores)
      case Err(e) => Err(e)
      case Ok(sv) => Finish(n, E, arc, |arcs|, scores, sv.scoreOld, sv.zI, sv.zStarJ, pickI, pickJ)
  }

  // ---------------------------------------------------------------------------
  // What the reattachment does to the graph

  /** Reattaching i and j keeps a DAG acyclic: i's new parents avoid i's descendants once
      both nodes are orphaned, and j's avoid j's descendants once i is reattached. */
  lemma ReattachKeepsDag(n: nat, E: set<Edge>, i: Node, j: Node, scores: seq<ParentSetDistribution>,
                         pickI: nat, pickJ: nat)
    requires InRange(n, E) && Acyclic(E) && TablesFit(n, scores) && i < n && j < n
    requires Reattach(E, i, j, scores, pickI, pickJ).Ok?
    ensures var re := Reattach(E, i, j, scores, pickI, pickJ).value;
      InRange(n, re.edges) && Acyclic(re.edges)
  {
    var re := Reattach(E, i, j, scores, pickI, pickJ).value;
    var E0 := Orphaned(E, {i, j});
    var E1 := E0 + Into(re.psI, i);
    SubgraphAcyclic(E0, E);
    assert i !in re.psI && forall p | p in re.psI :: p < n;
    AddParentsAcyclic(E0, i, re.psI);
    assert j !in re.psJ && forall p | p in re.psJ :: p < n;
    AddParentsAcyclic(E1, j, re.psJ);
  }

  /** The reattached graph stays over the nodes 0 .. n-1 and holds the reversed edge j -> i. */
  lemma ReattachWithin(n: nat, E: set<Edge>, i: Node, j: Node, scores: seq<ParentSetDistribution>,
                       pickI: nat, pickJ: nat)
    requires InRange(n, E) && TablesFit(n, scores) && i < n && j < n
    requires Reattach(E, i, j, scores, pickI, pickJ).Ok?
    ensures var re := Reattach(E, i, j, scores, pickI, pickJ).value;
      InRange(n, re.edges) && (j, i) in re.edges
  {
    var re := Reattach(E, i, j, scores, pickI, pickJ).value;
    assert forall p | p in re.psI :: p < n;
    assert forall p | p in re.psJ :: p < n;
  }

  /** After the reattachment i has exactly its drawn parents, which hold j, and j has
      exactly its drawn parents, which do not hold i: the edge i -> j is now j -> i.
      Every other node keeps its parents. */
  lemma ReattachReverses(E: set<Edge>, i: Node, j: Node, scores: seq<ParentSetDistribution>,
                         pickI: nat, pickJ: nat)
    requires i < |scores| && j < |scores| && i != j
    requires Reattach(E, i, j, scores, pickI, pickJ).Ok?
    ensures var re := Reattach(E, i, j, scores, pickI, pickJ).value;
      && Parents(re.edges, i) == re.psI && Parents(re.edges, j) == re.psJ
      && (j, i) in re.edges && (i, j) !in re.edges
      && forall w | w != i && w != j :: Parents(re.edges, w) == Parents(E, w)
  {
    var re := Reattach(E, i, j, scores, pickI, pickJ).value;
    var E1 := Orphaned(E, {i, j}) + Into(re.psI, i);
    assert (j, i) in E1;
    EdgeReaches(E1, j, i);
    ReplaceParents(E, i, j, re.psI, re.psJ);
  }

  /** The reattachment cannot leave i's slice empty when {j} is a key of i's table, nor
      j's slice when the empty set is a key of j's table: once both are orphaned, j is no
      descendant of i, and the empty set avoids every set of descendants. */
  lemma ReattachSucceeds(E: set<Edge>, i: Node, j: Node, scores: seq<ParentSetDistribution>,
                         pickI: nat, pickJ: nat)
    requires i < |scores| && j < |scores|
    requires {j} in KeySet(scores[i].items) && {} in KeySet(scores[j].items)
    ensures Reattach(E, i, j, scores, pickI, pickJ).Ok?
  {
    var E0 := Orphaned(E, {i, j});
    ParentlessUnreached(E0, j, i);
    var x :| x in scores[i].items && x.0 == {j};
    assert Holds(HoldingAvoiding(j, Descendants(E0, i)), x.0);
    var drawI := Sample(scores[i], HoldingAvoiding(j, Descendants(E0, i)), pickI);
    assert drawI.Ok?;
    var E1 := E0 + Into(drawI.value.0, i);
    var y :| y in scores[j].items && y.0 == {};
    assert Holds(Avoiding(Descendants(E1, j)), y.0);
  }

  // ---------------------------------------------------------------------------
  // What a reversal proposal guarantees

  /** The proposed graph is a DAG over the same nodes. */
  lemma PlanKeepsDag(n: nat, E: set<Edge>, arcs: seq<Edge>, scores: seq<ParentSetDistribution>,
                     pick: nat, pickI: nat, pickJ: nat)
    requires InRange(n, E) && Acyclic(E) && TablesFit(n, scores) && ArcsWithin(n, arcs)
    requires Plan(n, E, arcs, scores, pick, pickI, pickJ).Ok?
    ensures var E' := Plan(n, E, arcs, scores, pick, pickI, pickJ).value.reattachment.edges;
      InRange(n, E') && Acyclic(E')
  {
    var p := Plan(n, E, arcs, scores, pick, pickI, pickJ).value;
    ReattachKeepsDag(n, E, p.arc.0, p.arc.1, scores, pickI, pickJ);
  }

  /** The proposal reverses one edge i -> j of the graph into j -> i: i gets exactly its
      drawn parent set, j gets exactly its drawn parent set, both are keys of their
      tables, and every other node keeps its parents. */
  lemma PlanReverses(n: nat, E: set<Edge>, arcs: seq<Edge>, scores: seq<ParentSetDistribution>,
                     pick: nat, pickI: nat, pickJ: nat)
    requires Acyclic(E) && |scores| == n && ArcsWithin(n, arcs) && ArcsOf(E, arcs)
    requires Plan(n, E, arcs, scores, pick, pickI, pickJ).Ok?
    ensures var p := Plan(n, E, arcs, scores, pick, pickI, pickJ).value;
      var (i, j) := p.arc;
      var E' := p.reattachment.edges;
      && (i, j) in E && (j, i) in E' && (i, j) !in E'
      && Parents(E', i) == p.reattachment.psI && p.reattachment.psI in KeySet(scores[i].items)
      && Parents(E', j) == p.reattachment.psJ && p.reattachment.psJ in KeySet(scores[j].items)
      && forall w | w != i && w != j :: Parents(E', w) == Parents(E, w)
  {
    var p := Plan(n, E, arcs, scores, pick, pickI, pickJ).value;
    AcyclicNoSelfLoop(E, p.arc.0, p.arc.1);
    ReattachReverses(E, p.arc.0, p.arc.1, scores, pickI, pickJ);
  }

  /** The score difference of a proposal is the change of the graph's decomposable score:
      only the terms of i and j change. */
  lemma PlanScoreDifference(n: nat, E: set<Edge>, arcs: seq<Edge>, scores: seq<ParentSetDistribution>,
                            pick: nat, pickI: nat, pickJ: nat)
    requires Acyclic(E) && |scores| == n && ArcsWithin(n, arcs) && ArcsOf(E, arcs)
    requires Plan(n, E, arcs, scores, pick, pickI, pickJ).Ok? && GraphScore(scores, E, n).Ok?
    ensures var p := Plan(n, E, arcs, scores, pick, pickI, pickJ).value;
      && GraphScore(scores, p.reattachment.edges, n).Ok?
      && p.scoreDiff == GraphScore(scores, p.reattachment.edges, n).value - GraphScore(scores, E, n).value
  {
    var p := Plan(n, E, arcs, scores, pick, pickI, pickJ).value;
    PlanReverses(n, E, arcs, scores, pick, pickI, pickJ);
    GraphScoreTwoChanges(scores, E, p.reattachment.edges, n, p.arc.0, p.arc.1);
  }

  /** Counting the new edges never gives zero: the new graph always holds the edge j -> i. */
  lemma FinishNeverDividesByZero(n: nat, E: set<Edge>, arc: Edge, qMove: nat, scores: seq<ParentSetDistribution>,
                                 scoreOld: real, zI: LogZ, zStarJ: LogZ, pickI: nat, pickJ: nat)
    requires InRange(n, E) && TablesFit(n, scores) && arc.0 < n && arc.1 < n
    ensures Finish(n, E, arc, qMove, scores, scoreOld, zI, zStarJ, pickI, pickJ) != Err(ZeroDivision)
  {
    var re := Reattach(E, arc.0, arc.1, scores, pickI, pickJ);
    if re.Ok? {
      ReattachWithin(n, E, arc.0, arc.1, scores, pickI, pickJ);
      assert BasicMove.NDeletes(n, re.value.edges) > 0 by {
        assert (arc.1, arc.0) in re.value.edges;
      }
    }
  }

  /** A proposal never divides by zero. */
  lemma PlanNeverDividesByZero(n: nat, E: set<Edge>, arcs: seq<Edge>, scores: seq<ParentSetDistribution>,
                               pick: nat, pickI: nat, pickJ: nat)
    requires InRange(n, E) && TablesFit(n, scores) && ArcsWithin(n, arcs)
    ensures Plan(n, E, arcs, scores, pick, pickI, pickJ) != Err(ZeroDivision)
  {
    var d := DrawArc(arcs, pick);
    if d.Ok? {
      var sv := Inspect(E, d.value.0, d.value.1, scores);
      if sv.Ok? {
        FinishNeverDividesByZero(n, E, d.value, |arcs|, scores, sv.value.scoreOld, sv.value.zI, sv.value.zStarJ,
                                 pickI, pickJ);
      }
    }
  }

  /** When the tables respect the fan-in, so does the proposed graph. */
  lemma PlanKeepsFanIn(n: nat, E: set<Edge>, arcs: seq<Edge>, scores: seq<ParentSetDistribution>,
                       fanIn: int, pick: nat, pickI: nat, pickJ: nat)
    requires Acyclic(E) && |scores| == n && ArcsWithin(n, arcs) && ArcsOf(E, arcs)
    requires KeysWithin(scores, fanIn) && !ExceedsFanIn(n, E, fanIn)
    requires Plan(n, E, arcs, scores, pick, pickI, pickJ).Ok?
    ensures !ExceedsFanIn(n, Plan(n, E, arcs, scores, pick, pickI, pickJ).value.reattachment.edges, fanIn)
  {
    var p := Plan(n, E, arcs, scores, pick, pickI, pickJ).value;
    PlanReverses(n, E, arcs, scores, pick, pickI, pickJ);
    forall w | 0 <= w < n ensures InDegree(p.reattachment.edges, w) <= fanIn {
      if w != p.arc.0 && w != p.arc.1 {
        assert InDegree(E, w) <= fanIn;
      }
    }
  }

  /** With complete tables and a fan-in of at least one, scoring the old graph cannot
      fail for an edge i -> j of a DAG within the fan-in: both parent sets are keys, the
      empty set qualifies for z_i and {i} for z*_j. */
  lemma InspectSucceeds(n: nat, E: set<Edge>, i: Node, j: Node, scores: seq<ParentSetDistribution>, fanIn: int)
    requires InRange(n, E) && Acyclic(E) && (i, j) in E
    requires Complete(n, scores, fanIn) && fanIn >= 1 && !ExceedsFanIn(n, E, fanIn)
    ensures Inspect(E, i, j, scores).Ok?
  {
    AcyclicNoSelfLoop(E, i, j);
    OwnParentSetKnown(n, E, i, scores, fanIn);
    OwnParentSetKnown(n, E, j, scores, fanIn);
    assert PairScore(scores, E, i, j).Ok?;
    CompleteHas(n, scores, fanIn, i, {});
    var x :| x in scores[i].items && x.0 == {};
    assert Holds(Avoiding(Descendants(E, i)), x.0);
    assert LogPartition(scores[i], Avoiding(Descendants(E, i))).Ok?;
    CompleteHas(n, scores, fanIn, j, {i});
    var y :| y in scores[j].items && y.0 == {i};
    assert Holds(HoldingAvoiding(i, Descendants(E, j)), y.0);
    assert LogPartition(scores[j], HoldingAvoiding(i, Descendants(E, j))).Ok?;
  }

  /** With complete tables and a fan-in of at least one, a reversal proposal on a DAG
      within the fan-in always succeeds once there is an edge to reverse. */
  lemma PlanSucceeds(n: nat, E: set<Edge>, arcs: seq<Edge>, scores: seq<ParentSetDistribution>,
                     fanIn: int, pick: nat, pickI: nat, pickJ: nat)
    requires InRange(n, E) && Acyclic(E) && ArcsWithin(n, arcs) && ArcsOf(E, arcs) && arcs != []
    requires TablesFit(n, scores) && Complete(n, scores, fanIn) && fanIn >= 1 && !ExceedsFanIn(n, E, fanIn)
    ensures Plan(n, E, arcs, scores, pick, pickI, pickJ).Ok?
  {
    var arc := DrawArc(arcs, pick).value;
    AcyclicNoSelfLoop(E, arc.0, arc.1);
    InspectSucceeds(n, E, arc.0, arc.1, scores, fanIn);
    CompleteHas(n, scores, fanIn, arc.0, {arc.1});
    CompleteHas(n, scores, fanIn, arc.1, {});
    var sv := Inspect(E, arc.0, arc.1, scores).value;
    FinishSucceeds(n, E, arc, |arcs|, scores, sv.scoreOld, sv.zI, sv.zStarJ, pickI, pickJ);
  }

  /** The second half of a reversal succeeds when {j} is a key of i's table and the empty
      set a key of j's: both draws find a key, the drawn sets are the new parent sets and
      keys, and the new graph has an edge. */
  lemma FinishSucceeds(n: nat, E: set<Edge>, arc: Edge, qMove: nat, scores: seq<ParentSetDistribution>,
                       scoreOld: real, zI: LogZ, zStarJ: LogZ, pickI: nat, pickJ: nat)
    requires InRange(n, E) && TablesFit(n, scores) && arc.0 < n && arc.1 < n && arc.0 != arc.1
    requires {arc.1} in KeySet(scores[arc.0].items) && {} in KeySet(scores[arc.1].items)
    ensures Finish(n, E, arc, qMove, scores, scoreOld, zI, zStarJ, pickI, pickJ).Ok?
  {
    ReattachSucceeds(E, arc.0, arc.1, scores, pickI, pickJ);
    ReattachReverses(E, arc.0, arc.1, scores, pickI, pickJ);
    FinishNeverDividesByZero(n, E, arc, qMove, scores, scoreOld, zI, zStarJ, pickI, pickJ);
  }

  // ---------------------------------------------------------------------------
  // The proposal on the state object

  /** `rev_move.propose`: draws the arc and the two parent sets and scores the move
      (Plan), then builds the new state as the source does: a copy of the state,
      `orphan([i, j])`, and `add_edges` of each drawn parent set. The input state is left
      as it was. */
  method Propose(state: DagState, arcs: seq<Edge>, scores: seq<ParentSetDistribution>,
                 pick: nat, pickI: nat, pickJ: nat)
    returns (r: Result<(DagState, RevAcceptance, real)>)
    requires state.Valid() && TablesFit(state.n, scores) && ArcsWithin(state.n, arcs)
    ensures var plan := Plan(state.n, state.edges, arcs, scores, pick, pickI, pickJ);
      && (r.Ok? <==> plan.Ok?)
      && (r.Err? ==> r.error == plan.error)
      && (r.Ok? ==> fresh(r.value.0) && r.value.0.Valid() && r.value.0.n == state.n
                    && r.value.0.edges == plan.value.reattachment.edges && r.value.0.fanIn == state.fanIn
                    && r.value.1 == plan.value.acceptance && r.value.2 == plan.value.scoreDiff)
  {
    var plan := Plan(state.n, state.edges, arcs, scores, pick, pickI, pickJ);
    if plan.Err? {
      return Err(plan.error);
    }
    var i, j := plan.value.arc.0, plan.value.arc.1;
    var re := plan.value.reattachment;
    ReattachWithin(state.n, state.edges, i, j, scores, pickI, pickJ);
    var next := Rebuild(state, i, j, re.psI, re.psJ);
    r := Ok((next, plan.value.acceptance, plan.value.scoreDiff));
  }

  /** `new_state = state.copy()`, `new_state.orphan([i, j])`, then `add_edges` of the new
      parents of i and of j. */
  method Rebuild(state: DagState, i: Node, j: Node, psI: PSet, psJ: PSet) returns (next: DagState)
    requires state.Valid() && i < state.n && j < state.n
    requires InRange(state.n, Orphaned(state.edges, {i, j}) + Into(psI, i) + Into(psJ, j))
    ensures fresh(next) && next.Valid() && next.n == state.n && next.fanIn == state.fanIn
    ensures next.edges == Orphaned(state.edges, {i, j}) + Into(psI, i) + Into(psJ, j)
  {
    next := state.Copy();
    next.Orphan({i, j});
    next.AddEdges(Into(psI, i));
    next.AddEdges(Into(psJ, j));
  }
}
