/** `DAGProposal.sample`: the proposal distribution over DAGs. It checks the fan-in of
    the current graph, stamps the fan-in on the state, lists the moves of every
    configured graph move, masks the probabilities of the moves that have nothing to
    offer, draws one move and lets it propose a neighbour. */
module DagProposals {
  import opened Outcomes
  import opened Graphs
  import opened Draws
  import opened DagStates
  import opened ParentSets
  import BasicMove
  import RevMove

  /** The graph moves a proposal can be configured with. */
  datatype Move = Basic | Reversal

  /** A configured and initialised `DAGProposal`: its moves with their probabilities
      (`move_prob`), the fan-in bound and the parent set tables (`ps_scores_`). */
  datatype Proposer = Proposer(moves: seq<Move>, moveProb: seq<real>, fanIn: int,
                               scores: seq<ParentSetDistribution>)

  /** The random numbers one proposal consumes: uMove for the choice of the move, uKind
      for basic_move's choice between adding and deleting, pick for the drawn edge, and
      pickI and pickJ for the two parent sets rev_move draws. */
  datatype Randomness = Randomness(uMove: real, uKind: real, pick: nat, pickI: nat, pickJ: nat)

  predicate ValidRandomness(d: Randomness)
  {
    0.0 <= d.uMove < 1.0 && 0.0 <= d.uKind < 1.0
  }

  /** What `m.moves(state)` returns: basic_move's pair of lists, or rev_move's list. */
  datatype MoveArcs = BasicArcs(lists: (seq<Edge>, seq<Edge>)) | RevArcs(arcs: seq<Edge>)

  /** The symbolic acceptance ratio of the move that was made. */
  datatype Acceptance = BasicRatio(basic: BasicMove.BasicAcceptance) | RevRatio(rev: RevMove.RevAcceptance)

  /** `m.moves(state)` for the fan-in stamped on the state. */
  function ArcsFor(m: Move, n: nat, E: set<Edge>, fanIn: int): (r: MoveArcs)
    ensures ArcsFit(n, r)
  {
    match m
    case Basic => BasicArcs(BasicMove.Moves(n, E, fanIn))
    case Reversal => RevArcs(RevMove.Moves(n, E))
  }

  predicate ArcsFit(n: nat, a: MoveArcs)
  {
    match a
    case BasicArcs(lists) => BasicMove.ArcsWithin(n, lists)
    case RevArcs(arcs) => RevMove.ArcsWithin(n, arcs)
  }

  /** `bool(len(moves))`. basic_move returns a pair of lists, whose length is always 2,
      so a basic move counts as offered even when both lists are empty. */
  predicate Offered(a: MoveArcs)
  {
    match a
    case BasicArcs(_) => true
    case RevArcs(arcs) => |arcs| > 0
  }

  /** The moves of every configured graph move, in order. */
  function AllArcs(moves: seq<Move>, n: nat, E: set<Edge>, fanIn: int): (r: seq<MoveArcs>)
    ensures |r| == |moves|
    ensures forall k | 0 <= k < |r| :: r[k] == ArcsFor(moves[k], n, E, fanIn)
  {
    seq(|moves|, k requires 0 <= k < |moves| => ArcsFor(moves[k], n, E, fanIn))
  }

  /** `has_move`: which of the listed moves have something to offer. */
  function HasMove(arcs: seq<MoveArcs>): (r: seq<bool>)
    ensures |r| == |arcs|
    ensures forall k | 0 <= k < |r| :: r[k] == Offered(arcs[k])
  {
    seq(|arcs|, k requires 0 <= k < |arcs| => Offered(arcs[k]))
  }

  /** `move_prob * has_move`: the probability of every move with nothing to offer drops to 0. */
  function Masked(moveProb: seq<real>, hasMove: seq<bool>): (r: seq<real>)
    requires |moveProb| == |hasMove|
    ensures |r| == |moveProb|
    ensures forall k | 0 <= k < |r| :: r[k] == if hasMove[k] then moveProb[k] else 0.0
  {
    seq(|moveProb|, k requires 0 <= k < |moveProb| => if hasMove[k] then moveProb[k] else 0.0)
  }

  /** `move_prob /= move_prob.sum()` and `rng.choice(len(moves), p=move_prob)`. A zero total
      makes every probability NaN and a negative weight a negative probability, which the
      draw refuses; otherwise the drawn move has positive probability. */
  function ChooseIndex(w: seq<real>, u: real): (r: Result<nat>)
    requires 0.0 <= u < 1.0
    ensures r.Ok? <==> Sum(w) != 0.0 && forall k | 0 <= k < |w| :: w[k] / Sum(w) >= 0.0
    ensures r.Err? ==> r.error == InvalidProbabilities
    ensures r.Ok? ==> r.value < |w| && w[r.value] / Sum(w) > 0.0
  {
    var t := Sum(w);
    if t == 0.0 then Err(InvalidProbabilities)
    else
      var q := Normalise(w, t);
      SumNormalise(w, t);
      assert Sum(q) == 1.0 by {
        assert t / t == 1.0;
      }
      assert NonNegative(q) <==> forall k | 0 <= k < |w| :: w[k] / t >= 0.0 by {
        assert forall k | 0 <= k < |w| :: q[k] == w[k] / t;
      }
      Categorical(q, u)
  }

  /** The outcome of a proposal: the index of the move made, the proposed graph, the
      acceptance ratio and the score difference. */
  datatype Outcome = Outcome(move: nat, edges: set<Edge>, acceptance: Acceptance, scoreDiff: real)

  /** `self.moves[m].propose(state, move_arcs[m], self.ps_scores_, self.rng)` for the
      listed moves a of move m. */
  function Apply(p: Proposer, n: nat, E: set<Edge>, m: nat, a: MoveArcs, d: Randomness): (r: Result<Outcome>)
    requires |p.scores| == n && ArcsFit(n, a) && ValidRandomness(d)
    ensures r.Err? ==> r.error in {InvalidProbabilities, UnknownParentSet, ZeroDivision, EmptyChoice,
                                   EmptyDistribution}
    ensures r.Ok? ==> r.value.move == m
  {
    match a
    case BasicArcs(lists) =>
      (match BasicMove.Plan(n, E, p.fanIn, lists, p.scores, d.uKind, d.pick)
       case Err(e) => Err(e)
       case Ok(bp) => Ok(Outcome(m, bp.edges, BasicRatio(bp.acceptance), bp.acceptance.scoreDiff)))
    case RevArcs(arcs) =>
      (match RevMove.Plan(n, E, arcs, p.scores, d.pick, d.pickI, d.pickJ)
       case Err(e) => Err(e)
       case Ok(rp) => Ok(Outcome(m, rp.reattachment.edges, RevRatio(rp.acceptance), rp.scoreDiff)))
  }

  /** `DAGProposal.sample(state)` on the graph E over n nodes: refuse a graph beyond the
      fan-in, list the moves, mask the probabilities, draw a move and apply it. */
  function SampleOutcome(p: Proposer, n: nat, E: set<Edge>, d: Randomness): (r: Result<Outcome>)
    requires |p.moves| == |p.moveProb| && |p.scores| == n && ValidRandomness(d)
    ensures r == Err(FanInViolation) <==> ExceedsFanIn(n, E, p.fanIn)
    ensures r.Ok? ==> r.value.move < |p.moves|
  {
    if ExceedsFanIn(n, E, p.fanIn) then Err(FanInViolation)
    else
      var arcs := AllArcs(p.moves, n, E, p.fanIn);
      match ChooseIndex(Masked(p.moveProb, HasMove(arcs)), d.uMove)
      case Err(e) => Err(e)
      case Ok(m) => Apply(p, n, E, m, arcs[m], d)
  }

  /** The weights the move is drawn with on the graph E. A basic move keeps its probability
      even when it has nothing to offer; a reversal loses it exactly when there is no edge. */
  function Weights(p: Proposer, n: nat, E: set<Edge>): (w: seq<real>)
    requires |p.moves| == |p.moveProb|
    ensures |w| == |p.moves|
    ensures forall k | 0 <= k < |w| && p.moves[k] == Basic :: w[k] == p.moveProb[k]
    ensures InRange(n, E) ==>
      forall k | 0 <= k < |w| && p.moves[k] == Reversal :: w[k] == if E == {} then 0.0 else p.moveProb[k]
  {
    Masked(p.moveProb, HasMove(AllArcs(p.moves, n, E, p.fanIn)))
  }

  // ---------------------------------------------------------------------------
  // What a proposal guarantees

  /** The move made was offered and had positive probability (its masked weight divided
      by the total weight). */
  lemma SampleChoosesOfferedMove(p: Proposer, n: nat, E: set<Edge>, d: Randomness)
    requires |p.moves| == |p.moveProb| && |p.scores| == n && ValidRandomness(d)
    requires SampleOutcome(p, n, E, d).Ok?
    ensures var m := SampleOutcome(p, n, E, d).value.move;
      var w := Weights(p, n, E);
      && m < |p.moves| && Offered(ArcsFor(p.moves[m], n, E, p.fanIn))
      && w[m] == p.moveProb[m] && w[m] / Sum(w) > 0.0
  {
    var arcs := AllArcs(p.moves, n, E, p.fanIn);
    var w := Weights(p, n, E);
    var c := ChooseIndex(w, d.uMove);
    assert c.Ok?;
    assert SampleOutcome(p, n, E, d) == Apply(p, n, E, c.value, arcs[c.value], d);
  }

  /** A proposal from a DAG within the fan-in, with tables that fit the graph and respect
      the fan-in, is again a DAG within the fan-in. */
  lemma SampleKeepsDag(p: Proposer, n: nat, E: set<Edge>, d: Randomness)
    requires |p.moves| == |p.moveProb| && ValidRandomness(d)
    requires InRange(n, E) && Acyclic(E) && TablesFit(n, p.scores) && KeysWithin(p.scores, p.fanIn)
    requires SampleOutcome(p, n, E, d).Ok?
    ensures var E' := SampleOutcome(p, n, E, d).value.edges;
      InRange(n, E') && Acyclic(E') && !ExceedsFanIn(n, E', p.fanIn)
  {
    var arcs := AllArcs(p.moves, n, E, p.fanIn);
    var c := ChooseIndex(Masked(p.moveProb, HasMove(arcs)), d.uMove);
    assert c.Ok?;
    var m := c.value;
    assert SampleOutcome(p, n, E, d) == Apply(p, n, E, m, arcs[m], d);
    match p.moves[m]
    case Basic =>
      BasicMove.PlanKeepsDag(n, E, p.fanIn, p.scores, d.uKind, d.pick);
    case Reversal =>
      var rs := RevMove.Moves(n, E);
      RevMove.PlanKeepsDag(n, E, rs, p.scores, d.pick, d.pickI, d.pickJ);
      RevMove.PlanKeepsFanIn(n, E, rs, p.scores, p.fanIn, d.pick, d.pickI, d.pickJ);
  }

  /** On a DAG within the fan-in whose tables fit the graph, no move divides by zero. */
  lemma SampleNeverDividesByZero(p: Proposer, n: nat, E: set<Edge>, d: Randomness)
    requires |p.moves| == |p.moveProb| && ValidRandomness(d)
    requires InRange(n, E) && Acyclic(E) && TablesFit(n, p.scores)
    ensures SampleOutcome(p, n, E, d) != Err(ZeroDivision)
  {
    if !ExceedsFanIn(n, E, p.fanIn) {
      var arcs := AllArcs(p.moves, n, E, p.fanIn);
      var c := ChooseIndex(Masked(p.moveProb, HasMove(arcs)), d.uMove);
      if c.Ok? {
        assert SampleOutcome(p, n, E, d) == Apply(p, n, E, c.value, arcs[c.value], d);
        match p.moves[c.value]
        case Basic =>
          BasicMove.PlanNeverDividesByZero(n, E, p.fanIn, p.scores, d.uKind, d.pick);
        case Reversal =>
          RevMove.PlanNeverDividesByZero(n, E, RevMove.Moves(n, E), p.scores, d.pick, d.pickI, d.pickJ);
      }
    }
  }

  /** Past the fan-in check, `sample` is the chosen move's proposal on that move's listed
      arcs. */
  lemma SampleApplies(p: Proposer, n: nat, E: set<Edge>, d: Randomness, m: nat)
    requires |p.moves| == |p.moveProb| && |p.scores| == n && ValidRandomness(d)
    requires !ExceedsFanIn(n, E, p.fanIn) && ChooseIndex(Weights(p, n, E), d.uMove) == Ok(m)
    ensures m < |p.moves|
    ensures SampleOutcome(p, n, E, d) == Apply(p, n, E, m, ArcsFor(p.moves[m], n, E, p.fanIn), d)
  {
  }

  /** A graph with a neighbour has room for a parent: an addable edge's target is below
      the fan-in, and an edge's target has a parent and is within it. */
  lemma NeighbourNeedsFanIn(n: nat, E: set<Edge>, fanIn: int)
    requires InRange(n, E) && Acyclic(E) && !ExceedsFanIn(n, E, fanIn)
    requires |BasicMove.Moves(n, E, fanIn).0| + |BasicMove.Moves(n, E, fanIn).1| > 0
    ensures fanIn >= 1
  {
    var arcs := BasicMove.Moves(n, E, fanIn);
    BasicMove.MovesCharacterised(n, E, fanIn);
    if |arcs.0| > 0 {
      assert arcs.0[0] in arcs.0;
    } else {
      var e := arcs.1[0];
      assert e in arcs.1 && e in E;
      assert {e.0} <= Parents(E, e.1);
      assert InDegree(E, e.1) <= fanIn;
    }
  }

  /** With complete tables, `sample` on a DAG within the fan-in that has a neighbour
      succeeds whenever the move draw does: a basic move then has an edge to add or
      delete, and a reversal, being offered, has an arc to reverse. */
  lemma SampleSucceeds(p: Proposer, n: nat, E: set<Edge>, d: Randomness)
    requires |p.moves| == |p.moveProb| && ValidRandomness(d)
    requires InRange(n, E) && Acyclic(E) && !ExceedsFanIn(n, E, p.fanIn)
    requires TablesFit(n, p.scores) && Complete(n, p.scores, p.fanIn)
    requires |BasicMove.Moves(n, E, p.fanIn).0| + |BasicMove.Moves(n, E, p.fanIn).1| > 0
    requires ChooseIndex(Weights(p, n, E), d.uMove).Ok?
    ensures SampleOutcome(p, n, E, d).Ok?
  {
    var m := ChooseIndex(Weights(p, n, E), d.uMove).value;
    SampleApplies(p, n, E, d, m);
    match p.moves[m]
    case Basic =>
      BasicMove.PlanSucceeds(n, E, p.fanIn, p.scores, d.uKind, d.pick);
    case Reversal =>
      var rs := RevMove.Moves(n, E);
      var w := Weights(p, n, E);
      assert w[m] != 0.0;
      assert HasMove(AllArcs(p.moves, n, E, p.fanIn))[m];
      assert rs != [];
      NeighbourNeedsFanIn(n, E, p.fanIn);
      RevMove.PlanSucceeds(n, E, rs, p.scores, p.fanIn, d.pick, d.pickI, d.pickJ);
  }

  /** When the graph has no neighbour at all (no addable and no deletable edge) every
      proposal fails with the draw's ValueError: the reversal move is masked, having no
      arc, and the basic move, offered although both its lists are empty, cannot choose
      between adding and deleting. */
  lemma SampleFailsWithoutNeighbours(p: Proposer, n: nat, E: set<Edge>, d: Randomness)
    requires |p.moves| == |p.moveProb| && |p.scores| == n && ValidRandomness(d)
    requires !ExceedsFanIn(n, E, p.fanIn) && BasicMove.Moves(n, E, p.fanIn) == ([], [])
    ensures SampleOutcome(p, n, E, d) == Err(InvalidProbabilities)
  {
    var arcs := AllArcs(p.moves, n, E, p.fanIn);
    var w := Masked(p.moveProb, HasMove(arcs));
    var c := ChooseIndex(w, d.uMove);
    assert RevMove.Moves(n, E) == [];
    if c.Ok? {
      var m := c.value;
      assert HasMove(arcs)[m];
      assert arcs[m] == BasicArcs(([], []));
      assert SampleOutcome(p, n, E, d) == Apply(p, n, E, m, BasicArcs(([], [])), d);
    }
  }

  /** A single node has no neighbour, whatever the fan-in. */
  lemma SingleNodeHasNoNeighbours(fanIn: int)
    ensures BasicMove.Moves(1, {}, fanIn) == ([], [])
  {
    assert BasicMove.AddEntry({}, fanIn, 0, 0) == 0;
    assert RowWhere(1, 0, 1, (u: Node, v: Node) => BasicMove.AddEntry({}, fanIn, u, v) != 0) == [];
    assert GridWhere(1, 1, (u: Node, v: Node) => BasicMove.AddEntry({}, fanIn, u, v) != 0) == [];
  }

  /** So a proposal on a single node fails, whatever moves are configured. */
  lemma SingleNodeProposalFails(p: Proposer, d: Randomness)
    requires |p.moves| == |p.moveProb| && |p.scores| == 1 && ValidRandomness(d) && p.fanIn >= 0
    ensures SampleOutcome(p, 1, {}, d) == Err(InvalidProbabilities)
  {
    SingleNodeHasNoNeighbours(p.fanIn);
    assert InDegree({}, 0) == 0;
    SampleFailsWithoutNeighbours(p, 1, {}, d);
  }

  // ---------------------------------------------------------------------------
  // The proposal on the state object

  /** `self.moves[m].propose(state, move_arcs[m], self.ps_scores_, self.rng)`. */
  method Dispatch(p: Proposer, state: DagState, m: nat, a: MoveArcs, d: Randomness)
    returns (r: Result<(DagState, Acceptance, real)>)
    requires state.Valid() && TablesFit(state.n, p.scores) && ArcsFit(state.n, a) && ValidRandomness(d)
    requires state.fanIn == p.fanIn
    ensures var o := Apply(p, state.n, state.edges, m, a, d);
      && (r.Ok? <==> o.Ok?)
      && (r.Err? ==> r.error == o.error)
      && (r.Ok? ==> fresh(r.value.0) && r.value.0.Valid() && r.value.0.n == state.n
                    && r.value.0.edges == o.value.edges && r.value.0.fanIn == p.fanIn
                    && r.value.1 == o.value.acceptance && r.value.2 == o.value.scoreDiff)
  {
    match a
    case BasicArcs(lists) =>
      var res := BasicMove.Propose(state, lists, p.scores, d.uKind, d.pick);
      if res.Err? {
        return Err(res.error);
      }
      r := Ok((res.value.0, BasicRatio(res.value.1), res.value.2));
    case RevArcs(arcs) =>
      var res := RevMove.Propose(state, arcs, p.scores, d.pick, d.pickI, d.pickJ);
      if res.Err? {
        return Err(res.error);
      }
      r := Ok((res.value.0, RevRatio(res.value.1), res.value.2));
  }

  /** The loop of `DAGProposal.sample`: `m.moves(state)` for every configured move m, in
      order, with whether it offers anything. */
  method ListMoves(moves: seq<Move>, state: DagState) returns (moveArcs: seq<MoveArcs>, hasMove: seq<bool>)
    ensures moveArcs == AllArcs(moves, state.n, state.edges, state.fanIn)
    ensures hasMove == HasMove(moveArcs)
  {
    moveArcs := [];
    hasMove := [];
    for k := 0 to |moves|
      invariant |moveArcs| == k && |hasMove| == k
      invariant forall x | 0 <= x < k :: moveArcs[x] == ArcsFor(moves[x], state.n, state.edges, state.fanIn)
      invariant forall x | 0 <= x < k :: hasMove[x] == Offered(moveArcs[x])
    {
      var a := ArcsFor(moves[k], state.n, state.edges, state.fanIn);
      moveArcs := moveArcs + [a];
      hasMove := hasMove + [Offered(a)];
    }
  }

  /** `DAGProposal.sample(state)`: refuses a graph beyond the fan-in and leaves the state
      alone; otherwise stamps the fan-in on the state, lists every move's arcs in a loop,
      draws the move and returns its proposal, with the fan-in stamped on the new state.
      The input state keeps its graph. */
  method Sample(p: Proposer, state: DagState, d: Randomness) returns (r: Result<(DagState, Acceptance, real)>)
    requires state.Valid() && |p.moves| == |p.moveProb| && TablesFit(state.n, p.scores) && ValidRandomness(d)
    modifies state
    ensures state.Valid() && state.edges == old(state.edges)
    ensures state.fanIn == if ExceedsFanIn(state.n, old(state.edges), p.fanIn) then old(state.fanIn) else p.fanIn
    ensures var o := SampleOutcome(p, state.n, old(state.edges), d);
      && (r.Ok? <==> o.Ok?)
      && (r.Err? ==> r.error == o.error)
      && (r.Ok? ==> fresh(r.value.0) && r.value.0.Valid() && r.value.0.n == state.n
                    && r.value.0.edges == o.value.edges && r.value.0.fanIn == p.fanIn
                    && r.value.1 == o.value.acceptance && r.value.2 == o.value.scoreDiff)
  {
    if ExceedsFanIn(state.n, state.edges, p.fanIn) {
      return Err(FanInViolation);
    }
    state.fanIn := p.fanIn;
    var moveArcs, hasMove := ListMoves(p.moves, state);
    var m := ChooseIndex(Masked(p.moveProb, hasMove), d.uMove);
    if m.Err? {
      return Err(m.error);
    }
    r := Dispatch(p, state, m.value, moveArcs[m.value], d);
    if r.Ok? {
      var next := r.value.0;
      next.fanIn := p.fanIn;
    }
  }
}
