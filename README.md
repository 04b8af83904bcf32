# Proposal distribution over DAGs

This project is a Dafny model of the structure proposal in `mcmc/graphs/proposal.py`. That code
drives Metropolis-Hastings sampling over directed acyclic graphs (Bayesian network structures) and
has four parts:

- **ParentSetDistribution.** Each variable has a table from candidate parent sets to log scores.
  The table supports a point lookup and a conditioned draw (`sample`) that returns a parent set
  with its log-normaliser. The log-normaliser alone is available as `log_z`. When exactly one
  candidate qualifies, the table returns that candidate's raw score directly.
- **`get_parent_set_distributions`.** Builds one table per variable. It keeps the candidate sets
  that leave the variable out and pass an optional filter, then scores each one.
- **`basic_move`.** Lists the edges that can be added (no self-loop, no existing edge, no cycle,
  target below the fan-in) and the edges that can be deleted. It adds or deletes one of them and
  reports the score difference and the Hastings correction `log(q_move / q_inv)`.
  `q_inv` is counted afresh in the new graph.
- **`rev_move`.** Reverses one edge i -> j. It orphans both nodes, then draws i's new parents
  (which must contain j and avoid i's descendants), then draws j's new parents (which must avoid
  j's new descendants). It reports the ratio of the partition functions together with the ratio
  of the edge counts.
- **`DAGProposal.sample`.** Refuses a graph that breaks the fan-in and stamps the fan-in on the
  state. It lists every move's neighbourhood, masks the moves with nothing to offer, draws a move
  and delegates to it. Finally it stamps the fan-in on the new state.

## How the model is built

**Modules.**
- `Outcomes`: errors named after the Python exceptions, plus `Result` and `Option`.
- `Graphs`: edge sets. Reachability is the least set closed under successors. Acyclicity means no
  node is its own descendant. Positions are enumerated in row-major order, which is the order of
  scipy `nonzero()`.
- `DagStates`: the DAG state class with its mutators.
- `Draws`: numpy's categorical choice.
- `ParentSets`, `BasicMove`, `RevMove`, `DagProposals`: the four parts of the source.

**Values and objects.**
- The parent-set table is never mutated after construction. It is therefore a datatype: an
  ordered list of (key, score) pairs with distinct keys, as an `OrderedDict` is.
- The DAG state is mutated through `copy`, `add_edge`, `remove_edge`, `orphan`, `add_edges` and
  the `fan_in_` stamp. It is therefore a class (`DagStates.DagState`).
- Each move has two forms:
  - a function (`Plan`) that computes the proposal from the old graph and the random draws;
  - a method (`Propose`) that copies the state and mutates the copy, with a postcondition that
    ties the new state to the function.

**Randomness.** It enters as parameters:
- a real `u` in [0, 1) for a categorical draw with explicit probabilities. It selects the first
  index whose cumulative probability exceeds `u`.
- a natural number `pick` for a uniform or score-weighted choice among `k` items. It selects
  item `pick % k`.

**Complete tables.** The predicate `ParentSets.Complete` holds when every table contains, as a key,
every set of at most fan-in other nodes. `ParentSets.CollectedTablesComplete` proves that
`get_parent_set_distributions` builds such tables from the full truncated power set with no
condition. The lemmas saying when a proposal succeeds assume complete tables.

**Log values.** Log-space quantities are symbolic:
- `LogZ` is `Exact(score)` for the singleton shortcut and `LogSumExp(scores)` otherwise.
- The acceptance ratios are datatypes that record their terms.

**Behaviour worth knowing.**
- `basic_move.propose` divides the two list lengths by their sum to choose between adding and
  deleting (proposal.py:151-155). With both lists empty this is `0 / 0`, and `rng.choice` raises
  a `ValueError` for the NaN probabilities (`InvalidProbabilities`).
- `rev_move.propose` draws its arc with `rng.choice(len(arcs))` (proposal.py:190-191). With no
  arcs this raises a `ValueError` (`EmptyChoice`).
- `basic_move.moves` returns a pair of lists (proposal.py:130), so `bool(len(moves))` at
  proposal.py:297 is always true for it, and the mask at proposal.py:300 never zeroes a basic move.
  On a graph with no addable and no deletable edge, `DAGProposal.sample` fails with
  `InvalidProbabilities` whatever moves and weights are configured
  (`DagProposals.SampleFailsWithoutNeighbours`). If basic_move has a positive weight, the error
  comes from `basic_move.propose`. Otherwise the mask's `0 / 0` at proposal.py:301 leaves NaN
  probabilities, and `rng.choice` raises the `ValueError` at proposal.py:303.
- `DAGProposal.sample` writes `fan_in_` on the state it is given (proposal.py:292) before any move
  runs. The model's `Sample` states that write and proves that the state's graph is untouched.
  The moves work on `state.copy()` (proposal.py:149, 202).
- `sample()` and `log_z()` with no condition fail as written (proposal.py:51-57, 68-76; see
  Findings). The model uses the evidently intended meaning, "all keys".

## Model

| member | source | states |
|---|---|---|
| ParentSets.Lookup | mcmc/graphs/proposal.py:39-40 | Succeeds exactly when the parent set is a key of the table, returning that key's score; otherwise it raises KeyError. |
| ParentSets.Build | mcmc/graphs/proposal.py:29-37 | Fails exactly when the candidate list is empty (`parent_sets[0]`); otherwise the table belongs to the variable and has distinct keys. |
| ParentSets.BuildKeys | mcmc/graphs/proposal.py:29-37 | The table's keys are exactly the given parent sets. |
| ParentSets.FromPairs | mcmc/graphs/proposal.py:36 | Building an OrderedDict from pairs gives distinct keys, the same key set, and only entries drawn from the pairs. |
| ParentSets.LaterPairWins | mcmc/graphs/proposal.py:36 | When a key repeats, the later pair's score is the one kept. |
| ParentSets.FromDistinctPairs | mcmc/graphs/proposal.py:36 | Pairs with distinct keys are kept as they are, in order. |
| ParentSets.Selected | mcmc/graphs/proposal.py:51-54 | The conditioned slice holds exactly the table entries whose key satisfies the condition. |
| ParentSets.Sample | mcmc/graphs/proposal.py:50-65 | Fails exactly when no key qualifies. Otherwise it returns a qualifying key of the table, and its log-normaliser equals `log_z` under the same condition. |
| ParentSets.LogPartition | mcmc/graphs/proposal.py:67-79 | Fails exactly when no key qualifies, with the empty-slice error. Otherwise it returns the raw score exactly when a single entry qualifies, and a log-sum-exp otherwise. |
| ParentSets.SingletonShortcut | mcmc/graphs/proposal.py:58-59 | When one key alone qualifies, `sample` returns that key and `log_z` returns its raw score exactly, with no log-sum-exp. |
| ParentSets.LogSumExpOverQualifying | mcmc/graphs/proposal.py:70-79 | Outside the singleton case, the log-sum-exp runs over at least two scores. A score enters the sum exactly when a qualifying key stores it. When the keys are distinct, there is one score per qualifying key, and it is that key's lookup. |
| ParentSets.SeveralQualifyingKeys | mcmc/graphs/proposal.py:50-79 | Two different qualifying keys rule out the shortcut: `sample` and `log_z` both give a log-sum-exp over at least two scores. |
| ParentSets.LookupDistinct | mcmc/graphs/proposal.py:36-40 | When the keys are distinct, a lookup returns exactly the score stored under the key. |
| ParentSets.GraphScoreOneChange | mcmc/graphs/proposal.py:167-171 | When one node's parents change, the decomposable graph score changes by that node's new table score minus its old one. |
| ParentSets.GraphScoreTwoChanges | mcmc/graphs/proposal.py:195-217 | When the parents of two nodes change, the graph score changes by the sum of their two lookup differences. |
| ParentSets.VariableCount | mcmc/graphs/proposal.py:83-88 | An int or a list gives a variable count; anything else raises the ValueError. |
| ParentSets.Candidates | mcmc/graphs/proposal.py:96-99 | The candidates of a variable are exactly the sets that leave it out and satisfy the optional filter. |
| ParentSets.TableFor | mcmc/graphs/proposal.py:95-103 | A variable's table fails exactly when it has no candidate. |
| ParentSets.TableForKeys | mcmc/graphs/proposal.py:95-103 | The table's keys are exactly the admitted candidate sets of that variable. |
| ParentSets.TableForScores | mcmc/graphs/proposal.py:101 | Every key of a variable's table holds `score_fn(var, key)`. |
| ParentSets.CollectSpec | mcmc/graphs/proposal.py:93-105 | The loop either succeeds with one entry per index, each the per-index result, or fails with the error of the first index that fails. |
| ParentSets.CollectFailurePersists | mcmc/graphs/proposal.py:95-103 | Once one table fails, so does the whole enumeration, with the same error. |
| ParentSets.TablesSpec | mcmc/graphs/proposal.py:82-105 | Enumeration fails exactly when some variable has no candidate. It then raises that IndexError. Otherwise table v belongs to variable v. |
| ParentSets.GetParentSetDistributions | mcmc/graphs/proposal.py:82-105 | Bad `variables` raises ValueError; otherwise the result is the per-variable table list, built in order. |
| ParentSets.CollectInOrder | mcmc/graphs/proposal.py:93-105 | The loop that appends one table per variable computes exactly the collected list or its first error. |
| ParentSets.CollectedTablesFit | mcmc/graphs/proposal.py:91-105 | Candidate sets over the variables, of size at most the fan-in, give tables whose keys are in range, leave their variable out, and respect the fan-in. |
| ParentSets.CollectedTablesComplete | mcmc/graphs/proposal.py:82-105 | With no condition and candidate sets holding every set of at most fan-in nodes, a non-negative fan-in leaves no variable without candidates, and every table holds every set of at most fan-in other nodes. |
| Draws.Categorical | mcmc/graphs/proposal.py:155 | A categorical draw succeeds exactly when the probabilities are non-negative and sum to 1. It then returns an index of positive probability. |
| Draws.NormaliseIsDistribution | mcmc/graphs/proposal.py:300-301 | Dividing non-negative weights of positive total by that total gives a probability vector. |
| Graphs.ClosureLeast | mcmc/graphs/proposal.py:194 | Reachability is the least set that contains the start's successors and is closed under successors. |
| Graphs.Descendants | mcmc/graphs/proposal.py:194-210 | `state.descendants(u)` holds every successor of u and is closed under the edges. `Graphs.ClosureLeast` shows it is the least such set. |
| Graphs.AddParentsAcyclic | mcmc/graphs/proposal.py:205-213 | Giving a parentless node parents that it does not reach keeps the graph acyclic. |
| Graphs.ReplaceParents | mcmc/graphs/proposal.py:202-213 | Orphaning two nodes and adding new parents gives each of them exactly its new parents, and leaves every other node's parents unchanged. |
| Graphs.PositionsWhereFacts | mcmc/graphs/proposal.py:127-128 | Enumerating a matrix's non-zero positions lists each qualifying cell once, and only those cells. |
| DagStates.DagState.Copy | mcmc/graphs/proposal.py:149 | The copy is a fresh state with the same nodes, edges and fan-in stamp. |
| DagStates.DagState.Orphan | mcmc/graphs/proposal.py:203 | Removes exactly the edges into the orphaned nodes. |
| DagStates.DagState.AddEdge | mcmc/graphs/proposal.py:165 | Adds exactly the edge u -> v and keeps the fan-in stamp. |
| DagStates.DagState.RemoveEdge | mcmc/graphs/proposal.py:161 | Removes exactly the edge u -> v and keeps the fan-in stamp. |
| DagStates.DagState.AddEdges | mcmc/graphs/proposal.py:208-213 | Adds exactly the given edges and keeps the fan-in stamp. |
| BasicMove.Moves | mcmc/graphs/proposal.py:120-130 | Both lists hold only edges between the nodes 0 .. n-1. `BasicMove.MovesCharacterised` gives their contents. |
| BasicMove.NAdds | mcmc/graphs/proposal.py:133-140 | `_n_adds` is the number of non-zero cells of the masked addition matrix. |
| BasicMove.AddEntryAddable | mcmc/graphs/proposal.py:121-125 | A cell of the addition matrix is non-zero exactly when the edge is addable: no self-loop, no existing edge, no path back, and the target below the fan-in. |
| BasicMove.MovesCharacterised | mcmc/graphs/proposal.py:120-130 | On a DAG, the addition list holds each addable edge exactly once and the deletion list holds each edge exactly once. |
| BasicMove.NAddsCountsAddable | mcmc/graphs/proposal.py:133-140 | `_n_adds` is the number of addable edges under the given fan-in. |
| BasicMove.NDeletes | mcmc/graphs/proposal.py:143-145 | `_n_deletes` is the number of edges. |
| BasicMove.ChooseMove | mcmc/graphs/proposal.py:151-156 | Choosing between adding and deleting fails exactly when both lists are empty. It only adds when something is addable and only deletes when something is deletable. |
| BasicMove.Assess | mcmc/graphs/proposal.py:167-176 | The ratio's score difference is the target's new lookup minus its old lookup, and `q_inv` is the new graph's neighbourhood size. It fails only on an unknown key or an empty new neighbourhood, and succeeds whenever both parent sets are keys and the new neighbourhood is non-empty. |
| BasicMove.Plan | mcmc/graphs/proposal.py:148-179 | Fails with the NaN-probability error exactly when both lists are empty. Otherwise it adds or deletes one listed edge. The result carries the score difference of the target's parent set, `q_move = a + d`, and a positive `q_inv` counted in the new graph. |
| BasicMove.AppliedChangesOneParentSet | mcmc/graphs/proposal.py:158-169 | Adding or deleting u -> v changes only v's parents, by gaining or losing u. |
| BasicMove.PlanScoreDifference | mcmc/graphs/proposal.py:167-171 | The reported score difference is the change in the decomposable score of the whole graph. |
| BasicMove.NeighbourKeepsDag | mcmc/graphs/proposal.py:118-165 | Applying a listed move to a DAG within the fan-in gives a DAG within the fan-in that differs from it by exactly that edge. |
| BasicMove.NeighbourReversible | mcmc/graphs/proposal.py:173-176 | The inverse move is in the new graph's neighbourhood, and applying it restores the old graph. |
| BasicMove.NeighbourCounts | mcmc/graphs/proposal.py:173-176 | `q_inv` counts the new graph's neighbours and is positive. |
| BasicMove.PlanNeverDividesByZero | mcmc/graphs/proposal.py:175-179 | From a DAG within the fan-in, with the move lists it enumerates, `q_move / q_inv` never divides by zero. |
| BasicMove.PlanKeepsDag | mcmc/graphs/proposal.py:148-179 | From a DAG within the fan-in, the proposal is a DAG within the fan-in that differs from it by exactly the proposed edge. |
| BasicMove.PlanSucceeds | mcmc/graphs/proposal.py:148-179 | With complete tables, a proposal from a DAG within the fan-in that has an edge to add or delete always succeeds. |
| BasicMove.ApplyToCopy | mcmc/graphs/proposal.py:149-165 | The result is a fresh copy of the state with the chosen edge added or removed, with the same nodes and fan-in stamp. |
| BasicMove.Propose | mcmc/graphs/proposal.py:148-179 | The proposal is a fresh state holding the planned graph, with the same fan-in stamp and the planned ratio. The input state is left alone, and errors are those of the plan. |
| RevMove.Moves | mcmc/graphs/proposal.py:184-186 | The reversal candidates are exactly the graph's edges, each listed once. |
| RevMove.Avoiding | mcmc/graphs/proposal.py:199-211 | The condition holds exactly for parent sets disjoint from the descendants. |
| RevMove.HoldingAvoiding | mcmc/graphs/proposal.py:200-206 | The condition holds exactly for parent sets that contain the node and avoid the descendants. |
| RevMove.DrawArc | mcmc/graphs/proposal.py:190-191 | Drawing the arc fails exactly when there are no arcs; otherwise it returns a listed arc. |
| RevMove.PairScore | mcmc/graphs/proposal.py:194-214 | The pair score is defined exactly when both nodes' current parent sets are table keys. |
| RevMove.Reattach | mcmc/graphs/proposal.py:202-213 | i's new parents are a key of its table, contain j, and avoid i's descendants after the orphaning. j's new parents are a key of its table and avoid j's descendants after i is reattached. The new graph is the orphaned graph with both sets added. `z*_i` and `z_j` are the `log_z` of the two slices drawn from. |
| RevMove.ReattachKeepsDag | mcmc/graphs/proposal.py:202-213 | The reattached graph stays within the nodes and is acyclic. |
| RevMove.ReattachReverses | mcmc/graphs/proposal.py:202-213 | After the move, i and j have exactly their drawn parents, j -> i is present and i -> j is gone. No other node's parents change. |
| RevMove.ReattachSucceeds | mcmc/graphs/proposal.py:205-211 | If {j} is a key of i's table and {} a key of j's table, both conditioned draws find a candidate. |
| RevMove.Inspect | mcmc/graphs/proposal.py:194-200 | The old score is the sum of both nodes' lookups. `z_i` is the `log_z` of i's keys avoiding i's descendants, and `z*_j` that of j's keys holding i and avoiding j's descendants. |
| RevMove.Finish | mcmc/graphs/proposal.py:202-219 | The result is the reattachment, with a ratio made of its two normalisers, the two old ones, the arc count and a positive new edge count. The score difference is the new pair score minus the old. It fails with ZeroDivision only when the new graph has no edges. |
| RevMove.Plan | mcmc/graphs/proposal.py:189-219 | Fails with the empty-choice error exactly when there are no arcs. Otherwise it reverses a listed arc, surveys the old graph's score and partitions, then reattaches and forms the ratio. All four normalisers of the ratio are `log_z` of their slices. |
| RevMove.PlanKeepsDag | mcmc/graphs/proposal.py:189-219 | A proposal from a DAG is a DAG. |
| RevMove.PlanReverses | mcmc/graphs/proposal.py:189-219 | The drawn edge i -> j of the graph becomes j -> i. i and j get exactly their drawn parent sets, both table keys, and every other node keeps its parents. |
| RevMove.PlanScoreDifference | mcmc/graphs/proposal.py:194-217 | The reported score difference is the change in the graph's decomposable score. |
| RevMove.PlanNeverDividesByZero | mcmc/graphs/proposal.py:219 | `n / len(new edges)` never divides by zero, because the new graph holds j -> i. |
| RevMove.PlanKeepsFanIn | mcmc/graphs/proposal.py:202-213 | Tables whose keys respect the fan-in keep the proposal within the fan-in. |
| RevMove.InspectSucceeds | mcmc/graphs/proposal.py:194-200 | With complete tables, the old graph's scores and both partitions of the old graph exist. |
| RevMove.PlanSucceeds | mcmc/graphs/proposal.py:189-219 | With complete tables for a fan-in of at least one, a reversal from a DAG within the fan-in never fails. |
| RevMove.Rebuild | mcmc/graphs/proposal.py:202-213 | The result is a fresh copy of the state with i and j orphaned and given their new parents, with the same nodes and fan-in stamp. |
| RevMove.Propose | mcmc/graphs/proposal.py:189-219 | The proposal is a fresh state holding the reattached graph, with the same fan-in stamp and the planned ratio and score difference. The input state is left alone. |
| ParentSets.LogPartitionAsWritten | mcmc/graphs/proposal.py:67-76 | As written, `log_z()` with no condition always raises TypeError; with a condition it is the log-partition of the slice. |
| ParentSets.UnconditionedRows | mcmc/graphs/proposal.py:51-57 | With no condition, `zip(*table)` yields as many tuples as the smallest key has members. |
| ParentSets.UnconditionedSampleFails | mcmc/graphs/proposal.py:51-57 | For a table holding the empty parent set, the unconditioned `sample()` as written does not get the two tuples it unpacks, while the intended draw over all keys succeeds. |
| ParentSets.UnconditionedQueriesExample | mcmc/graphs/proposal.py:51-79 | On the table {{}: 0.0, {1}: 1.0}, the unconditioned draw as written unpacks no tuple and `log_z()` raises, while the intended log-partition runs over both scores. |
| DagProposals.Masked | mcmc/graphs/proposal.py:300 | A move's weight is its probability when it has something to offer and zero otherwise. |
| DagProposals.Weights | mcmc/graphs/proposal.py:289-300 | There is one weight per configured move. A basic move always keeps its probability. A reversal's weight is zero when the graph has no edge, and its probability otherwise. |
| DagProposals.ChooseIndex | mcmc/graphs/proposal.py:300-303 | The move draw succeeds exactly when the renormalised weights are defined and non-negative. It then returns a move of positive renormalised weight. |
| DagProposals.SampleOutcome | mcmc/graphs/proposal.py:284-307 | Fails with the fan-in error exactly when some node has more parents than the fan-in; otherwise the move made is one of those configured. |
| DagProposals.SampleChoosesOfferedMove | mcmc/graphs/proposal.py:294-303 | The move made offered something and had positive renormalised probability. |
| DagProposals.SampleKeepsDag | mcmc/graphs/proposal.py:284-307 | From a DAG with tables that respect the fan-in, every proposal is a DAG within the fan-in. |
| DagProposals.SampleNeverDividesByZero | mcmc/graphs/proposal.py:284-307 | On a DAG, no configured move divides by zero. |
| DagProposals.SampleApplies | mcmc/graphs/proposal.py:284-305 | Past the fan-in check, `sample` is the drawn move's proposal on that move's listed arcs. |
| DagProposals.SampleSucceeds | mcmc/graphs/proposal.py:284-307 | With complete tables, `sample` on a DAG within the fan-in that has a neighbour succeeds whenever the move draw does. |
| DagProposals.SampleFailsWithoutNeighbours | mcmc/graphs/proposal.py:294-305 | A graph with no addable and no deletable edge makes `sample` fail with the probability error, for any configured moves and weights. |
| DagProposals.SingleNodeProposalFails | mcmc/graphs/proposal.py:284-305 | A one-node graph has nothing to propose, and `sample` fails with the probability error. |
| DagProposals.ListMoves | mcmc/graphs/proposal.py:289-298 | The loop records every configured move's arcs in order, each with whether it offers anything. |
| DagProposals.Apply | mcmc/graphs/proposal.py:305 | Applying a move reports that move's index, or one of the errors its proposal can raise. |
| DagProposals.Dispatch | mcmc/graphs/proposal.py:305 | Delegating to the chosen move gives a fresh state holding its proposal, or its error. |
| DagProposals.Sample | mcmc/graphs/proposal.py:284-312 | The input state's graph is unchanged, and its fan-in is stamped unless the graph breaks the fan-in. The result is the specified outcome, as a fresh state carrying the fan-in. |

## Left out

- Floating point: scores and log values are exact reals, and log-sum-exp and `log(q_move / q_inv)` are symbolic (`LogZ`, the acceptance datatypes). The max-subtraction for numerical stability is therefore not modelled.
- Random number generation: draws are parameters. A uniform or exp-weighted choice among k items is the item at `pick % k`. This models which outcomes are possible, not their probabilities.
- ParentSets.Sample: does not state that the draw is weighted by `exp(score)`, because the draw is the parameter `pick`.
- The DAG state's internals (sparse adjacency, cached ancestor matrix, descendant queries) are replaced by an edge set. `state.ancestor_matrix[u, v]` is read as "v reaches u", so the addition matrix excludes exactly the edges that would close a cycle. The state's own file is not part of this model.
- `power_set`, `BGe`, `random_dag`, `get_rng` and `ProposalDistribution` are not part of this model. The truncated power set enters `get_parent_set_distributions` as the parameter `sets`, and the score function as a parameter. The newly generated random state is left out.
- `DAGProposal.__init__` checks, `initialize` and `random_state` are left out. `Proposer` stands for an initialised proposal whose move and probability lists have equal length.
- `ReattachMove` is an empty stub in the source and is left out.
- The `'X' + str(var)` variable name in `ParentSetDistribution.__init__` is kept only as the variable index.
- `parent_sets[0]` not being a frozenset (conversion of arrays to frozensets) is left out; parent sets are sets throughout.
- The `dtype` of `move_prob` (an integer array would make `/=` raise) is left out, since probabilities are reals.
- `state.copy()` is assumed to carry `fan_in_`.
- RevMove.Propose: requires that the tables' keys lie within the graph and leave their variable out (what enumeration guarantees), rather than handling a table whose parents fall outside the state.

## Findings

| source | as written | input that shows it | evidently intended | confidence | as-written member | corrected member |
|---|---|---|---|---|---|---|
| mcmc/graphs/proposal.py:68-76 | `log_z()` with no condition wraps `table.values()` in `np.asarray`, which makes a 0-d object array, so `len(selected)` raises TypeError | any table, `condition=None` | the log-partition over all keys | not executed | ParentSets.LogPartitionAsWritten | ParentSets.LogPartition |
| mcmc/graphs/proposal.py:51-57 | `sample()` with no condition passes the OrderedDict to `zip(*table)`, which iterates over the keys, so the "rows" are the members of the parent sets and the unpacking into two names fails unless the smallest key has exactly two members | the table `{{}: 0.0, {1}: 1.0}`, `condition=None` | a draw over all keys | not executed | ParentSets.UnconditionedSampleFails | ParentSets.Sample |
