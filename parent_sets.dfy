/** Per-variable tables of candidate parent sets (`ParentSetDistribution`), their
    conditioned sampling and log-partition queries, and the construction of one table per
    variable (`get_parent_set_distributions`). Scores are kept exact and log-space sums
    symbolic: a `LogZ` is either one raw score or the log-sum-exp of a list of scores. */
module ParentSets {
  import opened Outcomes
  import opened Graphs

  /** A candidate parent set (a `frozenset` of variable indices). */
  type PSet = set<Node>

  /** One (parent set, score) item of a table. */
  type Item = (PSet, real)

  /** `ParentSetDistribution`: the variable and its table, an `OrderedDict` kept as its
      items in insertion order. */
  datatype ParentSetDistribution = ParentSetDistribution(variable: Node, items: seq<Item>)

  /** A log-partition value: the raw score of the only qualifying key, or
      log(sum(exp(s))) over the scores of two or more qualifying keys. */
  datatype LogZ = Exact(score: real) | LogSumExp(scores: seq<real>)

  function KeySet(items: seq<Item>): set<PSet>
  {
    set x | x in items :: x.0
  }

  predicate DistinctKeys(items: seq<Item>)
  {
    forall a, b | 0 <= a < b < |items| :: items[a].0 != items[b].0
  }

  /** The score stored under key k, if any. */
  function Find(items: seq<Item>, k: PSet): (r: Option<real>)
    ensures r.Some? <==> k in KeySet(items)
    ensures r.Some? ==> (k, r.value) in items
  {
    if items == [] then None
    else if items[0].0 == k then Some(items[0].1)
    else
      assert KeySet(items) == {items[0].0} + KeySet(items[1..]);
      Find(items[1..], k)
  }

  lemma {:induction false} FindDistinct(items: seq<Item>, k: PSet, v: real)
    requires DistinctKeys(items) && (k, v) in items
    ensures Find(items, k) == Some(v)
  {
    if items[0] != (k, v) {
      assert items[0].0 != k by {
        var i :| 0 <= i < |items| && items[i] == (k, v);
        assert i != 0;
      }
      assert (k, v) in items[1..] by {
        var i :| 0 <= i < |items| && items[i] == (k, v);
        assert items[1..][i - 1] == (k, v);
      }
      FindDistinct(items[1..], k, v);
    }
  }

  // ---------------------------------------------------------------------------
  // Construction: `OrderedDict(zip(parent_sets, probabilities))`

  /** Assigning `table[k] = v`: an existing key keeps its place and takes the new score,
      a new key goes last. */
  function Insert(items: seq<Item>, k: PSet, v: real): (r: seq<Item>)
    ensures KeySet(r) == KeySet(items) + {k}
    ensures forall x | x in r :: x in items || x == (k, v)
    ensures Find(r, k) == Some(v)
  {
    if items == [] then [(k, v)]
    else if items[0].0 == k then
      assert KeySet(items) == {k} + KeySet(items[1..]);
      assert KeySet([(k, v)] + items[1..]) == {k} + KeySet(items[1..]);
      [(k, v)] + items[1..]
    else
      var rest := Insert(items[1..], k, v);
      assert KeySet(items) == {items[0].0} + KeySet(items[1..]);
      assert KeySet([items[0]] + rest) == {items[0].0} + KeySet(rest);
      [items[0]] + rest
  }

  lemma HeadKeyNotInTail(items: seq<Item>)
    requires DistinctKeys(items) && items != []
    ensures items[0].0 !in KeySet(items[1..])
  {
    if items[0].0 in KeySet(items[1..]) {
      assert false;
    }
  }

  /** A head whose key is not among the tail's keeps the keys distinct. */
  lemma DistinctCons(h: Item, t: seq<Item>)
    requires DistinctKeys(t) && h.0 !in KeySet(t)
    ensures DistinctKeys([h] + t)
  {
    var r := [h] + t;
    forall a, b | 0 <= a < b < |r| ensures r[a].0 != r[b].0 {
      if a == 0 {
        assert r[b] == t[b - 1];
        assert t[b - 1] in t;
      } else {
        assert r[a] == t[a - 1] && r[b] == t[b - 1];
      }
    }
  }

  /** Inserting keeps the keys distinct. */
  lemma {:induction false} InsertDistinct(items: seq<Item>, k: PSet, v: real)
    requires DistinctKeys(items)
    ensures DistinctKeys(Insert(items, k, v))
  {
    if items != [] {
      HeadKeyNotInTail(items);
      assert DistinctKeys(items[1..]);
      if items[0].0 != k {
        InsertDistinct(items[1..], k, v);
        DistinctCons(items[0], Insert(items[1..], k, v));
      } else {
        DistinctCons((k, v), items[1..]);
      }
    }
  }

  /** A key not in the table is appended. */
  lemma {:induction false} InsertAppends(items: seq<Item>, k: PSet, v: real)
    requires k !in KeySet(items)
    ensures Insert(items, k, v) == items + [(k, v)]
  {
    if items != [] {
      assert items[0] in items;
      assert k !in KeySet(items[1..]) by {
        assert KeySet(items[1..]) <= KeySet(items);
      }
      InsertAppends(items[1..], k, v);
      calc {
        Insert(items, k, v);
        [items[0]] + Insert(items[1..], k, v);
        [items[0]] + (items[1..] + [(k, v)]);
        { assert items == [items[0]] + items[1..]; }
        items + [(k, v)];
      }
    }
  }

  /** The items of an `OrderedDict` built from `pairs`, inserted one after the other. */
  function FromPairs(pairs: seq<Item>): (r: seq<Item>)
    ensures DistinctKeys(r)
    ensures KeySet(r) == KeySet(pairs)
    ensures forall x | x in r :: x in pairs
    decreases |pairs|
  {
    if pairs == [] then []
    else
      var init := pairs[..|pairs| - 1];
      var last := pairs[|pairs| - 1];
      assert pairs == init + [last];
      assert KeySet(pairs) == KeySet(init) + {last.0};
      InsertDistinct(FromPairs(init), last.0, last.1);
      Insert(FromPairs(init), last.0, last.1)
  }

  /** A later pair with the same key overwrites the score of an earlier one. */
  lemma LaterPairWins(pairs: seq<Item>, k: PSet, v: real)
    ensures Find(FromPairs(pairs + [(k, v)]), k) == Some(v)
  {
    assert (pairs + [(k, v)])[..|pairs|] == pairs;
  }

  /** Without repeated keys the table holds exactly the given pairs, in order. */
  lemma {:induction false} FromDistinctPairs(pairs: seq<Item>)
    requires DistinctKeys(pairs)
    ensures FromPairs(pairs) == pairs
    decreases |pairs|
  {
    if pairs != [] {
      var init := pairs[..|pairs| - 1];
      var last := pairs[|pairs| - 1];
      assert DistinctKeys(init);
      FromDistinctPairs(init);
      assert last.0 !in KeySet(init) by {
        if last.0 in KeySet(init) {
          assert false;
        }
      }
      assert pairs == init + [last];
      InsertAppends(init, last.0, last.1);
    }
  }

  function Zip(a: seq<PSet>, b: seq<real>): (r: seq<Item>)
    ensures |r| == if |a| <= |b| then |a| else |b|
  {
    var len := if |a| <= |b| then |a| else |b|;
    seq(len, k requires 0 <= k < len => (a[k], b[k]))
  }

  /** `ParentSetDistribution(var, parent_sets, probabilities)`. */
  function Build(variable: Node, parentSets: seq<PSet>, probabilities: seq<real>): (r: Result<ParentSetDistribution>)
    ensures r.Err? <==> parentSets == []
    ensures r.Err? ==> r.error == NoParentSets
    ensures r.Ok? ==> r.value.variable == variable && DistinctKeys(r.value.items)
  {
    if parentSets == [] then Err(NoParentSets)
    else Ok(ParentSetDistribution(variable, FromPairs(Zip(parentSets, probabilities))))
  }

  /** With a score for every candidate, the table's keys are exactly the candidates. */
  lemma BuildKeys(variable: Node, parentSets: seq<PSet>, probabilities: seq<real>)
    requires parentSets != [] && |parentSets| <= |probabilities|
    ensures KeySet(Build(variable, parentSets, probabilities).value.items) == set s | s in parentSets
  {
    var pairs := Zip(parentSets, probabilities);
    forall s | s in parentSets ensures s in KeySet(pairs) {
      var i :| 0 <= i < |parentSets| && parentSets[i] == s;
      assert pairs[i].0 == s;
    }
  }

  /** `table[item]`: a KeyError for a parent set that is not a key. */
  function Lookup(d: ParentSetDistribution, k: PSet): (r: Result<real>)
    ensures r.Ok? <==> k in KeySet(d.items)
    ensures r.Err? ==> r.error == UnknownParentSet
    ensures r.Ok? ==> (k, r.value) in d.items
  {
    match Find(d.items, k)
    case Some(v) => Ok(v)
    case None => Err(UnknownParentSet)
  }

  // ---------------------------------------------------------------------------
  // The score of a whole graph

  /** The decomposable score of the graph E over variables 0 .. k-1: the sum of each
      variable's table entry for its parent set, or the KeyError of the first variable
      whose parent set is not a key. */
  function GraphScore(scores: seq<ParentSetDistribution>, E: set<Edge>, k: nat): Result<real>
    requires k <= |scores|
  {
    if k == 0 then Ok(0.0)
    else
      match GraphScore(scores, E, k - 1)
      case Err(e) => Err(e)
      case Ok(s) =>
        match Lookup(scores[k - 1], Parents(E, k - 1))
        case Err(e) => Err(e)
        case Ok(x) => Ok(s + x)
  }

  /** Two graphs that give every variable below k the same parents score the same. */
  lemma {:induction false} GraphScoreSameParents(scores: seq<ParentSetDistribution>, E1: set<Edge>, E2: set<Edge>, k: nat)
    requires k <= |scores|
    requires forall w | 0 <= w < k :: Parents(E1, w) == Parents(E2, w)
    ensures GraphScore(scores, E1, k) == GraphScore(scores, E2, k)
  {
    if k > 0 {
      GraphScoreSameParents(scores, E1, E2, k - 1);
    }
  }

  /** A graph that scores has every parent set in its table. */
  lemma {:induction false} GraphScoreLookups(scores: seq<ParentSetDistribution>, E: set<Edge>, k: nat, w: nat)
    requires k <= |scores| && w < k && GraphScore(scores, E, k).Ok?
    ensures Lookup(scores[w], Parents(E, w)).Ok?
  {
    if w < k - 1 {
      GraphScoreLookups(scores, E, k - 1, w);
    }
  }

  /** Changing the parents of one variable v changes the graph score by the difference
      of v's two table entries. */
  lemma {:induction false} GraphScoreOneChange(scores: seq<ParentSetDistribution>, E1: set<Edge>, E2: set<Edge>,
                                               k: nat, v: Node)
    requires k <= |scores| && v < k
    requires forall w | 0 <= w < k && w != v :: Parents(E1, w) == Parents(E2, w)
    requires GraphScore(scores, E1, k).Ok? && Lookup(scores[v], Parents(E2, v)).Ok?
    ensures Lookup(scores[v], Parents(E1, v)).Ok? && GraphScore(scores, E2, k).Ok?
    ensures GraphScore(scores, E2, k).value - GraphScore(scores, E1, k).value
      == Lookup(scores[v], Parents(E2, v)).value - Lookup(scores[v], Parents(E1, v)).value
  {
    GraphScoreLookups(scores, E1, k, v);
    if v == k - 1 {
      GraphScoreSameParents(scores, E1, E2, k - 1);
    } else {
      GraphScoreOneChange(scores, E1, E2, k - 1, v);
      GraphScoreLookups(scores, E1, k, k - 1);
    }
  }

  /** Changing the parents of two variables i and j changes the graph score by the sum
      of the differences of their table entries. */
  lemma GraphScoreTwoChanges(scores: seq<ParentSetDistribution>, E1: set<Edge>, E2: set<Edge>,
                             k: nat, i: Node, j: Node)
    requires k <= |scores| && i < k && j < k && i != j
    requires forall w | 0 <= w < k && w != i && w != j :: Parents(E1, w) == Parents(E2, w)
    requires GraphScore(scores, E1, k).Ok?
    requires Lookup(scores[i], Parents(E2, i)).Ok? && Lookup(scores[j], Parents(E2, j)).Ok?
    ensures Lookup(scores[i], Parents(E1, i)).Ok? && Lookup(scores[j], Parents(E1, j)).Ok?
    ensures GraphScore(scores, E2, k).Ok?
    ensures GraphScore(scores, E2, k).value - GraphScore(scores, E1, k).value
      == (Lookup(scores[i], Parents(E2, i)).value - Lookup(scores[i], Parents(E1, i)).value)
       + (Lookup(scores[j], Parents(E2, j)).value - Lookup(scores[j], Parents(E1, j)).value)
  {
    // The graph half way: i already has its new parents, j still has its old ones.
    var mid := Orphaned(E1, {i}) + Into(Parents(E2, i), i);
    assert Parents(mid, i) == Parents(E2, i);
    assert forall w | w != i :: Parents(mid, w) == Parents(E1, w);
    GraphScoreOneChange(scores, E1, mid, k, i);
    GraphScoreOneChange(scores, mid, E2, k, j);
  }

  // ---------------------------------------------------------------------------
  // Conditioned queries: `sample` and `log_z`

  /** A key passes an absent condition or one that holds of it. */
  predicate Holds(condition: Option<PSet -> bool>, s: PSet)
  {
    condition.None? || condition.value(s)
  }

  /** The items whose key passes the condition, in table order. */
  function Selected(items: seq<Item>, condition: Option<PSet -> bool>): (r: seq<Item>)
    ensures forall x :: x in r <==> x in items && Holds(condition, x.0)
  {
    if items == [] then []
    else
      var rest := Selected(items[1..], condition);
      assert forall x | x in items :: x == items[0] || x in items[1..];
      if Holds(condition, items[0].0) then [items[0]] + rest else rest
  }

  /** Selecting keeps the keys distinct. */
  lemma {:induction false} SelectedDistinct(items: seq<Item>, condition: Option<PSet -> bool>)
    requires DistinctKeys(items)
    ensures DistinctKeys(Selected(items, condition))
  {
    if items != [] {
      assert DistinctKeys(items[1..]);
      SelectedDistinct(items[1..], condition);
      if Holds(condition, items[0].0) {
        var rest := Selected(items[1..], condition);
        assert items[0].0 !in KeySet(rest) by {
          HeadKeyNotInTail(items);
          assert KeySet(rest) <= KeySet(items[1..]);
        }
        DistinctCons(items[0], rest);
      }
    }
  }

  function Scores(items: seq<Item>): (r: seq<real>)
    ensures |r| == |items|
  {
    seq(|items|, k requires 0 <= k < |items| => items[k].1)
  }

  /** No key of the table passes the condition. */
  predicate NoneQualify(items: seq<Item>, condition: Option<PSet -> bool>)
  {
    forall x | x in items :: !Holds(condition, x.0)
  }

  /** `sample(condition)`: a qualifying key and the log-partition of the qualifying keys.
      With exactly one qualifying key that key and its raw score are returned. Otherwise
      the key is drawn by the random source (here the caller's `pick`, taken modulo the
      number of qualifying keys: every qualifying key can be drawn). Fails when no key
      qualifies. */
  function Sample(d: ParentSetDistribution, condition: Option<PSet -> bool>, pick: nat): (r: Result<(PSet, LogZ)>)
    ensures r.Err? <==> NoneQualify(d.items, condition)
    ensures r.Err? ==> r.error == EmptyDistribution
    ensures r.Ok? ==> Holds(condition, r.value.0) && r.value.0 in KeySet(d.items)
    ensures r.Ok? ==> LogPartition(d, condition) == Ok(r.value.1)
  {
    var sel := Selected(d.items, condition);
    if |sel| == 0 then
      assert NoneQualify(d.items, condition) by {
        forall x | x in d.items ensures !Holds(condition, x.0) {
          assert x !in sel;
        }
      }
      Err(EmptyDistribution)
    else
      assert sel[0] in sel;
      if |sel| == 1 then Ok((sel[0].0, Exact(sel[0].1)))
      else
        var x := sel[pick % |sel|];
        assert x in sel;
        Ok((x.0, LogSumExp(Scores(sel))))
  }

  /** `log_z(condition)`, with the evident meaning "every key" when there is no
      condition (see LogPartitionAsWritten for the code as written). */
  function LogPartition(d: ParentSetDistribution, condition: Option<PSet -> bool>): (r: Result<LogZ>)
    ensures r.Err? <==> NoneQualify(d.items, condition)
    ensures r.Err? ==> r.error == EmptyDistribution
    ensures r.Ok? ==> (r.value.Exact? <==> |Selected(d.items, condition)| == 1)
  {
    var sel := Selected(d.items, condition);
    if |sel| == 0 then
      assert NoneQualify(d.items, condition) by {
        forall x | x in d.items ensures !Holds(condition, x.0) {
          assert x !in sel;
        }
      }
      Err(EmptyDistribution)
    else
      assert sel[0] in sel;
      if |sel| == 1 then Ok(Exact(sel[0].1))
      else Ok(LogSumExp(Scores(sel)))
  }

  /** The singleton shortcut: when exactly one key k passes the condition, `sample`
      returns k with its exact table score and `log_z` returns that score. */
  lemma SingletonShortcut(d: ParentSetDistribution, condition: Option<PSet -> bool>, pick: nat, k: PSet)
    requires DistinctKeys(d.items)
    requires k in KeySet(d.items) && Holds(condition, k)
    requires forall x | x in d.items && Holds(condition, x.0) :: x.0 == k
    ensures Lookup(d, k).Ok?
    ensures Sample(d, condition, pick) == Ok((k, Exact(Lookup(d, k).value)))
    ensures LogPartition(d, condition) == Ok(Exact(Lookup(d, k).value))
  {
    var v := Lookup(d, k).value;
    var sel := Selected(d.items, condition);
    assert (k, v) in sel;
    SelectedDistinct(d.items, condition);
    KeyCount(sel);
    assert KeySet(sel) == {k};
    assert sel[0] in sel;
    assert sel == [(k, v)];
  }

  /** Outside the singleton case the log-sum-exp ranges over the scores of the qualifying
      keys in table order: there are at least two, a score enters the sum exactly when
      it is stored under a qualifying key, and, the keys being distinct, there is one
      score per qualifying key, each the lookup of its key. */
  lemma LogSumExpOverQualifying(d: ParentSetDistribution, condition: Option<PSet -> bool>)
    requires LogPartition(d, condition).Ok? && LogPartition(d, condition).value.LogSumExp?
    ensures var ss := LogPartition(d, condition).value.scores;
      |ss| >= 2 && ss == Scores(Selected(d.items, condition))
    ensures var ss := LogPartition(d, condition).value.scores;
      forall x :: x in ss <==> exists k :: (k, x) in d.items && Holds(condition, k)
    ensures var ss := LogPartition(d, condition).value.scores;
      DistinctKeys(d.items) ==>
        && |ss| == |set k | k in KeySet(d.items) && Holds(condition, k)|
        && forall x :: x in ss <==> exists k :: k in KeySet(d.items) && Holds(condition, k) && Lookup(d, k) == Ok(x)
  {
    var sel := Selected(d.items, condition);
    ScoresHas(sel);
    if DistinctKeys(d.items) {
      SelectedDistinct(d.items, condition);
      KeyCount(sel);
      QualifyingKeys(d.items, condition);
      forall k, x ensures Lookup(d, k) == Ok(x) <==> (k, x) in d.items {
        LookupDistinct(d, k, x);
      }
    }
  }

  /** Two different qualifying keys rule the shortcut out: `sample` and `log_z` both answer
      with a log-sum-exp over at least two scores. */
  lemma SeveralQualifyingKeys(d: ParentSetDistribution, condition: Option<PSet -> bool>, pick: nat,
                              k1: PSet, k2: PSet)
    requires k1 != k2
    requires k1 in KeySet(d.items) && Holds(condition, k1)
    requires k2 in KeySet(d.items) && Holds(condition, k2)
    ensures LogPartition(d, condition).Ok? && LogPartition(d, condition).value.LogSumExp?
    ensures |LogPartition(d, condition).value.scores| >= 2
    ensures Sample(d, condition, pick).Ok? && Sample(d, condition, pick).value.1.LogSumExp?
  {
    var sel := Selected(d.items, condition);
    var i1 :| 0 <= i1 < |d.items| && d.items[i1].0 == k1;
    var i2 :| 0 <= i2 < |d.items| && d.items[i2].0 == k2;
    assert d.items[i1] in sel && d.items[i2] in sel;
    var j1 :| 0 <= j1 < |sel| && sel[j1] == d.items[i1];
    var j2 :| 0 <= j2 < |sel| && sel[j2] == d.items[i2];
    assert j1 != j2;
  }

  /** A score is listed exactly when some key stores it. */
  lemma ScoresHas(items: seq<Item>)
    ensures forall x :: x in Scores(items) <==> exists k :: (k, x) in items
  {
    forall x ensures x in Scores(items) <==> exists k :: (k, x) in items {
      if x in Scores(items) {
        var i :| 0 <= i < |items| && Scores(items)[i] == x;
        assert items[i] == (items[i].0, x);
      }
      if exists k :: (k, x) in items {
        var k :| (k, x) in items;
        var i :| 0 <= i < |items| && items[i] == (k, x);
        assert Scores(items)[i] == x;
      }
    }
  }

  /** Distinct keys: one key per item. */
  lemma {:induction false} KeyCount(items: seq<Item>)
    requires DistinctKeys(items)
    ensures |KeySet(items)| == |items|
  {
    if items != [] {
      assert KeySet(items) == {items[0].0} + KeySet(items[1..]) by {
        assert forall x | x in items :: x == items[0] || x in items[1..];
      }
      HeadKeyNotInTail(items);
      assert DistinctKeys(items[1..]) by {
        forall a, b | 0 <= a < b < |items| - 1 ensures items[1..][a].0 != items[1..][b].0 {
          assert items[1..][a] == items[a + 1] && items[1..][b] == items[b + 1];
        }
      }
      KeyCount(items[1..]);
    }
  }

  /** The keys of the selected items are the qualifying keys. */
  lemma QualifyingKeys(items: seq<Item>, condition: Option<PSet -> bool>)
    ensures KeySet(Selected(items, condition)) == set k | k in KeySet(items) && Holds(condition, k)
  {
    var sel := Selected(items, condition);
    forall k | k in KeySet(items) && Holds(condition, k) ensures k in KeySet(sel) {
      var x :| x in items && x.0 == k;
      assert x in sel;
    }
  }

  /** With distinct keys a lookup finds exactly the stored score. */
  lemma LookupDistinct(d: ParentSetDistribution, k: PSet, x: real)
    requires DistinctKeys(d.items)
    ensures Lookup(d, k) == Ok(x) <==> (k, x) in d.items
  {
    if (k, x) in d.items {
      FindDistinct(d.items, k, x);
    }
  }

  // ---------------------------------------------------------------------------
  // `get_parent_set_distributions`

  /** The `variables` argument: a count, a list of names, or anything else. */
  datatype Variables = Count(count: int) | Names(names: seq<string>) | Unsupported

  /** The number of variables, or a ValueError. A negative count gives `range` nothing. */
  function VariableCount(variables: Variables): (r: Result<nat>)
    ensures r.Err? <==> variables.Unsupported?
  {
    match variables
    case Count(c) => Ok(if c < 0 then 0 else c)
    case Names(names) => Ok(|names|)
    case Unsupported => Err(BadVariables)
  }

  predicate Admits(condition: Option<(Node, PSet) -> bool>, v: Node, s: PSet)
  {
    condition.None? || condition.value(v, s)
  }

  /** The candidate parent sets of v: those of `sets` without v that pass the condition,
      in the order of `sets`. */
  function Candidates(v: Node, sets: seq<PSet>, condition: Option<(Node, PSet) -> bool>): (r: seq<PSet>)
    ensures forall s :: s in r <==> s in sets && v !in s && Admits(condition, v, s)
  {
    if sets == [] then []
    else
      var rest := Candidates(v, sets[1..], condition);
      assert forall s | s in sets :: s == sets[0] || s in sets[1..];
      if v !in sets[0] && Admits(condition, v, sets[0]) then [sets[0]] + rest else rest
  }

  function ScoresFor(v: Node, psets: seq<PSet>, scoreFn: (Node, PSet) -> real): (r: seq<real>)
    ensures |r| == |psets|
  {
    seq(|psets|, k requires 0 <= k < |psets| => scoreFn(v, psets[k]))
  }

  /** The table of variable v: `ParentSetDistribution(var, var_psets, scores)`. */
  function TableFor(v: Node, sets: seq<PSet>, scoreFn: (Node, PSet) -> real,
                    condition: Option<(Node, PSet) -> bool>): (r: Result<ParentSetDistribution>)
    ensures r.Err? <==> Candidates(v, sets, condition) == []
    ensures r.Err? ==> r.error == NoParentSets
  {
    var psets := Candidates(v, sets, condition);
    Build(v, psets, ScoresFor(v, psets, scoreFn))
  }

  /** Variable v's table belongs to v, and its keys are exactly the sets of `sets` that
      exclude v and pass the condition. */
  lemma TableForKeys(v: Node, sets: seq<PSet>, scoreFn: (Node, PSet) -> real,
                     condition: Option<(Node, PSet) -> bool>, d: ParentSetDistribution)
    requires TableFor(v, sets, scoreFn, condition) == Ok(d)
    ensures d.variable == v && DistinctKeys(d.items)
    ensures forall k :: k in KeySet(d.items) <==> k in sets && v !in k && Admits(condition, v, k)
  {
    var psets := Candidates(v, sets, condition);
    BuildKeys(v, psets, ScoresFor(v, psets, scoreFn));
  }

  /** Each key k of variable v's table is scored `score_fn((v, k))`. */
  lemma TableForScores(v: Node, sets: seq<PSet>, scoreFn: (Node, PSet) -> real,
                       condition: Option<(Node, PSet) -> bool>, d: ParentSetDistribution)
    requires TableFor(v, sets, scoreFn, condition) == Ok(d)
    ensures forall k | k in KeySet(d.items) :: Lookup(d, k) == Ok(scoreFn(v, k))
  {
    var psets := Candidates(v, sets, condition);
    var pairs := Zip(psets, ScoresFor(v, psets, scoreFn));
    assert d.items == FromPairs(pairs);
    forall k | k in KeySet(d.items) ensures Lookup(d, k) == Ok(scoreFn(v, k)) {
      var x := Lookup(d, k).value;
      assert (k, x) in pairs;
      var i :| 0 <= i < |pairs| && pairs[i] == (k, x);
      assert pairs[i] == (psets[i], scoreFn(v, psets[i]));
    }
  }

  /** Building every table fails exactly when some variable is left without candidates. */
  predicate SomeTableFails(count: nat, sets: seq<PSet>, condition: Option<(Node, PSet) -> bool>)
  {
    exists v :: 0 <= v < count && Candidates(v, sets, condition) == []
  }

  /** `[f(0), ..., f(count - 1)]` built in index order, stopping at the first error. */
  function Collect<T>(count: nat, f: nat -> Result<T>): Result<seq<T>>
  {
    if count == 0 then Ok([])
    else
      match Collect(count - 1, f)
      case Err(e) => Err(e)
      case Ok(xs) =>
        match f(count - 1)
        case Err(e) => Err(e)
        case Ok(x) => Ok(xs + [x])
  }

  /** Collecting succeeds with f(v) at index v when every f(v) does, and otherwise fails
      with the error of the first v whose f(v) fails. */
  lemma {:induction false} CollectSpec<T>(count: nat, f: nat -> Result<T>)
    ensures Collect(count, f).Ok? ==>
      |Collect(count, f).value| == count &&
      forall v | 0 <= v < count :: f(v) == Ok(Collect(count, f).value[v])
    ensures Collect(count, f).Err? ==>
      exists v :: 0 <= v < count && f(v) == Err(Collect(count, f).error) &&
        forall w | 0 <= w < v :: f(w).Ok?
  {
    if count > 0 {
      CollectSpec(count - 1, f);
      match Collect(count - 1, f)
      case Err(e) =>
      case Ok(xs) =>
        match f(count - 1)
        case Err(e) =>
          assert forall w | 0 <= w < count - 1 :: f(w) == Ok(xs[w]);
        case Ok(x) =>
          var ys := xs + [x];
          forall v | 0 <= v < count ensures f(v) == Ok(ys[v]) {
            if v < count - 1 {
              assert ys[v] == xs[v];
            }
          }
    }
  }

  /** Once f fails below k, collecting any longer prefix gives the same error. */
  lemma {:induction false} CollectFailurePersists<T>(k: nat, count: nat, f: nat -> Result<T>)
    requires k <= count && Collect(k, f).Err?
    ensures Collect(count, f) == Collect(k, f)
    decreases count
  {
    if count > k {
      CollectFailurePersists(k, count - 1, f);
    }
  }

  /** Variable v's table, as a function of v. */
  function TableOf(sets: seq<PSet>, scoreFn: (Node, PSet) -> real,
                   condition: Option<(Node, PSet) -> bool>): nat -> Result<ParentSetDistribution>
  {
    (v: nat) => TableFor(v, sets, scoreFn, condition)
  }

  /** Building the tables of variables 0 .. count - 1 fails, with an IndexError, exactly
      when some variable has no candidates, and otherwise gives variable v's table at
      index v. */
  lemma TablesSpec(count: nat, sets: seq<PSet>, scoreFn: (Node, PSet) -> real,
                   condition: Option<(Node, PSet) -> bool>)
    ensures Collect(count, TableOf(sets, scoreFn, condition)).Err? <==> SomeTableFails(count, sets, condition)
    ensures Collect(count, TableOf(sets, scoreFn, condition)).Err? ==>
      Collect(count, TableOf(sets, scoreFn, condition)).error == NoParentSets
    ensures Collect(count, TableOf(sets, scoreFn, condition)).Ok? ==>
      var ds := Collect(count, TableOf(sets, scoreFn, condition)).value;
      |ds| == count && forall v | 0 <= v < count :: TableFor(v, sets, scoreFn, condition) == Ok(ds[v])
  {
    var f := TableOf(sets, scoreFn, condition);
    CollectSpec(count, f);
    if Collect(count, f).Ok? {
      forall v | 0 <= v < count ensures Candidates(v, sets, condition) != [] {
        assert f(v).Ok?;
      }
    } else {
      var v :| 0 <= v < count && f(v) == Err(Collect(count, f).error);
      assert Candidates(v, sets, condition) == [];
    }
  }

  /** `get_parent_set_distributions(variables, fan_in, score_fn, condition)`, given the
      candidate sets `power_set(range(n), fan_in)` as `sets`: one table per variable, in
      index order, or the IndexError of the first variable without candidates. */
  method GetParentSetDistributions(variables: Variables, sets: seq<PSet>,
                                   scoreFn: (Node, PSet) -> real,
                                   condition: Option<(Node, PSet) -> bool>)
    returns (r: Result<seq<ParentSetDistribution>>)
    ensures variables.Unsupported? ==> r == Err(BadVariables)
    ensures VariableCount(variables).Ok? ==>
      r == Collect(VariableCount(variables).value, TableOf(sets, scoreFn, condition))
  {
    var n := VariableCount(variables);
    if n.Err? {
      return Err(n.error);
    }
    r := CollectInOrder(n.value, TableOf(sets, scoreFn, condition));
  }

  /** The loop of `get_parent_set_distributions`: append f(0), f(1), ... in turn, and
      return the first error raised. */
  method CollectInOrder<T>(count: nat, f: nat -> Result<T>) returns (r: Result<seq<T>>)
    ensures r == Collect(count, f)
  {
    var xs: seq<T> := [];
    var v := 0;
    while v < count
      invariant 0 <= v <= count
      invariant Collect(v, f) == Ok(xs)
    {
      var x := f(v);
      if x.Err? {
        CollectFailurePersists(v + 1, count, f);
        return Err(x.error);
      }
      xs := xs + [x.value];
      v := v + 1;
    }
    r := Ok(xs);
  }

  /** The tables fit a graph of n nodes: one per node, and every key of node v's table is
      a set of nodes 0 .. n-1 without v. */
  predicate TablesFit(n: nat, scores: seq<ParentSetDistribution>)
  {
    && |scores| == n
    && forall v, k | 0 <= v < n && k in KeySet(scores[v].items) :: v !in k && forall p | p in k :: p < n
  }

  /** No key of any table has more than fanIn members. */
  predicate KeysWithin(scores: seq<ParentSetDistribution>, fanIn: int)
  {
    forall v, k | 0 <= v < |scores| && k in KeySet(scores[v].items) :: |k| <= fanIn
  }

  /** Tables built from candidate sets of nodes 0 .. n-1 with at most fanIn members (what
      `power_set(range(n), fan_in)` yields) fit the graph, and their keys respect the fan-in. */
  lemma CollectedTablesFit(n: nat, sets: seq<PSet>, scoreFn: (Node, PSet) -> real,
                           condition: Option<(Node, PSet) -> bool>, fanIn: int)
    requires forall s, p | s in sets && p in s :: p < n
    requires forall s | s in sets :: |s| <= fanIn
    requires Collect(n, TableOf(sets, scoreFn, condition)).Ok?
    ensures TablesFit(n, Collect(n, TableOf(sets, scoreFn, condition)).value)
    ensures KeysWithin(Collect(n, TableOf(sets, scoreFn, condition)).value, fanIn)
  {
    var ds := Collect(n, TableOf(sets, scoreFn, condition)).value;
    TablesSpec(n, sets, scoreFn, condition);
    forall v | 0 <= v < n
      ensures forall k | k in KeySet(ds[v].items) :: k in sets && v !in k
    {
      TableForKeys(v, sets, scoreFn, condition, ds[v]);
    }
  }

  // ---------------------------------------------------------------------------
  // Complete tables

  /** Every table holds as a key each set of at most fanIn other nodes: the tables built
      from the whole power set with no condition. */
  ghost predicate Complete(n: nat, scores: seq<ParentSetDistribution>, fanIn: int)
  {
    && |scores| == n
    && forall v, k | 0 <= v < n && v !in k && (forall p | p in k :: p < n) && |k| <= fanIn
         :: k in KeySet(scores[v].items)
  }

  /** A complete table holds each small enough set of other nodes. */
  lemma CompleteHas(n: nat, scores: seq<ParentSetDistribution>, fanIn: int, v: Node, k: PSet)
    requires Complete(n, scores, fanIn)
    requires v < n && v !in k && (forall p | p in k :: p < n) && |k| <= fanIn
    ensures k in KeySet(scores[v].items)
  {
  }

  /** In a DAG within the fan-in, a complete table holds the node's own parent set. */
  lemma OwnParentSetKnown(n: nat, E: set<Edge>, v: Node, scores: seq<ParentSetDistribution>, fanIn: int)
    requires InRange(n, E) && Acyclic(E) && v < n
    requires Complete(n, scores, fanIn) && !ExceedsFanIn(n, E, fanIn)
    ensures Parents(E, v) in KeySet(scores[v].items)
  {
    if v in Parents(E, v) {
      AcyclicNoSelfLoop(E, v, v);
    }
    assert InDegree(E, v) <= fanIn;
    CompleteHas(n, scores, fanIn, v, Parents(E, v));
  }

  /** The tables `get_parent_set_distributions` builds with no condition from candidate
      sets that hold every set of at most fanIn nodes 0 .. n-1 (the whole truncated power
      set): with fanIn >= 0 no variable is left without candidates, since {} is one, and
      every table is complete. */
  lemma CollectedTablesComplete(n: nat, sets: seq<PSet>, scoreFn: (Node, PSet) -> real, fanIn: int)
    requires forall s: PSet | (forall p | p in s :: p < n) && |s| <= fanIn :: s in sets
    ensures fanIn >= 0 ==> Collect(n, TableOf(sets, scoreFn, None)).Ok?
    ensures Collect(n, TableOf(sets, scoreFn, None)).Ok? ==>
      Complete(n, Collect(n, TableOf(sets, scoreFn, None)).value, fanIn)
  {
    TablesSpec(n, sets, scoreFn, None);
    if fanIn >= 0 {
      var empty: PSet := {};
      assert empty in sets;
      forall v | 0 <= v < n ensures Candidates(v, sets, None) != [] {
        assert empty in Candidates(v, sets, None);
      }
    }
    if Collect(n, TableOf(sets, scoreFn, None)).Ok? {
      var ds := Collect(n, TableOf(sets, scoreFn, None)).value;
      forall v, k | 0 <= v < n && v !in k && (forall p | p in k :: p < n) && |k| <= fanIn
        ensures k in KeySet(ds[v].items)
      {
        TableForKeys(v, sets, scoreFn, None, ds[v]);
      }
    }
  }

  // ---------------------------------------------------------------------------
  // The unconditioned queries as written

  /** `log_z()` as written: with no condition it wraps `table.values()` in a 0-d array,
      whose `len()` raises TypeError; with a condition it is LogPartition. */
  function LogPartitionAsWritten(d: ParentSetDistribution, condition: Option<PSet -> bool>): (r: Result<LogZ>)
    ensures condition.None? ==> r == Err(UnconditionedLogZ)
    ensures condition.Some? ==> r == LogPartition(d, condition)
  {
    if condition.None? then Err(UnconditionedLogZ) else LogPartition(d, condition)
  }

  /** The number of tuples `zip(*table)` yields when `sample()` has no condition: the
      star unpacks the table's keys, so zip runs over the elements of the parent sets and
      stops at the smallest one. */
  function UnconditionedRows(keys: seq<PSet>): (r: nat)
    ensures keys == [] ==> r == 0
    ensures forall k | k in keys :: r <= |k|
    ensures keys != [] ==> exists k | k in keys :: r == |k|
  {
    if keys == [] then 0
    else if |keys| == 1 then |keys[0]|
    else
      var rest := UnconditionedRows(keys[1..]);
      assert forall k | k in keys :: k == keys[0] || k in keys[1..];
      if |keys[0]| <= rest then |keys[0]| else rest
  }

  function KeysOf(items: seq<Item>): (r: seq<PSet>)
    ensures forall k :: k in r <==> k in KeySet(items)
  {
    if items == [] then []
    else
      assert KeySet(items) == {items[0].0} + KeySet(items[1..]);
      [items[0].0] + KeysOf(items[1..])
  }

  /** `p_sets, prob = list(zip(*table))` needs exactly two tuples. Every table built from a
      power set has the empty parent set, so the unconditioned `sample()` always fails
      there, while the intended query succeeds on every non-empty table. */
  lemma UnconditionedSampleFails(d: ParentSetDistribution, pick: nat)
    requires {} in KeySet(d.items)
    ensures UnconditionedRows(KeysOf(d.items)) != 2
    ensures Sample(d, None, pick).Ok?
  {
    var x :| x in d.items && x.0 == {};
    assert Holds(None, x.0);
  }

  /** A two-entry table: {} and {1}. The unconditioned `sample()` unpacks no tuple and
      `log_z()` raises, while the intended queries range over both keys. */
  lemma UnconditionedQueriesExample()
    ensures var d := ParentSetDistribution(0, [({}, 0.0), ({1}, 1.0)]);
      && UnconditionedRows(KeysOf(d.items)) == 0
      && LogPartitionAsWritten(d, None) == Err(UnconditionedLogZ)
      && LogPartition(d, None) == Ok(LogSumExp([0.0, 1.0]))
  {
    var d := ParentSetDistribution(0, [({}, 0.0), ({1}, 1.0)]);
    assert KeysOf(d.items)[0] == {};
    assert Selected(d.items, None) == d.items;
    assert Scores(d.items) == [0.0, 1.0];
  }
}
