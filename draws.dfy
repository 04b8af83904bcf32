/** The random draws the proposals make, with the randomness supplied by the caller.
    A categorical draw `rng.choice(k, p=p)` takes a uniform number u in [0, 1) and returns
    the first index whose cumulative probability exceeds u, as numpy does; numpy refuses
    a probability vector with a negative or undefined entry or one that does not sum to 1. */
module Draws {
  import opened Outcomes

  function Sum(p: seq<real>): real
  {
    if p == [] then 0.0 else p[0] + Sum(p[1..])
  }

  predicate NonNegative(p: seq<real>)
  {
    forall k | 0 <= k < |p| :: p[k] >= 0.0
  }

  /** The first index k with p[0] + ... + p[k] > u (`cdf.searchsorted(u, side='right')`). */
  function FirstAbove(p: seq<real>, u: real): (r: nat)
    ensures NonNegative(p) && 0.0 <= u < Sum(p) ==> r < |p| && p[r] > 0.0
  {
    if p == [] || p[0] > u then 0
    else
      assert NonNegative(p) ==> NonNegative(p[1..]);
      1 + FirstAbove(p[1..], u - p[0])
  }

  /** `rng.choice(len(p), p=p)` driven by the uniform number u. The drawn index always
      has positive probability. */
  function Categorical(p: seq<real>, u: real): (r: Result<nat>)
    requires 0.0 <= u < 1.0
    ensures r.Ok? <==> NonNegative(p) && Sum(p) == 1.0
    ensures r.Err? ==> r.error == InvalidProbabilities
    ensures r.Ok? ==> r.value < |p| && p[r.value] > 0.0
  {
    if !NonNegative(p) || Sum(p) != 1.0 then Err(InvalidProbabilities)
    else Ok(FirstAbove(p, u))
  }

  /** `p / total`, element by element. */
  function Normalise(w: seq<real>, total: real): (r: seq<real>)
    requires total != 0.0
    ensures |r| == |w|
  {
    seq(|w|, k requires 0 <= k < |w| => w[k] / total)
  }

  /** Scaling every entry scales the sum. */
  lemma {:induction false} SumNormalise(w: seq<real>, total: real)
    requires total != 0.0
    ensures Sum(Normalise(w, total)) == Sum(w) / total
  {
    if w != [] {
      SumNormalise(w[1..], total);
      assert Normalise(w, total)[1..] == Normalise(w[1..], total);
    }
  }

  /** Dividing non-negative weights by their positive total gives a probability vector
      numpy accepts. */
  lemma NormaliseIsDistribution(w: seq<real>)
    requires NonNegative(w) && Sum(w) > 0.0
    ensures NonNegative(Normalise(w, Sum(w)))
    ensures Sum(Normalise(w, Sum(w))) == 1.0
  {
    var t := Sum(w);
    SumNormalise(w, t);
    SelfQuotient(t);
    forall k | 0 <= k < |w| ensures Normalise(w, t)[k] >= 0.0 {
      QuotientNonNegative(w[k], t);
    }
  }

  /** Kept apart from their caller, whose sequence facts swamp the solver's real
      division. */
  lemma SelfQuotient(t: real)
    requires t > 0.0
    ensures t / t == 1.0
  {
  }

  lemma QuotientNonNegative(a: real, t: real)
    requires a >= 0.0 && t > 0.0
    ensures a / t >= 0.0
  {
  }
}
