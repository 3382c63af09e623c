/**
 How often the likelihood ratio of the consistency test reaches 1 / alpha when the null
 is true (artifacts/execution/2026-09-10-consistency-arithmetic.py, the exhaustive
 enumeration). The script adds up 256 histories for one pair of odds; here the horizon is
 arbitrary and the odds of each step may depend on the history before it.
 */
module NullCrossing {
  import opened Powers

  // Null and alternative probability of the event at one step.
  datatype Odds = Odds(p: real, q: real)

  type Plan = seq<bool> -> Odds

  ghost predicate ProperPlan(plan: Plan) {
    forall h: seq<bool> :: 0.0 < plan(h).p < 1.0 && 0.0 < plan(h).q < 1.0
  }

  function StepProbability(o: Odds, event: bool): real {
    if event then o.p else 1.0 - o.p
  }

  function StepFactor(o: Odds, event: bool): real
    requires 0.0 < o.p < 1.0
  {
    if event then o.q / o.p else (1.0 - o.q) / (1.0 - o.p)
  }

  // Null probability, likelihood ratio and first-passage flag of a history.
  ghost function Probability(plan: Plan, h: seq<bool>): real {
    if h == [] then 1.0
    else Probability(plan, h[..|h| - 1]) * StepProbability(plan(h[..|h| - 1]), h[|h| - 1])
  }

  ghost function Ratio(plan: Plan, h: seq<bool>): real
    requires ProperPlan(plan)
  {
    if h == [] then 1.0
    else Ratio(plan, h[..|h| - 1]) * StepFactor(plan(h[..|h| - 1]), h[|h| - 1])
  }

  ghost predicate Crossed(plan: Plan, h: seq<bool>, alpha: real)
    requires ProperPlan(plan) && alpha > 0.0
  {
    h != [] && (Crossed(plan, h[..|h| - 1], alpha) || Ratio(plan, h) >= 1.0 / alpha)
  }

  // Spent once crossed, and alpha times the ratio until then.
  ghost function Stake(plan: Plan, h: seq<bool>, alpha: real): real
    requires ProperPlan(plan) && alpha > 0.0
  {
    if Crossed(plan, h, alpha) then 1.0 else Ratio(plan, h) * alpha
  }

  lemma {:induction false} Positive(plan: Plan, h: seq<bool>)
    requires ProperPlan(plan)
    ensures Probability(plan, h) > 0.0 && Ratio(plan, h) > 0.0
    decreases |h|
  {
    if h == [] {
    } else {
      var front, o := h[..|h| - 1], plan(h[..|h| - 1]);
      Positive(plan, front);
      FactorIsPositive(o, h[|h| - 1]);
      ProductIsPositive(Probability(plan, front), StepProbability(o, h[|h| - 1]));
      ProductIsPositive(Ratio(plan, front), StepFactor(o, h[|h| - 1]));
    }
  }

  lemma FactorIsPositive(o: Odds, event: bool)
    requires 0.0 < o.p < 1.0 && 0.0 < o.q < 1.0
    ensures StepProbability(o, event) > 0.0 && StepFactor(o, event) > 0.0
  {
    QuotientIsPositive(o.q, o.p);
    QuotientIsPositive(1.0 - o.q, 1.0 - o.p);
  }

  lemma QuotientIsPositive(a: real, b: real)
    requires a > 0.0 && b > 0.0
    ensures a / b > 0.0
  {
    assert a / b * b == a;
  }

  lemma ProductIsPositive(a: real, b: real)
    requires a > 0.0 && b > 0.0
    ensures a * b > 0.0
  {
  }

  lemma Continues(plan: Plan, h: seq<bool>, event: bool, alpha: real)
    requires ProperPlan(plan) && alpha > 0.0
    ensures Probability(plan, h + [event]) == Probability(plan, h) * StepProbability(plan(h), event)
    ensures Ratio(plan, h + [event]) == Ratio(plan, h) * StepFactor(plan(h), event)
    ensures Crossed(plan, h + [event], alpha) <==> Crossed(plan, h, alpha) || Ratio(plan, h + [event]) >= 1.0 / alpha
  {
    var next := h + [event];
    assert next[..|next| - 1] == h;
  }

  // The stake of a continuation is at most alpha times its ratio, unless already spent.
  lemma StakeBound(plan: Plan, h: seq<bool>, event: bool, alpha: real)
    requires ProperPlan(plan) && alpha > 0.0
    ensures Crossed(plan, h, alpha) ==> Stake(plan, h + [event], alpha) == 1.0
    ensures !Crossed(plan, h, alpha) ==>
      Stake(plan, h + [event], alpha) <= Ratio(plan, h) * StepFactor(plan(h), event) * alpha
  {
    hide Ratio, Crossed, StepFactor, Probability, Stake;
    Continues(plan, h, event, alpha);
    StakeCases(plan, h, h + [event], StepFactor(plan(h), event), alpha);
  }

  // Not crossed, just crossed, or crossed before.
  lemma StakeCases(plan: Plan, h: seq<bool>, next: seq<bool>, factor: real, alpha: real)
    requires ProperPlan(plan) && alpha > 0.0
    requires Ratio(plan, next) == Ratio(plan, h) * factor
    requires Crossed(plan, next, alpha) <==> Crossed(plan, h, alpha) || Ratio(plan, next) >= 1.0 / alpha
    ensures Crossed(plan, h, alpha) ==> Stake(plan, next, alpha) == 1.0
    ensures !Crossed(plan, h, alpha) ==> Stake(plan, next, alpha) <= Ratio(plan, h) * factor * alpha
  {
    hide Ratio, Crossed, StepFactor;
    if !Crossed(plan, h, alpha) && Crossed(plan, next, alpha) {
      Reciprocal(Ratio(plan, next), alpha);
    }
  }

  lemma Reciprocal(e: real, alpha: real)
    requires alpha > 0.0
    ensures e >= 1.0 / alpha ==> e * alpha >= 1.0
  {
    assert 1.0 / alpha * alpha == 1.0;
  }

  // One fair step under the null never raises the expected stake.
  lemma StakeIsSupermartingale(plan: Plan, h: seq<bool>, alpha: real)
    requires ProperPlan(plan) && alpha > 0.0
    ensures Probability(plan, h + [false]) * Stake(plan, h + [false], alpha)
      + Probability(plan, h + [true]) * Stake(plan, h + [true], alpha)
      <= Probability(plan, h) * Stake(plan, h, alpha)
  {
    hide Probability, Ratio, Crossed, StepFactor, Stake;
    Positive(plan, h);
    Continues(plan, h, false, alpha);
    Continues(plan, h, true, alpha);
    StakeBound(plan, h, false, alpha);
    StakeBound(plan, h, true, alpha);
    StakeNow(plan, h, alpha);
    var no, yes := Stake(plan, h + [false], alpha), Stake(plan, h + [true], alpha);
    if Crossed(plan, h, alpha) {
      Whole(Probability(plan, h), plan(h).p);
    } else {
      Split(Probability(plan, h), plan(h), Ratio(plan, h), alpha, no, yes);
    }
  }

  lemma StakeNow(plan: Plan, h: seq<bool>, alpha: real)
    requires ProperPlan(plan) && alpha > 0.0
    ensures Stake(plan, h, alpha) == if Crossed(plan, h, alpha) then 1.0 else Ratio(plan, h) * alpha
  {
  }

  lemma Whole(w: real, p: real)
    ensures w * (1.0 - p) * 1.0 + w * p * 1.0 == w * 1.0
  {
  }

  lemma Split(w: real, o: Odds, e: real, alpha: real, no: real, yes: real)
    requires w > 0.0 && 0.0 < o.p < 1.0
    requires no <= e * StepFactor(o, false) * alpha
    requires yes <= e * StepFactor(o, true) * alpha
    ensures w * (1.0 - o.p) * no + w * o.p * yes <= w * (e * alpha)
  {
    var p, r := o.p, 1.0 - o.p;
    Weigh(w, r, no, e, (1.0 - o.q) / r, alpha, 1.0 - o.q);
    Weigh(w, p, yes, e, o.q / p, alpha, o.q);
    assert w * (e * alpha) * (1.0 - o.q) + w * (e * alpha) * o.q == w * (e * alpha);
  }

  lemma Weigh(w: real, p: real, x: real, e: real, f: real, alpha: real, q: real)
    requires w > 0.0 && p > 0.0 && x <= e * f * alpha && f * p == q
    ensures w * p * x <= w * (e * alpha) * q
  {
    ProductIsPositive(w, p);
    assert w * p * x <= w * p * (e * f * alpha);
    assert w * p * (e * f * alpha) == w * (e * alpha) * (f * p);
  }

  // ---- the enumeration ------------------------------------------------------------------------

  // mask & (1 << i)
  predicate Bit(mask: nat, i: nat)
    decreases i
  {
    if i == 0 then mask % 2 == 1 else Bit(mask / 2, i - 1)
  }

  function History(mask: nat, n: nat): seq<bool> {
    seq(n, i requires 0 <= i => Bit(mask, i))
  }

  lemma {:induction false} BitOfSum(mask: nat, n: nat, i: nat)
    requires mask < Pow2(n) && i <= n
    ensures !Bit(mask, n)
    ensures Bit(mask + Pow2(n), i) == (if i == n then true else Bit(mask, i))
    decreases n
  {
    if n == 0 {
    } else {
      assert (mask + Pow2(n)) / 2 == mask / 2 + Pow2(n - 1);
      if i > 0 {
        BitOfSum(mask / 2, n - 1, i - 1);
      } else {
        BitOfSum(mask / 2, n - 1, 0);
      }
    }
  }

  // The two one-step continuations of a history are two masks.
  lemma HistoriesPair(mask: nat, n: nat)
    requires mask < Pow2(n)
    ensures History(mask, n + 1) == History(mask, n) + [false]
    ensures History(mask + Pow2(n), n + 1) == History(mask, n) + [true]
  {
    hide Bit, Pow2;
    BitOfSum(mask, n, n);
    forall i | 0 <= i < n ensures History(mask + Pow2(n), n + 1)[i] == History(mask, n)[i] {
      BitOfSum(mask, n, i);
    }
    assert History(mask + Pow2(n), n + 1) == History(mask, n) + [true];
  }

  // Expected stake over the first `count` histories of length n.
  ghost function StakeSum(plan: Plan, n: nat, count: nat, alpha: real): real
    requires ProperPlan(plan) && alpha > 0.0
  {
    if count == 0 then 0.0
    else
      StakeSum(plan, n, count - 1, alpha)
      + Probability(plan, History(count - 1, n)) * Stake(plan, History(count - 1, n), alpha)
  }

  // Null probability of the crossed ones among them.
  ghost function CrossingSum(plan: Plan, n: nat, count: nat, alpha: real): real
    requires ProperPlan(plan) && alpha > 0.0
  {
    if count == 0 then 0.0
    else
      CrossingSum(plan, n, count - 1, alpha)
      + (if Crossed(plan, History(count - 1, n), alpha) then Probability(plan, History(count - 1, n)) else 0.0)
  }

  lemma {:induction false} CrossingWithinStake(plan: Plan, n: nat, count: nat, alpha: real)
    requires ProperPlan(plan) && alpha > 0.0
    ensures CrossingSum(plan, n, count, alpha) <= StakeSum(plan, n, count, alpha)
    decreases count
  {
    hide Probability, Ratio, Crossed, History;
    if count == 0 {
    } else {
      var h := History(count - 1, n);
      Positive(plan, h);
      ProductIsPositive(Ratio(plan, h), alpha);
      ProductIsPositive(Probability(plan, h), Stake(plan, h, alpha));
      CrossingWithinStake(plan, n, count - 1, alpha);
    }
  }

  // Both continuations of the first m histories together stake no more than those.
  lemma {:induction false} StakeFalls(plan: Plan, n: nat, m: nat, alpha: real)
    requires ProperPlan(plan) && alpha > 0.0 && m <= Pow2(n)
    ensures StakeSum(plan, n + 1, m, alpha)
      + StakeSum(plan, n + 1, Pow2(n) + m, alpha) - StakeSum(plan, n + 1, Pow2(n), alpha)
      <= StakeSum(plan, n, m, alpha)
    decreases m
  {
    hide Probability, Stake, History, Pow2;
    if m == 0 {
    } else {
      StakeFalls(plan, n, m - 1, alpha);
      HistoriesPair(m - 1, n);
      StakeIsSupermartingale(plan, History(m - 1, n), alpha);
      assert Pow2(n) + m - 1 == m - 1 + Pow2(n);
    }
  }

  lemma {:induction false} StakeNeverExceedsAlpha(plan: Plan, n: nat, alpha: real)
    requires ProperPlan(plan) && alpha > 0.0
    ensures StakeSum(plan, n, Pow2(n), alpha) <= alpha
    decreases n
  {
    hide Probability, Stake, History, Pow2, StakeSum;
    if n == 0 {
      StartingStake(plan, alpha);
    } else {
      StakeNeverExceedsAlpha(plan, n - 1, alpha);
      StakeFalls(plan, n - 1, Pow2(n - 1), alpha);
      Doubling(n - 1);
    }
  }

  lemma StartingStake(plan: Plan, alpha: real)
    requires ProperPlan(plan) && alpha > 0.0
    ensures StakeSum(plan, 0, Pow2(0), alpha) == alpha
  {
    Pow2Zero();
    assert History(0, 0) == [];
    assert StakeSum(plan, 0, 1, alpha) == 0.0 + 1.0 * (1.0 * alpha);
  }

  // Ville's inequality for this test: under the null the ratio reaches 1 / alpha at any
  // time up to any horizon with probability at most alpha, however the odds are chosen.
  lemma CrossingIsRare(plan: Plan, n: nat, alpha: real)
    requires ProperPlan(plan) && alpha > 0.0
    ensures CrossingSum(plan, n, Pow2(n), alpha) <= alpha
  {
    hide Pow2, StakeSum, CrossingSum;
    CrossingWithinStake(plan, n, Pow2(n), alpha);
    StakeNeverExceedsAlpha(plan, n, alpha);
  }

  // The script's loop over all masks, for any horizon, plan and alpha.
  method Enumerate(plan: Plan, n: nat, alpha: real) returns (total: real)
    requires ProperPlan(plan) && alpha > 0.0
    ensures total == CrossingSum(plan, n, Pow2(n), alpha) <= alpha
  {
    hide Probability, Ratio, Crossed, Pow2, StepProbability, StepFactor;
    total := 0.0;
    for mask := 0 to Pow2(n)
      invariant total == CrossingSum(plan, n, mask, alpha)
    {
      var probability, crossed := Walk(plan, History(mask, n), alpha);
      if crossed {
        total := total + probability;
      }
    }
    CrossingIsRare(plan, n, alpha);
  }

  method Walk(plan: Plan, h: seq<bool>, alpha: real) returns (probability: real, crossed: bool)
    requires ProperPlan(plan) && alpha > 0.0
    ensures probability == Probability(plan, h) && crossed == Crossed(plan, h, alpha)
  {
    hide Probability, Ratio, Crossed, StepProbability, StepFactor;
    probability, crossed := 1.0, false;
    var e := 1.0;
    Begins(plan, h, alpha);
    for i := 0 to |h|
      invariant probability == Probability(plan, h[..i]) && e == Ratio(plan, h[..i])
      invariant crossed == Crossed(plan, h[..i], alpha)
    {
      var o := plan(h[..i]);
      Continues(plan, h[..i], h[i], alpha);
      assert h[..i] + [h[i]] == h[..i + 1];
      probability := probability * StepProbability(o, h[i]);
      e := e * StepFactor(o, h[i]);
      crossed := crossed || e >= 1.0 / alpha;
    }
    assert h[..|h|] == h;
  }

  lemma Begins(plan: Plan, h: seq<bool>, alpha: real)
    requires ProperPlan(plan) && alpha > 0.0
    ensures Probability(plan, h[..0]) == 1.0 && Ratio(plan, h[..0]) == 1.0 && !Crossed(plan, h[..0], alpha)
  {
  }

  // ---- one probability function, two parameters ------------------------------------------

  // The probability of one outcome of an event of probability x.
  function Chance(x: real, event: bool): real {
    if event then x else 1.0 - x
  }

  // The probability of a history when its next event always has the probability given.
  ghost function Likelihood(side: seq<bool> -> real, h: seq<bool>): real {
    if h == [] then 1.0
    else Likelihood(side, h[..|h| - 1]) * Chance(side(h[..|h| - 1]), h[|h| - 1])
  }

  function Nulls(plan: Plan): seq<bool> -> real {
    h => plan(h).p
  }

  function Alternatives(plan: Plan): seq<bool> -> real {
    h => plan(h).q
  }

  lemma {:induction false} ProbabilityIsNull(plan: Plan, h: seq<bool>)
    ensures Probability(plan, h) == Likelihood(Nulls(plan), h)
    decreases |h|
  {
    if h == [] {
    } else {
      ProbabilityIsNull(plan, h[..|h| - 1]);
    }
  }

  lemma FactorChangesChance(o: Odds, event: bool)
    requires 0.0 < o.p < 1.0
    ensures StepFactor(o, event) * Chance(o.p, event) == Chance(o.q, event)
  {
  }

  lemma Interchange(a: real, b: real, c: real, d: real)
    ensures a * b * (c * d) == a * c * (b * d)
  {
  }

  // The ratio turns null probabilities into those of the alternative, history by history.
  lemma {:induction false} RatioChangesMeasure(plan: Plan, h: seq<bool>)
    requires ProperPlan(plan)
    ensures Ratio(plan, h) * Likelihood(Nulls(plan), h) == Likelihood(Alternatives(plan), h)
    decreases |h|
  {
    hide StepFactor, Chance;
    if h == [] {
    } else {
      var front, event := h[..|h| - 1], h[|h| - 1];
      var o := plan(front);
      RatioChangesMeasure(plan, front);
      FactorChangesChance(o, event);
      Interchange(
        Ratio(plan, front), StepFactor(o, event), Likelihood(Nulls(plan), front), Chance(o.p, event));
    }
  }

  lemma {:induction false} CrossedIff(plan: Plan, h: seq<bool>, alpha: real)
    requires ProperPlan(plan) && alpha > 0.0
    ensures Crossed(plan, h, alpha) <==>
      exists k: nat :: 1 <= k <= |h| && Ratio(plan, h[..k]) >= 1.0 / alpha
    decreases |h|
  {
    hide Ratio;
    if h == [] {
    } else {
      var front := h[..|h| - 1];
      CrossedIff(plan, front, alpha);
      assert h[..|h|] == h;
      assert forall k: nat :: k <= |front| ==> front[..k] == h[..k];
    }
  }

  // ---- the histories are a probability space -----------------------------------------------

  ghost function LikelihoodSum(side: seq<bool> -> real, n: nat, count: nat): real
    requires count <= Pow2(n)
  {
    if count == 0 then 0.0 else LikelihoodSum(side, n, count - 1) + Likelihood(side, History(count - 1, n))
  }

  lemma LikelihoodSplits(side: seq<bool> -> real, h: seq<bool>)
    ensures Likelihood(side, h + [false]) + Likelihood(side, h + [true]) == Likelihood(side, h)
  {
    assert (h + [false])[..|h|] == h && (h + [true])[..|h|] == h;
    Halves(Likelihood(side, h), side(h));
  }

  lemma Halves(w: real, x: real)
    ensures w * (1.0 - x) + w * x == w
  {
  }

  lemma {:induction false} LikelihoodExtends(side: seq<bool> -> real, n: nat, m: nat)
    requires m <= Pow2(n)
    ensures LikelihoodSum(side, n + 1, m)
      + LikelihoodSum(side, n + 1, Pow2(n) + m) - LikelihoodSum(side, n + 1, Pow2(n))
      == LikelihoodSum(side, n, m)
    decreases m
  {
    hide Likelihood, History, Pow2;
    Doubling(n);
    if m == 0 {
    } else {
      LikelihoodExtends(side, n, m - 1);
      HistoriesPair(m - 1, n);
      LikelihoodSplits(side, History(m - 1, n));
      assert Pow2(n) + m - 1 == m - 1 + Pow2(n);
    }
  }

  // The masks below 2^n are all histories of length n: whatever the odds, their
  // probabilities add up to one.
  lemma {:induction false} LikelihoodsSumToOne(side: seq<bool> -> real, n: nat)
    ensures LikelihoodSum(side, n, Pow2(n)) == 1.0
    decreases n
  {
    hide Likelihood, History, Pow2, LikelihoodSum;
    if n == 0 {
      EmptyHistory(side);
    } else {
      LikelihoodsSumToOne(side, n - 1);
      LikelihoodExtends(side, n - 1, Pow2(n - 1));
      Doubling(n - 1);
    }
  }

  lemma EmptyHistory(side: seq<bool> -> real)
    ensures LikelihoodSum(side, 0, Pow2(0)) == 1.0
  {
    Pow2Zero();
    assert History(0, 0) == [];
    assert LikelihoodSum(side, 0, 1) == 0.0 + 1.0;
  }
}
