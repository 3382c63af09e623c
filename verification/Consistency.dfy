/**
 The sequential likelihood-ratio test of
 artifacts/execution/2026-09-10-consistency-arithmetic.py: exact numerators and
 denominators in 129 limbs, and the crossing probability under the null.
 */
module Consistency {
  import opened Bytes
  import opened Limbs
  import opened Powers
  import NullCrossing

  const WORDS: nat := 129
  const SCALE: nat := 65536

  // ---- one multiplication -----------------------------------------------------------------

  // Schoolbook multiplication by one word. If the product fits, no carry is left over.
  method Mul(words: seq<U64>, factor: nat) returns (result: seq<U64>)
    requires Value(words) * factor < PowB(|words|)
    ensures |result| == |words| && Value(result) == Value(words) * factor
  {
    hide Value, PowB;
    result := [];
    var carry: nat := 0;
    NoLimbs();
    for i := 0 to |words|
      invariant |result| == i
      invariant Value(result) + carry * PowB(i) == Value(words[..i]) * factor
    {
      var value := words[i] * factor + carry;
      var low: U64 := value % B;
      ValueAppend(words[..i], words[i]);
      ValueAppend(result, low);
      assert words[..i + 1] == words[..i] + [words[i]];
      MulStep(Value(words[..i]), words[i], factor, carry, Value(result), i);
      result := result + [low];
      carry := value / B;
    }
    assert words[..|words|] == words;
    NoCarryLeft(carry, PowB(|words|), Value(result));
    assert carry == 0;
  }

  lemma MulStep(before: nat, word: U64, factor: nat, carry: nat, done: nat, i: nat)
    requires done + carry * PowB(i) == before * factor
    ensures
      var value := word * factor + carry;
      done + value % B * PowB(i) + value / B * PowB(i + 1) == (before + word * PowB(i)) * factor
  {
    hide PowB;
    NextPower(i);
    var value, p := word * factor + carry, PowB(i);
    Combine(value % B, value / B, p);
    assert value % B + value / B * B == value;
    Spread(before, word, factor, carry, p);
  }

  lemma Combine(low: nat, high: nat, p: nat)
    ensures low * p + high * (B * p) == (low + high * B) * p
  {
  }

  lemma Spread(before: nat, word: nat, factor: nat, carry: nat, p: nat)
    ensures before * factor + (word * factor + carry) * p == (before + word * p) * factor + carry * p
  {
  }

  lemma NoCarryLeft(carry: nat, p: nat, low: nat)
    requires low + carry * p < p
    ensures carry == 0
  {
    assert carry >= 1 ==> carry * p >= p;
  }

  // ---- the path -----------------------------------------------------------------------------

  datatype Trial = Trial(p: nat, q: nat, event: bool)

  ghost predicate Proper(t: Trial) {
    0 < t.p < SCALE && 0 < t.q < SCALE
  }

  ghost predicate AllProper(path: seq<Trial>) {
    forall i :: 0 <= i < |path| ==> Proper(path[i])
  }

  function Above(t: Trial): int {
    if t.event then t.q else SCALE - t.q
  }

  function Below(t: Trial): int {
    if t.event then t.p else SCALE - t.p
  }

  ghost function Numerator(path: seq<Trial>): int {
    if path == [] then 1 else Numerator(path[..|path| - 1]) * Above(path[|path| - 1])
  }

  ghost function Denominator(path: seq<Trial>): int {
    if path == [] then 1 else Denominator(path[..|path| - 1]) * Below(path[|path| - 1])
  }

  // The likelihood ratio itself, as a product of quotients.
  ghost function Ratio(path: seq<Trial>): real
    requires AllProper(path)
  {
    if path == [] then 1.0
    else Ratio(path[..|path| - 1]) * (Above(path[|path| - 1]) as real / Below(path[|path| - 1]) as real)
  }

  lemma {:induction false} PathBounds(path: seq<Trial>)
    requires AllProper(path)
    ensures 1 <= Numerator(path) <= Pow2(16 * |path|)
    ensures 1 <= Denominator(path) <= Pow2(16 * |path|)
    decreases |path|
  {
    hide Pow2;
    Pow2Landmarks();
    if path == [] {
      Pow2Zero();
    } else {
      var n, t := |path| - 1, path[|path| - 1];
      PathBounds(path[..n]);
      Pow2Adds(16 * n, 16);
      MulCompare(Numerator(path[..n]), Pow2(16 * n), Above(t), Pow2(16));
      MulCompare(Denominator(path[..n]), Pow2(16 * n), Below(t), Pow2(16));
      MulCompare(1, Numerator(path[..n]), 1, Above(t));
      MulCompare(1, Denominator(path[..n]), 1, Below(t));
    }
  }

  lemma {:induction false} RatioIsQuotient(path: seq<Trial>)
    requires AllProper(path)
    ensures Denominator(path) >= 1
    ensures Ratio(path) == Numerator(path) as real / Denominator(path) as real
    decreases |path|
  {
    hide Above, Below, Pow2;
    PathBounds(path);
    if path == [] {
    } else {
      var front, t := path[..|path| - 1], path[|path| - 1];
      RatioIsQuotient(front);
      TrialIsPositive(t);
      RatioStep(Numerator(front), Denominator(front), Above(t), Below(t));
    }
  }

  lemma RatioStep(n: int, d: int, a: int, b: int)
    requires d >= 1 && b >= 1
    ensures d * b >= 1
    ensures n as real / d as real * (a as real / b as real) == (n * a) as real / (d * b) as real
  {
    CastProduct(n, a);
    CastProduct(d, b);
    Quotients(n as real, d as real, a as real, b as real);
  }

  lemma TrialIsPositive(t: Trial)
    requires Proper(t)
    ensures 1 <= Above(t) < SCALE && 1 <= Below(t) < SCALE
  {
  }

  lemma CastProduct(a: int, b: int)
    ensures (a * b) as real == a as real * b as real
  {
  }

  lemma Quotients(a: real, b: real, c: real, d: real)
    requires b != 0.0 && d != 0.0
    ensures a / b * (c / d) == (a * c) / (b * d)
  {
    assert b * d != 0.0;
    assert a / b * (c / d) * (b * d) == (a / b * b) * (c / d * d) == a * c;
  }

  // Cross-multiplied comparison with the reciprocal of alpha = num / den.
  lemma CrossingIsExact(n: int, d: int, num: int, den: int)
    requires n >= 1 && d >= 1 && num >= 1 && den >= 1
    ensures n * num >= d * den <==> n as real / d as real >= 1.0 / (num as real / den as real)
  {
    var rn, rd, ra, rb := n as real, d as real, num as real, den as real;
    assert 1.0 / (ra / rb) == rb / ra by {
      assert (ra / rb) * (rb / ra) == 1.0;
    }
    assert rn / rd >= rb / ra <==> rn * ra >= rb * rd by {
      Ordered(rn, rd, rb, ra);
    }
    assert (n * num) as real == rn * ra && (d * den) as real == rd * rb;
  }

  lemma Ordered(a: real, b: real, c: real, d: real)
    requires b > 0.0 && d > 0.0
    ensures a / b >= c / d <==> a * d >= c * b
  {
    var x, y := a / b, c / d;
    assert a == x * b && c == y * d;
    assert a * d == x * (b * d) && c * b == y * (b * d);
    assert b * d > 0.0;
    if x >= y {
      assert x * (b * d) >= y * (b * d);
    } else {
      assert x * (b * d) < y * (b * d);
    }
  }

  // Crossing at the k-th step, in exact rationals: the ratio has reached 1 / alpha.
  ghost predicate Crosses(path: seq<Trial>, k: nat, num: U64, den: U64)
    requires AllProper(path) && k <= |path| && num > 0 && den > 0
  {
    Ratio(path[..k]) >= 1.0 / (num as real / den as real)
  }

  // 512 sixteen-bit factors fill 128 limbs; one more limb takes either term of alpha.
  lemma PathFits(path: seq<Trial>, term: U64)
    requires AllProper(path) && |path| <= 512
    ensures Numerator(path) * term < PowB(WORDS) && Denominator(path) * term < PowB(WORDS)
    ensures Numerator(path) < PowB(WORDS) && Denominator(path) < PowB(WORDS)
  {
    hide Pow2, PowB, Numerator, Denominator;
    PathBounds(path);
    Pow2Grows(16 * |path|, 64 * 128);
    PowBIsPow2(128);
    NextPower(128);
    MulCompare(Numerator(path), PowB(128), term, B - 1);
    MulCompare(Denominator(path), PowB(128), term, B - 1);
    assert PowB(128) * (B - 1) < PowB(WORDS);
  }

  lemma PathExtends(path: seq<Trial>, k: nat)
    requires k < |path|
    ensures Numerator(path[..k + 1]) == Numerator(path[..k]) * Above(path[k])
    ensures Denominator(path[..k + 1]) == Denominator(path[..k]) * Below(path[k])
  {
    hide Above, Below;
    assert path[..k + 1][..k] == path[..k];
  }

  // ---- the alternative the ratio speaks for ---------------------------------------------------

  function OddsOf(t: Trial): NullCrossing.Odds {
    NullCrossing.Odds(t.p as real / SCALE as real, t.q as real / SCALE as real)
  }

  // The path's trials as odds, whatever happened.
  function PlanOf(path: seq<Trial>): NullCrossing.Plan {
    h => if |h| < |path| then OddsOf(path[|h|]) else NullCrossing.Odds(0.5, 0.5)
  }

  function Events(path: seq<Trial>): (events: seq<bool>)
    ensures |events| == |path| && forall i :: 0 <= i < |path| ==> events[i] == path[i].event
  {
    seq(|path|, i requires 0 <= i < |path| => path[i].event)
  }

  lemma PlanIsProper(path: seq<Trial>)
    requires AllProper(path)
    ensures NullCrossing.ProperPlan(PlanOf(path))
  {
    forall h: seq<bool>
      ensures 0.0 < PlanOf(path)(h).p < 1.0 && 0.0 < PlanOf(path)(h).q < 1.0
    {
      if |h| < |path| {
        assert Proper(path[|h|]);
      }
    }
  }

  // q / p and (1 - q) / (1 - p), before and after scaling.
  lemma FactorIsScaled(t: Trial)
    requires Proper(t)
    ensures
      var o := OddsOf(t);
      0.0 < o.p < 1.0 && NullCrossing.StepFactor(o, t.event) == Above(t) as real / Below(t) as real
  {
    var s, p, q := SCALE as real, t.p as real, t.q as real;
    assert 1.0 - p / s == (s - p) / s && 1.0 - q / s == (s - q) / s;
    ScaledQuotient(q, p, s);
    ScaledQuotient(s - q, s - p, s);
  }

  lemma ScaledQuotient(a: real, b: real, s: real)
    requires b != 0.0 && s != 0.0
    ensures a / s / (b / s) == a / b
  {
    var x, y := a / s, b / s;
    assert a == x * s && b == y * s;
    assert x / y * b == x / y * y * s == x * s;
  }

  // The product of step quotients is the likelihood ratio of the alternative against the
  // null, at every step.
  lemma {:induction false} RatioIsLikelihoodRatio(path: seq<Trial>, k: nat)
    requires AllProper(path) && k <= |path|
    ensures NullCrossing.ProperPlan(PlanOf(path))
    ensures Ratio(path[..k]) == NullCrossing.Ratio(PlanOf(path), Events(path)[..k])
    decreases k
  {
    hide Above, Below, NullCrossing.StepFactor, NullCrossing.ProperPlan;
    PlanIsProper(path);
    if k == 0 {
    } else {
      RatioIsLikelihoodRatio(path, k - 1);
      assert path[..k][..k - 1] == path[..k - 1] && Events(path)[..k][..k - 1] == Events(path)[..k - 1];
      FactorIsScaled(path[k - 1]);
    }
  }

  // So it takes the path's probability under the p's to its probability under the q's.
  lemma RatioChangesMeasure(path: seq<Trial>)
    requires AllProper(path)
    ensures
      var plan, events := PlanOf(path), Events(path);
      Ratio(path) * NullCrossing.Likelihood(NullCrossing.Nulls(plan), events)
        == NullCrossing.Likelihood(NullCrossing.Alternatives(plan), events)
  {
    hide Ratio, NullCrossing.Likelihood, NullCrossing.Ratio;
    RatioIsLikelihoodRatio(path, |path|);
    assert path[..|path|] == path && Events(path)[..|path|] == Events(path);
    NullCrossing.RatioChangesMeasure(PlanOf(path), Events(path));
  }

  // The prefix of k events has reached 1 / alpha, in the enumeration's own terms.
  ghost predicate HasCrossed(path: seq<Trial>, k: nat, num: U64, den: U64)
    requires AllProper(path) && k <= |path| && num > 0 && den > 0
  {
    PlanIsProper(path);
    NullCrossing.Crossed(PlanOf(path), Events(path)[..k], num as real / den as real)
  }

  lemma HasCrossedIff(path: seq<Trial>, k: nat, num: U64, den: U64)
    requires AllProper(path) && k <= |path| && num > 0 && den > 0
    ensures HasCrossed(path, k, num, den) <==> exists j: nat :: 1 <= j <= k && Crosses(path, j, num, den)
  {
    hide Ratio, NullCrossing.Ratio, NullCrossing.Crossed;
    PlanIsProper(path);
    var events := Events(path);
    NullCrossing.CrossedIff(PlanOf(path), events[..k], num as real / den as real);
    var alpha := num as real / den as real;
    forall j: nat | j <= k
      ensures Crosses(path, j, num, den) <==> NullCrossing.Ratio(PlanOf(path), events[..k][..j]) >= 1.0 / alpha
    {
      assert events[..k][..j] == events[..j];
      RatioIsLikelihoodRatio(path, j);
    }
    if j: nat :| 1 <= j <= k && Crosses(path, j, num, den) {
      assert NullCrossing.Ratio(PlanOf(path), events[..k][..j]) >= 1.0 / alpha;
    }
  }

  // One step of the limb comparison agrees with the rational test.
  lemma LimbTestIsExact(path: seq<Trial>, k: nat, num: U64, den: U64, left: seq<U64>, right: seq<U64>)
    requires AllProper(path) && k <= |path| && num > 0 && den > 0 && |left| == |right|
    requires Value(left) == Numerator(path[..k]) * num && Value(right) == Denominator(path[..k]) * den
    ensures AtLeast(left, right) <==> Crosses(path, k, num, den)
  {
    hide Value, AtLeast, Numerator, Denominator, Ratio, Pow2;
    AtLeastIsValue(left, right);
    PathBounds(path[..k]);
    RatioIsQuotient(path[..k]);
    CrossingIsExact(Numerator(path[..k]), Denominator(path[..k]), num, den);
  }

  lemma OneLimb(count: nat)
    ensures Value([1] + seq(count, _ => 0)) == 1
  {
    hide PowB;
    var zeros: seq<U64> := seq(count, _ => 0);
    assert ([1] + zeros)[1..] == zeros;
    Zeros(zeros);
  }

  // On every path of up to 512 steps no multiplication drops a carry, and the reported
  // step is the first at which the exact ratio reaches 1 / alpha.
  method PathCheck(path: seq<Trial>, num: U64, den: U64) returns (first: Option<nat>)
    requires AllProper(path) && |path| <= 512 && num > 0 && den > 0
    ensures first.Some? ==>
      && 1 <= first.value <= |path|
      && Crosses(path, first.value, num, den)
      && forall k :: 1 <= k < first.value ==> !Crosses(path, k, num, den)
    ensures first.None? ==> forall k :: 1 <= k <= |path| ==> !Crosses(path, k, num, den)
    ensures first.Some? ==>
      HasCrossed(path, first.value, num, den) && !HasCrossed(path, first.value - 1, num, den)
    ensures first.None? ==> !HasCrossed(path, |path|, num, den)
  {
    hide Value, PowB, AtLeast, Numerator, Denominator, Ratio, Pow2, Crosses, Above, Below,
      HasCrossed;
    var n: seq<U64> := [1] + seq(WORDS - 1, _ => 0);
    OneLimb(WORDS - 1);
    var d := n;
    first := None;
    EmptyPath(path);
    for step := 0 to |path|
      invariant |n| == |d| == WORDS
      invariant Value(n) == Numerator(path[..step]) && Value(d) == Denominator(path[..step])
      invariant first.Some? ==>
        && 1 <= first.value <= step
        && Crosses(path, first.value, num, den)
        && forall k :: 1 <= k < first.value ==> !Crosses(path, k, num, den)
      invariant first.None? ==> forall k :: 1 <= k <= step ==> !Crosses(path, k, num, den)
    {
      var t := path[step];
      PathExtends(path, step);
      PathFits(path[..step + 1], num);
      PathFits(path[..step + 1], den);
      TrialIsPositive(t);
      n := Mul(n, Above(t));
      d := Mul(d, Below(t));
      var left := Mul(n, num);
      var right := Mul(d, den);
      LimbTestIsExact(path, step + 1, num, den, left, right);
      if AtLeast(left, right) && first.None? {
        first := Some(step + 1);
      }
    }
    ghost var reached := if first.Some? then first.value else |path|;
    HasCrossedIff(path, reached, num, den);
    if first.Some? {
      HasCrossedIff(path, reached - 1, num, den);
    }
  }

  lemma EmptyPath(path: seq<Trial>)
    ensures Numerator(path[..0]) == 1 && Denominator(path[..0]) == 1
  {
  }
}
