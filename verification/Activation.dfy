/**
 The exact f32 dot-product accumulator of
 artifacts/execution/2026-09-10-activation-arithmetic.py: two nine-limb accumulators,
 one for each sign, and a final borrow chain.
 */
module Activation {
  import opened Bytes
  import opened Limbs
  import opened Powers

  const WORDS: nat := 9
  const SIGN: nat := 0x8000_0000
  const HIDDEN: nat := 0x80_0000
  const ONE: U32 := 0x3F80_0000

  // ---- bit fields of an f32 ------------------------------------------------------------

  function Exponent(u: U32): nat {
    u / HIDDEN % 256
  }

  function Fraction(u: U32): nat {
    u % HIDDEN
  }

  predicate Negative(u: U32) {
    u >= SIGN
  }

  // The fields are all of the word: sign, eight exponent bits, 23 fraction bits.
  lemma FieldsAreTheWord(u: U32)
    ensures Exponent(u) < 256 && Fraction(u) < 0x80_0000
    ensures u == (if Negative(u) then 0x8000_0000 else 0) + Exponent(u) * 0x80_0000 + Fraction(u)
  {
    assert u / HIDDEN == (if Negative(u) then 256 else 0) + u / HIDDEN % 256;
  }

  predicate Finite(u: U32) {
    Exponent(u) != 255
  }

  // (u ^ 0x80000000)
  function Flip(u: U32): U32 {
    if Negative(u) then u - SIGN else u + SIGN
  }

  // `part`: the significand with its hidden bit, and the shift above the least subnormal.
  function Significand(u: U32): nat {
    Fraction(u) + if Exponent(u) == 0 then 0 else HIDDEN
  }

  function Shift(u: U32): nat {
    if Exponent(u) == 0 then 0 else Exponent(u) - 1
  }

  lemma PartBounds(u: U32)
    ensures Significand(u) < 0x100_0000
    ensures Finite(u) ==> Shift(u) <= 253
  {
  }

  // The f32 as an integer multiple of 2^-149.
  function Scaled(u: U32): int {
    var m := Significand(u) * Pow2(Shift(u));
    if Negative(u) then -m else m
  }

  // ---- one product ------------------------------------------------------------------------

  function Magnitude(a: U32, b: U32): nat {
    hide Significand, Shift, Pow2;
    Significand(a) * Significand(b) * Pow2(Shift(a) + Shift(b))
  }

  lemma ProductOfScaled(a: U32, b: U32)
    ensures
      var m: int := Magnitude(a, b);
      Scaled(a) * Scaled(b) == if Negative(a) != Negative(b) then -m else m
  {
    hide Exponent, Fraction, Significand, Shift, Negative, Pow2;
    Pow2Adds(Shift(a), Shift(b));
    var ma, pa, mb, pb := Significand(a), Pow2(Shift(a)), Significand(b), Pow2(Shift(b));
    assert (ma * pa) * (mb * pb) == ma * mb * (pa * pb);
  }

  const LARGEST: nat := Pow2(554)

  lemma MagnitudeBound(a: U32, b: U32)
    requires Finite(a) && Finite(b)
    ensures Magnitude(a, b) <= LARGEST
  {
    hide Exponent, Fraction, Significand, Shift, Pow2;
    PartBounds(a);
    PartBounds(b);
    Pow2Landmarks();
    MulCompare(Significand(a), Pow2(24), Significand(b), Pow2(24));
    Pow2Adds(24, 24);
    Pow2Grows(Shift(a) + Shift(b), 506);
    MulCompare(Significand(a) * Significand(b), Pow2(48), Pow2(Shift(a) + Shift(b)), Pow2(506));
    Pow2Adds(48, 506);
  }

  // The two words a shifted product occupies.
  lemma ProductWords(v: nat, shift: nat)
    ensures
      var i, off := shift / 64, shift % 64;
      v * Pow2(shift) == (v * Pow2(off) % B + B * (v / Pow2(64 - off))) * PowB(i)
  {
    hide Pow2, PowB;
    var i, off := shift / 64, shift % 64;
    PowBIsPow2(i);
    Pow2Adds(off, 64 * i);
    BaseIsPower();
    Pow2Adds(off, 64 - off);
    var c, d := Pow2(off), Pow2(64 - off);
    DivideThrough(v, c, d);
    assert v * c == v * c % B + B * (v / d);
    assert v * Pow2(shift) == v * (c * PowB(i)) == (v * c) * PowB(i);
  }

  lemma DivideThrough(v: nat, c: nat, d: nat)
    requires c >= 1 && d >= 1 && c * d == B
    ensures v * c / B == v / d
  {
    var q, r := v / d, v % d;
    assert v == q * d + r;
    ScaledQuotient(q, r, c, d);
    QuotientIs(v * c, B, q, r * c);
  }

  lemma ScaledQuotient(q: nat, r: nat, c: nat, d: nat)
    requires r < d && c >= 1
    ensures (q * d + r) * c == q * (c * d) + r * c
    ensures r * c < c * d
  {
  }

  // Ripple a word into the accumulator; the bound keeps the carry inside nine limbs.
  method AddWord(a: array<U64>, at: nat, word: nat)
    requires a.Length == WORDS
    requires Value(a[..]) + word * PowB(at) < PowB(WORDS)
    modifies a
    ensures Value(a[..]) == Value(old(a[..])) + word * PowB(at)
  {
    hide Value, PowB;
    var i: nat, v: nat := at, word;
    ghost var total := Value(a[..]) + word * PowB(at);
    StaysInside(i, v, Value(a[..]));
    while v != 0
      invariant Value(a[..]) + v * PowB(i) == total
      invariant v != 0 ==> i < WORDS
      decreases WORDS - i
    {
      ghost var before := a[..];
      var z := a[i] + v;
      var low: U64 := z % B;
      CarryStep(a[i], v, PowB(i));
      ValueUpdate(a[..], i, low);
      NextPower(i);
      a[i] := low;
      assert a[..] == before[i := low];
      v := z / B;
      i := i + 1;
      StaysInside(i, v, Value(a[..]));
    }
  }

  lemma StaysInside(i: nat, v: nat, value: nat)
    requires value + v * PowB(i) < PowB(WORDS)
    ensures v != 0 ==> i < WORDS
  {
    hide PowB;
    if v != 0 {
      assert v * PowB(i) >= PowB(i);
      if i >= WORDS {
        PowBGrows(WORDS, i);
      }
    }
  }

  // ---- accumulating -----------------------------------------------------------------------

  // Adds one product to the accumulator of its sign and leaves the other alone.
  method AddProduct(pos: array<U64>, neg: array<U64>, a: U32, b: U32)
    requires pos.Length == neg.Length == WORDS && pos != neg
    requires Value(pos[..]) + Magnitude(a, b) < PowB(WORDS) && Value(neg[..]) + Magnitude(a, b) < PowB(WORDS)
    modifies pos, neg
    ensures Value(pos[..]) - Value(neg[..]) == Value(old(pos[..])) - Value(old(neg[..])) + Scaled(a) * Scaled(b)
    ensures Value(pos[..]) <= Value(old(pos[..])) + Magnitude(a, b)
    ensures Value(neg[..]) <= Value(old(neg[..])) + Magnitude(a, b)
  {
    hide Value, PowB, Significand, Shift, Scaled, Negative, Pow2;
    ProductOfScaled(a, b);
    NoHighWord(a, b);
    var words := if Negative(a) != Negative(b) then neg else pos;
    AddShifted(words, Significand(a) * Significand(b), Shift(a) + Shift(b));
  }

  // A product and its shift, as the one or two words they occupy.
  method AddShifted(words: array<U64>, v: nat, shift: nat)
    requires words.Length == WORDS && Value(words[..]) + v * Pow2(shift) < PowB(WORDS) && v / Pow2(64) == 0
    modifies words
    ensures Value(words[..]) == Value(old(words[..])) + v * Pow2(shift)
  {
    hide Value, PowB, Pow2;
    var i, off := shift / 64, shift % 64;
    ProductWords(v, shift);
    NextPower(i);
    var low, high: nat := v * Pow2(off) % B, v / Pow2(64 - off);
    SplitSum(low, high, PowB(i));
    AddWord(words, i, low);
    if off != 0 {
      AddWord(words, i + 1, high);
    }
  }

  lemma SplitSum(low: nat, high: nat, p: nat)
    ensures (low + B * high) * p == low * p + high * (B * p)
  {
  }

  // A product fits one word when it is not shifted across a word boundary.
  lemma NoHighWord(a: U32, b: U32)
    ensures Significand(a) * Significand(b) / Pow2(64) == 0
  {
    hide Significand, Pow2;
    PartBounds(a);
    PartBounds(b);
    BaseIsPower();
    MulCompare(Significand(a), 0x100_0000, Significand(b), 0x100_0000);
  }

  // Limb-wise difference with a borrow, larger minus smaller, then the sign.
  method Finish(pos: seq<U64>, neg: seq<U64>) returns (score: int)
    requires |pos| == |neg| == WORDS
    ensures score == Value(pos) - Value(neg)
  {
    var less := Value(pos) < Value(neg);
    var big, small := if less then neg else pos, if less then pos else neg;
    var magnitude := Subtract(big, small);
    score := if less then -magnitude else magnitude;
  }

  method Subtract(big: seq<U64>, small: seq<U64>) returns (magnitude: int)
    requires |big| == |small| && Value(big) >= Value(small)
    ensures magnitude == Value(big) - Value(small)
  {
    hide Value, PowB, Borrow;
    var out: seq<U64>, borrow := [], 0;
    NoLimbs();
    for i := 0 to |big|
      invariant |out| == i && (borrow == 0 || borrow == 1)
      invariant Value(big[..i]) - Value(small[..i]) == Value(out) - borrow * PowB(i)
    {
      var (digit, carry) := Borrow(big[i], small[i], borrow);
      BorrowStep(big[i], small[i], borrow, PowB(i));
      ValueAppend(big[..i], big[i]);
      ValueAppend(small[..i], small[i]);
      ValueAppend(out, digit);
      NextPower(i);
      assert big[..i + 1] == big[..i] + [big[i]] && small[..i + 1] == small[..i] + [small[i]];
      out := out + [digit];
      borrow := carry;
    }
    assert big[..|big|] == big && small[..|small|] == small;
    ValueBound(out);
    assert borrow == 0;
    magnitude := Value(out);
  }

  // One limb of the difference, and what it borrows from the next.
  function Borrow(x: U64, y: U64, borrow: nat): (r: (U64, nat))
    requires borrow <= 1
    ensures r.1 <= 1 && x - y - borrow == r.0 - r.1 * B
  {
    var first: int := x - y;
    var next := first % B - borrow;
    (next % B, if first < 0 || next < 0 then 1 else 0)
  }

  lemma BorrowStep(x: U64, y: U64, borrow: nat, p: nat)
    requires borrow <= 1
    ensures var (digit, carry) := Borrow(x, y, borrow);
      (x - y) * p - borrow * p == digit * p - carry * (B * p)
  {
    hide Borrow;
    var (digit, carry) := Borrow(x, y, borrow);
    assert (x - y - borrow) * p == (digit - carry * B) * p;
  }

  // ---- the whole score ----------------------------------------------------------------------

  ghost predicate AllFinite(us: seq<U32>) {
    forall i :: 0 <= i < |us| ==> Finite(us[i])
  }

  // Sum over the paired coordinates, as multiples of 2^-298.
  ghost function Dot(xs: seq<U32>, ws: seq<U32>): int {
    if xs == [] || ws == [] then 0 else Scaled(xs[0]) * Scaled(ws[0]) + Dot(xs[1..], ws[1..])
  }

  ghost function Exact(xs: seq<U32>, ws: seq<U32>, bias: U32, threshold: U32): int {
    Dot(xs, ws) + (Scaled(bias) - Scaled(threshold)) * Pow2(149)
  }

  lemma {:induction false} DotAppend(xs: seq<U32>, ws: seq<U32>, k: nat)
    requires k < |xs| && k < |ws|
    ensures Dot(xs[..k + 1], ws[..k + 1]) == Dot(xs[..k], ws[..k]) + Scaled(xs[k]) * Scaled(ws[k])
    decreases k
  {
    hide Scaled;
    var x, w := xs[..k + 1], ws[..k + 1];
    if k == 0 {
      assert x[1..] == [] && w[1..] == [];
    } else {
      assert x[1..] == xs[1..][..k] && w[1..] == ws[1..][..k];
      assert xs[..k][1..] == xs[1..][..k - 1] && ws[..k][1..] == ws[1..][..k - 1];
      DotAppend(xs[1..], ws[1..], k - 1);
    }
  }

  lemma {:induction false} DotOfShorter(xs: seq<U32>, ws: seq<U32>, n: nat)
    requires n == Min(|xs|, |ws|)
    ensures Dot(xs[..n], ws[..n]) == Dot(xs, ws)
    decreases |xs|
  {
    hide Scaled;
    if xs == [] || ws == [] {
    } else {
      assert xs[..n][1..] == xs[1..][..n - 1] && ws[..n][1..] == ws[1..][..n - 1];
      DotOfShorter(xs[1..], ws[1..], n - 1);
    }
  }

  // Room for every product of the longest vectors, the bias and the threshold.
  lemma RoomFor(count: nat)
    requires count <= 65538
    ensures (count + 1) * LARGEST < PowB(WORDS)
    ensures count * LARGEST + LARGEST == (count + 1) * LARGEST
  {
    hide Pow2, PowB;
    PowBIsPow2(WORDS);
    Pow2Landmarks();
    assert count + 1 <= 0x1_0000 * 2;
    Pow2Adds(16, 554);
    MulCompare(count + 1, 2 * Pow2(16), LARGEST, LARGEST);
    Doubling(570);
    Doubling(571);
    Pow2Grows(572, 576);
  }

  lemma ScaledOne()
    ensures Scaled(ONE) == Pow2(149) && Finite(ONE)
  {
    hide Pow2;
    assert Fraction(ONE) == 0 && Exponent(ONE) == 127;
    Pow2Landmarks();
    Pow2Adds(23, 126);
    Doubling(23);
  }

  lemma FlipKeepsFields(u: U32)
    ensures Exponent(Flip(u)) == Exponent(u) && Fraction(Flip(u)) == Fraction(u)
    ensures Negative(Flip(u)) != Negative(u)
  {
    assert (u + SIGN) / HIDDEN == u / HIDDEN + 256;
  }

  lemma FlipNegates(u: U32)
    ensures Scaled(Flip(u)) == -Scaled(u)
    ensures Finite(Flip(u)) <==> Finite(u)
  {
    hide Pow2, Flip, Exponent, Fraction, Negative;
    FlipKeepsFields(u);
  }

  // For any finite vectors up to 65536 long no carry leaves the ninth limb, the borrow
  // chain closes, and the result is the exact score.
  method Score(xs: seq<U32>, ws: seq<U32>, bias: U32, threshold: U32) returns (score: int)
    requires AllFinite(xs) && AllFinite(ws) && Finite(bias) && Finite(threshold)
    requires Min(|xs|, |ws|) <= 65536
    ensures score == Exact(xs, ws, bias, threshold)
  {
    hide Value, PowB, Pow2, Scaled, Finite, Magnitude, Flip, Dot;
    var pos, neg := new U64[WORDS](_ => 0), new U64[WORDS](_ => 0);
    Zeros(pos[..]);
    Zeros(neg[..]);
    var n := Min(|xs|, |ws|);
    DotEmpty(xs, ws);
    for k := 0 to n
      invariant pos != neg && fresh(pos) && fresh(neg)
      invariant Value(pos[..]) - Value(neg[..]) == Dot(xs[..k], ws[..k])
      invariant Value(pos[..]) <= k * LARGEST && Value(neg[..]) <= k * LARGEST
    {
      RoomFor(k);
      MagnitudeBound(xs[k], ws[k]);
      DotAppend(xs, ws, k);
      AddProduct(pos, neg, xs[k], ws[k]);
    }
    DotOfShorter(xs, ws, n);
    ScaledOne();
    FlipNegates(threshold);
    RoomFor(n);
    RoomFor(n + 1);
    MagnitudeBound(bias, ONE);
    AddProduct(pos, neg, bias, ONE);
    MagnitudeBound(Flip(threshold), ONE);
    AddProduct(pos, neg, Flip(threshold), ONE);
    Regroup(Scaled(bias), Scaled(threshold), Pow2(149));
    score := Finish(pos[..], neg[..]);
  }

  lemma Regroup(a: int, b: int, c: int)
    ensures a * c + -b * c == (a - b) * c
  {
  }

  lemma DotEmpty(xs: seq<U32>, ws: seq<U32>)
    ensures Dot(xs[..0], ws[..0]) == 0
  {
  }

  // ---- against IEEE 754 ------------------------------------------------------------------

  ghost function RealPow2(k: int): real {
    if k >= 0 then Pow2(k) as real else 1.0 / Pow2(-k) as real
  }

  // The number a finite binary32 stands for: sign, biased exponent 127, 23-bit fraction.
  ghost function Ieee(u: U32): real {
    var sign := if Negative(u) then -1.0 else 1.0;
    var fraction := Fraction(u) as real / HIDDEN as real;
    if Exponent(u) == 0 then sign * fraction * RealPow2(-126)
    else sign * (1.0 + fraction) * RealPow2(Exponent(u) - 127)
  }

  lemma RealPow2Adds(a: int, b: nat)
    requires a + b >= 0
    ensures RealPow2(a) * Pow2(b) as real == Pow2(a + b) as real
  {
    hide Pow2;
    if a >= 0 {
      Pow2Adds(a, b);
    } else {
      Pow2Adds(-a, a + b);
      var p := Pow2(-a) as real;
      assert RealPow2(a) * Pow2(b) as real == 1.0 / p * (p * Pow2(a + b) as real);
      Cancel(p, Pow2(a + b) as real);
    }
  }

  lemma Cancel(p: real, x: real)
    requires p != 0.0
    ensures 1.0 / p * (p * x) == x
  {
    assert 1.0 / p * p == 1.0;
    assert 1.0 / p * (p * x) == (1.0 / p * p) * x;
  }

  // `Scaled` is the value times 2^149, with nothing lost.
  lemma ScaledIsExact(u: U32)
    ensures Ieee(u) * Pow2(149) as real == Scaled(u) as real
  {
    hide Pow2, RealPow2, Negative, Fraction, Exponent;
    var h := HIDDEN as real;
    var f := Fraction(u) as real;
    var sign := if Negative(u) then -1.0 else 1.0;
    Pow2Landmarks();
    Doubling(23);
    if Exponent(u) == 0 {
      RealPow2Adds(-126, 149);
      ScaleOut(sign, f / h, RealPow2(-126), Pow2(149) as real, h);
      assert sign * (f / h) * h == sign * f;
      Pow2Zero();
    } else {
      var e: int := Exponent(u);
      RealPow2Adds(e - 127, 149);
      Pow2Adds(23, e - 1);
      ScaleOut(sign, 1.0 + f / h, RealPow2(e - 127), Pow2(149) as real, Pow2(e + 22) as real);
      assert Pow2(e + 22) as real == h * Pow2(e - 1) as real;
      Spread(sign, f, h, Pow2(e - 1) as real);
      assert (Significand(u) * Pow2(e - 1)) as real == (f + h) * Pow2(e - 1) as real;
    }
  }

  lemma ScaleOut(sign: real, m: real, p: real, q: real, r: real)
    requires p * q == r
    ensures sign * m * p * q == sign * m * r
  {
    assert sign * m * p * q == sign * m * (p * q);
  }

  lemma Spread(sign: real, f: real, h: real, p: real)
    requires h != 0.0
    ensures sign * (1.0 + f / h) * (h * p) == sign * ((f + h) * p)
  {
    assert (1.0 + f / h) * h == h + f;
    assert sign * (1.0 + f / h) * (h * p) == sign * (((1.0 + f / h) * h) * p);
  }

  ghost function RealDot(xs: seq<U32>, ws: seq<U32>): real {
    if xs == [] || ws == [] then 0.0 else Ieee(xs[0]) * Ieee(ws[0]) + RealDot(xs[1..], ws[1..])
  }

  lemma {:induction false} DotIsExact(xs: seq<U32>, ws: seq<U32>, p: real)
    requires p == Pow2(149) as real
    ensures RealDot(xs, ws) * (p * p) == Dot(xs, ws) as real
    decreases |xs|
  {
    hide Pow2, Ieee, Scaled;
    if xs == [] || ws == [] {
    } else {
      ScaledIsExact(xs[0]);
      ScaledIsExact(ws[0]);
      DotIsExact(xs[1..], ws[1..], p);
      ProductScales(Ieee(xs[0]), Ieee(ws[0]), p);
      assert (Scaled(xs[0]) * Scaled(ws[0])) as real == Scaled(xs[0]) as real * Scaled(ws[0]) as real;
      assert RealDot(xs, ws) * (p * p) == Ieee(xs[0]) * Ieee(ws[0]) * (p * p) + RealDot(xs[1..], ws[1..]) * (p * p);
    }
  }

  lemma ProductScales(a: real, b: real, p: real)
    ensures a * b * (p * p) == (a * p) * (b * p)
  {
  }

  // The oracle: the rational score times 2^298 is an integer, and `Score` returns it.
  lemma ExactIsTheOracle(xs: seq<U32>, ws: seq<U32>, bias: U32, threshold: U32)
    ensures (RealDot(xs, ws) + Ieee(bias) - Ieee(threshold)) * Pow2(298) as real
      == Exact(xs, ws, bias, threshold) as real
  {
    hide Pow2, Ieee, Scaled, Dot, RealDot;
    Pow2Adds(149, 149);
    var p := Pow2(149) as real;
    DotIsExact(xs, ws, p);
    ScaledIsExact(bias);
    ScaledIsExact(threshold);
    var d, b, t := RealDot(xs, ws), Ieee(bias), Ieee(threshold);
    assert (d + b - t) * (p * p) == d * (p * p) + (b * p - t * p) * p;
    assert ((Scaled(bias) - Scaled(threshold)) * Pow2(149)) as real
      == (Scaled(bias) as real - Scaled(threshold) as real) * p;
  }

  // ---- truncation intervals ----------------------------------------------------------------

  // u & (2^k - 1): the low k bits.
  function LowBits(u: nat, k: nat): nat
    decreases k
  {
    if k == 0 then 0 else u % 2 + 2 * LowBits(u / 2, k - 1)
  }

  lemma {:induction false} LowBitsBound(u: nat, k: nat)
    ensures LowBits(u, k) < Pow2(k) && LowBits(u, k) <= u
    ensures LowBits(u, k) <= LowBits(u, k + 1) <= LowBits(u, k) + Pow2(k)
    decreases k
  {
    if k == 0 {
    } else {
      LowBitsBound(u / 2, k - 1);
    }
  }

  lemma {:induction false} LowBitsIgnoreHigh(u: nat, q: nat, k: nat)
    ensures LowBits(u + Pow2(k) * q, k) == LowBits(u, k)
    decreases k
  {
    if k == 0 {
    } else {
      var p := Pow2(k - 1) * q;
      assert Pow2(k) * q == 2 * p;
      assert (u + 2 * p) % 2 == u % 2 && (u + 2 * p) / 2 == u / 2 + p;
      LowBitsIgnoreHigh(u / 2, q, k - 1);
    }
  }

  // Rounding up within n bits stays within n bits.
  lemma {:induction false} RoundUpFits(u: nat, k: nat, n: nat)
    requires u < Pow2(n) && k <= n
    ensures u - LowBits(u, k) + Pow2(k) <= Pow2(n)
    decreases k
  {
    if k == 0 {
    } else {
      RoundUpFits(u / 2, k - 1, n - 1);
    }
  }

  // Masking looks only at the fraction field.
  lemma MaskedBits(x: U32, k: nat)
    requires k <= 23
    ensures LowBits(x, k) == LowBits(Fraction(x), k) <= Fraction(x)
    ensures LowBits(x, k) < Pow2(k)
    ensures Fraction(x) - LowBits(x, k) + Pow2(k) <= HIDDEN
  {
    hide Pow2, LowBits;
    Pow2Adds(k, 23 - k);
    Pow2Landmarks();
    Doubling(23);
    var f, q := Fraction(x), x / HIDDEN;
    assert x == f + Pow2(k) * Pow2(23 - k) * q == f + Pow2(k) * (Pow2(23 - k) * q);
    LowBitsIgnoreHigh(f, Pow2(23 - k) * q, k);
    LowBitsBound(f, k);
    RoundUpFits(f, k, 23);
  }

  // Replacing the fraction leaves sign and exponent alone.
  lemma WithFraction(x: U32, g: nat)
    requires g < HIDDEN
    ensures 0 <= x - Fraction(x) + g < 0x1_0000_0000
    ensures
      var u: U32 := x - Fraction(x) + g;
      Exponent(u) == Exponent(x) && Fraction(u) == g && (Negative(u) <==> Negative(x))
  {
    var u: U32 := x - Fraction(x) + g;
    assert u / HIDDEN == x / HIDDEN;
  }

  // x & ~mask and (x & ~mask) | mask, where the mask covers the low 23 - bits bits.
  function Floor(x: U32, bits: nat): U32
    requires bits <= 23
  {
    LowBitsBound(x, 23 - bits);
    x - LowBits(x, 23 - bits)
  }

  function Ceiling(x: U32, bits: nat): U32
    requires bits <= 23
  {
    MaskedBits(x, 23 - bits);
    WithFraction(x, Fraction(x) - LowBits(x, 23 - bits) + Pow2(23 - bits) - 1);
    x - LowBits(x, 23 - bits) + (Pow2(23 - bits) - 1)
  }

  ghost predicate SameField(u: U32, x: U32) {
    Exponent(u) == Exponent(x) && (Negative(u) <==> Negative(x))
  }

  lemma EndFractions(x: U32, bits: nat)
    requires bits <= 23
    ensures SameField(Floor(x, bits), x) && SameField(Ceiling(x, bits), x)
    ensures
      var k, f := 23 - bits, Fraction(x);
      && Fraction(Floor(x, bits)) == f - LowBits(f, k)
      && Fraction(Ceiling(x, bits)) == f - LowBits(f, k) + Pow2(k) - 1
      && Fraction(Floor(x, bits)) <= f <= Fraction(Ceiling(x, bits))
  {
    hide Pow2, Exponent, Negative, LowBits;
    var k, f := 23 - bits, Fraction(x);
    MaskedBits(x, k);
    WithFraction(x, f - LowBits(f, k));
    WithFraction(x, f - LowBits(f, k) + Pow2(k) - 1);
  }

  lemma FullBitsKeep(x: U32)
    ensures Floor(x, 23) == x && Ceiling(x, 23) == x
  {
    Pow2Zero();
  }

  // One more bit halves the mask.
  lemma EndsNest(x: U32, bits: nat)
    requires bits < 23
    ensures Fraction(Floor(x, bits)) <= Fraction(Floor(x, bits + 1))
    ensures Fraction(Ceiling(x, bits + 1)) <= Fraction(Ceiling(x, bits))
  {
    hide Pow2, Floor, Ceiling, Fraction, LowBits;
    EndFractions(x, bits);
    EndFractions(x, bits + 1);
    Doubling(22 - bits);
    LowBitsBound(Fraction(x), 22 - bits);
  }

  // Within one sign and exponent the product follows the fraction, up or down.
  lemma ProductFollows(u: U32, x: U32, w: U32)
    requires SameField(u, x) && Fraction(u) <= Fraction(x)
    ensures Negative(x) == Negative(w) ==> Scaled(u) * Scaled(w) <= Scaled(x) * Scaled(w)
    ensures Negative(x) != Negative(w) ==> Scaled(x) * Scaled(w) <= Scaled(u) * Scaled(w)
  {
    hide Pow2, Fraction, Exponent, Negative, Scaled;
    ProductOfScaled(u, w);
    ProductOfScaled(x, w);
    MulCompare(Significand(u), Significand(x), Significand(w), Significand(w));
    var p := Pow2(Shift(x) + Shift(w));
    MulCompare(Significand(u) * Significand(w), Significand(x) * Significand(w), p, p);
  }

  function LowEnd(x: U32, w: U32, bits: nat): U32
    requires bits <= 23
  {
    if Negative(x) != Negative(w) then Ceiling(x, bits) else Floor(x, bits)
  }

  function HighEnd(x: U32, w: U32, bits: nat): U32
    requires bits <= 23
  {
    if Negative(x) != Negative(w) then Floor(x, bits) else Ceiling(x, bits)
  }

  lemma EndsBracket(x: U32, w: U32, bits: nat)
    requires bits <= 23
    ensures Scaled(LowEnd(x, w, bits)) * Scaled(w) <= Scaled(x) * Scaled(w) <= Scaled(HighEnd(x, w, bits)) * Scaled(w)
    ensures Finite(x) ==> Finite(LowEnd(x, w, bits)) && Finite(HighEnd(x, w, bits))
    ensures bits < 23 ==> Scaled(LowEnd(x, w, bits)) * Scaled(w) <= Scaled(LowEnd(x, w, bits + 1)) * Scaled(w)
    ensures bits < 23 ==> Scaled(HighEnd(x, w, bits + 1)) * Scaled(w) <= Scaled(HighEnd(x, w, bits)) * Scaled(w)
    ensures bits == 23 ==> LowEnd(x, w, bits) == x == HighEnd(x, w, bits)
  {
    hide Pow2, Fraction, Exponent, Negative, Scaled, Floor, Ceiling;
    EndFractions(x, bits);
    ProductFollows(Floor(x, bits), x, w);
    ProductFollows(x, Ceiling(x, bits), w);
    if bits < 23 {
      EndFractions(x, bits + 1);
      EndsNest(x, bits);
      ProductFollows(Floor(x, bits), Floor(x, bits + 1), w);
      ProductFollows(Ceiling(x, bits + 1), Ceiling(x, bits), w);
    } else {
      FullBitsKeep(x);
    }
  }

  function LowEnds(xs: seq<U32>, ws: seq<U32>, bits: nat): seq<U32>
    requires bits <= 23
  {
    if xs == [] || ws == [] then [] else [LowEnd(xs[0], ws[0], bits)] + LowEnds(xs[1..], ws[1..], bits)
  }

  function HighEnds(xs: seq<U32>, ws: seq<U32>, bits: nat): seq<U32>
    requires bits <= 23
  {
    if xs == [] || ws == [] then [] else [HighEnd(xs[0], ws[0], bits)] + HighEnds(xs[1..], ws[1..], bits)
  }

  // Every prefix length brackets the exact dot product, each bit narrows the bracket,
  // and all 23 bits close it.
  lemma {:induction false} DotBracketed(xs: seq<U32>, ws: seq<U32>, bits: nat)
    requires bits <= 23
    ensures Dot(LowEnds(xs, ws, bits), ws) <= Dot(xs, ws) <= Dot(HighEnds(xs, ws, bits), ws)
    ensures bits < 23 ==> Dot(LowEnds(xs, ws, bits), ws) <= Dot(LowEnds(xs, ws, bits + 1), ws)
    ensures bits < 23 ==> Dot(HighEnds(xs, ws, bits + 1), ws) <= Dot(HighEnds(xs, ws, bits), ws)
    ensures bits == 23 ==> Dot(LowEnds(xs, ws, bits), ws) == Dot(xs, ws) == Dot(HighEnds(xs, ws, bits), ws)
    decreases |xs|
  {
    hide LowEnd, HighEnd, Scaled;
    if xs == [] || ws == [] {
    } else {
      EndsBracket(xs[0], ws[0], bits);
      DotBracketed(xs[1..], ws[1..], bits);
      if bits < 23 {
        EndsUnfold(xs, ws, bits + 1);
      }
      EndsUnfold(xs, ws, bits);
    }
  }

  lemma EndsUnfold(xs: seq<U32>, ws: seq<U32>, bits: nat)
    requires bits <= 23 && xs != [] && ws != []
    ensures Dot(LowEnds(xs, ws, bits), ws) ==
      Scaled(LowEnd(xs[0], ws[0], bits)) * Scaled(ws[0]) + Dot(LowEnds(xs[1..], ws[1..], bits), ws[1..])
    ensures Dot(HighEnds(xs, ws, bits), ws) ==
      Scaled(HighEnd(xs[0], ws[0], bits)) * Scaled(ws[0]) + Dot(HighEnds(xs[1..], ws[1..], bits), ws[1..])
  {
    hide LowEnd, HighEnd, Scaled;
    assert LowEnds(xs, ws, bits)[1..] == LowEnds(xs[1..], ws[1..], bits);
    assert HighEnds(xs, ws, bits)[1..] == HighEnds(xs[1..], ws[1..], bits);
  }

  lemma {:induction false} EndsAreFinite(xs: seq<U32>, ws: seq<U32>, bits: nat)
    requires bits <= 23 && AllFinite(xs)
    ensures AllFinite(LowEnds(xs, ws, bits)) && AllFinite(HighEnds(xs, ws, bits))
    ensures |LowEnds(xs, ws, bits)| == |HighEnds(xs, ws, bits)| == Min(|xs|, |ws|)
    decreases |xs|
  {
    hide LowEnd, HighEnd, Finite;
    if xs == [] || ws == [] {
    } else {
      EndsBracket(xs[0], ws[0], bits);
      EndsAreFinite(xs[1..], ws[1..], bits);
    }
  }

  // ---- what the ends are the ends of ---------------------------------------------------------

  lemma {:induction false} LowBitsAreTheRest(u: nat, k: nat)
    ensures u == LowBits(u, k) + Pow2(k) * (u / Pow2(k))
    decreases k
  {
    hide Pow2, LowBits;
    LowBitsBound(u, k);
    LowBitsUnfold(u, k);
    if k == 0 {
      Pow2Zero();
    } else {
      Doubling(k - 1);
      LowBitsAreTheRest(u / 2, k - 1);
      var p, q := Pow2(k - 1), u / 2 / Pow2(k - 1);
      TwiceProduct(p, q);
      QuotientIs(u, Pow2(k), q, LowBits(u, k));
    }
  }

  lemma LowBitsUnfold(u: nat, k: nat)
    ensures LowBits(u, k) == if k == 0 then 0 else u % 2 + 2 * LowBits(u / 2, k - 1)
  {
  }

  lemma TwiceProduct(p: nat, q: nat)
    ensures 2 * (p * q) == q * (2 * p) == 2 * p * q
  {
  }

  // The same number with the low 23 - bits fraction bits forgotten.
  ghost predicate SameTop(y: U32, x: U32, bits: nat)
    requires bits <= 23
  {
    y / Pow2(23 - bits) == x / Pow2(23 - bits)
  }

  lemma SameTopSameEnds(y: U32, x: U32, w: U32, bits: nat)
    requires bits <= 23 && SameTop(y, x, bits)
    ensures LowEnd(y, w, bits) == LowEnd(x, w, bits) && HighEnd(y, w, bits) == HighEnd(x, w, bits)
  {
    hide Pow2, LowBits, Negative, Exponent, Fraction, Floor, Ceiling;
    SameTopSameBounds(y, x, bits);
    EndFractions(x, bits);
    EndFractions(y, bits);
  }

  lemma SameTopSameBounds(y: U32, x: U32, bits: nat)
    requires bits <= 23 && SameTop(y, x, bits)
    ensures Floor(y, bits) == Floor(x, bits) && Ceiling(y, bits) == Ceiling(x, bits)
  {
    hide Pow2, LowBits;
    LowBitsAreTheRest(x, 23 - bits);
    LowBitsAreTheRest(y, 23 - bits);
  }

  lemma EndsHaveSameTop(x: U32, w: U32, bits: nat)
    requires bits <= 23
    ensures SameTop(LowEnd(x, w, bits), x, bits) && SameTop(HighEnd(x, w, bits), x, bits)
  {
    hide Pow2, LowBits, Negative;
    var p := Pow2(23 - bits);
    LowBitsAreTheRest(x, 23 - bits);
    LowBitsBound(x, 23 - bits);
    QuotientIs(Floor(x, bits), p, x / p, 0);
    QuotientIs(Ceiling(x, bits), p, x / p, p - 1);
  }

  // The vectors that cannot be told from xs by sign, exponent and the top fraction bits.
  ghost predicate Alike(ys: seq<U32>, xs: seq<U32>, bits: nat)
    requires bits <= 23
  {
    |ys| == |xs| && forall i :: 0 <= i < |xs| ==> SameTop(ys[i], xs[i], bits)
  }

  lemma {:induction false} AlikeSameEnds(ys: seq<U32>, xs: seq<U32>, ws: seq<U32>, bits: nat)
    requires bits <= 23 && Alike(ys, xs, bits)
    ensures LowEnds(ys, ws, bits) == LowEnds(xs, ws, bits) && HighEnds(ys, ws, bits) == HighEnds(xs, ws, bits)
    decreases |xs|
  {
    hide LowEnd, HighEnd, SameTop;
    if xs == [] || ws == [] {
    } else {
      SameTopSameEnds(ys[0], xs[0], ws[0], bits);
      AlikeSameEnds(ys[1..], xs[1..], ws[1..], bits);
    }
  }

  // The ends, with the coordinates that no weight meets left as they are.
  lemma {:induction false} EndsAreAlike(xs: seq<U32>, ws: seq<U32>, bits: nat)
    requires bits <= 23
    ensures |LowEnds(xs, ws, bits)| == |HighEnds(xs, ws, bits)| == Min(|xs|, |ws|)
    ensures Alike(LowEnds(xs, ws, bits) + xs[Min(|xs|, |ws|)..], xs, bits)
    ensures Alike(HighEnds(xs, ws, bits) + xs[Min(|xs|, |ws|)..], xs, bits)
    decreases |xs|
  {
    hide LowEnd, HighEnd, Alike, SameTop;
    var n := Min(|xs|, |ws|);
    if xs == [] || ws == [] {
      assert [] + xs[0..] == xs;
      AlikeItself(xs, bits);
    } else {
      EndsHaveSameTop(xs[0], ws[0], bits);
      EndsAreAlike(xs[1..], ws[1..], bits);
      var extra, lows, highs := xs[n..], LowEnds(xs[1..], ws[1..], bits), HighEnds(xs[1..], ws[1..], bits);
      assert xs[1..][n - 1..] == extra;
      AlikeLonger(LowEnd(xs[0], ws[0], bits), lows + extra, xs, bits);
      AlikeLonger(HighEnd(xs[0], ws[0], bits), highs + extra, xs, bits);
      Glue([LowEnd(xs[0], ws[0], bits)], lows, extra);
      Glue([HighEnd(xs[0], ws[0], bits)], highs, extra);
    }
  }

  lemma AlikeItself(xs: seq<U32>, bits: nat)
    requires bits <= 23
    ensures Alike(xs, xs, bits)
  {
    hide Pow2;
  }

  lemma AlikeLonger(y: U32, ys: seq<U32>, xs: seq<U32>, bits: nat)
    requires bits <= 23 && xs != [] && SameTop(y, xs[0], bits) && Alike(ys, xs[1..], bits)
    ensures Alike([y] + ys, xs, bits)
  {
    hide SameTop;
    forall i | 0 <= i < |xs| ensures SameTop(([y] + ys)[i], xs[i], bits) {
      if i > 0 {
        assert ys[i - 1] == ([y] + ys)[i] && xs[1..][i - 1] == xs[i];
      }
    }
  }

  lemma {:induction false} DotIgnoresUnmet(a: seq<U32>, b: seq<U32>, ws: seq<U32>)
    requires |a| == |ws| || b == []
    ensures Dot(a + b, ws) == Dot(a, ws)
    decreases |a|
  {
    hide Scaled;
    if b == [] {
      assert a + b == a;
    } else if a == [] {
    } else {
      assert (a + b)[1..] == a[1..] + b;
      DotIgnoresUnmet(a[1..], b, ws[1..]);
    }
  }

  datatype Interval = Interval(lo: int, hi: int)

  // The interval is exactly the range of scores of the vectors like xs: all of them score
  // inside, and each end is the score of one.
  ghost predicate IsRange(
    interval: Interval, xs: seq<U32>, ws: seq<U32>, bias: U32, threshold: U32, bits: nat)
    requires bits <= 23
  {
    && (forall ys :: Alike(ys, xs, bits) ==> interval.lo <= Exact(ys, ws, bias, threshold) <= interval.hi)
    && (exists ys :: Alike(ys, xs, bits) && Exact(ys, ws, bias, threshold) == interval.lo)
    && (exists ys :: Alike(ys, xs, bits) && Exact(ys, ws, bias, threshold) == interval.hi)
  }

  lemma EndsAreTheRange(xs: seq<U32>, ws: seq<U32>, bias: U32, threshold: U32, bits: nat)
    requires bits <= 23
    ensures IsRange(
      Interval(
        Exact(LowEnds(xs, ws, bits), ws, bias, threshold), Exact(HighEnds(xs, ws, bits), ws, bias, threshold)),
      xs, ws, bias, threshold, bits)
  {
    hide Dot, LowEnds, HighEnds, Alike, Scaled, Pow2;
    forall ys | Alike(ys, xs, bits)
      ensures Dot(LowEnds(xs, ws, bits), ws) <= Dot(ys, ws) <= Dot(HighEnds(xs, ws, bits), ws)
    {
      AlikeSameEnds(ys, xs, ws, bits);
      DotBracketed(ys, ws, bits);
    }
    var n := Min(|xs|, |ws|);
    EndsAreAlike(xs, ws, bits);
    DotIgnoresUnmet(LowEnds(xs, ws, bits), xs[n..], ws);
    DotIgnoresUnmet(HighEnds(xs, ws, bits), xs[n..], ws);
    assert Alike(LowEnds(xs, ws, bits) + xs[n..], xs, bits);
    assert Alike(HighEnds(xs, ws, bits) + xs[n..], xs, bits);
  }

  // The certified refinement: one interval per prefix length, scored by the same
  // accumulators, each containing the exact score and nested in the one before.
  method Intervals(xs: seq<U32>, ws: seq<U32>, bias: U32, threshold: U32) returns (intervals: seq<Interval>)
    requires AllFinite(xs) && AllFinite(ws) && Finite(bias) && Finite(threshold)
    requires Min(|xs|, |ws|) <= 65536
    ensures |intervals| == 24
    ensures forall b :: 0 <= b < 24 ==> IsRange(intervals[b], xs, ws, bias, threshold, b)
    ensures forall b :: 0 <= b < 24 ==> intervals[b].lo <= Exact(xs, ws, bias, threshold) <= intervals[b].hi
    ensures forall b :: 0 <= b < 23 ==> intervals[b].lo <= intervals[b + 1].lo && intervals[b + 1].hi <= intervals[b].hi
    ensures intervals[23] == Interval(Exact(xs, ws, bias, threshold), Exact(xs, ws, bias, threshold))
  {
    hide Dot, LowEnds, HighEnds, Scaled, Finite, Pow2, IsRange;
    intervals := [];
    for bits := 0 to 24
      invariant |intervals| == bits
      invariant forall b :: 0 <= b < bits ==>
        && intervals[b].lo == Exact(LowEnds(xs, ws, b), ws, bias, threshold)
        && intervals[b].hi == Exact(HighEnds(xs, ws, b), ws, bias, threshold)
    {
      EndsAreFinite(xs, ws, bits);
      var lo := Score(LowEnds(xs, ws, bits), ws, bias, threshold);
      var hi := Score(HighEnds(xs, ws, bits), ws, bias, threshold);
      intervals := intervals + [Interval(lo, hi)];
    }
    forall b | 0 <= b < 24
      ensures intervals[b].lo <= Exact(xs, ws, bias, threshold) <= intervals[b].hi
      ensures b < 23 ==> intervals[b].lo <= intervals[b + 1].lo && intervals[b + 1].hi <= intervals[b].hi
      ensures b == 23 ==> intervals[b] == Interval(Exact(xs, ws, bias, threshold), Exact(xs, ws, bias, threshold))
    {
      DotBracketed(xs, ws, b);
    }
    forall b | 0 <= b < 24 ensures IsRange(intervals[b], xs, ws, bias, threshold, b) {
      EndsAreTheRange(xs, ws, bias, threshold, b);
    }
  }
}
