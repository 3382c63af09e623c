/**
 Powers of two and little-endian arrays of 64-bit limbs, shared by the checksum and the
 two exact-arithmetic kernels.
 */
module Powers {

  function Pow2(k: nat): (p: nat)
    ensures p >= 1
  {
    if k == 0 then 1 else 2 * Pow2(k - 1)
  }

  lemma {:induction false} Pow2Adds(a: nat, b: nat)
    ensures Pow2(a + b) == Pow2(a) * Pow2(b)
    decreases a
  {
    if a == 0 {
    } else {
      Pow2Adds(a - 1, b);
      assert Pow2(a + b) == 2 * (Pow2(a - 1) * Pow2(b));
    }
  }

  lemma {:induction false} Pow2Grows(a: nat, b: nat)
    requires a <= b
    ensures Pow2(a) <= Pow2(b)
    decreases b
  {
    if a == b {
    } else {
      Pow2Grows(a, b - 1);
    }
  }

  lemma Pow2Byte(k: nat)
    ensures Pow2(k + 8) == 256 * Pow2(k)
  {
    assert Pow2(k + 2) == 4 * Pow2(k);
    assert Pow2(k + 4) == 4 * Pow2(k + 2);
    assert Pow2(k + 6) == 4 * Pow2(k + 4);
    assert Pow2(k + 8) == 4 * Pow2(k + 6);
  }

  lemma Pow2Landmarks()
    ensures Pow2(8) == 0x100 && Pow2(16) == 0x1_0000 && Pow2(24) == 0x100_0000
    ensures Pow2(31) == 0x8000_0000 && Pow2(32) == 0x1_0000_0000
    ensures Pow2(64) == 0x1_0000_0000_0000_0000
  {
    hide Pow2;
    Pow2Zero();
    Pow2Byte(0);
    Pow2Byte(8);
    Pow2Byte(16);
    Pow2Byte(24);
    Doubling(31);
    Pow2Byte(32);
    Pow2Byte(40);
    Pow2Byte(48);
    Pow2Byte(56);
  }

  lemma Pow2Zero()
    ensures Pow2(0) == 1
  {
  }

  lemma Doubling(k: nat)
    ensures Pow2(k + 1) == 2 * Pow2(k)
  {
  }

  lemma MulCompare(a: nat, b: nat, c: nat, d: nat)
    requires a <= b && c <= d
    ensures a * c <= b * d
  {
    assert a * c <= b * c <= b * d;
  }
}

module Limbs {
  import opened Bytes
  import opened Powers

  const B: nat := 0x1_0000_0000_0000_0000

  lemma BaseIsPower()
    ensures Pow2(64) == B
  {
    hide Pow2;
    Pow2Landmarks();
  }

  function PowB(i: nat): (p: nat)
    ensures p >= 1
  {
    if i == 0 then 1 else B * PowB(i - 1)
  }

  lemma {:induction false} PowBIsPow2(i: nat)
    ensures PowB(i) == Pow2(64 * i)
  {
    if i == 0 {
    } else {
      PowBIsPow2(i - 1);
      BaseIsPower();
      Pow2Adds(64, 64 * (i - 1));
    }
  }

  lemma {:induction false} PowBGrows(i: nat, j: nat)
    requires i <= j
    ensures PowB(i) <= PowB(j)
    decreases j
  {
    if i == j {
    } else {
      PowBGrows(i, j - 1);
    }
  }

  // The integer a limb sequence stands for.
  function Value(ws: seq<U64>): nat {
    if ws == [] then 0 else ws[0] + B * Value(ws[1..])
  }

  lemma NoLimbs()
    ensures Value([]) == 0 && PowB(0) == 1
  {
  }

  lemma NextPower(i: nat)
    ensures PowB(i + 1) == B * PowB(i)
  {
  }

  lemma {:induction false} Zeros(ws: seq<U64>)
    requires forall i :: 0 <= i < |ws| ==> ws[i] == 0
    ensures Value(ws) == 0
    decreases |ws|
  {
    if ws == [] {
    } else {
      Zeros(ws[1..]);
    }
  }

  lemma {:induction false} ValueAppend(ws: seq<U64>, w: U64)
    ensures Value(ws + [w]) == Value(ws) + w * PowB(|ws|)
    decreases |ws|
  {
    if ws == [] {
      assert [w][1..] == [];
    } else {
      assert (ws + [w])[1..] == ws[1..] + [w];
      ValueAppend(ws[1..], w);
      assert B * (w * PowB(|ws| - 1)) == w * PowB(|ws|);
    }
  }

  lemma {:induction false} ValueBound(ws: seq<U64>)
    ensures Value(ws) < PowB(|ws|)
    decreases |ws|
  {
    if ws == [] {
    } else {
      ValueBound(ws[1..]);
    }
  }

  lemma {:induction false} ValueUpdate(ws: seq<U64>, i: nat, w: U64)
    requires i < |ws|
    ensures Value(ws[i := w]) == Value(ws) + (w - ws[i]) * PowB(i)
    decreases |ws|
  {
    if i == 0 {
      assert ws[0 := w][1..] == ws[1..];
    } else {
      assert ws[i := w][1..] == ws[1..][i - 1 := w];
      ValueUpdate(ws[1..], i - 1, w);
      assert B * ((w - ws[i]) * PowB(i - 1)) == (w - ws[i]) * PowB(i);
    }
  }

  // Comparison as Python compares reversed tuples: from the most significant limb down.
  predicate AtLeast(a: seq<U64>, b: seq<U64>)
    requires |a| == |b|
    decreases |a|
  {
    if a == [] then true
    else
      var n := |a| - 1;
      a[n] > b[n] || (a[n] == b[n] && AtLeast(a[..n], b[..n]))
  }

  lemma {:induction false} AtLeastIsValue(a: seq<U64>, b: seq<U64>)
    requires |a| == |b|
    ensures AtLeast(a, b) <==> Value(a) >= Value(b)
    decreases |a|
  {
    if a == [] {
    } else {
      var n := |a| - 1;
      assert a == a[..n] + [a[n]] && b == b[..n] + [b[n]];
      ValueAppend(a[..n], a[n]);
      ValueAppend(b[..n], b[n]);
      ValueBound(a[..n]);
      ValueBound(b[..n]);
      AtLeastIsValue(a[..n], b[..n]);
      TopDecides(Value(a[..n]), a[n], Value(b[..n]), b[n], PowB(n));
    }
  }

  lemma TopDecides(low: nat, top: nat, low': nat, top': nat, p: nat)
    requires low < p && low' < p
    ensures top > top' ==> low + top * p > low' + top' * p
    ensures top < top' ==> low + top * p < low' + top' * p
  {
    if top > top' {
      assert top * p >= (top' + 1) * p == top' * p + p;
    }
    if top < top' {
      assert top' * p >= (top + 1) * p == top * p + p;
    }
  }

  // Adding at a limb and carrying the rest one limb up keeps the total.
  lemma CarryStep(limb: U64, v: nat, p: nat)
    ensures ((limb + v) % B - limb) * p + (limb + v) / B * (B * p) == v * p
  {
    var z := limb + v;
    calc {
      (z % B - limb) * p + z / B * (B * p);
      (z % B - limb) * p + (z / B * B) * p;
      (z % B - limb + z / B * B) * p;
      v * p;
    }
  }
}
