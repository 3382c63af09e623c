/**
 What the checksum's register computes: the remainder of the message, read as a
 polynomial over two elements, modulo the generator of RFC 1952. A number's bits are
 coefficients, its lowest bit the constant term; adding is exclusive or.
 */
module Polynomials {
  import opened Bytes
  import opened Crc
  import opened Powers

  // x^32 + x^26 + x^23 + x^22 + x^16 + x^12 + x^11 + x^10 + x^8 + x^7 + x^5 + x^4 + x^2 + x + 1
  const GENERATOR: nat := 0x1_04C1_1DB7

  // The product of q and the generator, without carries.
  function Times(q: nat): nat {
    if q == 0 then 0 else Xor(if q % 2 == 1 then GENERATOR else 0, 2 * Times(q / 2))
  }

  // Equal up to a multiple of the generator.
  ghost predicate Congruent(a: nat, b: nat) {
    exists q: nat :: Xor(a, b) == Times(q)
  }

  // ---- arithmetic without carries ----------------------------------------------------------

  lemma XorZero(a: nat)
    ensures Xor(0, a) == a && Xor(a, 0) == a
  {
    XorSelf(a);
    XorCommutes(0, a);
  }

  lemma XorDouble(a: nat, b: nat)
    ensures Xor(2 * a, 2 * b) == 2 * Xor(a, b)
  {
    hide Xor;
    XorHalf(2 * a, 2 * b);
    assert 2 * a / 2 == a && 2 * b / 2 == b;
  }

  lemma {:induction false} XorScale(a: nat, b: nat, k: nat)
    ensures Xor(Pow2(k) * a, Pow2(k) * b) == Pow2(k) * Xor(a, b)
    decreases k
  {
    hide Xor, Pow2;
    if k == 0 {
      Pow2Zero();
    } else {
      Doubling(k - 1);
      XorScale(a, b, k - 1);
      XorDouble(Pow2(k - 1) * a, Pow2(k - 1) * b);
      Twice(Pow2(k - 1), a);
      Twice(Pow2(k - 1), b);
      Twice(Pow2(k - 1), Xor(a, b));
    }
  }

  lemma Twice(p: nat, a: nat)
    ensures 2 * p * a == 2 * (p * a)
  {
  }

  lemma XorSwap(a: nat, b: nat, c: nat, d: nat)
    ensures Xor(Xor(a, b), Xor(c, d)) == Xor(Xor(a, c), Xor(b, d))
  {
    hide Xor;
    XorAssociates(a, b, Xor(c, d));
    XorAssociates(b, c, d);
    XorCommutes(b, c);
    XorAssociates(c, b, d);
    XorAssociates(a, c, Xor(b, d));
  }

  lemma TimesUnfold(q: nat)
    ensures Times(q) == Xor(if q % 2 == 1 then GENERATOR else 0, 2 * Times(q / 2))
  {
    if q == 0 {
      XorZero(0);
    }
  }

  lemma {:induction false} TimesAdds(p: nat, q: nat)
    ensures Xor(Times(p), Times(q)) == Times(Xor(p, q))
    decreases p + q
  {
    hide Xor, Times;
    if p + q == 0 {
      NothingTimes();
    } else {
      var g, h := if p % 2 == 1 then GENERATOR else 0, if q % 2 == 1 then GENERATOR else 0;
      TimesUnfold(p);
      TimesUnfold(q);
      TimesUnfold(Xor(p, q));
      TimesAdds(p / 2, q / 2);
      XorHalf(p, q);
      XorSwap(g, 2 * Times(p / 2), h, 2 * Times(q / 2));
      XorDouble(Times(p / 2), Times(q / 2));
      XorZero(g);
      XorZero(h);
      XorSelf(g);
    }
  }

  lemma NothingTimes()
    ensures Xor(0, 0) == 0 && Times(0) == 0 && Times(1) == GENERATOR
  {
    hide Xor;
    var g := GENERATOR;
    XorZero(0);
    XorZero(g);
    TimesUnfold(1);
  }

  // ---- congruence --------------------------------------------------------------------------

  lemma Reflexive(a: nat)
    ensures Congruent(a, a)
  {
    XorSelf(a);
    assert Xor(a, a) == Times(0);
  }

  lemma Transitive(a: nat, b: nat, c: nat)
    requires Congruent(a, b) && Congruent(b, c)
    ensures Congruent(a, c)
  {
    hide Xor, Times;
    var p: nat :| Xor(a, b) == Times(p);
    var q: nat :| Xor(b, c) == Times(q);
    TimesAdds(p, q);
    XorAssociates(Xor(a, b), b, c);
    XorAssociates(a, b, b);
    XorSelf(b);
    XorSelf(a);
    assert Xor(a, c) == Times(Xor(p, q));
  }

  lemma CongruentDouble(a: nat, b: nat)
    requires Congruent(a, b)
    ensures Congruent(2 * a, 2 * b)
  {
    hide Xor, Times;
    var q: nat :| Xor(a, b) == Times(q);
    XorDouble(a, b);
    TimesUnfold(2 * q);
    XorZero(2 * Times(q));
    assert Xor(2 * a, 2 * b) == Times(2 * q);
  }

  lemma {:induction false} CongruentScale(a: nat, b: nat, k: nat)
    requires Congruent(a, b)
    ensures Congruent(Pow2(k) * a, Pow2(k) * b)
    decreases k
  {
    hide Congruent;
    if k == 0 {
    } else {
      CongruentScale(a, b, k - 1);
      CongruentDouble(Pow2(k - 1) * a, Pow2(k - 1) * b);
    }
  }

  lemma CongruentAdd(a: nat, b: nat, c: nat)
    requires Congruent(a, b)
    ensures Congruent(Xor(a, c), Xor(b, c))
  {
    hide Xor, Times;
    var q: nat :| Xor(a, b) == Times(q);
    XorSwap(a, c, b, c);
    XorSelf(c);
    XorSelf(Xor(a, b));
    assert Xor(Xor(a, c), Xor(b, c)) == Times(q);
  }

  lemma {:induction false} XorTall(a: nat, b: nat, k: nat)
    requires a < Pow2(k) <= b
    ensures Xor(a, b) >= Pow2(k) && Xor(b, a) >= Pow2(k)
    decreases k
  {
    if k == 0 {
      XorZero(b);
    } else {
      XorTall(a / 2, b / 2, k - 1);
    }
  }

  lemma {:induction false} MultiplesAreTall(q: nat)
    requires q > 0
    ensures Times(q) >= 0x1_0000_0000
  {
    hide Xor;
    if q == 1 {
      NothingTimes();
    } else {
      Pow2Of32();
      MultiplesAreTall(q / 2);
      assert Pow2(33) == 2 * Pow2(32);
      XorTall(if q % 2 == 1 then GENERATOR else 0, 2 * Times(q / 2), 33);
    }
  }

  // There is only one remainder.
  lemma RemainderIsUnique(a: U32, b: U32)
    requires Congruent(a, b)
    ensures a == b
  {
    hide Xor, Times;
    var q: nat :| Xor(a, b) == Times(q);
    XorBound(a, b);
    if q > 0 {
      MultiplesAreTall(q);
    }
    NothingTimes();
    XorSelf(b);
    XorCancels(a, b, b);
  }

  // ---- reflection ----------------------------------------------------------------------------

  function Bit(u: nat, i: nat): nat
    decreases i
  {
    if i == 0 then u % 2 else Bit(u / 2, i - 1)
  }

  // The low k bits in reverse: the register's low bit is its highest power.
  function Reflect(u: nat, k: nat): nat {
    if k == 0 then 0 else 2 * Reflect(u, k - 1) + Bit(u, k - 1)
  }

  lemma {:induction false} BitBound(u: nat, i: nat)
    ensures Bit(u, i) <= 1 && (u < Pow2(i) ==> Bit(u, i) == 0)
    decreases i
  {
    if i == 0 {
    } else {
      BitBound(u / 2, i - 1);
    }
  }

  lemma {:induction false} ReflectBound(u: nat, k: nat)
    ensures Reflect(u, k) < Pow2(k)
  {
    if k == 0 {
    } else {
      ReflectBound(u, k - 1);
      BitBound(u, k - 1);
    }
  }

  lemma {:induction false} BitOfXor(a: nat, b: nat, i: nat)
    ensures Bit(Xor(a, b), i) == (Bit(a, i) + Bit(b, i)) % 2
    decreases i
  {
    hide Xor;
    XorHalf(a, b);
    if i == 0 {
    } else {
      BitOfXor(a / 2, b / 2, i - 1);
    }
  }

  lemma {:induction false} ReflectAdds(a: nat, b: nat, k: nat)
    ensures Reflect(Xor(a, b), k) == Xor(Reflect(a, k), Reflect(b, k))
    decreases k
  {
    hide Xor, Bit, Reflect;
    if k == 0 {
      NothingReflects(a);
      NothingReflects(b);
      NothingReflects(Xor(a, b));
      XorZero(0);
    } else {
      ReflectUnfold(a, k - 1);
      ReflectUnfold(b, k - 1);
      ReflectUnfold(Xor(a, b), k - 1);
      ReflectAdds(a, b, k - 1);
      BitOfXor(a, b, k - 1);
      BitBound(a, k - 1);
      BitBound(b, k - 1);
      var s, t, x, y := Reflect(a, k - 1), Reflect(b, k - 1), Bit(a, k - 1), Bit(b, k - 1);
      XorHalf(2 * s + x, 2 * t + y);
      assert (2 * s + x) / 2 == s && (2 * t + y) / 2 == t;
    }
  }

  lemma ReflectUnfold(u: nat, k: nat)
    ensures Reflect(u, k + 1) == 2 * Reflect(u, k) + Bit(u, k)
    ensures Bit(u, k) == if k == 0 then u % 2 else Bit(u / 2, k - 1)
  {
  }

  // Dropping the low bit drops the highest power.
  lemma {:induction false} ReflectHalf(u: nat, k: nat)
    ensures Reflect(u, k + 1) == u % 2 * Pow2(k) + Reflect(u / 2, k)
    decreases k
  {
    hide Pow2, Bit, Reflect;
    ReflectUnfold(u, k);
    if k == 0 {
      Pow2Zero();
      NothingReflects(u);
      NothingReflects(u / 2);
    } else {
      ReflectHalf(u, k - 1);
      ReflectUnfold(u / 2, k - 1);
      Doubling(k - 1);
      Twice(Pow2(k - 1), u % 2);
    }
  }

  // Low and high bits reflect apart.
  lemma {:induction false} ReflectSplit(low: nat, high: nat, j: nat, k: nat)
    requires low < Pow2(j)
    ensures Reflect(low + Pow2(j) * high, j + k) == Reflect(low, j) * Pow2(k) + Reflect(high, k)
    decreases j
  {
    hide Reflect;
    if j == 0 {
      NothingReflects(low);
    } else {
      var u, p := low + Pow2(j) * high, Pow2(j - 1);
      Twice(p, high);
      ReflectHalf(u, j + k - 1);
      ReflectHalf(low, j - 1);
      assert u % 2 == low % 2 && u / 2 == low / 2 + p * high;
      ReflectSplit(low / 2, high, j - 1, k);
      Pow2Adds(j - 1, k);
      Spread(low % 2, p, Reflect(low / 2, j - 1), Pow2(k));
    }
  }

  lemma NothingReflects(u: nat)
    ensures Reflect(u, 0) == 0
  {
  }

  lemma Spread(a: nat, b: nat, c: nat, d: nat)
    ensures (a * b + c) * d == a * (b * d) + c * d
  {
  }

  lemma {:induction false} ReflectShort(u: nat, k: nat, m: nat)
    requires u < Pow2(k)
    ensures Reflect(u, k + m) == Pow2(m) * Reflect(u, k)
    decreases m
  {
    hide Pow2;
    if m == 0 {
      Pow2Zero();
    } else {
      ReflectShort(u, k, m - 1);
      Pow2Grows(k, k + m - 1);
      BitBound(u, k + m - 1);
      Doubling(m - 1);
      Twice(Pow2(m - 1), Reflect(u, k));
    }
  }

  lemma {:induction false} ScaleOfOne(k: nat)
    ensures Scale(1, k) == Pow2(k)
  {
    hide Scale, Pow2;
    if k == 0 {
      Pow2Zero();
      NothingScaled();
    } else {
      ScaleEven(1, k);
      Doubling(k - 1);
      ScaleOfOne(k - 1);
    }
  }

  lemma NothingScaled()
    ensures Scale(1, 0) == 1
  {
  }

  lemma TopsCancel(a: nat, b: nat, k: nat)
    requires a < Pow2(k) && b < Pow2(k)
    ensures Xor(Pow2(k) + a, Pow2(k) + b) == Xor(a, b)
  {
    hide Xor, Scale, Pow2;
    var top := Pow2(k);
    ScaleOfOne(k);
    XorDisjoint(a, 1, k);
    XorDisjoint(b, 1, k);
    XorSwap(a, top, b, top);
    XorSelf(top);
    XorSelf(Xor(a, b));
  }

  // ---- the register ----------------------------------------------------------------------------

  lemma ReflectedPolynomial()
    ensures 0x1_0000_0000 + Reflect(POLYNOMIAL, 32) == GENERATOR
  {
    hide Reflect, Pow2;
    ReflectedBytes();
    Pow2Landmarks();
    OctetWidths();
    ReflectSplit(0xB8, 0xED, 8, 8);
    ReflectSplit(0x83, 0xEDB8, 8, 16);
    ReflectSplit(0x20, 0xEDB883, 8, 24);
  }

  lemma LowNibbles()
    ensures Reflect(0x0, 4) == 0x0 && Reflect(0x2, 4) == 0x4 && Reflect(0x3, 4) == 0xC
  {
  }

  lemma HighNibbles()
    ensures Reflect(0x8, 4) == 0x1 && Reflect(0xB, 4) == 0xD
  {
  }

  lemma TopNibbles()
    ensures Reflect(0xD, 4) == 0xB && Reflect(0xE, 4) == 0x7
  {
  }

  lemma ReflectedBytes()
    ensures Reflect(0x20, 8) == 0x04 && Reflect(0x83, 8) == 0xC1
    ensures Reflect(0xB8, 8) == 0x1D && Reflect(0xED, 8) == 0xB7
  {
    hide Reflect;
    LowNibbles();
    HighNibbles();
    TopNibbles();
    assert Pow2(4) == 16;
    ReflectSplit(0x0, 0x2, 4, 4);
    ReflectSplit(0x3, 0x8, 4, 4);
    ReflectSplit(0x8, 0xB, 4, 4);
    ReflectSplit(0xD, 0xE, 4, 4);
  }

  lemma OctetWidths()
    ensures Pow2(8) == 0x100 && Pow2(16) == 0x1_0000 && Pow2(24) == 0x100_0000
  {
    hide Pow2;
    Pow2Zero();
    Pow2Byte(0);
    Pow2Byte(8);
    Pow2Byte(16);
  }

  // One register step multiplies by x, modulo the generator.
  lemma ShiftMultiplies(r: U32)
    ensures Congruent(Reflect(Shift(r), 32), 2 * Reflect(r, 32))
  {
    hide Xor, Reflect, Bit, Times;
    Pow2Of32();
    ReflectHalf(r, 31);
    ReflectShort(r / 2, 31, 1);
    assert Pow2(1) == 2;
    var half := Reflect(r / 2, 32);
    if r % 2 == 0 {
      Reflexive(half);
    } else {
      ReflectBound(r / 2, 32);
      ReflectBound(POLYNOMIAL, 32);
      ReflectedPolynomial();
      ReflectAdds(r / 2, POLYNOMIAL, 32);
      var low := Reflect(POLYNOMIAL, 32);
      TopsCancel(half, low, 32);
      XorBound(r / 2, POLYNOMIAL);
      Borrowed(2 * Reflect(r, 32), Reflect(Shift(r), 32));
    }
  }

  lemma Borrowed(a: nat, b: nat)
    requires b == Xor(a, GENERATOR)
    ensures Congruent(b, a)
  {
    hide Xor, Times;
    XorCommutes(a, GENERATOR);
    XorAssociates(GENERATOR, a, a);
    XorSelf(a);
    XorSelf(GENERATOR);
    NothingTimes();
    assert Xor(b, a) == Times(1);
  }

  lemma {:induction false} ShiftsMultiply(r: U32, n: nat)
    ensures Congruent(Reflect(Shifts(r, n), 32), Pow2(n) * Reflect(r, 32))
  {
    hide Xor, Reflect, Congruent, Shift;
    if n == 0 {
      Reflexive(Reflect(r, 32));
    } else {
      var before := Shifts(r, n - 1);
      ShiftsMultiply(r, n - 1);
      ShiftMultiplies(before);
      CongruentDouble(Reflect(before, 32), Pow2(n - 1) * Reflect(r, 32));
      Transitive(Reflect(Shift(before), 32), 2 * Reflect(before, 32), 2 * (Pow2(n - 1) * Reflect(r, 32)));
    }
  }

  // The message as a polynomial: first byte highest, low bit of each byte highest.
  function Message(bytes: seq<Byte>): nat {
    if bytes == [] then 0 else 256 * Message(bytes[..|bytes| - 1]) + Reflect(bytes[|bytes| - 1], 8)
  }

  // The message times x^32, plus the initial register in front of it.
  function Dividend(r: U32, bytes: seq<Byte>): nat {
    Xor(Pow2(32) * Message(bytes), Pow2(8 * |bytes|) * Reflect(r, 32))
  }

  lemma FeedLast(r: U32, front: seq<Byte>, last: Byte)
    ensures Xor(Feed(r, front), last) < 0x1_0000_0000
    ensures Feed(r, front + [last]) == Shifts(Xor(Feed(r, front), last), 8)
  {
    hide Xor;
    FeedConcat(r, front, [last]);
    XorBound(Feed(r, front), last);
    assert [last][1..] == [];
  }

  lemma ByteJoins(m: nat, byte: Byte)
    ensures Reflect(byte, 8) < 256 && Xor(256 * m, Reflect(byte, 8)) == 256 * m + Reflect(byte, 8)
  {
    hide Xor, Reflect;
    assert Pow2(8) == 256;
    ReflectBound(byte, 8);
    ScaleByByte(m);
    XorDisjoint(Reflect(byte, 8), m, 8);
    XorCommutes(256 * m, Reflect(byte, 8));
  }

  // One more byte multiplies the dividend by x^n and adds the byte, times x^width.
  predicate Extends(r: U32, front: seq<Byte>, last: Byte, n: nat, width: nat) {
    Dividend(r, front + [last]) == Xor(Pow2(n) * Dividend(r, front), Pow2(width) * Reflect(last, n))
  }

  lemma DividendGrows(r: U32, front: seq<Byte>, last: Byte)
    ensures Extends(r, front, last, 8, 32)
  {
    hide Xor, Reflect, Pow2;
    var m, b, bytes := Message(front), Reflect(last, 8), front + [last];
    var init, p, q := Reflect(r, 32), Pow2(32), Pow2(8 * |front|);
    assert bytes[..|front|] == front;
    assert Pow2(8) == 256 by { Pow2Byte(0); Pow2Zero(); }
    Pow2Adds(8, 8 * |front|);
    XorScale(p * m, q * init, 8);
    Reorder(p, m);
    assert 256 * (q * init) == 256 * q * init;
    ByteJoins(m, last);
    XorScale(256 * m, b, 32);
    XorAssociates(p * (256 * m), 256 * q * init, p * b);
    XorCommutes(256 * q * init, p * b);
    XorAssociates(p * (256 * m), p * b, 256 * q * init);
  }

  lemma Reorder(p: nat, m: nat)
    ensures 256 * (p * m) == p * (256 * m)
  {
  }

  // Whatever was fed, the register is congruent to the dividend.
  lemma {:induction false} RegisterIsCongruent(r: U32, bytes: seq<Byte>)
    ensures Congruent(Reflect(Feed(r, bytes), 32), Dividend(r, bytes))
    decreases |bytes|
  {
    hide Xor, Reflect, Congruent, Feed, Shifts, Dividend, Pow2;
    if bytes == [] {
      NothingFed(r);
    } else {
      var front, last := bytes[..|bytes| - 1], bytes[|bytes| - 1];
      assert bytes == front + [last];
      RegisterIsCongruent(r, front);
      FeedLast(r, front, last);
      DividendGrows(r, front, last);
      ByteFed(Feed(r, front), last, Xor(Feed(r, front), last));
      var s, d, b := Reflect(Feed(r, front), 32), Dividend(r, front), Pow2(32) * Reflect(last, 8);
      CongruentScale(s, d, 8);
      CongruentAdd(Pow2(8) * s, Pow2(8) * d, b);
      Transitive(Reflect(Feed(r, bytes), 32), Xor(Pow2(8) * s, b), Xor(Pow2(8) * d, b));
    }
  }

  lemma NothingFed(r: U32)
    ensures Congruent(Reflect(Feed(r, []), 32), Dividend(r, []))
  {
    hide Xor, Reflect, Congruent, Pow2;
    Pow2Zero();
    XorZero(Reflect(r, 32));
    Reflexive(Reflect(r, 32));
  }

  // x is the register with a byte mixed in, before the n steps that take the byte in.
  ghost predicate TakesIn(r: U32, byte: Byte, x: U32, n: nat, width: nat) {
    Congruent(
      Reflect(Shifts(x, n), width), Xor(Pow2(n) * Reflect(r, width), Pow2(24 + n) * Reflect(byte, n)))
  }

  lemma ByteFed(r: U32, byte: Byte, x: U32)
    requires x == Xor(r, byte)
    ensures TakesIn(r, byte, x, 8, 32)
  {
    hide Xor, Reflect, Congruent, Shifts, Pow2;
    var n := 8;
    OctetWidths();
    ShiftsMultiply(x, n);
    ReflectAdds(r, byte, 32);
    ReflectShort(byte, n, 24);
    XorScale(Reflect(r, 32), Pow2(24) * Reflect(byte, n), n);
    Pow2Adds(24, n);
    Regroup(Pow2(n), Pow2(24), Reflect(byte, n));
  }

  lemma Regroup(a: nat, b: nat, c: nat)
    ensures a * (b * c) == b * a * c
  {
  }

  // The complemented checksum, reflected, is the remainder of the message after 32 ones
  // and before 32 zeros; no other 32-bit word is.
  lemma CrcIsRemainder(bytes: seq<Byte>, remainder: U32)
    ensures Congruent(remainder, Dividend(ONES, bytes)) <==> remainder == Reflect(ONES - Crc32(bytes), 32)
  {
    hide Xor, Reflect, Congruent, Feed, Dividend;
    Pow2Of32();
    RegisterIsCongruent(ONES, bytes);
    ReflectBound(Feed(ONES, bytes), 32);
    var register := Reflect(Feed(ONES, bytes), 32);
    if Congruent(remainder, Dividend(ONES, bytes)) {
      Symmetric(register, Dividend(ONES, bytes));
      Transitive(remainder, Dividend(ONES, bytes), register);
      RemainderIsUnique(remainder, register);
    }
  }

  lemma Symmetric(a: nat, b: nat)
    requires Congruent(a, b)
    ensures Congruent(b, a)
  {
    hide Xor, Times;
    XorCommutes(a, b);
  }
}
