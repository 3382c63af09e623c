/**
 The checksum of journal_core.rs: CRC-32 as in section 8 of RFC 1952, over a
 32-bit register kept as an integer. Every register step is a bijection, which
 is what lets one damaged stretch of bytes never be mistaken for the original.
 */
module Crc {
  import opened Bytes
  import opened Powers

  const TOP: nat := 0x8000_0000
  const POLYNOMIAL: U32 := 0xEDB8_8320
  const ONES: U32 := 0xFFFF_FFFF

  // Exclusive or, one bit at a time.
  function Xor(a: nat, b: nat): (c: nat)
    decreases a + b
  {
    if a == 0 && b == 0 then 0 else (a + b) % 2 + 2 * Xor(a / 2, b / 2)
  }

  // (r >> 1) ^ (POLYNOMIAL & 0.wrapping_sub(r & 1)): the mask is all ones or zero.
  function Shift(r: U32): (s: U32)
  {
    XorBound(r / 2, POLYNOMIAL);
    if r % 2 == 1 then Xor(r / 2, POLYNOMIAL) else r / 2
  }

  function Shifts(r: U32, count: nat): (s: U32) {
    if count == 0 then r else Shift(Shifts(r, count - 1))
  }

  function Feed(r: U32, bytes: seq<Byte>): (s: U32)
    decreases |bytes|
  {
    if bytes == [] then r
    else
      XorBound(r, bytes[0]);
      Feed(Shifts(Xor(r, bytes[0]), 8), bytes[1..])
  }

  function Crc32(bytes: seq<Byte>): (c: U32) {
    ONES - Feed(ONES, bytes)
  }

  lemma Pow2Of32()
    ensures Pow2(32) == 0x1_0000_0000 && Pow2(31) == TOP
  {
    hide Pow2;
    Pow2Landmarks();
  }

  lemma {:induction false} XorBoundPow(a: nat, b: nat, k: nat)
    requires a < Pow2(k) && b < Pow2(k)
    ensures Xor(a, b) < Pow2(k)
    decreases k
  {
    if k == 0 {
    } else {
      XorBoundPow(a / 2, b / 2, k - 1);
    }
  }

  lemma XorBound(a: nat, b: nat)
    requires a < 0x1_0000_0000 && b < 0x1_0000_0000
    ensures Xor(a, b) < 0x1_0000_0000
  {
    Pow2Of32();
    XorBoundPow(a, b, 32);
  }

  lemma {:induction false} XorCommutes(a: nat, b: nat)
    ensures Xor(a, b) == Xor(b, a)
    decreases a + b
  {
    if a == 0 && b == 0 {
    } else {
      XorCommutes(a / 2, b / 2);
    }
  }

  lemma {:induction false} XorAssociates(a: nat, b: nat, c: nat)
    ensures Xor(Xor(a, b), c) == Xor(a, Xor(b, c))
    decreases a + b + c
  {
    if a + b + c == 0 {
    } else {
      hide Xor;
      var x, y := Xor(a, b), Xor(b, c);
      XorHalf(a, b);
      XorHalf(b, c);
      XorHalf(x, c);
      XorHalf(a, y);
      assert (x + c) % 2 == (a + y) % 2 by {
        ParityAssociates(a, b, c, x, y);
      }
      assert Xor(x / 2, c / 2) == Xor(a / 2, y / 2) by {
        XorAssociates(a / 2, b / 2, c / 2);
      }
      SameHalves(Xor(x, c), Xor(a, y));
    }
  }

  lemma ParityAssociates(a: nat, b: nat, c: nat, x: nat, y: nat)
    requires x % 2 == (a + b) % 2 && y % 2 == (b + c) % 2
    ensures (x + c) % 2 == (a + y) % 2
  {
  }

  lemma SameHalves(m: nat, n: nat)
    requires m / 2 == n / 2 && m % 2 == n % 2
    ensures m == n
  {
  }

  lemma XorHalf(a: nat, b: nat)
    ensures Xor(a, b) / 2 == Xor(a / 2, b / 2)
    ensures Xor(a, b) % 2 == (a + b) % 2
  {
  }

  lemma {:induction false} XorSelf(a: nat)
    ensures Xor(a, a) == 0 && Xor(a, 0) == a
  {
    if a == 0 {
    } else {
      XorSelf(a / 2);
    }
  }

  lemma XorCancels(a: nat, b: nat, c: nat)
    requires Xor(a, c) == Xor(b, c)
    ensures a == b
  {
    hide Xor;
    XorAssociates(a, c, c);
    XorAssociates(b, c, c);
    XorSelf(c);
    XorSelf(a);
    XorSelf(b);
  }

  lemma {:induction false} XorTopBit(a: nat, b: nat, k: nat)
    requires a < Pow2(k) <= b < Pow2(k + 1)
    ensures Xor(a, b) >= Pow2(k)
    decreases k
  {
    if k == 0 {
      assert Pow2(1) == 2;
    } else {
      assert Pow2(k + 1) == 2 * Pow2(k);
      XorTopBit(a / 2, b / 2, k - 1);
    }
  }

  // One register step loses nothing: the top bit says whether the polynomial was mixed in.
  lemma ShiftInjective(a: U32, b: U32)
    requires Shift(a) == Shift(b)
    ensures a == b
  {
    hide Xor;
    Pow2Of32();
    XorTopBit(a / 2, POLYNOMIAL, 31);
    XorTopBit(b / 2, POLYNOMIAL, 31);
    if a % 2 == 1 && b % 2 == 1 {
      XorCancels(a / 2, b / 2, POLYNOMIAL);
    }
  }

  lemma {:induction false} ShiftsInjective(a: U32, b: U32, count: nat)
    requires Shifts(a, count) == Shifts(b, count)
    ensures a == b
  {
    hide Xor;
    if count == 0 {
    } else {
      ShiftInjective(Shifts(a, count - 1), Shifts(b, count - 1));
      ShiftsInjective(a, b, count - 1);
    }
  }

  lemma {:induction false} FeedConcat(r: U32, a: seq<Byte>, b: seq<Byte>)
    ensures Feed(r, a + b) == Feed(Feed(r, a), b)
    decreases |a|
  {
    hide Xor;
    if a == [] {
      assert a + b == b;
    } else {
      XorBound(r, a[0]);
      assert (a + b)[1..] == a[1..] + b;
      FeedConcat(Shifts(Xor(r, a[0]), 8), a[1..], b);
    }
  }

  lemma {:induction false} FeedInjective(r: U32, s: U32, bytes: seq<Byte>)
    requires Feed(r, bytes) == Feed(s, bytes)
    ensures r == s
    decreases |bytes|
  {
    hide Xor;
    if bytes == [] {
    } else {
      XorBound(r, bytes[0]);
      XorBound(s, bytes[0]);
      FeedInjective(Shifts(Xor(r, bytes[0]), 8), Shifts(Xor(s, bytes[0]), 8), bytes[1..]);
      ShiftsInjective(Xor(r, bytes[0]), Xor(s, bytes[0]), 8);
      XorCancels(r, s, bytes[0]);
    }
  }

  // Input that has not reached the low bit passes through a step unchanged, one place lower.
  lemma ShiftSlides(x: U32, y: nat)
    requires y < TOP
    ensures Xor(x, 2 * y) < 0x1_0000_0000
    ensures Shift(Xor(x, 2 * y)) == Xor(Shift(x), y)
  {
    hide Xor;
    XorBound(x, 2 * y);
    var z := Xor(x, 2 * y);
    assert z % 2 == x % 2 && z / 2 == Xor(x / 2, y) by {
      XorHalf(x, 2 * y);
      assert 2 * y / 2 == y;
    }
    if x % 2 == 1 {
      calc {
        Xor(Xor(x / 2, y), POLYNOMIAL);
        { XorAssociates(x / 2, y, POLYNOMIAL); XorCommutes(y, POLYNOMIAL); }
        Xor(x / 2, Xor(POLYNOMIAL, y));
        { XorAssociates(x / 2, POLYNOMIAL, y); }
        Xor(Xor(x / 2, POLYNOMIAL), y);
      }
    }
  }

  function Scale(y: nat, count: nat): (z: nat)
    ensures z >= y
    decreases count
  {
    if count == 0 then y else Scale(2 * y, count - 1)
  }

  lemma {:induction false} ShiftsSlide(x: U32, y: nat, count: nat)
    requires Scale(y, count) < 0x1_0000_0000
    ensures Xor(x, Scale(y, count)) < 0x1_0000_0000
    ensures Shifts(Xor(x, Scale(y, count)), count) == Xor(Shifts(x, count), y)
    decreases count
  {
    hide Xor;
    XorBound(x, Scale(y, count));
    if count == 0 {
    } else {
      ShiftsSlide(x, 2 * y, count - 1);
      ShiftSlides(Shifts(x, count - 1), y);
    }
  }

  lemma {:induction false} ShiftsAdd(x: U32, m: nat, n: nat)
    ensures Shifts(Shifts(x, m), n) == Shifts(x, m + n)
  {
    if n == 0 {
    } else {
      ShiftsAdd(x, m, n - 1);
    }
  }

  lemma ScaleByByte(y: nat)
    ensures Scale(y, 8) == 256 * y
  {
    assert Scale(y, 8) == Scale(4 * y, 6);
    assert Scale(4 * y, 6) == Scale(16 * y, 4);
    assert Scale(16 * y, 4) == Scale(64 * y, 2);
  }

  lemma {:induction false} XorDisjoint(low: nat, high: nat, k: nat)
    requires low < Pow2(k)
    ensures Xor(low, Scale(high, k)) == low + Scale(high, k)
    decreases k
  {
    if k == 0 {
      XorCommutes(0, high);
      XorSelf(high);
    } else {
      ScaleEven(high, k);
      XorDisjoint(low / 2, high, k - 1);
      hide Xor, Scale;
      var t := Scale(high, k);
      XorHalf(low, t);
      SameHalves(Xor(low, t), low + t);
    }
  }

  lemma {:induction false} ScaleEven(y: nat, k: nat)
    requires k > 0
    ensures Scale(y, k) == 2 * Scale(y, k - 1)
    decreases k
  {
    if k == 1 {
    } else {
      ScaleEven(2 * y, k - 1);
    }
  }

  // Up to four bytes act on the register as one exclusive or of the word they spell.
  lemma {:induction false} FeedWord(r: U32, bytes: seq<Byte>)
    requires |bytes| <= 4
    ensures Xor(r, FromLE(bytes)) < 0x1_0000_0000
    ensures Feed(r, bytes) == Shifts(Xor(r, FromLE(bytes)), 8 * |bytes|)
    decreases |bytes|
  {
    hide Xor;
    Narrow(bytes);
    XorBound(r, FromLE(bytes));
    if bytes == [] {
      XorSelf(r);
    } else {
      var low, high := bytes[0], FromLE(bytes[1..]);
      Narrow(bytes[1..]);
      XorBound(r, low);
      ScaleByByte(high);
      assert FromLE(bytes) == Xor(low, Scale(high, 8)) by {
        assert low < Pow2(8);
        XorDisjoint(low, high, 8);
      }
      XorAssociates(r, low, Scale(high, 8));
      ShiftsSlide(Xor(r, low), high, 8);
      ShiftsAdd(Xor(r, FromLE(bytes)), 8, 8 * (|bytes| - 1));
      FeedWord(Shifts(Xor(r, low), 8), bytes[1..]);
    }
  }

  lemma Narrow(bytes: seq<Byte>)
    requires |bytes| <= 4
    ensures FromLE(bytes) < 0x1_0000_0000
    ensures |bytes| <= 3 ==> 256 * FromLE(bytes) < 0x1_0000_0000
  {
    assert Pow256(3) == 0x100_0000;
    assert Pow256(4) == 0x1_0000_0000;
  }

  // A message followed by its little-endian checksum leaves a fixed register.
  ghost predicate IsCodeword(bytes: seq<Byte>) {
    Feed(ONES, bytes) == Shifts(ONES, 32)
  }

  lemma CodewordIffChecksum(message: seq<Byte>, trailer: seq<Byte>)
    requires |trailer| == 4
    ensures FromLE(trailer) == Crc32(message) <==> IsCodeword(message + trailer)
  {
    hide Xor, Feed, Shifts, FromLE;
    Widths();
    var r, w := Feed(ONES, message), FromLE(trailer);
    FeedConcat(ONES, message, trailer);
    FeedWord(r, trailer);
    OnlyComplementCloses(r, w);
  }

  // The one word that drives a register to the residue.
  lemma OnlyComplementCloses(r: U32, w: U32)
    ensures Xor(r, w) < 0x1_0000_0000
    ensures Shifts(Xor(r, w), 32) == Shifts(ONES, 32) <==> w == ONES - r
  {
    hide Xor, Shifts;
    XorBound(r, w);
    XorWithComplement(r);
    if Shifts(Xor(r, w), 32) == Shifts(ONES, 32) {
      ShiftsInjective(Xor(r, w), ONES, 32);
      XorCommutes(r, w);
      XorCommutes(r, ONES - r);
      XorCancels(w, ONES - r, r);
    }
  }

  lemma XorWithComplement(r: U32)
    ensures Xor(r, ONES - r) == ONES
  {
    Pow2Of32();
    Complement(r, 32);
  }

  lemma {:induction false} Complement(r: nat, k: nat)
    requires r < Pow2(k)
    ensures Xor(r, Pow2(k) - 1 - r) == Pow2(k) - 1
    decreases k
  {
    if k == 0 {
    } else {
      var c := Pow2(k) - 1 - r;
      assert c / 2 == Pow2(k - 1) - 1 - r / 2;
      Complement(r / 2, k - 1);
      hide Xor;
      XorHalf(r, c);
      SameHalves(Xor(r, c), Pow2(k) - 1);
    }
  }

  // Any damage confined to four consecutive bytes, in particular to a single byte,
  // changes the register for good, whatever surrounds it.
  lemma BurstChangesRegister(before: seq<Byte>, a: seq<Byte>, b: seq<Byte>, after: seq<Byte>)
    requires |a| == |b| <= 4 && a != b
    ensures Feed(ONES, before + a + after) != Feed(ONES, before + b + after)
  {
    hide Xor;
    var r := Feed(ONES, before);
    FeedConcat(ONES, before, a);
    FeedConcat(ONES, before + a, after);
    FeedConcat(ONES, before, b);
    FeedConcat(ONES, before + b, after);
    if Feed(Feed(r, a), after) == Feed(Feed(r, b), after) {
      FeedInjective(Feed(r, a), Feed(r, b), after);
      FeedWord(r, a);
      FeedWord(r, b);
      ShiftsInjective(Xor(r, FromLE(a)), Xor(r, FromLE(b)), 8 * |a|);
      XorCommutes(r, FromLE(a));
      XorCommutes(r, FromLE(b));
      XorCancels(FromLE(a), FromLE(b), r);
      LEOfFromLE(a);
      LEOfFromLE(b);
    }
  }

  lemma BurstBreaksCodeword(before: seq<Byte>, a: seq<Byte>, b: seq<Byte>, after: seq<Byte>)
    requires |a| == |b| <= 4 && a != b && IsCodeword(before + a + after)
    ensures !IsCodeword(before + b + after)
  {
    BurstChangesRegister(before, a, b, after);
  }

  function Joined(parts: seq<seq<Byte>>): seq<Byte> {
    if parts == [] then [] else Joined(parts[..|parts| - 1]) + parts[|parts| - 1]
  }

  // The register loop itself; the split into parts cannot be seen in the result.
  method Crc32Parts(parts: seq<seq<Byte>>) returns (crc: U32)
    ensures crc == Crc32(Joined(parts))
  {
    hide Xor;
    crc := ONES;
    for i := 0 to |parts|
      invariant crc == Feed(ONES, Joined(parts[..i]))
    {
      var bytes := parts[i];
      ghost var start := crc;
      for j := 0 to |bytes|
        invariant crc == Feed(start, bytes[..j])
      {
        ghost var register := crc;
        XorBound(crc, bytes[j]);
        crc := Xor(crc, bytes[j]);
        ghost var mixed := crc;
        for k := 0 to 8
          invariant crc == Shifts(mixed, k)
        {
          crc := Shift(crc);
        }
        assert bytes[..j + 1] == bytes[..j] + [bytes[j]];
        FeedConcat(start, bytes[..j], [bytes[j]]);
      }
      assert bytes[..|bytes|] == bytes;
      assert parts[..i + 1][..i] == parts[..i];
      FeedConcat(ONES, Joined(parts[..i]), bytes);
    }
    assert parts[..|parts|] == parts;
    crc := ONES - crc;
  }
}
