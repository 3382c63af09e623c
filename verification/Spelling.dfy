/**
 What the byte-level tests on strings mean: well-formed UTF-8 is exactly what Unicode
 scalar values spell, and strings are ordered by their first difference.
 */
module Spelling {
  import opened Bytes
  import opened Order

  predicate IsScalar(c: nat) {
    c < 0xD800 || 0xE000 <= c <= 0x10_FFFF
  }

  // The UTF-8 encoding form (section 3.9 of the Unicode Standard).
  function Encode(c: nat): (bytes: seq<Byte>)
    requires IsScalar(c)
  {
    if c < 0x80 then [c]
    else if c < 0x800 then [0xC0 + c / 0x40, 0x80 + c % 0x40]
    else if c < 0x1_0000 then [0xE0 + c / 0x1000, 0x80 + c / 0x40 % 0x40, 0x80 + c % 0x40]
    else [0xF0 + c / 0x4_0000, 0x80 + c / 0x1000 % 0x40, 0x80 + c / 0x40 % 0x40, 0x80 + c % 0x40]
  }

  predicate AllScalars(cs: seq<nat>) {
    forall i :: 0 <= i < |cs| ==> IsScalar(cs[i])
  }

  function Spell(cs: seq<nat>): seq<Byte>
    requires AllScalars(cs)
  {
    if cs == [] then [] else Encode(cs[0]) + Spell(cs[1..])
  }

  // The number in the bits that the lead and trailing bytes leave free.
  function Gather(lead: int, trails: seq<Byte>): int {
    if trails == [] then lead
    else Gather(lead, trails[..|trails| - 1]) * 0x40 + (trails[|trails| - 1] as int - 0x80)
  }

  // The first scalar spelled by the bytes.
  function First(bytes: seq<Byte>): (c: int)
    requires ScalarWidth(bytes) > 0
  {
    var n, lead: int := ScalarWidth(bytes), bytes[0];
    Gather(lead - (if n == 1 then 0 else if n == 2 then 0xC0 else if n == 3 then 0xE0 else 0xF0), bytes[1..n])
  }

  lemma FirstEncodes(bytes: seq<Byte>)
    requires ScalarWidth(bytes) > 0
    ensures First(bytes) >= 0 && IsScalar(First(bytes)) && Encode(First(bytes)) == bytes[..ScalarWidth(bytes)]
  {
    hide Gather, Encode;
    var n, lead: int := ScalarWidth(bytes), bytes[0];
    GatherOne(0, [], 0x80);
    if n == 1 {
      assert bytes[1..1] == [];
      GatherOne(lead, [], 0x80);
      EncodeOne(lead);
    } else if n == 2 {
      assert bytes[1..2] == [] + [bytes[1]];
      GatherOne(lead - 0xC0, [], bytes[1]);
      EncodeTwo(lead - 0xC0, bytes[1] as int - 0x80);
    } else if n == 3 {
      assert bytes[1..3] == [] + [bytes[1]] + [bytes[2]];
      GatherOne(lead - 0xE0, [], bytes[1]);
      GatherOne(lead - 0xE0, [] + [bytes[1]], bytes[2]);
      EncodeThree(lead - 0xE0, bytes[1] as int - 0x80, bytes[2] as int - 0x80);
    } else {
      assert bytes[1..4] == [] + [bytes[1]] + [bytes[2]] + [bytes[3]];
      GatherOne(lead - 0xF0, [], bytes[1]);
      GatherOne(lead - 0xF0, [] + [bytes[1]], bytes[2]);
      GatherOne(lead - 0xF0, [] + [bytes[1]] + [bytes[2]], bytes[3]);
      EncodeFour(lead - 0xF0, bytes[1] as int - 0x80, bytes[2] as int - 0x80, bytes[3] as int - 0x80);
    }
  }

  lemma EncodeOne(a: nat)
    requires a < 0x80
    ensures Encode(a) == [a]
  {
  }

  lemma EncodeTwo(a: nat, b: nat)
    requires 2 <= a < 0x20 && b < 0x40
    ensures IsScalar(a * 0x40 + b) && Encode(a * 0x40 + b) == [0xC0 + a, 0x80 + b]
  {
    Digits(a, b);
  }

  lemma EncodeThree(a: nat, b: nat, c: nat)
    requires a < 0x10 && b < 0x40 && c < 0x40 && (a == 0 ==> b >= 0x20) && (a == 0xD ==> b < 0x20)
    ensures IsScalar((a * 0x40 + b) * 0x40 + c)
    ensures Encode((a * 0x40 + b) * 0x40 + c) == [0xE0 + a, 0x80 + b, 0x80 + c]
  {
    Digits(a, b);
    Digits(a * 0x40 + b, c);
    assert ((a * 0x40 + b) * 0x40 + c) / 0x1000 == a;
  }

  lemma EncodeFour(a: nat, b: nat, c: nat, d: nat)
    requires a < 5 && b < 0x40 && c < 0x40 && d < 0x40 && (a == 0 ==> b >= 0x10) && (a == 4 ==> b < 0x10)
    ensures IsScalar(((a * 0x40 + b) * 0x40 + c) * 0x40 + d)
    ensures Encode(((a * 0x40 + b) * 0x40 + c) * 0x40 + d) == [0xF0 + a, 0x80 + b, 0x80 + c, 0x80 + d]
  {
    Digits(a, b);
    Digits(a * 0x40 + b, c);
    Digits((a * 0x40 + b) * 0x40 + c, d);
    var n := ((a * 0x40 + b) * 0x40 + c) * 0x40 + d;
    assert n / 0x1000 == a * 0x40 + b && n / 0x4_0000 == a;
  }

  lemma Digits(high: nat, low: nat)
    requires low < 0x40
    ensures (high * 0x40 + low) / 0x40 == high && (high * 0x40 + low) % 0x40 == low
  {
  }

  lemma GatherOne(lead: int, trails: seq<Byte>, last: Byte)
    ensures Gather(lead, trails + [last]) == Gather(lead, trails) * 0x40 + (last as int - 0x80)
    ensures Gather(lead, []) == lead
  {
    assert (trails + [last])[..|trails|] == trails;
  }

  lemma EncodedWidth(c: nat, rest: seq<Byte>)
    requires IsScalar(c)
    ensures ScalarWidth(Encode(c) + rest) == |Encode(c)| > 0
  {
    if c < 0x800 {
      var b := Encode(c) + rest;
      assert b[0] == Encode(c)[0];
    } else {
      hide ScalarWidth;
      LongWidth(Encode(c), rest);
    }
  }

  // A well-formed sequence of three or four bytes is recognized whatever follows it.
  lemma LongWidth(b: seq<Byte>, rest: seq<Byte>)
    requires 3 <= |b| <= 4
    requires |b| == 3 ==>
      && 0xE0 <= b[0] <= 0xEF && Trails(b, 1, 2)
      && (b[0] == 0xE0 ==> b[1] >= 0xA0) && (b[0] == 0xED ==> b[1] <= 0x9F)
    requires |b| == 4 ==>
      && 0xF0 <= b[0] <= 0xF4 && Trails(b, 1, 3)
      && (b[0] == 0xF0 ==> b[1] >= 0x90) && (b[0] == 0xF4 ==> b[1] <= 0x8F)
    ensures ScalarWidth(b + rest) == |b|
  {
    assert forall i :: 0 <= i < |b| ==> (b + rest)[i] == b[i];
  }

  lemma {:induction false} Spelled(bytes: seq<Byte>) returns (cs: seq<nat>)
    requires ValidUtf8(bytes)
    ensures AllScalars(cs) && Spell(cs) == bytes
    decreases |bytes|
  {
    hide ScalarWidth, Encode;
    if bytes == [] {
      cs := [];
    } else {
      var n := ScalarWidth(bytes);
      FirstEncodes(bytes);
      var others := Spelled(bytes[n..]);
      cs := [First(bytes)] + others;
      assert cs[1..] == others;
      assert bytes == bytes[..n] + bytes[n..];
    }
  }

  lemma {:induction false} SpellingIsValid(cs: seq<nat>)
    requires AllScalars(cs)
    ensures ValidUtf8(Spell(cs))
  {
    hide ScalarWidth, Encode;
    if cs == [] {
    } else {
      SpellingIsValid(cs[1..]);
      EncodedWidth(cs[0], Spell(cs[1..]));
      assert Spell(cs)[|Encode(cs[0])|..] == Spell(cs[1..]);
    }
  }

  // Bytes are a string exactly when some scalar values spell them.
  lemma ValidIff(bytes: seq<Byte>)
    ensures ValidUtf8(bytes) <==> exists cs :: AllScalars(cs) && Spell(cs) == bytes
  {
    if ValidUtf8(bytes) {
      var cs := Spelled(bytes);
    }
    if cs :| AllScalars(cs) && Spell(cs) == bytes {
      SpellingIsValid(cs);
    }
  }

  // a comes before b: they agree up to k, where a ends or is smaller.
  predicate FirstDifference(a: seq<Byte>, b: seq<Byte>, k: nat) {
    k <= |a| && k < |b| && a[..k] == b[..k] && (k < |a| ==> a[k] < b[k])
  }

  lemma {:induction false} PrecedesIff(a: seq<Byte>, b: seq<Byte>)
    ensures Precedes(a, b) <==> exists k: nat :: FirstDifference(a, b, k)
    decreases |a|
  {
    if a != [] && b != [] && a[0] == b[0] {
      PrecedesIff(a[1..], b[1..]);
      if k: nat :| FirstDifference(a[1..], b[1..], k) {
        assert a[..k + 1] == [a[0]] + a[1..][..k] && b[..k + 1] == [b[0]] + b[1..][..k];
        assert FirstDifference(a, b, k + 1);
      }
      if k: nat :| FirstDifference(a, b, k) {
        assert k > 0;
        assert a[1..][..k - 1] == a[..k][1..] && b[1..][..k - 1] == b[..k][1..];
        assert FirstDifference(a[1..], b[1..], k - 1);
      }
    } else if b != [] {
      if a == [] || a[0] < b[0] {
        assert FirstDifference(a, b, 0);
      }
      assert forall k: nat :: 0 < k <= |a| && k < |b| && a[..k] == b[..k] ==> a[..k][0] == b[..k][0];
    }
  }
}
