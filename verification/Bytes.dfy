/**
 Fixed-width unsigned integers and their little-endian wire form, plus the two
 result types the journal crate's `Result` and `Option` become.
 */
module Bytes {

  type Byte = b: int | 0 <= b < 0x100
  type U32 = n: int | 0 <= n < 0x1_0000_0000
  type U64 = n: int | 0 <= n < 0x1_0000_0000_0000_0000

  const U64_MAX: U64 := 0xFFFF_FFFF_FFFF_FFFF

  datatype Option<+T> = None | Some(value: T)

  datatype Result<+T, +E> = Ok(value: T) | Err(error: E) {
    predicate IsFailure() {
      Err?
    }

    function PropagateFailure<U>(): Result<U, E>
      requires Err?
    {
      Err(error)
    }

    function Extract(): T
      requires Ok?
    {
      value
    }
  }

  function Min(a: int, b: int): int {
    if a <= b then a else b
  }

  function Pow256(width: nat): (p: nat)
    ensures p >= 1
  {
    if width == 0 then 1 else 256 * Pow256(width - 1)
  }

  // The i-th base-256 digit.
  function Digit(n: nat, i: nat): Byte
    decreases i
  {
    if i == 0 then n % 256 else Digit(n / 256, i - 1)
  }

  // `to_le_bytes` after a truncating cast to `width` bytes.
  function LE(n: nat, width: nat): (bytes: seq<Byte>)
    ensures |bytes| == width
  {
    seq(width, i requires 0 <= i => Digit(n, i))
  }

  function FromLE(bytes: seq<Byte>): (n: nat)
    ensures n < Pow256(|bytes|)
  {
    if bytes == [] then 0 else bytes[0] + 256 * FromLE(bytes[1..])
  }

  lemma {:induction false} FromLEOfLE(n: nat, width: nat)
    requires n < Pow256(width)
    ensures FromLE(LE(n, width)) == n
    decreases width
  {
    if width == 0 {
    } else {
      FromLEOfLE(n / 256, width - 1);
      assert LE(n, width)[0] == n % 256;
      assert LE(n, width)[1..] == LE(n / 256, width - 1);
    }
  }

  lemma {:induction false} LEOfFromLE(bytes: seq<Byte>)
    ensures LE(FromLE(bytes), |bytes|) == bytes
  {
    if bytes == [] {
    } else {
      var n := FromLE(bytes);
      LEOfFromLE(bytes[1..]);
      assert n / 256 == FromLE(bytes[1..]);
      forall i | 0 <= i < |bytes| ensures LE(n, |bytes|)[i] == bytes[i] {
        if i > 0 {
          assert LE(n / 256, |bytes| - 1)[i - 1] == bytes[1..][i - 1];
        }
      }
    }
  }

  lemma Glue<T>(a: seq<T>, b: seq<T>, c: seq<T>)
    ensures a + (b + c) == a + b + c
  {
  }

  lemma Glue4<T>(a: seq<T>, b: seq<T>, c: seq<T>, d: seq<T>, e: seq<T>)
    ensures a + (b + (c + (d + e))) == a + b + c + d + e
  {
    Glue(c, d, e);
    Glue(b, c + d, e);
    Glue(a, b + (c + d), e);
    Glue(b, c, d);
    Glue(a, b + c, d);
    Glue(a, b, c);
  }

  lemma Widths()
    ensures Pow256(4) == 0x1_0000_0000
    ensures Pow256(8) == 0x1_0000_0000_0000_0000
  {
    assert Pow256(2) == 0x1_0000;
    assert Pow256(4) == 256 * 256 * Pow256(2);
    assert Pow256(6) == 256 * 256 * Pow256(4);
    assert Pow256(8) == 256 * 256 * Pow256(6);
  }

  // Least significant byte first.
  lemma LittleEndian(n: nat, width: nat, i: nat)
    requires i < width
    ensures LE(n, width)[i] == n / Pow256(i) % 256
  {
    DigitIs(n, i);
  }

  lemma {:induction false} DigitIs(n: nat, i: nat)
    ensures Digit(n, i) == n / Pow256(i) % 256
    decreases i
  {
    if i == 0 {
    } else {
      DigitIs(n / 256, i - 1);
      DivideTwice(n, Pow256(i - 1));
    }
  }

  lemma DivideTwice(n: nat, p: nat)
    requires p >= 1
    ensures n / 256 / p == n / (256 * p)
  {
    var q := n / 256 / p;
    var r := n / 256 % p;
    assert n == 256 * (q * p + r) + n % 256;
    assert 256 * (q * p) == q * (256 * p);
    QuotientIs(n, 256 * p, q, 256 * r + n % 256);
  }

  lemma QuotientIs(a: nat, b: nat, q: nat, r: nat)
    requires a == q * b + r && r < b
    ensures a / b == q
  {
    var other := a / b;
    assert a == other * b + a % b;
    assert other > q ==> other * b >= (q + 1) * b;
    assert other < q ==> q * b >= (other + 1) * b;
  }

  lemma SliceOfFront(a: seq<Byte>, b: seq<Byte>, i: nat, j: nat)
    requires i <= j <= |a|
    ensures (a + b)[i..j] == a[i..j]
  {
  }
}
