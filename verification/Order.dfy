/**
 Ordered enumeration of finite sets and maps, as the source's `BTreeSet` and
 `BTreeMap` iterate: by integer value or by the bytes of a string. Also UTF-8
 validity, which is what separates a `String` from its bytes.
 */
module Order {
  import opened Bytes

  ghost predicate StrictTotal<T(!new)>(less: (T, T) -> bool) {
    && (forall a :: !less(a, a))
    && (forall a, b :: a != b ==> less(a, b) || less(b, a))
    && (forall a, b, c :: less(a, b) && less(b, c) ==> less(a, c))
  }

  predicate Increasing<T(!new)>(less: (T, T) -> bool, xs: seq<T>) {
    forall i, j :: 0 <= i < j < |xs| ==> less(xs[i], xs[j])
  }

  ghost predicate IsLeast<T(!new)>(less: (T, T) -> bool, s: set<T>, x: T) {
    x in s && forall y :: y in s && y != x ==> less(x, y)
  }

  lemma {:induction false} LeastExists<T(!new)>(less: (T, T) -> bool, s: set<T>)
    requires StrictTotal(less) && s != {}
    ensures exists x :: IsLeast(less, s, x)
    decreases |s|
  {
    var x :| x in s;
    if s == {x} {
      assert IsLeast(less, s, x);
    } else {
      var others := s - {x};
      assert others != {} by {
        assert exists z :: z in s && z != x;
      }
      LeastExists(less, others);
      var y :| IsLeast(less, others, y);
      if less(x, y) {
        forall z | z in s && z != x ensures less(x, z) {
          assert z in others;
        }
        assert IsLeast(less, s, x);
      } else {
        forall z | z in s && z != y ensures less(y, z) {
          assert z == x || z in others;
        }
        assert IsLeast(less, s, y);
      }
    }
  }

  function Least<T(!new, ==)>(less: (T, T) -> bool, s: set<T>): (x: T)
    requires StrictTotal(less) && s != {}
    ensures IsLeast(less, s, x)
  {
    LeastExists(less, s);
    assert exists x :: x in s && forall y :: y in s && y != x ==> less(x, y) by {
      var x :| IsLeast(less, s, x);
    }
    var x :| x in s && forall y :: y in s && y != x ==> less(x, y);
    x
  }

  lemma LeastIsUnique<T(!new)>(less: (T, T) -> bool, s: set<T>, x: T)
    requires StrictTotal(less) && IsLeast(less, s, x)
    ensures x == Least(less, s)
  {
    var y := Least(less, s);
  }

  function Ascending<T(!new, ==)>(less: (T, T) -> bool, s: set<T>): (xs: seq<T>)
    requires StrictTotal(less)
    ensures forall x :: x in xs <==> x in s
    ensures Increasing(less, xs)
    ensures |xs| == |s|
    decreases |s|
  {
    if s == {} then [] else
    var x := Least(less, s);
    [x] + Ascending(less, s - {x})
  }

  // The enumeration is the only increasing one.
  lemma {:induction false} AscendingIsUnique<T(!new)>(less: (T, T) -> bool, xs: seq<T>)
    requires StrictTotal(less) && Increasing(less, xs)
    ensures Ascending(less, Members(xs)) == xs
    decreases |xs|
  {
    var s := Members(xs);
    if xs == [] {
    } else {
      var x := xs[0];
      HeadIsLeast(less, xs);
      LeastIsUnique(less, s, x);
      assert Ascending(less, s) == [x] + Ascending(less, s - {x});
      assert s - {x} == Members(xs[1..]) by {
        hide Ascending, Least;
        HeadIsFresh(less, xs);
        MembersOfCons(x, xs[1..]);
        assert xs == [x] + xs[1..];
      }
      assert Increasing(less, xs[1..]) by {
        hide Ascending, Least, StrictTotal;
      }
      AscendingIsUnique(less, xs[1..]);
      assert xs == [x] + xs[1..];
    }
  }

  function Members<T>(xs: seq<T>): set<T> {
    set x | x in xs
  }

  lemma MembersOfCons<T>(x: T, xs: seq<T>)
    ensures Members([x] + xs) == {x} + Members(xs)
  {
  }

  predicate Distinct<T(==)>(xs: seq<T>) {
    forall i, j :: 0 <= i < j < |xs| ==> xs[i] != xs[j]
  }

  lemma {:induction false} DistinctCounts<T>(xs: seq<T>)
    requires Distinct(xs)
    ensures |Members(xs)| == |xs|
  {
    if xs == [] {
    } else {
      DistinctCounts(xs[1..]);
      assert xs == [xs[0]] + xs[1..];
      MembersOfCons(xs[0], xs[1..]);
      assert xs[0] !in Members(xs[1..]);
    }
  }

  lemma SubsetCounts<T>(a: set<T>, b: set<T>)
    requires a <= b
    ensures |a| <= |b|
  {
    assert b == a + (b - a);
  }

  // An ascending list has no repeats.
  lemma IncreasingIsDistinct<T(!new)>(less: (T, T) -> bool, xs: seq<T>)
    requires StrictTotal(less) && Increasing(less, xs)
    ensures Distinct(xs)
  {
    forall i, j | 0 <= i < j < |xs| ensures xs[i] != xs[j] {
      assert less(xs[i], xs[j]) && !less(xs[i], xs[i]);
    }
  }

  lemma HeadIsLeast<T(!new)>(less: (T, T) -> bool, xs: seq<T>)
    requires xs != [] && Increasing(less, xs)
    ensures IsLeast(less, Members(xs), xs[0])
  {
    forall y | y in Members(xs) && y != xs[0] ensures less(xs[0], y) {
      var i :| 0 <= i < |xs| && xs[i] == y;
    }
  }

  lemma HeadIsFresh<T(!new)>(less: (T, T) -> bool, xs: seq<T>)
    requires StrictTotal(less) && xs != [] && Increasing(less, xs)
    ensures xs[0] !in Members(xs[1..])
  {
    assert forall i :: 0 <= i < |xs[1..]| ==> less(xs[0], xs[1..][i]);
  }

  // ---- unsigned integers -------------------------------------------------------

  predicate Below(a: U64, b: U64) {
    a < b
  }

  lemma BelowIsTotal()
    ensures StrictTotal(Below)
  {
  }

  // Sum over a map, in key order.
  function Total(weights: map<U64, nat>): (sum: nat)
    decreases |weights|
  {
    if weights == map[] then 0 else
    BelowIsTotal();
    assert weights.Keys != {};
    var k := Least(Below, weights.Keys);
    assert |weights - {k}| < |weights| by {
      assert (weights - {k}).Keys == weights.Keys - {k};
    }
    weights[k] + Total(weights - {k})
  }

  lemma {:induction false} TotalWithout(weights: map<U64, nat>, k: U64)
    requires k in weights
    ensures Total(weights) == weights[k] + Total(weights - {k})
    decreases |weights|
  {
    BelowIsTotal();
    var least := Least(Below, weights.Keys);
    if k == least {
    } else {
      assert (weights - {least}).Keys == weights.Keys - {least};
      TotalWithout(weights - {least}, k);
      assert (weights - {k}).Keys == weights.Keys - {k};
      LeastIsUnique(Below, (weights - {k}).Keys, least);
      assert weights - {least} - {k} == weights - {k} - {least};
    }
  }

  lemma TotalOfUpdate(weights: map<U64, nat>, k: U64, n: nat)
    ensures Total(weights[k := n]) == (if k in weights then Total(weights) - weights[k] else Total(weights)) + n
  {
    TotalWithout(weights[k := n], k);
    if k in weights {
      TotalWithout(weights, k);
      assert weights[k := n] - {k} == weights - {k};
    } else {
      assert weights[k := n] - {k} == weights;
    }
  }

  lemma {:induction false} TotalAdds(whole: map<U64, nat>, a: map<U64, nat>, b: map<U64, nat>)
    requires whole.Keys == a.Keys == b.Keys
    requires forall k :: k in whole ==> whole[k] == a[k] + b[k]
    ensures Total(whole) == Total(a) + Total(b)
    decreases |whole|
  {
    if whole == map[] {
      assert a == map[] && b == map[];
    } else {
      BelowIsTotal();
      var k := Least(Below, whole.Keys);
      assert (whole - {k}).Keys == whole.Keys - {k};
      TotalAdds(whole - {k}, a - {k}, b - {k});
    }
  }

  // ---- strings -----------------------------------------------------------------

  // `Ord` of `str`: byte-wise lexicographic.
  predicate Precedes(a: seq<Byte>, b: seq<Byte>) {
    if b == [] then false
    else if a == [] then true
    else a[0] < b[0] || (a[0] == b[0] && Precedes(a[1..], b[1..]))
  }

  lemma {:induction false} PrecedesIrreflexive(a: seq<Byte>)
    ensures !Precedes(a, a)
    decreases |a|
  {
    if a == [] {
    } else {
      PrecedesIrreflexive(a[1..]);
    }
  }

  lemma {:induction false} PrecedesConnected(a: seq<Byte>, b: seq<Byte>)
    requires a != b
    ensures Precedes(a, b) || Precedes(b, a)
    decreases |a|
  {
    if a == [] || b == [] || a[0] != b[0] {
    } else {
      assert a == [a[0]] + a[1..] && b == [b[0]] + b[1..];
      PrecedesConnected(a[1..], b[1..]);
    }
  }

  lemma {:induction false} PrecedesTransitive(a: seq<Byte>, b: seq<Byte>, c: seq<Byte>)
    requires Precedes(a, b) && Precedes(b, c)
    ensures Precedes(a, c)
    decreases |a|
  {
    if a == [] || a[0] != b[0] || b[0] != c[0] {
    } else {
      PrecedesTransitive(a[1..], b[1..], c[1..]);
    }
  }

  predicate NameBefore(a: Utf8, b: Utf8) {
    Precedes(a, b)
  }

  lemma NameBeforeIsTotal()
    ensures StrictTotal(NameBefore)
  {
    forall a: Utf8 ensures !NameBefore(a, a) {
      PrecedesIrreflexive(a);
    }
    forall a: Utf8, b: Utf8 | a != b ensures NameBefore(a, b) || NameBefore(b, a) {
      PrecedesConnected(a, b);
    }
    forall a: Utf8, b: Utf8, c: Utf8 | NameBefore(a, b) && NameBefore(b, c) ensures NameBefore(a, c) {
      PrecedesTransitive(a, b, c);
    }
  }

  predicate Trails(bytes: seq<Byte>, from: nat, count: nat) {
    from + count <= |bytes| && forall i :: from <= i < from + count ==> 0x80 <= bytes[i] <= 0xBF
  }

  // How many bytes the well-formed sequence at the front takes; 0 if there is none
  // (table 3-7 of the Unicode Standard).
  function ScalarWidth(bytes: seq<Byte>): (n: nat)
    ensures n <= |bytes|
  {
    if bytes == [] then 0
    else if bytes[0] <= 0x7F then 1
    else if 0xC2 <= bytes[0] <= 0xDF && Trails(bytes, 1, 1) then 2
    else if 0xE0 <= bytes[0] <= 0xEF && Trails(bytes, 1, 2)
      && (bytes[0] == 0xE0 ==> bytes[1] >= 0xA0) && (bytes[0] == 0xED ==> bytes[1] <= 0x9F) then 3
    else if 0xF0 <= bytes[0] <= 0xF4 && Trails(bytes, 1, 3)
      && (bytes[0] == 0xF0 ==> bytes[1] >= 0x90) && (bytes[0] == 0xF4 ==> bytes[1] <= 0x8F) then 4
    else 0
  }

  predicate ValidUtf8(bytes: seq<Byte>)
    decreases |bytes|
  {
    bytes == [] || (ScalarWidth(bytes) > 0 && ValidUtf8(bytes[ScalarWidth(bytes)..]))
  }

  // A `String`, by its bytes.
  type Utf8 = bytes: seq<Byte> | ValidUtf8(bytes) witness []
}
