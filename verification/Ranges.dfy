/**
 The frozen Unicode tables: merging code point ranges and looking a point up
 (`tools/generate_unicode17_tables.py`, `merge_ranges` and the emitted
 `in_ranges`).
 */
module Ranges {
  import opened Bytes

  datatype Range = Range(low: int, high: int)
  datatype RangeError = InvalidRange

  const LAST_POINT := 0x10FFFF

  predicate Valid(r: Range) {
    0 <= r.low <= r.high <= LAST_POINT
  }

  predicate Holds(r: Range, point: int) {
    r.low <= point <= r.high
  }

  predicate Covers(ranges: seq<Range>, point: int) {
    exists i :: 0 <= i < |ranges| && Holds(ranges[i], point)
  }

  ghost predicate SameCover(a: seq<Range>, b: seq<Range>) {
    forall point :: Covers(a, point) <==> Covers(b, point)
  }

  // Ascending, and with a gap of at least one point between neighbours.
  predicate Table(ranges: seq<Range>) {
    && (forall i :: 0 <= i < |ranges| ==> Valid(ranges[i]))
    && (forall i, j :: 0 <= i < j < |ranges| ==> ranges[i].high + 1 < ranges[j].low)
  }

  // ---- the sort ----------------------------------------------------------------

  // Tuple comparison.
  predicate AtMost(a: Range, b: Range) {
    a.low < b.low || (a.low == b.low && a.high <= b.high)
  }

  predicate Ordered(ranges: seq<Range>) {
    forall i, j :: 0 <= i < j < |ranges| ==> AtMost(ranges[i], ranges[j])
  }

  function Insert(r: Range, ranges: seq<Range>): (out: seq<Range>)
    requires Ordered(ranges)
    ensures forall x :: x in out <==> x == r || x in ranges
    ensures Ordered(out)
  {
    if ranges == [] || AtMost(r, ranges[0]) then
      [r] + ranges
    else
      var rest := Insert(r, ranges[1..]);
      assert ranges == [ranges[0]] + ranges[1..];
      assert forall x :: x in rest ==> AtMost(ranges[0], x);
      [ranges[0]] + rest
  }

  function Sorted(ranges: seq<Range>): (out: seq<Range>)
    ensures forall x :: x in out <==> x in ranges
    ensures Ordered(out)
  {
    if ranges == [] then
      []
    else
      assert ranges == [ranges[0]] + ranges[1..];
      Insert(ranges[0], Sorted(ranges[1..]))
  }

  lemma {:induction false} InsertAddsOne(r: Range, ranges: seq<Range>)
    requires Ordered(ranges)
    ensures multiset(Insert(r, ranges)) == multiset(ranges) + multiset{r}
  {
    if ranges == [] || AtMost(r, ranges[0]) {
    } else {
      InsertAddsOne(r, ranges[1..]);
      assert ranges == [ranges[0]] + ranges[1..];
    }
  }

  lemma {:induction false} SortPermutes(ranges: seq<Range>)
    ensures multiset(Sorted(ranges)) == multiset(ranges)
  {
    if ranges == [] {
    } else {
      SortPermutes(ranges[1..]);
      InsertAddsOne(ranges[0], Sorted(ranges[1..]));
      assert ranges == [ranges[0]] + ranges[1..];
    }
  }

  // Coverage is about the members only.
  lemma MembersCover(a: seq<Range>, b: seq<Range>)
    requires forall x :: x in a ==> x in b
    ensures forall point :: Covers(a, point) ==> Covers(b, point)
  {
    forall point | Covers(a, point) ensures Covers(b, point) {
      var i :| 0 <= i < |a| && Holds(a[i], point);
      assert a[i] in b;
    }
  }

  // ---- merging -----------------------------------------------------------------

  // One pass of the loop: extend the last range, or start a new one.
  function Absorb(table: seq<Range>, r: Range): (out: seq<Range>)
    requires Table(table) && Valid(r)
    requires table != [] ==> table[|table| - 1].low <= r.low
    ensures Table(out) && out != [] && out[|out| - 1].low <= r.low
  {
    var n := |table|;
    if table != [] && r.low <= table[n - 1].high + 1 then
      var last := table[n - 1];
      table[..n - 1] + [Range(last.low, if r.high > last.high then r.high else last.high)]
    else
      table + [r]
  }

  lemma AbsorbCovers(table: seq<Range>, r: Range, point: int)
    requires Table(table) && Valid(r)
    requires table != [] ==> table[|table| - 1].low <= r.low
    ensures Covers(Absorb(table, r), point) <==> Covers(table, point) || Holds(r, point)
  {
    var n, out := |table|, Absorb(table, r);
    assert Holds(out[|out| - 1], point) <==>
        Holds(r, point) || (|out| == n && Holds(table[n - 1], point));
    assert forall i :: 0 <= i < |out| - 1 ==> out[i] == table[i];
    if Covers(table, point) {
      var i :| 0 <= i < n && Holds(table[i], point);
      assert i < |out| - 1 ==> Holds(out[i], point);
    }
    if Covers(out, point) {
      var i :| 0 <= i < |out| && Holds(out[i], point);
      assert i < |out| - 1 ==> Holds(table[i], point);
    }
  }

  lemma CoversAppend(ranges: seq<Range>, r: Range, point: int)
    ensures Covers(ranges + [r], point) <==> Covers(ranges, point) || Holds(r, point)
  {
    var all := ranges + [r];
    assert all[|ranges|] == r;
    if Covers(ranges, point) {
      var i :| 0 <= i < |ranges| && Holds(ranges[i], point);
      assert all[i] == ranges[i];
    }
  }

  lemma AbsorbStep(table: seq<Range>, before: seq<Range>, r: Range)
    requires Table(table) && Valid(r) && SameCover(table, before)
    requires table != [] ==> table[|table| - 1].low <= r.low
    ensures SameCover(Absorb(table, r), before + [r])
  {
    hide Covers, Table, Absorb;
    forall point ensures Covers(Absorb(table, r), point) <==> Covers(before + [r], point) {
      AbsorbCovers(table, r, point);
      CoversAppend(before, r, point);
    }
  }

  lemma NextLow(ranges: seq<Range>, i: nat)
    requires Ordered(ranges) && i < |ranges|
    ensures i > 0 ==> ranges[i - 1].low <= ranges[i].low
  {
    assert i > 0 ==> AtMost(ranges[i - 1], ranges[i]);
  }

  lemma NothingCovered()
    ensures Table([])
  {
  }

  method MergeRanges(ranges: seq<Range>) returns (merged: Result<seq<Range>, RangeError>)
    ensures merged.Err? <==> exists i :: 0 <= i < |ranges| && !Valid(ranges[i])
    ensures merged.Ok? ==> Table(merged.value) && SameCover(merged.value, ranges)
    ensures merged.Ok? ==> forall point :: InRanges(merged.value, point) == Covers(ranges, point)
  {
    hide Sorted, Covers, Ordered, Table;
    var sorted := Sorted(ranges);
    MembersCover(sorted, ranges);
    MembersCover(ranges, sorted);
    var result: seq<Range> := [];
    assert Table([]) by { NothingCovered(); }
    assert sorted[..0] == [];
    for i := 0 to |sorted|
      invariant Table(result) && SameCover(result, sorted[..i])
      invariant result != [] ==> i > 0 && result[|result| - 1].low <= sorted[i - 1].low
      invariant forall k :: 0 <= k < i ==> Valid(sorted[k])
    {
      var r := sorted[i];
      NextLow(sorted, i);
      if !Valid(r) {
        assert r in ranges;
        return Err(InvalidRange);
      }
      ghost var next := Absorb(result, r);
      AbsorbStep(result, sorted[..i], r);
      assert sorted[..i + 1] == sorted[..i] + [r];
      if result != [] && r.low <= result[|result| - 1].high + 1 {
        var last := result[|result| - 1];
        result := result[|result| - 1 := Range(last.low, if r.high > last.high then r.high else last.high)];
      } else {
        result := result + [r];
      }
      assert result == next;
    }
    assert sorted[..|sorted|] == sorted;
    forall i | 0 <= i < |ranges| ensures Valid(ranges[i]) {
      assert ranges[i] in sorted;
    }
    return Ok(result);
  }

  // ---- uniqueness --------------------------------------------------------------

  // A table is determined by the points it covers, so the result of a merge does
  // not depend on how the points were cut into ranges, repeated or ordered.
  lemma {:induction false} TableIsCanonical(a: seq<Range>, b: seq<Range>)
    requires Table(a) && Table(b) && SameCover(a, b)
    ensures a == b
    decreases |a|
  {
    hide Table, Covers;
    if a == [] {
      OnlyEmptyCoversNothing(b, a);
    } else if b == [] {
      OnlyEmptyCoversNothing(a, b);
    } else {
      FirstLow(a, b);
      FirstLow(b, a);
      FirstHigh(a, b);
      FirstHigh(b, a);
      forall point ensures Covers(a[1..], point) <==> Covers(b[1..], point) {
        TailCovers(a, point);
        TailCovers(b, point);
      }
      TailIsTable(a);
      TailIsTable(b);
      TableIsCanonical(a[1..], b[1..]);
      assert a == [a[0]] + a[1..] && b == [b[0]] + b[1..];
    }
  }

  lemma OnlyEmptyCoversNothing(a: seq<Range>, b: seq<Range>)
    requires Table(a) && SameCover(a, b) && b == []
    ensures a == []
  {
    if a != [] {
      assert Holds(a[0], a[0].low);
      assert Covers(a, a[0].low) && !Covers(b, a[0].low);
    }
  }

  lemma TailIsTable(a: seq<Range>)
    requires Table(a) && a != []
    ensures Table(a[1..])
  {
  }

  lemma FirstLow(a: seq<Range>, b: seq<Range>)
    requires Table(a) && Table(b) && SameCover(a, b) && a != [] && b != []
    ensures b[0].low <= a[0].low
  {
    assert Holds(a[0], a[0].low);
    assert Covers(b, a[0].low);
    var i :| 0 <= i < |b| && Holds(b[i], a[0].low);
    assert i > 0 ==> b[0].high + 1 < b[i].low;
  }

  lemma FirstHigh(a: seq<Range>, b: seq<Range>)
    requires Table(a) && Table(b) && SameCover(a, b) && a != [] && b != [] && a[0].low == b[0].low
    ensures a[0].high <= b[0].high
  {
    var beyond := b[0].high + 1;
    assert !Covers(b, beyond);
    assert !Holds(a[0], beyond);
  }

  lemma TailCovers(a: seq<Range>, point: int)
    requires Table(a) && a != []
    ensures Covers(a[1..], point) <==> Covers(a, point) && point > a[0].high
  {
    if Covers(a[1..], point) {
      var i :| 0 <= i < |a[1..]| && Holds(a[1..][i], point);
      assert Holds(a[i + 1], point);
    }
    if Covers(a, point) && point > a[0].high {
      var i :| 0 <= i < |a| && Holds(a[i], point);
      assert a[1..][i - 1] == a[i];
    }
  }

  // ---- lookup ------------------------------------------------------------------

  // `partition_point` by halving: how many ranges start at or before the point.
  function PartitionPoint(ranges: seq<Range>, point: int, from: nat, end: nat): (after: nat)
    requires Table(ranges) && from <= end <= |ranges|
    requires forall i :: 0 <= i < from ==> ranges[i].low <= point
    requires forall i :: end <= i < |ranges| ==> point < ranges[i].low
    ensures after <= |ranges|
    ensures forall i :: 0 <= i < |ranges| ==> (i < after <==> ranges[i].low <= point)
    decreases end - from
  {
    if from == end then
      from
    else
      var middle := from + (end - from) / 2;
      assert Valid(ranges[middle]);
      assert forall i :: 0 <= i < middle ==> Valid(ranges[i]) && ranges[i].high + 1 < ranges[middle].low;
      assert forall i :: middle < i < |ranges| ==> ranges[middle].high + 1 < ranges[i].low;
      if ranges[middle].low <= point then
        PartitionPoint(ranges, point, middle + 1, end)
      else
        PartitionPoint(ranges, point, from, middle)
  }

  lemma OnlyOneCanHold(ranges: seq<Range>, point: int, last: nat)
    requires Table(ranges) && last < |ranges|
    requires forall i :: 0 <= i < |ranges| ==> (i <= last <==> ranges[i].low <= point)
    ensures Covers(ranges, point) <==> point <= ranges[last].high
  {
    assert Holds(ranges[last], point) <==> point <= ranges[last].high;
    assert forall i :: 0 <= i < last ==> ranges[i].high + 1 < ranges[last].low;
  }

  // Plain membership, by inspecting one range.
  function InRanges(ranges: seq<Range>, point: int): (found: bool)
    requires Table(ranges)
    ensures found <==> Covers(ranges, point)
  {
    var after := PartitionPoint(ranges, point, 0, |ranges|);
    after > 0 && (OnlyOneCanHold(ranges, point, after - 1); point <= ranges[after - 1].high)
  }
}
