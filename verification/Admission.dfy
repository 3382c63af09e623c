/**
 The dependency admission evaluator: reviewed rows per package identity and target,
 and the decision on one observed package (`xtask/src/admission.rs`).
 */
module Admission {
  import opened Bytes
  import opened Order

  // A `String`, by its bytes.
  type Text = seq<Byte>

  datatype SourceId = WorkspacePath(manifestPath: Text) | Exact(source: Text)
  datatype PackageId = PackageId(source: SourceId, name: Text, version: Text)
  datatype DepKind = Normal | Build | Dev
  datatype EdgeId = EdgeId(dest: PackageId, kind: DepKind)
  datatype TargetScope = TargetScope(features: set<Text>, edges: set<EdgeId>)
  datatype ReviewedRow = ReviewedRow(id: PackageId, scopes: map<Text, TargetScope>)
  datatype ObservedPackage = ObservedPackage(id: PackageId, features: set<Text>, edges: set<EdgeId>)

  datatype AdmissionSetError = DuplicateIdentity(id: PackageId)

  // The rows are private and only ever filed under their own identity.
  type AdmissionSet = rows: map<PackageId, ReviewedRow> | forall id :: id in rows ==> rows[id].id == id

  datatype Violation =
    | NoReviewedRow(id: PackageId)
    | TargetNotAdmitted(id: PackageId, admitted: seq<Text>)
    | EdgeNotAdmitted(target: Text, edge: EdgeId)
    | EdgeMissing(target: Text, edge: EdgeId)
    | EdgeDestinationNotReviewed(target: Text, edge: EdgeId)
    | FeatureSetMismatch(expected: seq<Text>, observed: seq<Text>)

  // ---- the derived orders ------------------------------------------------------

  predicate TextBefore(a: Text, b: Text) {
    Precedes(a, b)
  }

  lemma TextBeforeIsTotal()
    ensures StrictTotal(TextBefore)
  {
    forall a: Text ensures !TextBefore(a, a) {
      PrecedesIrreflexive(a);
    }
    forall a: Text, b: Text | a != b ensures TextBefore(a, b) || TextBefore(b, a) {
      PrecedesConnected(a, b);
    }
    forall a: Text, b: Text, c: Text | TextBefore(a, b) && TextBefore(b, c) ensures TextBefore(a, c) {
      PrecedesTransitive(a, b, c);
    }
  }

  predicate SourceBefore(a: SourceId, b: SourceId) {
    match (a, b)
    case (WorkspacePath(x), WorkspacePath(y)) => TextBefore(x, y)
    case (WorkspacePath(_), Exact(_)) => true
    case (Exact(_), WorkspacePath(_)) => false
    case (Exact(x), Exact(y)) => TextBefore(x, y)
  }

  predicate PackageBefore(a: PackageId, b: PackageId) {
    || SourceBefore(a.source, b.source)
    || (a.source == b.source && TextBefore(a.name, b.name))
    || (a.source == b.source && a.name == b.name && TextBefore(a.version, b.version))
  }

  function Rank(kind: DepKind): nat {
    match kind
    case Normal => 0
    case Build => 1
    case Dev => 2
  }

  predicate EdgeBefore(a: EdgeId, b: EdgeId) {
    PackageBefore(a.dest, b.dest) || (a.dest == b.dest && Rank(a.kind) < Rank(b.kind))
  }

  lemma EdgeBeforeIsTotal()
    ensures StrictTotal(EdgeBefore)
  {
    hide TextBefore;
    TextBeforeIsTotal();
    assert StrictTotal(SourceBefore);
    assert StrictTotal(PackageBefore) by {
      hide SourceBefore;
    }
  }

  // ---- the reviewed set --------------------------------------------------------

  predicate Unique(rows: seq<ReviewedRow>) {
    forall i, j :: 0 <= i < j < |rows| ==> rows[i].id != rows[j].id
  }

  // The row at n is the first to repeat an earlier identity.
  predicate FirstRepeat(rows: seq<ReviewedRow>, n: nat) {
    n < |rows| && Unique(rows[..n]) && exists i :: 0 <= i < n && rows[i].id == rows[n].id
  }

  predicate Files(filed: map<PackageId, ReviewedRow>, rows: seq<ReviewedRow>) {
    && (forall i :: 0 <= i < |rows| ==> rows[i].id in filed && filed[rows[i].id] == rows[i])
    && (forall id :: id in filed ==> filed[id] in rows)
  }

  lemma FileOne(filed: AdmissionSet, rows: seq<ReviewedRow>, row: ReviewedRow)
    requires Files(filed, rows) && Unique(rows)
    ensures row.id !in filed ==> Files(filed[row.id := row], rows + [row]) && Unique(rows + [row])
    ensures row.id in filed ==> exists i :: 0 <= i < |rows| && rows[i].id == row.id
  {
    if row.id in filed {
      var i :| 0 <= i < |rows| && rows[i] == filed[row.id];
      assert rows[i].id == row.id;
    } else {
      assert (rows + [row])[|rows|] == row;
    }
  }

  // Refused exactly when two rows claim one identity, naming the first row that
  // repeats an earlier one; otherwise no row is lost and none is added.
  method NewAdmissionSet(rows: seq<ReviewedRow>) returns (r: Result<AdmissionSet, AdmissionSetError>)
    ensures r.Ok? <==> Unique(rows)
    ensures r.Ok? ==> Files(r.value, rows) && |r.value| == |rows|
    ensures r.Err? ==> exists n: nat :: FirstRepeat(rows, n) && r.error == DuplicateIdentity(rows[n].id)
  {
    hide Files, Unique;
    var filed: AdmissionSet := map[];
    assert rows[..0] == [];
    assert Files(map[], []) && Unique([]) by { NothingFiled(); }
    for n := 0 to |rows|
      invariant Files(filed, rows[..n]) && Unique(rows[..n]) && |filed| == n
    {
      var row := rows[n];
      FileOne(filed, rows[..n], row);
      assert rows[..n + 1] == rows[..n] + [row];
      if row.id in filed {
        assert FirstRepeat(rows, n);
        RepeatIsNotUnique(rows, n);
        return Err(DuplicateIdentity(row.id));
      }
      filed := filed[row.id := row];
    }
    assert rows[..|rows|] == rows;
    return Ok(filed);
  }

  lemma NothingFiled()
    ensures Files(map[], []) && Unique([])
  {
  }

  lemma RepeatIsNotUnique(rows: seq<ReviewedRow>, n: nat)
    requires FirstRepeat(rows, n)
    ensures !Unique(rows)
  {
  }

  // ---- the decision ------------------------------------------------------------

  predicate ReviewedFor(rows: AdmissionSet, target: Text, id: PackageId) {
    id in rows && target in rows[id].scopes
  }

  // What the constitution asks of one package on one target: a reviewed row for this
  // exact identity scoped to this target, with the very features and edges observed,
  // and every edge landing on a package reviewed for the same target.
  predicate Admitted(rows: AdmissionSet, target: Text, observed: ObservedPackage) {
    && ReviewedFor(rows, target, observed.id)
    && rows[observed.id].scopes[target] == TargetScope(observed.features, observed.edges)
    && forall edge :: edge in observed.edges ==> ReviewedFor(rows, target, edge.dest)
  }

  // When a violation is a true statement about the observation.
  predicate Departs(rows: AdmissionSet, target: Text, observed: ObservedPackage, v: Violation) {
    var known := observed.id in rows;
    var scoped := ReviewedFor(rows, target, observed.id);
    var scope := if scoped then rows[observed.id].scopes[target] else TargetScope({}, {});
    match v
    case NoReviewedRow(id) => !known && id == observed.id
    case TargetNotAdmitted(id, admitted) =>
      && known && !scoped && id == observed.id
      && Lists(admitted, rows[observed.id].scopes.Keys)
    case EdgeNotAdmitted(t, edge) =>
      scoped && t == target && edge in observed.edges && edge !in scope.edges
    case EdgeMissing(t, edge) =>
      scoped && t == target && edge in scope.edges && edge !in observed.edges
    case EdgeDestinationNotReviewed(t, edge) =>
      && scoped && t == target && edge in observed.edges && edge in scope.edges
      && !ReviewedFor(rows, target, edge.dest)
    case FeatureSetMismatch(expected, seen) =>
      && scoped && scope.features != observed.features
      && Lists(expected, scope.features) && Lists(seen, observed.features)
  }

  predicate Lists(xs: seq<Text>, s: set<Text>) {
    Increasing(TextBefore, xs) && Members(xs) == s
  }

  // The only ascending list of a set's members.
  lemma ListsIsAscending(xs: seq<Text>, s: set<Text>)
    requires StrictTotal(TextBefore)
    ensures Lists(xs, s) <==> xs == Ascending(TextBefore, s)
  {
    if Lists(xs, s) {
      AscendingIsUnique(TextBefore, xs);
    }
    assert Members(Ascending(TextBefore, s)) == s;
  }

  // The groups come in this order, and edges in theirs within a group.
  function Group(v: Violation): nat {
    match v
    case EdgeNotAdmitted(_, _) => 1
    case EdgeMissing(_, _) => 2
    case EdgeDestinationNotReviewed(_, _) => 3
    case _ => 0
  }

  predicate Comes(a: Violation, b: Violation) {
    Group(a) < Group(b) || (Group(a) == Group(b) > 0 && EdgeBefore(a.edge, b.edge))
  }

  predicate InOrder(vs: seq<Violation>) {
    forall i, j :: 0 <= i < j < |vs| ==> Comes(vs[i], vs[j])
  }

  lemma InOrderAppend(a: seq<Violation>, b: seq<Violation>)
    requires InOrder(a) && InOrder(b)
    requires forall i, j :: 0 <= i < |a| && 0 <= j < |b| ==> Group(a[i]) < Group(b[j])
    ensures InOrder(a + b)
  {
    hide EdgeBefore;
  }

  function Unadmitted(target: Text): EdgeId -> Violation {
    e => EdgeNotAdmitted(target, e)
  }

  function Absent(target: Text): EdgeId -> Violation {
    e => EdgeMissing(target, e)
  }

  function Unreviewed(target: Text): EdgeId -> Violation {
    e => EdgeDestinationNotReviewed(target, e)
  }

  // Every violation is of this group and carries its edge.
  ghost predicate Wraps(wrap: EdgeId -> Violation, group: nat) {
    forall edge :: Group(wrap(edge)) == group > 0 && wrap(edge).edge == edge
  }

  lemma EveryWrapperWraps(target: Text)
    ensures Wraps(Unadmitted(target), 1) && Wraps(Absent(target), 2) && Wraps(Unreviewed(target), 3)
  {
  }

  lemma EachIsOfOneGroup(vs: seq<Violation>, edges: set<EdgeId>, wrap: EdgeId -> Violation, group: nat)
    requires Each(vs, edges, wrap) && Wraps(wrap, group)
    ensures InOrder(vs) && forall i :: 0 <= i < |vs| ==> Group(vs[i]) == group
  {
    hide EdgeBefore, Comes, Group;
  }

  // One violation for each of these edges, in order, and nothing else.
  predicate Each(vs: seq<Violation>, edges: set<EdgeId>, wrap: EdgeId -> Violation) {
    && Distinct(vs) && InOrder(vs)
    && (forall i :: 0 <= i < |vs| ==> exists edge :: edge in edges && vs[i] == wrap(edge))
    && (forall edge :: edge in edges ==> wrap(edge) in vs)
  }

  lemma EachHas(vs: seq<Violation>, edges: set<EdgeId>, wrap: EdgeId -> Violation)
    requires Each(vs, edges, wrap)
    ensures forall v :: v in vs <==> exists edge :: edge in edges && v == wrap(edge)
  {
  }

  function Dangling(rows: AdmissionSet, target: Text, edges: set<EdgeId>): (dangling: set<EdgeId>)
    ensures dangling <= edges
  {
    set edge | edge in edges && !ReviewedFor(rows, target, edge.dest)
  }

  ghost predicate Exactly(rows: AdmissionSet, target: Text, observed: ObservedPackage, vs: seq<Violation>) {
    Distinct(vs) && InOrder(vs) && forall v :: v in vs <==> Departs(rows, target, observed, v)
  }

  ghost predicate Groups(
    rows: AdmissionSet, target: Text, observed: ObservedPackage, mismatch: seq<Violation>,
    unadmitted: seq<Violation>, missing: seq<Violation>, unreviewed: seq<Violation>)
    requires StrictTotal(TextBefore) && ReviewedFor(rows, target, observed.id)
  {
    var scope := rows[observed.id].scopes[target];
    && mismatch == (if scope.features == observed.features then [] else
        [FeatureSetMismatch(Ascending(TextBefore, scope.features), Ascending(TextBefore, observed.features))])
    && Each(unadmitted, observed.edges - scope.edges, Unadmitted(target))
    && Each(missing, scope.edges - observed.edges, Absent(target))
    && Each(unreviewed, Dangling(rows, target, observed.edges * scope.edges),
        Unreviewed(target))
  }

  // The four groups of a package whose target is scoped.
  lemma GroupsAreExact(
    rows: AdmissionSet, target: Text, observed: ObservedPackage, mismatch: seq<Violation>,
    unadmitted: seq<Violation>, missing: seq<Violation>, unreviewed: seq<Violation>)
    requires StrictTotal(TextBefore) && ReviewedFor(rows, target, observed.id)
    requires Groups(rows, target, observed, mismatch, unadmitted, missing, unreviewed)
    ensures Exactly(rows, target, observed, mismatch + unadmitted + missing + unreviewed)
  {
    hide Lists, Ascending, StrictTotal, Increasing, InOrder, EdgeBefore;
    var scope := rows[observed.id].scopes[target];
    forall xs, s ensures Lists(xs, s) <==> xs == Ascending(TextBefore, s) {
      ListsIsAscending(xs, s);
    }
    var all := mismatch + unadmitted + missing + unreviewed;
    var a, b, c := Unadmitted(target), Absent(target), Unreviewed(target);
    EachHas(unadmitted, observed.edges - scope.edges, a);
    EachHas(missing, scope.edges - observed.edges, b);
    EachHas(unreviewed, Dangling(rows, target, observed.edges * scope.edges), c);
    assert Distinct(all);
    forall v ensures v in all <==> Departs(rows, target, observed, v) {
      assert v in all <==> v in mismatch || v in unadmitted || v in missing || v in unreviewed;
      match v
      case EdgeNotAdmitted(t, e) => assert a(e) == EdgeNotAdmitted(target, e);
      case EdgeMissing(t, e) => assert b(e) == EdgeMissing(target, e);
      case EdgeDestinationNotReviewed(t, e) => assert c(e) == EdgeDestinationNotReviewed(target, e);
      case _ =>
    }
    GroupsAreOrdered(rows, target, observed, mismatch, unadmitted, missing, unreviewed);
  }

  lemma ShortIsInOrder(vs: seq<Violation>)
    requires |vs| <= 1
    ensures InOrder(vs)
  {
  }

  lemma GroupsAreOrdered(
    rows: AdmissionSet, target: Text, observed: ObservedPackage, mismatch: seq<Violation>,
    unadmitted: seq<Violation>, missing: seq<Violation>, unreviewed: seq<Violation>)
    requires StrictTotal(TextBefore) && ReviewedFor(rows, target, observed.id)
    requires Groups(rows, target, observed, mismatch, unadmitted, missing, unreviewed)
    ensures InOrder(mismatch + unadmitted + missing + unreviewed)
  {
    hide Ascending, StrictTotal, Increasing, Dangling, Each, Wraps, InOrder;
    var scope := rows[observed.id].scopes[target];
    EveryWrapperWraps(target);
    EachIsOfOneGroup(unadmitted, observed.edges - scope.edges, Unadmitted(target), 1);
    EachIsOfOneGroup(missing, scope.edges - observed.edges, Absent(target), 2);
    EachIsOfOneGroup(unreviewed, Dangling(rows, target, observed.edges * scope.edges), Unreviewed(target), 3);
    assert InOrder(mismatch) by { ShortIsInOrder(mismatch); }
    InOrderAppend(mismatch, unadmitted);
    InOrderAppend(mismatch + unadmitted, missing);
    InOrderAppend(mismatch + unadmitted + missing, unreviewed);
  }

  lemma NoneIffAdmitted(rows: AdmissionSet, target: Text, observed: ObservedPackage, vs: seq<Violation>)
    requires Exactly(rows, target, observed, vs) && StrictTotal(TextBefore)
    ensures vs == [] <==> Admitted(rows, target, observed)
  {
    hide StrictTotal, Ascending;
    if vs != [] {
      assert Departs(rows, target, observed, vs[0]);
    } else {
      assert !Departs(rows, target, observed, NoReviewedRow(observed.id));
      assert observed.id in rows;
      assert !Departs(rows, target, observed, TargetNotAdmitted(observed.id, Listed(rows[observed.id].scopes.Keys)));
      var scope := rows[observed.id].scopes[target];
      assert !Departs(rows, target, observed, FeatureSetMismatch(Listed(scope.features), Listed(observed.features)));
      forall edge ensures edge in scope.edges <==> edge in observed.edges {
        assert !Departs(rows, target, observed, EdgeNotAdmitted(target, edge));
        assert !Departs(rows, target, observed, EdgeMissing(target, edge));
      }
      forall edge | edge in observed.edges ensures ReviewedFor(rows, target, edge.dest) {
        assert !Departs(rows, target, observed, EdgeDestinationNotReviewed(target, edge));
      }
    }
  }

  function Listed(s: set<Text>): (xs: seq<Text>)
    requires StrictTotal(TextBefore)
    ensures Lists(xs, s)
  {
    ListsIsAscending(Ascending(TextBefore, s), s);
    Ascending(TextBefore, s)
  }

  lemma UnknownIsExact(rows: AdmissionSet, target: Text, observed: ObservedPackage)
    requires observed.id !in rows
    ensures Exactly(rows, target, observed, [NoReviewedRow(observed.id)])
  {
  }

  lemma UnscopedIsExact(rows: AdmissionSet, target: Text, observed: ObservedPackage)
    requires StrictTotal(TextBefore) && observed.id in rows && target !in rows[observed.id].scopes
    ensures Exactly(rows, target, observed,
      [TargetNotAdmitted(observed.id, Ascending(TextBefore, rows[observed.id].scopes.Keys))])
  {
    hide StrictTotal, Ascending, Increasing, Lists;
    forall xs, s ensures Lists(xs, s) <==> xs == Ascending(TextBefore, s) {
      ListsIsAscending(xs, s);
    }
  }

  // The violations are exactly the true ones, each once and in order; none iff admitted.
  method Evaluate(rows: AdmissionSet, target: Text, observed: ObservedPackage) returns (violations: seq<Violation>)
    ensures violations == [] <==> Admitted(rows, target, observed)
    ensures Exactly(rows, target, observed, violations)
  {
    hide StrictTotal, Ascending, Increasing, Lists, Each, Dangling, Admitted, EdgeBefore, Exactly,
      Departs, InOrder, Wraps;
    TextBeforeIsTotal();
    if observed.id !in rows {
      violations := [NoReviewedRow(observed.id)];
      UnknownIsExact(rows, target, observed);
      NoneIffAdmitted(rows, target, observed, violations);
      return;
    }
    var row := rows[observed.id];
    if target !in row.scopes {
      var admitted := Ascending(TextBefore, row.scopes.Keys);
      violations := [TargetNotAdmitted(observed.id, admitted)];
      UnscopedIsExact(rows, target, observed);
      NoneIffAdmitted(rows, target, observed, violations);
      return;
    }
    EveryWrapperWraps(target);
    var scope := row.scopes[target];
    var mismatch := [];
    if scope.features != observed.features {
      mismatch := [
        FeatureSetMismatch(Ascending(TextBefore, scope.features), Ascending(TextBefore, observed.features))];
    }
    var unadmitted := EachEdge(observed.edges - scope.edges, Unadmitted(target));
    var missing := EachEdge(scope.edges - observed.edges, Absent(target));
    var unreviewed := EachEdge(
      Dangling(rows, target, observed.edges * scope.edges), Unreviewed(target));
    violations := mismatch + unadmitted + missing + unreviewed;
    GroupsAreExact(rows, target, observed, mismatch, unadmitted, missing, unreviewed);
    NoneIffAdmitted(rows, target, observed, violations);
  }

  // One violation per edge, in order.
  method EachEdge(edges: set<EdgeId>, wrap: EdgeId -> Violation) returns (vs: seq<Violation>)
    requires exists group :: Wraps(wrap, group)
    ensures Each(vs, edges, wrap)
  {
    hide StrictTotal, Ascending, Increasing, Each, EdgeBefore, Wraps;
    EdgeBeforeIsTotal();
    var list := Ascending(EdgeBefore, edges);
    IncreasingIsDistinct(EdgeBefore, list);
    vs := [];
    for i := 0 to |list|
      invariant |vs| == i && forall k :: 0 <= k < i ==> vs[k] == wrap(list[k])
    {
      vs := vs + [wrap(list[i])];
    }
    ghost var group :| Wraps(wrap, group);
    WrappedIsEach(vs, list, edges, wrap, group);
  }

  lemma WrappedIsEach(
    vs: seq<Violation>, list: seq<EdgeId>, edges: set<EdgeId>, wrap: EdgeId -> Violation, group: nat)
    requires Wraps(wrap, group)
    requires Distinct(list) && Increasing(EdgeBefore, list)
    requires forall edge :: edge in list <==> edge in edges
    requires |vs| == |list| && forall k :: 0 <= k < |list| ==> vs[k] == wrap(list[k])
    ensures Each(vs, edges, wrap)
  {
    hide EdgeBefore;
    forall i, j | 0 <= i < j < |vs| ensures vs[i] != vs[j] && Comes(vs[i], vs[j]) {
      assert EdgeBefore(list[i], list[j]);
    }
    forall edge | edge in edges ensures wrap(edge) in vs {
      var k :| 0 <= k < |list| && list[k] == edge;
      assert vs[k] == wrap(edge);
    }
    assert forall i :: 0 <= i < |vs| ==> list[i] in edges && vs[i] == wrap(list[i]);
    assert Distinct(vs);
    assert forall edge :: edge in edges ==> wrap(edge) in vs;
  }
}
