/**
 Projecting `cargo metadata` into observed packages, and what a clean projection
 together with a clean evaluation says about the whole dependency graph
 (`xtask/src/admission.rs`, `project_observed_packages` and `record_dep_edge`).
 */
module Projection {
  import opened Bytes
  import opened Order
  import opened Admission
  import opened Metadata

  datatype Finding =
    | NotAnObject
    | PackagesUnreadable
    | EmptyInventory
    | PackageUnreadable(index: nat)
    | DuplicatePackageId(index: nat)
    | NodeUnreadable(index: nat)
    | DuplicateResolveNode(index: nat)
    | FeaturesUnreadable
    | DependenciesUnreadable
    | MissingFromResolve(id: Text)
    | DestinationUnresolved(dest: Option<Text>)
    | DependencyKindUnreadable(unread: Text)

  datatype DepRecord = DepRecord(dest: Option<Text>, kinds: set<DepKind>, faithful: bool)
  datatype NodeObservation = NodeObservation(features: set<Text>, deps: seq<DepRecord>, faithful: bool)

  // ---- one dependency ------------------------------------------------------------

  ghost predicate Records(r: DepRecord, dep: Json) {
    && r.dest == TextOf(dep, PKG)
    && (r.faithful <==> EdgeReadable(dep))
    && (forall kind :: kind in r.kinds <==> HasKind(Entries(dep), kind))
  }

  method RecordDepEdge(dep: Json) returns (r: DepRecord)
    ensures Records(r, dep)
  {
    var entries := Entries(dep);
    var kinds: set<DepKind> := {};
    var faithful := entries != [];
    for i := 0 to |entries|
      invariant faithful <==> entries != [] && forall k :: 0 <= k < i ==> EntryReadable(entries[k])
      invariant forall kind :: kind in kinds <==> HasKind(entries[..i], kind)
    {
      var entry := entries[i];
      var target := Get(entry, TARGET);
      if target.None? || !(target.value.Null? || target.value.Str?) {
        faithful := false;
      }
      var kind := KindOf(entry);
      if kind.Some? {
        kinds := kinds + {kind.value};
      } else {
        faithful := false;
      }
      assert entries[..i + 1] == entries[..i] + [entry];
      KindsAppend(entries[..i], entry);
    }
    assert entries[..|entries|] == entries;
    r := DepRecord(TextOf(dep, PKG), kinds, faithful);
  }

  lemma KindsAppend(entries: seq<Json>, entry: Json)
    ensures forall kind :: HasKind(entries + [entry], kind) <==> HasKind(entries, kind) || KindOf(entry) == Some(kind)
  {
    var all := entries + [entry];
    assert all[|entries|] == entry;
    forall kind | HasKind(entries, kind) ensures HasKind(all, kind) {
      var i :| 0 <= i < |entries| && KindOf(entries[i]) == Some(kind);
      assert all[i] == entries[i];
    }
  }

  // ---- one resolve node ----------------------------------------------------------

  ghost predicate Reads(n: NodeObservation, node: Json) {
    && (n.faithful <==> NodeReadable(node))
    && (forall f :: f in n.features <==> Activates(FeatureItems(node), f))
    && |n.deps| == |Deps(node)|
    && forall i :: 0 <= i < |n.deps| ==> Records(n.deps[i], Deps(node)[i])
  }

  method ReadFeatures(node: Json) returns (features: set<Text>, findings: seq<Finding>)
    ensures forall f :: f in features <==> Activates(FeatureItems(node), f)
    ensures findings == [] <==>
      ItemsOf(node, FEATURES).Some? && forall i :: 0 <= i < |FeatureItems(node)| ==> FeatureItems(node)[i].Str?
  {
    features, findings := {}, [];
    if ItemsOf(node, FEATURES).None? {
      return {}, [FeaturesUnreadable];
    }
    var items := FeatureItems(node);
    for i := 0 to |items|
      invariant forall f :: f in features <==> Activates(items[..i], f)
      invariant findings == [] <==> forall k :: 0 <= k < i ==> items[k].Str?
    {
      ActivatesAppend(items[..i], items[i]);
      assert items[..i + 1] == items[..i] + [items[i]];
      if items[i].Str? {
        features := features + {items[i].text};
      } else {
        findings := findings + [FeaturesUnreadable];
      }
    }
    assert items[..|items|] == items;
  }

  lemma ActivatesAppend(items: seq<Json>, item: Json)
    ensures forall f :: Activates(items + [item], f) <==> Activates(items, f) || item == Str(f)
  {
    var all := items + [item];
    assert all[|items|] == item;
    forall f | Activates(items, f) ensures Activates(all, f) {
      var i :| 0 <= i < |items| && items[i] == Str(f);
      assert all[i] == items[i];
    }
  }

  method ReadNode(node: Json) returns (n: NodeObservation, findings: seq<Finding>)
    ensures Reads(n, node)
    ensures findings == [] <==> NodeReadable(node)
  {
    var features, unreadable := ReadFeatures(node);
    findings := unreadable;
    var faithful := unreadable == [];
    var deps: seq<DepRecord> := [];
    if ItemsOf(node, DEPS).None? {
      findings, faithful := findings + [DependenciesUnreadable], false;
    }
    var list := Deps(node);
    for i := 0 to |list|
      invariant |deps| == i && forall k :: 0 <= k < i ==> Records(deps[k], list[k])
    {
      var record := RecordDepEdge(list[i]);
      deps := deps + [record];
    }
    n := NodeObservation(features, deps, faithful);
  }

  // ---- the two tables ------------------------------------------------------------

  // An id, once seen, is never seen again.
  predicate New(ids: seq<Option<Text>>, i: nat)
    requires i < |ids|
  {
    ids[i].Some? ==> ids[i] !in ids[..i]
  }

  lemma RepeatIsAmbiguous(ids: seq<Option<Text>>, i: nat)
    requires i < |ids| && !New(ids, i)
    ensures !Unambiguous(ids)
  {
    var k :| 0 <= k < i && ids[k] == ids[i];
  }

  lemma AllNewIsUnambiguous(ids: seq<Option<Text>>)
    requires forall i :: 0 <= i < |ids| ==> New(ids, i)
    ensures Unambiguous(ids)
  {
    forall i, j | 0 <= i < j < |ids| && ids[i].Some? ensures ids[i] != ids[j] {
      assert New(ids, j);
      assert ids[..j][i] == ids[i];
    }
  }

  // The table of the first n packages.
  ghost predicate Identities(table: map<Text, PackageId>, packages: seq<Json>, root: Option<Text>) {
    forall m, p :: (m in table && table[m] == p) <==> Identifies(packages, root, m, p)
  }

  lemma IdentifyOne(table: map<Text, PackageId>, packages: seq<Json>, root: Option<Text>, package: Json)
    requires Identities(table, packages, root)
    requires Key(package).Some? ==> Key(package) !in Keys(packages)
    ensures Identity(package, root).None? ==> Identities(table, packages + [package], root)
    ensures Identity(package, root).Some? ==>
      Identities(table[Key(package).value := Identity(package, root).value], packages + [package], root)
  {
    var all := packages + [package];
    assert all[|packages|] == package;
    forall m, p ensures Identifies(all, root, m, p) <==>
        Identifies(packages, root, m, p) || (Key(package) == Some(m) && Identity(package, root) == Some(p)) {
      if Identifies(packages, root, m, p) {
        var i :| 0 <= i < |packages| && Key(packages[i]) == Some(m) && Identity(packages[i], root) == Some(p);
        assert all[i] == packages[i];
      }
    }
    forall m, p | Identifies(packages, root, m, p) ensures Key(package) != Some(m) {
      var i :| 0 <= i < |packages| && Key(packages[i]) == Some(m) && Identity(packages[i], root) == Some(p);
      assert Keys(packages)[i] == Some(m);
    }
  }

  method ReadIdentities(packages: seq<Json>, root: Option<Text>)
    returns (table: Option<map<Text, PackageId>>, findings: seq<Finding>)
    ensures table.Some? <==> Unambiguous(Keys(packages))
    ensures table.Some? ==> Identities(table.value, packages, root)
    ensures findings == [] <==>
      table.Some? && forall i :: 0 <= i < |packages| ==> Identity(packages[i], root).Some?
  {
    hide Identities, Identifies, Identity, Key;
    var seen: set<Text>, ids: map<Text, PackageId> := {}, map[];
    findings := [];
    ghost var keys := Keys(packages);
    assert Identities(map[], packages[..0], root) by { NoIdentities(root); }
    for i := 0 to |packages|
      invariant Identities(ids, packages[..i], root)
      invariant forall m :: m in seen <==> Some(m) in keys[..i]
      invariant forall k :: 0 <= k < i ==> New(keys, k)
      invariant findings == [] <==> forall k :: 0 <= k < i ==> Identity(packages[k], root).Some?
    {
      var package := packages[i];
      var key, identity := Key(package), Identity(package, root);
      if key.Some? && key.value in seen {
        RepeatIsAmbiguous(keys, i);
        return None, findings + [DuplicatePackageId(i)];
      }
      if key.Some? {
        seen := seen + {key.value};
      }
      assert New(keys, i);
      assert Keys(packages[..i]) == keys[..i];
      IdentifyOne(ids, packages[..i], root, package);
      assert packages[..i + 1] == packages[..i] + [package];
      assert keys[..i + 1] == keys[..i] + [key];
      if identity.Some? {
        ids := ids[key.value := identity.value];
      } else {
        findings := findings + [PackageUnreadable(i)];
      }
    }
    assert packages[..|packages|] == packages;
    AllNewIsUnambiguous(keys);
    table := Some(ids);
  }

  lemma NoIdentities(root: Option<Text>)
    ensures Identities(map[], [], root)
  {
  }

  ghost predicate NodeTable(table: map<Text, NodeObservation>, nodes: seq<Json>) {
    && (forall m :: m in table <==> Some(m) in NodeIds(nodes))
    && (forall i :: 0 <= i < |nodes| && TextOf(nodes[i], ID).Some? && TextOf(nodes[i], ID).value in table ==>
        Reads(table[TextOf(nodes[i], ID).value], nodes[i]))
  }

  lemma NoNodes()
    ensures NodeTable(map[], [])
  {
  }

  lemma AddNode(table: map<Text, NodeObservation>, nodes: seq<Json>, node: Json)
    requires NodeTable(table, nodes)
    ensures var id := TextOf(node, ID);
      && (id.None? ==> NodeTable(table, nodes + [node]))
      && (id.Some? ==> (id.value in table <==> id in NodeIds(nodes)))
      && (id.Some? && id.value !in table ==>
            forall n :: Reads(n, node) ==> NodeTable(table[id.value := n], nodes + [node]))
  {
    hide Reads, TextOf;
    assert NodeIds(nodes + [node]) == NodeIds(nodes) + [TextOf(node, ID)];
    forall i | 0 <= i < |nodes| ensures TextOf(nodes[i], ID) in NodeIds(nodes) {
      assert NodeIds(nodes)[i] == TextOf(nodes[i], ID);
    }
  }

  method ReadNodes(nodes: seq<Json>) returns (table: Option<map<Text, NodeObservation>>, findings: seq<Finding>)
    ensures table.Some? <==> Unambiguous(NodeIds(nodes))
    ensures table.Some? ==> NodeTable(table.value, nodes)
    ensures findings == [] <==>
      table.Some? && forall i :: 0 <= i < |nodes| ==> TextOf(nodes[i], ID).Some? && NodeReadable(nodes[i])
  {
    hide Reads, NodeReadable, TextOf, NodeTable, Unambiguous;
    var read: map<Text, NodeObservation> := map[];
    findings := [];
    ghost var ids := NodeIds(nodes);
    assert nodes[..0] == [];
    assert NodeTable(map[], []) by { NoNodes(); }
    for i := 0 to |nodes|
      invariant NodeTable(read, nodes[..i])
      invariant forall k :: 0 <= k < i ==> New(ids, k)
      invariant findings == [] <==>
        forall k :: 0 <= k < i ==> TextOf(nodes[k], ID).Some? && NodeReadable(nodes[k])
    {
      var node := nodes[i];
      var id := TextOf(node, ID);
      assert nodes[..i + 1] == nodes[..i] + [node];
      assert NodeIds(nodes[..i]) == ids[..i];
      AddNode(read, nodes[..i], node);
      if id.None? {
        findings := findings + [NodeUnreadable(i)];
      } else if id.value in read {
        RepeatIsAmbiguous(ids, i);
        return None, findings + [DuplicateResolveNode(i)];
      } else {
        var n, unreadable := ReadNode(node);
        findings := findings + unreadable;
        read := read[id.value := n];
      }
    }
    assert nodes[..|nodes|] == nodes;
    AllNewIsUnambiguous(ids);
    table := Some(read);
  }

  // ---- one package -----------------------------------------------------------------

  // The record can be turned into edges.
  predicate Usable(table: map<Text, PackageId>, dep: DepRecord) {
    dep.dest.Some? && dep.dest.value in table && dep.faithful
  }

  predicate CarriesOne(table: map<Text, PackageId>, dep: DepRecord, e: EdgeId) {
    Usable(table, dep) && table[dep.dest.value] == e.dest && e.kind in dep.kinds
  }

  predicate Carries(table: map<Text, PackageId>, deps: seq<DepRecord>, e: EdgeId) {
    exists i :: 0 <= i < |deps| && CarriesOne(table, deps[i], e)
  }

  lemma CarriesAppend(table: map<Text, PackageId>, deps: seq<DepRecord>, dep: DepRecord)
    ensures forall e :: Carries(table, deps + [dep], e) <==>
      Carries(table, deps, e) || CarriesOne(table, dep, e)
  {
    var all := deps + [dep];
    assert all[|deps|] == dep;
    forall e | Carries(table, deps, e) ensures Carries(table, all, e) {
      var i :| 0 <= i < |deps| && CarriesOne(table, deps[i], e);
      assert all[i] == deps[i];
    }
  }

  // Edges of a node, and whether all of them could be read.
  method ResolveEdges(table: map<Text, PackageId>, deps: seq<DepRecord>)
    returns (edges: set<EdgeId>, findings: seq<Finding>)
    ensures forall e :: e in edges <==> Carries(table, deps, e)
    ensures findings == [] <==> forall i :: 0 <= i < |deps| ==> Usable(table, deps[i])
  {
    hide Carries;
    edges, findings := {}, [];
    assert forall e :: !Carries(table, [], e) by { NothingCarried(table); }
    assert deps[..0] == [];
    for i := 0 to |deps|
      invariant forall e :: e in edges <==> Carries(table, deps[..i], e)
      invariant findings == [] <==> forall k :: 0 <= k < i ==> Usable(table, deps[k])
    {
      var dep := deps[i];
      CarriesAppend(table, deps[..i], dep);
      assert deps[..i + 1] == deps[..i] + [dep];
      if dep.dest.None? || dep.dest.value !in table {
        findings := findings + [DestinationUnresolved(dep.dest)];
      } else if !dep.faithful {
        findings := findings + [DependencyKindUnreadable(dep.dest.value)];
      } else {
        edges := edges + set kind | kind in dep.kinds :: EdgeId(table[dep.dest.value], kind);
      }
    }
    assert deps[..|deps|] == deps;
  }

  lemma NothingCarried(table: map<Text, PackageId>)
    ensures forall e :: !Carries(table, [], e)
  {
  }

  lemma EdgeIsDeclared(document: Json, table: map<Text, PackageId>, dep: Json, r: DepRecord)
    requires Identities(table, Packages(document), Root(document)) && Records(r, dep)
    ensures Usable(table, r) <==> EdgeReadable(dep) && Resolved(document, dep)
    ensures Usable(table, r) ==>
      forall kind, dest :: CarriesOne(table, r, EdgeId(dest, kind)) <==>
        HasKind(Entries(dep), kind) && Leads(document, dep, dest)
  {
    hide HasKind, EdgeReadable, Identifies;
    if Usable(table, r) {
      assert Leads(document, dep, table[r.dest.value]);
    }
  }

  // What the tables say about this node is what the document says.
  lemma EdgesAreDeclared(document: Json, table: map<Text, PackageId>, node: Json, n: NodeObservation)
    requires Identities(table, Packages(document), Root(document)) && Reads(n, node)
    ensures (forall i :: 0 <= i < |n.deps| ==> Usable(table, n.deps[i])) <==>
      (forall i :: 0 <= i < |Deps(node)| ==> EdgeReadable(Deps(node)[i]) && Resolved(document, Deps(node)[i]))
    ensures (forall i :: 0 <= i < |n.deps| ==> Usable(table, n.deps[i])) ==>
      forall e :: Carries(table, n.deps, e) <==> Declares(document, node, e)
  {
    hide HasKind, EdgeReadable, Identifies, Leads, Resolved, Records, Usable, Identities, NodeReadable, Activates;
    forall i | 0 <= i < |n.deps|
      ensures Usable(table, n.deps[i]) <==> EdgeReadable(Deps(node)[i]) && Resolved(document, Deps(node)[i])
      ensures Usable(table, n.deps[i]) ==>
        forall kind, dest :: CarriesOne(table, n.deps[i], EdgeId(dest, kind)) <==>
          HasKind(Entries(Deps(node)[i]), kind) && Leads(document, Deps(node)[i], dest)
    {
      EdgeIsDeclared(document, table, Deps(node)[i], n.deps[i]);
    }
    if forall i :: 0 <= i < |n.deps| ==> Usable(table, n.deps[i]) {
      forall e ensures Carries(table, n.deps, e) <==> Declares(document, node, e) {
        assert e == EdgeId(e.dest, e.kind);
      }
    }
  }

  // One turn of the last loop: the package is observed exactly when it can be.
  method ObservePackage(document: Json, table: map<Text, PackageId>, nodes: map<Text, NodeObservation>, m: Text)
    returns (o: Option<ObservedPackage>, findings: seq<Finding>)
    requires Identities(table, Packages(document), Root(document)) && NodeTable(nodes, Nodes(document))
    requires Unambiguous(NodeIds(Nodes(document))) && m in table
    ensures o.Some? <==> Observable(document, m)
    ensures o.Some? ==> Observes(document, m, o.value)
    ensures findings == [] && NodesReadable(Nodes(document)) ==> o.Some?
    ensures o.Some? ==> findings == []
  {
    hide Reads, Carries, NodeReadable, Identifies, Declares, Unambiguous;
    assert Identifies(Packages(document), Root(document), m, table[m]);
    if m !in nodes {
      Unlisted(document, m);
      return None, [MissingFromResolve(m)];
    }
    var n := nodes[m];
    ghost var node := TheNode(document, m);
    NodeIsRead(document, nodes, m, node);
    var edges, unresolved := ResolveEdges(table, n.deps);
    EdgesAreDeclared(document, table, node, n);
    findings := unresolved;
    FaithfulIsReadable(n, node);
    if !n.faithful || unresolved != [] {
      forall other | NodeFor(document, m, other) ensures !Complete(document, other) {
        NodeIsUnique(document, m, node, other);
      }
      return None, findings;
    }
    o := Some(ObservedPackage(table[m], n.features, edges));
    assert Complete(document, node) && Describes(document, node, o.value);
  }

  lemma Unlisted(document: Json, m: Text)
    requires Some(m) !in NodeIds(Nodes(document))
    ensures !exists node :: NodeFor(document, m, node)
  {
    forall node | node in Nodes(document) ensures TextOf(node, ID) != Some(m) {
      var i :| 0 <= i < |Nodes(document)| && Nodes(document)[i] == node;
      assert NodeIds(Nodes(document))[i] == TextOf(node, ID);
    }
  }

  ghost function TheNode(document: Json, m: Text): (node: Json)
    requires Some(m) in NodeIds(Nodes(document))
    ensures NodeFor(document, m, node)
  {
    var i :| 0 <= i < |NodeIds(Nodes(document))| && NodeIds(Nodes(document))[i] == Some(m);
    Nodes(document)[i]
  }

  lemma NodeIsUnique(document: Json, m: Text, a: Json, b: Json)
    requires Unambiguous(NodeIds(Nodes(document))) && NodeFor(document, m, a) && NodeFor(document, m, b)
    ensures a == b
  {
    var nodes := Nodes(document);
    var i :| 0 <= i < |nodes| && nodes[i] == a;
    var j :| 0 <= j < |nodes| && nodes[j] == b;
    assert NodeIds(nodes)[i] == NodeIds(nodes)[j] == Some(m);
  }

  lemma NodeIsRead(document: Json, nodes: map<Text, NodeObservation>, m: Text, node: Json)
    requires NodeTable(nodes, Nodes(document)) && m in nodes && NodeFor(document, m, node)
    ensures Reads(nodes[m], node)
  {
    hide Reads;
    var i :| 0 <= i < |Nodes(document)| && Nodes(document)[i] == node;
  }

  lemma FaithfulIsReadable(n: NodeObservation, node: Json)
    requires Reads(n, node)
    ensures n.faithful <==> NodeReadable(node)
    ensures forall f :: f in n.features <==> Activates(FeatureItems(node), f)
  {
  }

  // ---- the whole document ------------------------------------------------------------

  ghost predicate NodesReadable(nodes: seq<Json>) {
    forall i :: 0 <= i < |nodes| ==> TextOf(nodes[i], ID).Some? && NodeReadable(nodes[i])
  }

  ghost predicate PackagesReadable(document: Json) {
    forall i :: 0 <= i < |Packages(document)| ==> Identity(Packages(document)[i], Root(document)).Some?
  }

  ghost predicate AllObservable(document: Json, ids: set<Text>) {
    forall m :: m in ids ==> Observable(document, m)
  }

  method ObserveAll(document: Json, table: map<Text, PackageId>, nodes: map<Text, NodeObservation>)
    returns (observations: seq<ObservedPackage>, findings: seq<Finding>, ghost at: seq<Text>)
    requires Identities(table, Packages(document), Root(document)) && NodeTable(nodes, Nodes(document))
    requires Unambiguous(NodeIds(Nodes(document)))
    ensures Projected(document, at, observations)
    ensures AllObservable(document, table.Keys) ==> findings == []
    ensures findings == [] && NodesReadable(Nodes(document)) ==> AllObservable(document, table.Keys)
  {
    hide Observable, Observes, Unambiguous, Identities, NodeTable, Ascending, TextBefore, NodesReadable, ObservedAmong,
      AllObservable, Packages, Root, Nodes, NodeIds, Increasing, StrictTotal, Projected;
    TextBeforeIsTotal();
    observations, findings, at := [], [], [];
    var ids := Ascending(TextBefore, table.Keys);
    ghost var seen: set<Text> := {};
    NothingObserved(document);
    assert ids[..0] == [];
    for i := 0 to |ids|
      invariant ObservedAmong(document, ids[..i], at, observations)
      invariant seen == Members(ids[..i])
      invariant AllObservable(document, seen) ==> findings == []
      invariant findings == [] && NodesReadable(Nodes(document)) ==> AllObservable(document, seen)
    {
      var m := ids[i];
      var o, refused := ObservePackage(document, table, nodes, m);
      findings := findings + refused;
      assert ids[..i + 1] == ids[..i] + [m];
      ObserveOne(document, ids[..i], at, observations, m, o);
      OneMoreObservable(document, seen, m);
      seen := seen + {m};
      if o.Some? {
        at, observations := at + [m], observations + [o.value];
      }
    }
    assert ids[..|ids|] == ids;
    assert seen == table.Keys;
    forall m | Observable(document, m) ensures m in ids {
      ObservableIsListed(document, table, m);
    }
    AllObserved(document, ids, at, observations);
  }

  lemma OneMoreObservable(document: Json, seen: set<Text>, m: Text)
    ensures AllObservable(document, seen + {m}) <==> AllObservable(document, seen) && Observable(document, m)
  {
    hide Observable;
  }

  // What has been projected after visiting these metadata ids.
  ghost predicate ObservedAmong(document: Json, ids: seq<Text>, at: seq<Text>, observations: seq<ObservedPackage>) {
    && (Increasing(TextBefore, ids) ==> Increasing(TextBefore, at)) && |at| == |observations|
    && (forall m :: m in at <==> m in ids && Observable(document, m))
    && (forall i :: 0 <= i < |at| ==> Observes(document, at[i], observations[i]))
  }

  lemma NothingObserved(document: Json)
    ensures ObservedAmong(document, [], [], []) && AllObservable(document, {})
  {
  }

  lemma ObserveOne(document: Json, ids: seq<Text>, at: seq<Text>, observations: seq<ObservedPackage>,
                   m: Text, o: Option<ObservedPackage>)
    requires ObservedAmong(document, ids, at, observations)
    requires (o.Some? <==> Observable(document, m)) && (o.Some? ==> Observes(document, m, o.value))
    ensures o.Some? ==> ObservedAmong(document, ids + [m], at + [m], observations + [o.value])
    ensures o.None? ==> ObservedAmong(document, ids + [m], at, observations)
  {
    hide Observable, Observes, TextBefore;
    if Increasing(TextBefore, ids + [m]) {
      assert Increasing(TextBefore, ids) by {
        assert forall i :: 0 <= i < |ids| ==> (ids + [m])[i] == ids[i];
      }
      StillIncreasing(at, ids, m);
    }
  }

  lemma AllObserved(document: Json, ids: seq<Text>, at: seq<Text>, observations: seq<ObservedPackage>)
    requires ObservedAmong(document, ids, at, observations) && Increasing(TextBefore, ids)
    requires forall m :: Observable(document, m) ==> m in ids
    ensures Projected(document, at, observations)
  {
    hide Observable, Observes, TextBefore;
  }

  lemma StillIncreasing(at: seq<Text>, before: seq<Text>, m: Text)
    requires Increasing(TextBefore, at) && Increasing(TextBefore, before + [m])
    requires forall x :: x in at ==> x in before
    ensures Increasing(TextBefore, at + [m])
  {
    hide TextBefore;
    var longer := before + [m];
    forall i | 0 <= i < |at| ensures TextBefore(at[i], m) {
      assert at[i] in at && at[i] in before;
      var k :| 0 <= k < |before| && before[k] == at[i];
      assert TextBefore(longer[k], longer[|before|]);
    }
  }

  lemma ObservableIsListed(document: Json, table: map<Text, PackageId>, m: Text)
    requires Identities(table, Packages(document), Root(document)) && Observable(document, m)
    ensures m in table
  {
    hide Identifies;
  }

  // The three kinds of findings together say whether the document is clean.
  lemma CleanMeans(document: Json, table: map<Text, PackageId>)
    requires Graph(document) && Identities(table, Packages(document), Root(document))
    ensures Clean(document) <==>
      && PackagesReadable(document) && NodesReadable(Nodes(document))
      && AllObservable(document, table.Keys)
  {
    hide Graph, Observable, Identity, Key, NodeReadable;
    var packages, root := Packages(document), Root(document);
    forall i | 0 <= i < |packages| && Identity(packages[i], root).Some?
      ensures Key(packages[i]).value in table
    {
      assert Identifies(packages, root, Key(packages[i]).value, Identity(packages[i], root).value);
    }
    forall m | m in table ensures Some(m) in Keys(packages) {
      assert Identifies(packages, root, m, table[m]);
      var i :| 0 <= i < |packages| && Key(packages[i]) == Some(m);
      assert Keys(packages)[i] == Some(m);
    }
  }

  lemma CleanIsGraph(document: Json)
    ensures Clean(document) ==> Graph(document)
  {
  }

  // Nothing degrades to an empty observation: whatever the document, a package is in
  // the result exactly when everything about it can be read, with exactly what its
  // node declares; and there is a finding unless that holds of every package.
  method ProjectObservedPackages(document: Json)
    returns (observations: seq<ObservedPackage>, findings: seq<Finding>, ghost at: seq<Text>)
    ensures findings == [] <==> Clean(document)
    ensures Graph(document) ==> Projected(document, at, observations)
    ensures !Graph(document) ==> observations == []
  {
    hide Clean, Projected, Unambiguous, Identities, NodeTable, AllObservable;
    CleanIsGraph(document);
    if !document.Object? {
      return [], [NotAnObject], [];
    }
    var listed := ItemsOf(document, PACKAGES);
    if listed.None? {
      return [], [PackagesUnreadable], [];
    }
    var packages := listed.value;
    if packages == [] {
      return [], [EmptyInventory], [];
    }
    var table, unreadable := ReadIdentities(packages, Root(document));
    if table.None? {
      return [], unreadable, [];
    }
    var nodes, unread := ReadNodes(Nodes(document));
    if nodes.None? {
      return [], unreadable + unread, [];
    }
    var refused: seq<Finding>;
    observations, refused, at := ObserveAll(document, table.value, nodes.value);
    findings := unreadable + unread + refused;
    CleanMeans(document, table.value);
  }

  // ---- closing the graph -------------------------------------------------------------

  ghost predicate Listed(document: Json, m: Text) {
    Some(m) in Keys(Packages(document))
  }

  // Package m declares a dependency on package n.
  ghost predicate DependsOn(document: Json, m: Text, n: Text) {
    exists node, i :: NodeFor(document, m, node) && 0 <= i < |Deps(node)| && TextOf(Deps(node)[i], PKG) == Some(n)
  }

  ghost predicate DependencyPath(document: Json, path: seq<Text>) {
    && path != [] && Listed(document, path[0])
    && forall i :: 0 < i < |path| ==> DependsOn(document, path[i - 1], path[i])
  }

  lemma ObservableIffListed(document: Json, m: Text)
    requires Clean(document)
    ensures Observable(document, m) <==> Listed(document, m)
  {
    hide NodeReadable, Identity, Complete;
    var packages := Packages(document);
    if Listed(document, m) {
      var i :| 0 <= i < |packages| && Keys(packages)[i] == Some(m);
      assert Key(packages[i]) == Some(m);
    }
    if Observable(document, m) {
      var p :| Identifies(packages, Root(document), m, p);
      var i :| 0 <= i < |packages| && Key(packages[i]) == Some(m);
      assert Keys(packages)[i] == Some(m);
    }
  }

  // In a clean document each listed package is observed once, and nothing else is.
  lemma EachObservedOnce(document: Json, at: seq<Text>, observations: seq<ObservedPackage>)
    requires Clean(document) && Projected(document, at, observations)
    ensures forall m :: m in at <==> Listed(document, m)
    ensures Distinct(at)
    ensures |observations| == |Packages(document)|
  {
    hide Observable, Observes, TextBefore, NodeReadable, Key, Identity;
    forall m ensures m in at <==> Listed(document, m) {
      ObservableIffListed(document, m);
    }
    TextBeforeIsTotal();
    IncreasingIsDistinct(TextBefore, at);
    KeysCount(document, at);
  }

  lemma KeysCount(document: Json, at: seq<Text>)
    requires Clean(document)
    requires Distinct(at)
    requires forall m :: m in at <==> Listed(document, m)
    ensures |at| == |Packages(document)|
  {
    hide Observable, NodeReadable, Identity;
    var packages := Packages(document);
    var keys, listed := Keys(packages), seq(|at|, i requires 0 <= i < |at| => Some(at[i]));
    forall i | 0 <= i < |keys| ensures keys[i] in listed {
      assert Identity(packages[i], Root(document)).Some?;
      assert Listed(document, keys[i].value);
      var j :| 0 <= j < |at| && at[j] == keys[i].value;
      assert listed[j] == keys[i];
    }
    forall j | 0 <= j < |at| ensures listed[j] in keys {
      assert Listed(document, at[j]);
    }
    SameLength(listed, keys);
  }

  lemma SameLength<T>(a: seq<T>, b: seq<T>)
    requires Distinct(a) && Distinct(b)
    requires forall x :: x in a <==> x in b
    ensures |a| == |b|
  {
    DistinctCounts(a);
    DistinctCounts(b);
    assert Members(a) == Members(b);
  }

  lemma StepStaysListed(document: Json, m: Text, n: Text)
    requires Clean(document) && Listed(document, m) && DependsOn(document, m, n)
    ensures Listed(document, n)
  {
    hide NodeReadable, Identity;
    var packages := Packages(document);
    var node, i :| NodeFor(document, m, node) && 0 <= i < |Deps(node)| && TextOf(Deps(node)[i], PKG) == Some(n);
    var k :| 0 <= k < |packages| && Keys(packages)[k] == Some(m);
    assert Observable(document, m);
    var other :| NodeFor(document, m, other) && Complete(document, other);
    NodeIsUnique(document, m, node, other);
    assert Resolved(document, Deps(node)[i]);
    var dest :| Leads(document, Deps(node)[i], dest);
    var j :| 0 <= j < |packages| && Key(packages[j]) == Some(n);
    assert Keys(packages)[j] == Some(n);
  }

  // Package m is observed from its own node, and admitted.
  ghost predicate Reviewed(document: Json, at: seq<Text>, observations: seq<ObservedPackage>,
                           rows: AdmissionSet, target: Text, m: Text)
    requires |at| == |observations|
  {
    exists i ::
      && 0 <= i < |at| && at[i] == m
      && Observes(document, m, observations[i]) && Admitted(rows, target, observations[i])
  }

  // A clean projection with a clean evaluation closes the graph: every package that
  // dependency edges reach from a listed one is itself observed, reviewed for the
  // target, and has exactly the features and edges reviewed for it.
  lemma {:induction false} GraphIsClosed(document: Json, at: seq<Text>, observations: seq<ObservedPackage>,
                                        rows: AdmissionSet, target: Text, path: seq<Text>)
    requires Clean(document) && Projected(document, at, observations)
    requires forall i :: 0 <= i < |observations| ==> Admitted(rows, target, observations[i])
    requires DependencyPath(document, path)
    ensures Reviewed(document, at, observations, rows, target, path[|path| - 1])
    decreases |path|
  {
    hide Clean, Observes, Admitted, Observable, Identifies, DependsOn, Listed, Increasing, Keys, Distinct;
    var last := path[|path| - 1];
    if |path| == 1 {
    } else {
      var shorter := path[..|path| - 1];
      GraphIsClosed(document, at, observations, rows, target, shorter);
      EachObservedOnce(document, at, observations);
      StepStaysListed(document, path[|path| - 2], last);
    }
    EachObservedOnce(document, at, observations);
    var i :| 0 <= i < |at| && at[i] == last;
  }

  // Nor does any observed edge leave the admitted packages.
  lemma EdgesLandOnAdmitted(document: Json, at: seq<Text>, observations: seq<ObservedPackage>,
                            rows: AdmissionSet, target: Text, i: nat, e: EdgeId)
    requires Clean(document) && Projected(document, at, observations)
    requires forall k :: 0 <= k < |observations| ==> Admitted(rows, target, observations[k])
    requires i < |observations| && e in observations[i].edges
    ensures exists k ::
      0 <= k < |observations| && observations[k].id == e.dest && Admitted(rows, target, observations[k])
  {
    hide Clean, Admitted, Observable, Observes;
    assert Observes(document, at[i], observations[i]);
    var m := EdgeIsIdentified(document, at[i], observations[i], e);
    IdentifiedIsObserved(document, at, observations, m, e.dest);
  }

  lemma EdgeIsIdentified(document: Json, m: Text, o: ObservedPackage, e: EdgeId) returns (n: Text)
    requires Observes(document, m, o) && e in o.edges
    ensures Identifies(Packages(document), Root(document), n, e.dest)
  {
    hide Identifies, Complete, HasKind, NodeFor, Activates;
    var node :| NodeFor(document, m, node) && Complete(document, node) && Describes(document, node, o);
    assert Declares(document, node, e);
    var d :| 0 <= d < |Deps(node)| && Leads(document, Deps(node)[d], e.dest);
    n := Destination(document, Deps(node)[d], e.dest);
  }

  lemma Destination(document: Json, dep: Json, dest: PackageId) returns (n: Text)
    requires Leads(document, dep, dest)
    ensures Identifies(Packages(document), Root(document), n, dest)
  {
    hide Identifies, TextOf;
    n :| TextOf(dep, PKG) == Some(n) && Identifies(Packages(document), Root(document), n, dest);
  }

  lemma IdentifiedIsObserved(document: Json, at: seq<Text>, observations: seq<ObservedPackage>, m: Text, p: PackageId)
    requires Clean(document) && Projected(document, at, observations)
    requires Identifies(Packages(document), Root(document), m, p)
    ensures exists k :: 0 <= k < |observations| && at[k] == m && observations[k].id == p
  {
    hide Identity, NodeReadable, Complete, Describes;
    var packages, root := Packages(document), Root(document);
    var i :| 0 <= i < |packages| && Key(packages[i]) == Some(m) && Identity(packages[i], root) == Some(p);
    assert Keys(packages)[i] == Some(m);
    ObservableIffListed(document, m);
    var k :| 0 <= k < |at| && at[k] == m;
    assert Observes(document, at[k], observations[k]);
    var other := observations[k].id;
    var j :| 0 <= j < |packages| && Key(packages[j]) == Some(m) && Identity(packages[j], root) == Some(other);
    assert Keys(packages)[j] == Some(m);
    assert i == j;
  }
}
