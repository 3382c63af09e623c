/**
 The projection inverts Cargo's rendering of a dependency graph: a graph written out as
 `cargo metadata` is projected back to exactly the packages, features and edges it was
 written from (`xtask/src/admission.rs`, `project_observed_packages`).
 */
module Rendering {
  import opened Admission
  import opened Bytes
  import opened Metadata
  import opened Order
  import opened Projection

  datatype Dependency = Dependency(on: Text, kinds: seq<DepKind>)

  // One package as Cargo resolves it: its metadata id, identity, features and dependencies.
  datatype Package = Package(key: Text, id: PackageId, features: seq<Text>, deps: seq<Dependency>)

  // A workspace-relative location made of ordinary components.
  predicate Ordinary(location: Text) {
    location != [] && Keep(Split(location)) == Split(location) && [DOT, DOT] !in Split(location)
  }

  // A closed graph in an ordinary workspace: ids are distinct and every dependency is on a
  // listed package, of some kind.
  predicate Closed(graph: seq<Package>, root: Text) {
    && graph != [] && Absolute(root) && [DOT, DOT] !in Components(root)
    && (forall i, j :: 0 <= i < j < |graph| ==> graph[i].key != graph[j].key)
    && (forall i :: 0 <= i < |graph| && graph[i].id.source.WorkspacePath? ==> Ordinary(graph[i].id.source.manifestPath))
    && (forall i, d :: 0 <= i < |graph| && 0 <= d < |graph[i].deps| ==> Sound(graph, graph[i].deps[d]))
  }

  predicate Sound(graph: seq<Package>, d: Dependency) {
    d.kinds != [] && exists q :: q in graph && q.key == d.on
  }

  // ---- writing ---------------------------------------------------------------------------

  function SourceJson(source: SourceId): Json {
    match source
    case WorkspacePath(_) => Null
    case Exact(text) => Str(text)
  }

  function Manifest(source: SourceId, root: Text): Text {
    match source
    case WorkspacePath(location) => root + [SLASH] + location
    case Exact(_) => root
  }

  function PackageJson(p: Package, root: Text): Json {
    Object(map[
      Name("id") := Str(p.key), Name("name") := Str(p.id.name), Name("version") := Str(p.id.version),
      Name("source") := SourceJson(p.id.source), Name("manifest_path") := Str(Manifest(p.id.source, root))])
  }

  function EntryJson(kind: DepKind): Json {
    Object(map[Name("kind") := KindJson(kind), Name("target") := Null])
  }

  function EntriesJson(kinds: seq<DepKind>): (entries: seq<Json>)
    ensures |entries| == |kinds| && forall i :: 0 <= i < |kinds| ==> entries[i] == EntryJson(kinds[i])
  {
    seq(|kinds|, i requires 0 <= i < |kinds| => EntryJson(kinds[i]))
  }

  function DependencyJson(d: Dependency): Json {
    Object(map[Name("pkg") := Str(d.on), Name("dep_kinds") := Array(EntriesJson(d.kinds))])
  }

  function FeaturesJson(features: seq<Text>): (items: seq<Json>)
    ensures |items| == |features| && forall i :: 0 <= i < |features| ==> items[i] == Str(features[i])
  {
    seq(|features|, i requires 0 <= i < |features| => Str(features[i]))
  }

  function DepsJson(deps: seq<Dependency>): (items: seq<Json>)
    ensures |items| == |deps| && forall i :: 0 <= i < |deps| ==> items[i] == DependencyJson(deps[i])
  {
    seq(|deps|, i requires 0 <= i < |deps| => DependencyJson(deps[i]))
  }

  function NodeJson(p: Package): Json {
    Object(map[
      Name("id") := Str(p.key), Name("features") := Array(FeaturesJson(p.features)),
      Name("deps") := Array(DepsJson(p.deps))])
  }

  function PackagesJson(graph: seq<Package>, root: Text): (items: seq<Json>)
    ensures |items| == |graph| && forall i :: 0 <= i < |graph| ==> items[i] == PackageJson(graph[i], root)
  {
    seq(|graph|, i requires 0 <= i < |graph| => PackageJson(graph[i], root))
  }

  function NodesJson(graph: seq<Package>): (items: seq<Json>)
    ensures |items| == |graph| && forall i :: 0 <= i < |graph| ==> items[i] == NodeJson(graph[i])
  {
    seq(|graph|, i requires 0 <= i < |graph| => NodeJson(graph[i]))
  }

  function Document(graph: seq<Package>, root: Text): Json {
    Object(map[
      Name("workspace_root") := Str(root), Name("packages") := Array(PackagesJson(graph, root)),
      Name("resolve") := Object(map[Name("nodes") := Array(NodesJson(graph))])])
  }

  // ---- reading it back, piece by piece -----------------------------------------------------

  lemma PackageReads(p: Package, root: Text)
    requires Absolute(root) && [DOT, DOT] !in Components(root)
    requires p.id.source.WorkspacePath? ==> Ordinary(p.id.source.manifestPath)
    ensures Key(PackageJson(p, root)) == Some(p.key) && Identity(PackageJson(p, root), Some(root)) == Some(p.id)
  {
    hide RelativeManifest, Components, Split, Keep;
    if p.id.source.WorkspacePath? {
      LocationReads(p.id.source.manifestPath, root);
    }
  }

  lemma LocationReads(location: Text, root: Text)
    requires Absolute(root) && [DOT, DOT] !in Components(root) && Ordinary(location)
    ensures RelativeManifest(root + [SLASH] + location, root) == Some(location)
  {
    hide RelativeManifest, Split, Keep;
    Walked(root, location);
    LocationIff(root + [SLASH] + location, root, location);
  }

  lemma EntryReads(kind: DepKind)
    ensures EntryReadable(EntryJson(kind)) && KindOf(EntryJson(kind)) == Some(kind)
  {
    KindIff(EntryJson(kind), kind);
  }

  lemma DependencyReads(d: Dependency)
    requires d.kinds != []
    ensures TextOf(DependencyJson(d), PKG) == Some(d.on) && EdgeReadable(DependencyJson(d))
    ensures forall kind :: HasKind(Entries(DependencyJson(d)), kind) <==> kind in d.kinds
  {
    hide EntryReadable, KindOf, EntryJson;
    var entries := Entries(DependencyJson(d));
    assert entries == EntriesJson(d.kinds);
    forall i | 0 <= i < |entries| ensures EntryReadable(entries[i]) && KindOf(entries[i]) == Some(d.kinds[i]) {
      EntryReads(d.kinds[i]);
    }
  }

  lemma NodeReads(p: Package)
    ensures TextOf(NodeJson(p), ID) == Some(p.key) && NodeReadable(NodeJson(p))
    ensures FeatureItems(NodeJson(p)) == FeaturesJson(p.features) && Deps(NodeJson(p)) == DepsJson(p.deps)
    ensures forall f :: Activates(FeatureItems(NodeJson(p)), f) <==> f in p.features
  {
    hide DependencyJson;
  }

  lemma DocumentReads(graph: seq<Package>, root: Text)
    ensures Root(Document(graph, root)) == Some(root)
    ensures Packages(Document(graph, root)) == PackagesJson(graph, root)
    ensures Nodes(Document(graph, root)) == NodesJson(graph)
  {
    hide PackageJson, NodeJson;
  }

  // ---- and nothing else is read ----------------------------------------------------------------

  lemma EntryReadableIff(entry: Json)
    ensures EntryReadable(entry) <==>
      && (exists kind :: Get(entry, Name("kind")) == Some(KindJson(kind)))
      && (Get(entry, Name("target")) == Some(Null) || exists text :: Get(entry, Name("target")) == Some(Str(text)))
  {
    hide KindOf, KindJson;
    forall kind ensures KindOf(entry) == Some(kind) <==> Get(entry, Name("kind")) == Some(KindJson(kind)) {
      KindIff(entry, kind);
    }
    var target := Get(entry, TARGET);
    if target.Some? && target.value.Str? {
      assert target == Some(Str(target.value.text));
    }
    if KindOf(entry).Some? {
      var kind := KindOf(entry).value;
      assert Get(entry, Name("kind")) == Some(KindJson(kind));
    }
  }

  lemma EdgeReadableIff(dep: Json)
    ensures EdgeReadable(dep) <==>
      exists entries :: Get(dep, Name("dep_kinds")) == Some(Array(entries)) && entries != []
        && forall i :: 0 <= i < |entries| ==> EntryReadable(entries[i])
  {
    hide EntryReadable;
    if EdgeReadable(dep) {
      assert Get(dep, Name("dep_kinds")) == Some(Array(Entries(dep)));
    }
  }

  lemma NodeReadableIff(node: Json)
    ensures NodeReadable(node) <==>
      exists features, deps ::
        && Get(node, Name("features")) == Some(Array(FeaturesJson(features)))
        && Get(node, Name("deps")) == Some(Array(deps))
  {
    if NodeReadable(node) {
      var items := FeatureItems(node);
      var features := seq(|items|, i requires 0 <= i < |items| => items[i].text);
      assert FeaturesJson(features) == items;
      assert Get(node, Name("features")) == Some(Array(FeaturesJson(features)));
      assert Get(node, Name("deps")) == Some(Array(Deps(node)));
    }
  }

  // Cargo says this is where the package's bytes come from.
  predicate Locates(package: Json, root: Option<Text>, source: SourceId) {
    match source
    case Exact(text) => Get(package, Name("source")) == Some(Str(text))
    case WorkspacePath(location) =>
      && Get(package, Name("source")) == Some(Null) && root.Some?
      && TextOf(package, Name("manifest_path")).Some?
      && RelativeManifest(TextOf(package, Name("manifest_path")).value, root.value) == Some(location)
  }

  lemma IdentityIff(package: Json, root: Option<Text>, m: Text, id: PackageId)
    ensures Key(package) == Some(m) && Identity(package, root) == Some(id) <==>
      && Get(package, Name("id")) == Some(Str(m))
      && Get(package, Name("name")) == Some(Str(id.name)) && Get(package, Name("version")) == Some(Str(id.version))
      && Locates(package, root, id.source)
  {
    hide RelativeManifest;
  }

  // ---- the whole graph -----------------------------------------------------------------------

  lemma KeyIsUnique(graph: seq<Package>, root: Text, p: Package, q: Package)
    requires Closed(graph, root) && p in graph && q in graph && p.key == q.key
    ensures p == q
  {
    var i :| 0 <= i < |graph| && graph[i] == p;
    var j :| 0 <= j < |graph| && graph[j] == q;
  }

  lemma IdentifiesIff(graph: seq<Package>, root: Text, m: Text, id: PackageId)
    requires Closed(graph, root)
    ensures Identifies(PackagesJson(graph, root), Some(root), m, id) <==>
      exists p :: p in graph && p.key == m && p.id == id
  {
    hide PackageJson, Key, Identity, Ordinary;
    var items := PackagesJson(graph, root);
    forall i | 0 <= i < |graph|
      ensures Key(items[i]) == Some(graph[i].key) && Identity(items[i], Some(root)) == Some(graph[i].id)
    {
      PackageReads(graph[i], root);
    }
    if p :| p in graph && p.key == m && p.id == id {
      var i :| 0 <= i < |graph| && graph[i] == p;
      assert Key(items[i]) == Some(m);
    }
  }

  // What the graph says a package is to be observed as.
  ghost predicate Expected(graph: seq<Package>, p: Package, o: ObservedPackage) {
    && o.id == p.id
    && (forall f :: f in o.features <==> f in p.features)
    && (forall e :: e in o.edges <==> Depends(graph, p, e))
  }

  ghost predicate Depends(graph: seq<Package>, p: Package, e: EdgeId) {
    exists d, q :: d in p.deps && q in graph && q.key == d.on && q.id == e.dest && e.kind in d.kinds
  }

  lemma LeadsIff(graph: seq<Package>, root: Text, d: Dependency, dest: PackageId)
    requires Closed(graph, root) && d.kinds != []
    ensures Leads(Document(graph, root), DependencyJson(d), dest) <==>
      exists q :: q in graph && q.key == d.on && q.id == dest
  {
    hide PackagesJson, Document, DependencyJson, Identifies, Closed;
    DocumentReads(graph, root);
    DependencyReads(d);
    IdentifiesIff(graph, root, d.on, dest);
  }

  lemma DependsThrough(graph: seq<Package>, root: Text, p: Package, d: Dependency, e: EdgeId)
    requires Closed(graph, root) && p in graph && d in p.deps
    ensures HasKind(Entries(DependencyJson(d)), e.kind) && Leads(Document(graph, root), DependencyJson(d), e.dest) <==>
      e.kind in d.kinds && exists q :: q in graph && q.key == d.on && q.id == e.dest
  {
    hide Document, DependencyJson, Leads, HasKind, Entries, Closed;
    DepIsSound(graph, root, p, d);
    DependencyReads(d);
    LeadsIff(graph, root, d, e.dest);
  }

  lemma DeclaresIff(graph: seq<Package>, root: Text, p: Package, e: EdgeId)
    requires Closed(graph, root) && p in graph
    ensures Declares(Document(graph, root), NodeJson(p), e) <==> Depends(graph, p, e)
  {
    hide Document, NodeJson, DependencyJson, Leads, HasKind, Entries, Closed;
    NodeReads(p);
    var document, items := Document(graph, root), DepsJson(p.deps);
    if Declares(document, NodeJson(p), e) {
      var i :| 0 <= i < |items| && HasKind(Entries(items[i]), e.kind) && Leads(document, items[i], e.dest);
      assert p.deps[i] in p.deps;
      DependsThrough(graph, root, p, p.deps[i], e);
    }
    if d, q :| d in p.deps && q in graph && q.key == d.on && q.id == e.dest && e.kind in d.kinds {
      var i :| 0 <= i < |p.deps| && p.deps[i] == d;
      assert items[i] == DependencyJson(d);
      DependsThrough(graph, root, p, d, e);
    }
  }

  lemma DepIsSound(graph: seq<Package>, root: Text, p: Package, d: Dependency)
    requires Closed(graph, root) && p in graph && d in p.deps
    ensures Sound(graph, d)
  {
    hide Sound, Ordinary;
    var i :| 0 <= i < |graph| && graph[i] == p;
    var k :| 0 <= k < |p.deps| && p.deps[k] == d;
    assert Sound(graph, graph[i].deps[k]);
  }

  lemma NodeIsComplete(graph: seq<Package>, root: Text, p: Package)
    requires Closed(graph, root) && p in graph
    ensures NodeFor(Document(graph, root), p.key, NodeJson(p)) && Complete(Document(graph, root), NodeJson(p))
  {
    hide Document, NodeJson, DependencyJson, Leads, EdgeReadable, Closed, NodeReadable;
    NodeReads(p);
    DocumentReads(graph, root);
    var i :| 0 <= i < |graph| && graph[i] == p;
    assert NodesJson(graph)[i] == NodeJson(p);
    var items := DepsJson(p.deps);
    forall k | 0 <= k < |items|
      ensures EdgeReadable(items[k]) && Resolved(Document(graph, root), items[k])
    {
      var d := p.deps[k];
      DepIsSound(graph, root, p, d);
      DependencyReads(d);
      var q :| q in graph && q.key == d.on;
      LeadsIff(graph, root, d, q.id);
      assert Leads(Document(graph, root), items[k], q.id);
    }
  }

  lemma PackageIsObservable(graph: seq<Package>, root: Text, p: Package)
    requires Closed(graph, root) && p in graph
    ensures Observable(Document(graph, root), p.key)
  {
    hide Document, NodeJson, Identifies, Complete, Closed, NodeFor;
    NodeIsComplete(graph, root, p);
    DocumentReads(graph, root);
    IdentifiesIff(graph, root, p.key, p.id);
    assert Identifies(Packages(Document(graph, root)), Root(Document(graph, root)), p.key, p.id);
  }

  // The rendering is a clean document, so its projection makes no finding.
  lemma RenderedIsClean(graph: seq<Package>, root: Text)
    requires Closed(graph, root)
    ensures Clean(Document(graph, root))
  {
    hide Document, PackageJson, NodeJson, Observable, Identity, Key, NodeReadable, TextOf, Ordinary, Sound;
    var document := Document(graph, root);
    DocumentReads(graph, root);
    forall i | 0 <= i < |graph|
      ensures Key(PackageJson(graph[i], root)) == Some(graph[i].key)
      ensures Identity(PackageJson(graph[i], root), Some(root)).Some?
      ensures TextOf(NodeJson(graph[i]), ID) == Some(graph[i].key) && NodeReadable(NodeJson(graph[i]))
      ensures Observable(document, graph[i].key)
    {
      PackageReads(graph[i], root);
      NodeReads(graph[i]);
      PackageIsObservable(graph, root, graph[i]);
    }
    assert Keys(Packages(document)) == NodeIds(Nodes(document));
  }

  lemma NodeIsRendered(graph: seq<Package>, root: Text, p: Package, node: Json)
    requires Closed(graph, root) && p in graph && NodeFor(Document(graph, root), p.key, node)
    ensures node == NodeJson(p)
  {
    hide Document, NodeJson, Closed;
    DocumentReads(graph, root);
    var i :| 0 <= i < |graph| && NodesJson(graph)[i] == node;
    NodeReads(graph[i]);
    KeyIsUnique(graph, root, p, graph[i]);
  }

  lemma DescribedAsExpected(graph: seq<Package>, root: Text, p: Package, o: ObservedPackage)
    requires Closed(graph, root) && p in graph && o.id == p.id && Describes(Document(graph, root), NodeJson(p), o)
    ensures Expected(graph, p, o)
  {
    hide Document, NodeJson, Closed, Declares, Activates, Depends;
    NodeReads(p);
    forall e ensures e in o.edges <==> Depends(graph, p, e) {
      DeclaresIff(graph, root, p, e);
    }
  }

  // The observation made under m is what the graph lists under m.
  ghost predicate Recovers(graph: seq<Package>, m: Text, o: ObservedPackage) {
    exists p :: p in graph && p.key == m && Expected(graph, p, o)
  }

  lemma RenderedIsObserved(graph: seq<Package>, root: Text, m: Text, o: ObservedPackage)
    requires Closed(graph, root) && Observes(Document(graph, root), m, o)
    ensures Recovers(graph, m, o)
  {
    hide Document, NodeJson, Identifies, Complete, Closed, Expected, NodeFor, Describes;
    DocumentReads(graph, root);
    IdentifiesIff(graph, root, m, o.id);
    var p :| p in graph && p.key == m && p.id == o.id;
    var node :| NodeFor(Document(graph, root), m, node) && Describes(Document(graph, root), node, o);
    NodeIsRendered(graph, root, p, node);
    DescribedAsExpected(graph, root, p, o);
  }

  // Projecting the rendering gives the graph back: every package once, in order of its id,
  // and nothing else.
  lemma RenderingIsInverted(graph: seq<Package>, root: Text, at: seq<Text>, observations: seq<ObservedPackage>)
    requires Closed(graph, root) && Projected(Document(graph, root), at, observations)
    ensures |observations| == |graph|
    ensures forall p :: p in graph ==> p.key in at
    ensures forall i :: 0 <= i < |at| ==> Recovers(graph, at[i], observations[i])
  {
    hide Document, Observes, Observable, Recovers, Closed;
    RenderedIsClean(graph, root);
    DocumentReads(graph, root);
    EachObservedOnce(Document(graph, root), at, observations);
    forall p | p in graph ensures p.key in at {
      PackageIsObservable(graph, root, p);
    }
    forall i | 0 <= i < |at| ensures Recovers(graph, at[i], observations[i]) {
      RenderedIsObserved(graph, root, at[i], observations[i]);
    }
  }
}
