/**
 What `cargo metadata` JSON says about packages and dependencies, read strictly: a
 field that is absent or of the wrong type is unknown, never empty
 (`xtask/src/admission.rs`; the JSON values of
 `crates/fa-reference/src/strict_json.rs`).
 */
module Metadata {
  import opened Bytes
  import opened Order
  import opened Admission

  // Parsed JSON; numbers keep their spelling.
  datatype Json =
    | Null
    | Bool(value: bool)
    | Number(spelling: Text)
    | Str(text: Text)
    | Array(items: seq<Json>)
    | Object(fields: map<Text, Json>)

  // A field name, by its bytes.
  function Name(s: string): (name: Text)
    requires forall i :: 0 <= i < |s| ==> s[i] < 128 as char
    ensures |name| == |s|
  {
    seq(|s|, i requires 0 <= i < |s| => s[i] as int as Byte)
  }

  const ID := Name("id")
  const NAME := Name("name")
  const VERSION := Name("version")
  const SOURCE := Name("source")
  const MANIFEST_PATH := Name("manifest_path")
  const WORKSPACE_ROOT := Name("workspace_root")
  const PACKAGES := Name("packages")
  const RESOLVE := Name("resolve")
  const NODES := Name("nodes")
  const FEATURES := Name("features")
  const DEPS := Name("deps")
  const PKG := Name("pkg")
  const DEP_KINDS := Name("dep_kinds")
  const TARGET := Name("target")
  const KIND := Name("kind")
  const BUILD := Name("build")
  const DEV := Name("dev")

  function Get(j: Json, key: Text): Option<Json> {
    if j.Object? && key in j.fields then Some(j.fields[key]) else None
  }

  function AsText(j: Option<Json>): Option<Text> {
    if j.Some? && j.value.Str? then Some(j.value.text) else None
  }

  function AsArray(j: Option<Json>): Option<seq<Json>> {
    if j.Some? && j.value.Array? then Some(j.value.items) else None
  }

  function TextOf(j: Json, key: Text): Option<Text> {
    AsText(Get(j, key))
  }

  function ItemsOf(j: Json, key: Text): Option<seq<Json>> {
    AsArray(Get(j, key))
  }

  // ---- manifest locations --------------------------------------------------------

  const SLASH: Byte := 0x2F
  const DOT: Byte := 0x2E

  // The pieces of a path between its slashes.
  function Split(path: Text): (parts: seq<Text>)
    ensures parts != []
    ensures forall part :: part in parts ==> SLASH !in part
  {
    if path == [] then [[]]
    else
      var rest := Split(path[1..]);
      if path[0] == SLASH then [[]] + rest else [[path[0]] + rest[0]] + rest[1..]
  }

  function Join(parts: seq<Text>): Text
    requires parts != []
  {
    if |parts| == 1 then parts[0] else parts[0] + [SLASH] + Join(parts[1..])
  }

  predicate Absolute(path: Text) {
    path != [] && path[0] == SLASH
  }

  // Empty and `.` pieces are no components of an absolute path; `..` is one.
  predicate Counts(part: Text) {
    part != [] && part != [DOT]
  }

  function Keep(parts: seq<Text>): (kept: seq<Text>)
    ensures forall part :: part in kept <==> part in parts && Counts(part)
    ensures |kept| <= |parts|
  {
    if parts == [] then []
    else (if Counts(parts[0]) then [parts[0]] else []) + Keep(parts[1..])
  }

  function Components(path: Text): (parts: seq<Text>) {
    Keep(Split(path))
  }

  // The manifest's location inside the workspace, if it has one.
  function RelativeManifest(manifest: Text, root: Text): Option<Text> {
    var m, r := Components(manifest), Components(root);
    if !Absolute(manifest) || !Absolute(root) then None
    else if [DOT, DOT] in m || [DOT, DOT] in r then None
    else if !(r <= m) || |m| == |r| then None
    else Some(Join(m[|r|..]))
  }

  lemma {:induction false} SplitPlain(part: Text)
    requires SLASH !in part
    ensures Split(part) == [part]
  {
    if part == [] {
    } else {
      assert forall b :: b in part[1..] ==> b in part;
      SplitPlain(part[1..]);
      assert part == [part[0]] + part[1..];
    }
  }

  lemma {:induction false} SplitOfJoin(parts: seq<Text>)
    requires parts != [] && forall part :: part in parts ==> SLASH !in part
    ensures Split(Join(parts)) == parts
  {
    if |parts| == 1 {
      SplitPlain(parts[0]);
    } else {
      SplitOfJoin(parts[1..]);
      SplitPlain(parts[0]);
      SplitAtSlash(parts[0], Join(parts[1..]));
    }
  }

  // Two path packages share a location only if their manifests are the same file.
  lemma LocationIsExact(a: Text, b: Text, root: Text)
    requires RelativeManifest(a, root).Some? && RelativeManifest(a, root) == RelativeManifest(b, root)
    ensures Components(a) == Components(b)
  {
    hide Split, Keep, Join;
    var r, x, y := |Components(root)|, Components(a), Components(b);
    SplitOfJoin(x[r..]);
    SplitOfJoin(y[r..]);
    assert x == x[..r] + x[r..] && y == y[..r] + y[r..];
  }

  lemma {:induction false} JoinOfSplit(path: Text)
    ensures Join(Split(path)) == path
  {
    if path == [] {
    } else {
      var rest := Split(path[1..]);
      JoinOfSplit(path[1..]);
      assert path == [path[0]] + path[1..];
      if path[0] == SLASH {
        assert ([[]] + rest)[1..] == rest;
      } else {
        assert ([[path[0]] + rest[0]] + rest[1..])[1..] == rest[1..];
      }
    }
  }

  lemma SplitUnfold(path: Text)
    ensures path == [] ==> Split(path) == [[]]
    ensures path != [] ==>
      Split(path) ==
        if path[0] == SLASH then [[]] + Split(path[1..])
        else [[path[0]] + Split(path[1..])[0]] + Split(path[1..])[1..]
  {
  }

  lemma {:induction false} SplitAtSlash(a: Text, b: Text)
    ensures Split(a + [SLASH] + b) == Split(a) + Split(b)
    decreases |a|
  {
    hide Split;
    var path := a + [SLASH] + b;
    SplitUnfold(path);
    SplitUnfold(a);
    if a == [] {
      assert path[1..] == b;
    } else {
      var parts, others := Split(a[1..]), Split(b);
      SplitAtSlash(a[1..], b);
      assert path[1..] == a[1..] + [SLASH] + b && path[0] == a[0];
      if a[0] == SLASH {
        Glue([[]], parts, others);
      } else {
        HeadGrows(a[0], parts, others);
      }
    }
  }

  lemma HeadGrows(x: Byte, parts: seq<Text>, others: seq<Text>)
    requires parts != []
    ensures [[x] + (parts + others)[0]] + (parts + others)[1..] == [[x] + parts[0]] + parts[1..] + others
  {
    assert (parts + others)[1..] == parts[1..] + others;
  }

  lemma {:induction false} KeepAppend(a: seq<Text>, b: seq<Text>)
    ensures Keep(a + b) == Keep(a) + Keep(b)
    decreases |a|
  {
    if a == [] {
      assert a + b == b;
    } else {
      assert (a + b)[1..] == a[1..] + b;
      KeepAppend(a[1..], b);
    }
  }

  lemma {:induction false} KeepAll(parts: seq<Text>)
    requires forall part :: part in parts ==> Counts(part)
    ensures Keep(parts) == parts
  {
    if parts == [] {
    } else {
      KeepAll(parts[1..]);
      assert parts == [parts[0]] + parts[1..];
    }
  }

  // A manifest has the location iff both paths are absolute and without `..`, the location
  // is made of ordinary components, and walking it from the root arrives at the manifest.
  lemma LocationIff(manifest: Text, root: Text, location: Text)
    ensures RelativeManifest(manifest, root) == Some(location) <==>
      && Absolute(manifest) && Absolute(root)
      && [DOT, DOT] !in Components(manifest) && [DOT, DOT] !in Components(root)
      && Components(root + [SLASH] + location) == Components(manifest)
      && location != [] && Keep(Split(location)) == Split(location)
  {
    hide Split, Keep, Join;
    var m, r := Components(manifest), Components(root);
    Walked(root, location);
    if RelativeManifest(manifest, root) == Some(location) {
      Joined(m, |r|);
    }
    if Components(root + [SLASH] + location) == m && location != [] && Keep(Split(location)) == Split(location) {
      JoinOfSplit(location);
      assert m[|r|..] == Split(location);
    }
  }

  lemma Walked(root: Text, location: Text)
    ensures Components(root + [SLASH] + location) == Components(root) + Keep(Split(location))
  {
    hide Split, Keep;
    SplitAtSlash(root, location);
    KeepAppend(Split(root), Split(location));
  }

  // Joining the last components of a path and splitting again.
  lemma Joined(m: seq<Text>, k: nat)
    requires k < |m| && forall part :: part in m ==> SLASH !in part && Counts(part)
    ensures Split(Join(m[k..])) == m[k..] && Keep(m[k..]) == m[k..] && Join(m[k..]) != []
  {
    hide Split, Keep, Join;
    assert forall part :: part in m[k..] ==> part in m;
    SplitOfJoin(m[k..]);
    KeepAll(m[k..]);
    SplitUnfold([]);
    assert m[k..][0] in m;
  }

  // ---- packages ------------------------------------------------------------------

  // A package's metadata id, when its id, name and version are all readable.
  function Key(package: Json): Option<Text> {
    if TextOf(package, NAME).Some? && TextOf(package, VERSION).Some? then TextOf(package, ID) else None
  }

  function SourceOf(package: Json, root: Option<Text>): Option<SourceId> {
    var source, manifest := Get(package, SOURCE), TextOf(package, MANIFEST_PATH);
    if source.None? then None
    else if source.value.Null? then
      if manifest.None? || root.None? then None
      else
        var location := RelativeManifest(manifest.value, root.value);
        if location.Some? then Some(WorkspacePath(location.value)) else None
    else if source.value.Str? then Some(Exact(source.value.text))
    else None
  }

  function Identity(package: Json, root: Option<Text>): (id: Option<PackageId>)
    ensures id.Some? ==> Key(package).Some?
  {
    var source := SourceOf(package, root);
    if Key(package).None? || source.None? then None
    else Some(PackageId(source.value, TextOf(package, NAME).value, TextOf(package, VERSION).value))
  }

  // ---- resolve nodes -------------------------------------------------------------

  // Cargo spells a normal dependency as an explicit null.
  function KindOf(entry: Json): Option<DepKind> {
    var kind := Get(entry, KIND);
    if kind.None? then None
    else if kind.value.Null? then Some(Normal)
    else if kind.value == Str(BUILD) then Some(Build)
    else if kind.value == Str(DEV) then Some(Dev)
    else None
  }

  // How Cargo writes each kind.
  function KindJson(kind: DepKind): Json {
    match kind
    case Normal => Null
    case Build => Str(Name("build"))
    case Dev => Str(Name("dev"))
  }

  // Reading a kind inverts writing it, and reads nothing else.
  lemma KindIff(entry: Json, kind: DepKind)
    ensures KindOf(entry) == Some(kind) <==> Get(entry, Name("kind")) == Some(KindJson(kind))
  {
    assert |BUILD| == 5 && |DEV| == 3;
  }

  // An entry whose kind and target predicate can both be read.
  predicate EntryReadable(entry: Json) {
    && KindOf(entry).Some?
    && Get(entry, TARGET).Some? && (Get(entry, TARGET).value.Null? || Get(entry, TARGET).value.Str?)
  }

  function Entries(dep: Json): seq<Json> {
    var entries := ItemsOf(dep, DEP_KINDS);
    if entries.Some? then entries.value else []
  }

  predicate EdgeReadable(dep: Json) {
    Entries(dep) != [] && forall i :: 0 <= i < |Entries(dep)| ==> EntryReadable(Entries(dep)[i])
  }

  predicate HasKind(entries: seq<Json>, kind: DepKind) {
    exists i :: 0 <= i < |entries| && KindOf(entries[i]) == Some(kind)
  }

  function Deps(node: Json): seq<Json> {
    var deps := ItemsOf(node, DEPS);
    if deps.Some? then deps.value else []
  }

  function FeatureItems(node: Json): seq<Json> {
    var items := ItemsOf(node, FEATURES);
    if items.Some? then items.value else []
  }

  // Both lists are present and every feature is a string.
  predicate NodeReadable(node: Json) {
    && ItemsOf(node, FEATURES).Some? && ItemsOf(node, DEPS).Some?
    && forall i :: 0 <= i < |FeatureItems(node)| ==> FeatureItems(node)[i].Str?
  }

  predicate Activates(items: seq<Json>, feature: Text) {
    exists i :: 0 <= i < |items| && items[i] == Str(feature)
  }

  // ---- the document --------------------------------------------------------------

  function Root(document: Json): Option<Text> {
    TextOf(document, WORKSPACE_ROOT)
  }

  function Packages(document: Json): seq<Json> {
    var packages := ItemsOf(document, PACKAGES);
    if packages.Some? then packages.value else []
  }

  function Nodes(document: Json): seq<Json> {
    var resolve := Get(document, RESOLVE);
    if resolve.Some? && ItemsOf(resolve.value, NODES).Some? then ItemsOf(resolve.value, NODES).value else []
  }

  // No two readable entries carry the same id.
  predicate Unambiguous(ids: seq<Option<Text>>) {
    forall i, j :: 0 <= i < j < |ids| && ids[i].Some? ==> ids[i] != ids[j]
  }

  function Keys(packages: seq<Json>): (ids: seq<Option<Text>>)
    ensures |ids| == |packages| && forall i :: 0 <= i < |ids| ==> ids[i] == Key(packages[i])
  {
    seq(|packages|, i requires 0 <= i < |packages| => Key(packages[i]))
  }

  function NodeIds(nodes: seq<Json>): (ids: seq<Option<Text>>)
    ensures |ids| == |nodes| && forall i :: 0 <= i < |ids| ==> ids[i] == TextOf(nodes[i], ID)
  {
    seq(|nodes|, i requires 0 <= i < |nodes| => TextOf(nodes[i], ID))
  }

  // The document lists a package under metadata id m, and p is its identity.
  predicate Identifies(packages: seq<Json>, root: Option<Text>, m: Text, p: PackageId) {
    exists i :: 0 <= i < |packages| && Key(packages[i]) == Some(m) && Identity(packages[i], root) == Some(p)
  }

  // The dependency names a listed package.
  ghost predicate Leads(document: Json, dep: Json, dest: PackageId) {
    exists m :: TextOf(dep, PKG) == Some(m) && Identifies(Packages(document), Root(document), m, dest)
  }

  ghost predicate Resolved(document: Json, dep: Json) {
    exists dest :: Leads(document, dep, dest)
  }

  // Some dependency of the node leads to e.dest with e's kind.
  ghost predicate Declares(document: Json, node: Json, e: EdgeId) {
    exists i :: 0 <= i < |Deps(node)| && HasKind(Entries(Deps(node)[i]), e.kind)
      && Leads(document, Deps(node)[i], e.dest)
  }

  predicate NodeFor(document: Json, m: Text, node: Json) {
    node in Nodes(document) && TextOf(node, ID) == Some(m)
  }

  // Everything about this node that an observation needs is readable.
  ghost predicate Complete(document: Json, node: Json) {
    && NodeReadable(node)
    && forall i :: 0 <= i < |Deps(node)| ==> EdgeReadable(Deps(node)[i]) && Resolved(document, Deps(node)[i])
  }

  ghost predicate Observable(document: Json, m: Text) {
    && (exists p :: Identifies(Packages(document), Root(document), m, p))
    && (exists node :: NodeFor(document, m, node) && Complete(document, node))
  }

  // o holds the features and edges of node, no more and no fewer.
  ghost predicate Describes(document: Json, node: Json, o: ObservedPackage) {
    && (forall f :: f in o.features <==> Activates(FeatureItems(node), f))
    && (forall e :: e in o.edges <==> Declares(document, node, e))
  }

  ghost predicate Observes(document: Json, m: Text, o: ObservedPackage) {
    && Identifies(Packages(document), Root(document), m, o.id)
    && exists node :: NodeFor(document, m, node) && Complete(document, node) && Describes(document, node, o)
  }

  // A document from which a package graph can be read at all.
  predicate Graph(document: Json) {
    && Packages(document) != []
    && Unambiguous(Keys(Packages(document))) && Unambiguous(NodeIds(Nodes(document)))
  }

  // Nothing absent, malformed or dangling.
  ghost predicate Clean(document: Json) {
    && Graph(document)
    && (forall i :: 0 <= i < |Packages(document)| ==> Identity(Packages(document)[i], Root(document)).Some?)
    && (forall i :: 0 <= i < |Nodes(document)| ==>
        TextOf(Nodes(document)[i], ID).Some? && NodeReadable(Nodes(document)[i]))
    && (forall i :: 0 <= i < |Packages(document)| && Key(Packages(document)[i]).Some? ==>
        Observable(document, Key(Packages(document)[i]).value))
  }

  // The observations, in order of metadata id: one for each package that can be
  // observed, none for any other.
  ghost predicate Projected(document: Json, at: seq<Text>, observations: seq<ObservedPackage>) {
    && Increasing(TextBefore, at) && |at| == |observations|
    && (forall m :: m in at <==> Observable(document, m))
    && (forall i :: 0 <= i < |at| ==> Observes(document, at[i], observations[i]))
  }
}
