/**
 Depth-first cycle detection over the roadmap's dependency lists
 (`xtask/src/registry_checks.rs`, `detect_cycles` and `visit`).
 */
module Cycles {
  import opened Bytes
  import opened Order

  type Node = Utf8
  type Graph = map<Node, seq<Node>>

  // One `dependency_cycle` finding: the packet it names and the chain it prints.
  datatype Finding = Finding(id: Node, chain: seq<Node>)

  // A dependency that is not itself a key is reported elsewhere and not followed.
  predicate Edge(edges: Graph, u: Node, v: Node) {
    u in edges && v in edges && v in edges[u]
  }

  predicate Walk(edges: Graph, xs: seq<Node>) {
    forall i :: 0 < i < |xs| ==> Edge(edges, xs[i - 1], xs[i])
  }

  predicate Cycle(edges: Graph, xs: seq<Node>) {
    |xs| >= 2 && Walk(edges, xs) && xs[0] == xs[|xs| - 1]
  }

  // What a finding claims: a closed walk through pairwise different packets.
  predicate Genuine(edges: Graph, f: Finding) {
    && Cycle(edges, f.chain)
    && Distinct(f.chain[..|f.chain| - 1])
    && f.chain[|f.chain| - 1] == f.id
  }

  // The finding's chain ends with the step from u to v.
  predicate Closes(f: Finding, u: Node, v: Node) {
    |f.chain| >= 2 && f.chain[|f.chain| - 2] == u && f.chain[|f.chain| - 1] == v
  }

  ghost predicate Reported(findings: seq<Finding>, u: Node, v: Node) {
    exists k :: 0 <= k < |findings| && Closes(findings[k], u, v)
  }

  // Every followed step out of u leads into `done` or was reported.
  ghost predicate Settled(edges: Graph, findings: seq<Finding>, u: Node, done: seq<Node>) {
    forall v :: Edge(edges, u, v) ==> v in done || Reported(findings, u, v)
  }

  // `order` lists packets as they were finished, each after all it leads to.
  ghost predicate FinishingOrder(edges: Graph, findings: seq<Finding>, order: seq<Node>) {
    forall i :: 0 <= i < |order| ==> Settled(edges, findings, order[i], order[..i])
  }

  // A closed walk none of whose steps was reported.
  ghost predicate Missed(edges: Graph, findings: seq<Finding>, xs: seq<Node>) {
    Cycle(edges, xs) && forall i :: 0 < i < |xs| ==> !Reported(findings, xs[i - 1], xs[i])
  }

  // Along unreported steps the finishing position falls.
  lemma {:induction false} UnreportedStepsFall(
    edges: Graph, findings: seq<Finding>, order: seq<Node>, xs: seq<Node>, at: nat, n: nat)
    requires FinishingOrder(edges, findings, order) && Walk(edges, xs)
    requires forall i :: 0 < i < |xs| ==> !Reported(findings, xs[i - 1], xs[i])
    requires n < |xs| && at < |order| && order[at] == xs[0]
    ensures xs[n] in order[..at + 1 - Min(n, 1)]
    decreases n
  {
    if n > 0 {
      UnreportedStepsFall(edges, findings, order, xs, at, n - 1);
      var k :| 0 <= k <= at && order[k] == xs[n - 1];
      assert Settled(edges, findings, order[k], order[..k]);
      assert Edge(edges, xs[n - 1], xs[n]);
      var j :| 0 <= j < k && order[j] == xs[n];
      assert order[..at][j] == xs[n];
    } else {
      assert order[..at + 1][at] == xs[0];
    }
  }

  // Every cycle runs through the closing step of some finding.
  lemma {:induction false} NoCycleIsMissed(
    edges: Graph, findings: seq<Finding>, order: seq<Node>, xs: seq<Node>, at: nat)
    requires FinishingOrder(edges, findings, order)
    requires at < |order| && |xs| > 0 && order[at] == xs[0]
    ensures !Missed(edges, findings, xs)
    decreases at
  {
    if Missed(edges, findings, xs) {
      UnreportedStepsFall(edges, findings, order, xs, at, |xs| - 1);
      var earlier :| 0 <= earlier < at && order[earlier] == xs[0];
      NoCycleIsMissed(edges, findings, order, xs, earlier);
    }
  }

  lemma MoreFindings(edges: Graph, some: seq<Finding>, all: seq<Finding>, order: seq<Node>)
    requires some <= all && FinishingOrder(edges, some, order)
    ensures FinishingOrder(edges, all, order)
  {
    forall i | 0 <= i < |order| ensures Settled(edges, all, order[i], order[..i]) {
      assert Settled(edges, some, order[i], order[..i]);
      forall v | Edge(edges, order[i], v) && Reported(some, order[i], v) ensures Reported(all, order[i], v) {
        var k :| 0 <= k < |some| && Closes(some[k], order[i], v);
        assert all[k] == some[k];
      }
    }
  }

  lemma ReportedStays(some: seq<Finding>, all: seq<Finding>, u: Node, v: Node)
    requires some <= all && Reported(some, u, v)
    ensures Reported(all, u, v)
  {
    var k :| 0 <= k < |some| && Closes(some[k], u, v);
    assert all[k] == some[k];
  }

  method Position(stack: seq<Node>, node: Node) returns (at: Option<nat>)
    ensures at.None? <==> node !in stack
    ensures at.Some? ==> at.value < |stack| && stack[at.value] == node && node !in stack[..at.value]
  {
    for i := 0 to |stack|
      invariant node !in stack[..i]
    {
      if stack[i] == node {
        return Some(i);
      }
    }
    return None;
  }

  class Search {
    const edges: Graph
    var visiting: set<Node>
    var visited: set<Node>
    var stack: seq<Node>
    var findings: seq<Finding>
    ghost var order: seq<Node>

    constructor (edges: Graph)
      ensures Valid() && this.edges == edges && stack == [] && visited == {} && findings == []
    {
      this.edges := edges;
      visiting, visited, stack, findings := {}, {}, [], [];
      order := [];
    }

    // The stack is a simple path through exactly the packets being visited.
    ghost predicate OnPath()
      reads this
    {
      && Walk(edges, stack) && Distinct(stack)
      && Members(stack) == visiting && visiting <= edges.Keys && visiting !! visited
    }

    ghost predicate Valid()
      reads this
    {
      && OnPath()
      && Members(order) == visited
      && FinishingOrder(edges, findings, order)
      && forall k :: 0 <= k < |findings| ==> Genuine(edges, findings[k])
    }

    // So it is never longer than the number of keys.
    lemma StackFits()
      requires OnPath()
      ensures |stack| <= |edges.Keys|
    {
      DistinctCounts(stack);
      SubsetCounts(visiting, edges.Keys);
    }

    // The step that led to `node` (none at a root) is accounted for.
    ghost predicate Accounted(node: Node)
      reads this
    {
      node in visited || (stack != [] && Reported(findings, stack[|stack| - 1], node))
    }

    method Visit(node: Node)
      requires Valid() && node in edges
      requires stack != [] ==> Edge(edges, stack[|stack| - 1], node)
      modifies this
      ensures Valid() && stack == old(stack) && visiting == old(visiting)
      ensures old(findings) <= findings && old(visited) <= visited && old(order) <= order
      ensures Accounted(node)
      decreases edges.Keys - visiting
    {
      hide FinishingOrder, Genuine, Reported, Walk, Distinct;
      if node in visited {
        return;
      }
      if node in visiting {
        Report(node);
        return;
      }
      Enter(node);
      StackFits();
      ghost var path, busy := stack, visiting;
      var dependencies := edges[node];
      for i := 0 to |dependencies|
        invariant Valid() && stack == path && visiting == busy
        invariant old(findings) <= findings && old(visited) <= visited && old(order) <= order
        invariant forall k :: 0 <= k < i && dependencies[k] in edges ==> Accounted(dependencies[k])
      {
        var dependency := dependencies[i];
        if dependency in edges {
          ghost var before, seen := findings, visited;
          Visit(dependency);
          forall k | 0 <= k < i && dependencies[k] in edges ensures Accounted(dependencies[k]) {
            if dependencies[k] !in seen {
              ReportedStays(before, findings, node, dependencies[k]);
            }
          }
        }
      }
      Leave(node);
    }

    // Opening a packet on top of the path.
    method Enter(node: Node)
      requires Valid() && node in edges && node !in visiting && node !in visited
      requires stack != [] ==> Edge(edges, stack[|stack| - 1], node)
      modifies this`stack, this`visiting
      ensures Valid() && stack == old(stack) + [node] && visiting == old(visiting) + {node}
    {
      hide FinishingOrder, Genuine, Reported, Walk, Distinct;
      Extended(stack, node);
      visiting := visiting + {node};
      stack := stack + [node];
    }

    // The already open packet: the chain from it to the top of the stack and back.
    method Report(node: Node)
      requires Valid() && node in visiting && Edge(edges, stack[|stack| - 1], node)
      modifies this`findings
      ensures Valid() && Reported(findings, stack[|stack| - 1], node)
      ensures old(findings) <= findings && |findings| == |old(findings)| + 1
    {
      var at := Position(stack, node);
      assert at.Some?; // the source's fallback to 0 is never taken
      var start := if at.Some? then at.value else 0;
      var cycle := stack[start..] + [node];
      var found := Finding(node, cycle);
      assert cycle[..|cycle| - 1] == stack[start..];
      assert Genuine(edges, found);
      findings := findings + [found];
      assert Closes(findings[|findings| - 1], stack[|stack| - 1], node);
      MoreFindings(edges, old(findings), findings, order);
    }

    // Closing a packet all of whose dependencies are accounted for.
    method Leave(node: Node)
      requires Valid() && stack != [] && stack[|stack| - 1] == node
      requires forall v :: v in edges[node] && v in edges ==> Accounted(v)
      modifies this
      ensures Valid() && findings == old(findings)
      ensures stack == old(stack[..|stack| - 1]) && visiting == old(visiting) - {node}
      ensures visited == old(visited) + {node} && order == old(order) + [node]
    {
      hide Genuine, Reported;
      stack := stack[..|stack| - 1];
      visiting := visiting - {node};
      visited := visited + {node};
      assert Settled(edges, findings, node, order);
      ghost var was := order;
      order := order + [node];
      assert FinishingOrder(edges, findings, order) by {
        forall i | 0 <= i < |order| ensures Settled(edges, findings, order[i], order[..i]) {
          assert order[..i] == was[..i];
        }
      }
      assert old(stack) == stack + [node];
    }

    lemma Extended(path: seq<Node>, node: Node)
      requires Walk(edges, path) && Distinct(path) && node !in path && node in edges
      requires path != [] ==> Edge(edges, path[|path| - 1], node)
      ensures Walk(edges, path + [node]) && Distinct(path + [node])
      ensures Members(path + [node]) == Members(path) + {node}
    {
    }
  }

  // Once every packet is finished, the findings cover all cycles.
  lemma AllFinished(edges: Graph, findings: seq<Finding>, order: seq<Node>)
    requires FinishingOrder(edges, findings, order) && edges.Keys <= Members(order)
    ensures forall xs :: Cycle(edges, xs) ==> !Missed(edges, findings, xs)
    ensures findings == [] ==> !exists xs :: Cycle(edges, xs)
  {
    forall xs | Cycle(edges, xs) ensures !Missed(edges, findings, xs) {
      assert Edge(edges, xs[0], xs[1]);
      assert xs[0] in Members(order);
      var at :| 0 <= at < |order| && order[at] == xs[0];
      NoCycleIsMissed(edges, findings, order, xs, at);
    }
  }

  // The findings pushed: none iff no packet depends on itself, directly or not.
  // Each one shows a real simple cycle, and every cycle runs through the closing
  // step of some reported chain.
  method DetectCycles(edges: Graph) returns (found: seq<Finding>)
    ensures forall k :: 0 <= k < |found| ==> Genuine(edges, found[k])
    ensures forall xs :: Cycle(edges, xs) ==> !Missed(edges, found, xs)
    ensures found != [] <==> exists xs :: Cycle(edges, xs)
  {
    hide FinishingOrder, Reported, Walk, Distinct, StrictTotal, Ascending, Increasing;
    NameBeforeIsTotal();
    var search := new Search(edges);
    var keys := Ascending(NameBefore, edges.Keys);
    for i := 0 to |keys|
      invariant search.Valid() && search.edges == edges && search.stack == []
      invariant forall k :: 0 <= k < i ==> keys[k] in search.visited
    {
      search.Visit(keys[i]);
    }
    found := search.findings;
    AllFinished(edges, found, search.order);
    if found != [] {
      assert Genuine(edges, found[0]);
    }
  }
}
