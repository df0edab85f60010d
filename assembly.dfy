/**
 * Assembly sequencing (`praxis/api/assembly.py`): Kahn's algorithm over the parts of an
 * assembly and the ids each part `requires`, with a FIFO queue and cycle detection, and the
 * id-only part of `plan_sequence` that feeds it and reports its result.
 *
 * A requirement that names no listed part is ignored. Ids are assumed distinct.
 */
module Assembly {
  import opened Wrappers

  datatype AssemblyNode = AssemblyNode(
    id: string,
    weight: real,
    dimensions: seq<real>,
    requirements: seq<string>,
    timeToInstall: real,
    isInstalled: bool)

  /** The `ValueError("Cyclic dependency detected in assembly plan.")`. */
  datatype AssemblyError = CyclicDependency

  // ---------------------------------------------------------------------------------------
  // Specification

  /** `[n.id for n in nodes]`. */
  function Ids(nodes: seq<AssemblyNode>): (ids: seq<string>)
    ensures |ids| == |nodes| && forall i :: 0 <= i < |nodes| ==> ids[i] == nodes[i].id
  {
    if nodes == [] then [] else Ids(nodes[..|nodes| - 1]) + [nodes[|nodes| - 1].id]
  }

  /** The ids of the listed parts: the keys of `graph` and `in_degree`. */
  function IdSet(nodes: seq<AssemblyNode>): (ids: set<string>)
    ensures forall k :: 0 <= k < |nodes| ==> nodes[k].id in ids
  {
    if nodes == [] then {}
    else
      var init := nodes[..|nodes| - 1];
      assert forall k :: 0 <= k < |init| ==> nodes[k] == init[k];
      IdSet(init) + {nodes[|nodes| - 1].id}
  }

  /** Every listed id is the id of some part. */
  lemma {:induction false} IdSetWitness(nodes: seq<AssemblyNode>, x: string) returns (k: nat)
    requires x in IdSet(nodes)
    ensures k < |nodes| && nodes[k].id == x
  {
    var init := nodes[..|nodes| - 1];
    if x in IdSet(init) {
      k := IdSetWitness(init, x);
      assert nodes[k] == init[k];
    } else {
      k := |nodes| - 1;
    }
  }

  /** No two parts share an id. */
  predicate DistinctIds(nodes: seq<AssemblyNode>) {
    forall i, j :: 0 <= i < j < |nodes| ==> nodes[i].id != nodes[j].id
  }

  ghost predicate Distinct<T>(s: seq<T>) {
    forall i, j :: 0 <= i < j < |s| ==> s[i] != s[j]
  }

  /** Every requirement of a part that names a listed part is placed earlier. */
  ghost predicate RespectsRequires(order: seq<AssemblyNode>, listed: set<string>) {
    forall i, r :: 0 <= i < |order| && r in order[i].requirements && r in listed ==> r in Ids(order)[..i]
  }

  /** A valid assembly order: every node exactly once, each after the listed parts it requires. */
  ghost predicate IsAssemblyOrder(order: seq<AssemblyNode>, nodes: seq<AssemblyNode>) {
    multiset(order) == multiset(nodes) && RespectsRequires(order, IdSet(nodes))
  }

  /**
   * A set of listed parts none of which can go first among them: each requires another
   * (or itself). Kahn's algorithm leaves exactly such a set behind when it stops early.
   */
  ghost predicate Blocked(nodes: seq<AssemblyNode>, s: set<string>) {
    && s != {}
    && s <= IdSet(nodes)
    && forall k :: 0 <= k < |nodes| && nodes[k].id in s ==> exists r :: r in nodes[k].requirements && r in s
  }

  /** The id after position `i` of a cycle, wrapping round to the first. */
  function Next(c: seq<string>, i: nat): string
    requires i < |c|
  {
    c[(i + 1) % |c|]
  }

  /** A dependency cycle: each id's part requires the next id, and the last requires the first. */
  ghost predicate IsCycle(nodes: seq<AssemblyNode>, c: seq<string>) {
    && |c| > 0
    && (forall i :: 0 <= i < |c| ==> c[i] in IdSet(nodes))
    && forall i, k :: 0 <= i < |c| && 0 <= k < |nodes| && nodes[k].id == c[i] ==>
         Next(c, i) in nodes[k].requirements
  }

  /** No part requires a listed part. */
  predicate NoListedRequires(nodes: seq<AssemblyNode>) {
    forall k, r :: 0 <= k < |nodes| && r in nodes[k].requirements ==> r !in IdSet(nodes)
  }

  /** How many entries of `reqs` name a listed part not yet placed: a part's in-degree. */
  function Pending(reqs: seq<string>, listed: set<string>, placed: set<string>): nat {
    if reqs == [] then 0
    else
      var r := reqs[|reqs| - 1];
      Pending(reqs[..|reqs| - 1], listed, placed) + if r in listed && r !in placed then 1 else 0
  }

  /** `n` copies of `id`. */
  function Copies(id: string, n: nat): seq<string> {
    if n == 0 then [] else Copies(id, n - 1) + [id]
  }

  /** `graph[x]`: the id of every part requiring `x`, once per time it names `x`, in input order. */
  function Dependents(nodes: seq<AssemblyNode>, x: string): seq<string> {
    if nodes == [] then []
    else
      var n := nodes[|nodes| - 1];
      Dependents(nodes[..|nodes| - 1], x) + Copies(n.id, multiset(n.requirements)[x])
  }

  /** The inner loop of the graph build: append `id` to `graph[r]` for each listed `r` in `reqs`. */
  function AddEdges(graph: map<string, seq<string>>, id: string, reqs: seq<string>): (g: map<string, seq<string>>)
    ensures g.Keys == graph.Keys
  {
    if reqs == [] then graph
    else
      var g := AddEdges(graph, id, reqs[..|reqs| - 1]);
      var r := reqs[|reqs| - 1];
      if r in g then g[r := g[r] + [id]] else g
  }

  // ---------------------------------------------------------------------------------------
  // Lemmas about the specification

  /** `AddEdges` appends to `graph[x]` one `id` per time `reqs` names `x`. */
  lemma {:induction false} AddEdgesCopies(graph: map<string, seq<string>>, id: string, reqs: seq<string>, x: string)
    requires x in graph
    ensures AddEdges(graph, id, reqs)[x] == graph[x] + Copies(id, multiset(reqs)[x])
  {
    if reqs != [] {
      var init := reqs[..|reqs| - 1];
      var r := reqs[|reqs| - 1];
      AddEdgesCopies(graph, id, init, x);
      var g := AddEdges(graph, id, init);
      assert AddEdges(graph, id, reqs) == if r in g then g[r := g[r] + [id]] else g;
      assert reqs == init + [r];
      assert multiset(reqs) == multiset(init) + multiset{r};
      var m := multiset(init)[x];
      if r == x {
        assert multiset(reqs)[x] == m + 1;
        assert Copies(id, m + 1) == Copies(id, m) + [id];
        assert AddEdges(graph, id, reqs)[x] == g[x] + [id];
      } else {
        assert multiset(reqs)[x] == m;
        assert AddEdges(graph, id, reqs)[x] == g[x];
      }
    }
  }

  /** Placing `x` removes exactly the entries naming `x` from a part's in-degree. */
  lemma {:induction false} PendingPlace(reqs: seq<string>, listed: set<string>, placed: set<string>, x: string)
    requires x in listed && x !in placed
    ensures Pending(reqs, listed, placed + {x}) + multiset(reqs)[x] == Pending(reqs, listed, placed)
  {
    if reqs != [] {
      var init := reqs[..|reqs| - 1];
      PendingPlace(init, listed, placed, x);
      assert reqs == init + [reqs[|reqs| - 1]];
    }
  }

  /** A part's in-degree is zero exactly when every listed part it requires is placed. */
  lemma {:induction false} PendingZero(reqs: seq<string>, listed: set<string>, placed: set<string>)
    ensures Pending(reqs, listed, placed) == 0 <==> forall r :: r in reqs && r in listed ==> r in placed
  {
    if reqs != [] {
      var init := reqs[..|reqs| - 1];
      PendingZero(init, listed, placed);
      assert reqs == init + [reqs[|reqs| - 1]];
    }
  }

  /** Every id in `graph[x]` is a listed part that requires `x`. */
  lemma {:induction false} DependentsRequire(nodes: seq<AssemblyNode>, x: string, y: string)
    requires y in Dependents(nodes, x)
    ensures exists k :: 0 <= k < |nodes| && nodes[k].id == y && x in nodes[k].requirements
  {
    var init := nodes[..|nodes| - 1];
    var n := nodes[|nodes| - 1];
    if y in Dependents(init, x) {
      DependentsRequire(init, x, y);
      var k :| 0 <= k < |init| && init[k].id == y && x in init[k].requirements;
      assert nodes[k] == init[k];
    } else {
      CopiesCount(n.id, multiset(n.requirements)[x], y);
      assert y == n.id && multiset(n.requirements)[x] > 0;
    }
  }

  /** `graph[x]` lists part k's id exactly as often as part k names `x`. */
  lemma {:induction false} DependentsCount(nodes: seq<AssemblyNode>, x: string, k: nat)
    requires DistinctIds(nodes) && k < |nodes|
    ensures multiset(Dependents(nodes, x))[nodes[k].id] == multiset(nodes[k].requirements)[x]
  {
    var init := nodes[..|nodes| - 1];
    var n := nodes[|nodes| - 1];
    var tail := Copies(n.id, multiset(n.requirements)[x]);
    assert multiset(Dependents(nodes, x)) == multiset(Dependents(init, x)) + multiset(tail);
    CopiesCount(n.id, multiset(n.requirements)[x], nodes[k].id);
    if k < |nodes| - 1 {
      DependentsCount(init, x, k);
      assert nodes[k].id != n.id;
    } else {
      DependentsAbsent(init, x, n.id);
    }
  }

  lemma {:induction false} DependentsAbsent(nodes: seq<AssemblyNode>, x: string, y: string)
    requires forall k :: 0 <= k < |nodes| ==> nodes[k].id != y
    ensures y !in Dependents(nodes, x)
  {
    if y in Dependents(nodes, x) {
      DependentsRequire(nodes, x, y);
    }
  }

  lemma {:induction false} CopiesCount(a: string, n: nat, b: string)
    ensures multiset(Copies(a, n))[b] == if a == b then n else 0
  {
    if n > 0 {
      CopiesCount(a, n - 1, b);
    }
  }

  lemma {:induction false} DistinctCard<T>(s: seq<T>)
    requires Distinct(s)
    ensures |set x | x in s| == |s|
  {
    if s != [] {
      var init := s[..|s| - 1];
      DistinctCard(init);
      assert (set x | x in s) == (set x | x in init) + {s[|s| - 1]};
    }
  }

  lemma {:induction false} SubsetCard<T>(a: set<T>, b: set<T>)
    requires a <= b
    ensures |a| <= |b|
    ensures |a| == |b| ==> a == b
  {
    if a != {} {
      var x :| x in a;
      SubsetCard(a - {x}, b - {x});
    } else if b != {} {
      var y :| y in b;
      assert |b| >= 1;
    }
  }

  /** Two duplicate-free sequences with the same elements are permutations of each other. */
  lemma DistinctSameElements<T>(a: seq<T>, b: seq<T>)
    requires Distinct(a) && Distinct(b)
    requires forall x :: x in a <==> x in b
    ensures multiset(a) == multiset(b)
  {
    forall x ensures multiset(a)[x] == multiset(b)[x] {
      DistinctCount(a, x);
      DistinctCount(b, x);
    }
  }

  lemma {:induction false} DistinctCount<T>(s: seq<T>, x: T)
    requires Distinct(s)
    ensures multiset(s)[x] == if x in s then 1 else 0
  {
    if s != [] {
      var init := s[..|s| - 1];
      DistinctCount(init, x);
      assert s == init + [s[|s| - 1]];
    }
  }

  /** The first index of `s` whose id is in `ids`. */
  lemma {:induction false} FirstIn(s: seq<AssemblyNode>, ids: set<string>, j: nat) returns (i: nat)
    requires j < |s| && s[j].id in ids
    ensures i <= j && s[i].id in ids
    ensures forall m :: 0 <= m < i ==> s[m].id !in ids
  {
    if j == 0 {
      i := 0;
    } else if exists m :: 0 <= m < j && s[m].id in ids {
      var m :| 0 <= m < j && s[m].id in ids;
      i := FirstIn(s, ids, m);
    } else {
      i := j;
    }
  }

  /** Where an element of one sequence sits in a permutation of it. */
  lemma IndexInPermutation<T>(a: seq<T>, b: seq<T>, x: T) returns (j: nat)
    requires multiset(a) == multiset(b) && x in b
    ensures j < |a| && a[j] == x
  {
    assert x in multiset(b);
    assert x in a;
    j :| 0 <= j < |a| && a[j] == x;
  }

  /** A blocked set rules out every valid assembly order. */
  lemma BlockedMeansNoOrder(nodes: seq<AssemblyNode>, s: set<string>, order: seq<AssemblyNode>)
    requires Blocked(nodes, s)
    requires multiset(order) == multiset(nodes)
    ensures !RespectsRequires(order, IdSet(nodes))
  {
    var x :| x in s;
    var k := IdSetWitness(nodes, x);
    var j := IndexInPermutation(order, nodes, nodes[k]);
    var i := FirstIn(order, s, j);
    var k' := IndexInPermutation(nodes, order, order[i]);
    assert nodes[k'].id in s;
    var r :| r in nodes[k'].requirements && r in s;
    assert r in order[i].requirements && r in IdSet(nodes);
  }

  /** The parts of a dependency cycle, a part requiring itself included, form a blocked set. */
  lemma CycleIsBlocked(nodes: seq<AssemblyNode>, c: seq<string>)
    requires IsCycle(nodes, c)
    ensures Blocked(nodes, set x | x in c)
  {
    var s := set x | x in c;
    assert c[0] in s;
    forall k | 0 <= k < |nodes| && nodes[k].id in s
      ensures exists r :: r in nodes[k].requirements && r in s
    {
      var i :| 0 <= i < |c| && c[i] == nodes[k].id;
      assert Next(c, i) in nodes[k].requirements;
      assert Next(c, i) in s;
    }
  }

  // ---------------------------------------------------------------------------------------
  // The algorithm

  /** The adjacency lists and in-degrees of `_topological_sort`, built in one pass over the parts. */
  method BuildGraph(nodes: seq<AssemblyNode>) returns (graph: map<string, seq<string>>, inDegree: map<string, int>)
    requires DistinctIds(nodes)
    ensures graph.Keys == IdSet(nodes) && inDegree.Keys == IdSet(nodes)
    ensures forall x :: x in graph ==> graph[x] == Dependents(nodes, x)
    ensures forall k :: 0 <= k < |nodes| ==> inDegree[nodes[k].id] == Pending(nodes[k].requirements, IdSet(nodes), {})
  {
    var listed := IdSet(nodes);
    graph, inDegree := InitialGraph(nodes);
    assert nodes[..0] == [];
    var i := 0;
    while i < |nodes|
      invariant 0 <= i <= |nodes|
      invariant graph.Keys == listed && inDegree.Keys == listed
      invariant GraphUpTo(nodes, i, graph)
      invariant DegreesUpTo(nodes, listed, i, inDegree)
    {
      var graph', inDegree' := Link(nodes[i], graph, inDegree);
      LinkStep(nodes, listed, i, graph, graph', inDegree, inDegree');
      graph, inDegree, i := graph', inDegree', i + 1;
    }
    assert nodes[..i] == nodes;
  }

  /** `graph = {n.id: [] ...}` and `in_degree = {n.id: 0 ...}`: one entry per listed id, none linked yet. */
  method InitialGraph(nodes: seq<AssemblyNode>) returns (graph: map<string, seq<string>>, inDegree: map<string, int>)
    ensures graph.Keys == IdSet(nodes) && inDegree.Keys == IdSet(nodes)
    ensures forall x :: x in graph ==> graph[x] == []
    ensures forall x :: x in inDegree ==> inDegree[x] == 0
  {
    graph := map x | x in IdSet(nodes) :: [];
    inDegree := map x | x in IdSet(nodes) :: 0;
  }

  /** One pass of the graph build keeps both loop invariants. */
  lemma LinkStep(nodes: seq<AssemblyNode>, listed: set<string>, i: nat,
                 graph0: map<string, seq<string>>, graph: map<string, seq<string>>,
                 inDegree0: map<string, int>, inDegree: map<string, int>)
    requires DistinctIds(nodes) && i < |nodes| && graph0.Keys == listed
    requires GraphUpTo(nodes, i, graph0) && DegreesUpTo(nodes, listed, i, inDegree0)
    requires graph.Keys == graph0.Keys
    requires forall x :: x in graph0 ==>
               graph[x] == graph0[x] + Copies(nodes[i].id, multiset(nodes[i].requirements)[x])
    requires forall y :: y in inDegree0 ==> y in inDegree
    requires inDegree[nodes[i].id] == inDegree0[nodes[i].id] + Pending(nodes[i].requirements, graph0.Keys, {})
    requires forall y :: y in inDegree0 && y != nodes[i].id ==> inDegree[y] == inDegree0[y]
    ensures GraphUpTo(nodes, i + 1, graph) && DegreesUpTo(nodes, listed, i + 1, inDegree)
  {
    GraphStep(nodes, i, graph0, graph);
    DegreesStep(nodes, listed, i, inDegree0, inDegree);
  }

  /** After `i` passes, `graph` holds the dependents among the first `i` parts. */
  ghost predicate GraphUpTo(nodes: seq<AssemblyNode>, i: nat, graph: map<string, seq<string>>)
    requires i <= |nodes|
  {
    forall x :: x in graph ==> graph[x] == Dependents(nodes[..i], x)
  }

  /** After `i` passes, the first `i` parts have their in-degrees and the rest are still zero. */
  ghost predicate DegreesUpTo(nodes: seq<AssemblyNode>, listed: set<string>, i: nat, inDegree: map<string, int>) {
    forall k :: 0 <= k < |nodes| ==>
      nodes[k].id in inDegree &&
      inDegree[nodes[k].id] == if k < i then Pending(nodes[k].requirements, listed, {}) else 0
  }

  lemma GraphStep(nodes: seq<AssemblyNode>, i: nat, before: map<string, seq<string>>, after: map<string, seq<string>>)
    requires i < |nodes| && GraphUpTo(nodes, i, before) && after.Keys == before.Keys
    requires forall x :: x in before ==>
               after[x] == before[x] + Copies(nodes[i].id, multiset(nodes[i].requirements)[x])
    ensures GraphUpTo(nodes, i + 1, after)
  {
    forall x | x in after ensures after[x] == Dependents(nodes[..i + 1], x) {
      DependentsLast(nodes, i, x);
    }
  }

  /** Counting part `i`'s listed requirements leaves every other part's in-degree alone. */
  lemma DegreesStep(nodes: seq<AssemblyNode>, listed: set<string>, i: nat,
                    before: map<string, int>, after: map<string, int>)
    requires DistinctIds(nodes) && i < |nodes| && DegreesUpTo(nodes, listed, i, before)
    requires forall y :: y in before ==> y in after
    requires after[nodes[i].id] == before[nodes[i].id] + Pending(nodes[i].requirements, listed, {})
    requires forall y :: y in before && y != nodes[i].id ==> after[y] == before[y]
    ensures DegreesUpTo(nodes, listed, i + 1, after)
  {
    forall k | 0 <= k < |nodes|
      ensures after[nodes[k].id] == if k < i + 1 then Pending(nodes[k].requirements, listed, {}) else 0
    {
      if k != i {
        assert nodes[k].id != nodes[i].id;
      }
    }
  }

  /** The dependents found among the first `i + 1` parts extend those among the first `i`. */
  lemma DependentsLast(nodes: seq<AssemblyNode>, i: nat, x: string)
    requires i < |nodes|
    ensures Dependents(nodes[..i + 1], x) ==
              Dependents(nodes[..i], x) + Copies(nodes[i].id, multiset(nodes[i].requirements)[x])
  {
    assert nodes[..i + 1][..i] == nodes[..i];
  }

  /** One pass of the outer loop of the graph build: record the edges of part `n`. */
  method Link(n: AssemblyNode, graph: map<string, seq<string>>, inDegree: map<string, int>)
    returns (graph': map<string, seq<string>>, inDegree': map<string, int>)
    requires n.id in inDegree
    ensures graph'.Keys == graph.Keys
    ensures forall x :: x in graph ==> graph'[x] == graph[x] + Copies(n.id, multiset(n.requirements)[x])
    ensures inDegree' == inDegree[n.id := inDegree[n.id] + Pending(n.requirements, graph.Keys, {})]
  {
    var reqs := n.requirements;
    graph', inDegree' := graph, inDegree;
    var j := 0;
    while j < |reqs|
      invariant 0 <= j <= |reqs|
      invariant graph' == AddEdges(graph, n.id, reqs[..j])
      invariant inDegree' == inDegree[n.id := inDegree[n.id] + Pending(reqs[..j], graph.Keys, {})]
    {
      var req := reqs[j];
      assert reqs[..j + 1][..j] == reqs[..j];
      if req in graph' {
        graph' := graph'[req := graph'[req] + [n.id]];
        inDegree' := inDegree'[n.id := inDegree'[n.id] + 1];
      }
      j := j + 1;
    }
    assert reqs[..j] == reqs;
    forall x | x in graph ensures graph'[x] == graph[x] + Copies(n.id, multiset(reqs)[x]) {
      AddEdgesCopies(graph, n.id, reqs, x);
    }
  }

  /** `[n.id for n in nodes if in_degree[n.id] == 0]`: the roots, in input order. */
  method Roots(nodes: seq<AssemblyNode>, inDegree: map<string, int>) returns (queue: seq<string>)
    requires DistinctIds(nodes)
    requires forall k :: 0 <= k < |nodes| ==> nodes[k].id in inDegree
    ensures Distinct(queue)
    ensures forall x :: x in queue ==> x in IdSet(nodes)
    ensures forall k :: 0 <= k < |nodes| ==> (nodes[k].id in queue <==> inDegree[nodes[k].id] == 0)
    ensures (forall k :: 0 <= k < |nodes| ==> inDegree[nodes[k].id] == 0) ==> queue == Ids(nodes)
    // the roots keep their input order
    ensures InInputOrder(queue, nodes)
    ensures queue == RootIds(nodes, inDegree)
  {
    queue := [];
    var i := 0;
    while i < |nodes|
      invariant 0 <= i <= |nodes|
      invariant queue == RootIds(nodes[..i], inDegree)
    {
      assert nodes[..i + 1][..i] == nodes[..i];
      if inDegree[nodes[i].id] == 0 {
        queue := queue + [nodes[i].id];
      }
      i := i + 1;
    }
    assert nodes[..i] == nodes;
    RootIdsDistinct(nodes, inDegree);
    forall x | x in queue ensures x in IdSet(nodes) {
      RootIdsListed(nodes, inDegree, x);
    }
    forall k | 0 <= k < |nodes| ensures nodes[k].id in queue <==> inDegree[nodes[k].id] == 0 {
      RootIdsMember(nodes, inDegree, k);
    }
    RootIdsAll(nodes, inDegree);
    RootIdsInOrder(nodes, inDegree);
  }

  /** The ids of the parts with in-degree zero, in input order. */
  function RootIds(nodes: seq<AssemblyNode>, inDegree: map<string, int>): seq<string>
    requires forall k :: 0 <= k < |nodes| ==> nodes[k].id in inDegree
  {
    if nodes == [] then []
    else
      var n := nodes[|nodes| - 1];
      RootIds(nodes[..|nodes| - 1], inDegree) + if inDegree[n.id] == 0 then [n.id] else []
  }

  lemma {:induction false} RootIdsListed(nodes: seq<AssemblyNode>, inDegree: map<string, int>, x: string)
    requires forall k :: 0 <= k < |nodes| ==> nodes[k].id in inDegree
    ensures x in RootIds(nodes, inDegree) ==> x in IdSet(nodes) && x in inDegree && inDegree[x] == 0
  {
    if nodes != [] {
      var init := nodes[..|nodes| - 1];
      RootIdsListed(init, inDegree, x);
      if x in RootIds(init, inDegree) {
        var k := IdSetWitness(init, x);
        assert nodes[k] == init[k];
      }
    }
  }

  /** An id no part carries is not listed. */
  lemma {:induction false} Unlisted(nodes: seq<AssemblyNode>, x: string)
    requires forall k :: 0 <= k < |nodes| ==> nodes[k].id != x
    ensures x !in IdSet(nodes)
  {
    if nodes != [] {
      var init := nodes[..|nodes| - 1];
      assert forall k :: 0 <= k < |init| ==> init[k] == nodes[k];
      Unlisted(init, x);
    }
  }

  /** A part is a root exactly when its in-degree is zero. */
  lemma {:induction false} RootIdsMember(nodes: seq<AssemblyNode>, inDegree: map<string, int>, k: nat)
    requires forall k :: 0 <= k < |nodes| ==> nodes[k].id in inDegree
    requires k < |nodes|
    ensures nodes[k].id in RootIds(nodes, inDegree) <==> inDegree[nodes[k].id] == 0
  {
    var init := nodes[..|nodes| - 1];
    if nodes[k].id in RootIds(nodes, inDegree) {
      RootIdsListed(nodes, inDegree, nodes[k].id);
    } else if k < |init| {
      RootIdsMember(init, inDegree, k);
      assert init[k] == nodes[k];
    }
  }

  /** With distinct ids, no root is queued twice. */
  lemma {:induction false} RootIdsDistinct(nodes: seq<AssemblyNode>, inDegree: map<string, int>)
    requires DistinctIds(nodes)
    requires forall k :: 0 <= k < |nodes| ==> nodes[k].id in inDegree
    ensures Distinct(RootIds(nodes, inDegree))
  {
    if nodes != [] {
      var init := nodes[..|nodes| - 1];
      var n := nodes[|nodes| - 1];
      RootIdsDistinct(init, inDegree);
      if inDegree[n.id] == 0 {
        assert forall k :: 0 <= k < |init| ==> init[k].id != n.id;
        Unlisted(init, n.id);
        RootIdsListed(init, inDegree, n.id);
        DistinctAppend(RootIds(init, inDegree), n.id);
      }
    }
  }

  /** When every in-degree is zero, every part is a root, in input order. */
  lemma {:induction false} RootIdsAll(nodes: seq<AssemblyNode>, inDegree: map<string, int>)
    requires forall k :: 0 <= k < |nodes| ==> nodes[k].id in inDegree
    ensures (forall k :: 0 <= k < |nodes| ==> inDegree[nodes[k].id] == 0) ==> RootIds(nodes, inDegree) == Ids(nodes)
  {
    if nodes != [] && forall k :: 0 <= k < |nodes| ==> inDegree[nodes[k].id] == 0 {
      var init := nodes[..|nodes| - 1];
      assert forall k :: 0 <= k < |init| ==> init[k] == nodes[k];
      RootIdsAll(init, inDegree);
    }
  }

  /** Each id of `ids` is carried by a part listed after the parts carrying the ids before it. */
  ghost predicate InInputOrder(ids: seq<string>, nodes: seq<AssemblyNode>) {
    forall i, j :: 0 <= i < j < |ids| ==> Before(nodes, ids[i], ids[j])
  }

  /** Some part carrying `x` is listed before some part carrying `y`. */
  ghost predicate Before(nodes: seq<AssemblyNode>, x: string, y: string) {
    exists p, q :: 0 <= p < q < |nodes| && nodes[p].id == x && nodes[q].id == y
  }

  /** The ids of the parts with in-degree zero keep their input order. */
  lemma {:induction false} RootIdsInOrder(nodes: seq<AssemblyNode>, inDegree: map<string, int>)
    requires forall k :: 0 <= k < |nodes| ==> nodes[k].id in inDegree
    ensures InInputOrder(RootIds(nodes, inDegree), nodes)
  {
    if nodes != [] {
      var init := nodes[..|nodes| - 1];
      var n := |nodes| - 1;
      assert forall k :: 0 <= k < |init| ==> init[k] == nodes[k];
      RootIdsInOrder(init, inDegree);
      var ri := RootIds(init, inDegree);
      var r := RootIds(nodes, inDegree);
      assert r == ri + if inDegree[nodes[n].id] == 0 then [nodes[n].id] else [];
      forall i, j | 0 <= i < j < |r|
        ensures Before(nodes, r[i], r[j])
      {
        assert r[i] == ri[i];
        if j < |ri| {
          assert r[j] == ri[j];
          assert Before(init, ri[i], ri[j]);
          var p, q :| 0 <= p < q < |init| && init[p].id == ri[i] && init[q].id == ri[j];
          assert nodes[p].id == r[i] && nodes[q].id == r[j];
        } else {
          RootIdsListed(init, inDegree, ri[i]);
          var p := IdSetWitness(init, ri[i]);
          assert nodes[p].id == r[i] && nodes[n].id == r[j];
        }
      }
      assert InInputOrder(r, nodes);
    }
  }

  /** The ids of the parts none of whose requirements names a listed part, in input order. */
  function Unconstrained(nodes: seq<AssemblyNode>, listed: set<string>): seq<string> {
    if nodes == [] then []
    else
      var n := nodes[|nodes| - 1];
      Unconstrained(nodes[..|nodes| - 1], listed) +
        if forall r :: r in n.requirements ==> r !in listed then [n.id] else []
  }

  /** With the in-degrees of the graph build, the roots are exactly the unconstrained parts, in order. */
  lemma {:induction false} RootIdsUnconstrained(nodes: seq<AssemblyNode>, listed: set<string>,
                                                inDegree: map<string, int>)
    requires forall k :: 0 <= k < |nodes| ==>
               nodes[k].id in inDegree && inDegree[nodes[k].id] == Pending(nodes[k].requirements, listed, {})
    ensures RootIds(nodes, inDegree) == Unconstrained(nodes, listed)
  {
    if nodes != [] {
      var init := nodes[..|nodes| - 1];
      var n := nodes[|nodes| - 1];
      assert forall k :: 0 <= k < |init| ==> init[k] == nodes[k];
      RootIdsUnconstrained(init, listed, inDegree);
      PendingZero(n.requirements, listed, {});
    }
  }

  /**
   * The inner loop: take one in-degree off each dependent of the part just placed, and
   * enqueue each dependent whose in-degree reaches zero, in `graph` order.
   */
  method Release(neighbors: seq<string>, inDegree: map<string, int>, queue: seq<string>)
    returns (inDegree': map<string, int>, queue': seq<string>)
    requires forall y :: y in neighbors ==> y in inDegree && inDegree[y] >= multiset(neighbors)[y]
    requires Distinct(queue)
    requires forall y :: y in neighbors ==> y !in queue
    ensures inDegree'.Keys == inDegree.Keys
    ensures forall y :: y in inDegree ==> inDegree'[y] == inDegree[y] - multiset(neighbors)[y]
    ensures |queue| <= |queue'| <= |queue| + |neighbors| && queue'[..|queue|] == queue && Distinct(queue')
    ensures forall y :: y in queue'[|queue|..] <==> y in neighbors && inDegree'[y] == 0
    // the released dependents join in the order in which their in-degrees reach zero
    ensures queue'[|queue|..] == Fired(neighbors, inDegree)
  {
    inDegree', queue' := inDegree, queue;
    var j := 0;
    while j < |neighbors|
      invariant 0 <= j <= |neighbors|
      invariant inDegree'.Keys == inDegree.Keys
      invariant forall y :: y in inDegree ==> inDegree'[y] == inDegree[y] - multiset(neighbors[..j])[y]
      invariant queue' == queue + Fired(neighbors[..j], inDegree)
    {
      var nb := neighbors[j];
      ReleaseStep(neighbors, inDegree, queue, j, inDegree', queue');
      inDegree' := inDegree'[nb := inDegree'[nb] - 1];
      if inDegree'[nb] == 0 {
        queue' := queue' + [nb];
      }
      j := j + 1;
    }
    assert neighbors[..j] == neighbors;
    ReleasedQueue(neighbors, inDegree, queue, queue');
  }

  /** One pass of the inner loop keeps its invariants. */
  lemma ReleaseStep(neighbors: seq<string>, inDegree: map<string, int>, queue: seq<string>, j: nat,
                    inDegree': map<string, int>, queue': seq<string>)
    requires j < |neighbors| && neighbors[j] in inDegree
    requires inDegree'.Keys == inDegree.Keys
    requires forall y :: y in inDegree ==> inDegree'[y] == inDegree[y] - multiset(neighbors[..j])[y]
    requires queue' == queue + Fired(neighbors[..j], inDegree)
    ensures var nb := neighbors[j];
            var after := inDegree'[nb := inDegree'[nb] - 1];
            && after.Keys == inDegree.Keys
            && (forall y :: y in inDegree ==> after[y] == inDegree[y] - multiset(neighbors[..j + 1])[y])
            && queue' + (if after[nb] == 0 then [nb] else []) == queue + Fired(neighbors[..j + 1], inDegree)
  {
    var nb := neighbors[j];
    PrefixCount(neighbors, j);
    FiredStep(neighbors, inDegree, j);
    var after := inDegree'[nb := inDegree'[nb] - 1];
    assert after[nb] == inDegree[nb] - multiset(neighbors[..j + 1])[nb];
  }

  /** The queue after the inner loop: the old queue, then the fired dependents, no id twice. */
  lemma ReleasedQueue(neighbors: seq<string>, inDegree: map<string, int>, queue: seq<string>, queue': seq<string>)
    requires forall y :: y in neighbors ==> y in inDegree && inDegree[y] >= multiset(neighbors)[y]
    requires Distinct(queue)
    requires forall y :: y in neighbors ==> y !in queue
    requires queue' == queue + Fired(neighbors, inDegree)
    ensures queue'[..|queue|] == queue && queue'[|queue|..] == Fired(neighbors, inDegree)
    ensures forall y :: y in queue'[|queue|..] <==> y in neighbors && inDegree[y] == multiset(neighbors)[y]
    ensures Distinct(queue')
  {
    var fired := Fired(neighbors, inDegree);
    assert queue'[|queue|..] == fired;
    FiredMembers(neighbors, inDegree);
    FiredDistinct(neighbors, inDegree);
    forall i, k | 0 <= i < k < |queue'| ensures queue'[i] != queue'[k] {
      if k >= |queue| && i < |queue| {
        assert queue'[k] in fired;
      }
    }
  }

  /** Extending a prefix of `s` by one element adds that element once. */
  lemma PrefixCount<T>(s: seq<T>, j: nat)
    requires j < |s|
    ensures s[..j + 1] == s[..j] + [s[j]]
    ensures multiset(s[..j + 1]) == multiset(s[..j]) + multiset{s[j]}
    ensures multiset(s[..j])[s[j]] < multiset(s)[s[j]]
  {
    assert s[..j + 1] == s[..j] + [s[j]];
    assert s == s[..j + 1] + s[j + 1..];
  }

  lemma DistinctAppend<T>(s: seq<T>, x: T)
    requires Distinct(s) && x !in s
    ensures Distinct(s + [x])
  {
  }

  /**
   * The dependents a release enqueues, in the order it enqueues them: each at the mention
   * after which as many mentions have been counted as its in-degree was.
   */
  function Fired(neighbors: seq<string>, inDegree: map<string, int>): (r: seq<string>)
    ensures |r| <= |neighbors|
  {
    if neighbors == [] then []
    else
      var y := neighbors[|neighbors| - 1];
      Fired(neighbors[..|neighbors| - 1], inDegree) +
        if y in inDegree && inDegree[y] == multiset(neighbors)[y] then [y] else []
  }

  /** One more mention counted: its dependent is enqueued exactly when its count reaches the in-degree. */
  lemma FiredStep(neighbors: seq<string>, inDegree: map<string, int>, j: nat)
    requires j < |neighbors| && neighbors[j] in inDegree
    ensures Fired(neighbors[..j + 1], inDegree) ==
              Fired(neighbors[..j], inDegree) +
                if inDegree[neighbors[j]] == multiset(neighbors[..j + 1])[neighbors[j]] then [neighbors[j]] else []
  {
    assert neighbors[..j + 1][..j] == neighbors[..j];
  }

  /**
   * When no dependent is mentioned more often than its in-degree, the release enqueues exactly
   * the dependents mentioned as often as their in-degree.
   */
  lemma {:induction false} FiredMembers(neighbors: seq<string>, inDegree: map<string, int>)
    requires forall y :: y in neighbors ==> y in inDegree && inDegree[y] >= multiset(neighbors)[y]
    ensures forall y :: y in Fired(neighbors, inDegree) <==> y in neighbors && inDegree[y] == multiset(neighbors)[y]
  {
    if neighbors != [] {
      var init := neighbors[..|neighbors| - 1];
      var last := neighbors[|neighbors| - 1];
      assert neighbors == init + [last];
      assert multiset(neighbors) == multiset(init) + multiset{last};
      FiredMembers(init, inDegree);
    }
  }

  /** No dependent is enqueued twice. */
  lemma FiredDistinct(neighbors: seq<string>, inDegree: map<string, int>)
    requires forall y :: y in neighbors ==> y in inDegree && inDegree[y] >= multiset(neighbors)[y]
    ensures Distinct(Fired(neighbors, inDegree))
  {
    FiredInMentionOrder(neighbors, inDegree);
  }

  /** The position of the last mention of `y` in `s`. */
  function LastIndex(s: seq<string>, y: string): (i: nat)
    requires y in s
    ensures i < |s| && s[i] == y
    ensures forall m :: i < m < |s| ==> s[m] != y
  {
    if s[|s| - 1] == y then |s| - 1 else LastIndex(s[..|s| - 1], y)
  }

  /** An enqueued dependent was mentioned at least as often as its in-degree. */
  lemma {:induction false} FiredBounded(neighbors: seq<string>, inDegree: map<string, int>, y: string)
    requires forall x :: x in neighbors ==> x in inDegree
    requires y in Fired(neighbors, inDegree)
    ensures y in neighbors && inDegree[y] <= multiset(neighbors)[y]
  {
    var init := neighbors[..|neighbors| - 1];
    var last := neighbors[|neighbors| - 1];
    assert neighbors == init + [last];
    assert forall x :: x in init ==> x in neighbors;
    if y in Fired(init, inDegree) {
      FiredBounded(init, inDegree, y);
    }
  }

  /**
   * When no dependent is mentioned more often than its in-degree, the release enqueues the
   * dependents in the order of their last mentions: each joins as its last edge is removed.
   */
  lemma {:induction false} FiredInMentionOrder(neighbors: seq<string>, inDegree: map<string, int>)
    requires forall y :: y in neighbors ==> y in inDegree && inDegree[y] >= multiset(neighbors)[y]
    ensures forall y :: y in Fired(neighbors, inDegree) ==> y in neighbors
    ensures forall i, j :: 0 <= i < j < |Fired(neighbors, inDegree)| ==>
              LastIndex(neighbors, Fired(neighbors, inDegree)[i]) < LastIndex(neighbors, Fired(neighbors, inDegree)[j])
  {
    forall y | y in Fired(neighbors, inDegree) ensures y in neighbors {
      FiredBounded(neighbors, inDegree, y);
    }
    if neighbors != [] {
      var init := neighbors[..|neighbors| - 1];
      var last := neighbors[|neighbors| - 1];
      assert neighbors == init + [last];
      forall y | y in init ensures y in inDegree && inDegree[y] >= multiset(init)[y] {
        assert multiset(neighbors) == multiset(init) + multiset{last};
      }
      FiredInMentionOrder(init, inDegree);
      var fi := Fired(init, inDegree);
      forall y | y in fi ensures y != last && LastIndex(neighbors, y) == LastIndex(init, y) < |init| {
        FiredBounded(init, inDegree, y);
        assert multiset(neighbors) == multiset(init) + multiset{last};
      }
    }
  }

  /**
   * What the `while queue:` loop keeps about the parts placed so far: `sortedIds` lists them
   * without repeats, `order` holds their parts in that order, valid so far, and every listed
   * requirement of a placed part is itself placed.
   */
  ghost predicate PlacedOk(nodes: seq<AssemblyNode>, listed: set<string>, sortedIds: seq<string>,
                           order: seq<AssemblyNode>, placed: set<string>)
  {
    && (forall x :: x in placed <==> x in sortedIds)
    && Distinct(sortedIds) && placed <= listed
    && Ids(order) == sortedIds
    && (forall i :: 0 <= i < |order| ==> order[i] in nodes)
    && RespectsRequires(order, listed)
    && Closed(nodes, listed, placed)
  }

  /** Every listed part required by a placed part is placed too. */
  ghost predicate Closed(nodes: seq<AssemblyNode>, listed: set<string>, placed: set<string>) {
    forall k, r :: 0 <= k < |nodes| && nodes[k].id in placed && r in nodes[k].requirements && r in listed ==>
      r in placed
  }

  /**
   * What the loop keeps about the parts still to place: each one's in-degree counts its
   * unplaced listed requirements, and it is queued, once, exactly when that count is zero.
   */
  ghost predicate WaitingOk(nodes: seq<AssemblyNode>, listed: set<string>, inDegree: map<string, int>,
                            queue: seq<string>, placed: set<string>)
  {
    && Distinct(queue)
    && (forall x :: x in queue ==> x in listed && x !in placed)
    && inDegree.Keys == listed
    && (forall k :: 0 <= k < |nodes| && nodes[k].id !in placed ==>
          nodes[k].id in inDegree && inDegree[nodes[k].id] == Pending(nodes[k].requirements, listed, placed))
    && forall k :: 0 <= k < |nodes| && nodes[k].id !in placed ==>
         (nodes[k].id in queue <==> inDegree[nodes[k].id] == 0)
  }

  /** Before the first turn nothing is placed, and the queue holds the roots. */
  lemma Start(nodes: seq<AssemblyNode>, listed: set<string>, inDegree: map<string, int>,
              queue: seq<string>, free: bool)
    requires WaitingOk(nodes, listed, inDegree, queue, {})
    ensures LoopOk(nodes, listed, [], [], {}, inDegree, queue, free, queue, [])
  {
    assert Ids([]) == [];
  }

  /** The invariant of the `while queue:` loop. */
  ghost predicate LoopOk(nodes: seq<AssemblyNode>, listed: set<string>, sortedIds: seq<string>,
                         order: seq<AssemblyNode>, placed: set<string>, inDegree: map<string, int>,
                         queue: seq<string>, free: bool, queue0: seq<string>, released: seq<string>)
  {
    && PlacedOk(nodes, listed, sortedIds, order, placed)
    && WaitingOk(nodes, listed, inDegree, queue, placed)
    && sortedIds + queue == queue0 + released
    && (free ==> released == [])
  }

  /**
   * One turn of the `while queue:` loop: pop the front id, append it to `sortedIds`, and
   * release its dependents, keeping both loop invariants.
   */
  method Step(nodes: seq<AssemblyNode>, listed: set<string>, graph: map<string, seq<string>>,
              sortedIds: seq<string>, ghost order: seq<AssemblyNode>, ghost placed: set<string>,
              inDegree: map<string, int>, queue: seq<string>, ghost free: bool, ghost queue0: seq<string>,
              ghost released: seq<string>)
    returns (sortedIds': seq<string>, ghost order': seq<AssemblyNode>, ghost placed': set<string>,
             inDegree': map<string, int>, queue': seq<string>, ghost released': seq<string>)
    requires DistinctIds(nodes) && listed == IdSet(nodes)
    requires graph.Keys == listed && forall x :: x in graph ==> graph[x] == Dependents(nodes, x)
    requires queue != [] && free == NoListedRequires(nodes)
    requires LoopOk(nodes, listed, sortedIds, order, placed, inDegree, queue, free, queue0, released)
    ensures LoopOk(nodes, listed, sortedIds', order', placed', inDegree', queue', free, queue0, released')
    ensures |listed - placed'| < |listed - placed|
    // first in, first out: the front id is placed, the rest of the queue keeps its order, and
    // the dependents it releases join at the back in the order they are released
    ensures sortedIds' == sortedIds + [queue[0]]
    ensures |queue| - 1 <= |queue'| && queue'[..|queue| - 1] == queue[1..]
    ensures queue'[|queue| - 1..] == Fired(Dependents(nodes, queue[0]), inDegree)
  {
    var current := queue[0];
    ghost var c := IdSetWitness(nodes, current);
    var neighbors := if current in graph then graph[current] else [];
    assert current in graph && neighbors == Dependents(nodes, current);
    ReleaseReady(nodes, listed, neighbors, current, c, sortedIds, order, placed, inDegree, queue);
    PlaceFront(nodes, listed, sortedIds, order, placed, current, c);
    var rest := queue[1..];
    sortedIds' := sortedIds + [current];
    order' := order + [nodes[c]];
    placed' := placed + {current};
    inDegree', queue' := Release(neighbors, inDegree, rest);
    assert |rest| == |queue| - 1 && queue'[|queue| - 1..] == Fired(Dependents(nodes, queue[0]), inDegree);
    ReleasedOk(nodes, listed, neighbors, current, placed, inDegree, inDegree', queue, rest, queue');
    released' := released + queue'[|rest|..];
    QueueStep(sortedIds, queue, rest, queue', queue0, released, current);
    if free {
      NothingReleased(nodes, current, neighbors, rest, queue');
    }
  }

  /**
   * The `while queue:` loop: pop the front id, append it to `sortedIds`, and release its
   * dependents. Returns the ids placed, in placement order, and (as ghost) the parts placed.
   */
  method Drain(nodes: seq<AssemblyNode>, listed: set<string>, graph: map<string, seq<string>>,
               inDegree0: map<string, int>, queue0: seq<string>)
    returns (sortedIds: seq<string>, ghost order: seq<AssemblyNode>)
    requires DistinctIds(nodes) && listed == IdSet(nodes)
    requires graph.Keys == listed && forall x :: x in graph ==> graph[x] == Dependents(nodes, x)
    requires WaitingOk(nodes, listed, inDegree0, queue0, {})
    ensures Ids(order) == sortedIds && Distinct(sortedIds)
    ensures forall i :: 0 <= i < |order| ==> order[i] in nodes
    ensures RespectsRequires(order, listed)
    ensures forall x :: x in sortedIds ==> x in listed
    ensures forall k :: 0 <= k < |nodes| && nodes[k].id !in sortedIds ==>
              exists r :: r in nodes[k].requirements && r in listed && r !in sortedIds
    ensures NoListedRequires(nodes) ==> sortedIds == queue0
    // the queue is first in, first out, so the roots are placed first, in queue order
    ensures |queue0| <= |sortedIds| && sortedIds[..|queue0|] == queue0
  {
    var inDegree, queue := inDegree0, queue0;
    sortedIds := [];
    order := [];
    ghost var placed: set<string> := {};
    ghost var free := NoListedRequires(nodes);
    ghost var released: seq<string> := [];
    Start(nodes, listed, inDegree, queue, free);
    while queue != []
      invariant LoopOk(nodes, listed, sortedIds, order, placed, inDegree, queue, free, queue0, released)
      decreases |listed - placed|
    {
      sortedIds, order, placed, inDegree, queue, released :=
        Step(nodes, listed, graph, sortedIds, order, placed, inDegree, queue, free, queue0, released);
    }
    assert sortedIds == queue0 + released;
    Exhausted(nodes, listed, sortedIds, order, placed, inDegree);
  }

  /** When the queue runs dry, every part left over still waits for another left-over part. */
  lemma Exhausted(nodes: seq<AssemblyNode>, listed: set<string>, sortedIds: seq<string>,
                  order: seq<AssemblyNode>, placed: set<string>, inDegree: map<string, int>)
    requires PlacedOk(nodes, listed, sortedIds, order, placed)
    requires WaitingOk(nodes, listed, inDegree, [], placed)
    ensures Ids(order) == sortedIds && Distinct(sortedIds)
    ensures forall i :: 0 <= i < |order| ==> order[i] in nodes
    ensures RespectsRequires(order, listed)
    ensures forall x :: x in sortedIds ==> x in listed
    ensures forall k :: 0 <= k < |nodes| && nodes[k].id !in sortedIds ==>
              exists r :: r in nodes[k].requirements && r in listed && r !in sortedIds
  {
    forall k | 0 <= k < |nodes| && nodes[k].id !in sortedIds
      ensures exists r :: r in nodes[k].requirements && r in listed && r !in sortedIds
    {
      PendingZero(nodes[k].requirements, listed, placed);
    }
  }

  /** Placing a part whose listed requirements are all placed keeps the placed parts valid. */
  lemma PlaceFront(nodes: seq<AssemblyNode>, listed: set<string>, sortedIds: seq<string>,
                   order: seq<AssemblyNode>, placed: set<string>, current: string, c: nat)
    requires DistinctIds(nodes)
    requires PlacedOk(nodes, listed, sortedIds, order, placed)
    requires current in listed && current !in placed && c < |nodes| && nodes[c].id == current
    requires Pending(nodes[c].requirements, listed, placed) == 0
    ensures PlacedOk(nodes, listed, sortedIds + [current], order + [nodes[c]], placed + {current})
    ensures |listed - (placed + {current})| < |listed - placed|
  {
    PendingZero(nodes[c].requirements, listed, placed);
    PlaceNext(nodes, order, current, c, listed, placed);
    ClosedNext(nodes, listed, placed, current, c);
    assert listed - (placed + {current}) == (listed - placed) - {current};
  }

  /** Placing a part whose listed requirements are all placed keeps the placed set closed. */
  lemma ClosedNext(nodes: seq<AssemblyNode>, listed: set<string>, placed: set<string>, current: string, c: nat)
    requires DistinctIds(nodes) && c < |nodes| && nodes[c].id == current
    requires forall r :: r in nodes[c].requirements && r in listed ==> r in placed
    requires Closed(nodes, listed, placed)
    ensures Closed(nodes, listed, placed + {current})
  {
    forall k, r | 0 <= k < |nodes| && nodes[k].id in placed + {current} && r in nodes[k].requirements && r in listed
      ensures r in placed + {current}
    {
      if nodes[k].id !in placed {
        assert k == c;
      }
    }
  }

  /** Popping the front and appending the released ids keeps the queue's history first in, first out. */
  lemma QueueStep(sortedIds: seq<string>, queue: seq<string>, rest: seq<string>, queue': seq<string>,
                  queue0: seq<string>, released: seq<string>, current: string)
    requires queue != [] && queue[0] == current && rest == queue[1..]
    requires |rest| <= |queue'| && queue'[..|rest|] == rest
    requires sortedIds + queue == queue0 + released
    ensures (sortedIds + [current]) + queue' == queue0 + (released + queue'[|rest|..])
  {
    var added := queue'[|rest|..];
    assert queue == [current] + rest;
    assert queue' == rest + added;
    calc {
      (sortedIds + [current]) + queue';
      (sortedIds + [current]) + (rest + added);
      (sortedIds + ([current] + rest)) + added;
      (sortedIds + queue) + added;
      (queue0 + released) + added;
      queue0 + (released + added);
    }
  }

  /** With no dependencies between listed parts, placing a part releases nothing. */
  lemma NothingReleased(nodes: seq<AssemblyNode>, current: string, neighbors: seq<string>,
                        rest: seq<string>, queue': seq<string>)
    requires NoListedRequires(nodes) && current in IdSet(nodes)
    requires neighbors == Dependents(nodes, current)
    requires |rest| <= |queue'| <= |rest| + |neighbors| && queue'[..|rest|] == rest
    ensures queue'[|rest|..] == []
  {
    assert neighbors == [] by {
      if neighbors != [] {
        DependentsRequire(nodes, current, neighbors[0]);
      }
    }
  }

  /** Before the release: `Release`'s preconditions hold for the dependents of the front part. */
  lemma ReleaseReady(nodes: seq<AssemblyNode>, listed: set<string>, neighbors: seq<string>, current: string,
                     c: nat, sortedIds: seq<string>, order: seq<AssemblyNode>, placed: set<string>,
                     inDegree: map<string, int>, queue: seq<string>)
    requires DistinctIds(nodes) && listed == IdSet(nodes)
    requires PlacedOk(nodes, listed, sortedIds, order, placed)
    requires WaitingOk(nodes, listed, inDegree, queue, placed)
    requires queue != [] && queue[0] == current && c < |nodes| && nodes[c].id == current
    requires neighbors == Dependents(nodes, current)
    ensures current in listed && current !in placed && Pending(nodes[c].requirements, listed, placed) == 0
    ensures forall y :: y in neighbors ==> y in listed && y !in placed && y != current
    ensures forall y :: y in neighbors ==> y in inDegree && inDegree[y] >= multiset(neighbors)[y]
    ensures Distinct(queue[1..]) && forall y :: y in neighbors ==> y !in queue[1..]
  {
    PendingZero(nodes[c].requirements, listed, placed);
    NeighborsUnplaced(nodes, neighbors, current, c, listed, placed);
    NeighborsPending(nodes, neighbors, current, listed, placed, inDegree, queue);
  }

  /** After the release: the in-degrees and the queue describe the parts still to place. */
  lemma ReleasedOk(nodes: seq<AssemblyNode>, listed: set<string>, neighbors: seq<string>, current: string,
                   placed: set<string>, inDegree: map<string, int>, inDegree': map<string, int>,
                   waiting: seq<string>, rest: seq<string>, queue': seq<string>)
    requires DistinctIds(nodes) && listed == IdSet(nodes)
    requires WaitingOk(nodes, listed, inDegree, waiting, placed)
    requires waiting != [] && waiting[0] == current && rest == waiting[1..]
    requires neighbors == Dependents(nodes, current)
    requires forall y :: y in neighbors ==> y in listed && y !in placed && y != current
    requires inDegree'.Keys == inDegree.Keys
    requires forall y :: y in inDegree ==> inDegree'[y] == inDegree[y] - multiset(neighbors)[y]
    requires |rest| <= |queue'| && queue'[..|rest|] == rest && Distinct(queue')
    requires forall y :: y in queue'[|rest|..] <==> y in neighbors && inDegree'[y] == 0
    ensures WaitingOk(nodes, listed, inDegree', queue', placed + {current})
  {
    assert queue' == rest + queue'[|rest|..];
    forall x | x in queue' ensures x in listed && x !in placed + {current} {
      if x in rest {
        assert x != current;
      }
    }
    forall k | 0 <= k < |nodes| && nodes[k].id !in placed + {current}
      ensures inDegree'[nodes[k].id] == Pending(nodes[k].requirements, listed, placed + {current})
      ensures nodes[k].id in queue' <==> inDegree'[nodes[k].id] == 0
    {
      ReleasedPending(nodes, neighbors, current, listed, placed, inDegree, inDegree', waiting, queue', k);
    }
  }

  /**
   * `_topological_sort`: Kahn's algorithm. Succeeds with a valid assembly order exactly when
   * no set of listed parts blocks itself, in particular never on a dependency cycle; with no
   * dependencies between listed parts the order is the input order.
   */
  method TopologicalSort(nodes: seq<AssemblyNode>) returns (r: Result<seq<AssemblyNode>, AssemblyError>)
    requires DistinctIds(nodes)
    ensures r.Success? ==> IsAssemblyOrder(r.value, nodes)
    ensures r.Failure? <==> exists s :: Blocked(nodes, s)
    ensures NoListedRequires(nodes) ==> r == Success(nodes)
    // first in, first out: the parts requiring no listed part come first, in input order
    ensures r.Success? ==>
              var roots := Unconstrained(nodes, IdSet(nodes));
              |roots| <= |r.value| && Ids(r.value)[..|roots|] == roots
  {
    var listed := IdSet(nodes);
    var graph, inDegree := BuildGraph(nodes);
    var queue := Roots(nodes, inDegree);
    var sortedIds;
    ghost var order;
    sortedIds, order := Drain(nodes, listed, graph, inDegree, queue);

    RootsOnly(nodes, inDegree, queue);
    if |sortedIds| != |nodes| {
      LeftoverBlocked(nodes, listed, sortedIds);
      return Failure(CyclicDependency);
    }

    var result := Restore(nodes, sortedIds);
    Succeeded(nodes, listed, sortedIds, order, result);
    RootsFirst(nodes, listed, inDegree, queue, sortedIds, result);
    return Success(result);
  }

  /** The parts placed first are the roots, which are the unconstrained parts in input order. */
  lemma RootsFirst(nodes: seq<AssemblyNode>, listed: set<string>, inDegree: map<string, int>,
                   queue: seq<string>, sortedIds: seq<string>, result: seq<AssemblyNode>)
    requires forall k :: 0 <= k < |nodes| ==>
               nodes[k].id in inDegree && inDegree[nodes[k].id] == Pending(nodes[k].requirements, listed, {})
    requires queue == RootIds(nodes, inDegree)
    requires |queue| <= |sortedIds| && sortedIds[..|queue|] == queue
    requires |result| == |sortedIds| && forall i :: 0 <= i < |result| ==> result[i].id == sortedIds[i]
    ensures var roots := Unconstrained(nodes, listed);
            |roots| <= |result| && Ids(result)[..|roots|] == roots
  {
    RootIdsUnconstrained(nodes, listed, inDegree);
    assert Ids(result) == sortedIds;
  }

  /** With no dependencies between listed parts, every part is a root. */
  lemma RootsOnly(nodes: seq<AssemblyNode>, inDegree: map<string, int>, queue: seq<string>)
    requires forall k :: 0 <= k < |nodes| ==>
               nodes[k].id in inDegree && inDegree[nodes[k].id] == Pending(nodes[k].requirements, IdSet(nodes), {})
    requires (forall k :: 0 <= k < |nodes| ==> inDegree[nodes[k].id] == 0) ==> queue == Ids(nodes)
    ensures NoListedRequires(nodes) ==> queue == Ids(nodes)
  {
    if NoListedRequires(nodes) {
      forall k | 0 <= k < |nodes| ensures inDegree[nodes[k].id] == 0 {
        PendingZero(nodes[k].requirements, IdSet(nodes), {});
      }
    }
  }

  /** When every part was placed, the parts in placement order form a valid assembly order. */
  lemma Succeeded(nodes: seq<AssemblyNode>, listed: set<string>, sortedIds: seq<string>,
                  order: seq<AssemblyNode>, result: seq<AssemblyNode>)
    requires DistinctIds(nodes) && listed == IdSet(nodes)
    requires Ids(order) == sortedIds && Distinct(sortedIds)
    requires forall i :: 0 <= i < |order| ==> order[i] in nodes
    requires RespectsRequires(order, listed)
    requires forall x :: x in sortedIds ==> x in listed
    requires |sortedIds| == |nodes|
    requires |result| == |sortedIds|
    requires forall i :: 0 <= i < |result| ==> result[i] in nodes && result[i].id == sortedIds[i]
    ensures IsAssemblyOrder(result, nodes) && forall s :: !Blocked(nodes, s)
    ensures sortedIds == Ids(nodes) ==> result == nodes
  {
    Complete(nodes, listed, sortedIds, order);
    SameIds(nodes, result, order);
    if sortedIds == Ids(nodes) {
      SameIds(nodes, result, nodes);
    }
  }

  /** When fewer ids were placed than there are parts, the parts left over block each other. */
  lemma LeftoverBlocked(nodes: seq<AssemblyNode>, listed: set<string>, sortedIds: seq<string>)
    requires DistinctIds(nodes) && listed == IdSet(nodes)
    requires Distinct(sortedIds) && forall x :: x in sortedIds ==> x in listed
    requires forall k :: 0 <= k < |nodes| && nodes[k].id !in sortedIds ==>
               exists r :: r in nodes[k].requirements && r in listed && r !in sortedIds
    requires |sortedIds| != |nodes|
    ensures Blocked(nodes, listed - set x | x in sortedIds)
  {
    var placed := set x | x in sortedIds;
    assert placed <= listed;
    PlacedCard(nodes, sortedIds, placed, listed);
    assert placed != listed;
    var x :| x in listed && x !in placed;
    assert x in listed - placed;
    LeftoverWaits(nodes, listed, sortedIds, placed);
    assert Blocked(nodes, listed - placed);
  }

  /** Every part left over waits on a listed part that is left over too. */
  lemma LeftoverWaits(nodes: seq<AssemblyNode>, listed: set<string>, sortedIds: seq<string>, placed: set<string>)
    requires placed == set x | x in sortedIds
    requires forall k :: 0 <= k < |nodes| && nodes[k].id !in sortedIds ==>
               exists r :: r in nodes[k].requirements && r in listed && r !in sortedIds
    ensures forall k :: 0 <= k < |nodes| && nodes[k].id in listed - placed ==>
              exists r :: r in nodes[k].requirements && r in listed - placed
  {
    forall k | 0 <= k < |nodes| && nodes[k].id in listed - placed
      ensures exists r :: r in nodes[k].requirements && r in listed - placed
    {
      var r :| r in nodes[k].requirements && r in listed && r !in sortedIds;
      assert r in listed - placed;
    }
  }

  /** When every part was placed, the placement order is a valid assembly order and nothing blocks. */
  lemma Complete(nodes: seq<AssemblyNode>, listed: set<string>, sortedIds: seq<string>, order: seq<AssemblyNode>)
    requires DistinctIds(nodes) && listed == IdSet(nodes)
    requires Ids(order) == sortedIds && Distinct(sortedIds)
    requires forall i :: 0 <= i < |order| ==> order[i] in nodes
    requires RespectsRequires(order, listed)
    requires forall x :: x in sortedIds ==> x in listed
    requires |sortedIds| == |nodes|
    ensures IsAssemblyOrder(order, nodes)
    ensures forall s :: !Blocked(nodes, s)
  {
    OrderIsPermutation(nodes, order);
    forall s ensures !Blocked(nodes, s) {
      if Blocked(nodes, s) {
        BlockedMeansNoOrder(nodes, s, order);
      }
    }
  }

  /** `[id_to_node[nid] for nid in sorted_ids]`, with `id_to_node = {n.id: n for n in nodes}`. */
  function Restore(nodes: seq<AssemblyNode>, sortedIds: seq<string>): (result: seq<AssemblyNode>)
    requires DistinctIds(nodes)
    requires forall x :: x in sortedIds ==> x in IdSet(nodes)
    ensures |result| == |sortedIds|
    ensures forall i :: 0 <= i < |result| ==> result[i] in nodes && result[i].id == sortedIds[i]
  {
    var idToNode := map k | 0 <= k < |nodes| :: nodes[k].id := nodes[k];
    assert forall x :: x in sortedIds ==> x in idToNode && idToNode[x] in nodes && idToNode[x].id == x by {
      forall x | x in sortedIds ensures x in idToNode && idToNode[x] in nodes && idToNode[x].id == x {
        var k := IdSetWitness(nodes, x);
        assert idToNode[nodes[k].id] == nodes[k];
      }
    }
    seq(|sortedIds|, i requires 0 <= i < |sortedIds| => idToNode[sortedIds[i]])
  }

  /** With distinct ids, two sequences of listed parts with the same ids are equal. */
  lemma SameIds(nodes: seq<AssemblyNode>, a: seq<AssemblyNode>, b: seq<AssemblyNode>)
    requires DistinctIds(nodes) && |a| == |b|
    requires forall i :: 0 <= i < |a| ==> a[i] in nodes && b[i] in nodes && a[i].id == b[i].id
    ensures a == b
  {
    forall i | 0 <= i < |a| ensures a[i] == b[i] {
      var k :| 0 <= k < |nodes| && nodes[k] == a[i];
      var k' :| 0 <= k' < |nodes| && nodes[k'] == b[i];
    }
  }

  /** Appending the next queued part keeps the order valid. */
  lemma PlaceNext(nodes: seq<AssemblyNode>, order: seq<AssemblyNode>, current: string, c: nat,
                  listed: set<string>, placed: set<string>)
    requires c < |nodes| && nodes[c].id == current
    requires RespectsRequires(order, listed)
    requires forall x :: x in placed <==> x in Ids(order)
    requires forall r :: r in nodes[c].requirements && r in listed ==> r in placed
    ensures RespectsRequires(order + [nodes[c]], listed)
    ensures Ids(order + [nodes[c]]) == Ids(order) + [current]
  {
    var order' := order + [nodes[c]];
    assert Ids(order') == Ids(order) + [current];
    forall i, r | 0 <= i < |order'| && r in order'[i].requirements && r in listed
      ensures r in Ids(order')[..i]
    {
      if i < |order| {
        assert Ids(order')[..i] == Ids(order)[..i];
      } else {
        assert Ids(order')[..i] == Ids(order);
      }
    }
  }

  /** The dependents of the part just placed are neither placed nor queued for placement. */
  lemma NeighborsUnplaced(nodes: seq<AssemblyNode>, neighbors: seq<string>, current: string, c: nat,
                          listed: set<string>, placed: set<string>)
    requires DistinctIds(nodes) && listed == IdSet(nodes)
    requires c < |nodes| && nodes[c].id == current
    requires current in listed && current !in placed
    requires neighbors == Dependents(nodes, current)
    requires forall r :: r in nodes[c].requirements && r in listed ==> r in placed
    requires Closed(nodes, listed, placed)
    ensures forall y :: y in neighbors ==> y in listed && y !in placed && y != current
  {
    forall y | y in neighbors ensures y in listed && y !in placed && y != current {
      DependentsRequire(nodes, current, y);
      var k :| 0 <= k < |nodes| && nodes[k].id == y && current in nodes[k].requirements;
    }
  }

  /** Each dependent of the part just placed still counts it once per time it names it. */
  lemma NeighborsPending(nodes: seq<AssemblyNode>, neighbors: seq<string>, current: string,
                         listed: set<string>, placed: set<string>, inDegree: map<string, int>,
                         queue: seq<string>)
    requires DistinctIds(nodes) && listed == IdSet(nodes)
    requires current in listed && current !in placed
    requires neighbors == Dependents(nodes, current)
    requires forall y :: y in neighbors ==> y in listed && y !in placed
    requires inDegree.Keys == listed
    requires forall k :: 0 <= k < |nodes| && nodes[k].id !in placed ==>
               inDegree[nodes[k].id] == Pending(nodes[k].requirements, listed, placed)
    requires forall k :: 0 <= k < |nodes| && nodes[k].id !in placed ==>
               (nodes[k].id in queue <==> inDegree[nodes[k].id] == 0)
    ensures forall y :: y in neighbors ==> y in inDegree && inDegree[y] >= multiset(neighbors)[y]
    ensures forall y :: y in neighbors ==> y !in queue
  {
    forall y | y in neighbors
      ensures y in inDegree && inDegree[y] >= multiset(neighbors)[y] && y !in queue
    {
      DependentsRequire(nodes, current, y);
      var k :| 0 <= k < |nodes| && nodes[k].id == y && current in nodes[k].requirements;
      NeighborPending(nodes, current, listed, placed, k);
    }
  }

  /** A part that requires the part just placed counts it at least as often as it names it. */
  lemma NeighborPending(nodes: seq<AssemblyNode>, current: string, listed: set<string>,
                        placed: set<string>, k: nat)
    requires DistinctIds(nodes) && k < |nodes| && current in nodes[k].requirements
    requires current in listed && current !in placed
    ensures Pending(nodes[k].requirements, listed, placed) >= multiset(Dependents(nodes, current))[nodes[k].id] > 0
  {
    DependentsCount(nodes, current, k);
    PendingPlace(nodes[k].requirements, listed, placed, current);
  }

  /** After the release, part `k`'s in-degree and queue membership again describe it. */
  lemma ReleasedPending(nodes: seq<AssemblyNode>, neighbors: seq<string>, current: string,
                        listed: set<string>, placed: set<string>, inDegree: map<string, int>,
                        inDegree': map<string, int>, waiting: seq<string>, queue': seq<string>, k: nat)
    requires DistinctIds(nodes) && k < |nodes|
    requires current in listed && current !in placed && nodes[k].id !in placed + {current}
    requires Distinct(waiting) && waiting != [] && waiting[0] == current
    requires neighbors == Dependents(nodes, current)
    requires nodes[k].id in inDegree && nodes[k].id in inDegree'
    requires inDegree[nodes[k].id] == Pending(nodes[k].requirements, listed, placed)
    requires nodes[k].id in waiting <==> inDegree[nodes[k].id] == 0
    requires inDegree'[nodes[k].id] == inDegree[nodes[k].id] - multiset(neighbors)[nodes[k].id]
    requires |waiting| - 1 <= |queue'| && queue'[..|waiting| - 1] == waiting[1..]
    requires nodes[k].id in queue'[|waiting| - 1..] <==> nodes[k].id in neighbors && inDegree'[nodes[k].id] == 0
    ensures inDegree'[nodes[k].id] == Pending(nodes[k].requirements, listed, placed + {current})
    ensures nodes[k].id in queue' <==> inDegree'[nodes[k].id] == 0
  {
    var y := nodes[k].id;
    var rest := waiting[1..];
    assert queue' == rest + queue'[|rest|..];
    DependentsCount(nodes, current, k);
    PendingPlace(nodes[k].requirements, listed, placed, current);
    assert y in waiting <==> y in rest;
    if multiset(neighbors)[y] > 0 {
      assert y in neighbors;
    }
  }

  lemma PlacedCard(nodes: seq<AssemblyNode>, sortedIds: seq<string>, placed: set<string>, listed: set<string>)
    requires DistinctIds(nodes) && listed == IdSet(nodes)
    requires Distinct(sortedIds) && placed <= listed
    requires forall x :: x in placed <==> x in sortedIds
    ensures |sortedIds| <= |nodes|
    ensures |sortedIds| == |nodes| <==> placed == listed
  {
    CardOf(sortedIds, placed);
    ListedCard(nodes);
    SubsetCard(placed, listed);
  }

  /** With distinct ids there are as many listed ids as parts. */
  lemma ListedCard(nodes: seq<AssemblyNode>)
    requires DistinctIds(nodes)
    ensures |IdSet(nodes)| == |nodes|
  {
    var ids := Ids(nodes);
    forall x ensures x in IdSet(nodes) <==> x in ids {
      if x in IdSet(nodes) {
        var k := IdSetWitness(nodes, x);
        assert ids[k] == x;
      }
    }
    CardOf(ids, IdSet(nodes));
  }

  /** A duplicate-free sequence has as many elements as the set of its elements. */
  lemma CardOf<T>(s: seq<T>, e: set<T>)
    requires Distinct(s)
    requires forall x :: x in e <==> x in s
    ensures |e| == |s|
  {
    DistinctCard(s);
    assert e == set x | x in s;
  }

  lemma OrderIsPermutation(nodes: seq<AssemblyNode>, order: seq<AssemblyNode>)
    requires DistinctIds(nodes) && Distinct(Ids(order)) && |order| == |nodes|
    requires forall i :: 0 <= i < |order| ==> order[i] in nodes
    ensures multiset(order) == multiset(nodes)
  {
    DistinctByIds(order);
    DistinctSubset(order, nodes);
  }

  /** Parts with distinct ids are distinct parts. */
  lemma DistinctByIds(order: seq<AssemblyNode>)
    requires Distinct(Ids(order))
    ensures Distinct(order)
  {
    forall i, j | 0 <= i < j < |order| ensures order[i] != order[j] {
      assert Ids(order)[i] != Ids(order)[j];
    }
  }

  /** Two duplicate-free sequences of one length, the first drawn from the second, are permutations. */
  lemma DistinctSubset<T>(a: seq<T>, b: seq<T>)
    requires Distinct(a) && Distinct(b) && |a| == |b|
    requires forall i :: 0 <= i < |a| ==> a[i] in b
    ensures multiset(a) == multiset(b)
  {
    var sa := set x | x in a;
    var sb := set x | x in b;
    DistinctCard(a);
    DistinctCard(b);
    SubsetCard(sa, sb);
    forall x ensures x in a <==> x in b {
      if x in b {
        assert x in sb;
      }
    }
    DistinctSameElements(a, b);
  }

  // ---------------------------------------------------------------------------------------
  // Requirements on parts that are not listed

  /** Part `k` with one more requirement, naming `r`. */
  function WithRequirement(nodes: seq<AssemblyNode>, k: nat, r: string): seq<AssemblyNode>
    requires k < |nodes|
  {
    nodes[k := nodes[k].(requirements := nodes[k].requirements + [r])]
  }

  /** The listed ids depend on the parts' ids only. */
  lemma {:induction false} IdSetByIds(a: seq<AssemblyNode>, b: seq<AssemblyNode>)
    requires |a| == |b| && forall i :: 0 <= i < |a| ==> a[i].id == b[i].id
    ensures IdSet(a) == IdSet(b)
  {
    if a != [] {
      var n := |a| - 1;
      assert forall i :: 0 <= i < n ==> a[..n][i] == a[i] && b[..n][i] == b[i];
      IdSetByIds(a[..n], b[..n]);
    }
  }

  /** `graph[x]` depends only on the parts' ids and how often each part names `x`. */
  lemma {:induction false} DependentsByCounts(a: seq<AssemblyNode>, b: seq<AssemblyNode>, x: string)
    requires |a| == |b|
    requires forall i :: 0 <= i < |a| ==>
               a[i].id == b[i].id && multiset(a[i].requirements)[x] == multiset(b[i].requirements)[x]
    ensures Dependents(a, x) == Dependents(b, x)
  {
    if a != [] {
      var n := |a| - 1;
      assert forall i :: 0 <= i < n ==> a[..n][i] == a[i] && b[..n][i] == b[i];
      DependentsByCounts(a[..n], b[..n], x);
    }
  }

  /** The graph build half of `UnlistedRequirementIgnored`: no edge and no in-degree changes. */
  lemma UnlistedEdgesIgnored(nodes: seq<AssemblyNode>, k: nat, r: string)
    requires k < |nodes| && r !in IdSet(nodes)
    ensures forall x :: x in IdSet(nodes) ==> Dependents(WithRequirement(nodes, k, r), x) == Dependents(nodes, x)
    ensures forall p :: Pending(WithRequirement(nodes, k, r)[k].requirements, IdSet(nodes), p)
                        == Pending(nodes[k].requirements, IdSet(nodes), p)
  {
    var nodes' := WithRequirement(nodes, k, r);
    var reqs := nodes[k].requirements;
    assert nodes'[k].requirements == reqs + [r];
    forall x | x in IdSet(nodes) ensures Dependents(nodes', x) == Dependents(nodes, x) {
      assert x != r;
      assert multiset(reqs + [r]) == multiset(reqs) + multiset{r};
      DependentsByCounts(nodes', nodes, x);
    }
    forall p ensures Pending(nodes'[k].requirements, IdSet(nodes), p) == Pending(reqs, IdSet(nodes), p) {
      assert (reqs + [r])[..|reqs|] == reqs;
    }
  }

  /**
   * A requirement naming an id that no part carries is ignored: the graph build gives every
   * listed part the same dependents and every part the same in-degree, so the sort sees
   * no difference, and it never blocks a part, so the sort fails on the new parts exactly
   * when it fails on the old ones.
   */
  lemma UnlistedRequirementIgnored(nodes: seq<AssemblyNode>, k: nat, r: string)
    requires k < |nodes| && r !in IdSet(nodes)
    ensures IdSet(WithRequirement(nodes, k, r)) == IdSet(nodes)
    ensures forall x :: x in IdSet(nodes) ==> Dependents(WithRequirement(nodes, k, r), x) == Dependents(nodes, x)
    ensures forall p :: Pending(WithRequirement(nodes, k, r)[k].requirements, IdSet(nodes), p)
                        == Pending(nodes[k].requirements, IdSet(nodes), p)
    ensures forall s :: Blocked(WithRequirement(nodes, k, r), s) <==> Blocked(nodes, s)
  {
    IdSetByIds(WithRequirement(nodes, k, r), nodes);
    UnlistedEdgesIgnored(nodes, k, r);
    UnlistedNeverBlocks(nodes, k, r);
  }

  /** The cycle half of `UnlistedRequirementIgnored`: the same sets block before and after. */
  lemma UnlistedNeverBlocks(nodes: seq<AssemblyNode>, k: nat, r: string)
    requires k < |nodes| && r !in IdSet(nodes)
    ensures forall s :: Blocked(WithRequirement(nodes, k, r), s) <==> Blocked(nodes, s)
  {
    var nodes' := WithRequirement(nodes, k, r);
    IdSetByIds(nodes', nodes);
    forall s ensures Blocked(nodes', s) <==> Blocked(nodes, s) {
      if Blocked(nodes', s) {
        forall j | 0 <= j < |nodes| && nodes[j].id in s
          ensures exists q :: q in nodes[j].requirements && q in s
        {
          assert nodes'[j].id == nodes[j].id;
          var q :| q in nodes'[j].requirements && q in s;
          assert q != r by {
            assert s <= IdSet(nodes);
          }
          if j == k {
            assert nodes'[j].requirements == nodes[j].requirements + [r];
          }
          assert q in nodes[j].requirements;
        }
      }
      if Blocked(nodes, s) {
        forall j | 0 <= j < |nodes'| && nodes'[j].id in s
          ensures exists q :: q in nodes'[j].requirements && q in s
        {
          assert nodes'[j].id == nodes[j].id;
          var q :| q in nodes[j].requirements && q in s;
          if j == k {
            assert nodes'[j].requirements == nodes[j].requirements + [r];
          }
          assert q in nodes'[j].requirements;
        }
      }
    }
  }

  // ---------------------------------------------------------------------------------------
  // `plan_sequence`: the id-only part

  /**
   * One entry of `parts`, a dict of which only `id` is required here: each other key may
   * be absent, and `plan_sequence` then fills in its default.
   */
  datatype PartSpec = PartSpec(
    id: string,
    weight: Option<real>,
    dimensions: Option<seq<real>>,
    requirements: Option<seq<string>>,
    installTime: Option<real>)

  /** The payload of a successful plan, without its floating-point metrics. */
  datatype Plan = Plan(stationId: string, strategy: string, sequence: seq<string>, partCount: nat)

  /** What `plan_sequence` reports: the plan, or the text of the error the sort raised. */
  datatype PlanOutcome = Planned(plan: Plan) | Failed(message: string)

  /** The `optimize_for` a caller gets by leaving the argument out. */
  const DefaultStrategy := "speed"

  const CyclicDependencyMessage := "Cyclic dependency detected in assembly plan."

  /** `AssemblyNode(id=p.get("id"), weight=p.get("weight", 0.1), ...)`. */
  function NodeOf(p: PartSpec): (n: AssemblyNode)
    ensures n.id == p.id && !n.isInstalled
    ensures p.requirements.None? ==> n.requirements == []
    ensures p.requirements.Some? ==> n.requirements == p.requirements.value
  {
    AssemblyNode(
      p.id,
      if p.weight.Some? then p.weight.value else 0.1,
      if p.dimensions.Some? then p.dimensions.value else [0.1, 0.1, 0.1],
      if p.requirements.Some? then p.requirements.value else [],
      if p.installTime.Some? then p.installTime.value else 2.0,
      false)
  }

  function NodesOf(parts: seq<PartSpec>): seq<AssemblyNode> {
    seq(|parts|, i requires 0 <= i < |parts| => NodeOf(parts[i]))
  }

  /** The loop that turns `parts` into nodes, one appended per part, in order. */
  method BuildNodes(parts: seq<PartSpec>) returns (nodes: seq<AssemblyNode>)
    ensures |nodes| == |parts|
    ensures forall i :: 0 <= i < |parts| ==> nodes[i].id == parts[i].id && !nodes[i].isInstalled
    ensures nodes == NodesOf(parts)
  {
    nodes := [];
    var i := 0;
    while i < |parts|
      invariant 0 <= i <= |parts|
      invariant nodes == NodesOf(parts[..i])
    {
      assert NodesOf(parts[..i + 1]) == NodesOf(parts[..i]) + [NodeOf(parts[i])];
      nodes := nodes + [NodeOf(parts[i])];
      i := i + 1;
    }
    assert parts[..i] == parts;
  }

  /**
   * `plan_sequence(parts, station_id, optimize_for)`: the sequence is the ids of a valid
   * assembly order of the parts, with one entry per part, and the station and strategy are
   * echoed; the sort's cycle error becomes a failed outcome carrying its message.
   */
  method PlanSequence(parts: seq<PartSpec>, stationId: string, optimizeFor: Option<string>)
    returns (r: PlanOutcome, ghost order: seq<AssemblyNode>)
    requires forall i, j :: 0 <= i < j < |parts| ==> parts[i].id != parts[j].id
    ensures r.Failed? <==> exists s :: Blocked(NodesOf(parts), s)
    ensures r.Failed? ==> r.message == CyclicDependencyMessage
    ensures r.Planned? ==> IsAssemblyOrder(order, NodesOf(parts)) && r.plan.sequence == Ids(order)
    ensures r.Planned? ==>
              && r.plan.stationId == stationId
              && r.plan.strategy == (if optimizeFor.Some? then optimizeFor.value else DefaultStrategy)
              && r.plan.partCount == |r.plan.sequence| == |parts|
    ensures NoListedRequires(NodesOf(parts)) ==>
              r.Planned? && r.plan.sequence == Ids(NodesOf(parts))
    ensures r.Planned? ==>
              var roots := Unconstrained(NodesOf(parts), IdSet(NodesOf(parts)));
              |roots| <= |r.plan.sequence| && r.plan.sequence[..|roots|] == roots
  {
    var nodes := BuildNodes(parts);
    var sorted := TopologicalSort(nodes);
    match sorted
    case Failure(_) =>
      r, order := Failed(CyclicDependencyMessage), [];
    case Success(valid) =>
      assert |multiset(valid)| == |multiset(nodes)|;
      var sequence := Ids(valid);
      var strategy := if optimizeFor.Some? then optimizeFor.value else DefaultStrategy;
      r := Planned(Plan(stationId, strategy, sequence, |valid|));
      order := valid;
  }
}
