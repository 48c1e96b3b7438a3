/** The load-order sort of export commands: Kahn's algorithm over a priority heap. */
module LoadOrder {
  import opened Package

  /** `ZenExportGraphNode`. Only export commands become graph nodes. */
  datatype GraphNode = GraphNode(exportIndex: nat, command: Command, isPublic: bool)

  /** The nodes to order and, per node, the nodes that wait for it; an edge may be listed several times. */
  datatype Graph = Graph(nodes: seq<GraphNode>, dependants: map<GraphNode, seq<GraphNode>>) {
    ghost predicate Valid() {
      && Distinct(nodes)
      && (forall u :: u in dependants ==> u in nodes)
      && (forall u, v :: u in dependants && v in dependants[u] ==> v in nodes)
    }

    ghost predicate Edge(u: GraphNode, v: GraphNode) {
      u in dependants && v in dependants[u]
    }

    /** Nodes not yet emitted all of whose dependencies are. */
    ghost function Ready(done: set<GraphNode>): set<GraphNode> {
      set n | n in nodes && n !in done && forall u :: Edge(u, n) ==> u in done
    }

    ghost predicate Path(p: seq<GraphNode>) {
      forall i, j :: 0 <= i < j < |p| && j == i + 1 ==> Edge(p[i], p[j])
    }

    ghost predicate Cycle(p: seq<GraphNode>) {
      |p| >= 2 && Path(p) && p[0] == p[|p| - 1]
    }

    ghost predicate Acyclic() {
      forall p :: !Cycle(p)
    }
  }

  /** The heap's order: `a` is popped before `b`. */
  predicate Precedes(a: GraphNode, b: GraphNode) {
    if a.isPublic != b.isPublic then a.isPublic
    else if a.command != b.command then a.command.Create?
    else a.exportIndex < b.exportIndex
  }

  ghost predicate IsFirst(b: GraphNode, s: set<GraphNode>) {
    b in s && forall x :: x in s ==> x == b || Precedes(b, x)
  }

  lemma {:induction false} FirstExists(s: set<GraphNode>)
    requires s != {}
    ensures exists b :: IsFirst(b, s)
    decreases s
  {
    var x :| x in s;
    if s == {x} {
      assert IsFirst(x, s);
    } else {
      FirstExists(s - {x});
      var b :| IsFirst(b, s - {x});
      var m := if Precedes(x, b) then x else b;
      forall y | y in s ensures y == m || Precedes(m, y) {
        assert y == x || y in s - {x};
      }
      assert IsFirst(m, s);
    }
  }

  ghost function First(s: set<GraphNode>): (b: GraphNode)
    requires s != {}
    ensures IsFirst(b, s)
  {
    FirstExists(s);
    var b :| IsFirst(b, s);
    b
  }

  /** The specification of the sort: keep emitting the best ready node until none is ready. */
  ghost function Greedy(g: Graph, order: seq<GraphNode>): seq<GraphNode>
    decreases Elements(g.nodes) - Elements(order)
  {
    var ready := g.Ready(Elements(order));
    if ready == {} then order
    else
      var b := First(ready);
      assert b in Elements(g.nodes) - Elements(order);
      assert Elements(order + [b]) == Elements(order) + {b};
      Greedy(g, order + [b])
  }

  /** A prefix of a load order: no repetition, and everything an emitted node waits for comes earlier. */
  ghost predicate Partial(g: Graph, order: seq<GraphNode>) {
    && Distinct(order)
    && (forall n :: n in order ==> n in g.nodes)
    && forall u, j {:trigger g.Edge(u, order[j])} :: 0 <= j < |order| && g.Edge(u, order[j]) ==> u in order[..j]
  }

  ghost predicate Before(order: seq<GraphNode>, u: GraphNode, v: GraphNode) {
    exists i, j :: 0 <= i < j < |order| && order[i] == u && order[j] == v
  }

  lemma {:induction false} PartialExtends(g: Graph, order: seq<GraphNode>, b: GraphNode)
    requires Partial(g, order)
    requires b in g.Ready(Elements(order))
    ensures Partial(g, order + [b])
  {
    var next := order + [b];
    forall u, j | 0 <= j < |next| && g.Edge(u, next[j]) ensures u in next[..j] {
      if j < |order| {
        assert next[..j] == order[..j];
        assert g.Edge(u, order[j]);
      } else {
        assert next[..j] == order;
      }
    }
  }

  lemma {:induction false} GreedyIsPartial(g: Graph, order: seq<GraphNode>)
    requires Partial(g, order)
    ensures Partial(g, Greedy(g, order))
    ensures g.Ready(Elements(Greedy(g, order))) == {}
    decreases Elements(g.nodes) - Elements(order)
  {
    var ready := g.Ready(Elements(order));
    if ready != {} {
      var b := First(ready);
      PartialExtends(g, order, b);
      assert Elements(order + [b]) == Elements(order) + {b};
      GreedyIsPartial(g, order + [b]);
    }
  }

  /** Along a path inside a load order, positions strictly grow. */
  lemma {:induction false} PathGoesForward(g: Graph, order: seq<GraphNode>, p: seq<GraphNode>)
    requires Partial(g, order) && |p| >= 2 && g.Path(p)
    requires p[|p| - 1] in order
    ensures Before(order, p[0], p[|p| - 1])
  {
    var j :| 0 <= j < |order| && order[j] == p[|p| - 1];
    var u := p[|p| - 2];
    assert g.Edge(u, order[j]);
    var i :| 0 <= i < j && order[i] == u;
    if |p| > 2 {
      var q := p[..|p| - 1];
      PathGoesForward(g, order, q);
    }
  }

  /** Every one of these nodes waits for another one of them. */
  ghost predicate MutuallyStuck(g: Graph, stuck: set<GraphNode>) {
    forall v {:trigger WaitsFor(g, stuck, v)} :: v in stuck ==> WaitsFor(g, stuck, v)
  }

  ghost predicate WaitsFor(g: Graph, stuck: set<GraphNode>, v: GraphNode) {
    exists u :: u in stuck && g.Edge(u, v)
  }

  /** When every stuck node waits for another stuck node, the graph can be walked backwards for any length. */
  lemma {:induction false} BackwardPath(g: Graph, stuck: set<GraphNode>, n: GraphNode, length: nat)
    returns (p: seq<GraphNode>)
    requires n in stuck
    requires MutuallyStuck(g, stuck)
    ensures |p| == length + 1 && g.Path(p) && p[length] == n
    ensures forall x :: x in p ==> x in stuck
    decreases length
  {
    p := [n];
    if length > 0 {
      assert WaitsFor(g, stuck, n);
      var u :| u in stuck && g.Edge(u, n);
      var walk := BackwardPath(g, stuck, u, length - 1);
      p := walk + [n];
    }
  }

  /** A walk longer than the number of stuck nodes repeats one, and the part in between is a cycle. */
  lemma {:induction false} StuckImpliesCycle(g: Graph, stuck: set<GraphNode>)
    requires stuck != {}
    requires MutuallyStuck(g, stuck)
    ensures !g.Acyclic()
  {
    var n :| n in stuck;
    var p := BackwardPath(g, stuck, n, |stuck|);
    Pigeonhole(p, stuck);
    var i, j :| 0 <= i < j < |p| && p[i] == p[j];
    LoopIsCycle(g, p, i, j);
  }

  lemma {:induction false} LoopIsCycle(g: Graph, p: seq<GraphNode>, i: nat, j: nat)
    requires g.Path(p) && i < j < |p| && p[i] == p[j]
    ensures !g.Acyclic()
  {
    var cycle := p[i..j + 1];
    assert g.Cycle(cycle);
  }

  lemma {:induction false} CompleteImpliesAcyclic(g: Graph, order: seq<GraphNode>)
    requires g.Valid() && Partial(g, order) && Elements(order) == Elements(g.nodes)
    ensures g.Acyclic()
  {
    forall p | g.Path(p) && |p| >= 2 ensures p[0] != p[|p| - 1] {
      assert g.Edge(p[|p| - 2], p[|p| - 1]);
      assert p[|p| - 1] in Elements(g.nodes);
      PathGoesForward(g, order, p);
    }
  }

  lemma {:induction false} IncompleteImpliesCycle(g: Graph, order: seq<GraphNode>)
    requires g.Valid() && g.Ready(Elements(order)) == {} && !(Elements(g.nodes) <= Elements(order))
    ensures !g.Acyclic()
  {
    var stuck := Elements(g.nodes) - Elements(order);
    forall v | v in stuck ensures WaitsFor(g, stuck, v) {
      assert v !in g.Ready(Elements(order));
    }
    var v :| v in Elements(g.nodes) && v !in Elements(order);
    assert v in stuck;
    StuckImpliesCycle(g, stuck);
  }

  /** The greedy order is complete exactly when the graph has no cycle, and then it is a topological order. */
  lemma {:induction false} GreedyCompleteIffAcyclic(g: Graph)
    requires g.Valid()
    ensures Partial(g, Greedy(g, []))
    ensures |Greedy(g, [])| == |g.nodes| <==> g.Acyclic()
    ensures |Greedy(g, [])| == |g.nodes| <==> Elements(Greedy(g, [])) == Elements(g.nodes)
  {
    GreedyIsPartial(g, []);
    var order := Greedy(g, []);
    DistinctLength(order);
    DistinctLength(g.nodes);
    assert Elements(order) <= Elements(g.nodes);
    SubsetSize(Elements(order), Elements(g.nodes));
    if Elements(order) == Elements(g.nodes) {
      CompleteImpliesAcyclic(g, order);
    } else {
      IncompleteImpliesCycle(g, order);
    }
  }

  /** In a complete order every edge leads from an earlier position to a later one. */
  lemma {:induction false} EdgesGoForward(g: Graph, u: GraphNode, v: GraphNode)
    requires g.Valid() && g.Acyclic() && g.Edge(u, v)
    ensures Before(Greedy(g, []), u, v)
  {
    GreedyCompleteIffAcyclic(g);
    var order := Greedy(g, []);
    assert v in Elements(order);
    assert g.Path([u, v]);
    PathGoesForward(g, order, [u, v]);
  }

  // ---- The running edge counts of the algorithm ----

  /** The edges leaving the nodes of `sources`, as a multiset of their targets. */
  ghost function EdgesFrom(dependants: map<GraphNode, seq<GraphNode>>, sources: set<GraphNode>): multiset<GraphNode>
    requires sources <= dependants.Keys
    decreases sources
  {
    if sources == {} then multiset{}
    else
      var u :| u in sources;
      multiset(dependants[u]) + EdgesFrom(dependants, sources - {u})
  }

  lemma {:induction false} EdgesFromSplit(dependants: map<GraphNode, seq<GraphNode>>, sources: set<GraphNode>,
                                          x: GraphNode)
    requires sources <= dependants.Keys && x in sources
    ensures EdgesFrom(dependants, sources) == multiset(dependants[x]) + EdgesFrom(dependants, sources - {x})
    decreases sources
  {
    var u :| u in sources &&
      EdgesFrom(dependants, sources) == multiset(dependants[u]) + EdgesFrom(dependants, sources - {u});
    if u != x {
      EdgesFromSplit(dependants, sources - {u}, x);
      EdgesFromSplit(dependants, sources - {x}, u);
      assert sources - {u} - {x} == sources - {x} - {u};
    }
  }

  lemma {:induction false} EdgesFromMember(dependants: map<GraphNode, seq<GraphNode>>, sources: set<GraphNode>,
                                           v: GraphNode)
    requires sources <= dependants.Keys
    ensures v in EdgesFrom(dependants, sources) <==> exists u :: u in sources && v in dependants[u]
    decreases sources
  {
    if sources != {} {
      var u :| u in sources &&
        EdgesFrom(dependants, sources) == multiset(dependants[u]) + EdgesFrom(dependants, sources - {u});
      EdgesFromMember(dependants, sources - {u}, v);
    }
  }

  function CountOf(counts: map<GraphNode, nat>, n: GraphNode): nat {
    if n in counts then counts[n] else 0
  }

  /** The edge counts still owed once `done` has been emitted. */
  ghost predicate Owed(g: Graph, counts: map<GraphNode, nat>, done: set<GraphNode>) {
    forall n :: CountOf(counts, n) == EdgesFrom(g.dependants, g.dependants.Keys - done)[n]
  }

  /** A node not yet emitted that is owed no edge. */
  ghost predicate Free(g: Graph, counts: map<GraphNode, nat>, done: set<GraphNode>, n: GraphNode) {
    n in g.nodes && n !in done && CountOf(counts, n) == 0
  }

  /** The heap holds each free node once and nothing else. */
  ghost predicate HeapHoldsFree(g: Graph, counts: map<GraphNode, nat>, done: set<GraphNode>, heap: multiset<GraphNode>)
  {
    forall n :: heap[n] == if Free(g, counts, done, n) then 1 else 0
  }

  lemma {:induction false} FreeIsReady(g: Graph, counts: map<GraphNode, nat>, done: set<GraphNode>, n: GraphNode)
    requires Owed(g, counts, done)
    ensures Free(g, counts, done, n) <==> n in g.Ready(done)
  {
    var rest := g.dependants.Keys - done;
    EdgesFromMember(g.dependants, rest, n);
    assert CountOf(counts, n) == EdgesFrom(g.dependants, rest)[n];
    if u :| g.Edge(u, n) && u !in done {
      assert u in rest;
    }
  }

  /** Counting the edges to the dependants of one node. */
  method CountTargets(counts: map<GraphNode, nat>, targets: seq<GraphNode>) returns (counts': map<GraphNode, nat>)
    ensures forall n :: CountOf(counts', n) == CountOf(counts, n) + multiset(targets)[n]
  {
    counts' := counts;
    for i := 0 to |targets|
      invariant forall n :: CountOf(counts', n) == CountOf(counts, n) + multiset(targets[..i])[n]
    {
      counts' := counts'[targets[i] := CountOf(counts', targets[i]) + 1];
      assert targets[..i + 1] == targets[..i] + [targets[i]];
    }
    assert targets[..|targets|] == targets;
  }

  /** Counting every edge once; the hash map may hand out its values in any order. */
  method CountIncomingEdges(g: Graph) returns (counts: map<GraphNode, nat>)
    ensures Owed(g, counts, {})
  {
    counts := map[];
    var keys := g.dependants.Keys;
    ghost var seen: set<GraphNode> := {};
    while keys != {}
      invariant seen !! keys && seen + keys == g.dependants.Keys
      invariant forall n :: CountOf(counts, n) == EdgesFrom(g.dependants, seen)[n]
      decreases keys
    {
      var from :| from in keys;
      keys := keys - {from};
      counts := CountTargets(counts, g.dependants[from]);
      EdgesFromSplit(g.dependants, seen + {from}, from);
      assert seen + {from} - {from} == seen;
      seen := seen + {from};
    }
    assert seen == g.dependants.Keys - {};
  }

  /** Filling the heap with the nodes that wait for nothing. */
  method CollectReady(g: Graph, counts: map<GraphNode, nat>) returns (heap: multiset<GraphNode>)
    requires g.Valid()
    ensures HeapHoldsFree(g, counts, {}, heap)
  {
    heap := multiset{};
    for i := 0 to |g.nodes|
      invariant forall n :: heap[n] == if n in g.nodes[..i] && CountOf(counts, n) == 0 then 1 else 0
    {
      var n := g.nodes[i];
      assert n !in g.nodes[..i];
      assert g.nodes[..i + 1] == g.nodes[..i] + [n];
      if CountOf(counts, n) == 0 {
        heap := heap + multiset{n};
      }
    }
    assert g.nodes[..|g.nodes|] == g.nodes;
  }

  /** No node waiting for the emitted one has been emitted before. */
  lemma {:induction false} DependantsAreUnemitted(g: Graph, order: seq<GraphNode>, emitted: GraphNode, n: GraphNode)
    requires Partial(g, order) && emitted in g.Ready(Elements(order)) && g.Edge(emitted, n)
    ensures n !in order && n != emitted
  {
    if n in order {
      assert false;
    }
  }

  /** Taking one edge off the count of `to`, which goes onto the heap when nothing is owed to it any more. */
  method Discount(g: Graph, counts: map<GraphNode, nat>, heap: multiset<GraphNode>, to: GraphNode,
                  ghost done: set<GraphNode>)
    returns (counts': map<GraphNode, nat>, heap': multiset<GraphNode>)
    requires CountOf(counts, to) > 0 && to in g.nodes && to !in done
    requires HeapHoldsFree(g, counts, done, heap)
    ensures forall n :: CountOf(counts', n) == if n == to then CountOf(counts, n) - 1 else CountOf(counts, n)
    ensures HeapHoldsFree(g, counts', done, heap')
  {
    counts', heap' := counts[to := counts[to] - 1], heap;
    if counts'[to] == 0 {
      heap' := heap + multiset{to};
    }
  }

  /** Taking the edges to all of `targets` off the counts, one at a time. */
  method DiscountAll(g: Graph, counts: map<GraphNode, nat>, heap: multiset<GraphNode>, targets: seq<GraphNode>,
                     ghost owed: multiset<GraphNode>, ghost done: set<GraphNode>)
    returns (counts': map<GraphNode, nat>, heap': multiset<GraphNode>)
    requires forall n :: n in targets ==> n in g.nodes && n !in done
    requires forall n :: CountOf(counts, n) == owed[n] + multiset(targets)[n]
    requires HeapHoldsFree(g, counts, done, heap)
    ensures forall n :: CountOf(counts', n) == owed[n]
    ensures HeapHoldsFree(g, counts', done, heap')
  {
    counts', heap' := counts, heap;
    assert targets[0..] == targets;
    for i := 0 to |targets|
      invariant forall n :: CountOf(counts', n) == owed[n] + multiset(targets[i..])[n]
      invariant HeapHoldsFree(g, counts', done, heap')
    {
      assert targets[i..] == [targets[i]] + targets[i + 1..];
      counts', heap' := Discount(g, counts', heap', targets[i], done);
    }
  }

  /** Taking the edges of an emitted node off the counts, pushing every node whose count reaches zero. */
  method ReleaseDependants(g: Graph, counts: map<GraphNode, nat>, heap: multiset<GraphNode>, emitted: GraphNode,
                           ghost order: seq<GraphNode>)
    returns (counts': map<GraphNode, nat>, heap': multiset<GraphNode>)
    requires g.Valid() && Partial(g, order) && emitted in g.Ready(Elements(order))
    requires Owed(g, counts, Elements(order))
    requires HeapHoldsFree(g, counts, Elements(order) + {emitted}, heap)
    ensures Owed(g, counts', Elements(order) + {emitted})
    ensures HeapHoldsFree(g, counts', Elements(order) + {emitted}, heap')
  {
    ghost var done := Elements(order);
    ghost var rest := g.dependants.Keys - (done + {emitted});
    counts', heap' := counts, heap;
    if emitted in g.dependants {
      EdgesFromSplit(g.dependants, g.dependants.Keys - done, emitted);
      assert g.dependants.Keys - done - {emitted} == rest;
      forall n | n in g.dependants[emitted] ensures n in g.nodes && n !in done + {emitted} {
        assert g.Edge(emitted, n);
        DependantsAreUnemitted(g, order, emitted, n);
      }
      counts', heap' :=
        DiscountAll(g, counts, heap, g.dependants[emitted], EdgesFrom(g.dependants, rest), done + {emitted});
    } else {
      assert rest == g.dependants.Keys - done;
    }
  }

  /** One pop: the greatest element of the heap is the best ready node. */
  method PopBest(g: Graph, heap: multiset<GraphNode>, ghost counts: map<GraphNode, nat>, ghost done: set<GraphNode>)
    returns (best: GraphNode, rest: multiset<GraphNode>)
    requires heap != multiset{} && Owed(g, counts, done) && HeapHoldsFree(g, counts, done, heap)
    ensures g.Ready(done) != {} && best == First(g.Ready(done))
    ensures forall x :: x in g.Ready(done) && x.isPublic ==> best.isPublic
    ensures forall x :: x in g.Ready(done) && x.isPublic == best.isPublic && x.command.Create? ==> best.command.Create?
    ensures forall x :: x in g.Ready(done) && x.isPublic == best.isPublic && x.command == best.command ==>
      best.exportIndex <= x.exportIndex
    ensures HeapHoldsFree(g, counts, done + {best}, rest)
  {
    ghost var ready := g.Ready(done);
    forall n ensures n in heap <==> n in ready {
      FreeIsReady(g, counts, done, n);
    }
    var x :| x in heap;
    assert ready != {};
    ghost var first := First(ready);
    assert first in heap && forall x :: x in heap ==> x == first || Precedes(first, x);
    best :| best in heap && forall x :: x in heap ==> x == best || Precedes(best, x);
    assert first == best || Precedes(best, first);
    assert best == first;
    rest := heap - multiset{best};
  }

  /**
   * `sort_dependencies_in_load_order`. Whatever order the hash map is walked in, the result is the greedy
   * order, and the sort succeeds exactly on graphs without a cycle.
   */
  method SortInLoadOrder(g: Graph) returns (r: Result<seq<GraphNode>>)
    requires g.Valid()
    ensures r.Success? <==> g.Acyclic()
    ensures r.Success? ==> r.value == Greedy(g, []) && Elements(r.value) == Elements(g.nodes) && Partial(g, r.value)
    ensures r.Success? ==> forall i, j :: 0 <= i < j < |r.value| && r.value[j] in g.Ready(Elements(r.value[..i])) ==>
      && (r.value[j].isPublic ==> r.value[i].isPublic)
      && (r.value[i].isPublic == r.value[j].isPublic && r.value[j].command.Create? ==> r.value[i].command.Create?)
      && (r.value[i].isPublic == r.value[j].isPublic && r.value[i].command == r.value[j].command ==>
            r.value[i].exportIndex < r.value[j].exportIndex)
  {
    var counts := CountIncomingEdges(g);
    var heap := CollectReady(g, counts);
    var order: seq<GraphNode> := [];
    assert Elements(order) == {};
    while heap != multiset{}
      invariant Partial(g, order) && Greedy(g, []) == Greedy(g, order)
      invariant Owed(g, counts, Elements(order))
      invariant HeapHoldsFree(g, counts, Elements(order), heap)
      decreases Elements(g.nodes) - Elements(order)
    {
      ghost var done := Elements(order);
      var best;
      best, heap := PopBest(g, heap, counts, done);
      PartialExtends(g, order, best);
      counts, heap := ReleaseDependants(g, counts, heap, best, order);
      assert Elements(order + [best]) == done + {best};
      assert best in Elements(g.nodes) - done;
      order := order + [best];
    }
    assert g.Ready(Elements(order)) == {} by {
      forall n ensures n !in g.Ready(Elements(order)) {
        FreeIsReady(g, counts, Elements(order), n);
        assert heap[n] == 0;
      }
    }
    GreedyCompleteIffAcyclic(g);
    if |order| != |g.nodes| {
      r := Failure("Failed to sort exports in load order because of circular dependencies");
    } else {
      r := Success(order);
      forall i, j | 0 <= i < j < |order| && order[j] in g.Ready(Elements(order[..i]))
        ensures && (order[j].isPublic ==> order[i].isPublic)
                && (order[i].isPublic == order[j].isPublic && order[j].command.Create? ==> order[i].command.Create?)
                && (order[i].isPublic == order[j].isPublic && order[i].command == order[j].command ==>
                      order[i].exportIndex < order[j].exportIndex)
      {
        ReadyInOrder(g, i, j);
        assert order[i] != order[j];
      }
    }
  }

  // ---- Uniqueness ----

  ghost predicate BestHere(g: Graph, order: seq<GraphNode>, i: nat)
    requires i < |order|
  {
    IsFirst(order[i], g.Ready(Elements(order[..i])))
  }

  /** At every position the order has the best node that is ready there, and at its end none is ready. */
  ghost predicate EmitsBest(g: Graph, order: seq<GraphNode>, from: nat)
    requires from <= |order|
  {
    && (forall i :: from <= i < |order| ==> BestHere(g, order, i))
    && g.Ready(Elements(order)) == {}
  }

  lemma {:induction false} GreedyExtends(g: Graph, order: seq<GraphNode>)
    ensures order <= Greedy(g, order)
    decreases Elements(g.nodes) - Elements(order)
  {
    var ready := g.Ready(Elements(order));
    if ready != {} {
      assert Elements(order + [First(ready)]) == Elements(order) + {First(ready)};
      GreedyExtends(g, order + [First(ready)]);
    }
  }

  /**
   * What best means: of two commands that could both come next a public one comes first; of two that are both public
   * or both not, a Create; of two with the same command, the one of the export with the lower index.
   */
  lemma {:induction false} ReadyInOrder(g: Graph, i: nat, j: nat)
    requires i < j < |Greedy(g, [])| && Greedy(g, [])[j] in g.Ready(Elements(Greedy(g, [])[..i]))
    ensures var a, b := Greedy(g, [])[i], Greedy(g, [])[j];
      && (b.isPublic ==> a.isPublic)
      && (a.isPublic == b.isPublic && b.command.Create? ==> a.command.Create?)
      && (a.isPublic == b.isPublic && a.command == b.command ==> a.exportIndex <= b.exportIndex)
  {
    GreedyEmitsBest(g, []);
    assert BestHere(g, Greedy(g, []), i);
  }

  /** The result of the sort emits the best ready node at every step. */
  lemma {:induction false} GreedyEmitsBest(g: Graph, order: seq<GraphNode>)
    ensures order <= Greedy(g, order) && EmitsBest(g, Greedy(g, order), |order|)
    decreases Elements(g.nodes) - Elements(order)
  {
    GreedyExtends(g, order);
    var ready, all := g.Ready(Elements(order)), Greedy(g, order);
    if ready != {} {
      var next := order + [First(ready)];
      assert Elements(next) == Elements(order) + {First(ready)};
      GreedyExtends(g, next);
      GreedyEmitsBest(g, next);
      assert all[..|order|] == order && all[|order|] == next[|order|];
    }
  }

  lemma {:induction false} FirstIsUnique(s: set<GraphNode>, a: GraphNode, b: GraphNode)
    requires IsFirst(a, s) && IsFirst(b, s)
    ensures a == b
  {
  }

  lemma {:induction false} GreedyStep(g: Graph, order: seq<GraphNode>, b: GraphNode)
    requires IsFirst(b, g.Ready(Elements(order)))
    ensures Greedy(g, order) == Greedy(g, order + [b])
  {
    FirstIsUnique(g.Ready(Elements(order)), b, First(g.Ready(Elements(order))));
  }

  lemma {:induction false} GreedyAt(g: Graph, order: seq<GraphNode>, k: nat)
    requires k < |order| && BestHere(g, order, k)
    ensures Greedy(g, order[..k]) == Greedy(g, order[..k + 1])
  {
    GreedyStep(g, order[..k], order[k]);
    assert order[..k] + [order[k]] == order[..k + 1];
  }

  /** It is the only order that does. */
  lemma {:induction false} BestIsUnique(g: Graph, order: seq<GraphNode>, k: nat)
    requires k <= |order| && EmitsBest(g, order, k)
    ensures Greedy(g, order[..k]) == order
    decreases |order| - k
  {
    if k == |order| {
      assert order[..k] == order;
    } else {
      GreedyAt(g, order, k);
      BestIsUnique(g, order, k + 1);
    }
  }

  /** So the order depends only on which nodes and edges there are, not on how lists and maps happen to be ordered. */
  lemma {:induction false} OrderDependsOnEdgesOnly(g: Graph, h: Graph)
    requires Elements(g.nodes) == Elements(h.nodes) && forall u, v :: g.Edge(u, v) == h.Edge(u, v)
    ensures Greedy(g, []) == Greedy(h, [])
  {
    GreedyEmitsBest(g, []);
    var order := Greedy(g, []);
    forall done: set<GraphNode> ensures g.Ready(done) == h.Ready(done) {
      SameReady(g, h, done);
    }
    forall i | 0 <= i < |order| ensures BestHere(h, order, i) {
      assert BestHere(g, order, i);
    }
    BestIsUnique(h, order, 0);
    assert order[..0] == [];
  }

  lemma {:induction false} SameReady(g: Graph, h: Graph, done: set<GraphNode>)
    requires Elements(g.nodes) == Elements(h.nodes) && forall u, v :: g.Edge(u, v) == h.Edge(u, v)
    ensures g.Ready(done) == h.Ready(done)
  {
    forall n ensures n in g.nodes <==> n in h.nodes {
      assert n in Elements(g.nodes) <==> n in Elements(h.nodes);
    }
  }
}
