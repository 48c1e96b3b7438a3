/** Preload dependencies of a legacy package: the flat table, the four lists of each export, and the load graph. */
module PreloadDependencies {
  import opened Package
  import opened LoadOrder
  import opened ExportBundles
  import opened ArcMeaning

  /** `FObjectExport`, as far as references and dependencies go. */
  datatype ObjectExport = ObjectExport(
    objectName: string,
    classIndex: PackageIndex,
    superIndex: PackageIndex,
    templateIndex: PackageIndex,
    outerIndex: PackageIndex,
    firstDependency: int,
    serializeBeforeSerialize: int,
    createBeforeSerialize: int,
    serializeBeforeCreate: int,
    createBeforeCreate: int)
  {
    // Where each list starts in the flat table.
    function CreateBeforeSerializeStart(): int { firstDependency + serializeBeforeSerialize }
    function SerializeBeforeCreateStart(): int { CreateBeforeSerializeStart() + createBeforeSerialize }
    function CreateBeforeCreateStart(): int { SerializeBeforeCreateStart() + serializeBeforeCreate }

    /** Every table entry that the export's lists name exists. */
    predicate InTable(table: seq<PackageIndex>) {
      firstDependency == -1 || (
        && SliceExists(table, firstDependency, serializeBeforeSerialize)
        && SliceExists(table, CreateBeforeSerializeStart(), createBeforeSerialize)
        && SliceExists(table, SerializeBeforeCreateStart(), serializeBeforeCreate)
        && SliceExists(table, CreateBeforeCreateStart(), createBeforeCreate))
    }

    /** The four lists as the flat table holds them. */
    function Lists(table: seq<PackageIndex>): ExportDependencies
      requires InTable(table)
    {
      if firstDependency == -1 then NO_DEPENDENCIES
      else ExportDependencies(
        Slice(table, firstDependency, serializeBeforeSerialize),
        Slice(table, CreateBeforeSerializeStart(), createBeforeSerialize),
        Slice(table, SerializeBeforeCreateStart(), serializeBeforeCreate),
        Slice(table, CreateBeforeCreateStart(), createBeforeCreate))
    }
  }

  /** A loop from 0 to a negative count runs not at all. */
  predicate SliceExists(table: seq<PackageIndex>, start: int, count: int) {
    count <= 0 || (0 <= start && start + count <= |table|)
  }

  function Slice(table: seq<PackageIndex>, start: int, count: int): seq<PackageIndex>
    requires SliceExists(table, start, count)
  {
    if count <= 0 then [] else table[start..start + count]
  }

  /** A list of objects as dependencies on one of their commands. */
  function WithCommand(list: seq<PackageIndex>, command: Command): (r: seq<DepNode>)
    ensures |r| == |list| && forall i :: 0 <= i < |list| ==> r[i] == DepNode(list[i], command)
  {
    seq(|list|, i requires 0 <= i < |list| => DepNode(list[i], command))
  }

  /** What a command of export `e` waits for: its lists, and for Serialize first its own Create. */
  function CommandDependencies(lists: ExportDependencies, e: nat, command: Command): seq<DepNode> {
    match command
    case Create =>
      WithCommand(lists.createBeforeCreate, Create) + WithCommand(lists.serializeBeforeCreate, Serialize)
    case Serialize =>
      [DepNode(Export(e), Create)] + WithCommand(lists.createBeforeSerialize, Create)
        + WithCommand(lists.serializeBeforeSerialize, Serialize)
  }

  /** A command waits for what the list for it and the other command names, and Serialize for Create. */
  lemma {:induction false} MemberOfDependencies(lists: ExportDependencies, e: nat, u: DepNode, command: Command)
    ensures u in CommandDependencies(lists, e, command) <==>
            u.target in lists.List(u.command, command) || (command.Serialize? && u == DepNode(Export(e), Create))
  {
    var list := WithCommand(lists.List(u.command, command), u.command);
    assert u in list <==> u.target in lists.List(u.command, command) by {
      if u.target in lists.List(u.command, command) {
        var i :| 0 <= i < |list| && lists.List(u.command, command)[i] == u.target;
        assert list[i] == u;
      }
    }
    match (u.command, command) {
      case (Create, Create) =>
      case (Serialize, Create) =>
      case (Create, Serialize) =>
      case (Serialize, Serialize) =>
    }
  }

  /** Exports named in lists exist. */
  ghost predicate WellFormed(exports: seq<ObjectExport>, table: seq<PackageIndex>) {
    && (forall e :: 0 <= e < |exports| ==> exports[e].InTable(table))
    && (forall e, from, to, x ::
        0 <= e < |exports| && x in exports[e].Lists(table).List(from, to) && x.Export? ==> x.exportIndex < |exports|)
  }

  /** The dependency map holds the dependencies of both commands of each of the first `n` exports. */
  ghost predicate DependencyMap(deps: Dependencies, exports: seq<ObjectExport>, table: seq<PackageIndex>, n: nat)
    requires n <= |exports| && forall e :: 0 <= e < n ==> exports[e].InTable(table)
  {
    && (forall v :: v in deps <==> v.target.Export? && v.target.exportIndex < n)
    && (forall v ::
        v in deps ==>
        deps[v] == CommandDependencies(exports[v.target.exportIndex].Lists(table), v.target.exportIndex, v.command))
  }

  /** The nodes of the first `n` exports in export order, Create before Serialize. */
  function NodesOf(public: seq<bool>, n: nat): (r: seq<GraphNode>)
    requires n <= |public|
    ensures |r| == 2 * n
    ensures forall i ::
      0 <= i < |r| ==> r[i] == GraphNode(i / 2, if i % 2 == 0 then Create else Serialize, public[i / 2])
  {
    seq(2 * n, i requires 0 <= i < 2 * n => GraphNode(i / 2, if i % 2 == 0 then Create else Serialize, public[i / 2]))
  }

  lemma {:induction false} SliceStep(table: seq<PackageIndex>, start: int, i: nat, command: Command)
    requires 0 <= start && start + i < |table|
    ensures WithCommand(Slice(table, start, i + 1), command) ==
            WithCommand(Slice(table, start, i), command) + [DepNode(table[start + i], command)]
  {
    assert Slice(table, start, i + 1) == Slice(table, start, i) + [table[start + i]];
  }

  /** Appending a run of table entries as dependencies on one command. */
  method PushRange(table: seq<PackageIndex>, start: int, count: int, command: Command, before: seq<DepNode>)
    returns (after: seq<DepNode>)
    requires SliceExists(table, start, count)
    ensures after == before + WithCommand(Slice(table, start, count), command)
  {
    after := before;
    var i := 0;
    while i < count
      invariant 0 <= i && if 0 < count then i <= count else i == 0
      invariant after == before + WithCommand(Slice(table, start, i), command)
    {
      SliceStep(table, start, i, command);
      assert before + (WithCommand(Slice(table, start, i), command) + [DepNode(table[start + i], command)]) ==
             after + [DepNode(table[start + i], command)];
      after := after + [DepNode(table[start + i], command)];
      i := i + 1;
    }
  }

  /**
   * The four runs of an item lie behind each other in the table: what has to be serialized and what created before it
   * is serialized, then what has to be serialized and what created before it is created.
   */
  ghost predicate FromRuns(item: ObjectExport, e: nat, table: seq<PackageIndex>, create: seq<DepNode>,
                           serialize: seq<DepNode>)
  {
    var a := item.firstDependency;
    var b := a + item.serializeBeforeSerialize;
    var c := b + item.createBeforeSerialize;
    var d := c + item.serializeBeforeCreate;
    var end := d + item.createBeforeCreate;
    var own := [DepNode(Export(e), Create)];
    if a == -1 then create == [] && serialize == own
    else 0 <= a <= b <= c <= d <= end <= |table| ==>
      && create == WithCommand(table[d..end], Create) + WithCommand(table[c..d], Serialize)
      && serialize == own + WithCommand(table[b..c], Create) + WithCommand(table[a..b], Serialize)
  }

  /** Collecting the dependencies of the two commands of one item. */
  method CollectExport(item: ObjectExport, e: nat, table: seq<PackageIndex>)
    returns (create: seq<DepNode>, serialize: seq<DepNode>)
    requires item.InTable(table)
    ensures create == CommandDependencies(item.Lists(table), e, Create)
    ensures serialize == CommandDependencies(item.Lists(table), e, Serialize)
  {
    create, serialize := [], [DepNode(Export(e), Create)];
    if item.firstDependency != -1 {
      create := PushRange(table, item.CreateBeforeCreateStart(), item.createBeforeCreate, Create, create);
      create := PushRange(table, item.SerializeBeforeCreateStart(), item.serializeBeforeCreate, Serialize, create);
      serialize := PushRange(table, item.CreateBeforeSerializeStart(), item.createBeforeSerialize, Create, serialize);
      serialize := PushRange(table, item.firstDependency, item.serializeBeforeSerialize, Serialize, serialize);
    }
  }

  /** In a dependency map the two commands of an export wait for what the runs of the table name. */
  lemma {:induction false} MapHoldsRuns(deps: Dependencies, exports: seq<ObjectExport>, table: seq<PackageIndex>,
                                        e: nat)
    requires WellFormed(exports, table) && DependencyMap(deps, exports, table, |exports|) && e < |exports|
    ensures var create, serialize := DepNode(Export(e), Create), DepNode(Export(e), Serialize);
      create in deps && serialize in deps && FromRuns(exports[e], e, table, deps[create], deps[serialize])
  {
    var item := exports[e];
    var a, b, c := item.firstDependency, item.CreateBeforeSerializeStart(), item.SerializeBeforeCreateStart();
    var d := item.CreateBeforeCreateStart();
    var end := d + item.createBeforeCreate;
    if 0 <= a <= b <= c <= d <= end <= |table| {
      ItemRuns(item, table, b, c, d, end);
    }
  }

  lemma {:induction false} ItemRuns(item: ObjectExport, table: seq<PackageIndex>, b: int, c: int, d: int, end: int)
    requires item.InTable(table) && 0 <= item.firstDependency <= b <= c <= d <= end <= |table|
    requires b == item.CreateBeforeSerializeStart() && c == item.SerializeBeforeCreateStart()
    requires d == item.CreateBeforeCreateStart() && end == d + item.createBeforeCreate
    ensures item.Lists(table)
      == ExportDependencies(table[item.firstDependency..b], table[b..c], table[c..d], table[d..end])
  {
  }

  /** First loop of `build_zen_preload_dependencies`: dependencies and graph nodes, export by item. */
  method CollectDependencies(exports: seq<ObjectExport>, table: seq<PackageIndex>, public: seq<bool>)
    returns (deps: Dependencies, nodes: seq<GraphNode>)
    requires WellFormed(exports, table) && |public| == |exports|
    ensures DependencyMap(deps, exports, table, |exports|)
    ensures nodes == NodesOf(public, |exports|)
  {
    deps, nodes := map[], [];
    for e := 0 to |exports|
      invariant DependencyMap(deps, exports, table, e)
      invariant nodes == NodesOf(public, e)
    {
      var create, serialize := CollectExport(exports[e], e, table);
      nodes := nodes + [GraphNode(e, Create, public[e])] + [GraphNode(e, Serialize, public[e])];
      deps := deps[DepNode(Export(e), Create) := create][DepNode(Export(e), Serialize) := serialize];
      forall v: DepNode | v.target == Export(e)
        ensures v == DepNode(Export(e), Create) || v == DepNode(Export(e), Serialize) {
        match v.command {
          case Create =>
          case Serialize =>
        }
      }
    }
  }

  function WithFlag(u: DepNode, public: seq<bool>): GraphNode
    requires u.target.Export? && u.target.exportIndex < |public|
  {
    GraphNode(u.target.exportIndex, u.command, public[u.target.exportIndex])
  }

  ghost predicate EdgeIn(dependants: map<GraphNode, seq<GraphNode>>, u: GraphNode, v: GraphNode) {
    u in dependants && v in dependants[u]
  }

  /** `u`, carrying the flag of its export, is a dependency of `v`. */
  ghost predicate DependsOn(deps: Dependencies, public: seq<bool>, u: GraphNode, v: GraphNode) {
    && u.exportIndex < |public| && u.isPublic == public[u.exportIndex]
    && NodeOf(u) in DependenciesOf(deps, NodeOf(v))
  }

  /** `dependants` is the reverse of the dependencies of `nodes`. */
  ghost predicate Reversed(dependants: map<GraphNode, seq<GraphNode>>, deps: Dependencies, public: seq<bool>,
                           nodes: seq<GraphNode>)
  {
    && (forall u, v :: EdgeIn(dependants, u, v) <==> v in nodes && DependsOn(deps, public, u, v))
    && (forall u :: u in dependants ==> dependants[u] != [])
  }

  ghost predicate TargetsExist(deps: Dependencies, public: seq<bool>) {
    forall v, u :: v in deps && u in deps[v] && u.target.Export? ==> u.target.exportIndex < |public|
  }

  /** Second loop of `build_zen_preload_dependencies`: from each export command to the commands waiting for it. */
  method ReverseDependencies(deps: Dependencies, nodes: seq<GraphNode>, public: seq<bool>)
    returns (dependants: map<GraphNode, seq<GraphNode>>)
    requires TargetsExist(deps, public)
    ensures Reversed(dependants, deps, public, nodes)
  {
    dependants := map[];
    for i := 0 to |nodes|
      invariant Reversed(dependants, deps, public, nodes[..i])
    {
      dependants := ReverseOne(deps, nodes[i], nodes[..i], public, dependants);
      assert nodes[..i + 1] == nodes[..i] + [nodes[i]];
    }
    assert nodes[..|nodes|] == nodes;
  }

  method ReverseOne(deps: Dependencies, v: GraphNode, ghost before: seq<GraphNode>, public: seq<bool>,
                    dependants: map<GraphNode, seq<GraphNode>>)
    returns (next: map<GraphNode, seq<GraphNode>>)
    requires TargetsExist(deps, public) && Reversed(dependants, deps, public, before)
    ensures Reversed(next, deps, public, before + [v])
  {
    next := dependants;
    var all := DependenciesOf(deps, NodeOf(v));
    for k := 0 to |all|
      invariant forall u :: u in next ==> next[u] != []
      invariant forall u, w ::
        EdgeIn(next, u, w) <==> EdgeIn(dependants, u, w) || (w == v && FlaggedIn(u, public, all[..k]))
    {
      assert all[..k + 1] == all[..k] + [all[k]];
      if all[k].target.Export? {
        assert NodeOf(v) in deps && all[k] in deps[NodeOf(v)];
        next := AddDependant(next, WithFlag(all[k], public), v);
      }
    }
    assert all[..|all|] == all;
  }

  ghost predicate FlaggedIn(u: GraphNode, public: seq<bool>, list: seq<DepNode>) {
    u.exportIndex < |public| && u.isPublic == public[u.exportIndex] && NodeOf(u) in list
  }

  method AddDependant(dependants: map<GraphNode, seq<GraphNode>>, u: GraphNode, v: GraphNode)
    returns (next: map<GraphNode, seq<GraphNode>>)
    requires forall x :: x in dependants ==> dependants[x] != []
    ensures forall x :: x in next ==> next[x] != []
    ensures forall x, w :: EdgeIn(next, x, w) <==> EdgeIn(dependants, x, w) || (x == u && w == v)
  {
    next := dependants[u := (if u in dependants then dependants[u] else []) + [v]];
  }

  // ---- The load order of a package ----

  /** A round of commands each of which is a dependency of the next. */
  ghost predicate Round(deps: Dependencies, p: seq<DepNode>) {
    && |p| >= 2 && p[0] == p[|p| - 1]
    && forall i, j :: 0 <= i < j < |p| && j == i + 1 ==> p[i] in DependenciesOf(deps, p[j])
  }

  ghost predicate Circular(deps: Dependencies) {
    exists p :: Round(deps, p)
  }

  /** The graph that is sorted: all commands, and the reverse of their dependencies on each other. */
  ghost predicate LoadGraph(g: Graph, deps: Dependencies, public: seq<bool>) {
    && g.nodes == NodesOf(public, |public|)
    && Reversed(g.dependants, deps, public, g.nodes)
    && (forall v :: v in deps <==> v.target.Export? && v.target.exportIndex < |public|)
    && TargetsExist(deps, public)
  }

  lemma {:induction false} NodesOfExact(public: seq<bool>, n: nat, g: GraphNode)
    requires n <= |public|
    ensures g in NodesOf(public, n) <==> g.exportIndex < n && g.isPublic == public[g.exportIndex]
  {
    var nodes := NodesOf(public, n);
    if g.exportIndex < n && g.isPublic == public[g.exportIndex] {
      var i := 2 * g.exportIndex + if g.command.Create? then 0 else 1;
      assert i / 2 == g.exportIndex;
      match g.command {
        case Create => assert nodes[i] == g;
        case Serialize => assert nodes[i] == g;
      }
    }
  }

  lemma {:induction false} NodesOfDistinct(public: seq<bool>, n: nat)
    requires n <= |public|
    ensures Distinct(NodesOf(public, n))
  {
    var nodes := NodesOf(public, n);
    forall i, j | 0 <= i < j < |nodes| ensures nodes[i] != nodes[j] {
      if i / 2 == j / 2 {
        assert i % 2 == 0 && j % 2 == 1;
      }
    }
  }

  lemma {:induction false} LoadGraphValid(g: Graph, deps: Dependencies, public: seq<bool>)
    requires LoadGraph(g, deps, public)
    ensures g.Valid()
  {
    NodesOfDistinct(public, |public|);
    forall u, v | u in g.dependants && v in g.dependants[u] ensures v in g.nodes && u in g.nodes {
      assert EdgeIn(g.dependants, u, v);
      NodesOfExact(public, |public|, u);
    }
    forall u | u in g.dependants ensures u in g.nodes {
      assert EdgeIn(g.dependants, u, g.dependants[u][0]);
      NodesOfExact(public, |public|, u);
    }
  }

  /** The graph has a cycle exactly when the dependencies go round in a circle. */
  lemma {:induction false} CycleIffCircular(g: Graph, deps: Dependencies, public: seq<bool>)
    requires LoadGraph(g, deps, public)
    ensures g.Acyclic() <==> !Circular(deps)
  {
    if p :| g.Cycle(p) {
      CycleGivesRound(g, deps, public, p);
    }
    if p :| Round(deps, p) {
      RoundGivesCycle(g, deps, public, p);
    }
  }

  lemma {:induction false} CycleGivesRound(g: Graph, deps: Dependencies, public: seq<bool>, p: seq<GraphNode>)
    requires LoadGraph(g, deps, public) && g.Cycle(p)
    ensures Circular(deps)
  {
    var q := seq(|p|, i requires 0 <= i < |p| => NodeOf(p[i]));
    forall i, j | 0 <= i < j < |q| && j == i + 1 ensures q[i] in DependenciesOf(deps, q[j]) {
      assert g.Edge(p[i], p[j]) && EdgeIn(g.dependants, p[i], p[j]);
    }
    assert Round(deps, q);
  }

  lemma {:induction false} RoundGivesCycle(g: Graph, deps: Dependencies, public: seq<bool>, p: seq<DepNode>)
    requires LoadGraph(g, deps, public) && Round(deps, p)
    ensures !g.Acyclic()
  {
    forall i | 0 <= i < |p| ensures p[i] in deps {
      if i == 0 {
        assert p[|p| - 2] in DependenciesOf(deps, p[|p| - 1]);
      } else {
        assert p[i - 1] in DependenciesOf(deps, p[i]);
      }
    }
    var q := seq(|p|, i requires 0 <= i < |p| => WithFlag(p[i], public));
    assert g.Path(q) by {
      forall i, j | 0 <= i < j < |q| && j == i + 1 ensures g.Edge(q[i], q[j]) {
        assert NodeOf(q[i]) == p[i] && NodeOf(q[j]) == p[j];
        assert DependsOn(deps, public, q[i], q[j]);
        NodesOfExact(public, |public|, q[j]);
        assert EdgeIn(g.dependants, q[i], q[j]);
      }
    }
    assert g.Cycle(q);
  }

  lemma {:induction false} DependencyIsEarlier(g: Graph, deps: Dependencies, public: seq<bool>, order: seq<GraphNode>,
                                               j: nat, u: DepNode)
    requires LoadGraph(g, deps, public) && Partial(g, order)
    requires j < |order| && u in DependenciesOf(deps, NodeOf(order[j])) && u.target.Export?
    ensures u in EntriesOf(order, |order|)[..j]
  {
    var v := order[j];
    assert v in order && v in g.nodes;
    assert NodeOf(v) in deps && u in deps[NodeOf(v)];
    var n := WithFlag(u, public);
    assert NodeOf(n) == u;
    assert DependsOn(deps, public, n, v);
    assert EdgeIn(g.dependants, n, v) && g.Edge(n, order[j]);
    var i :| 0 <= i < j && order[..j][i] == n;
    assert EntriesOf(order, |order|)[..j][i] == u;
  }

  lemma {:induction false} AllCommandsInOrder(public: seq<bool>, order: seq<GraphNode>, e: nat, c: Command)
    requires Elements(order) == Elements(NodesOf(public, |public|)) && e < |public|
    ensures DepNode(Export(e), c) in EntriesOf(order, |order|)
  {
    var n := GraphNode(e, c, public[e]);
    NodesOfExact(public, |public|, n);
    assert n in Elements(order);
    var i :| 0 <= i < |order| && order[i] == n;
    assert EntriesOf(order, |order|)[i] == DepNode(Export(e), c);
  }

  /** A complete sort of the load graph respects every dependency. */
  lemma {:induction false} SortedIsOrdered(g: Graph, deps: Dependencies, public: seq<bool>, order: seq<GraphNode>)
    requires LoadGraph(g, deps, public) && Partial(g, order) && Elements(order) == Elements(g.nodes)
    requires forall e ::
      0 <= e < |public| ==> DepNode(Export(e), Create) in DependenciesOf(deps, DepNode(Export(e), Serialize))
    ensures Ordered(order, public, |public|, deps)
  {
    forall n | n in order ensures n.exportIndex < |public| && n.isPublic == public[n.exportIndex] {
      NodesOfExact(public, |public|, n);
      assert n in g.nodes;
    }
    forall e, c | 0 <= e < |public| ensures DepNode(Export(e), c) in EntriesOf(order, |order|) {
      AllCommandsInOrder(public, order, e, c);
    }
    forall j, u | 0 <= j < |order| && u in DependenciesOf(deps, NodeOf(order[j])) && u.target.Export?
      ensures u in EntriesOf(order, |order|)[..j]
    {
      DependencyIsEarlier(g, deps, public, order, j, u);
    }
  }

  /** The load order that the sort makes of the dependencies. */
  ghost predicate IsLoadOrder(order: seq<GraphNode>, deps: Dependencies, public: seq<bool>) {
    exists g :: LoadGraph(g, deps, public) && order == Greedy(g, [])
  }

  /**
   * `build_zen_preload_dependencies` up to the sort. It succeeds exactly when no command depends on itself through
   * other commands, and then every command comes after everything it depends on.
   */
  method BuildLoadOrder(exports: seq<ObjectExport>, table: seq<PackageIndex>, public: seq<bool>)
    returns (deps: Dependencies, r: Result<seq<GraphNode>>)
    requires WellFormed(exports, table) && |public| == |exports|
    ensures DependencyMap(deps, exports, table, |exports|)
    ensures r.Success? <==> !Circular(deps)
    ensures r.Success? ==> Ordered(r.value, public, |exports|, deps) && IsLoadOrder(r.value, deps, public)
  {
    var nodes;
    deps, nodes := CollectDependencies(exports, table, public);
    DependenciesExist(deps, exports, table, public);
    var dependants := ReverseDependencies(deps, nodes, public);
    var g := Graph(nodes, dependants);
    LoadGraphValid(g, deps, public);
    CycleIffCircular(g, deps, public);
    r := SortInLoadOrder(g);
    if r.Success? {
      SortedIsOrdered(g, deps, public, r.value);
    }
  }

  lemma {:induction false} DependenciesExist(deps: Dependencies, exports: seq<ObjectExport>, table: seq<PackageIndex>,
                                             public: seq<bool>)
    requires WellFormed(exports, table) && |public| == |exports| && DependencyMap(deps, exports, table, |exports|)
    ensures TargetsExist(deps, public)
    ensures forall e ::
      0 <= e < |exports| ==> DepNode(Export(e), Create) in DependenciesOf(deps, DepNode(Export(e), Serialize))
  {
    forall v, u | v in deps && u in deps[v] && u.target.Export? ensures u.target.exportIndex < |public| {
      MemberOfDependencies(exports[v.target.exportIndex].Lists(table), v.target.exportIndex, u, v.command);
    }
    forall e | 0 <= e < |exports|
      ensures DepNode(Export(e), Create) in DependenciesOf(deps, DepNode(Export(e), Serialize)) {
      var all := deps[DepNode(Export(e), Serialize)];
      assert all[0] == DepNode(Export(e), Create);
    }
  }
}
