/** Entities of a package that several conversions share. */
module Package {

  /** `FPackageIndex`: zero is null, negative values index the import map, positive ones the export map. */
  datatype PackageIndex = Null | Import(importIndex: nat) | Export(exportIndex: nat)

  /** `EExportCommandType`. */
  datatype Command = Create | Serialize

  /** `ZenDependencyGraphNode`: an import or export together with one of its two load commands. */
  datatype DepNode = DepNode(target: PackageIndex, command: Command)

  /** `FStandaloneExportDependencies`: what one export waits for, by the command waited for and the waiting command. */
  datatype ExportDependencies = ExportDependencies(
    serializeBeforeSerialize: seq<PackageIndex>,
    createBeforeSerialize: seq<PackageIndex>,
    serializeBeforeCreate: seq<PackageIndex>,
    createBeforeCreate: seq<PackageIndex>)
  {
    function List(from: Command, to: Command): seq<PackageIndex> {
      match (from, to)
      case (Create, Create) => createBeforeCreate
      case (Serialize, Create) => serializeBeforeCreate
      case (Create, Serialize) => createBeforeSerialize
      case (Serialize, Serialize) => serializeBeforeSerialize
    }

    function Count(): nat {
      |serializeBeforeSerialize| + |createBeforeSerialize| + |serializeBeforeCreate| + |createBeforeCreate|
    }
  }

  const NO_DEPENDENCIES := ExportDependencies([], [], [], [])

  /** `v` names `u` in one of its dependency lists. */
  ghost predicate Listed(all: seq<ExportDependencies>, u: DepNode, v: DepNode) {
    && v.target.Export? && v.target.exportIndex < |all|
    && u.target in all[v.target.exportIndex].List(u.command, v.command)
  }

  /** `v` waits for `u`: it lists it, or the two are the Create and Serialize of one export. */
  ghost predicate WaitsOn(all: seq<ExportDependencies>, u: DepNode, v: DepNode) {
    || Listed(all, u, v)
    || (v.target.Export? && v.target.exportIndex < |all| && v.command.Serialize? && u == DepNode(v.target, Create))
  }

  /** A chain of waiting commands from `p[0]` to the last element. */
  ghost predicate Chain(all: seq<ExportDependencies>, p: seq<DepNode>) {
    forall i, j :: 0 <= i < j < |p| && j == i + 1 ==> WaitsOn(all, p[i], p[j])
  }

  ghost predicate ChainBetween(all: seq<ExportDependencies>, p: seq<DepNode>, u: DepNode, v: DepNode) {
    |p| >= 2 && p[0] == u && p[|p| - 1] == v && Chain(all, p)
  }

  /** `u` is loaded before `v` because a chain of one or more waiting commands says so. */
  ghost predicate Forces(all: seq<ExportDependencies>, u: DepNode, v: DepNode) {
    exists p :: ChainBetween(all, p, u, v)
  }

  lemma {:induction false} ForcesTransitive(all: seq<ExportDependencies>, u: DepNode, v: DepNode, w: DepNode)
    requires Forces(all, u, v) && Forces(all, v, w)
    ensures Forces(all, u, w)
  {
    var p :| ChainBetween(all, p, u, v);
    var q :| ChainBetween(all, q, v, w);
    var r := p + q[1..];
    assert Chain(all, r) by {
      forall i, j | 0 <= i < j < |r| && j == i + 1 ensures WaitsOn(all, r[i], r[j]) {
        if i >= |p| - 1 {
          assert r[i] == q[i - |p| + 1] && r[j] == q[j - |p| + 1];
        }
      }
    }
    assert ChainBetween(all, r, u, w);
  }

  lemma {:induction false} ForcesStep(all: seq<ExportDependencies>, u: DepNode, v: DepNode)
    requires WaitsOn(all, u, v)
    ensures Forces(all, u, v)
  {
    assert ChainBetween(all, [u, v], u, v);
  }

  datatype Result<+T> = Success(value: T) | Failure(error: string)

  datatype Option<+T> = None | Some(value: T)

  ghost predicate Distinct<T(!new)>(s: seq<T>) {
    forall i, j :: 0 <= i < j < |s| ==> s[i] != s[j]
  }

  /** Distinct things that all occur in a list are no more than the list is long. */
  lemma {:induction false} DistinctFits<T(!new)>(s: seq<T>, list: seq<T>)
    requires Distinct(s) && forall x :: x in s ==> x in list
    ensures |s| <= |list|
  {
    if s != [] {
      var front, last := s[..|s| - 1], s[|s| - 1];
      assert last in s;
      var k :| 0 <= k < |list| && list[k] == last;
      forall x | x in front ensures x in list[..k] + list[k + 1..] {
        assert x in list && x != last;
      }
      DistinctFits(front, list[..k] + list[k + 1..]);
    }
  }

  ghost function Elements<T>(s: seq<T>): set<T> {
    set x | x in s
  }

  /** Pigeonhole: more positions than values means a value occurs twice. */
  lemma {:induction false} Pigeonhole<T(!new)>(s: seq<T>, values: set<T>)
    requires forall x :: x in s ==> x in values
    requires |s| > |values|
    ensures exists i, j :: 0 <= i < j < |s| && s[i] == s[j]
  {
    var last := s[|s| - 1];
    var front := s[..|s| - 1];
    if last in front {
      var i :| 0 <= i < |front| && front[i] == last;
      assert s[i] == s[|s| - 1];
    } else {
      forall x | x in front ensures x in values - {last} {
        assert x in s;
      }
      assert last in s;
      Pigeonhole(front, values - {last});
      var i, j :| 0 <= i < j < |front| && front[i] == front[j];
      assert s[i] == s[j];
    }
  }

  /** A sequence without repetition is as long as its element set is large. */
  lemma {:induction false} DistinctLength<T(!new)>(s: seq<T>)
    requires Distinct(s)
    ensures |s| == |Elements(s)|
  {
    if s != [] {
      var front, last := s[..|s| - 1], s[|s| - 1];
      DistinctLength(front);
      assert last !in front;
      assert Elements(s) == Elements(front) + {last};
    } else {
      assert Elements(s) == {};
    }
  }

  /** A subset of the same size is the whole set. */
  lemma {:induction false} SubsetSize<T>(part: set<T>, whole: set<T>)
    requires part <= whole
    ensures |part| <= |whole|
    ensures |part| == |whole| <==> part == whole
  {
    var rest := whole - part;
    assert whole == part + rest;
    assert |whole| == |part| + |rest|;
  }
}
