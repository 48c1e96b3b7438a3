/** The tree that the flat arrays of a directory index stand for. */
module DirectoryTree {
  import opened Package

  type Path = seq<string>

  ghost function Front(p: Path): Path
    requires p != []
  {
    p[..|p| - 1]
  }

  ghost function Last(p: Path): string
    requires p != []
  {
    p[|p| - 1]
  }

  ghost predicate Differ<T>(s: seq<T>, i: nat, j: nat)
    requires i < |s| && j < |s|
  {
    s[i] != s[j]
  }

  /** `Distinct`, to be used one pair at a time. */
  ghost predicate Unique<T>(s: seq<T>) {
    forall i: nat, j: nat :: i < j < |s| ==> Differ(s, i, j)
  }

  lemma {:induction false} SamePlace<T>(s: seq<T>, i: nat, j: nat)
    requires Unique(s) && i < |s| && j < |s| && s[i] == s[j]
    ensures i == j
  {
    assert i < j ==> Differ(s, i, j);
    assert j < i ==> Differ(s, j, i);
  }

  lemma {:induction false} UniqueAppend<T>(s: seq<T>, x: T)
    requires Unique(s) && x !in s
    ensures Unique(s + [x])
  {
    forall i: nat, j: nat | i < j < |s + [x]| ensures Differ(s + [x], i, j) {
      if j < |s| {
        assert Differ(s, i, j);
      } else {
        assert s[i] in s;
      }
    }
  }

  /** For each directory its subdirectories and files in order, and the path of every directory and file. */
  datatype Tree = Tree(kids: seq<seq<nat>>, held: seq<seq<nat>>, dirPath: seq<Path>, filePath: seq<Path>) {
    ghost predicate Sized() {
      && |kids| == |held| == |dirPath|
      && (kids == [] ==> filePath == [])
      && (kids != [] ==> dirPath[0] == [])
    }

    /** Subdirectories come after their directory and after their elder siblings, and their paths extend its path. */
    ghost predicate KidsFit(d: nat)
      requires Sized() && d < |kids|
    {
      && (forall j :: 0 <= j < |kids[d]| ==>
            d < kids[d][j] < |kids| && dirPath[kids[d][j]] != [] && Front(dirPath[kids[d][j]]) == dirPath[d])
      && (forall i, j :: 0 <= i < j < |kids[d]| ==> kids[d][i] < kids[d][j])
    }

    ghost predicate FilesFit(d: nat)
      requires Sized() && d < |kids|
    {
      && (forall j :: 0 <= j < |held[d]| ==>
            held[d][j] < |filePath| && filePath[held[d][j]] != [] && Front(filePath[held[d][j]]) == dirPath[d])
      && (forall i, j :: 0 <= i < j < |held[d]| ==> held[d][i] < held[d][j])
    }

    ghost predicate HasParent(c: nat) {
      exists d :: 0 <= d < |kids| && c in kids[d]
    }

    ghost predicate HasHolder(f: nat) {
      exists d :: 0 <= d < |held| && f in held[d]
    }

    /** A tree of distinct paths: one parent for every directory but the root, one holder for every file. */
    ghost predicate Valid() {
      && Sized()
      && (forall d :: 0 <= d < |kids| ==> KidsFit(d) && FilesFit(d))
      && (forall c :: 0 < c < |kids| ==> HasParent(c))
      && (forall f :: 0 <= f < |filePath| ==> HasHolder(f))
      && Unique(dirPath) && Unique(filePath)
    }

    // ---- Order of a visit ----

    /** Files in the order of a visit that starts at a directory: its own files, then each subdirectory. */
    ghost function VisitOrder(d: nat): seq<nat>
      requires Valid() && d < |kids|
      decreases |kids| - d, |kids[d]| + 1
    {
      held[d] + VisitKids(d, |kids[d]|)
    }

    ghost function VisitKids(d: nat, j: nat): seq<nat>
      requires Valid() && d < |kids| && j <= |kids[d]|
      decreases |kids| - d, j
    {
      if j == 0 then []
      else
        assert KidsFit(d);
        VisitKids(d, j - 1) + VisitOrder(kids[d][j - 1])
    }

    /** The file lies in the directory or below it. */
    ghost predicate Below(d: nat, f: nat)
      requires d < |dirPath|
    {
      f < |filePath| && filePath[f] != [] && dirPath[d] <= Front(filePath[f])
    }

    /** A visit sees only what lies below where it starts. */
    lemma {:induction false} VisitedIsBelow(d: nat, f: nat)
      requires Valid() && d < |kids| && f in VisitOrder(d)
      ensures Below(d, f)
      decreases |kids| - d, |kids[d]| + 1
    {
      assert FilesFit(d);
      if f in held[d] {
        var j :| 0 <= j < |held[d]| && held[d][j] == f;
      } else {
        var j := KidVisited(d, |kids[d]|, f);
      }
    }

    /** The subdirectory whose visit sees a file. */
    lemma {:induction false} KidVisited(d: nat, n: nat, f: nat) returns (j: nat)
      requires Valid() && d < |kids| && n <= |kids[d]| && f in VisitKids(d, n)
      ensures j < n && d < kids[d][j] < |kids| && f in VisitOrder(kids[d][j])
      ensures Below(kids[d][j], f) && dirPath[d] <= dirPath[kids[d][j]] && Below(d, f)
      decreases |kids| - d, n
    {
      assert KidsFit(d);
      if f in VisitOrder(kids[d][n - 1]) {
        j := n - 1;
        VisitedIsBelow(kids[d][j], f);
        PrefixTransitive(dirPath[d], dirPath[kids[d][j]], Front(filePath[f]));
      } else {
        j := KidVisited(d, n - 1, f);
      }
    }

    /** The subdirectory on the way from a directory down to another. */
    lemma {:induction false} KidToward(d: nat, o: nat) returns (j: nat)
      requires Valid() && d < |kids| && o < |kids| && dirPath[d] <= dirPath[o] && d != o
      ensures KidsFit(d) && j < |kids[d]| && dirPath[kids[d][j]] <= dirPath[o]
      decreases o
    {
      assert KidsFit(d);
      if o == 0 {
        SamePlace(dirPath, d, 0);
        assert false;
      } else {
        assert HasParent(o);
        var p :| 0 <= p < |kids| && o in kids[p];
        assert KidsFit(p);
        var k :| 0 <= k < |kids[p]| && kids[p][k] == o;
        if p == d {
          assert dirPath[d] == Front(dirPath[o]);
          j := k;
        } else {
          if dirPath[d] == dirPath[o] {
            SamePlace(dirPath, d, o);
          }
          PrefixOfFront(dirPath[d], dirPath[o]);
          j := KidToward(d, p);
          PrefixTransitive(dirPath[kids[d][j]], dirPath[p], dirPath[o]);
        }
      }
    }

    lemma {:induction false} VisitsKid(d: nat, n: nat, j: nat, f: nat)
      requires Valid() && d < |kids| && j < n <= |kids[d]| && KidsFit(d) && f in VisitOrder(kids[d][j])
      ensures f in VisitKids(d, n)
      decreases n
    {
      if j < n - 1 {
        VisitsKid(d, n - 1, j, f);
      }
    }

    /** A visit sees everything below where it starts. */
    lemma {:induction false} BelowIsVisited(d: nat, f: nat)
      requires Valid() && d < |kids| && Below(d, f)
      ensures f in VisitOrder(d)
      decreases |kids| - d
    {
      assert HasHolder(f);
      var o :| 0 <= o < |held| && f in held[o];
      assert FilesFit(o);
      var k :| 0 <= k < |held[o]| && held[o][k] == f;
      if o != d {
        var j := KidToward(d, o);
        BelowIsVisited(kids[d][j], f);
        VisitsKid(d, |kids[d]|, j, f);
      }
    }

    /** No file is seen twice. */
    lemma {:induction false} VisitDistinct(d: nat)
      requires Valid() && d < |kids|
      ensures Distinct(VisitOrder(d))
      decreases |kids| - d, |kids[d]| + 1
    {
      VisitKidsDistinct(d, |kids[d]|);
      assert FilesFit(d);
      forall f | f in held[d] ensures f !in VisitKids(d, |kids[d]|) {
        var k :| 0 <= k < |held[d]| && held[d][k] == f;
        if f in VisitKids(d, |kids[d]|) {
          var j := KidVisited(d, |kids[d]|, f);
          KidLonger(d, j);
        }
      }
      DistinctConcat(held[d], VisitKids(d, |kids[d]|));
    }

    lemma {:induction false} KidLonger(d: nat, j: nat)
      requires Valid() && d < |kids| && j < |kids[d]|
      ensures KidsFit(d) && |dirPath[kids[d][j]]| == |dirPath[d]| + 1
    {
      assert KidsFit(d);
    }

    lemma {:induction false} VisitKidsDistinct(d: nat, n: nat)
      requires Valid() && d < |kids| && n <= |kids[d]|
      ensures Distinct(VisitKids(d, n))
      decreases |kids| - d, n
    {
      if n > 0 {
        assert KidsFit(d);
        VisitKidsDistinct(d, n - 1);
        VisitDistinct(kids[d][n - 1]);
        var seen, next := VisitKids(d, n - 1), VisitOrder(kids[d][n - 1]);
        forall f | f in seen ensures f !in next {
          var j := KidVisited(d, n - 1, f);
          if f in next {
            VisitedIsBelow(kids[d][n - 1], f);
            KidLonger(d, j);
            KidLonger(d, n - 1);
            SameLengthPrefixes(dirPath[kids[d][j]], dirPath[kids[d][n - 1]], Front(filePath[f]));
            SamePlace(dirPath, kids[d][j], kids[d][n - 1]);
            assert false;
          }
        }
        DistinctConcat(seen, next);
      }
    }

    /** A visit from the root sees every file exactly once. */
    lemma {:induction false} VisitSeesAllOnce()
      requires Valid() && kids != []
      ensures Distinct(VisitOrder(0)) && forall f :: f in VisitOrder(0) <==> 0 <= f < |filePath|
    {
      VisitDistinct(0);
      forall f: nat | f < |filePath| ensures f in VisitOrder(0) {
        assert HasHolder(f);
        var o :| 0 <= o < |held| && f in held[o];
        assert FilesFit(o);
        var k :| 0 <= k < |held[o]| && held[o][k] == f;
        BelowIsVisited(0, f);
      }
      forall f | f in VisitOrder(0) ensures f < |filePath| {
        VisitedIsBelow(0, f);
      }
    }
  }

  // ---- Growing the tree ----

  /** The tree with a new last subdirectory of `parent`. */
  ghost function WithDir(t: Tree, parent: nat, name: string): Tree
    requires t.Sized() && parent < |t.kids|
  {
    Tree(t.kids[parent := t.kids[parent] + [|t.kids|]] + [[]], t.held + [[]], t.dirPath + [t.dirPath[parent] + [name]],
         t.filePath)
  }

  /** The tree with a new last file of `d`. */
  ghost function WithFile(t: Tree, d: nat, name: string): Tree
    requires t.Sized() && d < |t.kids|
  {
    Tree(t.kids, t.held[d := t.held[d] + [|t.filePath|]], t.dirPath, t.filePath + [t.dirPath[d] + [name]])
  }

  /** A directory with such a path is a subdirectory of `parent`. */
  lemma {:induction false} KidByPath(t: Tree, parent: nat, name: string, c: nat)
    requires t.Valid() && parent < |t.kids| && c < |t.kids| && t.dirPath[c] == t.dirPath[parent] + [name]
    ensures c in t.kids[parent]
  {
    assert t.HasParent(c);
    var d :| 0 <= d < |t.kids| && c in t.kids[d];
    assert t.KidsFit(d);
    var k :| 0 <= k < |t.kids[d]| && t.kids[d][k] == c;
    assert Front(t.dirPath[c]) == t.dirPath[parent];
    SamePlace(t.dirPath, d, parent);
  }

  lemma {:induction false} FileByPath(t: Tree, d: nat, name: string, f: nat)
    requires t.Valid() && d < |t.kids| && f < |t.filePath| && t.filePath[f] == t.dirPath[d] + [name]
    ensures f in t.held[d]
  {
    assert t.HasHolder(f);
    var o :| 0 <= o < |t.held| && f in t.held[o];
    assert t.FilesFit(o);
    var k :| 0 <= k < |t.held[o]| && t.held[o][k] == f;
    assert Front(t.filePath[f]) == t.dirPath[d];
    SamePlace(t.dirPath, o, d);
  }

  lemma {:induction false} WithDirKidsFit(t: Tree, parent: nat, name: string, d: nat)
    requires t.Valid() && parent < |t.kids| && d <= |t.kids|
    ensures WithDir(t, parent, name).Sized() && WithDir(t, parent, name).KidsFit(d)
  {
    var t' := WithDir(t, parent, name);
    if d < |t.kids| {
      assert t.KidsFit(d);
      forall j | 0 <= j < |t'.kids[d]|
        ensures d < t'.kids[d][j] < |t'.kids| && t'.dirPath[t'.kids[d][j]] != [] &&
                Front(t'.dirPath[t'.kids[d][j]]) == t'.dirPath[d]
      {
        if j < |t.kids[d]| {
          assert t'.kids[d][j] == t.kids[d][j];
        }
      }
    }
  }

  lemma {:induction false} WithDirFilesFit(t: Tree, parent: nat, name: string, d: nat)
    requires t.Valid() && parent < |t.kids| && d <= |t.kids|
    ensures WithDir(t, parent, name).Sized() && WithDir(t, parent, name).FilesFit(d)
  {
    if d < |t.kids| {
      assert t.FilesFit(d);
    }
  }

  lemma {:induction false} WithDirParents(t: Tree, parent: nat, name: string, c: nat)
    requires t.Valid() && parent < |t.kids| && 0 < c <= |t.kids|
    ensures WithDir(t, parent, name).HasParent(c)
  {
    var t' := WithDir(t, parent, name);
    if c < |t.kids| {
      assert t.HasParent(c);
      var d :| 0 <= d < |t.kids| && c in t.kids[d];
      assert c in t'.kids[d];
    } else {
      assert t'.kids[parent] == t.kids[parent] + [|t.kids|];
      assert |t.kids| in t'.kids[parent];
    }
  }

  lemma {:induction false} WithDirHolders(t: Tree, parent: nat, name: string, f: nat)
    requires t.Valid() && parent < |t.kids| && f < |t.filePath|
    ensures WithDir(t, parent, name).HasHolder(f)
  {
    assert t.HasHolder(f);
    var d :| 0 <= d < |t.held| && f in t.held[d];
    assert WithDir(t, parent, name).held[d] == t.held[d];
  }

  /** A new subdirectory with a new name keeps the tree a tree. */
  lemma {:induction false} WithDirValid(t: Tree, parent: nat, name: string)
    requires t.Valid() && parent < |t.kids| && forall c ::
      c in t.kids[parent] ==> c < |t.kids| && t.dirPath[c] != t.dirPath[parent] + [name]
    ensures WithDir(t, parent, name).Valid()
  {
    var t' := WithDir(t, parent, name);
    forall d | 0 <= d < |t'.kids| ensures t'.KidsFit(d) && t'.FilesFit(d) {
      WithDirKidsFit(t, parent, name, d);
      WithDirFilesFit(t, parent, name, d);
    }
    forall c | 0 < c < |t'.kids| ensures t'.HasParent(c) {
      WithDirParents(t, parent, name, c);
    }
    forall f | 0 <= f < |t'.filePath| ensures t'.HasHolder(f) {
      WithDirHolders(t, parent, name, f);
    }
    if t.dirPath[parent] + [name] in t.dirPath {
      var c :| 0 <= c < |t.dirPath| && t.dirPath[c] == t.dirPath[parent] + [name];
      KidByPath(t, parent, name, c);
    }
    UniqueAppend(t.dirPath, t.dirPath[parent] + [name]);
  }

  lemma {:induction false} WithFileFits(t: Tree, d: nat, name: string, e: nat)
    requires t.Valid() && d < |t.kids| && e < |t.kids|
    ensures WithFile(t, d, name).Sized() && WithFile(t, d, name).FilesFit(e) && WithFile(t, d, name).KidsFit(e)
  {
    var t' := WithFile(t, d, name);
    assert t.FilesFit(e) && t.KidsFit(e);
    forall j | 0 <= j < |t'.held[e]|
      ensures t'.held[e][j] < |t'.filePath| && t'.filePath[t'.held[e][j]] != [] &&
              Front(t'.filePath[t'.held[e][j]]) == t'.dirPath[e]
    {
      if j < |t.held[e]| {
        assert t'.held[e][j] == t.held[e][j];
      }
    }
  }

  lemma {:induction false} WithFileHolders(t: Tree, d: nat, name: string, f: nat)
    requires t.Valid() && d < |t.kids| && f <= |t.filePath|
    ensures WithFile(t, d, name).HasHolder(f)
  {
    var t' := WithFile(t, d, name);
    if f < |t.filePath| {
      assert t.HasHolder(f);
      var e :| 0 <= e < |t.held| && f in t.held[e];
      assert f in t'.held[e];
    } else {
      assert t'.held[d] == t.held[d] + [|t.filePath|];
      assert f in t'.held[d];
    }
  }

  /** A new file with a new name keeps the tree a tree. */
  lemma {:induction false} WithFileValid(t: Tree, d: nat, name: string)
    requires t.Valid() && d < |t.kids| && forall f ::
      f in t.held[d] ==> f < |t.filePath| && t.filePath[f] != t.dirPath[d] + [name]
    ensures WithFile(t, d, name).Valid()
  {
    var t' := WithFile(t, d, name);
    forall e | 0 <= e < |t'.kids| ensures t'.KidsFit(e) && t'.FilesFit(e) {
      WithFileFits(t, d, name, e);
    }
    forall c | 0 < c < |t'.kids| ensures t'.HasParent(c) {
      assert t.HasParent(c);
    }
    forall f | 0 <= f < |t'.filePath| ensures t'.HasHolder(f) {
      WithFileHolders(t, d, name, f);
    }
    if t.dirPath[d] + [name] in t.filePath {
      var f :| 0 <= f < |t.filePath| && t.filePath[f] == t.dirPath[d] + [name];
      FileByPath(t, d, name, f);
    }
    UniqueAppend(t.filePath, t.dirPath[d] + [name]);
  }

  lemma {:induction false} PrefixTransitive(a: Path, b: Path, c: Path)
    requires a <= b && b <= c
    ensures a <= c
  {
  }

  lemma {:induction false} PrefixOfFront(a: Path, b: Path)
    requires a <= b && b != [] && a != b
    ensures a <= Front(b)
  {
  }

  lemma {:induction false} SameLengthPrefixes(a: Path, b: Path, c: Path)
    requires a <= c && b <= c && |a| == |b|
    ensures a == b
  {
  }

  lemma {:induction false} DistinctConcat<T(!new)>(s: seq<T>, t: seq<T>)
    requires Distinct(s) && Distinct(t) && forall x :: x in s ==> x !in t
    ensures Distinct(s + t)
  {
    forall i, j | 0 <= i < j < |s + t| ensures (s + t)[i] != (s + t)[j] {
      if i < |s| <= j {
        assert s[i] in s && t[j - |s|] in t;
      }
    }
  }
}
