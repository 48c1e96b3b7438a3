/** The directory index of a container: a first-child, next-sibling tree in flat arrays. */
module DirectoryIndex {
  import opened Package
  import opened DirectoryTree

  /** `FIoDirectoryIndexEntry`; references are indices. */
  datatype DirEntry = DirEntry(name: Option<nat>, firstChild: Option<nat>, nextSibling: Option<nat>,
                               firstFile: Option<nat>)

  /** `FIoFileIndexEntry`. */
  datatype FileEntry = FileEntry(name: nat, nextFile: Option<nat>, userData: nat)

  /** What a visitor is called with. */
  datatype Visit = Visit(path: Path, userData: nat)

  // ---- Linked lists in flat arrays ----

  ghost function At(s: seq<nat>, j: nat): Option<nat> {
    if j < |s| then Some(s[j]) else None
  }

  /** Heads and successors spell out the lists. */
  ghost predicate Links(heads: seq<Option<nat>>, nexts: seq<Option<nat>>, lists: seq<seq<nat>>) {
    |heads| == |lists| && forall d :: 0 <= d < |lists| ==> Linked(heads[d], nexts, lists[d])
  }

  ghost predicate Linked(head: Option<nat>, nexts: seq<Option<nat>>, list: seq<nat>) {
    && head == At(list, 0)
    && forall j :: 0 <= j < |list| ==> list[j] < |nexts| && nexts[list[j]] == At(list, j + 1)
  }

  /** Every element has one incoming link. */
  ghost predicate Apart(lists: seq<seq<nat>>) {
    forall d, j, e, k ::
      0 <= d < |lists| && 0 <= j < |lists[d]| && 0 <= e < |lists| && 0 <= k < |lists[e]| &&
      lists[d][j] == lists[e][k] ==>
      d == e && j == k
  }

  /** Heads after a new element has been linked behind the last of list `d`. */
  ghost function HeadsWith(heads: seq<Option<nat>>, list: seq<nat>, d: nat, n: nat): seq<Option<nat>>
    requires d < |heads|
  {
    if list == [] then heads[d := Some(n)] else heads
  }

  ghost function NextsWith(nexts: seq<Option<nat>>, list: seq<nat>): seq<Option<nat>>
    requires list != [] ==> list[|list| - 1] < |nexts|
  {
    (if list == [] then nexts else nexts[list[|list| - 1] := Some(|nexts|)]) + [None]
  }

  lemma {:induction false} LinkBehind(heads: seq<Option<nat>>, nexts: seq<Option<nat>>, lists: seq<seq<nat>>, d: nat)
    requires Links(heads, nexts, lists) && Apart(lists) && d < |lists|
    ensures Links(HeadsWith(heads, lists[d], d, |nexts|), NextsWith(nexts, lists[d]), lists[d := lists[d] + [|nexts|]])
  {
    var heads', nexts', lists' := HeadsWith(heads, lists[d], d, |nexts|), NextsWith(nexts, lists[d]),
      lists[d := lists[d] + [|nexts|]];
    assert Linked(heads[d], nexts, lists[d]);
    forall e | 0 <= e < |lists'| ensures Linked(heads'[e], nexts', lists'[e]) {
      assert Linked(heads[e], nexts, lists[e]);
      if e != d {
        OtherListStays(heads, nexts, lists, d, e);
      }
    }
  }

  lemma {:induction false} OtherListStays(heads: seq<Option<nat>>, nexts: seq<Option<nat>>, lists: seq<seq<nat>>,
                                          d: nat, e: nat)
    requires Apart(lists) && d < |lists| && e < |lists| && d != e && e < |heads|
    requires Linked(heads[e], nexts, lists[e]) && (lists[d] != [] ==> lists[d][|lists[d]| - 1] < |nexts|)
    ensures Linked(heads[e], NextsWith(nexts, lists[d]), lists[e])
  {
    forall j | 0 <= j < |lists[e]| ensures lists[d] != [] ==> lists[e][j] != lists[d][|lists[d]| - 1] {
    }
  }

  lemma {:induction false} LinkNewList(heads: seq<Option<nat>>, nexts: seq<Option<nat>>, lists: seq<seq<nat>>)
    requires Links(heads, nexts, lists)
    ensures Links(heads + [None], nexts, lists + [[]])
  {
  }

  /** Paths leave every subdirectory one place in the lists. */
  lemma {:induction false} KidsApart(t: Tree)
    requires t.Valid()
    ensures Apart(t.kids)
  {
    forall d, j, e, k | 0 <= d < |t.kids| && 0 <= j < |t.kids[d]| && 0 <= e < |t.kids| && 0 <= k < |t.kids[e]| &&
      t.kids[d][j] == t.kids[e][k]
      ensures d == e && j == k
    {
      assert t.KidsFit(d) && t.KidsFit(e);
      SamePlace(t.dirPath, d, e);
    }
  }

  lemma {:induction false} FilesApart(t: Tree)
    requires t.Valid()
    ensures Apart(t.held)
  {
    forall d, j, e, k | 0 <= d < |t.held| && 0 <= j < |t.held[d]| && 0 <= e < |t.held| && 0 <= k < |t.held[e]| &&
      t.held[d][j] == t.held[e][k]
      ensures d == e && j == k
    {
      assert t.FilesFit(d) && t.FilesFit(e);
      SamePlace(t.dirPath, d, e);
    }
  }

  ghost function FirstChildren(dirs: seq<DirEntry>): seq<Option<nat>> {
    seq(|dirs|, i requires 0 <= i < |dirs| => dirs[i].firstChild)
  }

  ghost function NextSiblings(dirs: seq<DirEntry>): seq<Option<nat>> {
    seq(|dirs|, i requires 0 <= i < |dirs| => dirs[i].nextSibling)
  }

  ghost function FirstFiles(dirs: seq<DirEntry>): seq<Option<nat>> {
    seq(|dirs|, i requires 0 <= i < |dirs| => dirs[i].firstFile)
  }

  ghost function NextFiles(files: seq<FileEntry>): seq<Option<nat>> {
    seq(|files|, i requires 0 <= i < |files| => files[i].nextFile)
  }

  // ---- Names ----

  ghost predicate Named(strings: seq<string>, name: nat, path: Path) {
    path != [] && name < |strings| && strings[name] == Last(path)
  }

  ghost predicate DirsNamed(strings: seq<string>, dirs: seq<DirEntry>, dirPath: seq<Path>) {
    && |dirs| == |dirPath|
    && (dirs != [] ==> dirs[0].name.None?)
    && forall c: nat :: 0 < c < |dirs| ==> DirNamed(strings, dirs, dirPath, c)
  }

  ghost predicate DirNamed(strings: seq<string>, dirs: seq<DirEntry>, dirPath: seq<Path>, c: nat)
    requires c < |dirs| == |dirPath|
  {
    dirs[c].name.Some? && Named(strings, dirs[c].name.value, dirPath[c])
  }

  ghost predicate FilesNamed(strings: seq<string>, files: seq<FileEntry>, filePath: seq<Path>) {
    && |files| == |filePath|
    && forall f: nat :: f < |files| ==> FileNamed(strings, files, filePath, f)
  }

  ghost predicate FileNamed(strings: seq<string>, files: seq<FileEntry>, filePath: seq<Path>, f: nat)
    requires f < |files| == |filePath|
  {
    Named(strings, files[f].name, filePath[f])
  }

  /** The arrays spell out the tree. */
  ghost predicate Spells(dirs: seq<DirEntry>, files: seq<FileEntry>, strings: seq<string>, t: Tree) {
    && Links(FirstChildren(dirs), NextSiblings(dirs), t.kids)
    && Links(FirstFiles(dirs), NextFiles(files), t.held)
    && DirsNamed(strings, dirs, t.dirPath) && FilesNamed(strings, files, t.filePath)
    && Unique(strings)
  }

  // ---- New entries ----

  /** A directory appended to the arrays and linked behind its elder siblings. */
  function LinkedDir(dirs: seq<DirEntry>, parent: nat, last: Option<nat>, name: nat): seq<DirEntry>
    requires parent < |dirs| && (last.Some? ==> last.value < |dirs|)
  {
    var more := dirs + [DirEntry(Some(name), None, None, None)];
    if last.Some? then more[last.value := more[last.value].(nextSibling := Some(|dirs|))]
    else more[parent := more[parent].(firstChild := Some(|dirs|))]
  }

  ghost predicate IsLast(list: seq<nat>, last: Option<nat>) {
    last == if list == [] then None else Some(list[|list| - 1])
  }

  lemma {:induction false} LinkedDirLinks(dirs: seq<DirEntry>, kids: seq<seq<nat>>, parent: nat, last: Option<nat>,
                                          name: nat)
    requires Links(FirstChildren(dirs), NextSiblings(dirs), kids) && Apart(kids) && parent < |dirs|
    requires IsLast(kids[parent], last) && (last.Some? ==> last.value < |dirs|)
    ensures var dirs' := LinkedDir(dirs, parent, last, name);
      Links(FirstChildren(dirs'), NextSiblings(dirs'), kids[parent := kids[parent] + [|dirs|]] + [[]])
  {
    var dirs' := LinkedDir(dirs, parent, last, name);
    LinkBehind(FirstChildren(dirs), NextSiblings(dirs), kids, parent);
    LinkNewList(HeadsWith(FirstChildren(dirs), kids[parent], parent, |dirs|),
                NextsWith(NextSiblings(dirs), kids[parent]),
                kids[parent := kids[parent] + [|dirs|]]);
    assert FirstChildren(dirs') == HeadsWith(FirstChildren(dirs), kids[parent], parent, |dirs|) + [None];
    assert NextSiblings(dirs') == NextsWith(NextSiblings(dirs), kids[parent]);
  }

  lemma {:induction false} LinkedDirFiles(dirs: seq<DirEntry>, nexts: seq<Option<nat>>, held: seq<seq<nat>>,
                                          parent: nat, last: Option<nat>, name: nat)
    requires Links(FirstFiles(dirs), nexts, held) && parent < |dirs| && (last.Some? ==> last.value < |dirs|)
    ensures Links(FirstFiles(LinkedDir(dirs, parent, last, name)), nexts, held + [[]])
  {
    LinkNewList(FirstFiles(dirs), nexts, held);
    assert FirstFiles(LinkedDir(dirs, parent, last, name)) == FirstFiles(dirs) + [None];
  }

  lemma {:induction false} LinkedDirNamed(strings: seq<string>, dirs: seq<DirEntry>, dirPath: seq<Path>, parent: nat,
                                          last: Option<nat>, name: nat)
    requires DirsNamed(strings, dirs, dirPath) && parent < |dirs| && name < |strings| &&
             (last.Some? ==> last.value < |dirs|)
    ensures DirsNamed(strings, LinkedDir(dirs, parent, last, name), dirPath + [dirPath[parent] + [strings[name]]])
  {
    var dirs' := LinkedDir(dirs, parent, last, name);
    forall c: nat | 0 < c < |dirs'|
      ensures DirNamed(strings, dirs', dirPath + [dirPath[parent] + [strings[name]]], c)
    {
      if c < |dirs| {
        assert DirNamed(strings, dirs, dirPath, c);
      }
    }
  }

  lemma {:induction false} LinkedDirSpells(dirs: seq<DirEntry>, files: seq<FileEntry>, strings: seq<string>, t: Tree,
                                           parent: nat, last: Option<nat>, name: nat)
    requires t.Valid() && Spells(dirs, files, strings, t) && parent < |dirs| && name < |strings|
    requires IsLast(t.kids[parent], last) && (last.Some? ==> last.value < |dirs|)
    ensures Spells(LinkedDir(dirs, parent, last, name), files, strings, WithDir(t, parent, strings[name]))
  {
    KidsApart(t);
    LinkedDirLinks(dirs, t.kids, parent, last, name);
    LinkedDirFiles(dirs, NextFiles(files), t.held, parent, last, name);
    LinkedDirNamed(strings, dirs, t.dirPath, parent, last, name);
  }

  /** A file appended to the arrays and linked behind its elder siblings. */
  function LinkedFile(files: seq<FileEntry>, last: Option<nat>, name: nat): seq<FileEntry>
    requires last.Some? ==> last.value < |files|
  {
    var more := files + [FileEntry(name, None, 0)];
    if last.Some? then more[last.value := more[last.value].(nextFile := Some(|files|))] else more
  }

  function WithFirstFile(dirs: seq<DirEntry>, d: nat, last: Option<nat>, n: nat): seq<DirEntry>
    requires d < |dirs|
  {
    if last.Some? then dirs else dirs[d := dirs[d].(firstFile := Some(n))]
  }

  lemma {:induction false} LinkedFileLinks(dirs: seq<DirEntry>, files: seq<FileEntry>, held: seq<seq<nat>>, d: nat,
                                           last: Option<nat>, name: nat)
    requires Links(FirstFiles(dirs), NextFiles(files), held) && Apart(held) && d < |dirs|
    requires IsLast(held[d], last) && (last.Some? ==> last.value < |files|)
    ensures Links(FirstFiles(WithFirstFile(dirs, d, last, |files|)), NextFiles(LinkedFile(files, last, name)),
                  held[d := held[d] + [|files|]])
  {
    LinkBehind(FirstFiles(dirs), NextFiles(files), held, d);
    assert FirstFiles(WithFirstFile(dirs, d, last, |files|)) == HeadsWith(FirstFiles(dirs), held[d], d, |files|);
    assert NextFiles(LinkedFile(files, last, name)) == NextsWith(NextFiles(files), held[d]);
  }

  lemma {:induction false} LinkedFileNamed(strings: seq<string>, files: seq<FileEntry>, filePath: seq<Path>,
                                           last: Option<nat>, name: nat, dir: Path)
    requires FilesNamed(strings, files, filePath) && name < |strings| && (last.Some? ==> last.value < |files|)
    ensures FilesNamed(strings, LinkedFile(files, last, name), filePath + [dir + [strings[name]]])
  {
    var files' := LinkedFile(files, last, name);
    forall f: nat | f < |files'| ensures FileNamed(strings, files', filePath + [dir + [strings[name]]], f) {
      if f < |files| {
        assert FileNamed(strings, files, filePath, f);
      }
    }
  }

  lemma {:induction false} LinkedFileKeepsDirs(dirs: seq<DirEntry>, strings: seq<string>, dirPath: seq<Path>, d: nat,
                                               last: Option<nat>, n: nat)
    requires d < |dirs| && DirsNamed(strings, dirs, dirPath)
    ensures FirstChildren(WithFirstFile(dirs, d, last, n)) == FirstChildren(dirs)
    ensures NextSiblings(WithFirstFile(dirs, d, last, n)) == NextSiblings(dirs)
    ensures DirsNamed(strings, WithFirstFile(dirs, d, last, n), dirPath)
  {
    forall c: nat | 0 < c < |dirs| ensures DirNamed(strings, WithFirstFile(dirs, d, last, n), dirPath, c) {
      assert DirNamed(strings, dirs, dirPath, c);
    }
  }

  lemma {:induction false} LinkedFileSpells(dirs: seq<DirEntry>, files: seq<FileEntry>, strings: seq<string>, t: Tree,
                                            d: nat, last: Option<nat>, name: nat)
    requires t.Valid() && Spells(dirs, files, strings, t) && d < |dirs| && name < |strings|
    requires IsLast(t.held[d], last) && (last.Some? ==> last.value < |files|)
    ensures Spells(WithFirstFile(dirs, d, last, |files|), LinkedFile(files, last, name), strings,
                   WithFile(t, d, strings[name]))
  {
    FilesApart(t);
    LinkedFileLinks(dirs, files, t.held, d, last, name);
    LinkedFileNamed(strings, files, t.filePath, last, name, t.dirPath[d]);
    LinkedFileKeepsDirs(dirs, strings, t.dirPath, d, last, |files|);
  }

  /** New data for a file changes no link and no name. */
  lemma {:induction false} DataSpells(dirs: seq<DirEntry>, files: seq<FileEntry>, strings: seq<string>, t: Tree,
                                      f: nat, userData: nat)
    requires Spells(dirs, files, strings, t) && f < |files|
    ensures Spells(dirs, files[f := files[f].(userData := userData)], strings, t)
  {
    var files' := files[f := files[f].(userData := userData)];
    assert NextFiles(files') == NextFiles(files);
    forall g: nat | g < |files'| ensures FileNamed(strings, files', t.filePath, g) {
      assert FileNamed(strings, files, t.filePath, g);
    }
  }

  /** More strings change no name. */
  lemma {:induction false} StringsSpell(dirs: seq<DirEntry>, files: seq<FileEntry>, strings: seq<string>,
                                        strings': seq<string>, t: Tree)
    requires Spells(dirs, files, strings, t) && strings <= strings' && Unique(strings')
    ensures Spells(dirs, files, strings', t)
  {
    forall c: nat | 0 < c < |dirs| ensures DirNamed(strings', dirs, t.dirPath, c) {
      assert DirNamed(strings, dirs, t.dirPath, c);
    }
    forall f: nat | f < |files| ensures FileNamed(strings', files, t.filePath, f) {
      assert FileNamed(strings, files, t.filePath, f);
    }
  }

  /** The map that the first `n` files stand for. */
  ghost function ContentsOf(filePath: seq<Path>, files: seq<FileEntry>, n: nat): map<Path, nat>
    requires n <= |files| == |filePath|
  {
    if n == 0 then map[] else ContentsOf(filePath, files, n - 1)[filePath[n - 1] := files[n - 1].userData]
  }

  lemma {:induction false} ContentsPrefix(filePath: seq<Path>, files: seq<FileEntry>, filePath': seq<Path>,
                                          files': seq<FileEntry>, n: nat)
    requires n <= |files| == |filePath| && n <= |files'| == |filePath'|
    requires forall f :: 0 <= f < n ==> filePath'[f] == filePath[f] && files'[f].userData == files[f].userData
    ensures ContentsOf(filePath', files', n) == ContentsOf(filePath, files, n)
  {
    if n > 0 {
      ContentsPrefix(filePath, files, filePath', files', n - 1);
    }
  }

  lemma {:induction false} SwapUpdates<K(!new), V(!new)>(m: map<K, V>, p: K, v: V, q: K, w: V)
    requires p != q
    ensures m[p := v][q := w] == m[q := w][p := v]
  {
  }

  lemma {:induction false} UpdateTwice<K(!new), V(!new)>(m: map<K, V>, p: K, v: V, w: V)
    ensures m[p := v][p := w] == m[p := w]
  {
  }

  /** New data for a file is new data for its path. */
  lemma {:induction false} NewData(filePath: seq<Path>, files: seq<FileEntry>, f: nat, userData: nat, n: nat)
    requires f < n <= |files| == |filePath| && Unique(filePath)
    ensures ContentsOf(filePath, files[f := files[f].(userData := userData)], n)
      == ContentsOf(filePath, files, n)[filePath[f] := userData]
  {
    var files' := files[f := files[f].(userData := userData)];
    if f == n - 1 {
      ContentsPrefix(filePath, files, filePath, files', n - 1);
      UpdateTwice(ContentsOf(filePath, files, n - 1), filePath[f], files[f].userData, userData);
    } else {
      NewData(filePath, files, f, userData, n - 1);
      assert Differ(filePath, f, n - 1);
      SwapUpdates(ContentsOf(filePath, files, n - 1), filePath[f], userData, filePath[n - 1], files[n - 1].userData);
    }
  }

  /** The map has exactly the paths of the files, each with the file's data. */
  lemma {:induction false} ContentsHold(filePath: seq<Path>, files: seq<FileEntry>, n: nat)
    requires n <= |files| == |filePath| && Unique(filePath)
    ensures forall f :: 0 <= f < n ==> filePath[f] in ContentsOf(filePath, files, n)
    ensures forall f :: 0 <= f < n ==> ContentsOf(filePath, files, n)[filePath[f]] == files[f].userData
    ensures forall p :: p in ContentsOf(filePath, files, n) ==> p in filePath[..n]
  {
    if n > 0 {
      ContentsHold(filePath, files, n - 1);
      forall f: nat | f < n - 1 ensures filePath[f] != filePath[n - 1] {
        assert Differ(filePath, f, n - 1);
      }
      assert filePath[..n] == filePath[..n - 1] + [filePath[n - 1]];
    }
  }

  lemma {:induction false} FrontAndLast(p: Path, dir: Path)
    requires p != [] && Front(p) == dir
    ensures p == dir + [Last(p)]
  {
  }

  /** The `j`-th entry of a list links to the next one and is named after its path. */
  ghost predicate DirEntryFits(dirs: seq<DirEntry>, strings: seq<string>, list: seq<nat>, j: nat, path: Path,
                               dirPath: seq<Path>)
    requires j < |list|
  {
    var c := list[j];
    && c < |dirs| && c < |dirPath| && dirs[c].nextSibling == At(list, j + 1)
    && dirs[c].name.Some? && dirs[c].name.value < |strings| && dirPath[c] == path + [strings[dirs[c].name.value]]
  }

  ghost predicate FileEntryFits(files: seq<FileEntry>, strings: seq<string>, list: seq<nat>, j: nat, path: Path,
                                filePath: seq<Path>)
    requires j < |list|
  {
    var f := list[j];
    && f < |files| && f < |filePath| && files[f].nextFile == At(list, j + 1)
    && files[f].name < |strings| && filePath[f] == path + [strings[files[f].name]]
  }

  /** Walks a list of subdirectories to the one with a name, or else to its end. */
  method WalkDirs(dirs: seq<DirEntry>, strings: seq<string>, first: Option<nat>, name: string,
                  ghost list: seq<nat>, ghost path: Path, ghost dirPath: seq<Path>)
    returns (found: Option<nat>, last: Option<nat>)
    requires first == At(list, 0) && forall j :: 0 <= j < |list| ==> DirEntryFits(dirs, strings, list, j, path, dirPath)
    ensures found.Some? ==> found.value in list && found.value < |dirPath| && dirPath[found.value] == path + [name]
    ensures found.None? ==> IsLast(list, last) && forall c :: c in list ==> c < |dirPath| && dirPath[c] != path + [name]
  {
    ghost var j: nat := 0;
    var i := first;
    last := None;
    while i.Some?
      invariant j <= |list| && i == At(list, j) && last == if j == 0 then None else Some(list[j - 1])
      invariant forall k :: 0 <= k < j ==> list[k] < |dirPath| && dirPath[list[k]] != path + [name]
      decreases |list| - j
    {
      assert DirEntryFits(dirs, strings, list, j, path, dirPath);
      var dir := dirs[i.value];
      if strings[dir.name.value] == name {
        return i, last;
      }
      assert dirPath[i.value][|path|] != name;
      last, i := i, dir.nextSibling;
      j := j + 1;
    }
    found := None;
  }

  method WalkFiles(files: seq<FileEntry>, strings: seq<string>, first: Option<nat>, name: string,
                   ghost list: seq<nat>, ghost path: Path, ghost filePath: seq<Path>)
    returns (found: Option<nat>, last: Option<nat>)
    requires first == At(list, 0) && forall j ::
      0 <= j < |list| ==> FileEntryFits(files, strings, list, j, path, filePath)
    ensures found.Some? ==> found.value in list && found.value < |filePath| && filePath[found.value] == path + [name]
    ensures found.None? ==> IsLast(list, last) && forall f ::
      f in list ==> f < |filePath| && filePath[f] != path + [name]
  {
    ghost var j: nat := 0;
    var i := first;
    last := None;
    while i.Some?
      invariant j <= |list| && i == At(list, j) && last == if j == 0 then None else Some(list[j - 1])
      invariant forall k :: 0 <= k < j ==> list[k] < |filePath| && filePath[list[k]] != path + [name]
      decreases |list| - j
    {
      assert FileEntryFits(files, strings, list, j, path, filePath);
      var file := files[i.value];
      if strings[file.name] == name {
        return i, last;
      }
      assert filePath[i.value][|path|] != name;
      last, i := i, file.nextFile;
      j := j + 1;
    }
    found := None;
  }

  // ---- Visits ----

  ghost function VisitOf(files: seq<FileEntry>, filePath: seq<Path>, f: nat): Visit {
    if f < |files| && f < |filePath| then Visit(filePath[f], files[f].userData) else Visit([], 0)
  }

  ghost function VisitsOf(files: seq<FileEntry>, filePath: seq<Path>, order: seq<nat>): (visits: seq<Visit>)
    ensures |visits| == |order| && forall i :: 0 <= i < |order| ==> visits[i] == VisitOf(files, filePath, order[i])
  {
    seq(|order|, i requires 0 <= i < |order| => VisitOf(files, filePath, order[i]))
  }

  lemma {:induction false} VisitsAppend(files: seq<FileEntry>, filePath: seq<Path>, a: seq<nat>, b: seq<nat>)
    ensures VisitsOf(files, filePath, a + b) == VisitsOf(files, filePath, a) + VisitsOf(files, filePath, b)
  {
  }

  lemma {:induction false} Associative<T>(a: seq<T>, b: seq<T>, c: seq<T>)
    ensures a + b + c == a + (b + c)
  {
  }

  /** Visits the files of one directory. */
  method VisitFiles(files: seq<FileEntry>, strings: seq<string>, first: Option<nat>, stack: Path, visits: seq<Visit>,
                    ghost list: seq<nat>, ghost filePath: seq<Path>)
    returns (visits': seq<Visit>)
    requires first == At(list, 0) && forall j ::
      0 <= j < |list| ==> FileEntryFits(files, strings, list, j, stack, filePath)
    ensures visits' == visits + VisitsOf(files, filePath, list)
  {
    ghost var j: nat := 0;
    var i := first;
    visits' := visits;
    while i.Some?
      invariant j <= |list| && i == At(list, j)
      invariant visits' == visits + VisitsOf(files, filePath, list[..j])
      decreases |list| - j
    {
      assert FileEntryFits(files, strings, list, j, stack, filePath);
      var file := files[i.value];
      visits' := visits' + [Visit(stack + [strings[file.name]], file.userData)];
      assert list[..j + 1] == list[..j] + [list[j]];
      VisitsAppend(files, filePath, list[..j], [list[j]]);
      i := file.nextFile;
      j := j + 1;
    }
    assert list[..j] == list;
  }

  /** Each path of the map is visited exactly once, with its data. */
  ghost predicate VisitsExactly(visits: seq<Visit>, contents: map<Path, nat>) {
    && |visits| == |contents|
    && (forall i :: 0 <= i < |visits| ==> visits[i].path in contents && contents[visits[i].path] == visits[i].userData)
    && (forall i, j :: 0 <= i < j < |visits| ==> visits[i].path != visits[j].path)
    && (forall p :: p in contents ==> Visit(p, contents[p]) in visits)
  }

  ghost function Paths(visits: seq<Visit>): seq<Path> {
    seq(|visits|, i requires 0 <= i < |visits| => visits[i].path)
  }

  lemma {:induction false} AllVisited(filePath: seq<Path>, files: seq<FileEntry>, order: seq<nat>)
    requires |files| == |filePath| && Unique(filePath) && Distinct(order)
    requires forall f :: f in order <==> 0 <= f < |files|
    ensures VisitsExactly(VisitsOf(files, filePath, order), ContentsOf(filePath, files, |files|))
  {
    var visits, contents := VisitsOf(files, filePath, order), ContentsOf(filePath, files, |files|);
    ContentsHold(filePath, files, |files|);
    assert filePath[..|files|] == filePath;
    forall i | 0 <= i < |visits|
      ensures order[i] < |files| && visits[i] == Visit(filePath[order[i]], files[order[i]].userData) {
      assert order[i] in order;
    }
    forall p | p in contents ensures Visit(p, contents[p]) in visits {
      var f :| 0 <= f < |filePath| && filePath[f] == p;
      assert f in order;
      var i :| 0 <= i < |order| && order[i] == f;
      assert visits[i] == Visit(p, contents[p]);
    }
    forall i, j | 0 <= i < j < |visits| ensures visits[i].path != visits[j].path {
      if visits[i].path == visits[j].path {
        SamePlace(filePath, order[i], order[j]);
      }
    }
    VisitedCount(visits, contents);
  }

  lemma {:induction false} VisitedCount(visits: seq<Visit>, contents: map<Path, nat>)
    requires forall i :: 0 <= i < |visits| ==> visits[i].path in contents
    requires forall i, j :: 0 <= i < j < |visits| ==> visits[i].path != visits[j].path
    requires forall p :: p in contents ==> Visit(p, contents[p]) in visits
    ensures |visits| == |contents|
  {
    var paths := Paths(visits);
    forall p ensures p in Elements(paths) <==> p in contents.Keys {
      if p in contents {
        var i :| 0 <= i < |visits| && visits[i] == Visit(p, contents[p]);
        assert paths[i] == p;
      }
    }
    assert Elements(paths) == contents.Keys;
    DistinctLength(paths);
  }

  /** What the arrays say about the `j`-th subdirectory of a directory. */
  lemma {:induction false} KidEntry(dirs: seq<DirEntry>, files: seq<FileEntry>, strings: seq<string>, t: Tree, d: nat,
                                    j: nat)
    requires t.Valid() && Spells(dirs, files, strings, t) && d < |dirs| && j < |t.kids[d]|
    ensures d < t.kids[d][j] && DirEntryFits(dirs, strings, t.kids[d], j, t.dirPath[d], t.dirPath)
  {
    assert t.KidsFit(d);
    var c := t.kids[d][j];
    assert Linked(FirstChildren(dirs)[d], NextSiblings(dirs), t.kids[d]);
    assert NextSiblings(dirs)[c] == At(t.kids[d], j + 1);
    FrontAndLast(t.dirPath[c], t.dirPath[d]);
    assert DirNamed(strings, dirs, t.dirPath, c);
  }

  lemma {:induction false} HeldEntry(dirs: seq<DirEntry>, files: seq<FileEntry>, strings: seq<string>, t: Tree, d: nat,
                                     j: nat)
    requires t.Valid() && Spells(dirs, files, strings, t) && d < |dirs| && j < |t.held[d]|
    ensures FileEntryFits(files, strings, t.held[d], j, t.dirPath[d], t.filePath)
  {
    assert t.FilesFit(d);
    var f := t.held[d][j];
    assert Linked(FirstFiles(dirs)[d], NextFiles(files), t.held[d]);
    assert NextFiles(files)[f] == At(t.held[d], j + 1);
    FrontAndLast(t.filePath[f], t.dirPath[d]);
    assert FileNamed(strings, files, t.filePath, f);
  }

  lemma {:induction false} Heads(dirs: seq<DirEntry>, files: seq<FileEntry>, strings: seq<string>, t: Tree, d: nat)
    requires Spells(dirs, files, strings, t) && d < |dirs|
    ensures dirs[d].firstChild == At(t.kids[d], 0) && dirs[d].firstFile == At(t.held[d], 0)
  {
    assert Linked(FirstChildren(dirs)[d], NextSiblings(dirs), t.kids[d]);
    assert Linked(FirstFiles(dirs)[d], NextFiles(files), t.held[d]);
  }

  /** A new file adds its path with data 0 to the map. */
  lemma {:induction false} NewFileContents(files: seq<FileEntry>, t: Tree, d: nat, last: Option<nat>, nameIndex: nat,
                                           name: string)
    requires t.Sized() && d < |t.kids| && |files| == |t.filePath| && (last.Some? ==> last.value < |files|)
    ensures var files' := LinkedFile(files, last, nameIndex);
      ContentsOf(WithFile(t, d, name).filePath, files', |files'|)
        == ContentsOf(t.filePath, files, |files|)[t.dirPath[d] + [name] := 0]
  {
    ContentsPrefix(t.filePath, files, WithFile(t, d, name).filePath, LinkedFile(files, last, nameIndex), |files|);
  }

  // ---- FIoDirectoryIndexResource ----

  class DirectoryIndexResource {
    var dirs: seq<DirEntry>
    var files: seq<FileEntry>
    var strings: seq<string>
    ghost var tree: Tree

    ghost predicate Valid()
      reads this
    {
      tree.Valid() && Spells(dirs, files, strings, tree)
    }

    ghost function Contents(): map<Path, nat>
      requires Valid()
      reads this
    {
      ContentsOf(tree.filePath, files, |files|)
    }

    constructor ()
      ensures Valid() && Contents() == map[]
    {
      dirs, files, strings := [], [], [];
      tree := Tree([], [], [], []);
    }

    method EnsureRoot() returns (d: nat)
      requires Valid()
      modifies this
      ensures Valid() && d == 0 < |dirs| && Contents() == old(Contents()) && tree.dirPath[0] == []
    {
      if dirs == [] {
        dirs := dirs + [DirEntry(None, None, None, None)];
        tree := Tree([[]], [[]], [[]], []);
        assert tree.KidsFit(0) && tree.FilesFit(0);
      }
      d := 0;
    }

    method GetOrCreateName(name: string) returns (i: nat)
      requires Valid()
      modifies this`strings
      ensures Valid() && i < |strings| && strings[i] == name && old(strings) <= strings
    {
      ghost var before := strings;
      for k := 0 to |strings|
        invariant forall l :: 0 <= l < k ==> strings[l] != name
      {
        if strings[k] == name {
          return k;
        }
      }
      UniqueAppend(strings, name);
      strings := strings + [name];
      StringsSpell(dirs, files, before, strings, tree);
      i := |strings| - 1;
    }

    /** The subdirectory with a name, or else the last subdirectory. */
    method FindDir(parent: nat, name: string) returns (found: Option<nat>, last: Option<nat>)
      requires Valid() && parent < |dirs|
      ensures found.Some? ==>
        parent < found.value < |dirs| && tree.dirPath[found.value] == tree.dirPath[parent] + [name]
      ensures found.None? ==> IsLast(tree.kids[parent], last) && (last.Some? ==> last.value < |dirs|)
      ensures found.None? ==> forall c ::
        c in tree.kids[parent] ==> c < |dirs| && tree.dirPath[c] != tree.dirPath[parent] + [name]
    {
      Heads(dirs, files, strings, tree, parent);
      forall j | 0 <= j < |tree.kids[parent]|
        ensures DirEntryFits(dirs, strings, tree.kids[parent], j, tree.dirPath[parent], tree.dirPath) &&
                parent < tree.kids[parent][j]
      {
        KidEntry(dirs, files, strings, tree, parent, j);
      }
      found, last :=
        WalkDirs(dirs, strings, dirs[parent].firstChild, name, tree.kids[parent], tree.dirPath[parent], tree.dirPath);
    }

    method GetOrCreateDir(parent: nat, name: string) returns (d: nat)
      requires Valid() && parent < |dirs|
      modifies this
      ensures Valid() && d < |dirs| && Contents() == old(Contents())
      ensures |dirs| == |tree.dirPath|
      ensures tree.dirPath[d] == old(tree.dirPath[parent]) + [name]
    {
      var found, last := FindDir(parent, name);
      if found.Some? {
        return found.value;
      }
      var nameIndex := GetOrCreateName(name);
      LinkedDirSpells(dirs, files, strings, tree, parent, last, nameIndex);
      WithDirValid(tree, parent, name);
      d := |dirs|;
      dirs := LinkedDir(dirs, parent, last, nameIndex);
      tree := WithDir(tree, parent, name);
    }

    method FindFile(d: nat, name: string) returns (found: Option<nat>, last: Option<nat>)
      requires Valid() && d < |dirs|
      ensures found.Some? ==> found.value < |files| && tree.filePath[found.value] == tree.dirPath[d] + [name]
      ensures found.None? ==> IsLast(tree.held[d], last) && (last.Some? ==> last.value < |files|)
      ensures found.None? ==> forall f ::
        f in tree.held[d] ==> f < |files| && tree.filePath[f] != tree.dirPath[d] + [name]
    {
      Heads(dirs, files, strings, tree, d);
      forall j | 0 <= j < |tree.held[d]|
        ensures FileEntryFits(files, strings, tree.held[d], j, tree.dirPath[d], tree.filePath) {
        HeldEntry(dirs, files, strings, tree, d, j);
      }
      found, last := WalkFiles(files, strings, dirs[d].firstFile, name, tree.held[d], tree.dirPath[d], tree.filePath);
    }

    /** The file with a name; a new one gets user data 0. */
    method GetOrCreateFile(d: nat, name: string) returns (f: nat)
      requires Valid() && d < |dirs|
      modifies this
      ensures Valid() && f < |files| && tree.filePath[f] == old(tree.dirPath[d]) + [name]
      ensures Contents() == old(Contents()) || Contents() == old(Contents())[old(tree.dirPath[d]) + [name] := 0]
    {
      var found, last := FindFile(d, name);
      if found.Some? {
        f := found.value;
      } else {
        f := CreateFile(d, name, last);
      }
    }

    method CreateFile(d: nat, name: string, last: Option<nat>) returns (f: nat)
      requires Valid() && d < |dirs| && IsLast(tree.held[d], last) && (last.Some? ==> last.value < |files|)
      requires forall f :: f in tree.held[d] ==> f < |files| && tree.filePath[f] != tree.dirPath[d] + [name]
      modifies this
      ensures Valid() && f < |files| && tree.filePath[f] == old(tree.dirPath[d]) + [name]
      ensures Contents() == old(Contents())[old(tree.dirPath[d]) + [name] := 0]
    {
      var nameIndex := GetOrCreateName(name);
      LinkedFileSpells(dirs, files, strings, tree, d, last, nameIndex);
      WithFileValid(tree, d, name);
      NewFileContents(files, tree, d, last, nameIndex, name);
      f := |files|;
      dirs, files := WithFirstFile(dirs, d, last, |files|), LinkedFile(files, last, nameIndex);
      tree := WithFile(tree, d, name);
    }

    method SetUserData(f: nat, userData: nat)
      requires Valid() && f < |files|
      modifies this
      ensures Valid() && Contents() == old(Contents())[old(tree.filePath[f]) := userData]
    {
      DataSpells(dirs, files, strings, tree, f, userData);
      NewData(tree.filePath, files, f, userData, |files|);
      files := files[f := files[f].(userData := userData)];
    }

    /** The directory at the end of a path, created along with those above it where missing. */
    method GetOrCreateDirs(path: Path) returns (d: nat)
      requires Valid()
      modifies this
      ensures Valid() && d < |dirs| == |tree.dirPath| && tree.dirPath[d] == path && Contents() == old(Contents())
    {
      d := EnsureRoot();
      for k := 0 to |path|
        invariant Valid() && d < |dirs| == |tree.dirPath| && tree.dirPath[d] == path[..k] &&
                  Contents() == old(Contents())
      {
        d := GetOrCreateDir(d, path[k]);
        assert path[..k] + [path[k]] == path[..k + 1];
      }
      assert path[..|path|] == path;
    }

    /** `add_file`: the path now maps to the data, whatever it was mapped to before. */
    method AddFile(path: Path, userData: nat)
      requires Valid() && path != []
      modifies this
      ensures Valid() && Contents() == old(Contents())[path := userData]
    {
      var d := GetOrCreateDirs(path[..|path| - 1]);
      var f := GetOrCreateFile(d, path[|path| - 1]);
      assert path[..|path| - 1] + [path[|path| - 1]] == path;
      UpdateTwice(old(Contents()), path, 0, userData);
      SetUserData(f, userData);
    }

    /**
     * `iter`: visits the files of a directory, then its subdirectories, with the path on a stack. The recursion ends
     * because links lead to higher indices.
     */
    method Iter(d: nat, stack: Path, visits: seq<Visit>) returns (stack': Path, visits': seq<Visit>)
      requires Valid() && d < |dirs| && d < |tree.dirPath|
      requires if d == 0 then stack == [] else tree.dirPath[d] != [] && Front(tree.dirPath[d]) == stack
      ensures stack' == stack && visits' == visits + VisitsOf(files, tree.filePath, tree.VisitOrder(d))
      decreases |dirs| - d
    {
      stack' := stack;
      NameOfDir(d);
      if dirs[d].name.Some? {
        stack' := stack' + [strings[dirs[d].name.value]];
      }
      assert stack' == tree.dirPath[d];
      var visitsOfFiles := IterFiles(d, stack', visits);
      visits' := IterKids(d, stack', visitsOfFiles);
      OrderOfDir(d, visits);
      if dirs[d].name.Some? {
        stack' := stack'[..|stack'| - 1];
      }
    }

    /** The loop of `iter` over files. */
    method IterFiles(d: nat, stack: Path, visits: seq<Visit>) returns (visits': seq<Visit>)
      requires Valid() && d < |dirs| && d < |tree.dirPath| && stack == tree.dirPath[d]
      ensures visits' == visits + VisitsOf(files, tree.filePath, tree.held[d])
    {
      Heads(dirs, files, strings, tree, d);
      forall j | 0 <= j < |tree.held[d]|
        ensures FileEntryFits(files, strings, tree.held[d], j, tree.dirPath[d], tree.filePath) {
        HeldEntry(dirs, files, strings, tree, d, j);
      }
      visits' := VisitFiles(files, strings, dirs[d].firstFile, stack, visits, tree.held[d], tree.filePath);
    }

    /** The loop of `iter` over subdirectories. */
    method IterKids(d: nat, stack: Path, visits: seq<Visit>) returns (visits': seq<Visit>)
      requires Valid() && d < |dirs| && d < |tree.dirPath| && stack == tree.dirPath[d]
      ensures visits' == visits + VisitsOf(files, tree.filePath, tree.VisitKids(d, |tree.kids[d]|))
      decreases |dirs| - d, 0
    {
      ghost var j: nat := 0;
      Heads(dirs, files, strings, tree, d);
      var i := dirs[d].firstChild;
      visits' := visits;
      while i.Some?
        invariant j <= |tree.kids[d]| && i == At(tree.kids[d], j)
        invariant visits' == visits + VisitsOf(files, tree.filePath, tree.VisitKids(d, j))
        decreases |tree.kids[d]| - j
      {
        i, visits' := IterKid(d, i.value, stack, visits', visits, j);
        j := j + 1;
      }
    }

    /** One subdirectory, and the one after it. */
    method IterKid(d: nat, kid: nat, stack: Path, visits: seq<Visit>, ghost visits0: seq<Visit>, ghost j: nat)
      returns (next: Option<nat>, visits': seq<Visit>)
      requires Valid() && d < |dirs| && d < |tree.dirPath| && stack == tree.dirPath[d]
      requires j < |tree.kids[d]| && kid == tree.kids[d][j]
      requires visits == visits0 + VisitsOf(files, tree.filePath, tree.VisitKids(d, j))
      ensures next == At(tree.kids[d], j + 1)
      ensures visits' == visits0 + VisitsOf(files, tree.filePath, tree.VisitKids(d, j + 1))
      decreases |dirs| - d, 0, 0
    {
      NextKid(d, j);
      Associative(visits0, VisitsOf(files, tree.filePath, tree.VisitKids(d, j)),
                  VisitsOf(files, tree.filePath, tree.VisitOrder(kid)));
      var stack';
      stack', visits' := Iter(kid, stack, visits);
      next := dirs[kid].nextSibling;
    }

    /** One more subdirectory: where it is linked to, its path, and what its visit adds. */
    lemma {:induction false} NextKid(d: nat, j: nat)
      requires Valid() && d < |dirs| && d < |tree.dirPath| && j < |tree.kids[d]|
      ensures d < tree.kids[d][j] < |dirs| && tree.kids[d][j] < |tree.dirPath| &&
              dirs[tree.kids[d][j]].nextSibling == At(tree.kids[d], j + 1)
      ensures tree.dirPath[tree.kids[d][j]] != [] && Front(tree.dirPath[tree.kids[d][j]]) == tree.dirPath[d]
      ensures VisitsOf(files, tree.filePath, tree.VisitKids(d, j + 1))
        == VisitsOf(files, tree.filePath, tree.VisitKids(d, j))
          + VisitsOf(files, tree.filePath, tree.VisitOrder(tree.kids[d][j]))
    {
      KidEntry(dirs, files, strings, tree, d, j);
      VisitsAppend(files, tree.filePath, tree.VisitKids(d, j), tree.VisitOrder(tree.kids[d][j]));
    }

    lemma {:induction false} OrderOfDir(d: nat, visits: seq<Visit>)
      requires Valid() && d < |dirs| && d < |tree.kids|
      ensures visits + VisitsOf(files, tree.filePath, tree.held[d])
        + VisitsOf(files, tree.filePath, tree.VisitKids(d, |tree.kids[d]|))
        == visits + VisitsOf(files, tree.filePath, tree.VisitOrder(d))
    {
      VisitsAppend(files, tree.filePath, tree.held[d], tree.VisitKids(d, |tree.kids[d]|));
      Associative(visits, VisitsOf(files, tree.filePath, tree.held[d]),
                  VisitsOf(files, tree.filePath, tree.VisitKids(d, |tree.kids[d]|)));
    }

    lemma {:induction false} NameOfDir(d: nat)
      requires Valid() && d < |dirs|
      ensures d < |tree.dirPath|
      ensures d == 0 ==> dirs[d].name.None? && tree.dirPath[d] == []
      ensures d != 0 ==> tree.dirPath[d] != [] && dirs[d].name.Some? && dirs[d].name.value < |strings|
      ensures d != 0 ==> tree.dirPath[d] == Front(tree.dirPath[d]) + [strings[dirs[d].name.value]]
    {
      if d != 0 {
        assert DirNamed(strings, dirs, tree.dirPath, d);
      }
    }

    /** `iter_root`: every stored path is visited exactly once, with its latest data. */
    method IterRoot() returns (visits: seq<Visit>)
      requires Valid()
      ensures VisitsExactly(visits, Contents())
    {
      visits := [];
      if dirs != [] {
        var stack;
        stack, visits := Iter(0, [], []);
        tree.VisitSeesAllOnce();
        AllVisited(tree.filePath, files, tree.VisitOrder(0));
      }
    }
  }

  /** The last data given for each path. */
  ghost function LastWrites(adds: seq<Visit>, n: nat): map<Path, nat>
    requires n <= |adds|
  {
    if n == 0 then map[] else LastWrites(adds, n - 1)[adds[n - 1].path := adds[n - 1].userData]
  }

  /** Any run of `add_file` calls, then a visit. */
  method IndexAndVisit(adds: seq<Visit>) returns (visits: seq<Visit>)
    requires forall i :: 0 <= i < |adds| ==> adds[i].path != []
    ensures VisitsExactly(visits, LastWrites(adds, |adds|))
  {
    var index := new DirectoryIndexResource();
    for n := 0 to |adds|
      invariant index.Valid() && fresh(index) && index.Contents() == LastWrites(adds, n)
    {
      index.AddFile(adds[n].path, adds[n].userData);
    }
    visits := index.IterRoot();
  }
}
