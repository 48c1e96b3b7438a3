/** `publish`: staged files take the place of the originals, all of them or none. */
module Publish {
  import opened Package

  /** Places a publication touches, by file extension: the target, its backup and the staged file. */
  datatype Place = Target(extension: string) | Backup(extension: string) | Staged(extension: string)

  datatype Entry = File(content: nat) | Directory

  datatype Outcome = Published | OriginalsRestored | RollbackFailed

  /** A file system that may refuse any operation, which then does nothing. `refused` counts how often it did. */
  class FileSystem {
    var entries: map<Place, Entry>
    ghost var refused: nat

    constructor (entries: map<Place, Entry>)
      ensures this.entries == entries && refused == 0
    {
      this.entries, refused := entries, 0;
    }

    /** `fs::rename`: replaces a file, but not a directory. */
    method Rename(from: Place, to: Place) returns (ok: bool)
      requires from != to
      modifies this
      ensures old(refused) <= refused <= old(refused) + 1
      ensures ok <==> refused == old(refused) && from in old(entries) &&
                      (to in old(entries) ==> old(entries)[to].File?)
      ensures ok ==> from in old(entries) && entries == (old(entries) - {from})[to := old(entries)[from]]
      ensures !ok ==> entries == old(entries)
    {
      var happens: bool := *;
      if !happens {
        refused := refused + 1;
      }
      ok := happens && from in entries && (to in entries ==> entries[to].File?);
      if ok {
        entries := (entries - {from})[to := entries[from]];
      }
    }

    method RemoveFile(place: Place) returns (ok: bool)
      modifies this
      ensures old(refused) <= refused <= old(refused) + 1
      ensures ok <==> refused == old(refused) && place in old(entries) && old(entries)[place].File?
      ensures ok ==> entries == old(entries) - {place}
      ensures !ok ==> entries == old(entries)
    {
      var happens: bool := *;
      if !happens {
        refused := refused + 1;
      }
      ok := happens && place in entries && entries[place].File?;
      if ok {
        entries := entries - {place};
      }
    }
  }

  function At(entries: map<Place, Entry>, place: Place): Option<Entry> {
    if place in entries then Some(entries[place]) else None
  }

  /** Where the files of one extension are, given whether it has been backed up and published. */
  ghost predicate Accounted(before: map<Place, Entry>, now: map<Place, Entry>, backedUp: bool, published: bool,
                            e: string)
  {
    && At(now, Target(e))
      == (if published then At(before, Staged(e)) else if backedUp then None else At(before, Target(e)))
    && At(now, Backup(e)) == (if backedUp then At(before, Target(e)) else None)
    && (!published ==> At(now, Staged(e)) == At(before, Staged(e)))
    && (backedUp ==> At(before, Target(e)).Some? && At(before, Target(e)).value.File?)
    && (published && !backedUp ==> At(before, Target(e)).None?)
  }

  /** The staged file exists, and its target is not a directory. */
  ghost predicate CanPublish(entries: map<Place, Entry>, e: string) {
    Staged(e) in entries && (Target(e) in entries ==> entries[Target(e)].File?)
  }

  /** The staged entry is not a directory, if it exists. */
  ghost predicate StagedIsFile(entries: map<Place, Entry>, e: string) {
    Staged(e) in entries ==> entries[Staged(e)].File?
  }

  /** The journal of a publication accounts for every extension. */
  ghost predicate Journal(before: map<Place, Entry>, now: map<Place, Entry>, backups: seq<string>,
                          published: seq<string>)
  {
    forall e: string :: Accounted(before, now, e in backups, e in published, e)
  }

  /**
   * One extension: back up the original, then move the staged file to its place. Unless an operation is refused this
   * succeeds exactly when the staged file exists and the target is not a directory.
   */
  method PublishOne(fs: FileSystem, e: string, backups: seq<string>, published: seq<string>,
                    ghost before: map<Place, Entry>)
    returns (ok: bool, backups': seq<string>, published': seq<string>)
    requires Journal(before, fs.entries, backups, published) && e !in backups && e !in published
    modifies fs
    ensures Journal(before, fs.entries, backups', published')
    ensures old(fs.refused) <= fs.refused <= old(fs.refused) + 1
    ensures ok <==> fs.refused == old(fs.refused) && CanPublish(before, e)
    ensures ok ==> published' == published + [e] && At(before, Staged(e)).Some?
    ensures !ok ==> published' == published
    ensures backups' == backups || backups' == backups + [e]
  {
    ok, backups', published' := false, backups, published;
    assert Accounted(before, fs.entries, false, false, e);
    ghost var start := fs.entries;
    if Target(e) in fs.entries {
      if !fs.entries[Target(e)].File? {
        return;
      }
      var moved := fs.Rename(Target(e), Backup(e));
      if !moved {
        return;
      }
      backups' := backups + [e];
    }
    forall f: string ensures Accounted(before, fs.entries, f in backups', f in published, f) {
      assert Accounted(before, start, f in backups, f in published, f);
    }
    ghost var middle := fs.entries;
    ok := fs.Rename(Staged(e), Target(e));
    if ok {
      published' := published + [e];
      forall f: string ensures Accounted(before, fs.entries, f in backups', f in published', f) {
        assert Accounted(before, middle, f in backups', f in published, f);
      }
    }
  }

  /** A target that a rollback has to deal with holds its staged file or nothing, and its original is in the backup. */
  ghost predicate Undoing(before: map<Place, Entry>, now: map<Place, Entry>, backedUp: bool, published: bool, e: string)
  {
    && (published ==> At(now, Target(e)) == At(before, Staged(e)) || At(now, Target(e)).None?)
    && (!published ==> At(now, Target(e)) == if backedUp then None else At(before, Target(e)))
    && At(now, Backup(e)) == (if backedUp then At(before, Target(e)) else None)
    && (backedUp ==> At(before, Target(e)).Some? && At(before, Target(e)).value.File?)
    && (published && !backedUp ==> At(before, Target(e)).None?)
  }

  /** All entries staged for these extensions are files. */
  ghost predicate StagedFiles(entries: map<Place, Entry>, extensions: seq<string>) {
    forall e: string :: e in extensions ==> StagedIsFile(entries, e)
  }

  /** Removes what was published, latest first; files stay only where removing them is refused. */
  method RemovePublished(fs: FileSystem, backups: seq<string>, published: seq<string>, ghost before: map<Place, Entry>)
    returns (errors: nat)
    requires Journal(before, fs.entries, backups, published) && Distinct(published)
    requires forall e: string :: e in published ==> At(before, Staged(e)).Some?
    modifies fs
    ensures old(fs.refused) <= fs.refused
    ensures StagedFiles(before, published) ==> fs.refused == old(fs.refused) + errors
    ensures forall e: string :: Undoing(before, fs.entries, e in backups, e in published, e)
    ensures errors == 0 ==> forall e: string :: e in published ==> At(fs.entries, Target(e)).None?
  {
    errors := 0;
    forall e: string ensures Undoing(before, fs.entries, e in backups, e in published, e) {
      assert Accounted(before, fs.entries, e in backups, e in published, e);
    }
    forall k | 0 <= k < |published| ensures At(fs.entries, Target(published[k])) == At(before, Staged(published[k])) {
      assert Accounted(before, fs.entries, published[k] in backups, true, published[k]);
    }
    for i := |published| downto 0
      invariant forall e: string :: Undoing(before, fs.entries, e in backups, e in published, e)
      invariant errors == 0 ==> forall k :: i <= k < |published| ==> At(fs.entries, Target(published[k])).None?
      invariant forall k :: 0 <= k < i ==> At(fs.entries, Target(published[k])) == At(before, Staged(published[k]))
      invariant old(fs.refused) <= fs.refused
      invariant StagedFiles(before, published) ==> fs.refused == old(fs.refused) + errors
    {
      ghost var start := fs.entries;
      assert published[i] in published;
      var ok := fs.RemoveFile(Target(published[i]));
      if !ok {
        errors := errors + 1;
      }
      forall e: string ensures Undoing(before, fs.entries, e in backups, e in published, e) {
        assert Undoing(before, start, e in backups, e in published, e);
      }
    }
  }

  /** The original is back, or it is still in the backup. */
  ghost predicate Safe(before: map<Place, Entry>, now: map<Place, Entry>, e: string) {
    At(before, Target(e)).Some? ==>
      At(now, Target(e)) == At(before, Target(e)) || At(now, Backup(e)) == At(before, Target(e))
  }

  /** Whether an extension's backup has yet to be moved, and if not and all went well, that its target is as before. */
  ghost predicate Restoring(before: map<Place, Entry>, now: map<Place, Entry>, waiting: bool, clean: bool, e: string) {
    && Safe(before, now, e)
    && (waiting ==> At(now, Backup(e)) == At(before, Target(e)))
    && (clean && !waiting ==> At(now, Target(e)) == At(before, Target(e)))
  }

  /** A backup that has yet to be moved is a file, and what is at its target is nothing or what was staged for it. */
  ghost predicate Replaceable(before: map<Place, Entry>, published: seq<string>, now: map<Place, Entry>, e: string) {
    && At(now, Backup(e)).Some? && At(now, Backup(e)).value.File?
    && (At(now, Target(e)).Some? ==> e in published && At(now, Target(e)) == At(before, Staged(e)))
  }

  /** Moves the backups back, latest first; one stays only where moving it is refused. */
  method RestoreBackups(fs: FileSystem, backups: seq<string>, published: seq<string>, removeErrors: nat,
                        ghost before: map<Place, Entry>)
    returns (errors: nat)
    requires Distinct(backups)
    requires forall e: string :: Undoing(before, fs.entries, e in backups, e in published, e)
    requires removeErrors == 0 ==> forall e: string :: e in published ==> At(fs.entries, Target(e)).None?
    modifies fs
    ensures old(fs.refused) <= fs.refused
    ensures StagedFiles(before, published) ==> fs.refused == old(fs.refused) + errors - removeErrors
    ensures forall e: string :: Safe(before, fs.entries, e)
    ensures errors == 0 ==> forall e: string :: At(fs.entries, Target(e)) == At(before, Target(e))
  {
    errors := removeErrors;
    forall e: string ensures Restoring(before, fs.entries, e in backups, errors == 0, e) {
      assert Undoing(before, fs.entries, e in backups, e in published, e);
    }
    assert backups[..|backups|] == backups;
    forall k | 0 <= k < |backups| ensures Replaceable(before, published, fs.entries, backups[k]) {
      assert Undoing(before, fs.entries, true, backups[k] in published, backups[k]);
    }
    for i := |backups| downto 0
      invariant forall e: string :: Restoring(before, fs.entries, e in backups[..i], errors == 0, e)
      invariant forall k :: 0 <= k < i ==> Replaceable(before, published, fs.entries, backups[k])
      invariant old(fs.refused) <= fs.refused
      invariant StagedFiles(before, published) ==> fs.refused == old(fs.refused) + errors - removeErrors
    {
      ghost var start, clean, waiting := fs.entries, errors == 0, backups[..i + 1];
      assert waiting == backups[..i] + [backups[i]];
      assert backups[i] in waiting && backups[i] !in backups[..i];
      assert Restoring(before, start, true, clean, backups[i]);
      assert Replaceable(before, published, start, backups[i]);
      var ok := fs.Rename(Backup(backups[i]), Target(backups[i]));
      if !ok {
        errors := errors + 1;
      }
      forall e: string ensures Restoring(before, fs.entries, e in backups[..i], errors == 0, e) {
        assert Restoring(before, start, e in waiting, clean, e);
      }
    }
    forall e: string
      ensures Safe(before, fs.entries, e) && (errors == 0 ==> At(fs.entries, Target(e)) == At(before, Target(e))) {
      assert e !in backups[..0];
      assert Restoring(before, fs.entries, e in backups[..0], errors == 0, e);
    }
  }

  /**
   * `publish`, whatever operation fails: success puts every staged file at its target; restored originals mean that the
   * targets are exactly as before; and a failed rollback leaves every original at its target or in its backup. It
   * succeeds exactly when no operation is refused, every staged file exists and no target is a directory; a rollback
   * only fails when an operation of it is refused.
   */
  method PublishAll(fs: FileSystem, extensions: seq<string>) returns (outcome: Outcome)
    requires Distinct(extensions) && forall e: string :: Backup(e) !in fs.entries
    modifies fs
    ensures outcome.Published? <==>
      fs.refused == old(fs.refused) && forall e :: e in extensions ==> CanPublish(old(fs.entries), e)
    ensures StagedFiles(old(fs.entries), extensions) && fs.refused == old(fs.refused) ==> !outcome.RollbackFailed?
    ensures StagedFiles(old(fs.entries), extensions) &&
            (forall e :: e in extensions ==> CanPublish(old(fs.entries), e)) ==>
              (outcome.OriginalsRestored? <==> fs.refused == old(fs.refused) + 1)
    ensures outcome.Published? ==> forall e :: e in extensions ==>
      At(fs.entries, Target(e)) == At(old(fs.entries), Staged(e)) && At(fs.entries, Target(e)).Some?
    ensures !outcome.RollbackFailed? ==> forall e: string ::
      e !in extensions ==> At(fs.entries, Target(e)) == At(old(fs.entries), Target(e))
    ensures outcome.OriginalsRestored? ==> forall e: string ::
      At(fs.entries, Target(e)) == At(old(fs.entries), Target(e))
    ensures outcome.RollbackFailed? ==> forall e: string :: Safe(old(fs.entries), fs.entries, e)
  {
    ghost var before := fs.entries;
    var backups, published, ok := [], [], true;
    var k := 0;
    while k < |extensions| && ok
      invariant 0 <= k <= |extensions| && Journal(before, fs.entries, backups, published) && Distinct(backups)
      invariant forall e :: e in backups || e in published ==> e in extensions[..k]
      invariant Distinct(published) && forall e :: e in published ==> At(before, Staged(e)).Some?
      invariant ok ==> fs.refused == old(fs.refused) && forall e :: e in extensions[..k] ==> CanPublish(before, e)
      invariant !ok ==> old(fs.refused) <= fs.refused <= old(fs.refused) + 1
      invariant !ok ==> fs.refused > old(fs.refused) || exists e :: e in extensions && !CanPublish(before, e)
      invariant ok ==> published == extensions[..k]
    {
      assert extensions[..k + 1] == extensions[..k] + [extensions[k]];
      assert extensions[k] !in extensions[..k];
      ok, backups, published := PublishOne(fs, extensions[k], backups, published, before);
      k := k + 1;
    }
    if ok {
      assert extensions[..k] == extensions;
      forall e: string ensures Accounted(before, fs.entries, e in backups, e in published, e) {
      }
      outcome := Published;
    } else {
      var removeErrors := RemovePublished(fs, backups, published, before);
      var errors := RestoreBackups(fs, backups, published, removeErrors, before);
      outcome := if errors == 0 then OriginalsRestored else RollbackFailed;
    }
  }
}
