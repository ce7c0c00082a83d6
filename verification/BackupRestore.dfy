/** Restoring a full backup and the chain of increments on top of it. */
module BackupRestore {
  import opened OrderedMaps
  import opened BackupText
  import opened Archives
  import opened BackupCreate

  /** Where a restore goes: the tables, and the objects by (bucket, key). */
  datatype Target = Target(db: Database, objects: map<(string, string), Content>)

  datatype ChainError =
    | EmptyChain | NoManifestFound | VerificationFailed | NotAFullBackup | NotAnIncrement | BrokenLink
    | DumpUnusable | CopyUnusable(table: Table) | FileMissing(path: string)

  /** What has been applied so far, and the error that stopped the restore, if one did. */
  datatype Progress = Progress(target: Target, error: Option<ChainError>)

  function CopyTables(t: Target, tables: seq<Table>, files: map<string, Content>): Progress
    decreases |tables|
  {
    if tables == [] then Progress(t, None)
    else
      var path := CopyPath(tables[0]);
      if path !in files || !files[path].CopyOf? then Progress(t, Some(CopyUnusable(tables[0])))
      else CopyTables(t.(db := Append(t.db, tables[0], files[path].rows)), tables[1..], files)
  }

  function PutFiles(t: Target, entries: seq<Entry>, files: map<string, Content>): Progress
    decreases |entries|
  {
    if entries == [] then Progress(t, None)
    else
      match ParseObjectPath(entries[0].path)
      case None => PutFiles(t, entries[1..], files)
      case Some(id) =>
        if entries[0].path !in files then Progress(t, Some(FileMissing(entries[0].path)))
        else PutFiles(t.(objects := t.objects[id := files[entries[0].path]]), entries[1..], files)
  }

  /** Why an archive is not accepted as it is, if it is not. */
  ghost function Rejected(sha: Sha, a: Archive): Option<ChainError> {
    if a.manifest.None? then Some(NoManifestFound) else if !Intact(sha, a) then Some(VerificationFailed) else None
  }

  ghost function RestoreFull(sha: Sha, t: Target, a: Archive): Progress {
    if Rejected(sha, a).Some? then Progress(t, Rejected(sha, a))
    else if DUMP_PATH !in a.files || !a.files[DUMP_PATH].Dump? then Progress(t, Some(DumpUnusable))
    else PutFiles(t.(db := a.files[DUMP_PATH].db), a.manifest.value.files, a.files)
  }

  /** Why an archive is not the next link after `previous`, if it is not. */
  ghost function LinkError(sha: Sha, previous: Manifest, a: Archive): Option<ChainError> {
    if Rejected(sha, a).Some? then Rejected(sha, a)
    else if !a.manifest.value.kind.Incremental? then Some(NotAnIncrement)
    else if a.manifest.value.kind.baseManifestChecksum != sha.manifest(previous) then Some(BrokenLink)
    else None
  }

  function ApplyIncrement(t: Target, m: Manifest, files: map<string, Content>): Progress
    requires m.kind.Incremental?
  {
    var copied := CopyTables(t, m.kind.tables, files);
    if copied.error.Some? then copied else PutFiles(copied.target, m.files, files)
  }

  ghost function Replay(sha: Sha, t: Target, previous: Manifest, links: seq<Archive>): Progress
    decreases |links|
  {
    if links == [] then Progress(t, None)
    else if LinkError(sha, previous, links[0]).Some? then Progress(t, LinkError(sha, previous, links[0]))
    else
      var m := links[0].manifest.value;
      var applied := ApplyIncrement(t, m, links[0].files);
      if applied.error.Some? then applied else Replay(sha, applied.target, m, links[1..])
  }

  ghost function RestoredChain(sha: Sha, t: Target, chain: seq<Archive>): Progress {
    if chain == [] then Progress(t, Some(EmptyChain))
    else if Rejected(sha, chain[0]).Some? then Progress(t, Rejected(sha, chain[0]))
    else if chain[0].manifest.value.kind.Incremental? then Progress(t, Some(NotAFullBackup))
    else
      var full := RestoreFull(sha, t, chain[0]);
      if full.error.Some? then full else Replay(sha, full.target, chain[0].manifest.value, chain[1..])
  }

  class Restorer {
    var db: Database
    var objects: map<(string, string), Content>

    constructor ()
      ensures View() == Target(Database([], [], []), map[])
    {
      db, objects := Database([], [], []), map[];
    }

    function View(): Target
      reads this
    {
      Target(db, objects)
    }

    method PutObjects(entries: seq<Entry>, files: map<string, Content>) returns (error: Option<ChainError>)
      modifies this
      ensures Progress(View(), error) == PutFiles(old(View()), entries, files)
    {
      for i := 0 to |entries|
        invariant PutFiles(View(), entries[i..], files) == PutFiles(old(View()), entries, files)
      {
        assert entries[i..][1..] == entries[i + 1..];
        var objectPath := ParseObjectPath(entries[i].path);
        if objectPath.None? { continue; }
        if entries[i].path !in files {
          return Some(FileMissing(entries[i].path));
        }
        objects := objects[objectPath.value := files[entries[i].path]];
      }
      return None;
    }

    method CopyInto(tables: seq<Table>, files: map<string, Content>) returns (error: Option<ChainError>)
      modifies this
      ensures Progress(View(), error) == CopyTables(old(View()), tables, files)
    {
      for i := 0 to |tables|
        invariant CopyTables(View(), tables[i..], files) == CopyTables(old(View()), tables, files)
      {
        assert tables[i..][1..] == tables[i + 1..];
        var path := CopyPath(tables[i]);
        if path !in files || !files[path].CopyOf? {
          return Some(CopyUnusable(tables[i]));
        }
        db := Append(db, tables[i], files[path].rows);
      }
      return None;
    }

    /** Restores one full backup; a backup that does not verify touches nothing. */
    method RestoreBackup(sha: Sha, backup: Archive) returns (error: Option<ChainError>)
      modifies this
      ensures Progress(View(), error) == RestoreFull(sha, old(View()), backup)
    {
      var verification := VerifyBackup(sha, backup);
      if verification.NoManifest? { return Some(NoManifestFound); }
      if verification.mismatches != [] { return Some(VerificationFailed); }
      if DUMP_PATH !in backup.files || !backup.files[DUMP_PATH].Dump? { return Some(DumpUnusable); }
      db := backup.files[DUMP_PATH].db;
      error := PutObjects(verification.manifest.files, backup.files);
    }

    /**
     * Restores a full backup and the increments after it, in order. Each link is verified against
     * the manifest before it, and the first that does not hold stops the restore.
     */
    method RestoreIncrementalChain(sha: Sha, chain: seq<Archive>) returns (error: Option<ChainError>)
      modifies this
      ensures Progress(View(), error) == RestoredChain(sha, old(View()), chain)
    {
      if |chain| == 0 { return Some(EmptyChain); }
      var baseVerification := VerifyBackup(sha, chain[0]);
      if baseVerification.NoManifest? { return Some(NoManifestFound); }
      if baseVerification.mismatches != [] { return Some(VerificationFailed); }
      if baseVerification.manifest.kind.Incremental? { return Some(NotAFullBackup); }
      error := RestoreBackup(sha, chain[0]);
      if error.Some? { return; }
      error := ApplyLinks(sha, baseVerification.manifest, chain[1..]);
    }

    method ApplyLinks(sha: Sha, base: Manifest, links: seq<Archive>) returns (error: Option<ChainError>)
      modifies this
      ensures Progress(View(), error) == Replay(sha, old(View()), base, links)
    {
      var previousManifest := base;
      for i := 0 to |links|
        invariant Replay(sha, View(), previousManifest, links[i..]) == Replay(sha, old(View()), base, links)
      {
        assert links[i..][1..] == links[i + 1..];
        var verification := VerifyBackup(sha, links[i]);
        if verification.NoManifest? { return Some(NoManifestFound); }
        if verification.mismatches != [] { return Some(VerificationFailed); }
        var manifest := verification.manifest;
        if !manifest.kind.Incremental? { return Some(NotAnIncrement); }
        if manifest.kind.baseManifestChecksum != sha.manifest(previousManifest) { return Some(BrokenLink); }
        error := CopyInto(manifest.kind.tables, links[i].files);
        if error.Some? { return; }
        error := PutObjects(manifest.files, links[i].files);
        if error.Some? { return; }
        previousManifest := manifest;
      }
      return None;
    }
  }
}
