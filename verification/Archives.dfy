/** Backup archives: files, the manifest that lists them, and their verification. */
module Archives {
  import opened OrderedMaps
  import opened BackupText

  datatype Table = DiagramOperations | AuditEvents | DiagramSnapshots

  const INCREMENTAL_TABLES: seq<Table> := [DiagramOperations, AuditEvents, DiagramSnapshots]

  /** The append-only tables; rows stand in the order they were inserted. */
  datatype Database = Database(operations: seq<Row>, audit: seq<Row>, snapshots: seq<Row>)

  function Rows(db: Database, table: Table): seq<Row> {
    match table
    case DiagramOperations => db.operations
    case AuditEvents => db.audit
    case DiagramSnapshots => db.snapshots
  }

  function Append(db: Database, table: Table, rows: seq<Row>): Database {
    match table
    case DiagramOperations => db.(operations := db.operations + rows)
    case AuditEvents => db.(audit := db.audit + rows)
    case DiagramSnapshots => db.(snapshots := db.snapshots + rows)
  }

  /** What a file holds: a full dump, the captured rows of a table, or an object's bytes. */
  datatype Content = Dump(db: Database) | CopyOf(rows: seq<Row>) | Blob(bytes: string)

  datatype Entry = Entry(path: string, sha256: string)

  datatype Kind = Full | Incremental(baseManifestChecksum: string, sinceTimestamp: int, tables: seq<Table>)

  datatype Manifest = Manifest(createdAt: int, buckets: seq<string>, files: seq<Entry>, kind: Kind)

  datatype Archive = Archive(manifest: Option<Manifest>, files: map<string, Content>)

  /** The checksum, of a file's content and of a manifest's text. */
  datatype Sha = Sha(file: Content -> string, manifest: Manifest -> string)

  ghost predicate Injective(sha: Sha) {
    && (forall a, b :: sha.file(a) == sha.file(b) ==> a == b)
    && (forall a, b :: sha.manifest(a) == sha.manifest(b) ==> a == b)
  }

  datatype Mismatch = MissingFile(path: string) | WrongChecksum(path: string)

  function Check(sha: Sha, a: Archive, entry: Entry): Option<Mismatch> {
    if entry.path !in a.files then Some(MissingFile(entry.path))
    else if sha.file(a.files[entry.path]) != entry.sha256 then Some(WrongChecksum(entry.path))
    else None
  }

  function Mismatches(sha: Sha, a: Archive, entries: seq<Entry>): seq<Mismatch> {
    if entries == [] then []
    else
      var before := Mismatches(sha, a, entries[..|entries| - 1]);
      match Check(sha, a, entries[|entries| - 1])
      case None => before
      case Some(m) => before + [m]
  }

  datatype VerifyResult = NoManifest | Verified(manifest: Manifest, mismatches: seq<Mismatch>)

  /** Every file the manifest lists is there and has the recorded checksum. */
  ghost predicate Intact(sha: Sha, a: Archive) {
    a.manifest.Some? && forall entry :: entry in a.manifest.value.files ==> Check(sha, a, entry).None?
  }

  method VerifyBackup(sha: Sha, a: Archive) returns (result: VerifyResult)
    ensures result.NoManifest? <==> a.manifest.None?
    ensures result.Verified? ==>
              && result.manifest == a.manifest.value
              && result.mismatches == Mismatches(sha, a, result.manifest.files)
              && (result.mismatches == [] <==> Intact(sha, a))
    ensures result.Verified? ==>
              forall path ::
                && (MissingFile(path) in result.mismatches <==>
                      path !in a.files && exists entry :: entry in result.manifest.files && entry.path == path)
                && (WrongChecksum(path) in result.mismatches <==>
                      path in a.files && exists entry :: entry in result.manifest.files && entry.path == path
                                                         && entry.sha256 != sha.file(a.files[path]))
  {
    if a.manifest.None? {
      return NoManifest;
    }
    var manifest := a.manifest.value;
    var mismatches: seq<Mismatch> := [];
    for i := 0 to |manifest.files|
      invariant mismatches == Mismatches(sha, a, manifest.files[..i])
    {
      var entry := manifest.files[i];
      assert manifest.files[..i + 1][..i] == manifest.files[..i];
      if entry.path !in a.files {
        mismatches := mismatches + [MissingFile(entry.path)];
        continue;
      }
      if sha.file(a.files[entry.path]) != entry.sha256 {
        mismatches := mismatches + [WrongChecksum(entry.path)];
      }
    }
    assert manifest.files[..|manifest.files|] == manifest.files;
    NoMismatches(sha, a, manifest.files);
    MismatchesSayWhat(sha, a, manifest.files);
    return Verified(manifest, mismatches);
  }

  lemma {:induction false} NoMismatches(sha: Sha, a: Archive, entries: seq<Entry>)
    ensures Mismatches(sha, a, entries) == [] <==> forall entry :: entry in entries ==> Check(sha, a, entry).None?
  {
    if entries != [] {
      var front, last := entries[..|entries| - 1], entries[|entries| - 1];
      NoMismatches(sha, a, front);
      MembersOfSnoc(entries);
      if Check(sha, a, last).Some? {
        assert Mismatches(sha, a, entries) == Mismatches(sha, a, front) + [Check(sha, a, last).value];
      } else {
        assert Mismatches(sha, a, entries) == Mismatches(sha, a, front);
      }
    }
  }

  /** The listed files that are missing are reported as missing, those with another checksum as wrong. */
  lemma {:induction false} MismatchesSayWhat(sha: Sha, a: Archive, entries: seq<Entry>)
    ensures forall path ::
              && (MissingFile(path) in Mismatches(sha, a, entries) <==>
                    path !in a.files && exists entry :: entry in entries && entry.path == path)
              && (WrongChecksum(path) in Mismatches(sha, a, entries) <==>
                    path in a.files && exists entry :: entry in entries && entry.path == path
                                                       && entry.sha256 != sha.file(a.files[path]))
  {
    if entries != [] {
      MismatchesSayWhat(sha, a, entries[..|entries| - 1]);
      MembersOfSnoc(entries);
    }
  }

  /** One mismatch at most per listed file, in the order of the list. */
  lemma {:induction false} MismatchesInOrder(sha: Sha, a: Archive, entries: seq<Entry>, entry: Entry)
    ensures Mismatches(sha, a, []) == []
    ensures Mismatches(sha, a, entries + [entry]) ==
            Mismatches(sha, a, entries) +
            if entry.path !in a.files then [MissingFile(entry.path)]
            else if sha.file(a.files[entry.path]) == entry.sha256 then []
            else [WrongChecksum(entry.path)]
  {
    assert (entries + [entry])[..|entries|] == entries;
  }

  lemma MembersOfSnoc(entries: seq<Entry>)
    requires entries != []
    ensures forall entry :: entry in entries <==> entry in entries[..|entries| - 1] || entry == entries[|entries| - 1]
  {
    assert entries == entries[..|entries| - 1] + [entries[|entries| - 1]];
  }

  /** With an injective checksum the manifest pins down every file it lists. */
  lemma ManifestPinsFiles(sha: Sha, a: Archive, b: Archive, entry: Entry)
    requires Injective(sha) && Intact(sha, a) && Intact(sha, b) && a.manifest == b.manifest
    requires entry in a.manifest.value.files
    ensures entry.path in a.files && entry.path in b.files && a.files[entry.path] == b.files[entry.path]
  {
    assert Check(sha, a, entry).None? && Check(sha, b, entry).None?;
  }

  // ---------------------------------------------------------------------------------------------
  // Packing
  // ---------------------------------------------------------------------------------------------

  /** An archive under construction: files by path, and the entries in the order they were added. */
  datatype Draft = Draft(files: map<string, Content>, entries: seq<Entry>)

  function AddFile(sha: Sha, d: Draft, path: string, content: Content): Draft {
    Draft(d.files[path := content], d.entries + [Entry(path, sha.file(content))])
  }

  datatype Item = Item(path: string, content: Content)

  function AddAll(sha: Sha, items: seq<Item>): Draft {
    if items == [] then Draft(map[], [])
    else
      var last := items[|items| - 1];
      AddFile(sha, AddAll(sha, items[..|items| - 1]), last.path, last.content)
  }

  /** No two files of different content go by the same path. */
  ghost predicate Consistent(items: seq<Item>) {
    forall a, b :: a in items && b in items && a.path == b.path ==> a == b
  }

  /** The files packed are those added, and the entries list them with their checksums. */
  lemma {:induction false} PackedIsIntact(sha: Sha, items: seq<Item>)
    requires Consistent(items)
    ensures var d := AddAll(sha, items);
            && (forall item :: item in items ==> item.path in d.files && d.files[item.path] == item.content)
            && (forall path :: path in d.files ==> exists item :: item in items && item.path == path)
            && (forall e :: e in d.entries <==>
                  exists item :: item in items && e == Entry(item.path, sha.file(item.content)))
  {
    if items != [] {
      var front, last := items[..|items| - 1], items[|items| - 1];
      assert items == front + [last];
      assert forall item :: item in items <==> item in front || item == last;
      PackedIsIntact(sha, front);
    }
  }

  function Packed(sha: Sha, items: seq<Item>, createdAt: int, buckets: seq<string>, kind: Kind): Archive {
    var d := AddAll(sha, items);
    Archive(Some(Manifest(createdAt, buckets, d.entries, kind)), d.files)
  }

  /** What the packer writes passes verification, unless two different files share a path. */
  lemma PackedVerifies(sha: Sha, items: seq<Item>, createdAt: int, buckets: seq<string>, kind: Kind)
    requires Consistent(items)
    ensures Intact(sha, Packed(sha, items, createdAt, buckets, kind))
  {
    PackedIsIntact(sha, items);
    var a := Packed(sha, items, createdAt, buckets, kind);
    forall entry | entry in a.manifest.value.files
      ensures Check(sha, a, entry).None?
    {
      var item :| item in items && entry == Entry(item.path, sha.file(item.content));
    }
  }
}
