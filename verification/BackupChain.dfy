/** What a chain of backups guarantees: how far a restore goes, and what it brings back. */
module BackupChain {
  import opened OrderedMaps
  import opened BackupText
  import opened Archives
  import opened BackupCreate
  import opened BackupRestore

  // ---------------------------------------------------------------------------------------------
  // The longest valid prefix
  // ---------------------------------------------------------------------------------------------

  /** The copy of every table the manifest names is in the archive. */
  ghost predicate Complete(a: Archive) {
    a.manifest.Some? && a.manifest.value.kind.Incremental? ==>
      HasCopies(a.manifest.value.kind.tables, a.files)
  }

  ghost predicate HasCopies(tables: seq<Table>, files: map<string, Content>) {
    forall table :: table in tables ==> CopyPath(table) in files && files[CopyPath(table)].CopyOf?
  }

  lemma {:induction false} CopiesGoThrough(t: Target, tables: seq<Table>, files: map<string, Content>)
    ensures CopyTables(t, tables, files).error.None? <==> HasCopies(tables, files)
    decreases |tables|
  {
    if tables != [] {
      var path := CopyPath(tables[0]);
      assert tables == [tables[0]] + tables[1..];
      if path in files && files[path].CopyOf? {
        CopiesGoThrough(t.(db := Append(t.db, tables[0], files[path].rows)), tables[1..], files);
      }
    }
  }

  ghost predicate HasFiles(entries: seq<Entry>, files: map<string, Content>) {
    forall entry :: entry in entries ==> entry.path in files
  }

  lemma {:induction false} FilesGoThrough(t: Target, entries: seq<Entry>, files: map<string, Content>)
    requires HasFiles(entries, files)
    ensures PutFiles(t, entries, files).error.None?
    ensures PutFiles(t, entries, files).target.db == t.db
    decreases |entries|
  {
    if entries != [] {
      assert forall e :: e in entries[1..] ==> e in entries;
      match ParseObjectPath(entries[0].path)
      case None => FilesGoThrough(t, entries[1..], files);
      case Some(id) =>
        assert entries[0] in entries;
        FilesGoThrough(t.(objects := t.objects[id := files[entries[0].path]]), entries[1..], files);
    }
  }

  lemma IntactHasFiles(sha: Sha, a: Archive)
    requires Intact(sha, a)
    ensures HasFiles(a.manifest.value.files, a.files)
  {
    forall entry | entry in a.manifest.value.files
      ensures entry.path in a.files
    {
      assert Check(sha, a, entry).None?;
    }
  }

  /** A link that holds is applied without an error exactly when its copies are all there. */
  lemma LinkGoesThroughExactlyWhenComplete(sha: Sha, t: Target, previous: Manifest, a: Archive)
    requires LinkError(sha, previous, a).None?
    ensures ApplyIncrement(t, a.manifest.value, a.files).error.None? <==> Complete(a)
  {
    var m := a.manifest.value;
    CopiesGoThrough(t, m.kind.tables, a.files);
    IntactHasFiles(sha, a);
    FilesGoThrough(CopyTables(t, m.kind.tables, a.files).target, m.files, a.files);
  }

  predicate Usable(table: Table, files: map<string, Content>) {
    CopyPath(table) in files && files[CopyPath(table)].CopyOf?
  }

  /** How many tables are copied before the first whose copy is missing. */
  function CopiedTables(tables: seq<Table>, files: map<string, Content>): (n: nat)
    ensures n <= |tables|
    ensures forall i :: 0 <= i < n ==> Usable(tables[i], files)
    decreases |tables|
  {
    if tables == [] || !Usable(tables[0], files) then 0
    else
      assert tables == [tables[0]] + tables[1..];
      1 + CopiedTables(tables[1..], files)
  }

  /** Every table copied before the first missing copy brings no row. */
  predicate BringsNothing(tables: seq<Table>, files: map<string, Content>) {
    forall i :: 0 <= i < CopiedTables(tables, files) ==> files[CopyPath(tables[i])].rows == []
  }

  function RowCount(db: Database): nat {
    |db.operations| + |db.audit| + |db.snapshots|
  }

  lemma BringsNothingStep(tables: seq<Table>, files: map<string, Content>)
    requires tables != [] && Usable(tables[0], files)
    ensures BringsNothing(tables, files) <==>
            files[CopyPath(tables[0])].rows == [] && BringsNothing(tables[1..], files)
  {
    var rest := tables[1..];
    assert CopiedTables(tables, files) == 1 + CopiedTables(rest, files);
    forall i | 0 <= i < CopiedTables(rest, files)
      ensures tables[i + 1] == rest[i]
    {
    }
    if BringsNothing(tables, files) {
      forall i | 0 <= i < CopiedTables(rest, files)
        ensures files[CopyPath(rest[i])].rows == []
      {
        assert files[CopyPath(tables[i + 1])].rows == [];
      }
    }
    if files[CopyPath(tables[0])].rows == [] && BringsNothing(rest, files) {
      forall i | 0 <= i < CopiedTables(tables, files)
        ensures files[CopyPath(tables[i])].rows == []
      {
        assert i > 0 ==> tables[i] == rest[i - 1];
      }
    }
  }

  lemma AppendNothing(db: Database, table: Table, rows: seq<Row>)
    ensures RowCount(Append(db, table, rows)) == RowCount(db) + |rows|
    ensures rows == [] ==> Append(db, table, rows) == db
  {
    assert db.operations + [] == db.operations && db.audit + [] == db.audit && db.snapshots + [] == db.snapshots;
  }

  /** Copying leaves the target as it was exactly when it brings no row. */
  lemma {:induction false} CopiesBringRows(t: Target, tables: seq<Table>, files: map<string, Content>)
    ensures RowCount(CopyTables(t, tables, files).target.db) >= RowCount(t.db)
    ensures CopyTables(t, tables, files).target == t <==> BringsNothing(tables, files)
    decreases |tables|
  {
    if tables != [] && Usable(tables[0], files) {
      var rows := files[CopyPath(tables[0])].rows;
      var next := t.(db := Append(t.db, tables[0], rows));
      AppendNothing(t.db, tables[0], rows);
      BringsNothingStep(tables, files);
      CopiesBringRows(next, tables[1..], files);
      assert CopyTables(t, tables, files) == CopyTables(next, tables[1..], files);
    }
  }

  /** A link that holds but is not complete leaves the target alone exactly when it brings no row. */
  lemma HalfALinkIsHarmlessExactlyWhenEmpty(sha: Sha, t: Target, previous: Manifest, a: Archive)
    requires LinkError(sha, previous, a).None? && !Complete(a)
    ensures ApplyIncrement(t, a.manifest.value, a.files).target == t <==>
            BringsNothing(a.manifest.value.kind.tables, a.files)
  {
    CopiesGoThrough(t, a.manifest.value.kind.tables, a.files);
    CopiesBringRows(t, a.manifest.value.kind.tables, a.files);
  }

  /** How many links hold and are complete, one after the other. */
  ghost function GoodLinks(sha: Sha, previous: Manifest, links: seq<Archive>): (n: nat)
    ensures n <= |links|
    decreases |links|
  {
    if links == [] || LinkError(sha, previous, links[0]).Some? || !Complete(links[0]) then 0
    else 1 + GoodLinks(sha, links[0].manifest.value, links[1..])
  }

  /** The first link that is not good does not hold, or brings no row before its first missing copy. */
  ghost predicate StopsClean(sha: Sha, previous: Manifest, links: seq<Archive>)
    decreases |links|
  {
    links == [] || LinkError(sha, previous, links[0]).Some? ||
    if Complete(links[0]) then StopsClean(sha, links[0].manifest.value, links[1..])
    else BringsNothing(links[0].manifest.value.kind.tables, links[0].files)
  }

  /**
   * How far a replay gets: it fails exactly when some link is not good, and its target is that of
   * the good links before it, and nothing more, if and only if it stops clean.
   */
  lemma {:induction false} RestoreStopsAtTheFirstBadLink(sha: Sha, t: Target, previous: Manifest, links: seq<Archive>)
    ensures var n := GoodLinks(sha, previous, links);
            && Replay(sha, t, previous, links[..n]).error.None?
            && (Replay(sha, t, previous, links).error.None? <==> n == |links|)
            && (Replay(sha, t, previous, links).target == Replay(sha, t, previous, links[..n]).target
                <==> StopsClean(sha, previous, links))
    decreases |links|
  {
    var n := GoodLinks(sha, previous, links);
    if links != [] && LinkError(sha, previous, links[0]).None? {
      var m := links[0].manifest.value;
      LinkGoesThroughExactlyWhenComplete(sha, t, previous, links[0]);
      if Complete(links[0]) {
        var applied := ApplyIncrement(t, m, links[0].files);
        RestoreStopsAtTheFirstBadLink(sha, applied.target, m, links[1..]);
        assert links[..n][1..] == links[1..][..n - 1];
        assert links[..n][0] == links[0];
      } else {
        HalfALinkIsHarmlessExactlyWhenEmpty(sha, t, previous, links[0]);
      }
    }
  }

  ghost predicate GoodFull(sha: Sha, a: Archive) {
    Rejected(sha, a).None? && !a.manifest.value.kind.Incremental? && DUMP_PATH in a.files && a.files[DUMP_PATH].Dump?
  }

  /** How many entries of a chain are good, one after the other. */
  ghost function GoodEntries(sha: Sha, chain: seq<Archive>): (n: nat)
    ensures n <= |chain|
  {
    if chain == [] || !GoodFull(sha, chain[0]) then 0
    else 1 + GoodLinks(sha, chain[0].manifest.value, chain[1..])
  }

  /**
   * The promise of a restore, for every chain: it succeeds exactly when all entries are good, and
   * applies the good entries and nothing from the first bad one on, if and only if that one is
   * the full backup, does not hold, or brings no row before its first missing copy.
   */
  lemma {:induction false} RestoreAppliesOnlyGoodEntriesExactlyWhenItStopsClean(sha: Sha, t: Target,
                                                                                chain: seq<Archive>)
    ensures var n := GoodEntries(sha, chain);
            && (RestoredChain(sha, t, chain).error.None? <==> n == |chain| > 0)
            && (RestoredChain(sha, t, chain).target == (if n == 0 then t else RestoredChain(sha, t, chain[..n]).target)
                <==> n == 0 || StopsClean(sha, chain[0].manifest.value, chain[1..]))
  {
    var n := GoodEntries(sha, chain);
    if n > 0 {
      var a, links := chain[0], chain[1..];
      IntactHasFiles(sha, a);
      FilesGoThrough(t.(db := a.files[DUMP_PATH].db), a.manifest.value.files, a.files);
      RestoreStopsAtTheFirstBadLink(sha, RestoreFull(sha, t, a).target, a.manifest.value, links);
      assert chain[..n][1..] == links[..n - 1] && chain[..n][0] == a;
    }
  }

  /**
   * Verification does not check completeness, so a restore may not stop clean: a manifest that
   * names a table whose copy nobody packed passes, and the restore stops half way into it.
   */
  lemma {:induction false} NamedButMissingCopyStopsHalfWay(sha: Sha, previous: Manifest, row: Row)
    ensures var copy := CopyOf([row]);
            var path := CopyPath(DiagramOperations);
            var m := Manifest(1, [], [Entry(path, sha.file(copy))],
                              Incremental(sha.manifest(previous), 0, [DiagramOperations, AuditEvents]));
            var a := Archive(Some(m), map[path := copy]);
            var empty := Target(Database([], [], []), map[]);
            && LinkError(sha, previous, a).None?
            && Replay(sha, empty, previous, [a]) ==
                 Progress(Target(Database([row], [], []), map[]), Some(CopyUnusable(AuditEvents)))
  {
    var copy := CopyOf([row]);
    var path := CopyPath(DiagramOperations);
    var tables := [DiagramOperations, AuditEvents];
    var m := Manifest(1, [], [Entry(path, sha.file(copy))], Incremental(sha.manifest(previous), 0, tables));
    var a := Archive(Some(m), map[path := copy]);
    var empty := Target(Database([], [], []), map[]);
    assert Check(sha, a, m.files[0]).None?;
    assert CopyPath(DiagramOperations)[12] == 'd' && CopyPath(AuditEvents)[12] == 'a';
    assert tables[1..] == [AuditEvents];
    assert [] + [row] == [row];
    assert CopyTables(empty, tables, a.files) ==
           CopyTables(Target(Database([row], [], []), map[]), [AuditEvents], a.files);
  }

  // ---------------------------------------------------------------------------------------------
  // The last manifest decides the chain
  // ---------------------------------------------------------------------------------------------

  ghost predicate Accepted(sha: Sha, t: Target, chain: seq<Archive>) {
    RestoredChain(sha, t, chain).error.None?
  }

  /** Every entry verifies, the first is a full backup, and each later one names its predecessor. */
  ghost predicate Linked(sha: Sha, chain: seq<Archive>) {
    && chain != []
    && (forall i :: 0 <= i < |chain| ==> Intact(sha, chain[i]))
    && !chain[0].manifest.value.kind.Incremental?
    && (forall i :: 1 <= i < |chain| ==> LinkError(sha, chain[i - 1].manifest.value, chain[i]).None?)
  }

  lemma {:induction false} ReplayedLinksHold(sha: Sha, t: Target, previous: Manifest, links: seq<Archive>, i: nat)
    requires Replay(sha, t, previous, links).error.None? && i < |links|
    ensures i > 0 ==> links[i - 1].manifest.Some?
    ensures LinkError(sha, if i == 0 then previous else links[i - 1].manifest.value, links[i]).None?
    decreases |links|
  {
    if i > 0 {
      var m := links[0].manifest.value;
      var applied := ApplyIncrement(t, m, links[0].files);
      ReplayedLinksHold(sha, applied.target, m, links[1..], i - 1);
    }
  }

  lemma AcceptedIsLinked(sha: Sha, t: Target, chain: seq<Archive>)
    requires Accepted(sha, t, chain)
    ensures Linked(sha, chain)
  {
    var full := RestoreFull(sha, t, chain[0]);
    var m := chain[0].manifest.value;
    forall i | 0 <= i < |chain|
      ensures Intact(sha, chain[i])
    {
      if i > 0 {
        ReplayedLinksHold(sha, full.target, m, chain[1..], i - 1);
      }
    }
    forall i | 1 <= i < |chain|
      ensures LinkError(sha, chain[i - 1].manifest.value, chain[i]).None?
    {
      ReplayedLinksHold(sha, full.target, m, chain[1..], i - 1);
    }
  }

  /** With an injective checksum, two linked chains that end in the same manifest are the same. */
  lemma {:induction false} LastManifestDecides(sha: Sha, c1: seq<Archive>, c2: seq<Archive>)
    requires Injective(sha) && Linked(sha, c1) && Linked(sha, c2)
    requires c1[|c1| - 1].manifest == c2[|c2| - 1].manifest
    ensures |c1| == |c2|
    ensures forall i :: 0 <= i < |c1| ==> c1[i].manifest == c2[i].manifest
    decreases |c1|
  {
    var n1, n2 := |c1| - 1, |c2| - 1;
    assert n1 > 0 ==> LinkError(sha, c1[n1 - 1].manifest.value, c1[n1]).None?;
    assert n2 > 0 ==> LinkError(sha, c2[n2 - 1].manifest.value, c2[n2]).None?;
    if n1 > 0 {
      assert sha.manifest(c1[n1 - 1].manifest.value) == sha.manifest(c2[n2 - 1].manifest.value);
      assert Intact(sha, c1[n1 - 1]) && Intact(sha, c2[n2 - 1]);
      LastManifestDecides(sha, c1[..n1], c2[..n2]);
      forall i | 0 <= i < |c1|
        ensures c1[i].manifest == c2[i].manifest
      {
        if i < n1 {
          assert c1[..n1][i].manifest == c2[..n2][i].manifest;
        }
      }
    }
  }

  /** Whatever a restore reads from the archive is listed in its manifest. */
  ghost predicate ReadsListed(a: Archive) {
    a.manifest.Some? ==>
      match a.manifest.value.kind
      case Full => Lists(a, DUMP_PATH)
      case Incremental(_, _, tables) => forall table :: table in tables ==> Lists(a, CopyPath(table))
  }

  ghost predicate Lists(a: Archive, path: string)
    requires a.manifest.Some?
  {
    exists entry :: entry in a.manifest.value.files && entry.path == path
  }

  ghost predicate AgreeOn(f: map<string, Content>, g: map<string, Content>, path: string) {
    path in f && path in g && f[path] == g[path]
  }

  lemma ListedFilesAgree(sha: Sha, a: Archive, b: Archive, path: string)
    requires Injective(sha) && Intact(sha, a) && Intact(sha, b) && a.manifest == b.manifest && Lists(a, path)
    ensures AgreeOn(a.files, b.files, path)
  {
    var entry :| entry in a.manifest.value.files && entry.path == path;
    ManifestPinsFiles(sha, a, b, entry);
  }

  lemma {:induction false} SameCopies(t: Target, tables: seq<Table>, f: map<string, Content>, g: map<string, Content>)
    requires forall table :: table in tables ==> AgreeOn(f, g, CopyPath(table))
    ensures CopyTables(t, tables, f) == CopyTables(t, tables, g)
    decreases |tables|
  {
    if tables != [] {
      var path := CopyPath(tables[0]);
      assert AgreeOn(f, g, path);
      assert forall table :: table in tables[1..] ==> table in tables;
      if f[path].CopyOf? {
        SameCopies(t.(db := Append(t.db, tables[0], f[path].rows)), tables[1..], f, g);
      }
    }
  }

  lemma {:induction false} SameFiles(t: Target, entries: seq<Entry>, f: map<string, Content>, g: map<string, Content>)
    requires forall entry :: entry in entries ==> AgreeOn(f, g, entry.path)
    ensures PutFiles(t, entries, f) == PutFiles(t, entries, g)
    decreases |entries|
  {
    if entries != [] {
      assert AgreeOn(f, g, entries[0].path);
      assert forall e :: e in entries[1..] ==> e in entries;
      match ParseObjectPath(entries[0].path)
      case None => SameFiles(t, entries[1..], f, g);
      case Some(id) => SameFiles(t.(objects := t.objects[id := f[entries[0].path]]), entries[1..], f, g);
    }
  }

  lemma AllListedFilesAgree(sha: Sha, a: Archive, b: Archive)
    requires Injective(sha) && Intact(sha, a) && Intact(sha, b) && a.manifest == b.manifest
    ensures forall entry :: entry in a.manifest.value.files ==> AgreeOn(a.files, b.files, entry.path)
  {
    forall entry | entry in a.manifest.value.files
      ensures AgreeOn(a.files, b.files, entry.path)
    {
      ManifestPinsFiles(sha, a, b, entry);
    }
  }

  lemma SameIncrement(sha: Sha, t: Target, a: Archive, b: Archive)
    requires Injective(sha) && Intact(sha, a) && Intact(sha, b) && a.manifest == b.manifest && ReadsListed(a)
    requires a.manifest.value.kind.Incremental?
    ensures ApplyIncrement(t, a.manifest.value, a.files) == ApplyIncrement(t, b.manifest.value, b.files)
  {
    var m := a.manifest.value;
    forall table | table in m.kind.tables
      ensures AgreeOn(a.files, b.files, CopyPath(table))
    {
      ListedFilesAgree(sha, a, b, CopyPath(table));
    }
    SameCopies(t, m.kind.tables, a.files, b.files);
    AllListedFilesAgree(sha, a, b);
    SameFiles(CopyTables(t, m.kind.tables, a.files).target, m.files, a.files, b.files);
  }

  lemma {:induction false} SameReplay(sha: Sha, t: Target, previous: Manifest, l1: seq<Archive>, l2: seq<Archive>)
    requires Injective(sha) && |l1| == |l2|
    requires forall i :: 0 <= i < |l1| ==>
               Intact(sha, l1[i]) && Intact(sha, l2[i]) && l1[i].manifest == l2[i].manifest && ReadsListed(l1[i])
    ensures Replay(sha, t, previous, l1) == Replay(sha, t, previous, l2)
    decreases |l1|
  {
    if l1 != [] && LinkError(sha, previous, l1[0]).None? {
      SameIncrement(sha, t, l1[0], l2[0]);
      var applied := ApplyIncrement(t, l1[0].manifest.value, l1[0].files);
      SameReplay(sha, applied.target, l1[0].manifest.value, l1[1..], l2[1..]);
    }
  }

  /**
   * The last manifest vouches for everything: two accepted chains that end in it consist of the
   * same manifests and restore the same rows and the same objects.
   */
  lemma LastManifestDecidesTheRestore(sha: Sha, t: Target, c1: seq<Archive>, c2: seq<Archive>)
    requires Injective(sha) && Accepted(sha, t, c1) && Accepted(sha, t, c2)
    requires c1[|c1| - 1].manifest == c2[|c2| - 1].manifest
    requires forall a :: a in c1 ==> ReadsListed(a)
    ensures |c1| == |c2| && forall i :: 0 <= i < |c1| ==> c1[i].manifest == c2[i].manifest
    ensures RestoredChain(sha, t, c1) == RestoredChain(sha, t, c2)
  {
    AcceptedIsLinked(sha, t, c1);
    AcceptedIsLinked(sha, t, c2);
    LastManifestDecides(sha, c1, c2);
    var a, b := c1[0], c2[0];
    assert a in c1;
    ListedFilesAgree(sha, a, b, DUMP_PATH);
    AllListedFilesAgree(sha, a, b);
    SameFiles(t.(db := a.files[DUMP_PATH].db), a.manifest.value.files, a.files, b.files);
    var full := RestoreFull(sha, t, a);
    assert full == RestoreFull(sha, t, b);
    forall i | 0 <= i < |c1| - 1
      ensures Intact(sha, c1[1..][i]) && Intact(sha, c2[1..][i]) && c1[1..][i].manifest == c2[1..][i].manifest
      ensures ReadsListed(c1[1..][i])
    {
      assert c1[1..][i] == c1[i + 1] && c2[1..][i] == c2[i + 1] && c1[i + 1] in c1;
    }
    SameReplay(sha, full.target, a.manifest.value, c1[1..], c2[1..]);
  }
}
