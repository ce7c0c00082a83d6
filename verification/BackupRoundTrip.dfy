/** From captures to archives and back: a restored chain against what was there at the last capture. */
module BackupRoundTrip {
  import opened OrderedMaps
  import opened BackupText
  import opened Archives
  import opened BackupCreate
  import opened BackupRestore
  import opened BackupChain
  import opened BackupConservation
  import opened BackupObjects

  // ---------------------------------------------------------------------------------------------
  // Chains
  // ---------------------------------------------------------------------------------------------

  /** What a backup found: the tables, the object store, and the time written into its manifest. */
  datatype Capture = Capture(db: Database, objects: Objects, createdAt: int)

  /** `a` is the increment made on top of `base` from what `c` found. */
  ghost predicate MadeOnTop(sha: Sha, bucket: string, base: Archive, c: Capture, a: Archive) {
    base.manifest.Some? &&
    exists keys ::
      && KeysSince(c.db, base.manifest.value.createdAt, keys)
      && ObjectItems(c.objects, bucket, keys).Some?
      && a == Increment(sha, base.manifest.value, c.db, c.objects, bucket, keys, c.createdAt)
  }

  /** A full backup of some buckets, then increments, each made on top of the one before. */
  ghost predicate MadeFrom(sha: Sha, bucket: string, buckets: seq<string>, captures: seq<Capture>,
                           chain: seq<Archive>) {
    && |chain| == |captures| > 0
    && captures[0].objects.Valid()
    && chain[0] ==
         Packed(sha, FullItems(captures[0].db, captures[0].objects, buckets), captures[0].createdAt, buckets, Full)
    && forall i :: 1 <= i < |chain| ==> MadeAt(sha, bucket, captures, chain, i)
  }

  ghost predicate MadeAt(sha: Sha, bucket: string, captures: seq<Capture>, chain: seq<Archive>, i: nat)
    requires 1 <= i < |chain| == |captures|
  {
    MadeOnTop(sha, bucket, chain[i - 1], captures[i], chain[i])
  }

  function History(captures: seq<Capture>, table: Table): seq<seq<Row>> {
    seq(|captures|, i requires 0 <= i < |captures| => Rows(captures[i].db, table))
  }

  function Times(captures: seq<Capture>): seq<int> {
    seq(|captures|, i requires 0 <= i < |captures| => captures[i].createdAt)
  }

  /** An increment's key list has this object's key, and its path leads back to it. */
  ghost predicate Taken(c: Capture, since: int, bucket: string, id: (string, string)) {
    && id.0 == bucket && PlainKey(id.1)
    && MentionedIn(Split(CopyText(DumpSince(Rows(c.db, DiagramSnapshots), since)), '\n'), id.1)
  }

  lemma CopiesComeBack(t: Target, db: Database, since: int, files: map<string, Content>)
    requires forall table ::
               CopyPath(table) in files && files[CopyPath(table)] == CopyOf(DumpSince(Rows(db, table), since))
    ensures var copied := CopyTables(t, INCREMENTAL_TABLES, files);
            && copied.error.None? && copied.target.objects == t.objects
            && forall table :: Rows(copied.target.db, table) == Rows(t.db, table) + DumpSince(Rows(db, table), since)
  {
    var t1 := t.(db := Append(t.db, DiagramOperations, DumpSince(Rows(db, DiagramOperations), since)));
    var t2 := t1.(db := Append(t1.db, AuditEvents, DumpSince(Rows(db, AuditEvents), since)));
    var t3 := t2.(db := Append(t2.db, DiagramSnapshots, DumpSince(Rows(db, DiagramSnapshots), since)));
    assert INCREMENTAL_TABLES[1..] == [AuditEvents, DiagramSnapshots];
    assert [AuditEvents, DiagramSnapshots][1..] == [DiagramSnapshots];
    assert CopyTables(t2, [DiagramSnapshots], files) == Progress(t3, None);
    assert CopyTables(t1, [AuditEvents, DiagramSnapshots], files) == Progress(t3, None);
  }

  lemma CopiesAreItems(db: Database, since: int, blobs: seq<Item>, table: Table)
    ensures CopyItem(db, table, since) in CopyItems(db, since) + blobs
  {
    var items := CopyItems(db, since) + blobs;
    match table
    case DiagramOperations => assert items[0] == CopyItem(db, table, since);
    case AuditEvents => assert items[1] == CopyItem(db, table, since);
    case DiagramSnapshots => assert items[2] == CopyItem(db, table, since);
  }

  lemma {:induction false} CopyIsPacked(sha: Sha, db: Database, since: int, items: seq<Item>, table: Table)
    requires Consistent(items) && CopyItem(db, table, since) in items
    ensures var files := AddAll(sha, items).files;
            CopyPath(table) in files && files[CopyPath(table)] == CopyOf(DumpSince(Rows(db, table), since))
  {
    PackedIsIntact(sha, items);
  }

  /** An increment is the next link of the chain. */
  lemma IncrementLinks(sha: Sha, bucket: string, base: Archive, c: Capture, a: Archive) returns (keys: seq<string>)
    requires PlainBucket(bucket) && MadeOnTop(sha, bucket, base, c, a)
    ensures LinkError(sha, base.manifest.value, a).None?
    ensures a.manifest.value.createdAt == c.createdAt
    ensures KeysSince(c.db, base.manifest.value.createdAt, keys) && ObjectItems(c.objects, bucket, keys).Some?
    ensures a == Increment(sha, base.manifest.value, c.db, c.objects, bucket, keys, c.createdAt)
  {
    var since := base.manifest.value.createdAt;
    keys :| && KeysSince(c.db, since, keys)
            && ObjectItems(c.objects, bucket, keys).Some?
            && a == Increment(sha, base.manifest.value, c.db, c.objects, bucket, keys, c.createdAt);
    IncrementIsConsistent(c.db, since, c.objects, bucket, keys);
    PackedVerifies(sha, IncrementItems(c.db, since, c.objects, bucket, keys), c.createdAt,
                   a.manifest.value.buckets, a.manifest.value.kind);
  }

  lemma {:induction false} IncrementAppends(sha: Sha, t: Target, c: Capture, since: int, bucket: string,
                                            keys: seq<string>)
    requires PlainBucket(bucket) && ObjectItems(c.objects, bucket, keys).Some?
    ensures var files := AddAll(sha, IncrementItems(c.db, since, c.objects, bucket, keys)).files;
            var copied := CopyTables(t, INCREMENTAL_TABLES, files);
            && copied.error.None? && copied.target.objects == t.objects
            && forall table :: Rows(copied.target.db, table) == Rows(t.db, table) + DumpSince(Rows(c.db, table), since)
  {
    var items := IncrementItems(c.db, since, c.objects, bucket, keys);
    IncrementIsConsistent(c.db, since, c.objects, bucket, keys);
    forall table
      ensures var files := AddAll(sha, items).files;
              CopyPath(table) in files && files[CopyPath(table)] == CopyOf(DumpSince(Rows(c.db, table), since))
    {
      CopiesAreItems(c.db, since, ObjectItems(c.objects, bucket, keys).value, table);
      CopyIsPacked(sha, c.db, since, items, table);
    }
    CopiesComeBack(t, c.db, since, AddAll(sha, items).files);
  }

  /** Applying an increment appends its rows to each table. */
  lemma IncrementRowsComeBack(sha: Sha, bucket: string, base: Archive, c: Capture, a: Archive, t: Target)
    requires PlainBucket(bucket) && MadeOnTop(sha, bucket, base, c, a)
    ensures a.manifest.Some? && a.manifest.value.kind.Incremental?
    ensures var applied := ApplyIncrement(t, a.manifest.value, a.files);
            && applied.error.None?
            && forall table :: Rows(applied.target.db, table) ==
                               Rows(t.db, table) + DumpSince(Rows(c.db, table), base.manifest.value.createdAt)
  {
    var keys := IncrementLinks(sha, bucket, base, c, a);
    var since := base.manifest.value.createdAt;
    IncrementAppends(sha, t, c, since, bucket, keys);
    IncrementIsConsistent(c.db, since, c.objects, bucket, keys);
    IncrementItemsAreObjects(c.db, since, c.objects, bucket, keys);
    var copied := CopyTables(t, INCREMENTAL_TABLES, a.files).target;
    ItemsComeBack(sha, copied, c.objects, IncrementItems(c.db, since, c.objects, bucket, keys));
  }

  /** Applying an increment puts the objects it took, and touches no other. */
  lemma IncrementObjectsComeBack(sha: Sha, bucket: string, base: Archive, c: Capture, a: Archive, t: Target,
                                 id: (string, string))
    requires PlainBucket(bucket) && MadeOnTop(sha, bucket, base, c, a)
    ensures a.manifest.Some? && a.manifest.value.kind.Incremental?
    ensures var objects := ApplyIncrement(t, a.manifest.value, a.files).target.objects;
            if Taken(c, base.manifest.value.createdAt, bucket, id) then
              id in c.objects.at && id in objects && objects[id] == Blob(c.objects.at[id])
            else (id in objects <==> id in t.objects) && (id in objects ==> objects[id] == t.objects[id])
  {
    var keys := IncrementLinks(sha, bucket, base, c, a);
    var since := base.manifest.value.createdAt;
    IncrementAppends(sha, t, c, since, bucket, keys);
    IncrementIsConsistent(c.db, since, c.objects, bucket, keys);
    IncrementItemsAreObjects(c.db, since, c.objects, bucket, keys);
    var items := IncrementItems(c.db, since, c.objects, bucket, keys);
    var copied := CopyTables(t, INCREMENTAL_TABLES, a.files).target;
    ItemsComeBack(sha, copied, c.objects, items);
    assert Carries(c.objects, items, id) <==> Taken(c, since, bucket, id);
  }

  /** The rows a restore has brought back after the `n`-th archive. */
  ghost predicate RowsUpTo(captures: seq<Capture>, n: nat, t: Target)
    requires n < |captures|
  {
    forall table :: Rows(t.db, table) == Restored(History(captures, table), Times(captures), n)
  }

  /** Every restored object is one of the store's, with the same bytes. */
  ghost predicate Faithful(t: Target, objects: Objects) {
    forall id :: id in t.objects ==> id in objects.at && t.objects[id] == Blob(objects.at[id])
  }

  /** Objects are written once and kept. */
  ghost predicate Kept(before: Objects, after: Objects) {
    forall id :: id in before.at ==> id in after.at && after.at[id] == before.at[id]
  }

  function SceneKey(row: Row): string
    requires |row.columns| == SNAPSHOT_COLUMNS
  {
    row.columns[SCENE_JSON_KEY_INDEX]
  }

  // ---------------------------------------------------------------------------------------------
  // Which objects an increment takes
  // ---------------------------------------------------------------------------------------------

  lemma {:induction false} DumpIsOfSnapshots(rows: seq<Row>, since: int)
    requires SnapshotRows(rows)
    ensures SnapshotRows(DumpSince(rows, since))
  {
    forall k | 0 <= k < |DumpSince(rows, since)|
      ensures |DumpSince(rows, since)[k].columns| == SNAPSHOT_COLUMNS
    {
      DumpMembers(rows, since, DumpSince(rows, since)[k]);
    }
  }

  /** Some dumped snapshot's key is printed as `key`. */
  ghost predicate PrintedIn(rows: seq<Row>, key: string)
    requires SnapshotRows(rows)
  {
    exists k :: 0 <= k < |rows| && PrintedKey(rows[k]) == key
  }

  /** An object is taken exactly when its key is a plain one and the printed form of some dumped key. */
  lemma {:induction false} TakenExactlyWhenPrinted(c: Capture, since: int, bucket: string, key: string)
    requires SnapshotRows(c.db.snapshots) && SnapshotRows(DumpSince(c.db.snapshots, since))
    ensures Taken(c, since, bucket, (bucket, key)) <==>
            PlainKey(key) && PrintedIn(DumpSince(c.db.snapshots, since), key)
  {
    KeysOfADump(DumpSince(c.db.snapshots, since), key);
  }

  /** A dumped snapshot's own object is taken if COPY prints its key as it is and a path can hold it. */
  lemma {:induction false} PlainKeysAreTaken(c: Capture, since: int, bucket: string, row: Row)
    requires SnapshotRows(c.db.snapshots) && row in DumpSince(c.db.snapshots, since)
    requires |row.columns| == SNAPSHOT_COLUMNS && Unescaped(SceneKey(row)) && PlainKey(SceneKey(row))
    ensures Taken(c, since, bucket, (bucket, SceneKey(row)))
  {
    var rows := DumpSince(c.db.snapshots, since);
    DumpIsOfSnapshots(c.db.snapshots, since);
    EscapeIsClean(SceneKey(row));
    var k :| 0 <= k < |rows| && rows[k] == row;
    assert PrintedKey(rows[k]) == SceneKey(row);
    TakenExactlyWhenPrinted(c, since, bucket, SceneKey(row));
  }

  /** The object of a lone snapshot whose key COPY escapes is not taken: another key is looked up. */
  lemma EscapedKeyIsNotTaken(c: Capture, since: int, bucket: string, row: Row)
    requires c.db.snapshots == [row] && row.createdAt > since && |row.columns| == SNAPSHOT_COLUMNS
    ensures Taken(c, since, bucket, (bucket, SceneKey(row))) <==> Unescaped(SceneKey(row)) && PlainKey(SceneKey(row))
  {
    assert [row][..0] == [];
    assert DumpSince([row], since) == [row];
    EscapeIsClean(SceneKey(row));
    TakenExactlyWhenPrinted(c, since, bucket, SceneKey(row));
    assert PrintedIn([row], SceneKey(row)) <==> PrintedKey([row][0]) == SceneKey(row);
  }

  const EMPTY := Target(Database([], [], []), map[])

  /** A full backup brings back the tables, and of its buckets exactly the objects with plain keys. */
  lemma FullComesBack(sha: Sha, c: Capture, buckets: seq<string>)
    requires c.objects.Valid() && PlainBuckets(buckets)
    ensures var a := Packed(sha, FullItems(c.db, c.objects, buckets), c.createdAt, buckets, Full);
            var full := RestoreFull(sha, EMPTY, a);
            && Rejected(sha, a).None? && full.error.None? && full.target.db == c.db
            && (forall id :: id in full.target.objects <==> id in c.objects.at && id.0 in buckets && PlainKey(id.1))
            && Faithful(full.target, c.objects)
  {
    var items := FullItems(c.db, c.objects, buckets);
    FullIsConsistent(c.db, c.objects, buckets);
    PackedVerifies(sha, items, c.createdAt, buckets, Full);
    PackedIsIntact(sha, items);
    assert items[0] == Item(DUMP_PATH, Dump(c.db));
    FullItemsAreObjects(c.db, c.objects, buckets);
    ItemsComeBack(sha, EMPTY.(db := c.db), c.objects, items);
  }

  /** What a restore writes under an object's id: the bytes of the last archive that has it. */
  ghost function Brought(captures: seq<Capture>, bucket: string, buckets: seq<string>, n: nat, id: (string, string))
    : Option<Content>
    requires n < |captures|
  {
    var objects := captures[n].objects.at;
    if n == 0 then
      if id in objects && id.0 in buckets && PlainKey(id.1) then Some(Blob(objects[id])) else None
    else if id in objects && Taken(captures[n], captures[n - 1].createdAt, bucket, id) then Some(Blob(objects[id]))
    else Brought(captures, bucket, buckets, n - 1, id)
  }

  function Stored(t: Target, id: (string, string)): Option<Content> {
    if id in t.objects then Some(t.objects[id]) else None
  }

  /** The objects a restore has brought back after the `n`-th archive. */
  ghost predicate ObjectsUpTo(captures: seq<Capture>, bucket: string, buckets: seq<string>, n: nat, t: Target)
    requires n < |captures|
  {
    forall id :: Stored(t, id) == Brought(captures, bucket, buckets, n, id)
  }

  /** One step of a replay applies the next increment. */
  lemma {:induction false} ReplayStep(sha: Sha, bucket: string, captures: seq<Capture>, chain: seq<Archive>, i: nat,
                                      t: Target)
    requires 1 <= i < |chain| == |captures| && PlainBucket(bucket) && MadeAt(sha, bucket, captures, chain, i)
    ensures chain[i - 1].manifest.Some? && chain[i].manifest.Some? && chain[i].manifest.value.kind.Incremental?
    ensures chain[i].manifest.value.createdAt == captures[i].createdAt
    ensures var m := chain[i].manifest.value;
            var applied := ApplyIncrement(t, m, chain[i].files).target;
            Replay(sha, t, chain[i - 1].manifest.value, chain[i..]) == Replay(sha, applied, m, chain[i + 1..])
  {
    var keys := IncrementLinks(sha, bucket, chain[i - 1], captures[i], chain[i]);
    IncrementRowsComeBack(sha, bucket, chain[i - 1], captures[i], chain[i], t);
    assert chain[i..][1..] == chain[i + 1..];
  }

  lemma RestoredNext(captures: seq<Capture>, table: Table, i: nat)
    requires 1 <= i < |captures|
    ensures Restored(History(captures, table), Times(captures), i) ==
            Restored(History(captures, table), Times(captures), i - 1) +
            DumpSince(Rows(captures[i].db, table), captures[i - 1].createdAt)
  {
    assert History(captures, table)[i] == Rows(captures[i].db, table);
    assert Times(captures)[i - 1] == captures[i - 1].createdAt;
  }

  lemma StepBringsRows(sha: Sha, bucket: string, captures: seq<Capture>, chain: seq<Archive>, i: nat, t: Target)
    requires 1 <= i < |chain| == |captures| && PlainBucket(bucket) && MadeAt(sha, bucket, captures, chain, i)
    requires RowsUpTo(captures, i - 1, t)
    requires chain[i - 1].manifest.Some? && chain[i - 1].manifest.value.createdAt == captures[i - 1].createdAt
    ensures chain[i].manifest.Some? && chain[i].manifest.value.kind.Incremental?
    ensures RowsUpTo(captures, i, ApplyIncrement(t, chain[i].manifest.value, chain[i].files).target)
  {
    var base, c, a := chain[i - 1], captures[i], chain[i];
    IncrementRowsComeBack(sha, bucket, base, c, a, t);
    var applied := ApplyIncrement(t, a.manifest.value, a.files).target;
    forall table
      ensures Rows(applied.db, table) == Restored(History(captures, table), Times(captures), i)
    {
      RestoredNext(captures, table, i);
    }
  }

  lemma {:induction false} ReplayBringsRows(sha: Sha, bucket: string, captures: seq<Capture>, chain: seq<Archive>,
                                            i: nat, t: Target)
    requires 1 <= i <= |chain| == |captures| && PlainBucket(bucket)
    requires forall k :: 1 <= k < |chain| ==> MadeAt(sha, bucket, captures, chain, k)
    requires chain[i - 1].manifest.Some? && chain[i - 1].manifest.value.createdAt == captures[i - 1].createdAt
    requires RowsUpTo(captures, i - 1, t)
    ensures var replayed := Replay(sha, t, chain[i - 1].manifest.value, chain[i..]);
            replayed.error.None? && RowsUpTo(captures, |captures| - 1, replayed.target)
    decreases |chain| - i
  {
    if i < |chain| {
      ReplayStep(sha, bucket, captures, chain, i, t);
      StepBringsRows(sha, bucket, captures, chain, i, t);
      ReplayBringsRows(sha, bucket, captures, chain, i + 1,
        ApplyIncrement(t, chain[i].manifest.value, chain[i].files).target);
    }
  }

  lemma StepBringsObjects(sha: Sha, bucket: string, buckets: seq<string>, captures: seq<Capture>, chain: seq<Archive>,
                          i: nat, t: Target)
    requires 1 <= i < |chain| == |captures| && PlainBucket(bucket) && MadeAt(sha, bucket, captures, chain, i)
    requires ObjectsUpTo(captures, bucket, buckets, i - 1, t)
    requires chain[i - 1].manifest.Some? && chain[i - 1].manifest.value.createdAt == captures[i - 1].createdAt
    ensures chain[i].manifest.Some? && chain[i].manifest.value.kind.Incremental?
    ensures ObjectsUpTo(captures, bucket, buckets, i, ApplyIncrement(t, chain[i].manifest.value, chain[i].files).target)
  {
    var base, c, a := chain[i - 1], captures[i], chain[i];
    IncrementRowsComeBack(sha, bucket, base, c, a, t);
    var applied := ApplyIncrement(t, a.manifest.value, a.files).target;
    forall id
      ensures Stored(applied, id) == Brought(captures, bucket, buckets, i, id)
    {
      IncrementObjectsComeBack(sha, bucket, base, c, a, t, id);
      assert Stored(t, id) == Brought(captures, bucket, buckets, i - 1, id);
    }
  }

  lemma {:induction false} ReplayBringsObjects(sha: Sha, bucket: string, buckets: seq<string>, captures: seq<Capture>,
                                               chain: seq<Archive>, i: nat, t: Target)
    requires 1 <= i <= |chain| == |captures| && PlainBucket(bucket)
    requires forall k :: 1 <= k < |chain| ==> MadeAt(sha, bucket, captures, chain, k)
    requires chain[i - 1].manifest.Some? && chain[i - 1].manifest.value.createdAt == captures[i - 1].createdAt
    requires ObjectsUpTo(captures, bucket, buckets, i - 1, t)
    ensures ObjectsUpTo(captures, bucket, buckets, |captures| - 1,
                        Replay(sha, t, chain[i - 1].manifest.value, chain[i..]).target)
    decreases |chain| - i
  {
    if i < |chain| {
      ReplayStep(sha, bucket, captures, chain, i, t);
      StepBringsObjects(sha, bucket, buckets, captures, chain, i, t);
      var applied := ApplyIncrement(t, chain[i].manifest.value, chain[i].files).target;
      ReplayBringsObjects(sha, bucket, buckets, captures, chain, i + 1, applied);
    }
  }

  lemma FirstRowsComeBack(sha: Sha, captures: seq<Capture>, buckets: seq<string>)
    requires |captures| > 0 && captures[0].objects.Valid() && PlainBuckets(buckets)
    ensures var c := captures[0];
            var a := Packed(sha, FullItems(c.db, c.objects, buckets), c.createdAt, buckets, Full);
            var full := RestoreFull(sha, EMPTY, a);
            RowsUpTo(captures, 0, full.target)
  {
    FullComesBack(sha, captures[0], buckets);
    forall table
      ensures Rows(captures[0].db, table) == Restored(History(captures, table), Times(captures), 0)
    {
      assert History(captures, table)[0] == Rows(captures[0].db, table);
    }
  }

  /** Restoring a chain that was made goes through, and each table holds what the archives captured. */
  lemma ChainComesBack(sha: Sha, bucket: string, buckets: seq<string>, captures: seq<Capture>, chain: seq<Archive>)
    requires MadeFrom(sha, bucket, buckets, captures, chain) && PlainBucket(bucket) && PlainBuckets(buckets)
    ensures RestoredChain(sha, EMPTY, chain).error.None?
    ensures RowsUpTo(captures, |captures| - 1, RestoredChain(sha, EMPTY, chain).target)
  {
    FullComesBack(sha, captures[0], buckets);
    FirstRowsComeBack(sha, captures, buckets);
    ReplayBringsRows(sha, bucket, captures, chain, 1, RestoreFull(sha, EMPTY, chain[0]).target);
  }

  lemma TableComesBack(captures: seq<Capture>, t: Target, table: Table)
    requires |captures| > 0 && RowsUpTo(captures, |captures| - 1, t)
    requires Grows(History(captures, table)) && Forward(Times(captures))
    requires Distinct(Rows(captures[|captures| - 1].db, table))
    ensures var last := Rows(captures[|captures| - 1].db, table);
            && (multiset(Rows(t.db, table)) == multiset(last) <==>
                  CleanCuts(History(captures, table), Times(captures), |captures| - 1))
            && (CleanCuts(History(captures, table), Times(captures), |captures| - 1) ==> Rows(t.db, table) == last)
  {
    RowsComeBackExactlyWithCleanCuts(History(captures, table), Times(captures), |captures| - 1);
  }

  /**
   * Back up, increment, restore: a table holds exactly the rows of the last capture, each once,
   * if and only if the manifest times separate the captures.
   */
  lemma ChainConservesRowsExactlyWithCleanCuts(sha: Sha, bucket: string, buckets: seq<string>, captures: seq<Capture>,
                                               chain: seq<Archive>, table: Table)
    requires MadeFrom(sha, bucket, buckets, captures, chain) && PlainBucket(bucket) && PlainBuckets(buckets)
    requires Grows(History(captures, table)) && Forward(Times(captures))
    requires Distinct(Rows(captures[|captures| - 1].db, table))
    ensures RestoredChain(sha, EMPTY, chain).error.None?
    ensures var restored := Rows(RestoredChain(sha, EMPTY, chain).target.db, table);
            var last := Rows(captures[|captures| - 1].db, table);
            && (multiset(restored) == multiset(last) <==>
                  CleanCuts(History(captures, table), Times(captures), |captures| - 1))
            && (CleanCuts(History(captures, table), Times(captures), |captures| - 1) ==> restored == last)
  {
    ChainComesBack(sha, bucket, buckets, captures, chain);
    TableComesBack(captures, RestoredChain(sha, EMPTY, chain).target, table);
  }

  /** After a restore the object store holds, under every id, exactly what the last archive with it has. */
  lemma {:induction false} RestoredObjectsAreThoseBrought(
    sha: Sha, bucket: string, buckets: seq<string>, captures: seq<Capture>, chain: seq<Archive>, id: (string, string))
    requires MadeFrom(sha, bucket, buckets, captures, chain) && PlainBucket(bucket) && PlainBuckets(buckets)
    ensures Stored(RestoredChain(sha, EMPTY, chain).target, id) ==
            Brought(captures, bucket, buckets, |captures| - 1, id)
  {
    FullComesBack(sha, captures[0], buckets);
    var full := RestoreFull(sha, EMPTY, chain[0]).target;
    assert ObjectsUpTo(captures, bucket, buckets, 0, full);
    ReplayBringsObjects(sha, bucket, buckets, captures, chain, 1, full);
  }

  /** With clean cuts a restored chain is the last capture, and its objects are those the archives have. */
  lemma ChainConservesEverything(sha: Sha, bucket: string, buckets: seq<string>, captures: seq<Capture>,
                                 chain: seq<Archive>)
    requires MadeFrom(sha, bucket, buckets, captures, chain) && PlainBucket(bucket) && PlainBuckets(buckets)
    requires Forward(Times(captures))
    requires forall table :: Grows(History(captures, table)) && Distinct(Rows(captures[|captures| - 1].db, table))
    requires forall table :: CleanCuts(History(captures, table), Times(captures), |captures| - 1)
    ensures var restored := RestoredChain(sha, EMPTY, chain).target;
            && restored.db == captures[|captures| - 1].db
            && ObjectsUpTo(captures, bucket, buckets, |captures| - 1, restored)
  {
    var restored, last := RestoredChain(sha, EMPTY, chain).target, captures[|captures| - 1];
    forall table
      ensures Rows(restored.db, table) == Rows(last.db, table)
    {
      ChainConservesRowsExactlyWithCleanCuts(sha, bucket, buckets, captures, chain, table);
    }
    assert Rows(restored.db, DiagramOperations) == restored.db.operations;
    assert Rows(restored.db, AuditEvents) == restored.db.audit;
    assert Rows(restored.db, DiagramSnapshots) == restored.db.snapshots;
    forall id
      ensures Stored(restored, id) == Brought(captures, bucket, buckets, |captures| - 1, id)
    {
      RestoredObjectsAreThoseBrought(sha, bucket, buckets, captures, chain, id);
    }
  }

  // ---------------------------------------------------------------------------------------------
  // Snapshots and their objects
  // ---------------------------------------------------------------------------------------------

  /** The object comes with some archive up to the `n`-th. */
  ghost predicate Comes(captures: seq<Capture>, bucket: string, buckets: seq<string>, n: nat, id: (string, string))
    requires n < |captures|
  {
    || (id in captures[0].objects.at && id.0 in buckets && PlainKey(id.1))
    || exists k :: 1 <= k <= n && ComesWith(captures, bucket, k, id)
  }

  ghost predicate ComesWith(captures: seq<Capture>, bucket: string, k: nat, id: (string, string))
    requires 1 <= k < |captures|
  {
    id in captures[k].objects.at && Taken(captures[k], captures[k - 1].createdAt, bucket, id)
  }

  lemma {:induction false} BroughtExactlyWhenItComes(captures: seq<Capture>, bucket: string, buckets: seq<string>,
                                                     n: nat,
                                                     id: (string, string))
    requires n < |captures|
    ensures Brought(captures, bucket, buckets, n, id).Some? <==> Comes(captures, bucket, buckets, n, id)
  {
    if n > 0 {
      BroughtExactlyWhenItComes(captures, bucket, buckets, n - 1, id);
      assert ComesWith(captures, bucket, n, id) ==> Comes(captures, bucket, buckets, n, id);
    }
  }

  /** Snapshots refer to stored objects, by keys that COPY prints and a path holds as they are. */
  ghost predicate RefersToStored(rows: seq<Row>, bucket: string, objects: Objects) {
    forall row :: row in rows ==>
      && |row.columns| == SNAPSHOT_COLUMNS
      && (SceneKey(row) != "" ==>
            Unescaped(SceneKey(row)) && PlainKey(SceneKey(row)) && (bucket, SceneKey(row)) in objects.at)
  }

  /** The store only grows, and every snapshot refers to objects in it. */
  ghost predicate SoundStores(captures: seq<Capture>, bucket: string) {
    && (forall i :: 0 <= i < |captures| ==> RefersToStored(captures[i].db.snapshots, bucket, captures[i].objects))
    && (forall i, j :: 0 <= i < j < |captures| ==> Kept(captures[i].objects, captures[j].objects))
  }

  lemma {:induction false} BroughtIsKept(captures: seq<Capture>, bucket: string, buckets: seq<string>, n: nat,
                                         id: (string, string))
    requires n < |captures|
    requires forall i, j :: 0 <= i < j < |captures| ==> Kept(captures[i].objects, captures[j].objects)
    ensures var brought := Brought(captures, bucket, buckets, n, id);
            brought.Some? ==> id in captures[n].objects.at && brought.value == Blob(captures[n].objects.at[id])
  {
    if n > 0 {
      BroughtIsKept(captures, bucket, buckets, n - 1, id);
      assert Kept(captures[n - 1].objects, captures[n].objects);
    }
  }

  lemma {:induction false} RestoredRowsAreCovered(captures: seq<Capture>, bucket: string, buckets: seq<string>,
                                                  n: nat, row: Row)
    requires n < |captures| && SoundStores(captures, bucket) && bucket in buckets
    requires row in Restored(History(captures, DiagramSnapshots), Times(captures), n)
    ensures |row.columns| == SNAPSHOT_COLUMNS
    ensures SceneKey(row) != "" ==> Brought(captures, bucket, buckets, n, (bucket, SceneKey(row))).Some?
  {
    if n == 0 {
      assert History(captures, DiagramSnapshots)[0] == captures[0].db.snapshots;
      assert RefersToStored(captures[0].db.snapshots, bucket, captures[0].objects);
    } else if row in Restored(History(captures, DiagramSnapshots), Times(captures), n - 1) {
      RestoredRowsAreCovered(captures, bucket, buckets, n - 1, row);
    } else {
      RestoredNext(captures, DiagramSnapshots, n);
      DumpedRowIsCovered(captures, bucket, buckets, n, row);
    }
  }

  lemma {:induction false} DumpedRowIsCovered(captures: seq<Capture>, bucket: string, buckets: seq<string>, n: nat,
                                              row: Row)
    requires 0 < n < |captures| && RefersToStored(captures[n].db.snapshots, bucket, captures[n].objects)
    requires row in DumpSince(captures[n].db.snapshots, captures[n - 1].createdAt)
    ensures |row.columns| == SNAPSHOT_COLUMNS
    ensures SceneKey(row) != "" ==> Brought(captures, bucket, buckets, n, (bucket, SceneKey(row))).Some?
  {
    var since := captures[n - 1].createdAt;
    DumpMembers(captures[n].db.snapshots, since, row);
    if SceneKey(row) != "" {
      PlainKeysAreTaken(captures[n], since, bucket, row);
    }
  }

  /**
   * Whatever the cuts: if snapshots refer to stored objects by plain keys, each restored snapshot
   * has its object, and each restored object has the bytes it has in the store.
   */
  lemma RestoredSnapshotsHaveTheirObjects(sha: Sha, bucket: string, buckets: seq<string>, captures: seq<Capture>,
                                          chain: seq<Archive>, row: Row)
    requires MadeFrom(sha, bucket, buckets, captures, chain) && PlainBuckets(buckets) && bucket in buckets
    requires SoundStores(captures, bucket)
    ensures Faithful(RestoredChain(sha, EMPTY, chain).target, captures[|captures| - 1].objects)
    ensures row in RestoredChain(sha, EMPTY, chain).target.db.snapshots ==>
              |row.columns| == SNAPSHOT_COLUMNS &&
              (SceneKey(row) != "" ==> (bucket, SceneKey(row)) in RestoredChain(sha, EMPTY, chain).target.objects)
  {
    var t, n := RestoredChain(sha, EMPTY, chain).target, |captures| - 1;
    forall id
      ensures Stored(t, id) == Brought(captures, bucket, buckets, n, id)
      ensures id in t.objects ==> id in captures[n].objects.at && t.objects[id] == Blob(captures[n].objects.at[id])
    {
      RestoredObjectsAreThoseBrought(sha, bucket, buckets, captures, chain, id);
      BroughtIsKept(captures, bucket, buckets, n, id);
    }
    ChainComesBack(sha, bucket, buckets, captures, chain);
    if row in t.db.snapshots {
      assert Rows(t.db, DiagramSnapshots) == t.db.snapshots;
      RestoredRowsAreCovered(captures, bucket, buckets, n, row);
      assert SceneKey(row) != "" ==> Stored(t, (bucket, SceneKey(row))).Some?;
    }
  }
}
