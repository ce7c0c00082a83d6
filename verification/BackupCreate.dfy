/** Making a full backup, and an increment on top of an earlier one. */
module BackupCreate {
  import opened OrderedMaps
  import opened BackupText
  import opened Archives

  /** The object store: the bytes of each (bucket, key), in listing order. */
  type Objects = RawMap<(string, string), string>

  function CopyPath(table: Table): string {
    match table
    case DiagramOperations => "incremental/diagram_operations.copy"
    case AuditEvents => "incremental/audit_events.copy"
    case DiagramSnapshots => "incremental/diagram_snapshots.copy"
  }

  function ListObjects(ids: seq<(string, string)>, bucket: string): seq<string> {
    if ids == [] then []
    else
      var before, last := ListObjects(ids[..|ids| - 1], bucket), ids[|ids| - 1];
      if last.0 == bucket then before + [last.1] else before
  }

  lemma {:induction false} ListedObjects(ids: seq<(string, string)>, bucket: string, key: string)
    ensures key in ListObjects(ids, bucket) <==> (bucket, key) in ids
  {
    if ids != [] {
      ListedObjects(ids[..|ids| - 1], bucket, key);
      assert ids == ids[..|ids| - 1] + [ids[|ids| - 1]];
    }
  }

  /** A bucket's objects are listed in the order of the store. */
  lemma {:induction false} ListedInOrder(ids: seq<(string, string)>, id: (string, string), bucket: string)
    ensures ListObjects([], bucket) == []
    ensures ListObjects(ids + [id], bucket) == ListObjects(ids, bucket) + if id.0 == bucket then [id.1] else []
  {
    assert (ids + [id])[..|ids|] == ids;
  }

  /** The files for some keys of a bucket; the store has to have them all. */
  function ObjectItems(objects: Objects, bucket: string, keys: seq<string>): Option<seq<Item>> {
    if keys == [] then Some([])
    else
      var last := keys[|keys| - 1];
      match ObjectItems(objects, bucket, keys[..|keys| - 1])
      case None => None
      case Some(before) =>
        if (bucket, last) in objects.at
        then Some(before + [Item(ObjectPath(bucket, last), Blob(objects.at[(bucket, last)]))])
        else None
  }

  lemma {:induction false} ObjectItemsMembers(objects: Objects, bucket: string, keys: seq<string>, item: Item)
    requires ObjectItems(objects, bucket, keys).Some?
    ensures item in ObjectItems(objects, bucket, keys).value <==>
            exists key :: key in keys && (bucket, key) in objects.at
                          && item == Item(ObjectPath(bucket, key), Blob(objects.at[(bucket, key)]))
  {
    if keys != [] {
      ObjectItemsMembers(objects, bucket, keys[..|keys| - 1], item);
      assert keys == keys[..|keys| - 1] + [keys[|keys| - 1]];
      assert forall key :: key in keys <==> key in keys[..|keys| - 1] || key == keys[|keys| - 1];
    }
  }

  /** There are files for the keys exactly when the store has every one of them. */
  lemma {:induction false} ObjectItemsExist(objects: Objects, bucket: string, keys: seq<string>)
    ensures ObjectItems(objects, bucket, keys).Some? <==> forall key :: key in keys ==> (bucket, key) in objects.at
  {
    if keys != [] {
      ObjectItemsExist(objects, bucket, keys[..|keys| - 1]);
      assert keys == keys[..|keys| - 1] + [keys[|keys| - 1]];
    }
  }

  lemma {:induction false} NextObject(sha: Sha, objects: Objects, bucket: string, keys: seq<string>, i: nat,
                                      before: seq<Item>, items: seq<Item>)
    requires i < |keys| && (bucket, keys[i]) in objects.at
    requires ObjectItems(objects, bucket, keys[..i]) == Some(items)
    ensures var item := Item(ObjectPath(bucket, keys[i]), Blob(objects.at[(bucket, keys[i])]));
            && ObjectItems(objects, bucket, keys[..i + 1]) == Some(items + [item])
            && AddAll(sha, before + (items + [item])) ==
                 AddFile(sha, AddAll(sha, before + items), item.path, item.content)
  {
    var item := Item(ObjectPath(bucket, keys[i]), Blob(objects.at[(bucket, keys[i])]));
    assert keys[..i + 1][..i] == keys[..i];
    assert (before + (items + [item]))[..|before + items|] == before + items;
  }

  /** Adds the objects under `keys` to a draft, in order; fails on the first the store lacks. */
  method AddObjects(sha: Sha, draft: Draft, objects: Objects, bucket: string, keys: seq<string>,
                    ghost before: seq<Item>)
    returns (result: Option<Draft>)
    requires draft == AddAll(sha, before)
    ensures match ObjectItems(objects, bucket, keys)
            case None => result == None
            case Some(items) => result == Some(AddAll(sha, before + items))
  {
    var d := draft;
    ghost var items: seq<Item> := [];
    assert before + items == before;
    for i := 0 to |keys|
      invariant ObjectItems(objects, bucket, keys[..i]) == Some(items)
      invariant d == AddAll(sha, before + items)
    {
      if (bucket, keys[i]) !in objects.at {
        ObjectItemsExist(objects, bucket, keys);
        return None;
      }
      NextObject(sha, objects, bucket, keys, i, before, items);
      d := AddFile(sha, d, ObjectPath(bucket, keys[i]), Blob(objects.at[(bucket, keys[i])]));
      items := items + [Item(ObjectPath(bucket, keys[i]), Blob(objects.at[(bucket, keys[i])]))];
    }
    assert keys[..|keys|] == keys;
    return Some(d);
  }

  // ---------------------------------------------------------------------------------------------
  // Full backups
  // ---------------------------------------------------------------------------------------------

  const DUMP_PATH := "dump.sql"

  function BucketItems(objects: Objects, buckets: seq<string>): seq<Item>
    requires objects.Valid()
  {
    if buckets == [] then []
    else
      var last := buckets[|buckets| - 1];
      ListedAreThere(objects, last);
      BucketItems(objects, buckets[..|buckets| - 1]) +
      ObjectItems(objects, last, ListObjects(objects.order, last)).value
  }

  lemma {:induction false} ListedAreThere(objects: Objects, bucket: string)
    requires objects.Valid()
    ensures ObjectItems(objects, bucket, ListObjects(objects.order, bucket)).Some?
  {
    var keys := ListObjects(objects.order, bucket);
    forall key | key in keys
      ensures (bucket, key) in objects.at
    {
      ListedObjects(objects.order, bucket, key);
    }
    ObjectItemsExist(objects, bucket, keys);
  }

  lemma {:induction false} NextBucket(objects: Objects, buckets: seq<string>, i: nat, dump: seq<Item>)
    requires objects.Valid() && i < |buckets|
    ensures var items := ObjectItems(objects, buckets[i], ListObjects(objects.order, buckets[i]));
            && items.Some?
            && dump + BucketItems(objects, buckets[..i]) + items.value == dump + BucketItems(objects, buckets[..i + 1])
  {
    assert buckets[..i + 1][..i] == buckets[..i];
    ListedAreThere(objects, buckets[i]);
  }

  function FullItems(db: Database, objects: Objects, buckets: seq<string>): seq<Item>
    requires objects.Valid()
  {
    [Item(DUMP_PATH, Dump(db))] + BucketItems(objects, buckets)
  }

  method CreateBackup(sha: Sha, db: Database, objects: Objects, buckets: seq<string>, now: int) returns (a: Archive)
    requires objects.Valid()
    ensures a == Packed(sha, FullItems(db, objects, buckets), now, buckets, Full)
    ensures a.manifest.Some? && a.manifest.value.createdAt == now && a.manifest.value.buckets == buckets
    ensures a.manifest.value.kind == Full
  {
    ghost var dump := [Item(DUMP_PATH, Dump(db))];
    assert dump[..0] == [];
    var draft := AddFile(sha, Draft(map[], []), DUMP_PATH, Dump(db));
    assert dump + [] == dump;
    for i := 0 to |buckets|
      invariant draft == AddAll(sha, dump + BucketItems(objects, buckets[..i]))
    {
      var bucket := buckets[i];
      ghost var before := dump + BucketItems(objects, buckets[..i]);
      ListedAreThere(objects, bucket);
      var more := AddObjects(sha, draft, objects, bucket, ListObjects(objects.order, bucket), before);
      NextBucket(objects, buckets, i, dump);
      draft := more.value;
    }
    assert buckets[..|buckets|] == buckets;
    return Archive(Some(Manifest(now, buckets, draft.entries, Full)), draft.files);
  }

  lemma {:induction false} BucketItemsMembers(objects: Objects, buckets: seq<string>, item: Item)
    requires objects.Valid()
    ensures item in BucketItems(objects, buckets) <==>
            exists id: (string, string) :: id.0 in buckets && id in objects.at
                         && item == Item(ObjectPath(id.0, id.1), Blob(objects.at[id]))
  {
    if buckets != [] {
      var front, last := buckets[..|buckets| - 1], buckets[|buckets| - 1];
      assert buckets == front + [last];
      BucketItemsMembers(objects, front, item);
      ListedAreThere(objects, last);
      ObjectItemsMembers(objects, last, ListObjects(objects.order, last), item);
      forall key
        ensures key in ListObjects(objects.order, last) <==> (last, key) in objects.at
      {
        ListedObjects(objects.order, last, key);
      }
      if id: (string, string) :| id.0 in buckets && id in objects.at
                                 && item == Item(ObjectPath(id.0, id.1), Blob(objects.at[id])) {
        if id.0 == last {
          assert id == (last, id.1);
        }
      }
    }
  }

  ghost predicate PlainBuckets(buckets: seq<string>) {
    forall b :: b in buckets ==> PlainBucket(b)
  }

  /** With plain bucket names no two files of a full backup share a path. */
  lemma FullIsConsistent(db: Database, objects: Objects, buckets: seq<string>)
    requires objects.Valid() && PlainBuckets(buckets)
    ensures Consistent(FullItems(db, objects, buckets))
  {
    var items := FullItems(db, objects, buckets);
    forall a, b | a in items && b in items && a.path == b.path
      ensures a == b
    {
      FullPath(db, objects, buckets, a);
      FullPath(db, objects, buckets, b);
      if a.path != DUMP_PATH {
        var i: (string, string) :| i.0 in buckets && i in objects.at
                                   && a == Item(ObjectPath(i.0, i.1), Blob(objects.at[i]));
        var j: (string, string) :| j.0 in buckets && j in objects.at
                                   && b == Item(ObjectPath(j.0, j.1), Blob(objects.at[j]));
        PathsAreDistinct(i.0, i.1, j.0, j.1);
        assert i == j;
      }
    }
  }

  lemma FullPath(db: Database, objects: Objects, buckets: seq<string>, item: Item)
    requires objects.Valid() && item in FullItems(db, objects, buckets)
    ensures if item.path == DUMP_PATH then item == Item(DUMP_PATH, Dump(db))
            else exists id: (string, string) :: id.0 in buckets && id in objects.at
                              && item == Item(ObjectPath(id.0, id.1), Blob(objects.at[id]))
  {
    if item in BucketItems(objects, buckets) {
      BucketItemsMembers(objects, buckets, item);
      var id: (string, string) :| id.0 in buckets && id in objects.at
                                  && item == Item(ObjectPath(id.0, id.1), Blob(objects.at[id]));
      ObjectPathStarts(id.0, id.1);
    }
  }

  lemma ObjectPathStarts(bucket: string, key: string)
    ensures ObjectPath(bucket, key)[0] == 'o' && ObjectPath(bucket, key) != DUMP_PATH
    ensures forall table :: ObjectPath(bucket, key) != CopyPath(table)
  {
    assert ObjectPath(bucket, key)[0] == 'o';
    assert DUMP_PATH[0] == 'd';
    forall table
      ensures CopyPath(table)[0] == 'i'
    {
    }
  }

  // ---------------------------------------------------------------------------------------------
  // Increments
  // ---------------------------------------------------------------------------------------------

  /** The rows of a table created after a point in time. */
  function DumpSince(rows: seq<Row>, since: int): seq<Row> {
    if rows == [] then []
    else
      var before, last := DumpSince(rows[..|rows| - 1], since), rows[|rows| - 1];
      if last.createdAt > since then before + [last] else before
  }

  function CopyItem(db: Database, table: Table, since: int): Item {
    Item(CopyPath(table), CopyOf(DumpSince(Rows(db, table), since)))
  }

  function CopyItems(db: Database, since: int): seq<Item> {
    [CopyItem(db, DiagramOperations, since), CopyItem(db, AuditEvents, since), CopyItem(db, DiagramSnapshots, since)]
  }

  /** The distinct object keys that a dump of the snapshots since a point in time mentions. */
  ghost predicate KeysSince(db: Database, since: int, keys: seq<string>) {
    && Distinct(keys)
    && forall key :: key in keys <==>
         MentionedIn(Split(CopyText(DumpSince(Rows(db, DiagramSnapshots), since)), '\n'), key)
  }

  function IncrementItems(db: Database, since: int, objects: Objects, bucket: string, keys: seq<string>): seq<Item>
    requires ObjectItems(objects, bucket, keys).Some?
  {
    CopyItems(db, since) + ObjectItems(objects, bucket, keys).value
  }

  /** The increment on top of `base`: the rows since it was made, and the objects under `keys`. */
  function Increment(sha: Sha, base: Manifest, db: Database, objects: Objects, bucket: string, keys: seq<string>,
                     now: int): Archive
    requires ObjectItems(objects, bucket, keys).Some?
  {
    Packed(sha, IncrementItems(db, base.createdAt, objects, bucket, keys), now, if keys != [] then [bucket] else [],
           Incremental(sha.manifest(base), base.createdAt, INCREMENTAL_TABLES))
  }

  datatype CreateResult =
    | BadBase(mismatches: seq<Mismatch>) | NoBaseManifest | MissingObject | Created(archive: Archive)

  method CreateIncrementalBackup(sha: Sha, base: Archive, db: Database, objects: Objects, bucket: string, now: int)
    returns (result: CreateResult, ghost keys: seq<string>)
    ensures result.NoBaseManifest? <==> base.manifest.None?
    ensures result.BadBase? <==> base.manifest.Some? && !Intact(sha, base)
    ensures Intact(sha, base) ==>
              && KeysSince(db, base.manifest.value.createdAt, keys)
              && (result.MissingObject? <==> exists key :: key in keys && (bucket, key) !in objects.at)
    ensures Intact(sha, base) && !result.MissingObject? ==>
              && ObjectItems(objects, bucket, keys).Some?
              && result == Created(Increment(sha, base.manifest.value, db, objects, bucket, keys, now))
    ensures result.Created? ==>
              && base.manifest.Some? && result.archive.manifest.Some?
              && var m := result.archive.manifest.value;
                 && m.createdAt == now && m.buckets == (if keys == [] then [] else [bucket])
                 && m.kind == Incremental(sha.manifest(base.manifest.value), base.manifest.value.createdAt,
                                          [DiagramOperations, AuditEvents, DiagramSnapshots])
  {
    keys := [];
    var baseVerification := VerifyBackup(sha, base);
    if baseVerification.NoManifest? {
      return NoBaseManifest, keys;
    }
    if baseVerification.mismatches != [] {
      return BadBase(baseVerification.mismatches), keys;
    }
    var baseManifest := baseVerification.manifest;
    var since := baseManifest.createdAt;
    var draft, capturedKeys := CaptureTables(sha, db, since);
    keys := capturedKeys;
    var more := AddObjects(sha, draft, objects, bucket, capturedKeys, CopyItems(db, since));
    ObjectItemsExist(objects, bucket, keys);
    if more.None? {
      return MissingObject, keys;
    }
    var manifest := Manifest(now, if capturedKeys != [] then [bucket] else [], more.value.entries,
                             Incremental(sha.manifest(baseManifest), since, INCREMENTAL_TABLES));
    return Created(Archive(Some(manifest), more.value.files)), keys;
  }

  /** The loop over the tables: dumps each, and reads the object keys off the snapshots. */
  method CaptureTables(sha: Sha, db: Database, since: int) returns (draft: Draft, keys: seq<string>)
    ensures draft == AddAll(sha, CopyItems(db, since))
    ensures KeysSince(db, since, keys)
  {
    draft := Draft(map[], []);
    keys := [];
    ghost var snapshots := CopyText(DumpSince(Rows(db, DiagramSnapshots), since));
    for i := 0 to |INCREMENTAL_TABLES|
      invariant draft == AddAll(sha, CopyItems(db, since)[..i])
      invariant i <= 2 ==> keys == []
      invariant i == 3 ==> Distinct(keys) && forall key :: key in keys <==> MentionedIn(Split(snapshots, '\n'), key)
    {
      var table := INCREMENTAL_TABLES[i];
      var rows := DumpSince(Rows(db, table), since);
      assert CopyItems(db, since)[..i + 1][..i] == CopyItems(db, since)[..i];
      draft := AddFile(sha, draft, CopyPath(table), CopyOf(rows));
      if table == DiagramSnapshots {
        keys := ExtractSceneJsonKeys(CopyText(rows));
      }
    }
    assert CopyItems(db, since)[..3] == CopyItems(db, since);
  }

  /** No two files of an increment share a path. */
  lemma {:induction false} IncrementIsConsistent(db: Database, since: int, objects: Objects, bucket: string,
                                                 keys: seq<string>)
    requires PlainBucket(bucket) && ObjectItems(objects, bucket, keys).Some?
    ensures Consistent(IncrementItems(db, since, objects, bucket, keys))
  {
    var copies, blobs := CopyItems(db, since), ObjectItems(objects, bucket, keys).value;
    forall a: Item, b: Item | a in copies + blobs && b in copies + blobs && a.path == b.path
      ensures a == b
    {
      ObjectItemsMembers(objects, bucket, keys, a);
      ObjectItemsMembers(objects, bucket, keys, b);
      if a in blobs {
        var k :| k in keys && (bucket, k) in objects.at
                 && a == Item(ObjectPath(bucket, k), Blob(objects.at[(bucket, k)]));
        ObjectPathStarts(bucket, k);
        if b in blobs {
          var m :| m in keys && (bucket, m) in objects.at
                   && b == Item(ObjectPath(bucket, m), Blob(objects.at[(bucket, m)]));
          PathsAreDistinct(bucket, k, bucket, m);
        }
      } else if b in blobs {
        var m :| m in keys && (bucket, m) in objects.at
                 && b == Item(ObjectPath(bucket, m), Blob(objects.at[(bucket, m)]));
        ObjectPathStarts(bucket, m);
      } else {
        CopyPathsAreDistinct(db, since, a, b);
      }
    }
  }

  lemma CopyPathsAreDistinct(db: Database, since: int, a: Item, b: Item)
    requires a in CopyItems(db, since) && b in CopyItems(db, since) && a.path == b.path
    ensures a == b
  {
    assert CopyPath(DiagramOperations)[12] == 'd' && CopyPath(AuditEvents)[12] == 'a';
    assert CopyPath(DiagramOperations)[20] == 'o' && CopyPath(DiagramSnapshots)[20] == 's';
    assert CopyPath(DiagramSnapshots)[12] == 'd';
  }
}
