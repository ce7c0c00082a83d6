/** Objects in archives: which paths name them, and what putting an archive's files back writes. */
module BackupObjects {
  import opened OrderedMaps
  import opened BackupText
  import opened Archives
  import opened BackupCreate
  import opened BackupRestore
  import opened BackupChain

  function ObjectItem(objects: Objects, id: (string, string)): Item
    requires id in objects.at
  {
    Item(ObjectPath(id.0, id.1), Blob(objects.at[id]))
  }

  lemma ParsedParts(path: string, id: (string, string))
    requires ParseObjectPath(path) == Some(id)
    ensures path == ObjectPath(id.0, id.1) && PlainBucket(id.0) && PlainKey(id.1)
  {
    var rest := path[|PREFIX|..];
    var n := SlashAt(rest);
    assert path == PREFIX + rest;
    assert rest == rest[..n] + [rest[n]] + rest[n + 1..];
    assert PREFIX + rest[..n] + "/" + rest[n + 1..] == PREFIX + rest;
  }

  /** A path names an object exactly when it is the object's own path, and both parts are plain. */
  lemma ParsedPath(path: string, id: (string, string))
    ensures ParseObjectPath(path) == Some(id) <==>
            path == ObjectPath(id.0, id.1) && PlainBucket(id.0) && PlainKey(id.1)
  {
    PathsComeBack(id.0, id.1);
    if ParseObjectPath(path) == Some(id) {
      ParsedParts(path, id);
    }
  }

  /** Some entry names the object. */
  ghost predicate Names(entries: seq<Entry>, id: (string, string)) {
    exists entry :: entry in entries && ParseObjectPath(entry.path) == Some(id)
  }

  /** Putting files back writes every object the entries name, and no other. */
  lemma {:induction false} NamedObjectsArePut(t: Target, entries: seq<Entry>, files: map<string, Content>,
                                              id: (string, string))
    requires HasFiles(entries, files)
    ensures var objects := PutFiles(t, entries, files).target.objects;
            if Names(entries, id) then
              ObjectPath(id.0, id.1) in files && id in objects && objects[id] == files[ObjectPath(id.0, id.1)]
            else (id in objects <==> id in t.objects) && (id in objects ==> objects[id] == t.objects[id])
    decreases |entries|
  {
    if entries != [] {
      var first, rest := entries[0], entries[1..];
      assert entries == [first] + rest;
      assert first in entries;
      assert HasFiles(rest, files);
      assert Names(entries, id) <==> Names(rest, id) || ParseObjectPath(first.path) == Some(id);
      match ParseObjectPath(first.path)
      case None => NamedObjectsArePut(t, rest, files, id);
      case Some(other) =>
        ParsedPath(first.path, other);
        NamedObjectsArePut(t.(objects := t.objects[other := files[first.path]]), rest, files, id);
    }
  }

  /** Every item is either some object under its own path, or names no object at all. */
  ghost predicate ItemsOf(objects: Objects, items: seq<Item>) {
    forall item :: item in items ==> ParseObjectPath(item.path).None? || IsObjectItem(objects, item)
  }

  ghost predicate IsObjectItem(objects: Objects, item: Item) {
    exists id :: id in objects.at && PlainBucket(id.0) && item == ObjectItem(objects, id)
  }

  ghost predicate Carries(objects: Objects, items: seq<Item>, id: (string, string)) {
    id in objects.at && PlainBucket(id.0) && PlainKey(id.1) && ObjectItem(objects, id) in items
  }

  lemma {:induction false} CarriedIsPacked(sha: Sha, objects: Objects, items: seq<Item>, id: (string, string))
    requires Consistent(items) && Carries(objects, items, id)
    ensures Names(AddAll(sha, items).entries, id)
    ensures var files := AddAll(sha, items).files;
            ObjectPath(id.0, id.1) in files && files[ObjectPath(id.0, id.1)] == Blob(objects.at[id])
  {
    PackedIsIntact(sha, items);
    var item := ObjectItem(objects, id);
    ParsedPath(item.path, id);
    assert Entry(item.path, sha.file(item.content)) in AddAll(sha, items).entries;
  }

  lemma {:induction false} NamedIsCarried(sha: Sha, objects: Objects, items: seq<Item>, id: (string, string))
    requires Consistent(items) && ItemsOf(objects, items) && Names(AddAll(sha, items).entries, id)
    ensures Carries(objects, items, id)
  {
    PackedIsIntact(sha, items);
    var entry :| entry in AddAll(sha, items).entries && ParseObjectPath(entry.path) == Some(id);
    var item :| item in items && entry == Entry(item.path, sha.file(item.content));
    ParsedPath(item.path, id);
    var own :| own in objects.at && PlainBucket(own.0) && item == ObjectItem(objects, own);
    PathsAreDistinct(own.0, own.1, id.0, id.1);
    assert own == id;
  }

  /** Packing some items and putting them back writes exactly the objects they carry. */
  lemma {:induction false} ItemsComeBack(sha: Sha, t: Target, objects: Objects, items: seq<Item>)
    requires Consistent(items) && ItemsOf(objects, items)
    ensures var d := AddAll(sha, items);
            var put := PutFiles(t, d.entries, d.files);
            && put.error.None? && put.target.db == t.db
            && (forall id :: id in put.target.objects <==> id in t.objects || Carries(objects, items, id))
            && (forall id :: id in put.target.objects ==>
                  put.target.objects[id] == if Carries(objects, items, id) then Blob(objects.at[id]) else t.objects[id])
  {
    var d := AddAll(sha, items);
    PackedIsIntact(sha, items);
    assert HasFiles(d.entries, d.files);
    FilesGoThrough(t, d.entries, d.files);
    forall id
      ensures var o := PutFiles(t, d.entries, d.files).target.objects;
              (id in o <==> id in t.objects || Carries(objects, items, id))
              && (id in o ==> o[id] == if Carries(objects, items, id) then Blob(objects.at[id]) else t.objects[id])
    {
      NamedObjectsArePut(t, d.entries, d.files, id);
      if Names(d.entries, id) {
        NamedIsCarried(sha, objects, items, id);
      }
      if Carries(objects, items, id) {
        CarriedIsPacked(sha, objects, items, id);
      }
    }
  }

  lemma DumpIsNoObject()
    ensures ParseObjectPath(DUMP_PATH).None?
    ensures forall table :: ParseObjectPath(CopyPath(table)).None?
  {
    assert PREFIX[0] == 'o' && DUMP_PATH[0] == 'd';
    forall table
      ensures ParseObjectPath(CopyPath(table)).None?
    {
      assert CopyPath(table)[0] == 'i';
    }
  }

  lemma FullItemsAreObjects(db: Database, objects: Objects, buckets: seq<string>)
    requires objects.Valid() && PlainBuckets(buckets)
    ensures ItemsOf(objects, FullItems(db, objects, buckets))
    ensures forall id :: Carries(objects, FullItems(db, objects, buckets), id) <==>
                         id in objects.at && id.0 in buckets && PlainKey(id.1)
  {
    var items := FullItems(db, objects, buckets);
    DumpIsNoObject();
    forall item | item in items && ParseObjectPath(item.path).Some?
      ensures IsObjectItem(objects, item)
    {
      FullPath(db, objects, buckets, item);
      var id: (string, string) :| id.0 in buckets && id in objects.at
                                  && item == Item(ObjectPath(id.0, id.1), Blob(objects.at[id]));
      assert item == ObjectItem(objects, id);
    }
    forall id: (string, string)
      ensures Carries(objects, items, id) <==> id in objects.at && id.0 in buckets && PlainKey(id.1)
    {
      if id in objects.at {
        var item := ObjectItem(objects, id);
        BucketItemsMembers(objects, buckets, item);
        ObjectPathStarts(id.0, id.1);
        if PlainBucket(id.0) && item in items {
          var own: (string, string) :| own.0 in buckets && own in objects.at
                                       && item == Item(ObjectPath(own.0, own.1), Blob(objects.at[own]));
          PathsAreDistinct(id.0, id.1, own.0, own.1);
        }
      }
    }
  }

  lemma {:induction false} IncrementHoldsObjectItems(db: Database, since: int, objects: Objects, bucket: string,
                                                     keys: seq<string>)
    requires PlainBucket(bucket) && ObjectItems(objects, bucket, keys).Some?
    ensures ItemsOf(objects, IncrementItems(db, since, objects, bucket, keys))
  {
    var items := IncrementItems(db, since, objects, bucket, keys);
    DumpIsNoObject();
    forall item | item in items && ParseObjectPath(item.path).Some?
      ensures IsObjectItem(objects, item)
    {
      ObjectItemsMembers(objects, bucket, keys, item);
      var key :| key in keys && (bucket, key) in objects.at
                 && item == Item(ObjectPath(bucket, key), Blob(objects.at[(bucket, key)]));
      assert item == ObjectItem(objects, (bucket, key));
    }
  }

  lemma {:induction false} IncrementCarries(db: Database, since: int, objects: Objects, bucket: string,
                                            keys: seq<string>, id: (string, string))
    requires PlainBucket(bucket) && ObjectItems(objects, bucket, keys).Some?
    ensures Carries(objects, IncrementItems(db, since, objects, bucket, keys), id) <==>
            id.0 == bucket && id.1 in keys && PlainKey(id.1)
  {
    ObjectItemsExist(objects, bucket, keys);
    if id.0 == bucket && id.1 in keys {
      assert id == (bucket, id.1);
    }
    if id in objects.at {
      var item := ObjectItem(objects, id);
      ObjectPathStarts(id.0, id.1);
      ObjectItemsMembers(objects, bucket, keys, item);
      if PlainBucket(id.0) && item in ObjectItems(objects, bucket, keys).value {
        var key :| key in keys && (bucket, key) in objects.at
                   && item == Item(ObjectPath(bucket, key), Blob(objects.at[(bucket, key)]));
        PathsAreDistinct(id.0, id.1, bucket, key);
      }
    }
  }

  lemma {:induction false} IncrementItemsAreObjects(db: Database, since: int, objects: Objects, bucket: string,
                                                    keys: seq<string>)
    requires PlainBucket(bucket) && ObjectItems(objects, bucket, keys).Some?
    ensures ItemsOf(objects, IncrementItems(db, since, objects, bucket, keys))
    ensures forall id :: Carries(objects, IncrementItems(db, since, objects, bucket, keys), id) <==>
                         id.0 == bucket && id.1 in keys && PlainKey(id.1)
  {
    IncrementHoldsObjectItems(db, since, objects, bucket, keys);
    forall id: (string, string)
      ensures Carries(objects, IncrementItems(db, since, objects, bucket, keys), id) <==>
              id.0 == bucket && id.1 in keys && PlainKey(id.1)
    {
      IncrementCarries(db, since, objects, bucket, keys, id);
    }
  }
}
