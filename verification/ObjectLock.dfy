/**
 * Object lock and the other outcomes of a delete, said of the fields of the records
 * and of the bytes of their keys.
 */
module ObjectLock {
  import opened BackendModel
  import opened ByteStrings
  import opened Coherence
  import opened ObjectTypes
  import opened Outcomes
  import opened Paths
  import opened StoreModel
  import opened VersionKeys

  /**
   * A delete of one version is refused, with nothing changed, exactly if its record
   * has a legal hold or a retention date after the moment of the delete; no other
   * delete of a version returns an error.
   */
  lemma DeleteRefused(d: Disk, bucket: Bytes, key: Bytes, versionId: Bytes, stamp: Stamp)
    requires versionId != []
    ensures var (after, err) := DeleteObjectAfter(d, bucket, key, versionId, stamp);
      var vk := key + [0] + versionId;
      && (err == Some(AccessDenied) <==>
            bucket in d.db.versions && vk in d.db.versions[bucket] &&
            var m := d.db.versions[bucket][vk];
            m.legalHold == "ON" || (m.retainUntil.Some? && stamp.now < m.retainUntil.value))
      && (err == Some(AccessDenied) ==> after == d) && (err == None || err == Some(AccessDenied))
  {
    hide DeleteObjectTx, FilePath;
  }

  /**
   * Without a version id, in a bucket whose versioning is on or suspended, a delete
   * records a marker under a new id, or under "null", and leaves everything else.
   */
  lemma DeleteMarks(d: Disk, bucket: Bytes, key: Bytes, stamp: Stamp)
    requires bucket in d.db.buckets && bucket in d.db.objects && key != []
    requires d.db.buckets[bucket].versioning == "Enabled" || d.db.buckets[bucket].versioning == "Suspended"
    ensures var (after, err) := DeleteObjectAfter(d, bucket, key, [], stamp);
      var id := if d.db.buckets[bucket].versioning == "Enabled" then stamp.id else [110, 117, 108, 108];
      var marker := ObjectMeta(0, NoETag, stamp.now, id, true, true, None, "", "");
      && err == None && after.files == d.files && after.partFiles == d.partFiles
      && after.db.objects == d.db.objects[bucket := d.db.objects[bucket][key := marker]]
      && after.db.versions == d.db.versions[bucket := VersionsOf(d.db, bucket)[key + [0] + id := marker]]
      && after.db.buckets == d.db.buckets
  {
  }

  /** The store refuses such a marker under an empty key. */
  lemma NoMarkerWithoutKey(d: Disk, bucket: Bytes, stamp: Stamp)
    requires bucket in d.db.buckets && bucket in d.db.objects
    requires d.db.buckets[bucket].versioning == "Enabled" || d.db.buckets[bucket].versioning == "Suspended"
    ensures DeleteObjectAfter(d, bucket, [], [], stamp) == (d, Some(StoreFailed(KeyRequired)))
  {
  }

  /**
   * In any other bucket it is refused, with nothing changed, exactly if the latest
   * entry of the key is held; otherwise the entry and all records of the key go.
   */
  lemma UnversionedDelete(d: Disk, bucket: Bytes, key: Bytes, stamp: Stamp)
    requires bucket in d.db.buckets && bucket in d.db.objects
    requires d.db.buckets[bucket].versioning != "Enabled" && d.db.buckets[bucket].versioning != "Suspended"
    ensures var (after, err) := DeleteObjectAfter(d, bucket, key, [], stamp);
      var latest := d.db.objects[bucket];
      if key in latest &&
         (latest[key].legalHold == "ON" ||
          (latest[key].retainUntil.Some? && stamp.now < latest[key].retainUntil.value))
      then after == d && err == Some(AccessDenied)
      else
        && err == None && after.db.objects == d.db.objects[bucket := latest - {key}]
        && after.files == (if FilePath(bucket, key, []).Inside? then d.files - {FilePath(bucket, key, [])} else d.files)
        && VersionsOf(after.db, bucket) == map vk | vk in VersionsOf(d.db, bucket) && !(key + [0] <= vk) ::
             VersionsOf(d.db, bucket)[vk]
  {
    hide FilePath, PutObjectTx, DeleteMarker, DeleteVersion, VersionKey;
    var vs := VersionsOf(d.db, bucket);
    assert vs - RecordsOf(vs, key) == map vk | vk in vs && !(key + [0] <= vk) :: vs[vk];
  }

  /** A delete of a version that is not held takes its record and its file, and nothing of any other but the flag. */
  lemma DeleteErases(d: Disk, bucket: Bytes, key: Bytes, versionId: Bytes, stamp: Stamp)
    requires versionId != [] && NoNul(key) && bucket in d.db.objects && WellKeyed(VersionsOf(d.db, bucket))
    requires DeleteObjectAfter(d, bucket, key, versionId, stamp).1 == None
    ensures var after := DeleteObjectAfter(d, bucket, key, versionId, stamp).0;
      var before, records := VersionsOf(d.db, bucket), VersionsOf(after.db, bucket);
      var path := FilePath(bucket, key, versionId);
      && records.Keys == before.Keys - {key + [0] + versionId}
      && (forall vk :: vk in records ==> records[vk] == before[vk].(isLatest := records[vk].isLatest))
      && after.files == (if path.Inside? then d.files - {path} else d.files)
      && after.db.buckets == d.db.buckets && bucket in after.db.objects
  {
    hide FilePath, DeleteVersion, Locked;
    if bucket in d.db.versions {
      DeleteVersionKeepsOthers(d.db.objects[bucket], d.db.versions[bucket], key, versionId);
    }
  }

  /**
   * What a held version of a key survives of the deletes of that key: every delete by
   * id, its own being refused; one without an id exactly if the marker it leaves has
   * another id, or, where it would leave none, if the latest entry of the key is held.
   */
  lemma HeldSurvives(d: Disk, bucket: Bytes, key: Bytes, id: Bytes, versionId: Bytes, stamp: Stamp)
    requires bucket in d.db.buckets && bucket in d.db.objects && NoNul(key)
    requires WellKeyed(VersionsOf(d.db, bucket)) && key + [0] + id in VersionsOf(d.db, bucket)
    requires var m := VersionsOf(d.db, bucket)[key + [0] + id];
      m.legalHold == "ON" || (m.retainUntil.Some? && stamp.now < m.retainUntil.value)
    ensures var after := DeleteObjectAfter(d, bucket, key, versionId, stamp).0;
      var vk, records, latest := key + [0] + id, VersionsOf(after.db, bucket), d.db.objects[bucket];
      var m := VersionsOf(d.db, bucket)[vk];
      vk in records && records[vk] == m.(isLatest := records[vk].isLatest) <==>
        if versionId != [] then true
        else if d.db.buckets[bucket].versioning == "Enabled" then key == [] || id != stamp.id
        else if d.db.buckets[bucket].versioning == "Suspended" then key == [] || id != [110, 117, 108, 108]
        else
          key in latest &&
          (latest[key].legalHold == "ON" ||
           (latest[key].retainUntil.Some? && stamp.now < latest[key].retainUntil.value))
  {
    hide DeleteObjectAfter, DeleteObjectTx, FilePath, WellKeyed;
    var vk := key + [0] + id;
    if versionId != [] {
      DeleteRefused(d, bucket, key, versionId, stamp);
      if DeleteObjectAfter(d, bucket, key, versionId, stamp).1 == None {
        DeleteErases(d, bucket, key, versionId, stamp);
        assert id != versionId;
        OtherId(key, id, versionId);
      }
    } else if d.db.buckets[bucket].versioning != "Enabled" && d.db.buckets[bucket].versioning != "Suspended" {
      UnversionedDelete(d, bucket, key, stamp);
      assert key + [0] <= vk;
    } else if key == [] {
      NoMarkerWithoutKey(d, bucket, stamp);
    } else {
      DeleteMarks(d, bucket, key, stamp);
      var newId := if d.db.buckets[bucket].versioning == "Enabled" then stamp.id else [110, 117, 108, 108];
      OtherId(key, id, newId);
    }
  }

  lemma OtherId(key: Bytes, a: Bytes, b: Bytes)
    ensures key + [0] + a == key + [0] + b <==> a == b
  {
    assert (key + [0] + a)[|key| + 1..] == a && (key + [0] + b)[|key| + 1..] == b;
  }

  // ----- bulk deletes -----

  /** The disk that the delete of entry `i` of a bulk request meets. */
  ghost function DiskAt(d: Disk, bucket: Bytes, ids: seq<ObjectIdentifier>, stamps: seq<Stamp>, i: nat): Disk
    requires i <= |ids| <= |stamps|
  {
    if i == 0 then d
    else
      var before := DiskAt(d, bucket, ids, stamps, i - 1);
      DeleteObjectAfter(before, bucket, ids[i - 1].key, ids[i - 1].versionId, stamps[i - 1]).0
  }

  ghost function ErrorAt(d: Disk, bucket: Bytes, ids: seq<ObjectIdentifier>, stamps: seq<Stamp>, i: nat)
    : Option<BackendError>
    requires i < |ids| <= |stamps|
  {
    DeleteObjectAfter(DiskAt(d, bucket, ids, stamps, i), bucket, ids[i].key, ids[i].versionId, stamps[i]).1
  }

  /** A bulk request is its deletes one after another; each is reported once, under its own outcome. */
  lemma {:induction false} BulkReports(
    d: Disk, bucket: Bytes, ids: seq<ObjectIdentifier>, stamps: seq<Stamp>, n: nat)
    requires n <= |ids| <= |stamps|
    ensures var (after, r) := DeleteObjectsAfter(d, bucket, ids[..n], stamps);
      && after == DiskAt(d, bucket, ids, stamps, n) && |r.deleted| + |r.errors| == n
      && (forall x :: x in r.deleted <==>
            exists i :: 0 <= i < n && ids[i] == x && ErrorAt(d, bucket, ids, stamps, i) == None)
      && (forall x, e :: (x, e) in r.errors <==>
            exists i :: 0 <= i < n && ids[i] == x && ErrorAt(d, bucket, ids, stamps, i) == Some(e))
  {
    hide DeleteObjectAfter;
    if n > 0 {
      BulkReports(d, bucket, ids, stamps, n - 1);
      assert ids[..n][..n - 1] == ids[..n - 1] && ids[..n][n - 1] == ids[n - 1];
    }
  }

  /** A version that is held at the moment of every delete of a bulk request, on this disk. */
  ghost predicate HeldThroughout(d: Disk, bucket: Bytes, key: Bytes, id: Bytes, stamps: seq<Stamp>) {
    var vk := key + [0] + id;
    vk in VersionsOf(d.db, bucket) &&
    var m := VersionsOf(d.db, bucket)[vk];
    forall i :: 0 <= i < |stamps| ==>
      m.legalHold == "ON" || (m.retainUntil.Some? && stamps[i].now < m.retainUntil.value)
  }

  /** The same record in two states of the disk, up to the flag that marks the latest version. */
  ghost predicate SameRecord(d: Disk, e: Disk, bucket: Bytes, vk: Bytes) {
    var before, after := VersionsOf(d.db, bucket), VersionsOf(e.db, bucket);
    vk in before && vk in after && after[vk] == before[vk].(isLatest := after[vk].isLatest)
  }

  /** What one delete of a bulk request in a versioned bucket keeps. */
  lemma BulkStep(
    d: Disk, bucket: Bytes, key: Bytes, id: Bytes, stamps: seq<Stamp>, x: ObjectIdentifier, stamp: Stamp)
    requires bucket in d.db.buckets && bucket in d.db.objects && d.db.buckets[bucket].versioning == "Enabled"
    requires WellKeyed(VersionsOf(d.db, bucket)) && NoNul(key) && HeldThroughout(d, bucket, key, id, stamps)
    requires stamp in stamps && NoNul(x.key) && stamp.id != id
    ensures var (after, err) := DeleteObjectAfter(d, bucket, x.key, x.versionId, stamp);
      && bucket in after.db.buckets && bucket in after.db.objects && after.db.buckets == d.db.buckets
      && WellKeyed(VersionsOf(after.db, bucket)) && HeldThroughout(after, bucket, key, id, stamps)
      && SameRecord(d, after, bucket, key + [0] + id)
      && (x.key == key && x.versionId == id && id != [] ==> err == Some(AccessDenied))
  {
    hide DeleteObjectAfter, FilePath, Split;
    var vk := key + [0] + id;
    var i :| 0 <= i < |stamps| && stamps[i] == stamp;
    if x.versionId == [] && x.key == [] {
      NoMarkerWithoutKey(d, bucket, stamp);
    } else if x.versionId == [] {
      DeleteMarks(d, bucket, x.key, stamp);
      SplitVersionKey(x.key, stamp.id);
      VersionKeyInjective(key, id, x.key, stamp.id);
    } else {
      DeleteRefused(d, bucket, x.key, x.versionId, stamp);
      if DeleteObjectAfter(d, bucket, x.key, x.versionId, stamp).1 == None {
        DeleteErases(d, bucket, x.key, x.versionId, stamp);
        VersionKeyInjective(key, id, x.key, x.versionId);
      }
    }
  }

  /**
   * In a versioned bucket a version that is held during a whole bulk request is still
   * in the store after it, and each entry that names it is reported as denied.
   */
  lemma {:induction false} BulkKeepsHeld(
    d: Disk, bucket: Bytes, ids: seq<ObjectIdentifier>, stamps: seq<Stamp>, key: Bytes, id: Bytes, n: nat)
    requires n <= |ids| <= |stamps| && NoNul(key) && WellKeyed(VersionsOf(d.db, bucket))
    requires bucket in d.db.buckets && bucket in d.db.objects && d.db.buckets[bucket].versioning == "Enabled"
    requires HeldThroughout(d, bucket, key, id, stamps)
    requires forall i :: 0 <= i < |ids| ==> NoNul(ids[i].key) && stamps[i].id != id
    ensures var after := DiskAt(d, bucket, ids, stamps, n);
      && bucket in after.db.buckets && bucket in after.db.objects && after.db.buckets == d.db.buckets
      && WellKeyed(VersionsOf(after.db, bucket)) && HeldThroughout(after, bucket, key, id, stamps)
    ensures SameRecord(d, DiskAt(d, bucket, ids, stamps, n), bucket, key + [0] + id)
    ensures forall i :: 0 <= i < n && ids[i] == ObjectIdentifier(key, id) && id != [] ==>
      ErrorAt(d, bucket, ids, stamps, i) == Some(AccessDenied)
  {
    hide DeleteObjectAfter, WellKeyed;
    if n > 0 {
      BulkKeepsHeld(d, bucket, ids, stamps, key, id, n - 1);
      BulkStep(DiskAt(d, bucket, ids, stamps, n - 1), bucket, key, id, stamps, ids[n - 1], stamps[n - 1]);
    }
  }
}
