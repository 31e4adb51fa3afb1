/**
 * What the requests on buckets and objects answer and leave behind, said of the maps of
 * the database, the files and the fields of the records.
 */
module RequestOutcomes {
  import opened BackendModel
  import opened ByteStrings
  import opened ObjectLock
  import opened ObjectTypes
  import opened Outcomes
  import opened Paths
  import opened StoreModel
  import opened VersionKeys

  // ----- buckets -----

  /**
   * Creating a bucket fails exactly under a name in use or an empty one. A new bucket has
   * versioning on exactly if it has object lock, and a latest map; nothing else changes.
   */
  lemma NewBucket(db: Db, name: Bytes, lock: bool)
    ensures var tx := CreateBucketTx(db, name, lock); var after := Committed(db, tx);
      if name in db.buckets then tx == Err(BucketExists) && after == db
      else if name == [] then tx == Err(KeyRequired) && after == db
      else
        && tx.Ok? && name in after.buckets && after.buckets.Keys == db.buckets.Keys + {name}
        && after.buckets[name].objectLockEnabled == lock
        && after.buckets[name].versioning == (if lock then "Enabled" else "")
        && (forall b :: b in db.buckets ==> after.buckets[b] == db.buckets[b])
        && name in after.objects && (name !in db.objects ==> after.objects[name] == map[])
        && (forall b :: b in db.objects ==> b in after.objects && after.objects[b] == db.objects[b])
        && after.versions == db.versions && after.uploads == db.uploads && after.parts == db.parts
  {
  }

  /**
   * So in a bucket that was made with object lock a delete without an id leaves every
   * version, and in one made without it none of the key.
   */
  lemma NewBucketDeletes(d: Disk, name: Bytes, lock: bool, key: Bytes, stamp: Stamp)
    requires name !in d.db.buckets && name != [] && key != []
    requires name in d.db.objects ==> key !in d.db.objects[name]
    requires key + [0] + stamp.id !in VersionsOf(d.db, name)
    ensures var made := d.(db := Committed(d.db, CreateBucketTx(d.db, name, lock)));
      var records := VersionsOf(DeleteObjectAfter(made, name, key, [], stamp).0.db, name);
      forall vk :: vk in VersionsOf(d.db, name) ==>
        if lock then vk in records && records[vk] == VersionsOf(d.db, name)[vk]
        else vk in records <==> !(key + [0] <= vk)
  {
    hide CreateBucketTx, DeleteObjectAfter;
    NewBucket(d.db, name, lock);
    var made := d.(db := Committed(d.db, CreateBucketTx(d.db, name, lock)));
    if lock { DeleteMarks(made, name, key, stamp); } else { UnversionedDelete(made, name, key, stamp); }
  }

  /** Deleting a bucket fails exactly if it is missing or has a latest entry; otherwise it goes, and nothing else. */
  lemma DroppedBucket(db: Db, name: Bytes)
    ensures var tx := DeleteBucketTx(db, name); var after := Committed(db, tx);
      if name !in db.buckets then tx == Err(BucketNotFound) && after == db
      else if exists k :: name in db.objects && k in db.objects[name] then tx == Err(BucketNotEmpty) && after == db
      else
        && tx.Ok? && after.buckets == db.buckets - {name} && after.objects == db.objects - {name}
        && after.versions == db.versions && after.uploads == db.uploads && after.parts == db.parts
  {
    if name in db.objects && !(exists k :: k in db.objects[name]) {
      assert db.objects[name] == map[];
    }
  }

  /** A bucket's settings become the ones given, and nothing else changes. */
  lemma ChangedBucket(db: Db, name: Bytes, info: BucketInfo)
    ensures var tx := UpdateBucketTx(db, name, info); var after := Committed(db, tx);
      if name !in db.buckets then tx == Err(BucketNotFound) && after == db
      else
        && tx.Ok? && after.buckets.Keys == db.buckets.Keys && after.buckets[name] == info
        && (forall b :: b in db.buckets && b != name ==> after.buckets[b] == db.buckets[b])
        && after.(buckets := map[]) == db.(buckets := map[])
  {
  }

  /** With a bucket of a proper name go the files of all its versions of clean keys, and of no other such bucket. */
  lemma BucketFiles(bucket: Bytes, other: Bytes, key: Bytes, id: Bytes)
    requires Proper(bucket) && Proper(other) && CleanKey(key) && SLASH !in id
    ensures Below(FilePath(other, key, id), BucketPath(bucket)) <==> other == bucket
  {
    hide Components, FilePath, EnterAll;
    CleanFilePath(other, key, id);
    OneComponent(bucket);
    EnterProper(Inside([BUCKETS]), [bucket]);
    var names := [BUCKETS, other, OBJECTS] + Components(Suffixed(key, id));
    assert names[..2] == [BUCKETS, other];
    assert [BUCKETS] + [bucket] == [BUCKETS, bucket];
    assert [BUCKETS, bucket] <= names <==> names[..2] == [BUCKETS, bucket];
    assert [BUCKETS, other][1] == other && [BUCKETS, bucket][1] == bucket;
  }

  // ----- objects -----

  /**
   * A put answers with the digest and length of the content and the id it was given, and
   * records these with the time and all else it was given; the latest entry of the key
   * changes exactly if the put is the latest or has no id. It fails exactly for want of
   * the bucket, or where its path leaves the data directory, or if such an entry has an
   * empty key; then no record changes, and a file that was at the path is gone where the
   * store has refused the record.
   */
  lemma PutOutcome(d: Disk, bucket: Bytes, key: Bytes, content: Bytes, meta: ObjectMeta, now: int)
    ensures var (after, r) := PutObjectAfter(d, bucket, key, content, meta, now);
      var latest := meta.isLatest || meta.versionId == [];
      var path := FilePath(bucket, key, meta.versionId);
      var m := ObjectMeta(size := |content|, etag := Md5(content), lastModified := now, versionId := meta.versionId,
        isDeleteMarker := meta.isDeleteMarker, isLatest := meta.isLatest, retainUntil := meta.retainUntil,
        legalHold := meta.legalHold, attributes := meta.attributes);
      && after.db.buckets == d.db.buckets
      && (bucket !in d.db.buckets ==> r == Err(NoSuchBucket) && after == d)
      && (bucket in d.db.buckets && path.Outside? ==> r == Err(PathRefused) && after == d)
      && (r.Ok? <==> bucket in d.db.buckets && path.Inside? && bucket in d.db.objects && !(latest && key == []))
      && (r.Err? ==> after.db == d.db)
      && (r.Err? && bucket in d.db.buckets && path.Inside? ==>
            && r.error == StoreFailed(if bucket in d.db.objects then KeyRequired else BucketNotFound)
            && after.files == d.files - {path} && after.partFiles == d.partFiles)
      && (r.Ok? ==>
            && r.value == PutResult(Md5(content), |content|, meta.versionId)
            && after.files == d.files[path := content] && after.partFiles == d.partFiles
            && after.db.versions == d.db.versions[bucket := VersionsOf(d.db, bucket)[key + [0] + meta.versionId := m]]
            && after.db.objects == d.db.objects[bucket :=
                 if latest then d.db.objects[bucket][key := m] else d.db.objects[bucket]])
  {
    hide FilePath;
    if bucket in d.db.objects { assert d.db.objects[bucket := d.db.objects[bucket]] == d.db.objects; }
  }

  /**
   * A read without an id says NoSuchBucket exactly if the bucket is missing, and one with
   * an id never does. It says NoSuchKey exactly if there is no such record, under an id
   * in a missing bucket too, or if the record has no file.
   */
  lemma ReadOutcome(
    d: Disk, bucket: Bytes, key: Bytes, versionId: Bytes, rangeStart: Option<nat>, rangeEnd: Option<nat>)
    ensures var r := GetObjectAfter(d, bucket, key, versionId, rangeStart, rangeEnd);
      var found := if versionId == [] then bucket in d.db.objects && key in d.db.objects[bucket]
                   else key + [0] + versionId in VersionsOf(d.db, bucket);
      && (r == Err(NoSuchBucket) <==> versionId == [] && bucket !in d.db.objects)
      && (r == Err(NoSuchKey) <==>
            if !found then versionId != [] || bucket in d.db.objects
            else
              var m := if versionId == [] then d.db.objects[bucket][key]
                       else VersionsOf(d.db, bucket)[key + [0] + versionId];
              var path := FilePath(bucket, key, m.versionId);
              path.Inside? && path !in d.files)
      && (r.Ok? ==> found && r.value.meta == if versionId == [] then d.db.objects[bucket][key]
                       else VersionsOf(d.db, bucket)[key + [0] + versionId])
  {
    hide FilePath;
  }

  /**
   * A completion fails for want of the upload, or of a part's file, or where one of its
   * two paths leaves the data directory, and then changes nothing; or the store refuses
   * the record. If it succeeds, the parts' contents are the file of the new version, whose
   * record keeps the retention date, the legal hold, the attributes and the marker flag
   * that the upload was started with.
   */
  lemma CompletionOutcome(
    d: Disk, bucket: Bytes, key: Bytes, uploadId: Bytes, parts: seq<CompletePart>, stamp: Stamp)
    ensures var (after, r) := CompleteUploadAfter(d, bucket, key, uploadId, parts, stamp);
      var upload, content := GetUploadSpec(d.db, bucket, key, uploadId), Assemble(d, uploadId, parts);
      && (upload.Err? ==> after == d && r == Err(NoSuchUpload))
      && (upload.Ok? && content.None? ==> after == d && r == Err(InvalidPart))
      && (upload.Ok? && content.Some? ==>
            var versioning := if bucket in d.db.buckets then d.db.buckets[bucket].versioning else "";
            var id := if versioning == "Enabled" then stamp.id
                      else if versioning == "Suspended" then [110, 117, 108, 108] else upload.value.versionId;
            var outside := KeyPath(bucket, key).Outside? || FilePath(bucket, key, id).Outside?;
            && (outside ==> after == d && r == Err(PathRefused))
            && (!outside ==> (r.Ok? <==> bucket in d.db.objects && key != []))
            && (!outside && r.Err? ==>
                  && after.db == d.db
                  && r.error == StoreFailed(if bucket in d.db.objects then KeyRequired else BucketNotFound)))
      && (r.Ok? ==>
            && upload.Ok? && content.Some? && bucket in d.db.objects && key != [] && r.value.size == |content.value|
            && after.files == d.files[FilePath(bucket, key, r.value.versionId) := content.value])
      && (r.Ok? ==>
            var vs, vk := VersionsOf(after.db, bucket), key + [0] + r.value.versionId;
            && vk in vs && vs[vk].retainUntil == upload.value.retainUntil && vs[vk].legalHold == upload.value.legalHold
            && vs[vk].attributes == upload.value.attributes && vs[vk].isDeleteMarker == upload.value.isDeleteMarker)
  {
    hide FilePath, KeyPath, Assemble, GetUploadSpec, UploadDir, UploadKey, UploadMetaKey;
  }

  /** The record of a new version keeps what its upload was started with. */
  ghost predicate KeepsStart(d: Disk, after: Disk, bucket: Bytes, key: Bytes, uploadId: Bytes, versionId: Bytes) {
    var upload, vs := GetUploadSpec(d.db, bucket, key, uploadId), VersionsOf(after.db, bucket);
    var vk := key + [0] + versionId;
    && upload.Ok? && vk in vs
    && vs[vk].retainUntil == upload.value.retainUntil && vs[vk].legalHold == upload.value.legalHold
    && vs[vk].attributes == upload.value.attributes && vs[vk].isDeleteMarker == upload.value.isDeleteMarker
  }

  lemma StartIsKept(d: Disk, bucket: Bytes, key: Bytes, uploadId: Bytes, parts: seq<CompletePart>, stamp: Stamp)
    ensures var (after, r) := CompleteUploadAfter(d, bucket, key, uploadId, parts, stamp);
      r.Ok? ==> KeepsStart(d, after, bucket, key, uploadId, r.value.versionId)
  {
    hide CompleteUploadAfter;
    CompletionOutcome(d, bucket, key, uploadId, parts, stamp);
  }
}
