/**
 * The bbolt-backed metadata store. Each method is one transaction: it works on a
 * local copy of the database and installs it on commit, and a failed one installs
 * nothing.
 */
module MetaStore {
  import opened ByteStrings
  import opened ObjectTypes
  import opened Outcomes
  import opened Parts
  import opened SortedKeys
  import opened StoreModel
  import opened VersionKeys
  import Listing
  import VersionListing

  class BboltStore {
    var db: Db

    constructor ()
      ensures db == EMPTY_DB
    {
      db := EMPTY_DB;
    }

    method CreateBucket(name: Bytes, objectLock: bool) returns (err: Option<StoreError>)
      modifies this
      ensures db == Committed(old(db), CreateBucketTx(old(db), name, objectLock))
      ensures err == Failure(CreateBucketTx(old(db), name, objectLock))
    {
      if name in db.buckets {
        return Some(BucketExists);
      }
      if name == [] {
        return Some(KeyRequired);
      }
      var info := BucketInfo("", objectLock);
      if objectLock {
        info := info.(versioning := "Enabled");
      }
      var objects := db.objects;
      if name !in objects {
        objects := objects[name := map[]];
      }
      assert objects == db.objects[name := ObjectsOf(db, name)];
      db := db.(buckets := db.buckets[name := info], objects := objects);
      err := None;
    }

    method DeleteBucket(name: Bytes) returns (err: Option<StoreError>)
      modifies this
      ensures db == Committed(old(db), DeleteBucketTx(old(db), name))
      ensures err == Failure(DeleteBucketTx(old(db), name))
    {
      if name !in db.buckets {
        return Some(BucketNotFound);
      }
      var tx := db;
      if name in tx.objects {
        if tx.objects[name] != map[] {
          return Some(BucketNotEmpty);
        }
        tx := tx.(objects := tx.objects - {name});
      }
      assert tx.objects == db.objects - {name};
      db := tx.(buckets := tx.buckets - {name});
      err := None;
    }

    method UpdateBucket(name: Bytes, info: BucketInfo) returns (err: Option<StoreError>)
      modifies this
      ensures db == Committed(old(db), UpdateBucketTx(old(db), name, info))
      ensures err == Failure(UpdateBucketTx(old(db), name, info))
    {
      if name !in db.buckets {
        return Some(BucketNotFound);
      }
      db := db.(buckets := db.buckets[name := info]);
      err := None;
    }

    method PutObject(bucket: Bytes, key: Bytes, meta: ObjectMeta) returns (err: Option<StoreError>)
      modifies this
      ensures db == Committed(old(db), PutObjectTx(old(db), bucket, key, meta))
      ensures err == Failure(PutObjectTx(old(db), bucket, key, meta))
    {
      if bucket !in db.objects {
        return Some(BucketNotFound);
      }
      var b := db.objects[bucket];
      if meta.isLatest || meta.versionId == [] {
        if key == [] {
          return Some(KeyRequired);
        }
        b := b[key := meta];
      }
      var vb := if bucket in db.versions then db.versions[bucket] else map[];
      vb := vb[VersionKey(key, meta.versionId) := meta];
      db := db.(objects := db.objects[bucket := b], versions := db.versions[bucket := vb]);
      err := None;
    }

    method GetObject(bucket: Bytes, key: Bytes, versionId: Bytes) returns (r: Result<ObjectMeta, StoreError>)
      ensures r == GetObjectSpec(db, bucket, key, versionId)
    {
      if versionId == [] {
        if bucket !in db.objects {
          return Err(BucketNotFound);
        }
        if key !in db.objects[bucket] {
          return Err(ObjectNotFound);
        }
        return Ok(db.objects[bucket][key]);
      }
      if bucket !in db.versions {
        return Err(ObjectNotFound);
      }
      var versionKey := VersionKey(key, versionId);
      if versionKey !in db.versions[bucket] {
        return Err(ObjectNotFound);
      }
      r := Ok(db.versions[bucket][versionKey]);
    }

    /** Two cursor loops: one erases every version of a key, one looks for its newest. */
    method DeleteObject(bucket: Bytes, key: Bytes, versionId: Bytes) returns (err: Option<StoreError>)
      modifies this
      ensures db == Committed(old(db), DeleteObjectTx(old(db), bucket, key, versionId))
      ensures err == Failure(DeleteObjectTx(old(db), bucket, key, versionId))
    {
      hide RecordsOf, VersionKey, DeleteVersion;
      if bucket !in db.objects {
        return Some(BucketNotFound);
      }
      err := None;
      var b := db.objects[bucket];
      if versionId == [] {
        b := b - {key};
        if bucket in db.versions {
          var vb := EraseVersions(db.versions[bucket], key);
          db := db.(objects := db.objects[bucket := b], versions := db.versions[bucket := vb]);
        } else {
          db := db.(objects := db.objects[bucket := b]);
        }
        return;
      }
      if bucket in db.versions {
        var vb := db.versions[bucket];
        ghost var before := vb;
        vb := vb - {VersionKey(key, versionId)};
        var latestMeta := FindNewest(vb, key);
        if latestMeta.Some? {
          var m := latestMeta.value.(isLatest := true);
          if key != [] {
            b := b[key := m];
          }
          vb := vb[VersionKey(key, m.versionId) := m];
        } else {
          b := b - {key};
        }
        DeleteVersionIs(db.objects[bucket], before, key, versionId, latestMeta);
        db := db.(objects := db.objects[bucket := b], versions := db.versions[bucket := vb]);
      }
    }

    method ListObjects(bucket: Bytes, prefix: Bytes, delimiter: Bytes, marker: Bytes, maxKeys: int)
      returns (objects: seq<ObjectInfo>, commonPrefixes: seq<Bytes>, nextMarker: Bytes, err: Option<StoreError>)
      ensures bucket !in db.objects ==> err == Some(BucketNotFound)
      ensures bucket in db.objects ==>
        var b := db.objects[bucket];
        var items := Listing.ItemsFrom(Keys(b.Keys), prefix, delimiter, Listing.Start(Keys(b.Keys), prefix, marker));
        err == None && Listing.IsPage(b, items, maxKeys, objects, commonPrefixes, nextMarker)
    {
      if bucket !in db.objects {
        return [], [], [], Some(BucketNotFound);
      }
      objects, commonPrefixes, nextMarker :=
        Listing.ListObjects(db.objects[bucket], prefix, delimiter, marker, maxKeys);
      err := None;
    }

    method ListObjectVersions(
      bucket: Bytes, prefix: Bytes, delimiter: Bytes, keyMarker: Bytes, versionIdMarker: Bytes, maxKeys: int)
      returns (objects: seq<ObjectInfo>, commonPrefixes: seq<Bytes>,
               nextKeyMarker: Bytes, nextVersionIdMarker: Bytes, err: Option<StoreError>)
      requires bucket in db.versions ==>
        var q := VersionListing.Query(prefix, delimiter, keyMarker);
        VersionListing.PageJumps(VersionListing.Listed(db.versions[bucket], q, versionIdMarker), delimiter, maxKeys)
      ensures bucket !in db.versions ==> err == Some(BucketNotFound)
      ensures bucket in db.versions ==>
        var q := VersionListing.Query(prefix, delimiter, keyMarker);
        var items := VersionListing.Listed(db.versions[bucket], q, versionIdMarker);
        err == None &&
        VersionListing.IsVersionPage(items, maxKeys, objects, commonPrefixes, nextKeyMarker, nextVersionIdMarker) &&
        VersionListing.AllTold(db.versions[bucket], objects)
    {
      if bucket !in db.versions {
        return [], [], [], [], Some(BucketNotFound);
      }
      objects, commonPrefixes, nextKeyMarker, nextVersionIdMarker :=
        VersionListing.ListObjectVersions(db.versions[bucket], prefix, delimiter, keyMarker, versionIdMarker, maxKeys);
      err := None;
    }

    /** The fresh upload id and the time are passed in. */
    method CreateMultipartUpload(bucket: Bytes, key: Bytes, meta: ObjectMeta, uploadId: Bytes, now: int)
      modifies this
      ensures db == CreateUploadTx(old(db), bucket, key, meta, uploadId, now)
    {
      var b := db.uploads[UploadKey(bucket, key, uploadId) := UploadInfo(key, uploadId, now)];
      b := b[UploadMetaKey(bucket, key, uploadId) := UploadMeta(meta)];
      var parts := db.parts;
      if uploadId !in parts {
        parts := parts[uploadId := map[]];
      }
      assert parts == db.parts[uploadId := if uploadId in db.parts then db.parts[uploadId] else map[]];
      db := db.(uploads := b, parts := parts);
    }

    method GetMultipartUpload(bucket: Bytes, key: Bytes, uploadId: Bytes) returns (r: Result<ObjectMeta, StoreError>)
      ensures r == GetUploadSpec(db, bucket, key, uploadId)
    {
      var mk := UploadMetaKey(bucket, key, uploadId);
      if mk !in db.uploads {
        return Err(UploadNotFound);
      }
      r := Ok(if db.uploads[mk].UploadMeta? then db.uploads[mk].meta else ZERO_META);
    }

    method DeleteMultipartUpload(bucket: Bytes, key: Bytes, uploadId: Bytes) returns (err: Option<StoreError>)
      modifies this
      ensures db == Committed(old(db), DeleteUploadTx(old(db), bucket, key, uploadId))
      ensures err == Failure(DeleteUploadTx(old(db), bucket, key, uploadId))
    {
      var k := UploadKey(bucket, key, uploadId);
      if k !in db.uploads {
        return Some(UploadNotFound);
      }
      var b := db.uploads - {k};
      b := b - {UploadMetaKey(bucket, key, uploadId)};
      assert b == db.uploads - {k, UploadMetaKey(bucket, key, uploadId)};
      db := db.(uploads := b, parts := db.parts - {uploadId});
      err := None;
    }

    method PutObjectPart(uploadId: Bytes, partNumber: int, info: PartInfo) returns (err: Option<StoreError>)
      modifies this
      ensures db == Committed(old(db), PutPartTx(old(db), uploadId, partNumber, info))
      ensures err == Failure(PutPartTx(old(db), uploadId, partNumber, info))
    {
      if uploadId !in db.parts {
        return Some(UploadNotFound);
      }
      db := db.(parts := db.parts[uploadId := db.parts[uploadId][PartName(partNumber) := info]]);
      err := None;
    }
  }

  lemma PrefixedKeys(ks: seq<Bytes>, p: Bytes, c: nat)
    requires Sorted(ks) && c == Seek(ks, p)
    ensures forall j :: 0 <= j < |ks| ==> (HasPrefix(ks[j], p) <==> c <= j < RunEnd(ks, p, c))
  {
    hide Less, HasPrefix;
    forall j | 0 <= j < |ks|
      ensures HasPrefix(ks[j], p) <==> c <= j < RunEnd(ks, p, c)
    {
      if HasPrefix(ks[j], p) {
        PrefixNotGreater(ks[j], p);
        if c < j {
          SeekSplits(ks, p);
          LessAsymmetric(ks[c], ks[j]);
          PrefixConvex(p, ks[c], ks[j]);
        }
        RunIsContiguous(ks, p, c);
      }
    }
  }

  /** The loop of a delete without version id over the cursor's snapshot of the bucket. */
  method EraseVersions(vs: map<Bytes, ObjectMeta>, key: Bytes) returns (vb: map<Bytes, ObjectMeta>)
    ensures vb == vs - RecordsOf(vs, key)
  {
    hide Less, HasPrefix, Keys, Seek;
    var ks := Keys(vs.Keys);
    var prefix := key + [NUL];
    var c := Seek(ks, prefix);
    ghost var start := c;
    vb := vs;
    PrefixedKeys(ks, prefix, c);
    while c < |ks| && HasPrefix(ks[c], prefix)
      invariant start <= c <= |ks|
      invariant vb == vs - (set j | start <= j < c :: ks[j])
      invariant forall j :: start <= j < c ==> HasPrefix(ks[j], prefix)
      decreases |ks| - c
    {
      vb := vb - {ks[c]};
      c := c + 1;
    }
    forall vk | vk in vs
      ensures vk in RecordsOf(vs, key) <==> vk in (set j | start <= j < c :: ks[j])
    {
      var j :| 0 <= j < |ks| && ks[j] == vk;
    }
  }

  /** The loop that keeps the record with the greatest time, the first of several. */
  method FindNewest(vs: map<Bytes, ObjectMeta>, key: Bytes) returns (latestMeta: Option<ObjectMeta>)
    ensures latestMeta.None? <==> RecordsOf(vs, key) == {}
    ensures latestMeta.Some? ==> exists vk :: IsNewest(vs, key, vk) && vs[vk] == latestMeta.value
  {
    hide Less, HasPrefix, Keys, Seek;
    var ks := Keys(vs.Keys);
    var prefix := key + [NUL];
    var c := Seek(ks, prefix);
    ghost var start := c;
    PrefixedKeys(ks, prefix, c);
    latestMeta := None;
    ghost var n := c;
    while c < |ks| && HasPrefix(ks[c], prefix)
      invariant start <= c <= |ks|
      invariant c == start ==> latestMeta == None
      invariant c > start ==> start <= n < c && HasPrefix(ks[n], prefix) && latestMeta == Some(vs[ks[n]])
      invariant c > start ==> forall j :: start <= j < c && j != n ==>
        vs[ks[j]].lastModified < vs[ks[n]].lastModified || (vs[ks[j]].lastModified == vs[ks[n]].lastModified && n < j)
      decreases |ks| - c
    {
      var m := vs[ks[c]];
      if latestMeta.None? || m.lastModified > latestMeta.value.lastModified {
        latestMeta := Some(m);
        n := c;
      }
      c := c + 1;
    }
    forall vk | vk in RecordsOf(vs, key)
      ensures exists j :: start <= j < c && ks[j] == vk
    {
      var j :| 0 <= j < |ks| && ks[j] == vk;
      assert start <= j < c;
    }
    if c > start {
      forall other | other in RecordsOf(vs, key) && other != ks[n]
        ensures vs[other].lastModified < vs[ks[n]].lastModified ||
          (vs[other].lastModified == vs[ks[n]].lastModified && Less(ks[n], other))
      {
        var j :| start <= j < c && ks[j] == other;
      }
      assert ks[n] in RecordsOf(vs, key);
      assert IsNewest(vs, key, ks[n]);
    }
  }

  lemma DeleteVersionIs(
    latest: map<Bytes, ObjectMeta>, vs: map<Bytes, ObjectMeta>, key: Bytes, versionId: Bytes,
    newest: Option<ObjectMeta>)
    requires var rest := vs - {VersionKey(key, versionId)};
      && (newest.None? <==> RecordsOf(rest, key) == {})
      && (newest.Some? ==> exists vk :: IsNewest(rest, key, vk) && rest[vk] == newest.value)
    ensures var rest := vs - {VersionKey(key, versionId)};
      DeleteVersion(latest, vs, key, versionId) ==
        if newest.None? then (latest - {key}, rest)
        else
          var m := newest.value.(isLatest := true);
          (if key == [] then latest else latest[key := m], rest[VersionKey(key, m.versionId) := m])
  {
    hide VersionKey;
    var rest := vs - {VersionKey(key, versionId)};
    if newest.Some? {
      var vk :| IsNewest(rest, key, vk) && rest[vk] == newest.value;
      NewestExists(rest, key);
      NewestIsUnique(rest, key, vk, Newest(rest, key));
    }
  }
}
