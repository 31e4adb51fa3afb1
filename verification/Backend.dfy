/** The local backend: files and metadata, changed step by step. */
module Backend {
  import opened BackendModel
  import opened ByteStrings
  import opened MetaStore
  import opened ObjectLock
  import opened ObjectTypes
  import opened Outcomes
  import opened Parts
  import opened Paths
  import opened RequestOutcomes
  import opened StoreModel
  import Listing
  import VersionListing

  class LocalBackend {
    const meta: BboltStore
    var files: map<Path, Bytes>
    var partFiles: map<Path, Bytes>

    /** Opening the backend on a data directory sweeps the temporary one, where the part files are. */
    constructor (meta: BboltStore, files: map<Path, Bytes>)
      ensures this.meta == meta && Contents() == Disk(meta.db, files, map[])
    {
      this.meta, this.files, partFiles := meta, files, map[];
    }

    /** The state of the backend as one value. */
    ghost function Contents(): (d: Disk)
      reads this, meta
      ensures d.db == meta.db && d.files == files && d.partFiles == partFiles
    {
      Disk(meta.db, files, partFiles)
    }

    method CreateBucket(bucket: Bytes, objectLock: bool) returns (err: Option<BackendError>)
      modifies meta
      ensures Contents() ==
        old(Contents()).(db := Committed(old(meta.db), CreateBucketTx(old(meta.db), bucket, objectLock)))
      ensures err == match CreateBucketTx(old(meta.db), bucket, objectLock)
        case Ok(_) => None
        case Err(e) => Some(if e == BucketExists then BucketAlreadyExists else StoreFailed(e))
    {
      var e := meta.CreateBucket(bucket, objectLock);
      if e.Some? {
        return Some(if e.value == BucketExists then BucketAlreadyExists else StoreFailed(e.value));
      }
      err := None;
    }

    /** Removes the record of an empty bucket, then its directory. */
    method DeleteBucket(bucket: Bytes) returns (err: Option<BackendError>)
      modifies this, meta
      ensures var tx := DeleteBucketTx(old(meta.db), bucket);
        if tx.Err? then
          Contents() == old(Contents()) &&
          err == Some(match tx.error
            case BucketNotFound => NoSuchBucket
            case BucketNotEmpty => BucketIsNotEmpty
            case e => StoreFailed(e))
        else
          && err == None && meta.db == tx.value
          && files == (map p | p in old(files) && !Below(p, BucketPath(bucket)) :: old(files)[p])
          && partFiles == (map p | p in old(partFiles) && !Below(p, BucketPath(bucket)) :: old(partFiles)[p])
    {
      var e := meta.DeleteBucket(bucket);
      match e {
        case Some(BucketNotFound) => return Some(NoSuchBucket);
        case Some(BucketNotEmpty) => return Some(BucketIsNotEmpty);
        case Some(other) => return Some(StoreFailed(other));
        case None =>
      }
      files := map p | p in files && !Below(p, BucketPath(bucket)) :: files[p];
      partFiles := map p | p in partFiles && !Below(p, BucketPath(bucket)) :: partFiles[p];
      err := None;
    }

    /** The body goes to a temporary file first, which touches neither tree. */
    method PutObject(bucket: Bytes, key: Bytes, body: Body, meta: ObjectMeta, now: int, space: bool)
      returns (r: Result<PutResult, BackendError>)
      modifies this, this.meta
      ensures
        if bucket in old(this.meta.db).buckets && !(space && body.complete) then
          Contents() == old(Contents()) && r == Err(if space then ReadFailed else DiskFull)
        else (Contents(), r) == PutObjectAfter(old(Contents()), bucket, key, body.content, meta, now)
    {
      if bucket !in this.meta.db.buckets {
        return Err(NoSuchBucket);
      }
      if !space {
        return Err(DiskFull);
      }
      if !body.complete {
        return Err(ReadFailed);
      }
      var versionId := if meta.versionId == [] then NULL_ID else meta.versionId;
      var finalPath := EnterAll(ObjectsDir(bucket), Components(key + [AT_SIGN] + versionId));
      if finalPath.Outside? {
        return Err(PathRefused);
      }
      files := files[finalPath := body.content];
      var m := meta.(etag := Md5(body.content), size := |body.content|, lastModified := now);
      var e := this.meta.PutObject(bucket, key, m);
      if e.Some? {
        files := files - {finalPath};
        return Err(StoreFailed(e.value));
      }
      r := Ok(PutResult(m.etag, m.size, m.versionId));
    }

    method GetObject(
      bucket: Bytes, key: Bytes, versionId: Bytes, rangeStart: Option<nat>, rangeEnd: Option<nat>)
      returns (r: Result<Object, BackendError>)
      ensures r == GetObjectAfter(Contents(), bucket, key, versionId, rangeStart, rangeEnd)
    {
      var found := meta.GetObject(bucket, key, versionId);
      if found.Err? {
        return Err(match found.error
          case BucketNotFound => NoSuchBucket
          case ObjectNotFound => NoSuchKey
          case e => StoreFailed(e));
      }
      var m := found.value;
      var finalPath := EnterAll(ObjectsDir(bucket),
        Components(key + [AT_SIGN] + if m.versionId == [] then NULL_ID else m.versionId));
      if finalPath.Outside? {
        return Err(PathRefused);
      }
      if finalPath !in files {
        return Err(NoSuchKey);
      }
      var content := files[finalPath];
      var start: nat, end := 0, m.size - 1;
      if rangeStart.Some? {
        start := rangeStart.value;
        if rangeEnd.Some? {
          end := rangeEnd.value;
        }
        if start > end || start >= m.size {
          return Err(InvalidRange);
        }
        if end >= m.size {
          end := m.size - 1;
        }
        content := Slice(content, start, end);
      }
      r := Ok(Object(m, content, start, end));
    }

    /**
     * A delete marker, or the lock check followed by erasing the record and then the
     * file. A delete of a version is refused exactly if it is held.
     */
    method DeleteObject(bucket: Bytes, key: Bytes, versionId: Bytes, stamp: Stamp) returns (err: Option<BackendError>)
      modifies this, meta
      ensures (Contents(), err) == DeleteObjectAfter(old(Contents()), bucket, key, versionId, stamp)
      ensures versionId != [] ==>
        var vs, vk := VersionsOf(old(meta.db), bucket), key + [0] + versionId;
        && (err == Some(AccessDenied) <==>
              vk in vs && (vs[vk].legalHold == "ON" ||
                           (vs[vk].retainUntil.Some? && stamp.now < vs[vk].retainUntil.value)))
        && (err == Some(AccessDenied) ==> Contents() == old(Contents()))
    {
      hide DeleteObjectTx;
      if versionId != [] { DeleteRefused(Contents(), bucket, key, versionId, stamp); }
      if versionId == [] {
        if bucket !in meta.db.buckets {
          return Some(StoreFailed(BucketNotFound));
        }
        var info := meta.db.buckets[bucket];
        if info.versioning == "Enabled" || info.versioning == "Suspended" {
          var newId := NULL_ID;
          if info.versioning == "Enabled" {
            newId := stamp.id;
          }
          var e := meta.PutObject(bucket, key, DeleteMarker(stamp.now, newId));
          return if e.Some? then Some(StoreFailed(e.value)) else None;
        }
      }
      var found := meta.GetObject(bucket, key, versionId);
      if found.Ok? {
        if found.value.retainUntil.Some? && found.value.retainUntil.value > stamp.now {
          return Some(AccessDenied);
        }
        if found.value.legalHold == "ON" {
          return Some(AccessDenied);
        }
      }
      var e := meta.DeleteObject(bucket, key, versionId);
      if e.Some? {
        return None;
      }
      var finalPath := FilePath(bucket, key, versionId);
      if finalPath.Outside? {
        return None;
      }
      if finalPath in files {
        files := files - {finalPath};
      } else {
        partFiles := partFiles - {finalPath};
      }
      err := None;
    }

    method DeleteObjects(bucket: Bytes, ids: seq<ObjectIdentifier>, stamps: seq<Stamp>)
      returns (r: BulkResult)
      requires |ids| <= |stamps|
      modifies this, meta
      ensures (Contents(), r) == DeleteObjectsAfter(old(Contents()), bucket, ids, stamps)
    {
      hide DeleteObjectAfter;
      r := BulkResult([], []);
      for i := 0 to |ids|
        invariant (Contents(), r) == DeleteObjectsAfter(old(Contents()), bucket, ids[..i], stamps)
      {
        var e := DeleteObject(bucket, ids[i].key, ids[i].versionId, stamps[i]);
        assert ids[..i + 1][..i] == ids[..i];
        if e.Some? {
          r := r.(errors := r.errors + [(ids[i], e.value)]);
        } else {
          r := r.(deleted := r.deleted + [ids[i]]);
        }
      }
      assert ids[..|ids|] == ids;
    }

    /** Reads the source's latest version and puts it, version id included, at the destination. */
    method CopyObject(
      srcBucket: Bytes, srcKey: Bytes, dstBucket: Bytes, dstKey: Bytes, meta: Option<ObjectMeta>, now: int,
      space: bool)
      returns (r: Result<ETag, BackendError>)
      modifies this, this.meta
      ensures var source := GetObjectAfter(old(Contents()), srcBucket, srcKey, [], None, None);
        if source.Err? then Contents() == old(Contents()) && r == Err(source.error)
        else if !space && dstBucket in old(this.meta.db).buckets then
          Contents() == old(Contents()) && r == Err(DiskFull)
        else
          var m := if meta.Some? then meta.value else source.value.meta;
          var (after, put) := PutObjectAfter(old(Contents()), dstBucket, dstKey, source.value.content, m, now);
          Contents() == after && r == if put.Ok? then Ok(put.value.etag) else Err(put.error)
    {
      var source := GetObject(srcBucket, srcKey, [], None, None);
      if source.Err? {
        return Err(source.error);
      }
      var m := if meta.Some? then meta.value else source.value.meta;
      var put := PutObject(dstBucket, dstKey, Body(source.value.content, true), m, now, space);
      r := if put.Ok? then Ok(put.value.etag) else Err(put.error);
    }

    method ListObjectVersions(
      bucket: Bytes, prefix: Bytes, delimiter: Bytes, keyMarker: Bytes, versionIdMarker: Bytes, maxKeys: int)
      returns (objects: seq<ObjectInfo>, deleteMarkers: seq<ObjectInfo>, commonPrefixes: seq<Bytes>, truncated: bool,
               nextKeyMarker: Bytes, nextVersionIdMarker: Bytes, err: Option<BackendError>)
      requires bucket in meta.db.versions ==>
        var q := VersionListing.Query(prefix, delimiter, keyMarker);
        VersionListing.PageJumps(VersionListing.Listed(meta.db.versions[bucket], q, versionIdMarker),
          delimiter, maxKeys)
      ensures bucket !in meta.db.versions ==> err == Some(NoSuchBucket)
      ensures bucket in meta.db.versions ==>
        var q := VersionListing.Query(prefix, delimiter, keyMarker);
        var items := VersionListing.Listed(meta.db.versions[bucket], q, versionIdMarker);
        var all := VersionListing.InfosIn(Listing.Page(items, maxKeys));
        && err == None
        && objects == Live(all) && Selects(all, false, objects)
        && deleteMarkers == Dead(all) && Selects(all, true, deleteMarkers)
        && VersionListing.AllTold(meta.db.versions[bucket], all)
        && VersionListing.IsVersionPage(items, maxKeys, all, commonPrefixes, nextKeyMarker, nextVersionIdMarker)
        && (truncated <==> nextKeyMarker != [] || nextVersionIdMarker != [])
    {
      hide VersionListing.PageJumps, VersionListing.AllTold, Selects;
      var all, prefixes, k, v, e :=
        meta.ListObjectVersions(bucket, prefix, delimiter, keyMarker, versionIdMarker, maxKeys);
      if e.Some? {
        return [], [], [], false, [], [], Some(NoSuchBucket); // the store's only error here
      }
      objects, deleteMarkers := [], [];
      for i := 0 to |all|
        invariant objects == Live(all[..i]) && deleteMarkers == Dead(all[..i])
      {
        assert all[..i + 1][..i] == all[..i];
        if all[i].isDeleteMarker {
          deleteMarkers := deleteMarkers + [all[i]];
        } else {
          objects := objects + [all[i]];
        }
      }
      assert all[..|all|] == all;
      LiveAndDeadSelect(all);
      commonPrefixes, truncated, nextKeyMarker, nextVersionIdMarker, err := prefixes, k != [] || v != [], k, v, None;
    }

    method CreateMultipartUpload(bucket: Bytes, key: Bytes, meta: ObjectMeta, stamp: Stamp) returns (uploadId: Bytes)
      modifies this.meta
      ensures uploadId == stamp.id
      ensures Contents() ==
        old(Contents()).(db := CreateUploadTx(old(this.meta.db), bucket, key, meta, stamp.id, stamp.now))
    {
      uploadId := stamp.id;
      this.meta.CreateMultipartUpload(bucket, key, meta, uploadId, stamp.now);
    }

    method UploadPart(uploadId: Bytes, partNumber: int, body: Body, now: int, space: bool)
      returns (r: Result<PartInfo, BackendError>)
      modifies this, meta
      ensures
        if !(space && body.complete) then
          Contents() == old(Contents()) && r == Err(if space then ReadFailed else DiskFull)
        else (Contents(), r) == UploadPartAfter(old(Contents()), uploadId, partNumber, body.content, now)
    {
      if !space {
        return Err(DiskFull);
      }
      if !body.complete {
        return Err(ReadFailed);
      }
      var partPath := PartPath(uploadId, PartName(partNumber));
      ghost var before := partFiles;
      if partPath.Inside? {
        partFiles := partFiles[partPath := body.content];
      }
      var info := PartInfo(partNumber, now, Md5(body.content), |body.content|);
      var e := meta.PutObjectPart(uploadId, partNumber, info);
      if e.Some? {
        partFiles := partFiles - {partPath};
        assert partFiles == before - {partPath};
        return Err(StoreFailed(e.value));
      }
      r := Ok(info);
    }

    /** Concatenates the part files in request order, then records the object and drops the upload. */
    method CompleteMultipartUpload(bucket: Bytes, key: Bytes, uploadId: Bytes, parts: seq<CompletePart>, stamp: Stamp)
      returns (r: Result<PutResult, BackendError>)
      modifies this, meta
      ensures (Contents(), r) == CompleteUploadAfter(old(Contents()), bucket, key, uploadId, parts, stamp)
      ensures r.Ok? ==> KeepsStart(old(Contents()), Contents(), bucket, key, uploadId, r.value.versionId)
    {
      hide UploadMetaKey, UploadKey, PartName, FilePath, KeyPath, UploadDir, GetUploadSpec, KeepsStart;
      hide PutObjectTx, DeleteUploadTx, PartPath, Assemble, ETags;
      var upload := meta.GetMultipartUpload(bucket, key, uploadId);
      if upload.Err? {
        return Err(NoSuchUpload);
      }
      var finalTmp: Bytes, totalSize: nat, hashes: seq<Bytes> := [], 0, [];
      AssembleNothing(Contents(), uploadId);
      assert parts[..0] == [];
      for i := 0 to |parts|
        invariant Assemble(old(Contents()), uploadId, parts[..i]) == Some(finalTmp)
        invariant totalSize == |finalTmp| && hashes == ETags(parts[..i])
        invariant Contents() == old(Contents())
      {
        AssembleNext(Contents(), uploadId, parts, i);
        var partPath := PartPath(uploadId, PartName(parts[i].partNumber));
        if partPath !in partFiles {
          AssembleFails(Contents(), uploadId, parts, i);
          return Err(InvalidPart);
        }
        finalTmp := finalTmp + partFiles[partPath];
        totalSize := totalSize + |partFiles[partPath]|;
        hashes := hashes + [parts[i].etag];
      }
      assert parts[..|parts|] == parts;
      var m := upload.value;
      if bucket in meta.db.buckets {
        if meta.db.buckets[bucket].versioning == "Enabled" {
          m := m.(versionId := stamp.id);
        } else if meta.db.buckets[bucket].versioning == "Suspended" {
          m := m.(versionId := NULL_ID);
        }
      }
      m := m.(isLatest := true, etag := Composite(hashes), size := totalSize, lastModified := stamp.now);
      var finalPath := FilePath(bucket, key, m.versionId);
      if KeyPath(bucket, key).Outside? || finalPath.Outside? {
        return Err(PathRefused);
      }
      files := files[finalPath := finalTmp];
      var e := meta.PutObject(bucket, key, m);
      if e.Some? {
        files := files - {finalPath};
        return Err(StoreFailed(e.value));
      }
      var ignored := meta.DeleteMultipartUpload(bucket, key, uploadId);
      if Below(UploadDir(uploadId), Inside([TEMP])) {
        partFiles := map p | p in partFiles && !Below(p, UploadDir(uploadId)) :: partFiles[p];
      }
      StartIsKept(old(Contents()), bucket, key, uploadId, parts, stamp);
      r := Ok(PutResult(m.etag, m.size, m.versionId));
    }

    method AbortMultipartUpload(bucket: Bytes, key: Bytes, uploadId: Bytes) returns (err: Option<BackendError>)
      modifies this, meta
      ensures (Contents(), err) == AbortUploadAfter(old(Contents()), bucket, key, uploadId)
    {
      var e := meta.DeleteMultipartUpload(bucket, key, uploadId);
      if e.Some? {
        return Some(if e.value == UploadNotFound then NoSuchUpload else StoreFailed(e.value));
      }
      partFiles := map p | p in partFiles && !Below(p, UploadDir(uploadId)) :: partFiles[p];
      err := None;
    }

    method ListParts(bucket: Bytes, key: Bytes, uploadId: Bytes, marker: int, maxParts: int)
      returns (page: seq<PartInfo>, nextMarker: int, err: Option<BackendError>)
      ensures match ListPartsSpec(Contents(), bucket, key, uploadId, marker)
        case Err(e) => err == Some(e)
        case Ok(rest) =>
          && err == None && page == Listing.Page(rest, maxParts)
          && nextMarker == if |page| < |rest| then page[|page| - 1].partNumber else 0
    {
      var upload := meta.GetMultipartUpload(bucket, key, uploadId);
      if upload.Err? {
        return [], 0, Some(NoSuchUpload);
      }
      if uploadId !in meta.db.parts {
        return [], 0, Some(StoreFailed(UploadNotFound));
      }
      page, nextMarker := Parts.ListObjectParts(meta.db.parts[uploadId], marker, maxParts);
      err := None;
    }
  }

  function Live(infos: seq<ObjectInfo>): seq<ObjectInfo> {
    if infos == [] then []
    else Live(infos[..|infos| - 1]) + (var x := infos[|infos| - 1]; if x.isDeleteMarker then [] else [x])
  }

  function Dead(infos: seq<ObjectInfo>): seq<ObjectInfo> {
    if infos == [] then []
    else Dead(infos[..|infos| - 1]) + (var x := infos[|infos| - 1]; if x.isDeleteMarker then [x] else [])
  }

  /** Of some entries those, in order, whose delete marker flag is as asked for. */
  ghost predicate Selects(all: seq<ObjectInfo>, marker: bool, chosen: seq<ObjectInfo>) {
    exists at: seq<int> :: ChosenAt(all, marker, chosen, at)
  }

  ghost predicate ChosenAt(all: seq<ObjectInfo>, marker: bool, chosen: seq<ObjectInfo>, at: seq<int>) {
    && |at| == |chosen| && (forall i, j :: 0 <= i < j < |at| ==> at[i] < at[j])
    && (forall i :: 0 <= i < |at| ==> 0 <= at[i] < |all| && chosen[i] == all[at[i]])
    && forall k :: 0 <= k < |all| ==> (k in at <==> all[k].isDeleteMarker == marker)
  }

  lemma SelectNothing(marker: bool)
    ensures Selects([], marker, [])
  {
    assert ChosenAt([], marker, [], []);
  }

  lemma SelectNext(all: seq<ObjectInfo>, x: ObjectInfo, marker: bool, chosen: seq<ObjectInfo>)
    requires Selects(all, marker, chosen)
    ensures Selects(all + [x], marker, if x.isDeleteMarker == marker then chosen + [x] else chosen)
  {
    var at :| ChosenAt(all, marker, chosen, at);
    if x.isDeleteMarker == marker {
      ChosenMore(all, x, marker, chosen, at);
    } else {
      Passed(all, x, marker, chosen, at);
    }
  }

  lemma ChosenMore(all: seq<ObjectInfo>, x: ObjectInfo, marker: bool, chosen: seq<ObjectInfo>, at: seq<int>)
    requires ChosenAt(all, marker, chosen, at) && x.isDeleteMarker == marker
    ensures ChosenAt(all + [x], marker, chosen + [x], at + [|all|])
  {
    var longer := at + [|all|];
    forall k | 0 <= k < |all| + 1
      ensures k in longer <==> (all + [x])[k].isDeleteMarker == marker
    {
      assert k in longer <==> k in at || k == |all|;
    }
  }

  lemma Passed(all: seq<ObjectInfo>, x: ObjectInfo, marker: bool, chosen: seq<ObjectInfo>, at: seq<int>)
    requires ChosenAt(all, marker, chosen, at) && x.isDeleteMarker != marker
    ensures ChosenAt(all + [x], marker, chosen, at)
  {
    assert |all| !in at;
  }

  lemma {:induction false} LiveAndDeadSelect(all: seq<ObjectInfo>)
    ensures Selects(all, false, Live(all)) && Selects(all, true, Dead(all))
  {
    hide Selects;
    SelectNothing(false);
    SelectNothing(true);
    if all != [] {
      var front, x := all[..|all| - 1], all[|all| - 1];
      LiveAndDeadSelect(front);
      SelectNext(front, x, false, Live(front));
      SelectNext(front, x, true, Dead(front));
      assert all == front + [x];
      assert Live(front) + [] == Live(front) && Dead(front) + [] == Dead(front);
    }
  }

  lemma AssembleNothing(d: Disk, uploadId: Bytes)
    ensures Assemble(d, uploadId, []) == Some([]) && ETags([]) == []
  {
  }

  lemma AssembleNext(d: Disk, uploadId: Bytes, parts: seq<CompletePart>, i: nat)
    requires i < |parts|
    ensures ETags(parts[..i + 1]) == ETags(parts[..i]) + [parts[i].etag]
    ensures var head, path := Assemble(d, uploadId, parts[..i]), PartPath(uploadId, PartName(parts[i].partNumber));
      head.Some? && path in d.partFiles ==>
        Assemble(d, uploadId, parts[..i + 1]) == Some(head.value + d.partFiles[path])
  {
    hide PartPath, PartName;
    assert parts[..i + 1][..i] == parts[..i];
  }

  lemma {:induction false} AssembleFails(d: Disk, uploadId: Bytes, parts: seq<CompletePart>, i: nat)
    requires i < |parts| && PartPath(uploadId, PartName(parts[i].partNumber)) !in d.partFiles
    ensures Assemble(d, uploadId, parts) == None
  {
    if i < |parts| - 1 {
      AssembleFails(d, uploadId, parts[..|parts| - 1], i);
    }
  }
}
