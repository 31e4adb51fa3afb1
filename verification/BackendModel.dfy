/**
 * What the local backend keeps, the metadata database and two trees of files, and
 * what each of its operations makes of them.
 */
module BackendModel {
  import opened ByteStrings
  import opened ObjectTypes
  import opened Outcomes
  import opened Parts
  import opened Paths
  import opened StoreModel
  import opened VersionKeys

  /** The database, the files of versions and the files of parts, by their paths. */
  datatype Disk = Disk(db: Db, files: map<Path, Bytes>, partFiles: map<Path, Bytes>)

  /** The time of an operation and the unique id it generates if it needs one. */
  datatype Stamp = Stamp(now: int, id: Bytes)

  /** The bytes of a request, and whether reading them ended without an error. */
  datatype Body = Body(content: Bytes, complete: bool)

  datatype BackendError =
    | NoSuchBucket
    | NoSuchKey
    | NoSuchUpload
    | InvalidRange
    | InvalidPart
    | AccessDenied
    | DiskFull
    | MissingContentLength
    | EntityTooLarge
    | ReadFailed
    | PathRefused
    | BucketAlreadyExists
    | BucketIsNotEmpty
    | StoreFailed(cause: StoreError)

  datatype PutResult = PutResult(etag: ETag, size: nat, versionId: Bytes)

  datatype Object = Object(meta: ObjectMeta, content: Bytes, rangeStart: int, rangeEnd: int)

  datatype ObjectIdentifier = ObjectIdentifier(key: Bytes, versionId: Bytes)

  datatype CompletePart = CompletePart(partNumber: int, etag: Bytes)

  // ----- objects -----

  function Place(d: Disk, path: Path, content: Bytes): Disk {
    d.(files := d.files[path := content])
  }

  /** Removing the file at a path, be it a version's or a part's. */
  function Drop(d: Disk, path: Path): Disk {
    if path in d.files then d.(files := d.files - {path}) else d.(partFiles := d.partFiles - {path})
  }

  function Stored(meta: ObjectMeta, content: Bytes, now: int): ObjectMeta {
    meta.(etag := Md5(content), size := |content|, lastModified := now)
  }

  /** Recording an object whose file is in place; a failure takes the file away again. */
  function RecordObject(d: Disk, bucket: Bytes, key: Bytes, meta: ObjectMeta): Disk {
    var tx := PutObjectTx(d.db, bucket, key, meta);
    if tx.Ok? then d.(db := tx.value) else Drop(d, FilePath(bucket, key, meta.versionId))
  }

  function PutObjectAfter(d: Disk, bucket: Bytes, key: Bytes, content: Bytes, meta: ObjectMeta, now: int)
    : (Disk, Result<PutResult, BackendError>)
  {
    if bucket !in d.db.buckets then (d, Err(NoSuchBucket))
    else if FilePath(bucket, key, meta.versionId).Outside? then (d, Err(PathRefused))
    else
      var m := Stored(meta, content, now);
      var placed := Place(d, FilePath(bucket, key, meta.versionId), content);
      var tx := PutObjectTx(d.db, bucket, key, m);
      (RecordObject(placed, bucket, key, m),
       if tx.Ok? then Ok(PutResult(m.etag, m.size, m.versionId)) else Err(StoreFailed(tx.error)))
  }

  /** The bytes between two inclusive offsets that a file of any length yields. */
  function Slice(content: Bytes, start: nat, end: int): Bytes
    requires end >= start - 1
  {
    if start >= |content| then []
    else if end + 1 >= |content| then content[start..] else content[start..end + 1]
  }

  function GetObjectAfter(
    d: Disk, bucket: Bytes, key: Bytes, versionId: Bytes, rangeStart: Option<nat>, rangeEnd: Option<nat>)
    : Result<Object, BackendError>
  {
    match GetObjectSpec(d.db, bucket, key, versionId)
    case Err(BucketNotFound) => Err(NoSuchBucket)
    case Err(ObjectNotFound) => Err(NoSuchKey)
    case Err(e) => Err(StoreFailed(e))
    case Ok(meta) =>
      var path := FilePath(bucket, key, meta.versionId);
      if path.Outside? then Err(PathRefused)
      else if path !in d.files then Err(NoSuchKey)
      else
        var file, last := d.files[path], meta.size - 1;
        if rangeStart.None? then Ok(Object(meta, file, 0, last))
        else
          var start, end := rangeStart.value, if rangeEnd.Some? then rangeEnd.value as int else last;
          if start > end || start >= meta.size then Err(InvalidRange)
          else
            var cut := if end >= meta.size then last else end;
            Ok(Object(meta, Slice(file, start, cut), start, cut))
  }

  function DeleteMarker(now: int, versionId: Bytes): ObjectMeta {
    ZERO_META.(isDeleteMarker := true, versionId := versionId, lastModified := now, isLatest := true)
  }

  predicate Versioned(info: BucketInfo) {
    info.versioning == "Enabled" || info.versioning == "Suspended"
  }

  /** A path that leaves the data directory is refused, and nothing removed. */
  function Unlink(d: Disk, path: Path): Disk {
    if path.Outside? then d else Drop(d, path)
  }

  /** Erasing a record, then its file. */
  ghost function Erase(d: Disk, bucket: Bytes, key: Bytes, versionId: Bytes): Disk {
    var tx := DeleteObjectTx(d.db, bucket, key, versionId);
    if tx.Err? then d else Unlink(d.(db := tx.value), FilePath(bucket, key, versionId))
  }

  ghost function DeleteObjectAfter(d: Disk, bucket: Bytes, key: Bytes, versionId: Bytes, stamp: Stamp)
    : (Disk, Option<BackendError>)
  {
    if versionId == [] && bucket !in d.db.buckets then (d, Some(StoreFailed(BucketNotFound)))
    else if versionId == [] && Versioned(d.db.buckets[bucket]) then
      var id := if d.db.buckets[bucket].versioning == "Enabled" then stamp.id else NULL_ID;
      var tx := PutObjectTx(d.db, bucket, key, DeleteMarker(stamp.now, id));
      if tx.Ok? then (d.(db := tx.value), None) else (d, Some(StoreFailed(tx.error)))
    else
      var found := GetObjectSpec(d.db, bucket, key, versionId);
      if found.Ok? && Locked(found.value, stamp.now) then (d, Some(AccessDenied))
      else (Erase(d, bucket, key, versionId), None)
  }

  datatype BulkResult = BulkResult(deleted: seq<ObjectIdentifier>, errors: seq<(ObjectIdentifier, BackendError)>)

  /** The deletes of a bulk request in order, each with its own stamp, and what is reported of each. */
  ghost function DeleteObjectsAfter(d: Disk, bucket: Bytes, ids: seq<ObjectIdentifier>, stamps: seq<Stamp>)
    : (Disk, BulkResult)
    requires |ids| <= |stamps|
    decreases |ids|
  {
    if ids == [] then (d, BulkResult([], []))
    else
      var n := |ids| - 1;
      var (before, r) := DeleteObjectsAfter(d, bucket, ids[..n], stamps);
      var (after, err) := DeleteObjectAfter(before, bucket, ids[n].key, ids[n].versionId, stamps[n]);
      (after,
       if err.Some? then r.(errors := r.errors + [(ids[n], err.value)]) else r.(deleted := r.deleted + [ids[n]]))
  }

  // ----- multipart uploads -----

  /** The concatenation of the listed parts' files, if all of them exist. */
  function Assemble(d: Disk, uploadId: Bytes, parts: seq<CompletePart>): Option<Bytes> {
    if parts == [] then Some([])
    else
      var n := |parts| - 1;
      var head, name := Assemble(d, uploadId, parts[..n]), PartPath(uploadId, PartName(parts[n].partNumber));
      if head.None? || name !in d.partFiles then None else Some(head.value + d.partFiles[name])
  }

  function ETags(parts: seq<CompletePart>): seq<Bytes> {
    if parts == [] then [] else ETags(parts[..|parts| - 1]) + [parts[|parts| - 1].etag]
  }

  function PlacePart(d: Disk, path: Path, content: Bytes): Disk {
    if path.Outside? then d else d.(partFiles := d.partFiles[path := content])
  }

  function UploadPartAfter(d: Disk, uploadId: Bytes, partNumber: int, content: Bytes, now: int)
    : (Disk, Result<PartInfo, BackendError>)
  {
    var name := PartPath(uploadId, PartName(partNumber));
    var info := PartInfo(partNumber, now, Md5(content), |content|);
    var tx := PutPartTx(d.db, uploadId, partNumber, info);
    if tx.Ok? then (PlacePart(d, name, content).(db := tx.value), Ok(info))
    else (d.(partFiles := d.partFiles - {name}), Err(StoreFailed(tx.error)))
  }

  predicate Below(p: Path, dir: Path) {
    p.Inside? && dir.Inside? && dir.names <= p.names
  }

  function RemoveParts(d: Disk, uploadId: Bytes): Disk {
    d.(partFiles := map p | p in d.partFiles && !Below(p, UploadDir(uploadId)) :: d.partFiles[p])
  }

  /** After a completion the directory goes only if it lies in the temporary one. */
  function CleanUp(d: Disk, uploadId: Bytes): Disk {
    if Below(UploadDir(uploadId), Inside([TEMP])) then RemoveParts(d, uploadId) else d
  }

  /** Both paths a completion computes stay below the data directory. */
  predicate Reachable(bucket: Bytes, key: Bytes, versionId: Bytes) {
    KeyPath(bucket, key).Inside? && FilePath(bucket, key, versionId).Inside?
  }

  function CompletedId(db: Db, bucket: Bytes, meta: ObjectMeta, stamp: Stamp): Bytes {
    if bucket in db.buckets && db.buckets[bucket].versioning == "Enabled" then stamp.id
    else if bucket in db.buckets && db.buckets[bucket].versioning == "Suspended" then NULL_ID
    else meta.versionId
  }

  function CompletedMeta(d: Disk, bucket: Bytes, meta: ObjectMeta, etags: seq<Bytes>, size: nat, stamp: Stamp)
    : ObjectMeta
  {
    meta.(versionId := CompletedId(d.db, bucket, meta, stamp), isLatest := true, etag := Composite(etags),
      size := size, lastModified := stamp.now)
  }

  function CompleteUploadAfter(
    d: Disk, bucket: Bytes, key: Bytes, uploadId: Bytes, parts: seq<CompletePart>, stamp: Stamp)
    : (Disk, Result<PutResult, BackendError>)
  {
    var upload := GetUploadSpec(d.db, bucket, key, uploadId);
    if upload.Err? then (d, Err(NoSuchUpload))
    else
      var content := Assemble(d, uploadId, parts);
      if content.None? then (d, Err(InvalidPart))
      else
        var m := CompletedMeta(d, bucket, upload.value, ETags(parts), |content.value|, stamp);
        if !Reachable(bucket, key, m.versionId) then (d, Err(PathRefused))
        else
          var placed := Place(d, FilePath(bucket, key, m.versionId), content.value);
          var recorded := RecordObject(placed, bucket, key, m);
          var tx := PutObjectTx(d.db, bucket, key, m);
          if tx.Err? then (recorded, Err(StoreFailed(tx.error)))
          else
            var db := Committed(recorded.db, DeleteUploadTx(recorded.db, bucket, key, uploadId));
            (CleanUp(recorded.(db := db), uploadId), Ok(PutResult(m.etag, m.size, m.versionId)))
  }

  function AbortUploadAfter(d: Disk, bucket: Bytes, key: Bytes, uploadId: Bytes): (Disk, Option<BackendError>) {
    var tx := DeleteUploadTx(d.db, bucket, key, uploadId);
    if tx.Err? then (d, Some(if tx.error == UploadNotFound then NoSuchUpload else StoreFailed(tx.error)))
    else (RemoveParts(d.(db := tx.value), uploadId), None)
  }

  function ListPartsSpec(d: Disk, bucket: Bytes, key: Bytes, uploadId: Bytes, marker: int)
    : Result<seq<PartInfo>, BackendError>
  {
    if GetUploadSpec(d.db, bucket, key, uploadId).Err? then Err(NoSuchUpload)
    else if uploadId !in d.db.parts then Err(StoreFailed(UploadNotFound))
    else Ok(PartsAfter(d.db.parts[uploadId], marker))
  }
}
