/**
 * The metadata database as a value, and what each transaction of the store makes
 * of it. A transaction that fails leaves the database as it was.
 */
module StoreModel {
  import opened ByteStrings
  import opened ObjectTypes
  import opened Outcomes
  import opened Parts
  import opened VersionKeys

  datatype Db = Db(
    buckets: map<Bytes, BucketInfo>,
    objects: map<Bytes, map<Bytes, ObjectMeta>>,
    versions: map<Bytes, map<Bytes, ObjectMeta>>,
    uploads: map<Bytes, UploadEntry>,
    parts: map<Bytes, map<Bytes, PartInfo>>)

  const EMPTY_DB := Db(map[], map[], map[], map[], map[])

  datatype StoreError =
    | BucketExists
    | BucketNotFound
    | BucketNotEmpty
    | ObjectNotFound
    | UploadNotFound
    | KeyRequired // bbolt refuses to store under an empty key

  type Tx = Result<Db, StoreError>

  /** The database after a transaction: the new one if it committed. */
  function Committed(before: Db, tx: Tx): Db {
    if tx.Ok? then tx.value else before
  }

  function Failure(tx: Tx): Option<StoreError> {
    if tx.Ok? then None else Some(tx.error)
  }

  function VersionsOf(db: Db, bucket: Bytes): map<Bytes, ObjectMeta> {
    if bucket in db.versions then db.versions[bucket] else map[]
  }

  function ObjectsOf(db: Db, bucket: Bytes): map<Bytes, ObjectMeta> {
    if bucket in db.objects then db.objects[bucket] else map[]
  }

  function CreateBucketTx(db: Db, name: Bytes, objectLock: bool): Tx {
    if name in db.buckets then Err(BucketExists)
    else if name == [] then Err(KeyRequired)
    else
      var info := BucketInfo(if objectLock then "Enabled" else "", objectLock);
      Ok(db.(buckets := db.buckets[name := info], objects := db.objects[name := ObjectsOf(db, name)]))
  }

  function DeleteBucketTx(db: Db, name: Bytes): Tx {
    if name !in db.buckets then Err(BucketNotFound)
    else if ObjectsOf(db, name) != map[] then Err(BucketNotEmpty)
    else Ok(db.(buckets := db.buckets - {name}, objects := db.objects - {name}))
  }

  function UpdateBucketTx(db: Db, name: Bytes, info: BucketInfo): Tx {
    if name !in db.buckets then Err(BucketNotFound)
    else Ok(db.(buckets := db.buckets[name := info]))
  }

  function PutObjectTx(db: Db, bucket: Bytes, key: Bytes, meta: ObjectMeta): Tx {
    if bucket !in db.objects then Err(BucketNotFound)
    else
      var current := meta.isLatest || meta.versionId == [];
      if current && key == [] then Err(KeyRequired)
      else
        var latest := if current then db.objects[bucket][key := meta] else db.objects[bucket];
        var vs := VersionsOf(db, bucket)[VersionKey(key, meta.versionId) := meta];
        Ok(db.(objects := db.objects[bucket := latest], versions := db.versions[bucket := vs]))
  }

  function GetObjectSpec(db: Db, bucket: Bytes, key: Bytes, versionId: Bytes): Result<ObjectMeta, StoreError> {
    if versionId == [] then
      if bucket !in db.objects then Err(BucketNotFound)
      else if key !in db.objects[bucket] then Err(ObjectNotFound)
      else Ok(db.objects[bucket][key])
    else
      var vs := VersionsOf(db, bucket);
      var vk := VersionKey(key, versionId);
      if vk !in vs then Err(ObjectNotFound) else Ok(vs[vk])
  }

  /** The newest record of a key; among records of one time, the first in byte order. */
  ghost predicate IsNewest(vs: map<Bytes, ObjectMeta>, key: Bytes, vk: Bytes) {
    vk in RecordsOf(vs, key) &&
    forall other :: other in RecordsOf(vs, key) && other != vk ==>
      vs[other].lastModified < vs[vk].lastModified ||
      (vs[other].lastModified == vs[vk].lastModified && Less(vk, other))
  }

  ghost function Newest(vs: map<Bytes, ObjectMeta>, key: Bytes): (vk: Bytes)
    requires exists vk :: IsNewest(vs, key, vk)
    ensures IsNewest(vs, key, vk)
  {
    var vk :| IsNewest(vs, key, vk); vk
  }

  lemma {:induction false} NewestAmong(vs: map<Bytes, ObjectMeta>, s: set<Bytes>) returns (vk: Bytes)
    requires s != {} && forall x :: x in s ==> x in vs
    ensures vk in s
    ensures forall other :: other in s && other != vk ==>
      vs[other].lastModified < vs[vk].lastModified ||
      (vs[other].lastModified == vs[vk].lastModified && Less(vk, other))
  {
    vk :| vk in s;
    if x :| x in s && x != vk {
      var rest := s - {vk};
      assert x in rest;
      var n := NewestAmong(vs, rest);
      LessTotal(vk, n);
      if vs[n].lastModified > vs[vk].lastModified || (vs[n].lastModified == vs[vk].lastModified && Less(n, vk)) {
        vk := n;
      } else {
        forall other | other in s && other != vk && vs[other].lastModified == vs[vk].lastModified
          ensures Less(vk, other)
        {
          if other != n { LessTransitive(vk, n, other); }
        }
      }
    }
  }

  lemma NewestExists(vs: map<Bytes, ObjectMeta>, key: Bytes)
    requires RecordsOf(vs, key) != {}
    ensures exists vk :: IsNewest(vs, key, vk)
  {
    var vk := NewestAmong(vs, RecordsOf(vs, key));
    assert IsNewest(vs, key, vk);
  }

  lemma NewestIsUnique(vs: map<Bytes, ObjectMeta>, key: Bytes, a: Bytes, b: Bytes)
    requires IsNewest(vs, key, a) && IsNewest(vs, key, b)
    ensures a == b
  {
    if a != b && Less(a, b) { LessAsymmetric(a, b); }
  }

  /**
   * What deleting one version leaves of a bucket's latest and versions maps: the
   * newest remaining record becomes the latest entry, flagged so in both maps.
   * bbolt's refusal of an empty key is ignored there, as b.Put's error is.
   */
  ghost function DeleteVersion(
    latest: map<Bytes, ObjectMeta>, vs: map<Bytes, ObjectMeta>, key: Bytes, versionId: Bytes)
    : (map<Bytes, ObjectMeta>, map<Bytes, ObjectMeta>)
  {
    var rest := vs - {VersionKey(key, versionId)};
    if RecordsOf(rest, key) == {} then (latest - {key}, rest)
    else
      NewestExists(rest, key);
      var m := rest[Newest(rest, key)].(isLatest := true);
      (if key == [] then latest else latest[key := m], rest[VersionKey(key, m.versionId) := m])
  }

  ghost function DeleteObjectTx(db: Db, bucket: Bytes, key: Bytes, versionId: Bytes): Tx {
    if bucket !in db.objects then Err(BucketNotFound)
    else if versionId == [] then
      var vs := VersionsOf(db, bucket);
      Ok(db.(objects := db.objects[bucket := db.objects[bucket] - {key}],
             versions := if bucket in db.versions
                         then db.versions[bucket := vs - RecordsOf(vs, key)] else db.versions))
    else if bucket !in db.versions then Ok(db)
    else
      var after := DeleteVersion(db.objects[bucket], db.versions[bucket], key, versionId);
      Ok(db.(objects := db.objects[bucket := after.0], versions := db.versions[bucket := after.1]))
  }

  const COLON: byte := 58
  const META_TAG: Bytes := [109, 101, 116, 97] // "meta"

  /** The key of an upload in the uploads bucket, "bucket:key:uploadID". */
  function UploadKey(bucket: Bytes, key: Bytes, uploadId: Bytes): Bytes {
    bucket + [COLON] + key + [COLON] + uploadId
  }

  /** The key of its metadata there, "meta:bucket:key:uploadID". */
  function UploadMetaKey(bucket: Bytes, key: Bytes, uploadId: Bytes): Bytes {
    META_TAG + [COLON] + UploadKey(bucket, key, uploadId)
  }

  function CreateUploadTx(db: Db, bucket: Bytes, key: Bytes, meta: ObjectMeta, uploadId: Bytes, now: int): Db {
    db.(uploads := db.uploads[UploadKey(bucket, key, uploadId) := UploadInfo(key, uploadId, now)]
                             [UploadMetaKey(bucket, key, uploadId) := UploadMeta(meta)],
        parts := db.parts[uploadId := if uploadId in db.parts then db.parts[uploadId] else map[]])
  }

  /** An upload's own record read as metadata has none of its fields. */
  function GetUploadSpec(db: Db, bucket: Bytes, key: Bytes, uploadId: Bytes): Result<ObjectMeta, StoreError> {
    var mk := UploadMetaKey(bucket, key, uploadId);
    if mk !in db.uploads then Err(UploadNotFound)
    else Ok(if db.uploads[mk].UploadMeta? then db.uploads[mk].meta else ZERO_META)
  }

  function DeleteUploadTx(db: Db, bucket: Bytes, key: Bytes, uploadId: Bytes): Tx {
    if UploadKey(bucket, key, uploadId) !in db.uploads then Err(UploadNotFound)
    else
      Ok(db.(uploads := db.uploads - {UploadKey(bucket, key, uploadId), UploadMetaKey(bucket, key, uploadId)},
             parts := db.parts - {uploadId}))
  }

  function PutPartTx(db: Db, uploadId: Bytes, partNumber: int, info: PartInfo): Tx {
    if uploadId !in db.parts then Err(UploadNotFound)
    else Ok(db.(parts := db.parts[uploadId := db.parts[uploadId][PartName(partNumber) := info]]))
  }
}
