/** The records the store keeps, with times as integers and digests kept symbolic. */
module ObjectTypes {
  import opened ByteStrings
  import opened Outcomes

  /** MD5 is modelled as a free constructor; a multipart tag remembers what was hashed. */
  datatype ETag = NoETag | Md5(content: Bytes) | Composite(hashes: seq<Bytes>)

  /** `attributes` stands for the descriptive headers that no operation inspects. */
  datatype ObjectMeta = ObjectMeta(
    size: nat,
    etag: ETag,
    lastModified: int,
    versionId: Bytes,
    isDeleteMarker: bool,
    isLatest: bool,
    retainUntil: Option<int>,
    legalHold: string,
    attributes: string)

  const ZERO_META := ObjectMeta(0, NoETag, 0, [], false, false, None, "", "")

  datatype BucketInfo = BucketInfo(versioning: string, objectLockEnabled: bool)

  datatype ObjectInfo = ObjectInfo(
    key: Bytes,
    versionId: Bytes,
    isLatest: bool,
    isDeleteMarker: bool,
    lastModified: int,
    etag: ETag,
    size: nat)

  function Info(key: Bytes, m: ObjectMeta): ObjectInfo {
    ObjectInfo(key, m.versionId, m.isLatest, m.isDeleteMarker, m.lastModified, m.etag, m.size)
  }

  datatype PartInfo = PartInfo(partNumber: int, lastModified: int, etag: ETag, size: nat)

  /** The two kinds of value in the uploads bucket. */
  datatype UploadEntry = UploadInfo(key: Bytes, uploadId: Bytes, initiated: int) | UploadMeta(meta: ObjectMeta)

  /** The tests of `DeleteObject` on the record it is about to delete. */
  predicate Locked(m: ObjectMeta, now: int) {
    (m.retainUntil.Some? && m.retainUntil.value > now) || m.legalHold == "ON"
  }
}
