/** The client's upload of a file in parts, against the server that puts them together. */
module MultipartClient {
  import opened Backend
  import opened BackendModel
  import opened ByteStrings
  import opened Chunked
  import opened ObjectTypes
  import opened Outcomes
  import opened PartHandler
  import opened StoreModel
  import opened Uploads

  const PART_SIZE: nat := 5 * 1024 * 1024

  /** Part `n` of a file, from 1: the next 5 MiB, or what is left. */
  function Chunk(file: Bytes, n: nat): Bytes
    requires n > 0 && (n - 1) * PART_SIZE <= |file|
  {
    var offset := (n - 1) * PART_SIZE;
    if offset + PART_SIZE > |file| then file[offset..] else file[offset..offset + PART_SIZE]
  }

  function PartCount(size: nat): nat {
    (size + PART_SIZE - 1) / PART_SIZE
  }

  /**
   * The parts tile the file: the first n - 1 of them make up its first
   * (n - 1) * 5 MiB bytes, every part but the last has 5 MiB, the last is not empty.
   */
  lemma ChunkTiles(file: Bytes, n: nat)
    requires 1 <= n <= PartCount(|file|)
    ensures (n - 1) * PART_SIZE < |file|
    ensures file[..(n - 1) * PART_SIZE] + Chunk(file, n) == file[..(n - 1) * PART_SIZE + |Chunk(file, n)|]
    ensures n < PartCount(|file|) ==> |Chunk(file, n)| == PART_SIZE == 5242880 && n * PART_SIZE < |file|
    ensures n == PartCount(|file|) ==>
      0 < |Chunk(file, n)| <= PART_SIZE && (n - 1) * PART_SIZE + |Chunk(file, n)| == |file|
  {
  }

  /** The first `n` parts of the file, each uploaded at its own time. */
  ghost function Sent(file: Bytes, n: nat, times: nat -> int): map<int, Part>
    requires n <= PartCount(|file|)
  {
    map i: int | 1 <= i <= n :: (ChunkTiles(file, i); Part(Chunk(file, i), times(i), true))
  }

  /** The request that completes an upload of parts 1 to n. */
  ghost predicate Lists(request: seq<CompletePart>, n: nat) {
    |request| == n && forall i :: 0 <= i < n ==> request[i].partNumber == i + 1
  }

  lemma {:induction false} SentJoins(file: Bytes, times: nat -> int, request: seq<CompletePart>, from: nat)
    requires from <= PartCount(|file|) && |request| == PartCount(|file|) - from
    requires forall i :: 0 <= i < |request| ==> request[i].partNumber == from + i + 1
    ensures AllUploaded(Sent(file, PartCount(|file|), times), request)
    ensures Joined(Sent(file, PartCount(|file|), times), request) ==
      if from == PartCount(|file|) then [] else file[from * PART_SIZE..]
    decreases |request|
  {
    hide Chunk;
    var n := PartCount(|file|);
    if from < n {
      SentJoins(file, times, request[1..], from + 1);
      ChunkTiles(file, from + 1);
      RestOfFile(file, from);
    }
  }

  lemma RestOfFile(file: Bytes, from: nat)
    requires from < PartCount(|file|)
    ensures from * PART_SIZE < |file|
    ensures file[from * PART_SIZE..] == Chunk(file, from + 1) +
      (if from + 1 == PartCount(|file|) then [] else (ChunkTiles(file, from + 1); file[(from + 1) * PART_SIZE..]))
  {
    ChunkTiles(file, from + 1);
  }

  /** The live uploads while the client's own upload has its first `n` parts. */
  ghost function During(
    live: map<Bytes, Upload>, id: Bytes, bucket: Bytes, key: Bytes, meta: ObjectMeta, file: Bytes, n: nat,
    times: nat -> int)
    : map<Bytes, Upload>
    requires n <= PartCount(|file|)
  {
    live[id := Upload(bucket, key, meta, Sent(file, n, times))]
  }

  lemma UploadStarts(
    d: Disk, live: map<Bytes, Upload>, bucket: Bytes, key: Bytes, meta: ObjectMeta, stamp: Stamp, file: Bytes,
    times: nat -> int)
    requires Holds(d, live) && Legal(Create(bucket, key, meta, stamp), live.Keys)
    ensures var after := d.(db := CreateUploadTx(d.db, bucket, key, meta, stamp.id, stamp.now));
      && Holds(after, During(live, stamp.id, bucket, key, meta, file, 0, times))
      && SameObjects(d, after)
  {
    hide Holds;
    CreateHolds(d, live, bucket, key, meta, stamp);
    assert Sent(file, 0, times) == map[];
  }

  lemma SentGrows(
    live: map<Bytes, Upload>, id: Bytes, bucket: Bytes, key: Bytes, meta: ObjectMeta, file: Bytes, n: nat,
    times: nat -> int)
    requires n < PartCount(|file|)
    ensures n * PART_SIZE < |file|
    ensures Expected(During(live, id, bucket, key, meta, file, n, times),
                     PutPart(id, n + 1, Chunk(file, n + 1), times(n + 1))) ==
      During(live, id, bucket, key, meta, file, n + 1, times)
  {
    hide Chunk;
    ChunkTiles(file, n + 1);
    assert Sent(file, n + 1, times) == Sent(file, n, times)[n + 1 := Part(Chunk(file, n + 1), times(n + 1), true)];
  }

  lemma PartSent(
    d: Disk, live: map<Bytes, Upload>, id: Bytes, bucket: Bytes, key: Bytes, meta: ObjectMeta, file: Bytes, n: nat,
    times: nat -> int)
    requires n < PartCount(|file|) && Holds(d, During(live, id, bucket, key, meta, file, n, times))
    ensures n * PART_SIZE < |file|
    ensures var (after, r) := UploadPartAfter(d, id, n + 1, Chunk(file, n + 1), times(n + 1));
      && r.Ok? && SameObjects(d, after)
      && Holds(after, During(live, id, bucket, key, meta, file, n + 1, times))
  {
    hide Holds, Chunk, Sent, Expected;
    SentGrows(live, id, bucket, key, meta, file, n, times);
    PutPartHolds(d, During(live, id, bucket, key, meta, file, n, times), id, n + 1, Chunk(file, n + 1), times(n + 1));
  }

  /** The same buckets, objects, versions and object files. */
  ghost predicate SameObjects(d: Disk, e: Disk) {
    e.db.buckets == d.db.buckets && e.db.objects == d.db.objects && e.db.versions == d.db.versions && e.files == d.files
  }

  /** The object of the key reads back as the whole file, and its size is the file's. */
  ghost predicate Stores(d: Disk, bucket: Bytes, key: Bytes, file: Bytes) {
    var got := GetObjectAfter(d, bucket, key, [], None, None);
    got.Ok? && got.value.content == file && got.value.meta.size == |file|
  }

  /** The backend could record an object of this name. */
  predicate Recordable(db: Db, bucket: Bytes, key: Bytes, meta: ObjectMeta, stamp: Stamp) {
    bucket in db.objects && key != [] && Reachable(bucket, key, CompletedId(db, bucket, meta, stamp))
  }

  lemma FileCompletes(
    d: Disk, live: map<Bytes, Upload>, id: Bytes, bucket: Bytes, key: Bytes, meta: ObjectMeta, file: Bytes,
    times: nat -> int, request: seq<CompletePart>, stamp: Stamp)
    requires Holds(d, During(live, id, bucket, key, meta, file, PartCount(|file|), times)) && |file| > 0
    requires COLON !in bucket && bucket != META_TAG && COLON !in id && Lists(request, PartCount(|file|))
    ensures var (after, r) := CompleteUploadAfter(d, bucket, key, id, request, stamp);
      && (r.Ok? <==> Recordable(d.db, bucket, key, meta, stamp))
      && (r.Ok? ==> Stores(after, bucket, key, file) && Holds(after, live - {id}))
  {
    hide Holds, CompleteUploadAfter, GetObjectAfter, Sent, Joined, AllUploaded, Chunk, Reachable, CompletedId;
    var n := PartCount(|file|);
    var uploads := During(live, id, bucket, key, meta, file, n, times);
    SentJoins(file, times, request, 0);
    assert file[0..] == file;
    CompleteHolds(d, uploads, bucket, key, id, request, stamp);
    JoinedSize(Sent(file, n, times), request);
    if Recordable(d.db, bucket, key, meta, stamp) {
      CompletedRecord(d, uploads, bucket, key, id, request, stamp);
      assert uploads - {id} == live - {id};
    }
  }

  /** What becomes of a request: it is answered, it does not arrive, or its answer does not. */
  datatype Fate = Answered | RequestLost | AnswerLost

  datatype ClientError = Refused(error: BackendError) | ConnectionLost

  /**
   * What the client meets: the fate of each request, numbered as the parts are, with
   * the initiation before and the completion after them, room on the server, its
   * limit on request sizes, and when the server sees each part.
   */
  datatype Course = Course(fates: nat -> Fate, space: nat -> bool, limit: Option<int>, times: nat -> int)

  ghost predicate Smooth(c: Course) {
    forall n :: c.fates(n) == Answered && c.space(n)
  }

  /** The request of part `n`, answered in full. */
  function RequestOf(file: Bytes, n: nat): PartRequest
    requires n > 0 && (n - 1) * PART_SIZE <= |file|
  {
    PartRequest(n, Some(|Chunk(file, n)|), Chunk(file, n), EndOfFile, false)
  }

  /** One part: on success it is sent, and in every case no object has changed. */
  method SendPart(
    b: LocalBackend, uploadId: Bytes, file: Bytes, n: nat, course: Course, tag: ETag -> Bytes,
    ghost live: map<Bytes, Upload>, ghost bucket: Bytes, ghost key: Bytes, ghost meta: ObjectMeta)
    returns (etag: Result<Bytes, ClientError>)
    requires 0 < n <= PartCount(|file|)
    requires Holds(b.Contents(), During(live, uploadId, bucket, key, meta, file, n - 1, course.times))
    modifies b, b.meta
    ensures SameObjects(old(b.Contents()), b.Contents())
    ensures etag.Ok? ==>
      && n <= MAX_PART_NUMBER && Holds(b.Contents(), During(live, uploadId, bucket, key, meta, file, n, course.times))
    ensures Smooth(course) && n <= MAX_PART_NUMBER && !TooLarge(PART_SIZE, course.limit) ==> etag.Ok?
    ensures (n - 1) * PART_SIZE + PART_SIZE <= |file| && TooLarge(PART_SIZE, course.limit) ==> etag.Err?
  {
    hide Holds, UploadPartAfter, Chunk, During;
    ChunkTiles(file, n);
    ChunkSize(file, n);
    if course.fates(n) == RequestLost {
      return Err(ConnectionLost);
    }
    var q := RequestOf(file, n);
    PartSent(b.Contents(), live, uploadId, bucket, key, meta, file, n - 1, course.times);
    var r, body := HandleUploadPart(b, uploadId, q, course.limit, Pace(k => 1, k => 1, k => false), course.times(n),
      course.space(n));
    if course.fates(n) == AnswerLost {
      return Err(ConnectionLost);
    }
    if r.Err? {
      return Err(Refused(r.error));
    }
    etag := Ok(tag(r.value.etag));
  }

  lemma ChunkSize(file: Bytes, n: nat)
    requires 0 < n <= PartCount(|file|)
    ensures (n - 1) * PART_SIZE < |file|
    ensures |Chunk(file, n)| <= PART_SIZE && |Chunk(file, n)| <= |file|
    ensures (n - 1) * PART_SIZE + PART_SIZE <= |file| ==> |Chunk(file, n)| == PART_SIZE
    ensures |file| < PART_SIZE ==> |Chunk(file, n)| == |file|
  {
  }

  /**
   * Uploads a file: in one put below 5 MiB, otherwise in parts 1 to n. If all goes
   * smoothly, an upload in parts succeeds exactly up to 10000 times 5 MiB, since
   * part 10001 is refused, with a limit that admits a part. When the client sees
   * success the object is the file. When it sees an error, no object and no object
   * file has changed, or the object is the file and only the answer was lost, or the
   * backend could not have recorded an object of that name.
   */
  method PutObjectMultipart(
    b: LocalBackend, bucket: Bytes, key: Bytes, file: Bytes, meta: ObjectMeta, create: Stamp, complete: Stamp,
    course: Course, tag: ETag -> Bytes, ghost live: map<Bytes, Upload>)
    returns (err: Option<ClientError>)
    requires Holds(b.Contents(), live) && Legal(Create(bucket, key, meta, create), live.Keys)
    modifies b, b.meta
    ensures |file| < PART_SIZE && Smooth(course) && !TooLarge(|file|, course.limit) ==>
      var (after, r) := PutObjectAfter(old(b.Contents()), bucket, key, file, meta, create.now);
      b.Contents() == after && err == if r.Ok? then None else Some(Refused(r.error))
    ensures |file| >= PART_SIZE && Smooth(course) ==>
      (err.None? <==>
        && |file| <= 10000 * 5242880 && !TooLarge(PART_SIZE, course.limit)
        && Recordable(old(b.meta.db), bucket, key, meta, complete))
    ensures |file| >= PART_SIZE && err.None? ==> Stores(b.Contents(), bucket, key, file) && Holds(b.Contents(), live)
    ensures |file| >= PART_SIZE && err.Some? ==>
      || SameObjects(old(b.Contents()), b.Contents())
      || (err == Some(ConnectionLost) && Stores(b.Contents(), bucket, key, file))
      || !Recordable(old(b.meta.db), bucket, key, meta, complete)
    ensures |file| > 10000 * 5242880 ==> err.Some? && SameObjects(old(b.Contents()), b.Contents())
  {
    hide Holds, Stores, UploadPartAfter, CompleteUploadAfter, Chunk, CreateUploadTx, PutObjectAfter, During, Reachable;
    hide TooLarge, Sent, Recordable;
    if |file| < PART_SIZE {
      err := PutWhole(b, bucket, key, file, meta, create.now, course);
      return;
    }
    ghost var start := b.Contents();
    if course.fates(0) == RequestLost {
      return Some(ConnectionLost);
    }
    UploadStarts(start, live, bucket, key, meta, create, file, course.times);
    var uploadID := b.CreateMultipartUpload(bucket, key, meta, create);
    if course.fates(0) == AnswerLost {
      return Some(ConnectionLost);
    }
    var completedParts: seq<CompletePart> := [];
    var partNum := 1;
    while (partNum - 1) * PART_SIZE < |file|
      invariant 1 <= partNum <= PartCount(|file|) + 1 && partNum <= MAX_PART_NUMBER + 1
      invariant partNum > 1 ==> !TooLarge(PART_SIZE, course.limit)
      invariant Holds(b.Contents(), During(live, uploadID, bucket, key, meta, file, partNum - 1, course.times))
      invariant SameObjects(start, b.Contents()) && Lists(completedParts, partNum - 1)
      decreases PartCount(|file|) + 1 - partNum
    {
      PartsLeft(file, partNum);
      var etag := SendPart(b, uploadID, file, partNum, course, tag, live, bucket, key, meta);
      if etag.Err? {
        return Some(etag.error);
      }
      completedParts := completedParts + [CompletePart(partNum, etag.value)];
      partNum := partNum + 1;
    }
    RecordableStays(start, b.Contents(), bucket, key, meta, complete);
    err := CompleteUpload(b, bucket, key, uploadID, file, meta, complete, completedParts, course, live);
  }

  /** The last request: it completes the upload of all parts. */
  method CompleteUpload(
    b: LocalBackend, bucket: Bytes, key: Bytes, uploadId: Bytes, file: Bytes, ghost meta: ObjectMeta, complete: Stamp,
    completedParts: seq<CompletePart>, course: Course, ghost live: map<Bytes, Upload>)
    returns (err: Option<ClientError>)
    requires Holds(b.Contents(), During(live, uploadId, bucket, key, meta, file, PartCount(|file|), course.times))
    requires COLON !in bucket && bucket != META_TAG && COLON !in uploadId && uploadId !in live && |file| > 0
    requires Lists(completedParts, PartCount(|file|))
    modifies b, b.meta
    ensures Smooth(course) ==> (err.None? <==> Recordable(old(b.meta.db), bucket, key, meta, complete))
    ensures err.None? ==> Stores(b.Contents(), bucket, key, file) && Holds(b.Contents(), live)
    ensures err.Some? ==>
      || SameObjects(old(b.Contents()), b.Contents())
      || (err == Some(ConnectionLost) && Stores(b.Contents(), bucket, key, file))
      || !Recordable(old(b.meta.db), bucket, key, meta, complete)
  {
    hide Holds, Stores, CompleteUploadAfter, Chunk, During, Recordable, Lists;
    var last := |completedParts| + 1;
    if course.fates(last) == RequestLost {
      return Some(ConnectionLost);
    }
    FileCompletes(b.Contents(), live, uploadId, bucket, key, meta, file, course.times, completedParts, complete);
    assert live - {uploadId} == live;
    var done := b.CompleteMultipartUpload(bucket, key, uploadId, completedParts, complete);
    if course.fates(last) == AnswerLost {
      return Some(ConnectionLost);
    }
    err := if done.Ok? then None else Some(Refused(done.error));
  }

  lemma RecordableStays(d: Disk, e: Disk, bucket: Bytes, key: Bytes, meta: ObjectMeta, stamp: Stamp)
    requires SameObjects(d, e)
    ensures Recordable(d.db, bucket, key, meta, stamp) <==> Recordable(e.db, bucket, key, meta, stamp)
  {
  }

  lemma PartsLeft(file: Bytes, n: nat)
    requires n > 0 && (n - 1) * PART_SIZE < |file|
    ensures n <= PartCount(|file|)
  {
  }

  /** The put of a whole file, below the size of a part. */
  method PutWhole(b: LocalBackend, bucket: Bytes, key: Bytes, file: Bytes, meta: ObjectMeta, now: int, course: Course)
    returns (err: Option<ClientError>)
    modifies b, b.meta
    ensures Smooth(course) && !TooLarge(|file|, course.limit) ==>
      var (after, r) := PutObjectAfter(old(b.Contents()), bucket, key, file, meta, now);
      b.Contents() == after && err == if r.Ok? then None else Some(Refused(r.error))
    ensures TooLarge(|file|, course.limit) || course.fates(0) == RequestLost ==>
      err.Some? && b.Contents() == old(b.Contents())
  {
    hide PutObjectAfter;
    if course.fates(0) == RequestLost {
      return Some(ConnectionLost);
    }
    if TooLarge(|file|, course.limit) {
      return Some(if course.fates(0) == AnswerLost then ConnectionLost else Refused(EntityTooLarge));
    }
    var r := b.PutObject(bucket, key, Body(file, true), meta, now, course.space(0));
    if course.fates(0) == AnswerLost {
      return Some(ConnectionLost);
    }
    err := if r.Ok? then None else Some(Refused(r.error));
  }
}
