/**
 * Puts, deletes and multipart completions on one versioning-enabled bucket, as
 * threads whose steps interleave and may stop anywhere: each step is one
 * transaction of the store or one change of the file tree. Puts under an id that
 * the request brings along, and requests to other buckets, are steps beside them.
 */
module Interleaving {
  import opened BackendModel
  import opened ByteStrings
  import opened Coherence
  import opened ObjectTypes
  import opened Outcomes
  import opened Paths
  import opened StoreModel
  import opened VersionKeys

  datatype Thread =
    | Moving(key: Bytes, meta: ObjectMeta, content: Bytes, upload: Option<Bytes>) // the temporary file is complete
    | Recording(key: Bytes, meta: ObjectMeta, content: Bytes, upload: Option<Bytes>) // the file is in place
    | Undoing(key: Bytes, versionId: Bytes) // the store refused the record
    | DroppingUpload(key: Bytes, uploadId: Bytes) // the completed object is recorded
    | Sweeping(uploadId: Bytes)
    | Erasing(key: Bytes, versionId: Bytes) // the lock check has passed
    | Removing(key: Bytes, versionId: Bytes) // the record is gone

  /** The bucket, key and version id of a request. */
  type Names = (Bytes, Bytes, Bytes)

  /**
   * `bodies` remembers what every put and completion has been given to store,
   * `asked` the names under which a request other than these has changed files, and
   * `given` the keys and ids of puts whose id was not generated for them.
   */
  datatype System = System(
    disk: Disk,
    threads: map<nat, Thread>,
    seen: set<Bytes>, // version ids generated or asked for so far
    bodies: map<(Bytes, Bytes), Bytes>, // by key and version id
    now: int,
    asked: set<Names>,
    given: set<(Bytes, Bytes)>)

  datatype Step =
    | BeginPut(tid: nat, key: Bytes, meta: ObjectMeta, content: Bytes, id: Bytes)
    | BeginComplete(tid: nat, key: Bytes, uploadId: Bytes, parts: seq<CompletePart>, id: Bytes)
    | Move(tid: nat)
    | Record(tid: nat, time: int, storeFails: bool)
    | Undo(tid: nat)
    | DropUpload(tid: nat)
    | Sweep(tid: nat)
    | Mark(key: Bytes, id: Bytes)
    | Check(tid: nat, key: Bytes, versionId: Bytes)
    | EraseRecord(tid: nat)
    | RemoveFile(tid: nat)
    | GivenFile(key: Bytes, id: Bytes, file: Option<Bytes>) // placed, or taken back
    | GivenRecord(key: Bytes, meta: ObjectMeta)
    | Elsewhere(other: Bytes, key: Bytes, id: Bytes, file: Option<Bytes>)
    | Background(db: Db, partFiles: map<Path, Bytes>) // uploads and the maps of other buckets
    | Tick(now: int)
    | Crash

  function Records(s: System, bucket: Bytes): map<Bytes, ObjectMeta> {
    VersionsOf(s.disk.db, bucket)
  }

  /** The version id a thread is about to record, or about to take back. */
  function InFlight(t: Thread): Option<Bytes> {
    match t
    case Moving(_, meta, _, _) => Some(meta.versionId)
    case Recording(_, meta, _, _) => Some(meta.versionId)
    case Undoing(_, versionId) => Some(versionId)
    case _ => None
  }

  /** A generated id is new to the system. */
  predicate FreshId(s: System, id: Bytes) {
    id !in s.seen && Generated(id)
  }

  predicate NotInFlight(s: System, id: Bytes) {
    forall t :: t in s.threads ==> InFlight(s.threads[t]) != Some(id)
  }

  predicate AgreeOn(bucket: Bytes, a: Db, b: Db) {
    && (bucket in a.buckets <==> bucket in b.buckets)
    && (bucket in a.buckets ==> b.buckets[bucket] == a.buckets[bucket])
    && (bucket in a.objects <==> bucket in b.objects)
    && (bucket in a.objects ==> b.objects[bucket] == a.objects[bucket])
    && VersionsOf(a, bucket) == VersionsOf(b, bucket)
  }

  ghost predicate Enabled(s: System, bucket: Bytes, step: Step) {
    match step
    case BeginPut(tid, key, meta, content, id) =>
      tid !in s.threads && NoNul(key) && FreshId(s, id) && !meta.isDeleteMarker && FilePath(bucket, key, id).Inside?
    case BeginComplete(tid, key, uploadId, parts, id) =>
      tid !in s.threads && NoNul(key) && FreshId(s, id) && Reachable(bucket, key, id) &&
      GetUploadSpec(s.disk.db, bucket, key, uploadId).Ok? &&
      !GetUploadSpec(s.disk.db, bucket, key, uploadId).value.isDeleteMarker &&
      Assemble(s.disk, uploadId, parts).Some?
    case Move(tid) => tid in s.threads && s.threads[tid].Moving?
    case Record(tid, _, _) => tid in s.threads && s.threads[tid].Recording?
    case Undo(tid) => tid in s.threads && s.threads[tid].Undoing?
    case DropUpload(tid) => tid in s.threads && s.threads[tid].DroppingUpload?
    case Sweep(tid) => tid in s.threads && s.threads[tid].Sweeping?
    case Mark(key, id) => NoNul(key) && FreshId(s, id)
    case Check(tid, key, versionId) =>
      // clients learn an id from a response, so none asks for one still in flight
      && tid !in s.threads && NoNul(key) && versionId != [] && NotInFlight(s, versionId)
      && var found := GetObjectSpec(s.disk.db, bucket, key, versionId);
         !(found.Ok? && Locked(found.value, s.now))
    case EraseRecord(tid) => tid in s.threads && s.threads[tid].Erasing?
    case RemoveFile(tid) => tid in s.threads && s.threads[tid].Removing?
    case GivenFile(key, id, file) => NoNul(key) && NotInFlight(s, id)
    case GivenRecord(key, meta) => NoNul(key) && (key, meta.versionId) in s.given
    case Elsewhere(other, key, id, file) => other != bucket
    case Background(db, partFiles) => AgreeOn(bucket, s.disk.db, db)
    case Tick(now) => s.now <= now
    case Crash => true
  }

  function WithDb(s: System, db: Db): System {
    s.(disk := s.disk.(db := db))
  }

  function Announce(s: System, tid: nat, key: Bytes, id: Bytes, meta: ObjectMeta, content: Bytes, upload: Option<Bytes>)
    : System
  {
    s.(threads := s.threads[tid := Moving(key, meta.(versionId := id), content, upload)],
       seen := s.seen + {id},
       bodies := s.bodies[(key, id) := content])
  }

  /** After its object is recorded a completion goes on to drop its upload; a put ends. */
  function AfterRecord(threads: map<nat, Thread>, tid: nat): map<nat, Thread>
    requires tid in threads && threads[tid].Recording?
  {
    var t := threads[tid];
    if t.upload.Some? then threads[tid := DroppingUpload(t.key, t.upload.value)] else threads - {tid}
  }

  function Change(d: Disk, path: Path, file: Option<Bytes>): Disk {
    if path.Outside? then d else if file.Some? then Place(d, path, file.value) else Drop(d, path)
  }

  ghost function Apply(s: System, bucket: Bytes, step: Step): System
    requires Enabled(s, bucket, step)
  {
    match step
    case BeginPut(tid, key, meta, content, id) =>
      Announce(s, tid, key, id, Stored(meta, content, s.now), content, None)
    case BeginComplete(tid, key, uploadId, parts, id) =>
      var content := Assemble(s.disk, uploadId, parts).value;
      var upload := GetUploadSpec(s.disk.db, bucket, key, uploadId).value;
      var meta := CompletedMeta(s.disk, bucket, upload, ETags(parts), |content|, Stamp(s.now, id));
      Announce(s, tid, key, id, meta, content, Some(uploadId))
    case Move(tid) =>
      var t := s.threads[tid];
      s.(disk := Place(s.disk, FilePath(bucket, t.key, t.meta.versionId), t.content),
         threads := s.threads[tid := Recording(t.key, t.meta, t.content, t.upload)])
    case Record(tid, time, storeFails) =>
      var t := s.threads[tid];
      var tx := PutObjectTx(s.disk.db, bucket, t.key, t.meta.(lastModified := time));
      if storeFails || tx.Err? then s.(threads := s.threads[tid := Undoing(t.key, t.meta.versionId)])
      else
        WithDb(s, tx.value).(threads := AfterRecord(s.threads, tid))
    case Undo(tid) =>
      var t := s.threads[tid];
      s.(disk := Drop(s.disk, FilePath(bucket, t.key, t.versionId)), threads := s.threads - {tid})
    case DropUpload(tid) =>
      var t := s.threads[tid];
      WithDb(s, Committed(s.disk.db, DeleteUploadTx(s.disk.db, bucket, t.key, t.uploadId)))
        .(threads := s.threads[tid := Sweeping(t.uploadId)])
    case Sweep(tid) =>
      s.(disk := CleanUp(s.disk, s.threads[tid].uploadId), threads := s.threads - {tid})
    case Mark(key, id) =>
      WithDb(s, Committed(s.disk.db, PutObjectTx(s.disk.db, bucket, key, DeleteMarker(s.now, id))))
        .(seen := s.seen + {id})
    case Check(tid, key, versionId) =>
      s.(threads := s.threads[tid := Erasing(key, versionId)], seen := s.seen + {versionId},
         asked := s.asked + {(bucket, key, versionId)})
    case EraseRecord(tid) =>
      var t := s.threads[tid];
      var tx := DeleteObjectTx(s.disk.db, bucket, t.key, t.versionId);
      WithDb(s, Committed(s.disk.db, tx)).(threads :=
        if tx.Ok? then s.threads[tid := Removing(t.key, t.versionId)] else s.threads - {tid})
    case RemoveFile(tid) =>
      var t := s.threads[tid];
      s.(disk := Unlink(s.disk, FilePath(bucket, t.key, t.versionId)), threads := s.threads - {tid})
    case GivenFile(key, id, file) =>
      s.(disk := Change(s.disk, FilePath(bucket, key, id), file), seen := s.seen + {id},
         asked := s.asked + {(bucket, key, id)}, given := s.given + {(key, id)})
    case GivenRecord(key, meta) =>
      WithDb(s, Committed(s.disk.db, PutObjectTx(s.disk.db, bucket, key, meta)))
    case Elsewhere(other, key, id, file) =>
      s.(disk := Change(s.disk, FilePath(other, key, id), file), asked := s.asked + {(other, key, id)})
    case Background(db, partFiles) => s.(disk := s.disk.(db := db, partFiles := partFiles))
    case Tick(now) => s.(now := now)
    case Crash => s.(threads := map[])
  }

  ghost predicate IsRun(bucket: Bytes, states: seq<System>, steps: seq<Step>) {
    && |states| == |steps| + 1
    && forall i :: 0 <= i < |steps| ==>
      Enabled(states[i], bucket, steps[i]) && states[i + 1] == Apply(states[i], bucket, steps[i])
  }

  /** Another request's path was that of this version, or the version was put under an id given to it. */
  ghost predicate Disturbed(asked: set<Names>, given: set<(Bytes, Bytes)>, bucket: Bytes, key: Bytes, id: Bytes) {
    || (key, id) in given
    || exists a :: a in asked && a != (bucket, key, id) && FilePath(a.0, a.1, a.2) == FilePath(bucket, key, id)
  }

  ghost predicate IsDisturbed(s: System, bucket: Bytes, key: Bytes, id: Bytes) {
    Disturbed(s.asked, s.given, bucket, key, id)
  }

  /** The file of a version is in place with this content. */
  predicate HasFile(s: System, bucket: Bytes, key: Bytes, id: Bytes, content: Bytes) {
    var path := FilePath(bucket, key, id);
    path in s.disk.files && s.disk.files[path] == content
  }

  /** A record of content has its file, with exactly the content and the size recorded, unless it was disturbed. */
  ghost predicate Backed(s: System, bucket: Bytes, vk: Bytes)
    requires vk in Records(s, bucket) && Split(vk).Some?
  {
    var m, k := Records(s, bucket)[vk], KeyOf(vk);
    !m.isDeleteMarker && (k, m.versionId) in s.bodies && !IsDisturbed(s, bucket, k, m.versionId) ==>
      && HasFile(s, bucket, k, m.versionId, s.bodies[(k, m.versionId)])
      && m.size == |s.bodies[(k, m.versionId)]|
  }

  /** No record dangles: every one with a generated id is backed by its file. */
  ghost predicate NoDangling(s: System, bucket: Bytes) {
    && WellKeyed(Records(s, bucket))
    && forall vk {:trigger KeyOf(vk)} :: vk in Records(s, bucket) ==> Backed(s, bucket, vk)
  }

  /** What a thread holds that has announced a body: no record yet, and a path for the file. */
  ghost predicate Announced(s: System, bucket: Bytes, key: Bytes, id: Bytes) {
    && NoNul(key) && (key, id) in s.bodies && (key, id) !in s.given && FilePath(bucket, key, id).Inside?
    && VersionKey(key, id) !in Records(s, bucket)
  }

  ghost predicate ThreadInv(s: System, bucket: Bytes, t: Thread) {
    match t
    case Moving(key, meta, content, _) =>
      && Announced(s, bucket, key, meta.versionId) && !meta.isDeleteMarker && meta.size == |content|
      && s.bodies[(key, meta.versionId)] == content
    case Recording(key, meta, content, _) =>
      && Announced(s, bucket, key, meta.versionId) && !meta.isDeleteMarker && meta.size == |content|
      && s.bodies[(key, meta.versionId)] == content
      && (!IsDisturbed(s, bucket, key, meta.versionId) ==> HasFile(s, bucket, key, meta.versionId, content))
    case Undoing(key, versionId) => Announced(s, bucket, key, versionId)
    case Erasing(key, versionId) =>
      && NoNul(key) && versionId != [] && (bucket, key, versionId) in s.asked && versionId in s.seen
      && ((key, versionId) !in s.given && VersionKey(key, versionId) in Records(s, bucket) ==>
            !Locked(Records(s, bucket)[VersionKey(key, versionId)], s.now))
    case Removing(key, versionId) =>
      && NoNul(key) && versionId != [] && (bucket, key, versionId) in s.asked && versionId in s.seen
      && ((key, versionId) in s.given || VersionKey(key, versionId) !in Records(s, bucket))
    case _ => true
  }

  /** An id in flight belongs to one thread, and no delete is after it. */
  ghost predicate Exclusive(s: System) {
    forall a, b :: a in s.threads && b in s.threads && a != b && InFlight(s.threads[a]).Some? ==>
      && InFlight(s.threads[b]) != InFlight(s.threads[a])
      && (s.threads[b].Erasing? || s.threads[b].Removing? ==> Some(s.threads[b].versionId) != InFlight(s.threads[a]))
  }

  ghost predicate BodiesInv(s: System) {
    && (forall kv :: kv in s.bodies ==> kv.1 in s.seen && Generated(kv.1))
    && (forall a, b :: a in s.bodies && b in s.bodies && a.1 == b.1 ==> a == b)
  }

  ghost predicate Inv(s: System, bucket: Bytes) {
    && bucket in s.disk.db.objects && bucket in s.disk.db.buckets
    && s.disk.db.buckets[bucket].versioning == "Enabled"
    && NoDangling(s, bucket) && BodiesInv(s) && Exclusive(s)
    && (forall vk :: vk in Records(s, bucket) ==> Records(s, bucket)[vk].versionId in s.seen)
    && (forall kv :: kv in s.given ==> kv.1 in s.seen)
    && (forall tid :: tid in s.threads ==> ThreadInv(s, bucket, s.threads[tid]))
  }

  // ----- what each step does to the records -----

  lemma PutRecords(s: System, bucket: Bytes, key: Bytes, meta: ObjectMeta)
    requires bucket in s.disk.db.objects && PutObjectTx(s.disk.db, bucket, key, meta).Ok?
    ensures var db := PutObjectTx(s.disk.db, bucket, key, meta).value;
      && Records(WithDb(s, db), bucket) == Records(s, bucket)[VersionKey(key, meta.versionId) := meta]
      && bucket in db.objects && db.buckets == s.disk.db.buckets
  {
    hide VersionKey;
  }

  lemma EraseRecords(s: System, bucket: Bytes, key: Bytes, versionId: Bytes)
    requires bucket in s.disk.db.objects && WellKeyed(Records(s, bucket)) && NoNul(key) && versionId != []
    ensures DeleteObjectTx(s.disk.db, bucket, key, versionId).Ok?
    ensures var db := DeleteObjectTx(s.disk.db, bucket, key, versionId).value;
      var before, after := Records(s, bucket), Records(WithDb(s, db), bucket);
      && after.Keys == before.Keys - {VersionKey(key, versionId)}
      && (forall vk :: vk in after ==> SameButFlag(after[vk], before[vk]))
      && bucket in db.objects && db.buckets == s.disk.db.buckets
  {
    hide VersionKey, DeleteVersion, RecordsOf, WellKeyed;
    if bucket in s.disk.db.versions {
      DeleteVersionKeepsOthers(s.disk.db.objects[bucket], Records(s, bucket), key, versionId);
    }
  }

  /** Records that kept all but their flag are well keyed if they were. */
  lemma FlagsKeepKeys(before: map<Bytes, ObjectMeta>, after: map<Bytes, ObjectMeta>)
    requires WellKeyed(before) && after.Keys <= before.Keys
    requires forall vk :: vk in after ==> SameButFlag(after[vk], before[vk])
    ensures WellKeyed(after)
  {
    hide Split;
  }

  // ----- every step keeps the invariant -----

  /** No other body has the path of this one. */
  lemma OtherPaths(s: System, bucket: Bytes, key: Bytes, id: Bytes)
    requires BodiesInv(s) && (key, id) in s.bodies && FilePath(bucket, key, id).Inside?
    ensures forall kv {:trigger kv in s.bodies} :: kv in s.bodies && kv != (key, id) ==>
      FilePath(bucket, kv.0, kv.1) != FilePath(bucket, key, id)
  {
    hide FilePath;
    forall kv | kv in s.bodies && kv != (key, id)
      ensures FilePath(bucket, kv.0, kv.1) != FilePath(bucket, key, id)
    {
      if FilePath(bucket, kv.0, kv.1) == FilePath(bucket, key, id) { IdOfPath(bucket, kv.0, kv.1, key, id); }
    }
  }

  /** A record with a body is stored under that body's key and id. */
  lemma RecordKey(s: System, bucket: Bytes, vk: Bytes)
    requires WellKeyed(Records(s, bucket)) && vk in Records(s, bucket)
    ensures NoNul(KeyOf(vk)) && vk == VersionKey(KeyOf(vk), Records(s, bucket)[vk].versionId)
  {
  }

  lemma StaysDisturbed(s: System, t: System, bucket: Bytes)
    requires s.asked <= t.asked && s.given <= t.given
    ensures forall k, v :: IsDisturbed(s, bucket, k, v) ==> IsDisturbed(t, bucket, k, v)
  {
    hide FilePath;
  }

  /** Whoever is asked for under another name is disturbed. */
  lemma AskedDisturbs(s: System, bucket: Bytes, a: Names, key: Bytes, id: Bytes)
    requires a in s.asked && a != (bucket, key, id) && FilePath(a.0, a.1, a.2) == FilePath(bucket, key, id)
    ensures IsDisturbed(s, bucket, key, id)
  {
  }

  /** The files differ at most at one path. */
  ghost predicate OnlyFileAt(s: System, t: System, path: Path) {
    forall p :: p != path ==>
      (p in t.disk.files <==> p in s.disk.files) && (p in s.disk.files ==> t.disk.files[p] == s.disk.files[p])
  }

  /** Records and files stay, and what is known of past requests grows. */
  ghost predicate Later(s: System, t: System, bucket: Bytes) {
    && Records(t, bucket) == Records(s, bucket) && t.bodies == s.bodies
    && s.seen <= t.seen && s.asked <= t.asked && s.given <= t.given && s.now <= t.now
  }

  /** Changing one file keeps every record backed that does not have that path. */
  lemma FilesKeepBacking(s: System, t: System, bucket: Bytes, path: Path)
    requires NoDangling(s, bucket) && Later(s, t, bucket) && OnlyFileAt(s, t, path)
    requires forall vk {:trigger KeyOf(vk)} :: vk in Records(s, bucket) ==>
      var k, v := KeyOf(vk), Records(s, bucket)[vk].versionId;
      (k, v) in s.bodies && FilePath(bucket, k, v) == path ==> IsDisturbed(t, bucket, k, v)
    ensures NoDangling(t, bucket)
  {
    hide FilePath, Split, Disturbed, WellKeyed;
    NoDanglingIsWellKeyed(s, bucket);
    RecordsSplit(s, bucket);
    StaysDisturbed(s, t, bucket);
    forall vk | vk in Records(t, bucket)
      ensures Backed(t, bucket, vk)
    {
      assert KeyOf(vk) == KeyOf(vk);
      assert Backed(s, bucket, vk);
    }
  }

  lemma RecordsSplit(s: System, bucket: Bytes)
    requires WellKeyed(Records(s, bucket))
    ensures forall vk :: vk in Records(s, bucket) ==> Split(vk).Some?
  {
    hide Split;
  }

  lemma NoDanglingIsWellKeyed(s: System, bucket: Bytes)
    requires NoDangling(s, bucket)
    ensures WellKeyed(Records(s, bucket))
  {
  }

  /** A thread's invariant survives such a change too, if it does not wait for its file there or is disturbed. */
  lemma ThreadKeeps(s: System, t: System, bucket: Bytes, o: Thread, path: Path)
    requires ThreadInv(s, bucket, o) && Later(s, t, bucket) && OnlyFileAt(s, t, path)
    requires forall kv :: kv in t.given && kv !in s.given ==> InFlight(o) != Some(kv.1)
    requires o.Recording? && FilePath(bucket, o.key, o.meta.versionId) == path ==>
      IsDisturbed(t, bucket, o.key, o.meta.versionId)
    ensures ThreadInv(t, bucket, o)
  {
    hide VersionKey, FilePath, NoNul, Disturbed;
    StaysDisturbed(s, t, bucket);
  }

  /** With the files unchanged nothing dangles. */
  lemma SameFiles(s: System, t: System, bucket: Bytes)
    requires NoDangling(s, bucket) && Later(s, t, bucket) && t.disk.files == s.disk.files
    ensures NoDangling(t, bucket)
  {
    hide FilePath, Split, Disturbed;
    StaysDisturbed(s, t, bucket);
    forall vk | vk in Records(t, bucket)
      ensures Backed(t, bucket, vk)
    {
      assert Backed(s, bucket, vk);
    }
  }

  lemma ThreadUnaffected(s: System, t: System, bucket: Bytes, o: Thread)
    requires ThreadInv(s, bucket, o) && Later(s, t, bucket) && t.disk.files == s.disk.files && t.given == s.given
    ensures ThreadInv(t, bucket, o)
  {
    hide VersionKey, FilePath, NoNul, Disturbed;
    StaysDisturbed(s, t, bucket);
  }

  lemma BodyIds(s: System, kv: (Bytes, Bytes))
    requires BodiesInv(s) && kv in s.bodies
    ensures kv.1 in s.seen && Generated(kv.1)
  {
  }

  lemma SameBodies(s: System, t: System)
    requires BodiesInv(s) && t.bodies == s.bodies && s.seen <= t.seen
    ensures BodiesInv(t)
  {
  }

  /** A thread that has announced a body changes the file of no other. */
  lemma OwnFile(s: System, t: System, bucket: Bytes, tid: nat, key: Bytes, id: Bytes)
    requires NoDangling(s, bucket) && BodiesInv(s) && Exclusive(s) && tid in s.threads
    requires Announced(s, bucket, key, id) && InFlight(s.threads[tid]) == Some(id)
    requires Later(s, t, bucket) && t.given == s.given && OnlyFileAt(s, t, FilePath(bucket, key, id))
    ensures NoDangling(t, bucket)
    ensures forall o :: o in s.threads && o != tid && ThreadInv(s, bucket, s.threads[o]) ==>
      ThreadInv(t, bucket, s.threads[o])
  {
    hide VersionKey, FilePath, NoNul, Split, Disturbed, WellKeyed, NoDangling, Generated;
    OtherPaths(s, bucket, key, id);
    NoDanglingIsWellKeyed(s, bucket);
    forall vk | vk in Records(s, bucket) && (KeyOf(vk), Records(s, bucket)[vk].versionId) in s.bodies
      ensures FilePath(bucket, KeyOf(vk), Records(s, bucket)[vk].versionId) != FilePath(bucket, key, id)
    {
      RecordKey(s, bucket, vk);
    }
    FilesKeepBacking(s, t, bucket, FilePath(bucket, key, id));
    forall o | o in s.threads && o != tid && ThreadInv(s, bucket, s.threads[o])
      ensures ThreadInv(t, bucket, s.threads[o])
    {
      if s.threads[o].Recording? {
        assert InFlight(s.threads[o]) != InFlight(s.threads[tid]);
      }
      ThreadKeeps(s, t, bucket, s.threads[o], FilePath(bucket, key, id));
    }
  }

  lemma MoveKeepsInv(s: System, bucket: Bytes, tid: nat)
    requires Inv(s, bucket) && Enabled(s, bucket, Move(tid))
    ensures Inv(Apply(s, bucket, Move(tid)), bucket)
  {
    hide VersionKey, FilePath, Split, NoNul, NoDangling, BodiesInv, WellKeyed, Disturbed;
    var t, next := s.threads[tid], Apply(s, bucket, Move(tid));
    assert ThreadInv(s, bucket, t);
    OwnFile(s, next, bucket, tid, t.key, t.meta.versionId);
    SameBodies(s, next);
    assert ThreadInv(next, bucket, next.threads[tid]);
    assert forall o :: o in next.threads ==> InFlight(next.threads[o]) == InFlight(s.threads[o]);
  }

  lemma UndoKeepsInv(s: System, bucket: Bytes, tid: nat)
    requires Inv(s, bucket) && Enabled(s, bucket, Undo(tid))
    ensures Inv(Apply(s, bucket, Undo(tid)), bucket)
  {
    hide VersionKey, FilePath, Split, NoNul, NoDangling, BodiesInv, WellKeyed, Disturbed;
    var t, next := s.threads[tid], Apply(s, bucket, Undo(tid));
    assert ThreadInv(s, bucket, t);
    OwnFile(s, next, bucket, tid, t.key, t.versionId);
    SameBodies(s, next);
  }

  /** A request under other names changes no file but of those it disturbs, and of those put under given ids. */
  lemma AskedFile(s: System, t: System, bucket: Bytes, a: Names)
    requires NoDangling(s, bucket) && a in t.asked && Later(s, t, bucket) && OnlyFileAt(s, t, FilePath(a.0, a.1, a.2))
    requires a.0 != bucket || (a.1, a.2) in t.given || (NoNul(a.1) && VersionKey(a.1, a.2) !in Records(s, bucket))
    ensures NoDangling(t, bucket)
  {
    hide VersionKey, FilePath, NoNul, Split, Disturbed, WellKeyed, NoDangling;
    NoDanglingIsWellKeyed(s, bucket);
    forall vk | vk in Records(s, bucket)
      ensures var k, v := KeyOf(vk), Records(s, bucket)[vk].versionId;
        FilePath(bucket, k, v) == FilePath(a.0, a.1, a.2) ==> IsDisturbed(t, bucket, k, v)
    {
      RecordKey(s, bucket, vk);
      var k, v := KeyOf(vk), Records(s, bucket)[vk].versionId;
      if a != (bucket, k, v) {
        if FilePath(bucket, k, v) == FilePath(a.0, a.1, a.2) { AskedDisturbs(t, bucket, a, k, v); }
      } else {
        GivenDisturbs(t, bucket, k, v);
      }
    }
    FilesKeepBacking(s, t, bucket, FilePath(a.0, a.1, a.2));
  }

  lemma GivenDisturbs(s: System, bucket: Bytes, key: Bytes, id: Bytes)
    ensures (key, id) in s.given ==> IsDisturbed(s, bucket, key, id)
  {
  }

  lemma AskedThread(s: System, t: System, bucket: Bytes, o: Thread, a: Names)
    requires ThreadInv(s, bucket, o) && a in t.asked && Later(s, t, bucket) && OnlyFileAt(s, t, FilePath(a.0, a.1, a.2))
    requires forall kv :: kv in t.given && kv !in s.given ==> InFlight(o) != Some(kv.1)
    requires a.0 == bucket ==> InFlight(o) != Some(a.2)
    ensures ThreadInv(t, bucket, o)
  {
    hide FilePath, Disturbed, ThreadInv;
    if o.Recording? && FilePath(bucket, o.key, o.meta.versionId) == FilePath(a.0, a.1, a.2) {
      AskedDisturbs(t, bucket, a, o.key, o.meta.versionId);
    }
    ThreadKeeps(s, t, bucket, o, FilePath(a.0, a.1, a.2));
  }

  lemma RemoveFileKeepsInv(s: System, bucket: Bytes, tid: nat)
    requires Inv(s, bucket) && Enabled(s, bucket, RemoveFile(tid))
    ensures Inv(Apply(s, bucket, RemoveFile(tid)), bucket)
  {
    hide VersionKey, FilePath, Split, NoNul, NoDangling, BodiesInv, WellKeyed, Disturbed;
    var t, next := s.threads[tid], Apply(s, bucket, RemoveFile(tid));
    var a := (bucket, t.key, t.versionId);
    assert ThreadInv(s, bucket, t);
    AskedFile(s, next, bucket, a);
    SameBodies(s, next);
    forall o | o in next.threads
      ensures ThreadInv(next, bucket, next.threads[o])
    {
      if InFlight(s.threads[o]).Some? { assert Some(t.versionId) != InFlight(s.threads[o]); }
      AskedThread(s, next, bucket, s.threads[o], a);
    }
  }

  /** The names of a request that is no thread of this bucket. */
  function SideNames(bucket: Bytes, step: Step): Names
    requires step.GivenFile? || step.Elsewhere?
  {
    if step.GivenFile? then (bucket, step.key, step.id) else (step.other, step.key, step.id)
  }

  /** A file changed by a request to another bucket, or by a put under a given id. */
  lemma SideFileTouches(s: System, bucket: Bytes, step: Step)
    requires Enabled(s, bucket, step) && (step.GivenFile? || step.Elsewhere?)
    ensures var next, a := Apply(s, bucket, step), SideNames(bucket, step);
      && next.disk.db == s.disk.db && next.threads == s.threads && next.bodies == s.bodies && next.now == s.now
      && next.seen == s.seen + (if a.0 == bucket then {a.2} else {})
      && next.given == s.given + (if a.0 == bucket then {(a.1, a.2)} else {})
      && next.asked == s.asked + {a} && OnlyFileAt(s, next, FilePath(a.0, a.1, a.2))
      && (a.0 == bucket ==> NoNul(a.1) && NotInFlight(s, a.2))
  {
    hide FilePath, NoNul;
  }

  lemma SideFileKeepsInv(s: System, bucket: Bytes, step: Step)
    requires Inv(s, bucket) && Enabled(s, bucket, step) && (step.GivenFile? || step.Elsewhere?)
    ensures Inv(Apply(s, bucket, step), bucket)
  {
    hide VersionKey, FilePath, Split, NoNul, NoDangling, BodiesInv, WellKeyed, Disturbed, ThreadInv, Apply, Enabled;
    hide OnlyFileAt, SideNames, Exclusive;
    var next, a := Apply(s, bucket, step), SideNames(bucket, step);
    SideFileTouches(s, bucket, step);
    AskedFile(s, next, bucket, a);
    SameBodies(s, next);
    SameThreadsExclusive(s, next);
    forall o | o in next.threads
      ensures ThreadInv(next, bucket, next.threads[o])
    {
      AskedThread(s, next, bucket, s.threads[o], a);
    }
  }

  /** An id that is new to the system has no record, body or thread. */
  lemma FreshIsUnused(s: System, bucket: Bytes, key: Bytes, id: Bytes)
    requires Inv(s, bucket) && FreshId(s, id) && NoNul(key)
    ensures VersionKey(key, id) !in Records(s, bucket)
    ensures forall kv {:trigger kv in s.bodies} :: kv in s.bodies ==> kv.1 != id
    ensures forall o :: o in s.threads ==> InFlight(s.threads[o]) != Some(id)
    ensures (key, id) !in s.given
  {
    hide VersionKey, Split, NoNul, FilePath, Disturbed;
    SplitVersionKey(key, id);
    forall o | o in s.threads
      ensures InFlight(s.threads[o]) != Some(id)
    {
      assert ThreadInv(s, bucket, s.threads[o]);
    }
  }

  lemma ThreadSurvivesAnnounce(s: System, t: System, bucket: Bytes, o: Thread, key: Bytes, id: Bytes, content: Bytes)
    requires ThreadInv(s, bucket, o) && InFlight(o) != Some(id)
    requires t.disk == s.disk && t.bodies == s.bodies[(key, id) := content] && s.seen <= t.seen && t.now == s.now
    requires t.asked == s.asked && t.given == s.given
    ensures ThreadInv(t, bucket, o)
  {
    hide VersionKey, FilePath, NoNul, Disturbed;
  }

  lemma AnnounceKeepsInv(
    s: System, bucket: Bytes, tid: nat, key: Bytes, id: Bytes, meta: ObjectMeta, content: Bytes, upload: Option<Bytes>)
    requires Inv(s, bucket) && tid !in s.threads && NoNul(key) && FreshId(s, id) && FilePath(bucket, key, id).Inside?
    requires !meta.isDeleteMarker && meta.size == |content|
    ensures Inv(Announce(s, tid, key, id, meta, content, upload), bucket)
  {
    hide VersionKey, FilePath, Split, NoNul, Exclusive, Disturbed, Generated;
    var next := Announce(s, tid, key, id, meta, content, upload);
    FreshIsUnused(s, bucket, key, id);
    forall vk | vk in Records(next, bucket)
      ensures Backed(next, bucket, vk)
    {
      assert Backed(s, bucket, vk);
    }
    forall o | o in next.threads
      ensures ThreadInv(next, bucket, next.threads[o])
    {
      if o != tid { ThreadSurvivesAnnounce(s, next, bucket, s.threads[o], key, id, content); }
    }
    forall o | o in s.threads && (s.threads[o].Erasing? || s.threads[o].Removing?)
      ensures s.threads[o].versionId != id
    {
      assert ThreadInv(s, bucket, s.threads[o]);
    }
    AddedThreadIsExclusive(s, next, tid);
  }

  lemma AddedThreadIsExclusive(s: System, t: System, tid: nat)
    requires Exclusive(s) && tid !in s.threads && tid in t.threads && t.threads == s.threads[tid := t.threads[tid]]
    requires t.threads[tid].Moving?
    requires forall o :: o in s.threads ==>
      && InFlight(s.threads[o]) != InFlight(t.threads[tid])
      && (s.threads[o].Erasing? || s.threads[o].Removing? ==> Some(s.threads[o].versionId) != InFlight(t.threads[tid]))
    ensures Exclusive(t)
  {
  }

  lemma BeginKeepsInv(s: System, bucket: Bytes, step: Step)
    requires Inv(s, bucket) && Enabled(s, bucket, step) && (step.BeginPut? || step.BeginComplete?)
    ensures Inv(Apply(s, bucket, step), bucket)
  {
    hide VersionKey, FilePath, KeyPath, Split, NoNul, Inv, FreshId, GetUploadSpec, Assemble, CompletedId;
    match step
    case BeginPut(tid, key, meta, content, id) =>
      AnnounceKeepsInv(s, bucket, tid, key, id, Stored(meta, content, s.now), content, None);
    case BeginComplete(tid, key, uploadId, parts, id) =>
      var content := Assemble(s.disk, uploadId, parts).value;
      var upload := GetUploadSpec(s.disk.db, bucket, key, uploadId).value;
      var meta := CompletedMeta(s.disk, bucket, upload, ETags(parts), |content|, Stamp(s.now, id));
      AnnounceKeepsInv(s, bucket, tid, key, id, meta, content, Some(uploadId));
    case _ =>
  }

  /** Adding one record keeps the records well, if it is a marker, was disturbed or has its file. */
  lemma AddedRecord(s: System, t: System, bucket: Bytes, key: Bytes, m: ObjectMeta)
    requires NoDangling(s, bucket) && NoNul(key)
    requires Records(t, bucket) == Records(s, bucket)[VersionKey(key, m.versionId) := m]
    requires t.bodies == s.bodies && t.disk.files == s.disk.files && t.asked == s.asked && t.given == s.given
    requires !m.isDeleteMarker && (key, m.versionId) in s.bodies && !IsDisturbed(s, bucket, key, m.versionId) ==>
      HasFile(s, bucket, key, m.versionId, s.bodies[(key, m.versionId)]) && m.size == |s.bodies[(key, m.versionId)]|
    ensures NoDangling(t, bucket)
  {
    hide VersionKey, FilePath, Split, NoNul, Disturbed;
    SplitVersionKey(key, m.versionId);
    forall vk | vk in Records(t, bucket)
      ensures Backed(t, bucket, vk)
    {
      if vk != VersionKey(key, m.versionId) { assert Backed(s, bucket, vk); }
    }
  }

  /** What a thread about to record knows, and that giving up is safe. */
  lemma RecordingFacts(s: System, bucket: Bytes, t: Thread)
    requires ThreadInv(s, bucket, t) && t.Recording?
    ensures var id := t.meta.versionId;
      && NoNul(t.key) && !t.meta.isDeleteMarker && t.meta.size == |t.content|
      && (t.key, id) in s.bodies && s.bodies[(t.key, id)] == t.content
      && (!IsDisturbed(s, bucket, t.key, id) ==> HasFile(s, bucket, t.key, id, t.content))
      && ThreadInv(s, bucket, Undoing(t.key, id))
  {
    hide FilePath, Disturbed, HasFile;
  }

  lemma SweepingIsFree(s: System, bucket: Bytes, uploadId: Bytes, key: Bytes)
    ensures ThreadInv(s, bucket, Sweeping(uploadId)) && ThreadInv(s, bucket, DroppingUpload(key, uploadId))
  {
  }

  lemma RecordFailsKeepsInv(s: System, bucket: Bytes, tid: nat)
    requires Inv(s, bucket) && tid in s.threads && s.threads[tid].Recording?
    ensures var t := s.threads[tid];
      Inv(s.(threads := s.threads[tid := Undoing(t.key, t.meta.versionId)]), bucket)
  {
    hide VersionKey, FilePath, Split, NoNul, NoDangling, BodiesInv, WellKeyed, ThreadInv, Disturbed;
    var t := s.threads[tid];
    var next := s.(threads := s.threads[tid := Undoing(t.key, t.meta.versionId)]);
    SameFiles(s, next, bucket);
    SameBodies(s, next);
    forall o | o in next.threads
      ensures ThreadInv(next, bucket, next.threads[o])
    {
      RecordingFacts(s, bucket, t);
      if o == tid {
        ThreadUnaffected(s, next, bucket, next.threads[o]);
      } else {
        ThreadUnaffected(s, next, bucket, s.threads[o]);
      }
    }
    assert forall o :: o in next.threads ==> InFlight(next.threads[o]) == InFlight(s.threads[o]);
  }

  lemma OtherIdsStay(s: System, tid: nat, o: nat, id: Bytes)
    requires Exclusive(s) && tid in s.threads && o in s.threads && o != tid && InFlight(s.threads[tid]) == Some(id)
    ensures InFlight(s.threads[o]) != Some(id)
    ensures s.threads[o].Erasing? || s.threads[o].Removing? ==> s.threads[o].versionId != id
  {
  }

  /** After its record a thread holds no id in flight any more. */
  lemma RecordedIsExclusive(s: System, t: System, tid: nat)
    requires Exclusive(s) && tid in s.threads && s.threads[tid].Recording? && t.threads == AfterRecord(s.threads, tid)
    ensures Exclusive(t)
  {
    assert forall o :: o in t.threads && o != tid ==> t.threads[o] == s.threads[o];
    assert tid in t.threads ==> InFlight(t.threads[tid]) == None;
  }

  lemma RecordSucceedsKeepsInv(s: System, bucket: Bytes, tid: nat, m: ObjectMeta)
    requires Inv(s, bucket) && tid in s.threads && s.threads[tid].Recording?
    requires m == s.threads[tid].meta.(lastModified := m.lastModified)
    requires PutObjectTx(s.disk.db, bucket, s.threads[tid].key, m).Ok?
    ensures Inv(WithDb(s, PutObjectTx(s.disk.db, bucket, s.threads[tid].key, m).value)
                  .(threads := AfterRecord(s.threads, tid)), bucket)
  {
    hide VersionKey, FilePath, Split, NoNul, NoDangling, BodiesInv, WellKeyed, PutObjectTx, ThreadInv, Exclusive;
    hide Disturbed;
    hide HasFile;
    var t := s.threads[tid];
    var next := WithDb(s, PutObjectTx(s.disk.db, bucket, t.key, m).value).(threads := AfterRecord(s.threads, tid));
    RecordingFacts(s, bucket, t);
    BodyIds(s, (t.key, m.versionId));
    SameBodies(s, next);
    PutRecords(s, bucket, t.key, m);
    AddedRecord(s, next, bucket, t.key, m);
    forall o | o in next.threads
      ensures ThreadInv(next, bucket, next.threads[o])
    {
      if o == tid {
        SweepingIsFree(next, bucket, t.upload.value, t.key);
      } else {
        OtherIdsStay(s, tid, o, m.versionId);
        OtherKeysStay(s, next, bucket, s.threads[o], t.key, m);
      }
    }
    RecordedIsExclusive(s, next, tid);
  }

  lemma RecordKeepsInv(s: System, bucket: Bytes, step: Step)
    requires Inv(s, bucket) && Enabled(s, bucket, step) && step.Record?
    ensures Inv(Apply(s, bucket, step), bucket)
  {
    hide Inv, PutObjectTx;
    var t := s.threads[step.tid];
    var m := t.meta.(lastModified := step.time);
    if step.storeFails || PutObjectTx(s.disk.db, bucket, t.key, m).Err? {
      RecordFailsKeepsInv(s, bucket, step.tid);
    } else {
      RecordSucceedsKeepsInv(s, bucket, step.tid, m);
    }
  }

  /** The key and id a thread is concerned with. */
  function PairOf(t: Thread): Option<(Bytes, Bytes)> {
    match t
    case Moving(key, meta, _, _) => Some((key, meta.versionId))
    case Recording(key, meta, _, _) => Some((key, meta.versionId))
    case Undoing(key, versionId) => Some((key, versionId))
    case Erasing(key, versionId) => Some((key, versionId))
    case Removing(key, versionId) => Some((key, versionId))
    case _ => None
  }

  /** A thread concerned with another key or id, or with a given one, does not notice an added record. */
  lemma OtherKeysStay(s: System, t: System, bucket: Bytes, o: Thread, key: Bytes, m: ObjectMeta)
    requires ThreadInv(s, bucket, o) && NoNul(key)
    requires Records(t, bucket) == Records(s, bucket)[VersionKey(key, m.versionId) := m]
    requires t.bodies == s.bodies && t.disk.files == s.disk.files && s.seen <= t.seen && t.now == s.now
    requires t.asked == s.asked && t.given == s.given
    requires PairOf(o) != Some((key, m.versionId)) || (key, m.versionId) in s.given
    ensures ThreadInv(t, bucket, o)
  {
    hide VersionKey, FilePath, NoNul, Disturbed;
    match o
    case Moving(k, meta, _, _) => VersionKeyInjective(k, meta.versionId, key, m.versionId);
    case Recording(k, meta, _, _) => VersionKeyInjective(k, meta.versionId, key, m.versionId);
    case Undoing(k, v) => VersionKeyInjective(k, v, key, m.versionId);
    case Erasing(k, v) => VersionKeyInjective(k, v, key, m.versionId);
    case Removing(k, v) => VersionKeyInjective(k, v, key, m.versionId);
    case _ =>
  }

  /** A record added outside the threads' puts: a marker under a fresh id, or a put under a given one. */
  lemma SideRecordKeepsInv(s: System, next: System, bucket: Bytes, key: Bytes, m: ObjectMeta)
    requires Inv(s, bucket) && NoNul(key)
    requires forall o :: o in s.threads ==>
      PairOf(s.threads[o]) != Some((key, m.versionId)) || (key, m.versionId) in s.given
    requires (m.isDeleteMarker || (key, m.versionId) in s.given) && m.versionId in next.seen && s.seen <= next.seen
    requires next == WithDb(s, Committed(s.disk.db, PutObjectTx(s.disk.db, bucket, key, m))).(seen := next.seen)
    ensures Inv(next, bucket)
  {
    hide VersionKey, FilePath, Split, NoNul, NoDangling, BodiesInv, WellKeyed, PutObjectTx, Disturbed, ThreadInv;
    hide Exclusive;
    hide HasFile, PairOf;
    var tx := PutObjectTx(s.disk.db, bucket, key, m);
    SameBodies(s, next);
    GivenDisturbs(s, bucket, key, m.versionId);
    SameThreadsExclusive(s, next);
    if tx.Ok? {
      PutRecords(s, bucket, key, m);
      AddedRecord(s, next, bucket, key, m);
    } else {
      SameFiles(s, next, bucket);
    }
    forall o | o in next.threads
      ensures ThreadInv(next, bucket, next.threads[o])
    {
      if tx.Ok? {
        OtherKeysStay(s, next, bucket, s.threads[o], key, m);
      } else {
        ThreadUnaffected(s, next, bucket, s.threads[o]);
      }
    }
  }

  lemma SameThreadsExclusive(s: System, t: System)
    requires Exclusive(s) && t.threads == s.threads
    ensures Exclusive(t)
  {
  }

  lemma MarkKeepsInv(s: System, bucket: Bytes, step: Step)
    requires Inv(s, bucket) && Enabled(s, bucket, step) && step.Mark?
    ensures Inv(Apply(s, bucket, step), bucket)
  {
    hide VersionKey, FilePath, Split, NoNul, NoDangling, BodiesInv, WellKeyed, PutObjectTx, Disturbed;
    FreshIsUnused(s, bucket, step.key, step.id);
    forall o | o in s.threads
      ensures PairOf(s.threads[o]) != Some((step.key, step.id))
    {
      assert ThreadInv(s, bucket, s.threads[o]);
    }
    SideRecordKeepsInv(s, Apply(s, bucket, step), bucket, step.key, DeleteMarker(s.now, step.id));
  }

  lemma GivenRecordKeepsInv(s: System, bucket: Bytes, step: Step)
    requires Inv(s, bucket) && Enabled(s, bucket, step) && step.GivenRecord?
    ensures Inv(Apply(s, bucket, step), bucket)
  {
    hide VersionKey, FilePath, Split, NoNul, NoDangling, BodiesInv, WellKeyed, PutObjectTx, Disturbed, ThreadInv;
    SideRecordKeepsInv(s, Apply(s, bucket, step), bucket, step.key, step.meta);
  }

  lemma CheckKeepsInv(s: System, bucket: Bytes, step: Step)
    requires Inv(s, bucket) && Enabled(s, bucket, step) && step.Check?
    ensures Inv(Apply(s, bucket, step), bucket)
  {
    hide VersionKey, FilePath, Split, NoNul, NoDangling, BodiesInv, WellKeyed, Disturbed, Locked;
    var next := Apply(s, bucket, step);
    SameFiles(s, next, bucket);
    SameBodies(s, next);
    forall o | o in next.threads
      ensures ThreadInv(next, bucket, next.threads[o])
    {
      if o != step.tid { ThreadUnaffected(s, next, bucket, s.threads[o]); }
    }
  }

  lemma ErasingFacts(s: System, bucket: Bytes, t: Thread)
    requires ThreadInv(s, bucket, t) && t.Erasing?
    ensures NoNul(t.key) && t.versionId != []
  {
  }

  lemma RemovingAfterErase(s: System, t: System, bucket: Bytes, o: Thread)
    requires ThreadInv(s, bucket, o) && o.Erasing? && s.seen <= t.seen && t.asked == s.asked && t.given == s.given
    requires VersionKey(o.key, o.versionId) !in Records(t, bucket)
    ensures ThreadInv(t, bucket, Removing(o.key, o.versionId))
  {
  }

  lemma ThreadSurvivesErase(s: System, t: System, bucket: Bytes, o: Thread)
    requires ThreadInv(s, bucket, o)
    requires Records(t, bucket).Keys <= Records(s, bucket).Keys
    requires forall vk :: vk in Records(t, bucket) ==> SameButFlag(Records(t, bucket)[vk], Records(s, bucket)[vk])
    requires t.disk.files == s.disk.files && t.bodies == s.bodies && s.seen <= t.seen && s.now == t.now
    requires t.asked == s.asked && t.given == s.given
    ensures ThreadInv(t, bucket, o)
  {
    hide VersionKey, FilePath, NoNul, Disturbed;
  }

  lemma EraseRecordKeepsInv(s: System, bucket: Bytes, step: Step)
    requires Inv(s, bucket) && Enabled(s, bucket, step) && step.EraseRecord?
    ensures Inv(Apply(s, bucket, step), bucket)
  {
    hide VersionKey, FilePath, Split, NoNul, NoDangling, BodiesInv, WellKeyed, DeleteObjectTx, ThreadInv, Disturbed;
    var t, next := s.threads[step.tid], Apply(s, bucket, step);
    ErasingFacts(s, bucket, t);
    NoDanglingIsWellKeyed(s, bucket);
    EraseRecords(s, bucket, t.key, t.versionId);
    SameBodies(s, next);
    FewerRecords(s, next, bucket);
    forall o | o in next.threads
      ensures ThreadInv(next, bucket, next.threads[o])
    {
      if o == step.tid {
        RemovingAfterErase(s, next, bucket, t);
      } else {
        ThreadSurvivesErase(s, next, bucket, s.threads[o]);
      }
    }
    assert forall o :: o in next.threads ==> InFlight(next.threads[o]) == InFlight(s.threads[o]);
  }

  lemma FewerRecords(s: System, t: System, bucket: Bytes)
    requires NoDangling(s, bucket)
    requires Records(t, bucket).Keys <= Records(s, bucket).Keys
    requires forall vk :: vk in Records(t, bucket) ==> SameButFlag(Records(t, bucket)[vk], Records(s, bucket)[vk])
    requires t.bodies == s.bodies && t.disk.files == s.disk.files && t.asked == s.asked && t.given == s.given
    ensures NoDangling(t, bucket)
  {
    hide FilePath, Split, Disturbed;
    FlagsKeepKeys(Records(s, bucket), Records(t, bucket));
    forall vk | vk in Records(t, bucket)
      ensures Backed(t, bucket, vk)
    {
      assert Backed(s, bucket, vk);
    }
  }

  lemma PassingTimeKeepsInv(s: System, bucket: Bytes, step: Step)
    requires Inv(s, bucket) && Enabled(s, bucket, step) && (step.Tick? || step.Crash?)
    ensures Inv(Apply(s, bucket, step), bucket)
  {
    hide VersionKey, FilePath, Split, NoNul, NoDangling, BodiesInv, WellKeyed, ThreadInv, Disturbed;
    var next := Apply(s, bucket, step);
    SameFiles(s, next, bucket);
    SameBodies(s, next);
    forall o | o in next.threads
      ensures ThreadInv(next, bucket, next.threads[o])
    {
      ThreadUnaffected(s, next, bucket, s.threads[o]);
    }
  }

  /** Such a step leaves the bucket and its files alone; its thread may go on to sweep, or end. */
  lemma SideStepTouches(s: System, bucket: Bytes, step: Step)
    requires Enabled(s, bucket, step) && (step.DropUpload? || step.Sweep? || step.Background?)
    ensures var next := Apply(s, bucket, step);
      && AgreeOn(bucket, s.disk.db, next.disk.db) && next.disk.files == s.disk.files
      && next.bodies == s.bodies && next.seen == s.seen && next.now == s.now
      && next.asked == s.asked && next.given == s.given
      && forall o :: o in next.threads ==>
           && o in s.threads && InFlight(next.threads[o]) == InFlight(s.threads[o])
           && (next.threads[o] == s.threads[o] || next.threads[o].Sweeping?)
  {
    hide UploadKey, UploadMetaKey, UploadDir, FilePath;
  }

  lemma SideStepKeepsInv(s: System, bucket: Bytes, step: Step)
    requires Inv(s, bucket) && Enabled(s, bucket, step)
    requires step.DropUpload? || step.Sweep? || step.Background?
    ensures Inv(Apply(s, bucket, step), bucket)
  {
    hide VersionKey, FilePath, Split, NoNul, NoDangling, BodiesInv, WellKeyed, ThreadInv, UploadKey, UploadMetaKey;
    hide Apply, Enabled, Disturbed;
    var next := Apply(s, bucket, step);
    SideStepTouches(s, bucket, step);
    SameFiles(s, next, bucket);
    SameBodies(s, next);
    forall o | o in next.threads
      ensures ThreadInv(next, bucket, next.threads[o])
    {
      if next.threads[o] != s.threads[o] {
        SweepingIsFree(next, bucket, next.threads[o].uploadId, []);
      } else {
        ThreadUnaffected(s, next, bucket, s.threads[o]);
      }
    }
  }

  lemma StepKeepsInv(s: System, bucket: Bytes, step: Step)
    requires Inv(s, bucket) && Enabled(s, bucket, step)
    ensures Inv(Apply(s, bucket, step), bucket)
  {
    hide Inv, Apply, Enabled;
    match step
    case BeginPut(_, _, _, _, _) => BeginKeepsInv(s, bucket, step);
    case BeginComplete(_, _, _, _, _) => BeginKeepsInv(s, bucket, step);
    case Move(tid) => MoveKeepsInv(s, bucket, tid);
    case Record(_, _, _) => RecordKeepsInv(s, bucket, step);
    case Undo(tid) => UndoKeepsInv(s, bucket, tid);
    case Mark(_, _) => MarkKeepsInv(s, bucket, step);
    case Check(_, _, _) => CheckKeepsInv(s, bucket, step);
    case EraseRecord(_) => EraseRecordKeepsInv(s, bucket, step);
    case RemoveFile(tid) => RemoveFileKeepsInv(s, bucket, tid);
    case GivenFile(_, _, _) => SideFileKeepsInv(s, bucket, step);
    case Elsewhere(_, _, _, _) => SideFileKeepsInv(s, bucket, step);
    case GivenRecord(_, _) => GivenRecordKeepsInv(s, bucket, step);
    case Tick(_) => PassingTimeKeepsInv(s, bucket, step);
    case Crash => PassingTimeKeepsInv(s, bucket, step);
    case _ => SideStepKeepsInv(s, bucket, step);
  }
}
