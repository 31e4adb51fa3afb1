/** Whole runs of the steps of a bucket: what they never lose, and the backend's operations as such runs. */
module InterleavingRuns {
  import opened BackendModel
  import opened ByteStrings
  import opened Coherence
  import opened Interleaving
  import opened ObjectTypes
  import opened Outcomes
  import opened Paths
  import opened StoreModel
  import opened VersionKeys

  /**
   * A bucket at rest: no thread, and the bodies remembered from before are what the
   * files of the versions hold, with the recorded sizes. None need be remembered.
   */
  lemma RestingIsInv(s: System, bucket: Bytes)
    requires bucket in s.disk.db.objects && bucket in s.disk.db.buckets
    requires s.disk.db.buckets[bucket].versioning == "Enabled"
    requires s.threads == map[] && WellKeyed(Records(s, bucket)) && BodiesInv(s)
    requires s.given == {} && forall kv :: kv in s.bodies ==> HasFile(s, bucket, kv.0, kv.1, s.bodies[kv])
    requires forall vk :: vk in Records(s, bucket) ==>
      var m := Records(s, bucket)[vk];
      m.versionId in s.seen &&
      (!m.isDeleteMarker && (KeyOf(vk), m.versionId) in s.bodies ==> m.size == |s.bodies[(KeyOf(vk), m.versionId)]|)
    ensures Inv(s, bucket)
  {
    hide Split, FilePath;
    forall vk | vk in Records(s, bucket)
      ensures Backed(s, bucket, vk)
    {
    }
  }

  /** The names under which a step asks for a file, and the key and id it puts under if they are given to it. */
  function AskedBy(bucket: Bytes, step: Step): set<Names> {
    match step
    case Check(_, key, versionId) => {(bucket, key, versionId)}
    case GivenFile(key, id, _) => {(bucket, key, id)}
    case Elsewhere(other, key, id, _) => {(other, key, id)}
    case _ => {}
  }

  function GivenBy(step: Step): set<(Bytes, Bytes)> {
    match step
    case GivenFile(key, id, _) => {(key, id)}
    case _ => {}
  }

  function AskedIn(bucket: Bytes, steps: seq<Step>, n: nat): set<Names>
    requires n <= |steps|
  {
    if n == 0 then {} else AskedIn(bucket, steps, n - 1) + AskedBy(bucket, steps[n - 1])
  }

  function GivenIn(steps: seq<Step>, n: nat): set<(Bytes, Bytes)>
    requires n <= |steps|
  {
    if n == 0 then {} else GivenIn(steps, n - 1) + GivenBy(steps[n - 1])
  }

  lemma StepAsks(s: System, bucket: Bytes, step: Step)
    requires Enabled(s, bucket, step)
    ensures var t := Apply(s, bucket, step);
      t.asked == s.asked + AskedBy(bucket, step) && t.given == s.given + GivenBy(step) && s.now <= t.now
  {
    hide FilePath, VersionKey, PutObjectTx, DeleteObjectTx, UploadKey, UploadMetaKey, DeleteUploadTx, GetUploadSpec;
    hide Assemble, CleanUp, CompletedMeta, AfterRecord, Change, Place, Drop, Unlink;
  }

  /** What the history variables hold is what the steps have asked for. */
  lemma {:induction false} HistoryMeans(bucket: Bytes, states: seq<System>, steps: seq<Step>, i: nat)
    requires IsRun(bucket, states, steps) && i < |states|
    ensures states[i].asked == states[0].asked + AskedIn(bucket, steps, i)
    ensures states[i].given == states[0].given + GivenIn(steps, i)
    ensures i > 0 ==> states[i - 1].given <= states[i].given && states[i - 1].now <= states[i].now
  {
    hide Enabled, Apply, AskedBy, GivenBy;
    if i > 0 {
      HistoryMeans(bucket, states, steps, i - 1);
      assert Enabled(states[i - 1], bucket, steps[i - 1]);
      assert states[i - 1 + 1] == Apply(states[i - 1], bucket, steps[i - 1]);
      StepAsks(states[i - 1], bucket, steps[i - 1]);
    }
  }

  /** A version that no step of a run had as its own or met at its path. */
  ghost predicate Untouched(bucket: Bytes, start: System, steps: seq<Step>, n: nat, key: Bytes, id: Bytes)
    requires n <= |steps|
  {
    !Disturbed(start.asked + AskedIn(bucket, steps, n), start.given + GivenIn(steps, n), bucket, key, id)
  }

  /** Every record of content that was not there at the start has its body remembered, or was put under a given id. */
  ghost predicate Remembered(start: map<Bytes, ObjectMeta>, s: System, bucket: Bytes) {
    forall vk {:trigger vk in Records(s, bucket)} :: vk in Records(s, bucket) && vk !in start ==>
      Split(vk).Some? && var kv := (KeyOf(vk), Records(s, bucket)[vk].versionId);
      (Records(s, bucket)[vk].isDeleteMarker || kv in s.bodies || kv in s.given)
  }

  /** The records a step leaves: those before, up to their flag, but for one that it may add. */
  lemma RecordStepRemembers(start: map<Bytes, ObjectMeta>, s: System, bucket: Bytes, step: Step)
    requires Inv(s, bucket) && Enabled(s, bucket, step) && Remembered(start, s, bucket) && step.Record?
    ensures Remembered(start, Apply(s, bucket, step), bucket)
  {
    hide VersionKey, FilePath, Split, NoNul, NoDangling, BodiesInv, PutObjectTx, Exclusive, Disturbed;
    var t := s.threads[step.tid];
    var m := t.meta.(lastModified := step.time);
    assert ThreadInv(s, bucket, t);
    SplitVersionKey(t.key, m.versionId);
    if PutObjectTx(s.disk.db, bucket, t.key, m).Ok? { PutRecords(s, bucket, t.key, m); }
  }

  /** A marker, or a put under a given id. */
  lemma SideRecordRemembers(start: map<Bytes, ObjectMeta>, s: System, bucket: Bytes, step: Step)
    requires Enabled(s, bucket, step) && Remembered(start, s, bucket) && (step.Mark? || step.GivenRecord?)
    ensures Remembered(start, Apply(s, bucket, step), bucket)
  {
    hide VersionKey, FilePath, Split, NoNul, PutObjectTx;
    var m := if step.Mark? then DeleteMarker(s.now, step.id) else step.meta;
    var t := Apply(s, bucket, step);
    SplitVersionKey(step.key, m.versionId);
    if PutObjectTx(s.disk.db, bucket, step.key, m).Ok? {
      PutTxNeedsBucket(s.disk.db, bucket, step.key, m);
      PutRecords(s, bucket, step.key, m);
      assert Records(t, bucket) == Records(s, bucket)[VersionKey(step.key, m.versionId) := m];
    } else {
      assert Records(t, bucket) == Records(s, bucket);
    }
  }

  lemma PutTxNeedsBucket(db: Db, bucket: Bytes, key: Bytes, m: ObjectMeta)
    requires PutObjectTx(db, bucket, key, m).Ok?
    ensures bucket in db.objects
  {
  }

  lemma EraseStepRemembers(start: map<Bytes, ObjectMeta>, s: System, bucket: Bytes, step: Step)
    requires Inv(s, bucket) && Enabled(s, bucket, step) && Remembered(start, s, bucket) && step.EraseRecord?
    ensures Remembered(start, Apply(s, bucket, step), bucket)
  {
    hide VersionKey, FilePath, Split, NoNul, NoDangling, BodiesInv, DeleteObjectTx, Exclusive, Disturbed;
    var t := s.threads[step.tid];
    assert ThreadInv(s, bucket, t);
    NoDanglingIsWellKeyed(s, bucket);
    EraseRecords(s, bucket, t.key, t.versionId);
  }

  lemma OtherStepRemembers(start: map<Bytes, ObjectMeta>, s: System, bucket: Bytes, step: Step)
    requires Enabled(s, bucket, step) && Remembered(start, s, bucket)
    requires !step.Record? && !step.Mark? && !step.GivenRecord? && !step.EraseRecord?
    ensures Remembered(start, Apply(s, bucket, step), bucket)
  {
    hide Apply, Enabled, AskedBy, GivenBy, Split;
    OtherStepKeeps(s, bucket, step);
    StepAsks(s, bucket, step);
  }

  lemma OtherStepKeeps(s: System, bucket: Bytes, step: Step)
    requires Enabled(s, bucket, step) && !step.Record? && !step.Mark? && !step.GivenRecord? && !step.EraseRecord?
    ensures var t := Apply(s, bucket, step); Records(t, bucket) == Records(s, bucket) && s.bodies.Keys <= t.bodies.Keys
  {
    hide VersionKey, FilePath, NoNul, UploadKey, UploadMetaKey, DeleteUploadTx, GetUploadSpec, Assemble, CleanUp;
    UploadTxKeepsVersions(s.disk.db);
  }

  lemma UploadTxKeepsVersions(db: Db)
    ensures forall b, k, id :: Committed(db, DeleteUploadTx(db, b, k, id)).versions == db.versions
    ensures forall d: Disk, id :: CleanUp(d, id).db == d.db
  {
    hide UploadKey, UploadMetaKey, UploadDir;
  }

  lemma StepRemembers(start: map<Bytes, ObjectMeta>, s: System, bucket: Bytes, step: Step)
    requires Inv(s, bucket) && Enabled(s, bucket, step) && Remembered(start, s, bucket)
    ensures Remembered(start, Apply(s, bucket, step), bucket)
  {
    hide Inv, Apply, Enabled, Remembered;
    match step
    case Record(_, _, _) => RecordStepRemembers(start, s, bucket, step);
    case Mark(_, _) => SideRecordRemembers(start, s, bucket, step);
    case GivenRecord(_, _) => SideRecordRemembers(start, s, bucket, step);
    case EraseRecord(_) => EraseStepRemembers(start, s, bucket, step);
    case _ => OtherStepRemembers(start, s, bucket, step);
  }

  /**
   * However the steps interleave and wherever they stop, no record dangles: in every
   * state of every run each record of content made in the run has its file, holding
   * exactly the body given to the put or completion, with its size, unless a request
   * asked for that very path under another name, or a put was given its key and id.
   */
  lemma NothingEverDangles(bucket: Bytes, states: seq<System>, steps: seq<Step>, i: nat, vk: Bytes)
    requires IsRun(bucket, states, steps) && Inv(states[0], bucket) && i < |states|
    requires vk in Records(states[i], bucket) && vk !in Records(states[0], bucket)
    requires !Records(states[i], bucket)[vk].isDeleteMarker
    ensures Split(vk).Some?
    ensures var m, k := Records(states[i], bucket)[vk], KeyOf(vk);
      Untouched(bucket, states[0], steps, i, k, m.versionId) ==>
        && (k, m.versionId) in states[i].bodies
        && HasFile(states[i], bucket, k, m.versionId, states[i].bodies[(k, m.versionId)])
        && m.size == |states[i].bodies[(k, m.versionId)]|
  {
    hide Inv, FilePath, HasFile;
    RunKeepsInv(bucket, states, steps, i);
    HistoryMeans(bucket, states, steps, i);
    InvHasNoDangling(states[i], bucket);
    assert KeyOf(vk) == KeyOf(vk);
    assert Backed(states[i], bucket, vk);
  }

  lemma {:induction false} RunKeepsInv(bucket: Bytes, states: seq<System>, steps: seq<Step>, i: nat)
    requires IsRun(bucket, states, steps) && Inv(states[0], bucket) && i < |states|
    ensures Inv(states[i], bucket) && Remembered(Records(states[0], bucket), states[i], bucket)
  {
    hide Inv, Apply, Enabled;
    if i > 0 {
      RunKeepsInv(bucket, states, steps, i - 1);
      StepKeepsInv(states[i - 1], bucket, steps[i - 1]);
      StepRemembers(Records(states[0], bucket), states[i - 1], bucket, steps[i - 1]);
    }
  }

  lemma InvHasNoDangling(s: System, bucket: Bytes)
    requires Inv(s, bucket)
    ensures NoDangling(s, bucket)
  {
  }

  /** The record of `m` is in place, up to the flag that marks the latest version. */
  ghost predicate Kept(s: System, bucket: Bytes, key: Bytes, m: ObjectMeta) {
    var vk := VersionKey(key, m.versionId);
    vk in Records(s, bucket) && SameButFlag(Records(s, bucket)[vk], m)
  }

  lemma RecordKeepsLocked(s: System, bucket: Bytes, step: Step, key: Bytes, m: ObjectMeta)
    requires Inv(s, bucket) && Enabled(s, bucket, step) && NoNul(key) && step.Record? && Kept(s, bucket, key, m)
    ensures Kept(Apply(s, bucket, step), bucket, key, m)
  {
    hide VersionKey, FilePath, Split, NoNul, NoDangling, BodiesInv, PutObjectTx, Exclusive, Disturbed;
    var t := s.threads[step.tid];
    var r := t.meta.(lastModified := step.time);
    assert ThreadInv(s, bucket, t);
    VersionKeyInjective(t.key, r.versionId, key, m.versionId);
    if PutObjectTx(s.disk.db, bucket, t.key, r).Ok? { PutRecords(s, bucket, t.key, r); }
  }

  lemma SideRecordKeepsLocked(s: System, bucket: Bytes, step: Step, key: Bytes, m: ObjectMeta)
    requires Inv(s, bucket) && Enabled(s, bucket, step) && NoNul(key) && Kept(s, bucket, key, m)
    requires step.Mark? || (step.GivenRecord? && (key, m.versionId) !in s.given)
    ensures Kept(Apply(s, bucket, step), bucket, key, m)
  {
    hide VersionKey, FilePath, Split, NoNul, NoDangling, BodiesInv, PutObjectTx, Exclusive, Disturbed;
    var r := if step.Mark? then DeleteMarker(s.now, step.id) else step.meta;
    if step.Mark? { FreshIsUnused(s, bucket, step.key, step.id); }
    VersionKeyInjective(step.key, r.versionId, key, m.versionId);
    if PutObjectTx(s.disk.db, bucket, step.key, r).Ok? { PutRecords(s, bucket, step.key, r); }
  }

  lemma EraseKeepsLocked(s: System, bucket: Bytes, step: Step, key: Bytes, m: ObjectMeta)
    requires Inv(s, bucket) && Enabled(s, bucket, step) && NoNul(key) && step.EraseRecord?
    requires Kept(s, bucket, key, m) && Locked(m, s.now) && (key, m.versionId) !in s.given
    ensures Kept(Apply(s, bucket, step), bucket, key, m)
  {
    hide VersionKey, FilePath, Split, NoNul, NoDangling, BodiesInv, DeleteObjectTx, Exclusive, Disturbed;
    var t := s.threads[step.tid];
    assert ThreadInv(s, bucket, t);
    VersionKeyInjective(t.key, t.versionId, key, m.versionId);
    NoDanglingIsWellKeyed(s, bucket);
    EraseRecords(s, bucket, t.key, t.versionId);
  }

  lemma StepKeepsLocked(s: System, bucket: Bytes, step: Step, key: Bytes, m: ObjectMeta)
    requires Inv(s, bucket) && Enabled(s, bucket, step) && NoNul(key)
    requires Kept(s, bucket, key, m) && Locked(m, s.now) && (key, m.versionId) !in s.given
    ensures Kept(Apply(s, bucket, step), bucket, key, m)
  {
    hide VersionKey, Inv, Apply, Enabled;
    match step
    case Record(_, _, _) => RecordKeepsLocked(s, bucket, step, key, m);
    case Mark(_, _) => SideRecordKeepsLocked(s, bucket, step, key, m);
    case GivenRecord(_, _) => SideRecordKeepsLocked(s, bucket, step, key, m);
    case EraseRecord(_) => EraseKeepsLocked(s, bucket, step, key, m);
    case _ => OtherStepKeeps(s, bucket, step);
  }

  /**
   * Object lock over whole runs: a version with a legal hold, or one whose retention
   * date is still to come at some moment of a run, is then in the store if it was there
   * at an earlier moment of the run, up to the flag of the latest version, unless a put was
   * given its key and id. If it was made in the run, or its body is remembered from
   * before, its file is there too, unless a request asked for that very path under
   * another name.
   */
  lemma {:induction false} LockedVersionsStay(
    bucket: Bytes, states: seq<System>, steps: seq<Step>, j: nat, i: nat, key: Bytes, m: ObjectMeta)
    requires IsRun(bucket, states, steps) && Inv(states[0], bucket) && j <= i < |states| && NoNul(key)
    requires Kept(states[j], bucket, key, m)
    requires m.legalHold == "ON" || (m.retainUntil.Some? && states[i].now < m.retainUntil.value)
    requires (key, m.versionId) !in states[0].given + GivenIn(steps, i)
    ensures Kept(states[i], bucket, key, m)
    ensures Untouched(bucket, states[0], steps, i, key, m.versionId) && !m.isDeleteMarker ==>
      VersionKey(key, m.versionId) !in Records(states[0], bucket) || (key, m.versionId) in states[i].bodies ==>
        && (key, m.versionId) in states[i].bodies
        && HasFile(states[i], bucket, key, m.versionId, states[i].bodies[(key, m.versionId)])
        && m.size == |states[i].bodies[(key, m.versionId)]|
    decreases i - j
  {
    hide Inv, Apply, Enabled, Kept, FilePath, HasFile, AskedBy, GivenBy, Disturbed, Locked;
    HistoryMeans(bucket, states, steps, i);
    if i > j {
      HistoryMeans(bucket, states, steps, i - 1);
      HeldEarlier(m, states[i - 1].now, states[i].now);
      LockedVersionsStay(bucket, states, steps, j, i - 1, key, m);
      RunKeepsInv(bucket, states, steps, i - 1);
      StepKeepsLocked(states[i - 1], bucket, steps[i - 1], key, m);
    }
    RunKeepsInv(bucket, states, steps, i);
    InvHasNoDangling(states[i], bucket);
    if !m.isDeleteMarker { KeptIsRemembered(Records(states[0], bucket), states[i], bucket, key, m); }
    KeptIsBacked(states[i], bucket, key, m);
  }

  lemma HeldEarlier(m: ObjectMeta, before: int, after: int)
    requires before <= after
    requires m.legalHold == "ON" || (m.retainUntil.Some? && after < m.retainUntil.value)
    ensures Locked(m, before)
  {
  }

  /**
   * A guard that callers can check beforehand: if every request to a bucket's
   * neighbours or under a given id, and every delete, has a clean key and an id
   * without '@' and slash, no version with a clean key is met at its path.
   */
  predicate Guarded(a: Names) {
    Proper(a.0) && CleanKey(a.1) && SLASH !in a.2 && AT_SIGN !in a.2
  }

  lemma GuardedRequestsMiss(asked: set<Names>, given: set<(Bytes, Bytes)>, bucket: Bytes, key: Bytes, id: Bytes)
    requires Proper(bucket) && CleanKey(key) && Generated(id) && (forall a :: a in asked ==> Guarded(a))
    requires (key, id) !in given
    ensures !Disturbed(asked, given, bucket, key, id)
  {
    hide FilePath, Proper, CleanKey, Generated;
    forall a | a in asked && a != (bucket, key, id)
      ensures FilePath(a.0, a.1, a.2) != FilePath(bucket, key, id)
    {
      GuardedNames(a.0, a.1, a.2);
      AliasedPaths(a.0, a.1, a.2);
      assert FilePath(a.0, a.1, a.2) == FilePath(bucket, key, id) ==>
        IsFileOf(FilePath(a.0, a.1, a.2), bucket, key, id);
    }
  }

  lemma KeptIsRemembered(start: map<Bytes, ObjectMeta>, s: System, bucket: Bytes, key: Bytes, m: ObjectMeta)
    requires Remembered(start, s, bucket) && Kept(s, bucket, key, m) && NoNul(key) && !m.isDeleteMarker
    ensures VersionKey(key, m.versionId) in start || (key, m.versionId) in s.bodies || (key, m.versionId) in s.given
  {
    hide Split, VersionKey;
    SplitVersionKey(key, m.versionId);
  }

  lemma KeptIsBacked(s: System, bucket: Bytes, key: Bytes, m: ObjectMeta)
    requires NoDangling(s, bucket) && Kept(s, bucket, key, m) && NoNul(key)
    ensures !IsDisturbed(s, bucket, key, m.versionId) && !m.isDeleteMarker && (key, m.versionId) in s.bodies ==>
      && HasFile(s, bucket, key, m.versionId, s.bodies[(key, m.versionId)])
      && m.size == |s.bodies[(key, m.versionId)]|
  {
    hide Split, VersionKey, FilePath, HasFile, Disturbed;
    var vk := VersionKey(key, m.versionId);
    SplitVersionKey(key, m.versionId);
    assert KeyOf(vk) == key && Backed(s, bucket, vk);
  }

  // ----- the sequential operations are runs -----

  ghost function Perform(s: System, bucket: Bytes, steps: seq<Step>): System
    requires CanPerform(s, bucket, steps)
    decreases |steps|
  {
    if steps == [] then s else Perform(Apply(s, bucket, steps[0]), bucket, steps[1..])
  }

  ghost predicate CanPerform(s: System, bucket: Bytes, steps: seq<Step>)
    decreases |steps|
  {
    steps == [] || (Enabled(s, bucket, steps[0]) && CanPerform(Apply(s, bucket, steps[0]), bucket, steps[1..]))
  }

  lemma PerformOne(s: System, bucket: Bytes, step: Step, rest: seq<Step>)
    requires Enabled(s, bucket, step) && CanPerform(Apply(s, bucket, step), bucket, rest)
    ensures CanPerform(s, bucket, [step] + rest)
    ensures Perform(s, bucket, [step] + rest) == Perform(Apply(s, bucket, step), bucket, rest)
  {
    assert ([step] + rest)[1..] == rest;
  }

  /** The backend's put, left alone, is the run of its thread. */
  lemma PutIsARun(s: System, bucket: Bytes, tid: nat, key: Bytes, meta: ObjectMeta, content: Bytes)
    returns (steps: seq<Step>)
    requires bucket in s.disk.db.buckets && tid !in s.threads && NoNul(key)
    requires FreshId(s, meta.versionId) && !meta.isDeleteMarker
    ensures CanPerform(s, bucket, steps)
    ensures Perform(s, bucket, steps).disk == PutObjectAfter(s.disk, bucket, key, content, meta, s.now).0
    ensures Perform(s, bucket, steps).threads == s.threads
  {
    hide PutObjectTx, FilePath, FreshId, NoNul;
    if FilePath(bucket, key, meta.versionId).Outside? { return []; }
    var m := Stored(meta, content, s.now);
    var s1 := Apply(s, bucket, BeginPut(tid, key, meta, content, meta.versionId));
    var s2 := Apply(s1, bucket, Move(tid));
    assert s2.threads[tid] == Recording(key, m, content, None);
    var record := Record(tid, s.now, false);
    var s3 := Apply(s2, bucket, record);
    var tail: seq<Step> := [];
    if PutObjectTx(s.disk.db, bucket, key, m).Err? {
      PerformOne(s3, bucket, Undo(tid), []);
      tail := [Undo(tid)] + [];
    }
    PerformOne(s2, bucket, record, tail);
    PerformOne(s1, bucket, Move(tid), [record] + tail);
    PerformOne(s, bucket, BeginPut(tid, key, meta, content, meta.versionId), [Move(tid)] + ([record] + tail));
    steps := [BeginPut(tid, key, meta, content, meta.versionId)] + ([Move(tid)] + ([record] + tail));
    assert Perform(s, bucket, steps).threads == s.threads;
  }

  /** So is a put under an id that the request brings along, as form uploads and copies make it. */
  lemma GivenPutIsARun(s: System, bucket: Bytes, key: Bytes, meta: ObjectMeta, content: Bytes)
    returns (steps: seq<Step>)
    requires bucket in s.disk.db.buckets && NoNul(key) && NotInFlight(s, meta.versionId)
    ensures CanPerform(s, bucket, steps)
    ensures Perform(s, bucket, steps).disk == PutObjectAfter(s.disk, bucket, key, content, meta, s.now).0
    ensures Perform(s, bucket, steps).threads == s.threads
  {
    hide PutObjectTx, FilePath, NoNul;
    if FilePath(bucket, key, meta.versionId).Outside? { return []; }
    var m := Stored(meta, content, s.now);
    var place := GivenFile(key, m.versionId, Some(content));
    var s1 := Apply(s, bucket, place);
    if PutObjectTx(s.disk.db, bucket, key, m).Ok? {
      PerformOne(s1, bucket, GivenRecord(key, m), []);
      PerformOne(s, bucket, place, [GivenRecord(key, m)] + []);
      steps := [place] + ([GivenRecord(key, m)] + []);
    } else {
      var back := GivenFile(key, m.versionId, None);
      PerformOne(s1, bucket, back, []);
      PerformOne(s, bucket, place, [back] + []);
      steps := [place] + ([back] + []);
    }
  }

  /**
   * Such a put leaves of the version under its key and id only the new content and the
   * new lock, whether the old one was locked or not; other versions keep their records.
   */
  lemma GivenPutReplaces(d: Disk, bucket: Bytes, key: Bytes, meta: ObjectMeta, content: Bytes, now: int)
    requires bucket in d.db.buckets && bucket in d.db.objects && key != []
    requires FilePath(bucket, key, meta.versionId).Inside?
    ensures var (after, r) := PutObjectAfter(d, bucket, key, content, meta, now);
      var vk, path := VersionKey(key, meta.versionId), FilePath(bucket, key, meta.versionId);
      var before, records := VersionsOf(d.db, bucket), VersionsOf(after.db, bucket);
      && r.Ok? && path in after.files && after.files[path] == content && vk in records
      && records[vk].legalHold == meta.legalHold && records[vk].retainUntil == meta.retainUntil
      && (forall other :: other in before && other != vk ==> other in records && records[other] == before[other])
  {
    hide VersionKey, FilePath;
    assert PutObjectTx(d.db, bucket, key, Stored(meta, content, now)).Ok?;
  }

  lemma BucketAtHand(s: System, bucket: Bytes)
    requires Inv(s, bucket)
    ensures bucket in s.disk.db.objects && bucket in s.disk.db.buckets
    ensures s.disk.db.buckets[bucket].versioning == "Enabled" && WellKeyed(Records(s, bucket))
  {
  }

  lemma EraseIsARun(s: System, bucket: Bytes, tid: nat, key: Bytes, versionId: Bytes) returns (steps: seq<Step>)
    requires Inv(s, bucket) && tid !in s.threads && NoNul(key) && versionId != []
    requires NotInFlight(s, versionId)
    requires var found := GetObjectSpec(s.disk.db, bucket, key, versionId); !(found.Ok? && Locked(found.value, s.now))
    ensures CanPerform(s, bucket, steps)
    ensures Perform(s, bucket, steps).disk == Erase(s.disk, bucket, key, versionId)
    ensures Perform(s, bucket, steps).threads == s.threads
  {
    hide DeleteObjectTx, FilePath, NoNul, Inv, VersionKey, GetObjectSpec;
    BucketAtHand(s, bucket);
    EraseRecords(s, bucket, key, versionId);
    var s1 := Apply(s, bucket, Check(tid, key, versionId));
    var s2 := Apply(s1, bucket, EraseRecord(tid));
    var s3 := Apply(s2, bucket, RemoveFile(tid));
    assert s3.threads == s.threads;
    PerformOne(s2, bucket, RemoveFile(tid), []);
    PerformOne(s1, bucket, EraseRecord(tid), [RemoveFile(tid)] + []);
    PerformOne(s, bucket, Check(tid, key, versionId), [EraseRecord(tid)] + ([RemoveFile(tid)] + []));
    steps := [Check(tid, key, versionId)] + ([EraseRecord(tid)] + ([RemoveFile(tid)] + []));
  }

  /** The backend's delete, left alone, is the run of its thread, a marker, or a refusal. */
  lemma DeleteIsARun(s: System, bucket: Bytes, tid: nat, key: Bytes, versionId: Bytes, id: Bytes)
    returns (steps: seq<Step>)
    requires Inv(s, bucket) && tid !in s.threads && NoNul(key) && FreshId(s, id)
    requires NotInFlight(s, versionId)
    ensures CanPerform(s, bucket, steps)
    ensures Perform(s, bucket, steps).disk == DeleteObjectAfter(s.disk, bucket, key, versionId, Stamp(s.now, id)).0
    ensures Perform(s, bucket, steps).threads == s.threads
  {
    hide PutObjectTx, FilePath, FreshId, NoNul, Inv, VersionKey, GetObjectSpec, Erase;
    BucketAtHand(s, bucket);
    steps := [];
    if versionId == [] {
      PerformOne(s, bucket, Mark(key, id), []);
      steps := [Mark(key, id)] + [];
    } else {
      var found := GetObjectSpec(s.disk.db, bucket, key, versionId);
      if !(found.Ok? && Locked(found.value, s.now)) {
        steps := EraseIsARun(s, bucket, tid, key, versionId);
      }
    }
  }

  /** A completion whose record the store accepts: its thread runs to the end. */
  lemma AcceptedCompletion(
    s: System, bucket: Bytes, tid: nat, key: Bytes, uploadId: Bytes, parts: seq<CompletePart>, id: Bytes)
    returns (steps: seq<Step>)
    requires Inv(s, bucket) && tid !in s.threads && NoNul(key) && FreshId(s, id)
    requires GetUploadSpec(s.disk.db, bucket, key, uploadId).Ok?
    requires !GetUploadSpec(s.disk.db, bucket, key, uploadId).value.isDeleteMarker
    requires CompleteUploadAfter(s.disk, bucket, key, uploadId, parts, Stamp(s.now, id)).1.Ok?
    ensures CanPerform(s, bucket, steps)
    ensures Perform(s, bucket, steps).disk ==
      CompleteUploadAfter(s.disk, bucket, key, uploadId, parts, Stamp(s.now, id)).0
    ensures Perform(s, bucket, steps).threads == s.threads
  {
    hide PutObjectTx, FilePath, FreshId, NoNul, Inv, DeleteUploadTx, GetUploadSpec, Assemble, CleanUp, ETags;
    BucketAtHand(s, bucket);
    var begin := BeginComplete(tid, key, uploadId, parts, id);
    var s1 := Apply(s, bucket, begin);
    var s2 := Apply(s1, bucket, Move(tid));
    var record := Record(tid, s.now, false);
    var s3 := Apply(s2, bucket, record);
    var s4 := Apply(s3, bucket, DropUpload(tid));
    var s5 := Apply(s4, bucket, Sweep(tid));
    PerformOne(s4, bucket, Sweep(tid), []);
    PerformOne(s3, bucket, DropUpload(tid), [Sweep(tid)] + []);
    PerformOne(s2, bucket, record, [DropUpload(tid)] + ([Sweep(tid)] + []));
    PerformOne(s1, bucket, Move(tid), [record] + ([DropUpload(tid)] + ([Sweep(tid)] + [])));
    PerformOne(s, bucket, begin, [Move(tid)] + ([record] + ([DropUpload(tid)] + ([Sweep(tid)] + []))));
    steps := [begin] + ([Move(tid)] + ([record] + ([DropUpload(tid)] + ([Sweep(tid)] + []))));
    assert s5.threads == s.threads;
  }

  /** A completion whose record the store refuses takes its file back. */
  lemma RefusedCompletion(
    s: System, bucket: Bytes, tid: nat, key: Bytes, uploadId: Bytes, parts: seq<CompletePart>, id: Bytes)
    returns (steps: seq<Step>)
    requires Inv(s, bucket) && tid !in s.threads && NoNul(key) && FreshId(s, id)
    requires GetUploadSpec(s.disk.db, bucket, key, uploadId).Ok?
    requires !GetUploadSpec(s.disk.db, bucket, key, uploadId).value.isDeleteMarker
    requires Assemble(s.disk, uploadId, parts).Some? && Reachable(bucket, key, id)
    requires CompleteUploadAfter(s.disk, bucket, key, uploadId, parts, Stamp(s.now, id)).1.Err?
    ensures CanPerform(s, bucket, steps)
    ensures Perform(s, bucket, steps).disk ==
      CompleteUploadAfter(s.disk, bucket, key, uploadId, parts, Stamp(s.now, id)).0
    ensures Perform(s, bucket, steps).threads == s.threads
  {
    hide PutObjectTx, FilePath, FreshId, NoNul, Inv, DeleteUploadTx, GetUploadSpec, Assemble, CleanUp, ETags;
    BucketAtHand(s, bucket);
    var begin := BeginComplete(tid, key, uploadId, parts, id);
    var s1 := Apply(s, bucket, begin);
    var s2 := Apply(s1, bucket, Move(tid));
    var record := Record(tid, s.now, false);
    var s3 := Apply(s2, bucket, record);
    var s4 := Apply(s3, bucket, Undo(tid));
    PerformOne(s3, bucket, Undo(tid), []);
    PerformOne(s2, bucket, record, [Undo(tid)] + []);
    PerformOne(s1, bucket, Move(tid), [record] + ([Undo(tid)] + []));
    PerformOne(s, bucket, begin, [Move(tid)] + ([record] + ([Undo(tid)] + [])));
    steps := [begin] + ([Move(tid)] + ([record] + ([Undo(tid)] + [])));
    assert s4.threads == s.threads;
  }

  /** The backend's completion, left alone, is the run of its thread, or nothing if the upload or a part is missing. */
  lemma CompleteIsARun(
    s: System, bucket: Bytes, tid: nat, key: Bytes, uploadId: Bytes, parts: seq<CompletePart>, id: Bytes)
    returns (steps: seq<Step>)
    requires Inv(s, bucket) && tid !in s.threads && NoNul(key) && FreshId(s, id)
    requires var upload := GetUploadSpec(s.disk.db, bucket, key, uploadId); upload.Ok? ==> !upload.value.isDeleteMarker
    ensures CanPerform(s, bucket, steps)
    ensures Perform(s, bucket, steps).disk ==
      CompleteUploadAfter(s.disk, bucket, key, uploadId, parts, Stamp(s.now, id)).0
    ensures Perform(s, bucket, steps).threads == s.threads
  {
    hide Inv, NoNul, FreshId, GetUploadSpec, Assemble, CleanUp, DeleteUploadTx, PutObjectTx, FilePath, ETags;
    steps := [];
    BucketAtHand(s, bucket);
    if GetUploadSpec(s.disk.db, bucket, key, uploadId).Ok? && Assemble(s.disk, uploadId, parts).Some?
       && Reachable(bucket, key, id)
    {
      if CompleteUploadAfter(s.disk, bucket, key, uploadId, parts, Stamp(s.now, id)).1.Ok? {
        steps := AcceptedCompletion(s, bucket, tid, key, uploadId, parts, id);
      } else {
        steps := RefusedCompletion(s, bucket, tid, key, uploadId, parts, id);
      }
    }
  }

  // ----- deletes that meet another version's file -----

  /**
   * A delete whose path is also another version's removes that version's file and
   * leaves its record, on every disk that holds it, in whichever bucket, and has no
   * record under the names asked for. The lock check looks for the latter, so it does
   * not matter whether the version is locked.
   */
  lemma AliasedDeleteDangles(
    d: Disk, bucket: Bytes, key: Bytes, versionId: Bytes, b: Bytes, k: Bytes, v: Bytes, stamp: Stamp)
    requires bucket in d.db.objects && WellKeyed(VersionsOf(d.db, bucket)) && NoNul(key) && versionId != []
    requires FilePath(bucket, key, versionId) == FilePath(b, k, v) && FilePath(b, k, v) in d.files
    requires FilePath(b, k, v).Inside?
    requires VersionKey(k, v) in VersionsOf(d.db, b) && VersionKey(key, versionId) !in VersionsOf(d.db, bucket)
    ensures var (after, err) := DeleteObjectAfter(d, bucket, key, versionId, stamp);
      && err == None
      && VersionKey(k, v) in VersionsOf(after.db, b)
      && SameButFlag(VersionsOf(after.db, b)[VersionKey(k, v)], VersionsOf(d.db, b)[VersionKey(k, v)])
      && after.files == d.files - {FilePath(b, k, v)}
  {
    hide VersionKey, FilePath, Split, NoNul, WellKeyed, DeleteObjectTx;
    var s := System(d, map[], {}, map[], stamp.now, {}, {});
    EraseRecords(s, bucket, key, versionId);
    if b != bucket { EraseElsewhere(d.db, bucket, key, versionId, b); }
  }

  lemma EraseElsewhere(db: Db, bucket: Bytes, key: Bytes, versionId: Bytes, b: Bytes)
    requires b != bucket
    ensures VersionsOf(Committed(db, DeleteObjectTx(db, bucket, key, versionId)), b) == VersionsOf(db, b)
  {
    hide VersionKey, DeleteVersion, RecordsOf;
  }

  /** Deletes under names that read as no other version's path leave all other versions' files alone. */
  lemma OnlyAliasesDangle(
    d: Disk, bucket: Bytes, key: Bytes, versionId: Bytes, stamp: Stamp, b: Bytes, k: Bytes, v: Bytes)
    requires !Aliases(bucket, key, versionId) && IsFileOf(FilePath(b, k, v), b, k, v)
    requires (b, k, v) != (bucket, key, versionId)
    ensures var after := DeleteObjectAfter(d, bucket, key, versionId, stamp).0; var path := FilePath(b, k, v);
      && (path in after.files <==> path in d.files)
      && (path in d.files ==> after.files[path] == d.files[path])
  {
    hide VersionKey, FilePath, DeleteObjectTx, GetObjectSpec, PutObjectTx, Aliases, IsFileOf;
    AliasedPaths(bucket, key, versionId);
  }
}
