/** The latest map and the versions map of every bucket agree, over every run of the store. */
module Coherence {
  import opened ByteStrings
  import opened ObjectTypes
  import opened Outcomes
  import opened StoreModel
  import opened VersionKeys

  /** No two records of a key carry the same time. */
  ghost predicate DistinctTimes(vs: map<Bytes, ObjectMeta>)
    requires WellKeyed(vs)
  {
    forall a, b {:trigger KeyOf(a), KeyOf(b)} :: a in vs && b in vs && a != b && KeyOf(a) == KeyOf(b) ==>
      vs[a].lastModified != vs[b].lastModified
  }

  /**
   * A key is in the latest map exactly when it has a version record; its entry is
   * the record under its own id, and no record of the key is newer.
   */
  ghost predicate Coherent(latest: map<Bytes, ObjectMeta>, vs: map<Bytes, ObjectMeta>, clock: int) {
    && WellKeyed(vs)
    && DistinctTimes(vs)
    && (forall vk {:trigger KeyOf(vk)} :: vk in vs ==>
          && KeyOf(vk) in latest
          && vs[vk].lastModified <= latest[KeyOf(vk)].lastModified)
    && (forall vk :: vk in vs ==> vs[vk].lastModified <= clock)
    && (forall k :: k in latest ==>
          && k != [] && NoNul(k)
          && VersionKey(k, latest[k].versionId) in vs
          && vs[VersionKey(k, latest[k].versionId)] == latest[k])
  }

  ghost predicate StoreInv(db: Db, clock: int) {
    && db.buckets.Keys == db.objects.Keys
    && forall b: Bytes :: Coherent(ObjectsOf(db, b), VersionsOf(db, b), clock)
  }

  datatype StoreOp =
    | CreateBucket(name: Bytes, objectLock: bool)
    | DeleteBucket(name: Bytes)
    | UpdateBucket(name: Bytes, info: BucketInfo)
    | Put(bucket: Bytes, key: Bytes, meta: ObjectMeta)
    | Delete(bucket: Bytes, key: Bytes, versionId: Bytes)

  ghost function Perform(db: Db, op: StoreOp): Tx {
    match op
    case CreateBucket(name, objectLock) => CreateBucketTx(db, name, objectLock)
    case DeleteBucket(name) => DeleteBucketTx(db, name)
    case UpdateBucket(name, info) => UpdateBucketTx(db, name, info)
    case Put(bucket, key, meta) => PutObjectTx(db, bucket, key, meta)
    case Delete(bucket, key, versionId) => DeleteObjectTx(db, bucket, key, versionId)
  }

  /** What the callers of the store keep to: a moving clock, and puts that are current. */
  ghost predicate Legal(op: StoreOp, clock: int) {
    match op
    case Put(_, key, meta) => NoNul(key) && meta.lastModified > clock && (meta.isLatest || meta.versionId == [])
    case Delete(_, key, _) => NoNul(key)
    case _ => true
  }

  ghost function Tick(clock: int, op: StoreOp): int {
    if op.Put? then op.meta.lastModified else clock
  }

  ghost function Run(db: Db, ops: seq<StoreOp>): Db
    decreases |ops|
  {
    if ops == [] then db else Run(Committed(db, Perform(db, ops[0])), ops[1..])
  }

  ghost function RunClock(clock: int, ops: seq<StoreOp>): int
    decreases |ops|
  {
    if ops == [] then clock else RunClock(Tick(clock, ops[0]), ops[1..])
  }

  ghost predicate LegalRun(clock: int, ops: seq<StoreOp>)
    decreases |ops|
  {
    ops == [] || (Legal(ops[0], clock) && LegalRun(Tick(clock, ops[0]), ops[1..]))
  }

  /** The records of a key, and where the newest of them is stored back. */
  lemma RecordsByKey(vs: map<Bytes, ObjectMeta>, key: Bytes)
    requires WellKeyed(vs) && NoNul(key)
    ensures forall vk {:trigger vk in RecordsOf(vs, key)} {:trigger KeyOf(vk)} ::
      vk in vs ==> (vk in RecordsOf(vs, key) <==> KeyOf(vk) == key)
    ensures forall vk :: vk in RecordsOf(vs, key) ==> vk == VersionKey(key, vs[vk].versionId)
  {
    forall vk | vk in vs
      ensures vk in RecordsOf(vs, key) <==> KeyOf(vk) == key
    {
      PrefixIsKey(key, vk);
    }
  }

  lemma NewestRecord(vs: map<Bytes, ObjectMeta>, key: Bytes)
    requires WellKeyed(vs) && NoNul(key) && RecordsOf(vs, key) != {}
    ensures exists vk :: IsNewest(vs, key, vk)
    ensures Newest(vs, key) in vs && KeyOf(Newest(vs, key)) == key
    ensures forall vk {:trigger KeyOf(vk)} :: vk in vs && KeyOf(vk) == key ==>
      vs[vk].lastModified <= vs[Newest(vs, key)].lastModified
  {
    NewestExists(vs, key);
    RecordsByKey(vs, key);
  }

  lemma LaterIsCoherent(latest: map<Bytes, ObjectMeta>, vs: map<Bytes, ObjectMeta>, clock: int, later: int)
    requires Coherent(latest, vs, clock) && clock <= later
    ensures Coherent(latest, vs, later)
  {
  }

  lemma PutKeepsCoherence(
    latest: map<Bytes, ObjectMeta>, vs: map<Bytes, ObjectMeta>, clock: int, key: Bytes, meta: ObjectMeta)
    requires Coherent(latest, vs, clock)
    requires key != [] && NoNul(key) && meta.lastModified > clock
    ensures Coherent(latest[key := meta], vs[VersionKey(key, meta.versionId) := meta], meta.lastModified)
  {
    hide VersionKey, Split, NoNul;
    SplitVersionKey(key, meta.versionId);
    forall k | k in latest
      ensures VersionKey(k, latest[k].versionId) == VersionKey(key, meta.versionId) ==> k == key
    {
      VersionKeyInjective(k, latest[k].versionId, key, meta.versionId);
    }
  }

  lemma DeleteAllKeepsCoherence(
    latest: map<Bytes, ObjectMeta>, vs: map<Bytes, ObjectMeta>, clock: int, key: Bytes)
    requires Coherent(latest, vs, clock) && NoNul(key)
    ensures Coherent(latest - {key}, vs - RecordsOf(vs, key), clock)
  {
    hide RecordsOf, Split, VersionKey;
    RecordsByKey(vs, key);
    forall k | k in latest
      ensures KeyOf(VersionKey(k, latest[k].versionId)) == k
    {
      SplitVersionKey(k, latest[k].versionId);
    }
  }

  /** Making the newest record of a key its latest entry, with the flag set in both maps. */
  lemma PromoteKeepsCoherence(
    latest: map<Bytes, ObjectMeta>, vs: map<Bytes, ObjectMeta>, removed: Bytes, clock: int, key: Bytes, n: Bytes)
    requires Coherent(latest, vs, clock) && NoNul(key)
    requires Split(removed).Some? && KeyOf(removed) == key
    requires n in vs && n != removed && KeyOf(n) == key && n == VersionKey(key, vs[n].versionId)
    requires forall vk {:trigger KeyOf(vk)} :: vk in vs && vk != removed && KeyOf(vk) == key ==>
      vs[vk].lastModified <= vs[n].lastModified
    ensures var m := vs[n].(isLatest := true);
      Coherent(latest[key := m], (vs - {removed})[n := m], clock)
  {
    hide Split, VersionKey;
    forall k | k in latest
      ensures KeyOf(VersionKey(k, latest[k].versionId)) == k
    {
      SplitVersionKey(k, latest[k].versionId);
    }
  }

  lemma RemoveLastKeepsCoherence(
    latest: map<Bytes, ObjectMeta>, vs: map<Bytes, ObjectMeta>, removed: Bytes, clock: int, key: Bytes)
    requires Coherent(latest, vs, clock) && NoNul(key)
    requires Split(removed).Some? && KeyOf(removed) == key
    requires forall vk {:trigger KeyOf(vk)} :: vk in vs && vk != removed ==> KeyOf(vk) != key
    ensures Coherent(latest - {key}, vs - {removed}, clock)
  {
    hide Split, VersionKey;
    forall k | k in latest
      ensures KeyOf(VersionKey(k, latest[k].versionId)) == k
    {
      SplitVersionKey(k, latest[k].versionId);
    }
  }

  lemma CoherentIsWellKeyed(latest: map<Bytes, ObjectMeta>, vs: map<Bytes, ObjectMeta>, clock: int)
    requires Coherent(latest, vs, clock)
    ensures WellKeyed(vs)
    ensures forall vk :: vk in vs ==> KeyOf(vk) in latest && KeyOf(vk) != []
  {
  }

  lemma DeleteVersionKeepsCoherence(
    latest: map<Bytes, ObjectMeta>, vs: map<Bytes, ObjectMeta>, clock: int, key: Bytes, versionId: Bytes)
    requires Coherent(latest, vs, clock) && NoNul(key)
    ensures var after := DeleteVersion(latest, vs, key, versionId); Coherent(after.0, after.1, clock)
  {
    hide RecordsOf, Split, VersionKey, IsNewest, Coherent;
    var removed := VersionKey(key, versionId);
    var rest := vs - {removed};
    SplitVersionKey(key, versionId);
    CoherentIsWellKeyed(latest, vs, clock);
    RecordsByKey(rest, key);
    if RecordsOf(rest, key) == {} {
      RemoveLastKeepsCoherence(latest, vs, removed, clock, key);
    } else {
      NewestRecord(rest, key);
      PromoteKeepsCoherence(latest, vs, removed, clock, key, Newest(rest, key));
    }
  }

  lemma DeleteTouches(db: Db, bucket: Bytes, key: Bytes, versionId: Bytes)
    ensures var d := Committed(db, DeleteObjectTx(db, bucket, key, versionId));
      && d.buckets == db.buckets && d.objects.Keys == db.objects.Keys && d.versions.Keys == db.versions.Keys
      && forall b :: b != bucket || b !in db.objects ==>
           ObjectsOf(d, b) == ObjectsOf(db, b) && VersionsOf(d, b) == VersionsOf(db, b)
  {
    hide RecordsOf, DeleteVersion, VersionKey;
    var d := Committed(db, DeleteObjectTx(db, bucket, key, versionId));
    if bucket in db.objects {
      assert d.objects.Keys == db.objects.Keys;
      assert d.versions.Keys == db.versions.Keys;
    }
  }

  lemma DeleteStepKeepsCoherence(db: Db, clock: int, bucket: Bytes, key: Bytes, versionId: Bytes)
    requires NoNul(key) && bucket in db.objects
    requires Coherent(ObjectsOf(db, bucket), VersionsOf(db, bucket), clock)
    ensures DeleteObjectTx(db, bucket, key, versionId).Ok?
    ensures var d := DeleteObjectTx(db, bucket, key, versionId).value;
      Coherent(ObjectsOf(d, bucket), VersionsOf(d, bucket), clock)
  {
    hide Coherent, RecordsOf, DeleteVersion;
    var latest, vs := ObjectsOf(db, bucket), VersionsOf(db, bucket);
    if versionId == [] {
      DeleteAllKeepsCoherence(latest, vs, clock, key);
      if bucket !in db.versions {
        assert vs - RecordsOf(vs, key) == vs;
      }
    } else {
      DeleteVersionKeepsCoherence(latest, vs, clock, key, versionId);
    }
  }

  lemma StepKeepsInvariant(db: Db, clock: int, op: StoreOp)
    requires StoreInv(db, clock) && Legal(op, clock)
    ensures StoreInv(Committed(db, Perform(db, op)), Tick(clock, op))
  {
    hide Coherent, DeleteObjectTx, VersionKey;
    var d := Committed(db, Perform(db, op));
    assert d.buckets.Keys == d.objects.Keys by { if op.Delete? { DeleteTouches(db, op.bucket, op.key, op.versionId); } }
    forall b: Bytes
      ensures Coherent(ObjectsOf(d, b), VersionsOf(d, b), Tick(clock, op))
    {
      assert Coherent(ObjectsOf(db, b), VersionsOf(db, b), clock);
      LaterIsCoherent(ObjectsOf(db, b), VersionsOf(db, b), clock, Tick(clock, op));
      match op
      case Put(bucket, key, meta) =>
        if b == bucket && bucket in db.objects && key != [] {
          PutKeepsCoherence(db.objects[b], VersionsOf(db, b), clock, key, meta);
        }
      case Delete(bucket, key, versionId) =>
        DeleteTouches(db, bucket, key, versionId);
        if b == bucket && bucket in db.objects {
          DeleteStepKeepsCoherence(db, clock, bucket, key, versionId);
        }
      case _ =>
    }
  }

  /** Coherence holds after every legal run. */
  lemma {:induction false} RunKeepsInvariant(db: Db, clock: int, ops: seq<StoreOp>)
    requires StoreInv(db, clock) && LegalRun(clock, ops)
    decreases |ops|
    ensures StoreInv(Run(db, ops), RunClock(clock, ops))
  {
    if ops != [] {
      StepKeepsInvariant(db, clock, ops[0]);
      RunKeepsInvariant(Committed(db, Perform(db, ops[0])), Tick(clock, ops[0]), ops[1..]);
    }
  }

  /**
   * A bucket that can be deleted has no version records left, in any state a run
   * from the empty database reaches, though the deletion looks at the latest map only.
   */
  lemma DeletableBucketHasNoVersions(clock: int, ops: seq<StoreOp>, name: Bytes)
    requires LegalRun(clock, ops)
    requires DeleteBucketTx(Run(EMPTY_DB, ops), name).Ok?
    ensures VersionsOf(Run(EMPTY_DB, ops), name) == map[]
  {
    var db := Run(EMPTY_DB, ops);
    assert StoreInv(EMPTY_DB, clock);
    RunKeepsInvariant(EMPTY_DB, clock, ops);
    assert Coherent(ObjectsOf(db, name), VersionsOf(db, name), RunClock(clock, ops));
    CoherentIsWellKeyed(ObjectsOf(db, name), VersionsOf(db, name), RunClock(clock, ops));
  }

  /** Equal records up to the flag that marks the latest one. */
  ghost predicate SameButFlag(a: ObjectMeta, b: ObjectMeta) {
    a == b || a == b.(isLatest := true)
  }

  /** Deleting a version removes its record and changes no other record but for the flag. */
  lemma DeleteVersionKeepsOthers(
    latest: map<Bytes, ObjectMeta>, vs: map<Bytes, ObjectMeta>, key: Bytes, versionId: Bytes)
    requires WellKeyed(vs) && NoNul(key)
    ensures var after := DeleteVersion(latest, vs, key, versionId).1;
      && after.Keys == vs.Keys - {VersionKey(key, versionId)}
      && forall vk :: vk in after ==> SameButFlag(after[vk], vs[vk])
  {
    hide Split, VersionKey, RecordsOf, IsNewest;
    var rest := vs - {VersionKey(key, versionId)};
    if RecordsOf(rest, key) != {} {
      NewestRecord(rest, key);
      RecordsByKey(rest, key);
    }
  }

  // ----- keys that hold a NUL -----

  /**
   * Under ids without NUL, the records the store takes for a key's are those of the key
   * and of its extensions by a NUL.
   */
  lemma PrefixReaches(key: Bytes, k: Bytes, v: Bytes)
    requires NoNul(v)
    ensures HasPrefix(VersionKey(k, v), key + [NUL]) <==> k == key || HasPrefix(k, key + [NUL])
  {
    var vk, p := VersionKey(k, v), key + [NUL];
    if |k| < |key| < |vk| { assert vk[|key|] == v[|key| - |k| - 1]; }
    if HasPrefix(vk, p) {
      assert vk[|key|] == vk[..|p|][|key|] == NUL;
      assert vk[..|key|] == vk[..|p|][..|key|] == key;
      if |key| == |k| {
        assert vk[..|k|] == k;
      } else {
        assert k[..|p|] == vk[..|p|];
      }
    }
    if k == key { assert vk[..|p|] == p; }
    if HasPrefix(k, p) { assert vk[..|p|] == k[..|p|]; }
  }

  /** Each record is stored under its owner's key and its own id. */
  ghost predicate Owned(vs: map<Bytes, ObjectMeta>, owner: map<Bytes, Bytes>) {
    forall vk :: vk in vs ==>
      vk in owner && NoNul(vs[vk].versionId) && vk == VersionKey(owner[vk], vs[vk].versionId)
  }

  /**
   * The store takes another key's record for one of `key` exactly when the bucket
   * holds a record of a key that starts with `key` and a NUL.
   */
  lemma ForeignRecords(vs: map<Bytes, ObjectMeta>, owner: map<Bytes, Bytes>, key: Bytes)
    requires Owned(vs, owner)
    ensures (exists vk :: vk in RecordsOf(vs, key) && owner[vk] != key) <==>
      exists vk :: vk in vs && HasPrefix(owner[vk], key + [NUL])
  {
    hide VersionKey, HasPrefix, NoNul;
    forall vk | vk in vs
      ensures vk in RecordsOf(vs, key) <==> owner[vk] == key || HasPrefix(owner[vk], key + [NUL])
      ensures HasPrefix(owner[vk], key + [NUL]) ==> owner[vk] != key
    {
      PrefixReaches(key, owner[vk], vs[vk].versionId);
      LongerPrefix(owner[vk], key);
    }
  }

  lemma LongerPrefix(k: Bytes, key: Bytes)
    ensures HasPrefix(k, key + [NUL]) ==> k != key
  {
  }

  /**
   * In every database: deleting "a" takes all versions of "a\0b" with it, and leaves
   * what the latest map has of "a\0b" as an entry without a record.
   */
  lemma NulKeyBreaksCoherence(db: Db, bucket: Bytes, a: Bytes, b: Bytes)
    requires bucket in db.objects
    ensures var ab := a + [NUL] + b; var after := DeleteObjectTx(db, bucket, a, []);
      && after.Ok?
      && RecordsOf(VersionsOf(after.value, bucket), ab) == {}
      && (ab in ObjectsOf(db, bucket) ==>
            ab in ObjectsOf(after.value, bucket) && ObjectsOf(after.value, bucket)[ab] == ObjectsOf(db, bucket)[ab])
  {
    var ab := a + [NUL] + b;
    assert |ab| > |a|;
    forall vk | HasPrefix(vk, ab + [NUL])
      ensures HasPrefix(vk, a + [NUL])
    {
      assert (ab + [NUL])[..|a| + 1] == a + [NUL];
      assert vk[..|a| + 1] == vk[..|ab| + 1][..|a| + 1];
    }
  }
}
