/** One expiration pass: a paged scan that deletes from the store it is scanning. */
module Lifecycle {
  import opened Backend
  import opened BackendModel
  import opened ByteStrings
  import opened Coherence
  import opened Listing
  import opened ObjectTypes
  import opened Outcomes
  import opened Paths
  import opened StoreModel
  import opened VersionKeys
  import opened VersionListing
  import opened VersionPaging

  const MAX_KEYS := 10000

  /** Every record has a version id. */
  ghost predicate Numbered(d: Disk, bucket: Bytes) {
    forall vk :: vk in VersionsOf(d.db, bucket) ==> VersionsOf(d.db, bucket)[vk].versionId != []
  }

  /** A bucket that never had versioning: no record has a version id. */
  ghost predicate Plain(d: Disk, bucket: Bytes) {
    && bucket in d.db.buckets && !Versioned(d.db.buckets[bucket])
    && forall vk :: vk in VersionsOf(d.db, bucket) ==> VersionsOf(d.db, bucket)[vk].versionId == []
  }

  /** What a pass needs of a bucket, and keeps: coherent maps, and version ids everywhere or nowhere. */
  ghost predicate Ready(d: Disk, bucket: Bytes, clock: int) {
    && bucket in d.db.objects
    && Coherent(ObjectsOf(d.db, bucket), VersionsOf(d.db, bucket), clock)
    && (Numbered(d, bucket) || Plain(d, bucket))
  }

  /** A record the pass may remove: under the prefix, too old, and unlocked at some moment of the pass. */
  ghost predicate Expired(vk: Bytes, m: ObjectMeta, prefix: Bytes, cutoff: int, times: nat -> int) {
    && Split(vk).Some? && HasPrefix(KeyOf(vk), prefix) && m.lastModified < cutoff
    && exists n :: !Locked(m, times(n))
  }

  /**
   * The records only shrank, by expired and unlocked ones; the others kept all but the latest
   * flag. Files only went with their records, and no other bucket changed.
   */
  ghost predicate OnlyExpired(before: Disk, after: Disk, bucket: Bytes, prefix: Bytes, cutoff: int, times: nat -> int) {
    var vb, va := VersionsOf(before.db, bucket), VersionsOf(after.db, bucket);
    && after.db.buckets == before.db.buckets && after.db.objects.Keys == before.db.objects.Keys
    && (bucket in after.db.versions <==> bucket in before.db.versions)
    && (forall b :: b != bucket ==>
          ObjectsOf(after.db, b) == ObjectsOf(before.db, b) && VersionsOf(after.db, b) == VersionsOf(before.db, b))
    && after.db.uploads == before.db.uploads && after.db.parts == before.db.parts
    && va.Keys <= vb.Keys
    && (forall vk :: vk in va ==> SameButFlag(va[vk], vb[vk]))
    && (forall vk :: vk in vb && vk !in va ==> Expired(vk, vb[vk], prefix, cutoff, times))
    && FilesGo(before.files, after.files, vb, va, bucket) && FilesGo(before.partFiles, after.partFiles, vb, va, bucket)
  }

  /** No file changes, and only those at the paths of removed records go. */
  ghost predicate FilesGo(
    before: map<Path, Bytes>, after: map<Path, Bytes>, vb: map<Bytes, ObjectMeta>, va: map<Bytes, ObjectMeta>,
    bucket: Bytes)
  {
    && (forall p :: p in after ==> p in before && after[p] == before[p])
    && forall p :: p in before && p !in after ==> FileOfRemoved(vb, va, bucket, p)
  }

  ghost predicate FileOfRemoved(before: map<Bytes, ObjectMeta>, after: map<Bytes, ObjectMeta>, bucket: Bytes, p: Path) {
    exists vk ::
      vk in before && vk !in after && Split(vk).Some? && p == FilePath(bucket, KeyOf(vk), before[vk].versionId)
  }

  lemma NothingExpired(d: Disk, bucket: Bytes, prefix: Bytes, cutoff: int, times: nat -> int)
    ensures OnlyExpired(d, d, bucket, prefix, cutoff, times)
  {
  }

  lemma ExpiredEarlier(vk: Bytes, m: ObjectMeta, later: ObjectMeta, prefix: Bytes, cutoff: int, times: nat -> int)
    requires SameButFlag(later, m) && Expired(vk, later, prefix, cutoff, times)
    ensures Expired(vk, m, prefix, cutoff, times)
  {
    var n :| !Locked(later, times(n));
    assert !Locked(m, times(n));
  }

  lemma OnlyExpiredTransitive(a: Disk, b: Disk, c: Disk, bucket: Bytes, prefix: Bytes, cutoff: int, times: nat -> int)
    requires OnlyExpired(a, b, bucket, prefix, cutoff, times) && OnlyExpired(b, c, bucket, prefix, cutoff, times)
    ensures OnlyExpired(a, c, bucket, prefix, cutoff, times)
  {
    hide Split, HasPrefix, FilesGo, Expired;
    var va, vb, vc := VersionsOf(a.db, bucket), VersionsOf(b.db, bucket), VersionsOf(c.db, bucket);
    forall vk | vk in va && vk !in vc
      ensures Expired(vk, va[vk], prefix, cutoff, times)
    {
      if vk in vb { ExpiredEarlier(vk, va[vk], vb[vk], prefix, cutoff, times); }
    }
    FilesGoOn(a.files, b.files, c.files, va, vb, vc, bucket);
    FilesGoOn(a.partFiles, b.partFiles, c.partFiles, va, vb, vc, bucket);
  }

  lemma FilesGoOn(
    fa: map<Path, Bytes>, fb: map<Path, Bytes>, fc: map<Path, Bytes>,
    va: map<Bytes, ObjectMeta>, vb: map<Bytes, ObjectMeta>, vc: map<Bytes, ObjectMeta>, bucket: Bytes)
    requires vc.Keys <= vb.Keys <= va.Keys && forall vk :: vk in vb ==> SameButFlag(vb[vk], va[vk])
    requires FilesGo(fa, fb, va, vb, bucket) && FilesGo(fb, fc, vb, vc, bucket)
    ensures FilesGo(fa, fc, va, vc, bucket)
  {
    hide FileOfRemoved;
    forall p | p in fa && p !in fc
      ensures FileOfRemoved(va, vc, bucket, p)
    {
      if p in fb {
        RemovedEarlier(va, vb, vc, bucket, p);
      } else {
        RemovedLater(va, vb, vc, bucket, p);
      }
    }
  }

  lemma RemovedEarlier(
    va: map<Bytes, ObjectMeta>, vb: map<Bytes, ObjectMeta>, vc: map<Bytes, ObjectMeta>, bucket: Bytes, p: Path)
    requires vb.Keys <= va.Keys && FileOfRemoved(vb, vc, bucket, p)
    requires forall vk :: vk in vb ==> SameButFlag(vb[vk], va[vk])
    ensures FileOfRemoved(va, vc, bucket, p)
  {
    hide Split, FilePath;
    var vk :| vk in vb && vk !in vc && Split(vk).Some? && p == FilePath(bucket, KeyOf(vk), vb[vk].versionId);
    assert va[vk].versionId == vb[vk].versionId;
  }

  lemma RemovedLater(
    va: map<Bytes, ObjectMeta>, vb: map<Bytes, ObjectMeta>, vc: map<Bytes, ObjectMeta>, bucket: Bytes, p: Path)
    requires vc.Keys <= vb.Keys && FileOfRemoved(va, vb, bucket, p)
    ensures FileOfRemoved(va, vc, bucket, p)
  {
    hide Split, FilePath;
  }

  /** Dealt with: gone from the store, too young, or locked at some moment of the pass. */
  ghost predicate DealtWith(d: Disk, bucket: Bytes, vk: Bytes, cutoff: int, times: nat -> int) {
    var vs := VersionsOf(d.db, bucket);
    vk in vs ==> vs[vk].lastModified >= cutoff || exists n :: Locked(vs[vk], times(n))
  }

  lemma StaysDealtWith(a: Disk, b: Disk, bucket: Bytes, prefix: Bytes, vk: Bytes, cutoff: int, times: nat -> int)
    requires OnlyExpired(a, b, bucket, prefix, cutoff, times) && DealtWith(a, bucket, vk, cutoff, times)
    ensures DealtWith(b, bucket, vk, cutoff, times)
  {
    var va, vb := VersionsOf(a.db, bucket), VersionsOf(b.db, bucket);
    if vk in vb && vb[vk].lastModified < cutoff {
      var n :| Locked(va[vk], times(n));
      assert Locked(vb[vk], times(n));
    }
  }

  /** One delete of the pass, of an entry of the listing that has expired. */
  lemma DeleteExpires(
    d: Disk, bucket: Bytes, clock: int, prefix: Bytes, cutoff: int, info: ObjectInfo, times: nat -> int, n: nat)
    requires Ready(d, bucket, clock) && Listable(d, bucket, prefix, info) && info.lastModified < cutoff
    ensures var after := DeleteObjectAfter(d, bucket, info.key, info.versionId, Stamp(times(n), [])).0;
      && Ready(after, bucket, clock) && OnlyExpired(d, after, bucket, prefix, cutoff, times)
      && DealtWith(after, bucket, VersionKey(info.key, info.versionId), cutoff, times)
      && VersionsOf(d.db, bucket).Keys - {VersionKey(info.key, info.versionId)} <= VersionsOf(after.db, bucket).Keys
  {
    hide Split, VersionKey, HasPrefix, Coherent, DeleteObjectTx, NoNul, OnlyExpired, Erase;
    var vk := VersionKey(info.key, info.versionId);
    var m := VersionsOf(d.db, bucket)[vk];
    DeleteOfEntry(d, bucket, clock, prefix, info, Stamp(times(n), []));
    if Locked(m, times(n)) {
      NothingExpired(d, bucket, prefix, cutoff, times);
    } else {
      EraseExpires(d, bucket, clock, prefix, cutoff, info, times, n);
      StaysCounted(d, Erase(d, bucket, info.key, info.versionId), bucket, prefix, cutoff, times);
    }
  }

  /** What is locked, or erased, is the listed record, also when it has no id. */
  lemma DeleteOfEntry(d: Disk, bucket: Bytes, clock: int, prefix: Bytes, info: ObjectInfo, stamp: Stamp)
    requires Ready(d, bucket, clock) && Listable(d, bucket, prefix, info)
    ensures DeleteObjectAfter(d, bucket, info.key, info.versionId, stamp) ==
      if Locked(VersionsOf(d.db, bucket)[VersionKey(info.key, info.versionId)], stamp.now) then (d, Some(AccessDenied))
      else (Erase(d, bucket, info.key, info.versionId), None)
  {
    hide Split, VersionKey, HasPrefix, NoNul, Erase, Coherent;
    if info.versionId == [] { PlainLatest(d, bucket, clock, info.key); }
  }

  lemma PlainLatest(d: Disk, bucket: Bytes, clock: int, key: Bytes)
    requires Coherent(ObjectsOf(d.db, bucket), VersionsOf(d.db, bucket), clock) && NoNul(key) && bucket in d.db.objects
    requires Plain(d, bucket) && VersionKey(key, []) in VersionsOf(d.db, bucket)
    ensures key in d.db.objects[bucket] && d.db.objects[bucket][key] == VersionsOf(d.db, bucket)[VersionKey(key, [])]
  {
    hide Split, VersionKey, NoNul;
    SplitVersionKey(key, []);
    assert KeyOf(VersionKey(key, [])) == key;
  }

  lemma EraseExpires(
    d: Disk, bucket: Bytes, clock: int, prefix: Bytes, cutoff: int, info: ObjectInfo, times: nat -> int, n: nat)
    requires Ready(d, bucket, clock) && Listable(d, bucket, prefix, info) && info.lastModified < cutoff
    requires !Locked(VersionsOf(d.db, bucket)[VersionKey(info.key, info.versionId)], times(n))
    ensures var after := Erase(d, bucket, info.key, info.versionId);
      && after.db == Committed(d.db, DeleteObjectTx(d.db, bucket, info.key, info.versionId))
      && bucket in after.db.objects && Coherent(ObjectsOf(after.db, bucket), VersionsOf(after.db, bucket), clock)
      && OnlyExpired(d, after, bucket, prefix, cutoff, times)
      && VersionsOf(after.db, bucket).Keys == VersionsOf(d.db, bucket).Keys - {VersionKey(info.key, info.versionId)}
  {
    hide Split, VersionKey, HasPrefix, FilePath, Coherent, DeleteObjectTx, NoNul, FilesGo, FileOfRemoved, Unlink;
    var vk := VersionKey(info.key, info.versionId);
    var vs := VersionsOf(d.db, bucket);
    CoherentIsWellKeyed(ObjectsOf(d.db, bucket), vs, clock);
    DeleteStepKeepsCoherence(d.db, clock, bucket, info.key, info.versionId);
    DeleteTouches(d.db, bucket, info.key, info.versionId);
    if info.versionId == [] {
      PlainShrinks(d, bucket, info.key);
    } else {
      EraseShrinks(d, bucket, info.key, info.versionId);
    }
    SplitVersionKey(info.key, info.versionId);
    assert vs[vk].lastModified == info.lastModified;
    UnlinkTakesOne(Committed(d.db, DeleteObjectTx(d.db, bucket, info.key, info.versionId)), d, bucket, info);
  }

  lemma StaysCounted(a: Disk, b: Disk, bucket: Bytes, prefix: Bytes, cutoff: int, times: nat -> int)
    requires OnlyExpired(a, b, bucket, prefix, cutoff, times)
    ensures Numbered(a, bucket) ==> Numbered(b, bucket)
    ensures Plain(a, bucket) ==> Plain(b, bucket)
  {
    hide FilesGo, Expired;
  }

  /** Without ids a delete takes the key's only record. */
  lemma PlainShrinks(d: Disk, bucket: Bytes, key: Bytes)
    requires bucket in d.db.objects && WellKeyed(VersionsOf(d.db, bucket)) && NoNul(key) && Plain(d, bucket)
    ensures var db := Committed(d.db, DeleteObjectTx(d.db, bucket, key, []));
      var vs, rest := VersionsOf(d.db, bucket), VersionsOf(db, bucket);
      && rest.Keys == vs.Keys - {VersionKey(key, [])}
      && (forall vk :: vk in rest ==> SameButFlag(rest[vk], vs[vk]))
      && db.uploads == d.db.uploads && db.parts == d.db.parts
  {
    hide Split, VersionKey, RecordsOf;
    var vs := VersionsOf(d.db, bucket);
    RecordsByKey(vs, key);
    forall vk | vk in vs
      ensures vk in RecordsOf(vs, key) <==> vk == VersionKey(key, [])
    {
      SplitVersionKey(key, []);
      assert vk == VersionKey(KeyOf(vk), []);
    }
  }

  lemma UnlinkTakesOne(db: Db, d: Disk, bucket: Bytes, info: ObjectInfo)
    requires var vk, vs := KeyOfInfo(info), VersionsOf(d.db, bucket);
      && NoNul(info.key) && vk in vs && vk !in VersionsOf(db, bucket) && vs[vk].versionId == info.versionId
    ensures var vs, rest := VersionsOf(d.db, bucket), VersionsOf(db, bucket);
      var after := Unlink(d.(db := db), FilePath(bucket, info.key, info.versionId));
      && after.db == db
      && FilesGo(d.files, after.files, vs, rest, bucket) && FilesGo(d.partFiles, after.partFiles, vs, rest, bucket)
  {
    hide Split, VersionKey, FilePath, NoNul;
    SplitVersionKey(info.key, info.versionId);
    assert FileOfRemoved(VersionsOf(d.db, bucket), VersionsOf(db, bucket), bucket,
      FilePath(bucket, info.key, info.versionId));
  }

  /** The entry describes a record that is still in the store, up to its flag. */
  ghost predicate Listable(d: Disk, bucket: Bytes, prefix: Bytes, info: ObjectInfo) {
    var vs := VersionsOf(d.db, bucket);
    && NoNul(info.key) && HasPrefix(info.key, prefix)
    && VersionKey(info.key, info.versionId) in vs
    && info.lastModified == vs[VersionKey(info.key, info.versionId)].lastModified
    && info.versionId == vs[VersionKey(info.key, info.versionId)].versionId
  }

  lemma EraseShrinks(d: Disk, bucket: Bytes, key: Bytes, versionId: Bytes)
    requires bucket in d.db.objects && WellKeyed(VersionsOf(d.db, bucket)) && NoNul(key) && versionId != []
    ensures var db := Committed(d.db, DeleteObjectTx(d.db, bucket, key, versionId));
      var vs, rest := VersionsOf(d.db, bucket), VersionsOf(db, bucket);
      && rest.Keys == vs.Keys - {VersionKey(key, versionId)}
      && (forall vk :: vk in rest ==> SameButFlag(rest[vk], vs[vk]))
      && db.uploads == d.db.uploads && db.parts == d.db.parts
  {
    hide VersionKey, DeleteVersion, RecordsOf, WellKeyed;
    if bucket in d.db.versions {
      DeleteVersionKeepsOthers(d.db.objects[bucket], VersionsOf(d.db, bucket), key, versionId);
    }
  }

  function KeyOfInfo(info: ObjectInfo): Bytes {
    VersionKey(info.key, info.versionId)
  }

  function KeysOfInfos(infos: seq<ObjectInfo>): set<Bytes> {
    set i | 0 <= i < |infos| :: KeyOfInfo(infos[i])
  }

  ghost predicate DistinctEntries(infos: seq<ObjectInfo>) {
    forall i, j :: 0 <= i < j < |infos| ==> KeyOfInfo(infos[i]) != KeyOfInfo(infos[j])
  }

  ghost predicate AllListable(d: Disk, bucket: Bytes, prefix: Bytes, infos: seq<ObjectInfo>) {
    forall i :: 0 <= i < |infos| ==> Listable(d, bucket, prefix, infos[i])
  }

  /** An entry stays listable while its record stays in the store. */
  lemma StaysListable(a: Disk, b: Disk, bucket: Bytes, prefix: Bytes, cutoff: int, times: nat -> int, info: ObjectInfo)
    requires OnlyExpired(a, b, bucket, prefix, cutoff, times) && Listable(a, bucket, prefix, info)
    requires KeyOfInfo(info) in VersionsOf(b.db, bucket)
    ensures Listable(b, bucket, prefix, info)
  {
    hide VersionKey, HasPrefix, NoNul, Split, FilePath, FileOfRemoved;
  }

  /** The loop over one list of a page: deletes its expired entries. */
  method ExpireEntries(
    b: LocalBackend, bucket: Bytes, infos: seq<ObjectInfo>, cutoff: int, times: nat -> int, first: nat,
    ghost prefix: Bytes, ghost clock: int)
    returns (n: nat)
    requires Ready(b.Contents(), bucket, clock) && AllListable(b.Contents(), bucket, prefix, infos)
    requires DistinctEntries(infos)
    modifies b, b.meta
    ensures Ready(b.Contents(), bucket, clock)
    ensures OnlyExpired(old(b.Contents()), b.Contents(), bucket, prefix, cutoff, times)
    ensures forall vk :: vk in KeysOfInfos(infos) ==> DealtWith(b.Contents(), bucket, vk, cutoff, times)
    ensures
      VersionsOf(old(b.Contents()).db, bucket).Keys - KeysOfInfos(infos) <= VersionsOf(b.Contents().db, bucket).Keys
  {
    hide Ready, OnlyExpired, DealtWith, Listable, KeyOfInfo, DeleteObjectAfter;
    n := first;
    ghost var start := b.Contents();
    NothingExpired(start, bucket, prefix, cutoff, times);
    var i := 0;
    while i < |infos|
      invariant i <= |infos| && Ready(b.Contents(), bucket, clock)
      invariant OnlyExpired(start, b.Contents(), bucket, prefix, cutoff, times)
      invariant forall j :: 0 <= j < i ==> DealtWith(b.Contents(), bucket, KeyOfInfo(infos[j]), cutoff, times)
      invariant forall j :: i <= j < |infos| ==> Listable(b.Contents(), bucket, prefix, infos[j])
      invariant VersionsOf(start.db, bucket).Keys - KeysOfInfos(infos) <= VersionsOf(b.Contents().db, bucket).Keys
    {
      var info := infos[i];
      ghost var before := b.Contents();
      if info.lastModified < cutoff {
        var e := b.DeleteObject(bucket, info.key, info.versionId, Stamp(times(n), []));
        EntryExpires(before, bucket, clock, prefix, cutoff, infos, i, times, n);
        n := n + 1;
      } else {
        EntryIsYoung(before, bucket, clock, prefix, cutoff, infos, i, times);
      }
      OnlyExpiredTransitive(start, before, b.Contents(), bucket, prefix, cutoff, times);
      i := i + 1;
    }
  }

  lemma EntryExpires(
    d: Disk, bucket: Bytes, clock: int, prefix: Bytes, cutoff: int, infos: seq<ObjectInfo>, i: nat,
    times: nat -> int, n: nat)
    requires Ready(d, bucket, clock) && DistinctEntries(infos) && i < |infos| && infos[i].lastModified < cutoff
    requires forall j :: i <= j < |infos| ==> Listable(d, bucket, prefix, infos[j])
    ensures var after := DeleteObjectAfter(d, bucket, infos[i].key, infos[i].versionId, Stamp(times(n), [])).0;
      && Ready(after, bucket, clock) && OnlyExpired(d, after, bucket, prefix, cutoff, times)
      && DealtWith(after, bucket, KeyOfInfo(infos[i]), cutoff, times)
      && (forall vk :: DealtWith(d, bucket, vk, cutoff, times) ==> DealtWith(after, bucket, vk, cutoff, times))
      && (forall j :: i < j < |infos| ==> Listable(after, bucket, prefix, infos[j]))
      && VersionsOf(d.db, bucket).Keys - KeysOfInfos(infos) <= VersionsOf(after.db, bucket).Keys
  {
    hide Ready, OnlyExpired, DealtWith, DeleteObjectAfter, VersionKey, HasPrefix, NoNul;
    DeleteExpires(d, bucket, clock, prefix, cutoff, infos[i], times, n);
    var after := DeleteObjectAfter(d, bucket, infos[i].key, infos[i].versionId, Stamp(times(n), [])).0;
    forall vk | DealtWith(d, bucket, vk, cutoff, times)
      ensures DealtWith(after, bucket, vk, cutoff, times)
    {
      StaysDealtWith(d, after, bucket, prefix, vk, cutoff, times);
    }
    forall j | i < j < |infos|
      ensures Listable(after, bucket, prefix, infos[j])
    {
      assert KeyOfInfo(infos[j]) != KeyOfInfo(infos[i]);
      StaysListable(d, after, bucket, prefix, cutoff, times, infos[j]);
    }
    assert KeyOfInfo(infos[i]) in KeysOfInfos(infos);
  }

  lemma EntryIsYoung(
    d: Disk, bucket: Bytes, clock: int, prefix: Bytes, cutoff: int, infos: seq<ObjectInfo>, i: nat, times: nat -> int)
    requires i < |infos| && infos[i].lastModified >= cutoff && Listable(d, bucket, prefix, infos[i])
    ensures DealtWith(d, bucket, KeyOfInfo(infos[i]), cutoff, times) && OnlyExpired(d, d, bucket, prefix, cutoff, times)
  {
    NothingExpired(d, bucket, prefix, cutoff, times);
  }

  // ----- what one page lists -----

  /** The markers of the next page are those of the last entry of the page before, if any. */
  ghost predicate MarkersAt(
    vs: map<Bytes, ObjectMeta>, prefix: Bytes, last: Option<ObjectInfo>, keyMarker: Bytes, versionMarker: Bytes)
  {
    match last
    case None => keyMarker == [] && versionMarker == []
    case Some(p) =>
      && keyMarker == p.key && versionMarker == p.versionId && keyMarker != [] && versionMarker != []
      && NoNul(keyMarker) && HasPrefix(keyMarker, prefix)
      && (VersionKey(keyMarker, versionMarker) in vs ==>
            vs[VersionKey(keyMarker, versionMarker)].lastModified == p.lastModified)
  }

  /** The records that the listing orders after an entry. */
  ghost function Ahead(vs: map<Bytes, ObjectMeta>, last: Option<ObjectInfo>): set<Bytes> {
    set vk | vk in vs && Split(vk).Some? && (last.Some? ==> Before(last.value, Info(KeyOf(vk), vs[vk])))
  }

  /** A record after the entry that ended the page before, of a later key unless that entry's record is still there. */
  ghost predicate Reached(vs: map<Bytes, ObjectMeta>, last: Option<ObjectInfo>, info: ObjectInfo) {
    last.Some? ==> Before(last.value, info) && (last.value.key == info.key ==> KeyOfInfo(last.value) in vs)
  }

  /** In order, describing records, after the entry before, and no record left out that can be reached. */
  ghost predicate Lists(vs: map<Bytes, ObjectMeta>, prefix: Bytes, last: Option<ObjectInfo>, items: seq<VersionItem>) {
    && Ordered(items)
    && (forall x :: x in items ==>
          x.Version? && Describes(vs, prefix, x.info) && (last.Some? ==> Before(last.value, x.info)))
    && forall info :: Describes(vs, prefix, info) && Reached(vs, last, info) ==> Version(info) in items
  }

  lemma PageLists(vs: map<Bytes, ObjectMeta>, prefix: Bytes, last: Option<ObjectInfo>, km: Bytes, vm: Bytes)
    requires WellKeyed(vs) && DistinctTimes(vs) && MarkersAt(vs, prefix, last, km, vm)
    ensures Lists(vs, prefix, last, Listed(vs, Query(prefix, [], km), vm))
  {
    hide Less, HasPrefix, NoNul, VersionKey, Listed, Ordered, Describes, WellKeyed, DistinctTimes;
    if last.None? {
      WholeVersionListing(vs, prefix);
    } else {
      ListedAfterMarkers(vs, prefix, km, vm);
      forall info | Describes(vs, prefix, info) && Reached(vs, last, info)
        ensures Version(info) in Listed(vs, Query(prefix, [], km), vm)
      {
        ReachedIsListed(vs, prefix, last, km, vm, info);
      }
    }
  }

  lemma ReachedIsListed(
    vs: map<Bytes, ObjectMeta>, prefix: Bytes, last: Option<ObjectInfo>, km: Bytes, vm: Bytes, info: ObjectInfo)
    requires WellKeyed(vs) && DistinctTimes(vs) && MarkersAt(vs, prefix, last, km, vm) && last.Some?
    requires Describes(vs, prefix, info) && Reached(vs, last, info)
    ensures Version(info) in Listed(vs, Query(prefix, [], km), vm)
  {
    hide Less, HasPrefix, NoNul, VersionKey, Listed, WellKeyed, DistinctTimes;
    if info.key == km {
      MarkerDecides(vs, prefix, km, vm, vs[VersionKey(info.key, info.versionId)]);
    } else {
      ListedAfterMarkersComplete(vs, prefix, km, vm, info);
    }
  }

  lemma {:induction false} InfosAt(items: seq<VersionItem>)
    requires forall x :: x in items ==> x.Version?
    ensures |InfosIn(items)| == |items| && forall j :: 0 <= j < |items| ==> InfosIn(items)[j] == items[j].info
  {
    if items != [] { InfosAt(items[..|items| - 1]); }
  }

  lemma {:induction false} OrderedAt(items: seq<VersionItem>, i: nat, j: nat)
    requires Ordered(items) && i < j < |items|
    ensures items[i].Version? && items[j].Version? && Before(items[i].info, items[j].info)
  {
    hide Before;
    if i > 0 {
      OrderedAt(items[1..], i - 1, j - 1);
    } else {
      assert items[j] == items[1..][j - 1];
      assert items[j] in items[1..];
    }
  }

  lemma BeforeIrreflexive(info: ObjectInfo)
    ensures !Before(info, info)
  {
    LessIrreflexive(info.key);
  }

  lemma BeforeTransitive(a: ObjectInfo, b: ObjectInfo, c: ObjectInfo)
    requires Before(a, b) && Before(b, c)
    ensures Before(a, c)
  {
    hide Less;
    if Less(a.key, b.key) && Less(b.key, c.key) { LessTransitive(a.key, b.key, c.key); }
  }

  /** The entries of a page: listable records, one entry each. */
  ghost predicate PageOf(vs: map<Bytes, ObjectMeta>, prefix: Bytes, infos: seq<ObjectInfo>) {
    && (forall i :: 0 <= i < |infos| ==> Describes(vs, prefix, infos[i]))
    && (forall i, j :: 0 <= i < j < |infos| ==> Before(infos[i], infos[j]))
  }

  lemma PageEntries(
    vs: map<Bytes, ObjectMeta>, prefix: Bytes, last: Option<ObjectInfo>, items: seq<VersionItem>,
    page: seq<VersionItem>)
    requires Lists(vs, prefix, last, items) && page <= items
    ensures PageOf(vs, prefix, InfosIn(page)) && |InfosIn(page)| == |page|
    ensures forall j :: 0 <= j < |page| ==> page[j].Version? && InfosIn(page)[j] == page[j].info
  {
    hide Before, Ordered, VersionKey, HasPrefix, NoNul;
    assert forall x :: x in page ==> x in items;
    InfosAt(page);
    forall i, j | 0 <= i < j < |page|
      ensures Before(InfosIn(page)[i], InfosIn(page)[j])
    {
      OrderedAt(items, i, j);
    }
  }

  lemma EntriesDiffer(vs: map<Bytes, ObjectMeta>, prefix: Bytes, a: ObjectInfo, b: ObjectInfo)
    requires Describes(vs, prefix, a) && Describes(vs, prefix, b) && Before(a, b)
    ensures KeyOfInfo(a) != KeyOfInfo(b)
  {
    hide Before, VersionKey, HasPrefix;
    if KeyOfInfo(a) == KeyOfInfo(b) {
      VersionKeyInjective(a.key, a.versionId, b.key, b.versionId);
      BeforeIrreflexive(a);
    }
  }

  lemma PageExtended(vs: map<Bytes, ObjectMeta>, prefix: Bytes, infos: seq<ObjectInfo>, x: ObjectInfo)
    ensures PageOf(vs, prefix, infos + [x]) <==>
      && PageOf(vs, prefix, infos) && Describes(vs, prefix, x)
      && forall y :: y in infos ==> Before(y, x)
  {
    hide Before, Describes;
    var longer := infos + [x];
    assert longer[|infos|] == x;
    if PageOf(vs, prefix, longer) {
      forall i | 0 <= i < |infos|
        ensures infos[i] == longer[i] && Before(infos[i], x)
      {
      }
    }
  }

  lemma {:induction false} LiveAndDead(vs: map<Bytes, ObjectMeta>, prefix: Bytes, infos: seq<ObjectInfo>)
    requires PageOf(vs, prefix, infos)
    ensures PageOf(vs, prefix, Live(infos)) && PageOf(vs, prefix, Dead(infos))
    ensures forall x :: x in Live(infos) <==> x in infos && !x.isDeleteMarker
    ensures forall x :: x in Dead(infos) <==> x in infos && x.isDeleteMarker
  {
    hide Before, Describes, PageOf;
    if infos != [] {
      var front, x := infos[..|infos| - 1], infos[|infos| - 1];
      assert infos == front + [x];
      PageExtended(vs, prefix, front, x);
      LiveAndDead(vs, prefix, front);
      PageExtended(vs, prefix, Live(front), x);
      PageExtended(vs, prefix, Dead(front), x);
      assert Live(front) + [] == Live(front) && Dead(front) + [] == Dead(front);
    } else {
      assert Live(infos) == infos && Dead(infos) == infos;
    }
  }

  lemma PageIsListable(d: Disk, bucket: Bytes, prefix: Bytes, infos: seq<ObjectInfo>)
    requires PageOf(VersionsOf(d.db, bucket), prefix, infos)
    ensures AllListable(d, bucket, prefix, infos) && DistinctEntries(infos)
  {
    hide Before, VersionKey, HasPrefix, NoNul;
    forall i, j | 0 <= i < j < |infos|
      ensures KeyOfInfo(infos[i]) != KeyOfInfo(infos[j])
    {
      EntriesDiffer(VersionsOf(d.db, bucket), prefix, infos[i], infos[j]);
    }
  }

  /** A live entry and a delete marker describe different records. */
  lemma LiveIsNotDead(vs: map<Bytes, ObjectMeta>, prefix: Bytes, a: ObjectInfo, b: ObjectInfo)
    requires Describes(vs, prefix, a) && Describes(vs, prefix, b) && !a.isDeleteMarker && b.isDeleteMarker
    ensures KeyOfInfo(a) != KeyOfInfo(b)
  {
    hide VersionKey, HasPrefix;
    VersionKeyInjective(a.key, a.versionId, b.key, b.versionId);
  }

  lemma DeadStayListable(
    a: Disk, b: Disk, bucket: Bytes, prefix: Bytes, cutoff: int, times: nat -> int, all: seq<ObjectInfo>)
    requires OnlyExpired(a, b, bucket, prefix, cutoff, times) && PageOf(VersionsOf(a.db, bucket), prefix, all)
    requires VersionsOf(a.db, bucket).Keys - KeysOfInfos(Live(all)) <= VersionsOf(b.db, bucket).Keys
    ensures AllListable(b, bucket, prefix, Dead(all)) && DistinctEntries(Dead(all))
  {
    hide OnlyExpired, Describes, Listable, Before, KeyOfInfo;
    LiveAndDead(VersionsOf(a.db, bucket), prefix, all);
    PageIsListable(a, bucket, prefix, Dead(all));
    var live, dead := Live(all), Dead(all);
    forall i | 0 <= i < |dead|
      ensures Listable(b, bucket, prefix, dead[i])
    {
      forall j | 0 <= j < |live|
        ensures KeyOfInfo(live[j]) != KeyOfInfo(dead[i])
      {
        LiveIsNotDead(VersionsOf(a.db, bucket), prefix, live[j], dead[i]);
      }
      ListableIsStored(a, bucket, prefix, dead[i]);
      StaysListable(a, b, bucket, prefix, cutoff, times, dead[i]);
    }
  }

  lemma ListableIsStored(d: Disk, bucket: Bytes, prefix: Bytes, info: ObjectInfo)
    requires Listable(d, bucket, prefix, info)
    ensures KeyOfInfo(info) in VersionsOf(d.db, bucket)
  {
  }

  lemma AllDealtWith(
    a: Disk, b: Disk, bucket: Bytes, prefix: Bytes, cutoff: int, times: nat -> int, all: seq<ObjectInfo>, i: nat)
    requires OnlyExpired(a, b, bucket, prefix, cutoff, times) && i < |all|
    requires all[i] in Live(all) || all[i] in Dead(all)
    requires forall vk :: vk in KeysOfInfos(Live(all)) ==> DealtWith(a, bucket, vk, cutoff, times)
    requires forall vk :: vk in KeysOfInfos(Dead(all)) ==> DealtWith(b, bucket, vk, cutoff, times)
    ensures DealtWith(b, bucket, KeyOfInfo(all[i]), cutoff, times)
  {
    hide OnlyExpired, DealtWith, KeyOfInfo;
    if all[i] in Live(all) {
      var j :| 0 <= j < |Live(all)| && Live(all)[j] == all[i];
      assert KeyOfInfo(Live(all)[j]) in KeysOfInfos(Live(all));
      StaysDealtWith(a, b, bucket, prefix, KeyOfInfo(all[i]), cutoff, times);
    } else {
      var j :| 0 <= j < |Dead(all)| && Dead(all)[j] == all[i];
      assert KeyOfInfo(Dead(all)[j]) in KeysOfInfos(Dead(all));
    }
  }

  lemma KeysOfHalves(all: seq<ObjectInfo>)
    requires forall x :: x in Live(all) || x in Dead(all) ==> x in all
    ensures KeysOfInfos(Live(all)) <= KeysOfInfos(all) && KeysOfInfos(Dead(all)) <= KeysOfInfos(all)
  {
    hide KeyOfInfo;
    forall i | 0 <= i < |Live(all)|
      ensures KeyOfInfo(Live(all)[i]) in KeysOfInfos(all)
    {
      assert Live(all)[i] in all;
    }
    forall i | 0 <= i < |Dead(all)|
      ensures KeyOfInfo(Dead(all)[i]) in KeysOfInfos(all)
    {
      assert Dead(all)[i] in all;
    }
  }

  /** The two loops over one page of the listing. */
  method ExpirePage(
    b: LocalBackend, bucket: Bytes, objects: seq<ObjectInfo>, deleteMarkers: seq<ObjectInfo>, cutoff: int,
    times: nat -> int, first: nat, ghost all: seq<ObjectInfo>, ghost prefix: Bytes, ghost clock: int)
    returns (n: nat)
    requires Ready(b.Contents(), bucket, clock) && PageOf(VersionsOf(b.Contents().db, bucket), prefix, all)
    requires objects == Live(all) && deleteMarkers == Dead(all)
    modifies b, b.meta
    ensures Ready(b.Contents(), bucket, clock)
    ensures OnlyExpired(old(b.Contents()), b.Contents(), bucket, prefix, cutoff, times)
    ensures forall i :: 0 <= i < |all| ==> DealtWith(b.Contents(), bucket, KeyOfInfo(all[i]), cutoff, times)
    ensures VersionsOf(old(b.Contents()).db, bucket).Keys - KeysOfInfos(all) <= VersionsOf(b.Contents().db, bucket).Keys
  {
    hide Ready, OnlyExpired, DealtWith, KeyOfInfo, PageOf, AllListable, DistinctEntries, KeysOfInfos;
    ghost var start := b.Contents();
    LiveAndDead(VersionsOf(start.db, bucket), prefix, all);
    PageIsListable(start, bucket, prefix, objects);
    n := ExpireEntries(b, bucket, objects, cutoff, times, first, prefix, clock);
    ghost var middle := b.Contents();
    DeadStayListable(start, middle, bucket, prefix, cutoff, times, all);
    n := ExpireEntries(b, bucket, deleteMarkers, cutoff, times, n, prefix, clock);
    OnlyExpiredTransitive(start, middle, b.Contents(), bucket, prefix, cutoff, times);
    forall i | 0 <= i < |all|
      ensures DealtWith(b.Contents(), bucket, KeyOfInfo(all[i]), cutoff, times)
    {
      AllDealtWith(middle, b.Contents(), bucket, prefix, cutoff, times, all, i);
    }
    KeysOfHalves(all);
  }

  // ----- the pass -----

  ghost predicate Under(vk: Bytes, prefix: Bytes) {
    Split(vk).Some? && HasPrefix(KeyOf(vk), prefix)
  }

  /** The record does not come after the entry that ended the last page. */
  ghost predicate Passed(vs: map<Bytes, ObjectMeta>, vk: Bytes, last: Option<ObjectInfo>) {
    vk in vs && Split(vk).Some? && last.Some? && !Before(last.value, Info(KeyOf(vk), vs[vk]))
  }

  ghost predicate NoBreak(vk: Bytes, breaks: set<Bytes>) {
    Split(vk).Some? && KeyOf(vk) !in breaks
  }

  /** Every record passed is dealt with, but for keys at which a page lost its last record. */
  ghost predicate Behind(
    d: Disk, bucket: Bytes, prefix: Bytes, breaks: set<Bytes>, last: Option<ObjectInfo>, cutoff: int, times: nat -> int)
  {
    && (last.Some? ==> last.value.key in breaks || KeyOfInfo(last.value) in VersionsOf(d.db, bucket))
    && forall vk :: Under(vk, prefix) && NoBreak(vk, breaks) && Passed(VersionsOf(d.db, bucket), vk, last) ==>
         DealtWith(d, bucket, vk, cutoff, times)
  }

  /** Every record under the prefix is dealt with, but for keys at which a page lost its last record. */
  ghost predicate Covered(d: Disk, bucket: Bytes, prefix: Bytes, breaks: set<Bytes>, cutoff: int, times: nat -> int) {
    forall vk :: vk in VersionsOf(d.db, bucket) && Under(vk, prefix) && NoBreak(vk, breaks) ==>
      DealtWith(d, bucket, vk, cutoff, times)
  }

  /** A record that was not passed before is on the page, or comes after the page's last entry. */
  lemma OnPageOrAfter(
    vs: map<Bytes, ObjectMeta>, prefix: Bytes, last: Option<ObjectInfo>, items: seq<VersionItem>,
    page: seq<VersionItem>, vk: Bytes)
    requires WellKeyed(vs) && Lists(vs, prefix, last, items) && page <= items
    requires vk in vs && Under(vk, prefix) && Reached(vs, last, Info(KeyOf(vk), vs[vk]))
    ensures var x := Version(Info(KeyOf(vk), vs[vk]));
      x in page || (|page| < |items| &&
        (page != [] ==> page[|page| - 1].Version? && Before(page[|page| - 1].info, x.info)))
  {
    hide Less, HasPrefix, NoNul, VersionKey, Ordered, Before, Reached;
    var info := Info(KeyOf(vk), vs[vk]);
    assert Describes(vs, prefix, info);
    assert Version(info) in items;
    var j :| 0 <= j < |items| && items[j] == Version(info);
    if j < |page| {
      assert page[j] == Version(info);
    } else if page != [] {
      OrderedAt(items, |page| - 1, j);
    }
  }

  /** After a page, the records up to its last entry are dealt with, unless a page lost its last record of their key. */
  lemma PageDealsWith(
    a: Disk, b: Disk, bucket: Bytes, prefix: Bytes, breaks: set<Bytes>, last: Option<ObjectInfo>, cutoff: int,
    times: nat -> int, items: seq<VersionItem>, page: seq<VersionItem>, vk: Bytes)
    requires var vs := VersionsOf(a.db, bucket);
      && WellKeyed(vs) && Lists(vs, prefix, last, items) && page <= items && vk in vs
    requires Behind(a, bucket, prefix, breaks, last, cutoff, times) && OnlyExpired(a, b, bucket, prefix, cutoff, times)
    requires forall i :: 0 <= i < |page| ==>
      page[i].Version? && DealtWith(b, bucket, KeyOfInfo(page[i].info), cutoff, times)
    requires Under(vk, prefix) && NoBreak(vk, breaks)
    requires |page| < |items| ==>
      page != [] && !Before(page[|page| - 1].info, Info(KeyOf(vk), VersionsOf(a.db, bucket)[vk]))
    ensures DealtWith(b, bucket, vk, cutoff, times)
  {
    hide Less, HasPrefix, NoNul, VersionKey, Ordered, OnlyExpired, DealtWith, Lists, Before;
    var vs := VersionsOf(a.db, bucket);
    if last.Some? && !Before(last.value, Info(KeyOf(vk), vs[vk])) {
      assert Passed(vs, vk, last);
      StaysDealtWith(a, b, bucket, prefix, vk, cutoff, times);
    } else {
      assert Reached(vs, last, Info(KeyOf(vk), vs[vk]));
      OnPageOrAfter(vs, prefix, last, items, page, vk);
      var x := Version(Info(KeyOf(vk), vs[vk]));
      if x in page {
        var i :| 0 <= i < |page| && page[i] == x;
        assert KeyOfInfo(page[i].info) == vk;
      }
    }
  }

  /** A page as the pass sees it: what it lists, and that it has dealt with its entries. */
  ghost predicate PageDone(
    a: Disk, b: Disk, bucket: Bytes, prefix: Bytes, cutoff: int, times: nat -> int,
    last: Option<ObjectInfo>, items: seq<VersionItem>, page: seq<VersionItem>)
  {
    var vs := VersionsOf(a.db, bucket);
    && WellKeyed(vs) && (forall vk :: vk in vs ==> KeyOf(vk) != [] && vs[vk].versionId != [])
    && Lists(vs, prefix, last, items) && page <= items
    && OnlyExpired(a, b, bucket, prefix, cutoff, times)
    && forall i :: 0 <= i < |page| ==> page[i].Version? && DealtWith(b, bucket, KeyOfInfo(page[i].info), cutoff, times)
  }

  /** A page's last key joins the breaks if the pass has removed the record the page ended with. */
  ghost function Breaks(d: Disk, bucket: Bytes, breaks: set<Bytes>, last: ObjectInfo): set<Bytes> {
    if KeyOfInfo(last) in VersionsOf(d.db, bucket) then breaks else breaks + {last.key}
  }

  lemma NextBehind(
    a: Disk, b: Disk, bucket: Bytes, prefix: Bytes, breaks: set<Bytes>, cutoff: int, times: nat -> int,
    last: Option<ObjectInfo>, items: seq<VersionItem>, page: seq<VersionItem>)
    requires PageDone(a, b, bucket, prefix, cutoff, times, last, items, page) && page != []
    requires Behind(a, bucket, prefix, breaks, last, cutoff, times)
    ensures var p := page[|page| - 1].info;
      Behind(b, bucket, prefix, Breaks(b, bucket, breaks, p), Some(p), cutoff, times)
  {
    hide Less, HasPrefix, NoNul, Behind, OnlyExpired, DealtWith, Lists, KeyOfInfo, Before;
    var p := page[|page| - 1].info;
    var va, vb := VersionsOf(a.db, bucket), VersionsOf(b.db, bucket);
    var all := Breaks(b, bucket, breaks, p);
    RecordsRemain(a, b, bucket, prefix, cutoff, times);
    forall vk | Under(vk, prefix) && NoBreak(vk, all) && Passed(vb, vk, Some(p))
      ensures DealtWith(b, bucket, vk, cutoff, times)
    {
      BeforeInfo(p, KeyOf(vk), vb[vk], va[vk]);
      PageDealsWith(a, b, bucket, prefix, breaks, last, cutoff, times, items, page, vk);
    }
    BehindHolds(b, bucket, prefix, all, Some(p), cutoff, times);
  }

  lemma RecordsRemain(a: Disk, b: Disk, bucket: Bytes, prefix: Bytes, cutoff: int, times: nat -> int)
    requires OnlyExpired(a, b, bucket, prefix, cutoff, times)
    ensures var va, vb := VersionsOf(a.db, bucket), VersionsOf(b.db, bucket);
      vb.Keys <= va.Keys && forall vk :: vk in vb ==> SameButFlag(vb[vk], va[vk])
  {
  }

  lemma BehindHolds(
    d: Disk, bucket: Bytes, prefix: Bytes, breaks: set<Bytes>, last: Option<ObjectInfo>, cutoff: int, times: nat -> int)
    requires last.Some? ==> last.value.key in breaks || KeyOfInfo(last.value) in VersionsOf(d.db, bucket)
    requires forall vk :: Under(vk, prefix) && NoBreak(vk, breaks) && Passed(VersionsOf(d.db, bucket), vk, last) ==>
      DealtWith(d, bucket, vk, cutoff, times)
    ensures Behind(d, bucket, prefix, breaks, last, cutoff, times)
  {
  }

  lemma LastPageCovers(
    a: Disk, b: Disk, bucket: Bytes, prefix: Bytes, breaks: set<Bytes>, cutoff: int, times: nat -> int,
    last: Option<ObjectInfo>, items: seq<VersionItem>)
    requires PageDone(a, b, bucket, prefix, cutoff, times, last, items, items)
    requires Behind(a, bucket, prefix, breaks, last, cutoff, times)
    ensures Covered(b, bucket, prefix, breaks, cutoff, times)
  {
    hide Less, HasPrefix, NoNul, Behind, OnlyExpired, DealtWith, Lists, KeyOfInfo;
    RecordsRemain(a, b, bucket, prefix, cutoff, times);
    forall vk | vk in VersionsOf(b.db, bucket) && Under(vk, prefix) && NoBreak(vk, breaks)
      ensures DealtWith(b, bucket, vk, cutoff, times)
    {
      PageDealsWith(a, b, bucket, prefix, breaks, last, cutoff, times, items, items, vk);
    }
  }

  /** The markers taken from a page stand for its last entry, whether or not its record survived. */
  lemma NextAt(
    a: Disk, b: Disk, bucket: Bytes, prefix: Bytes, cutoff: int, times: nat -> int,
    last: Option<ObjectInfo>, items: seq<VersionItem>, page: seq<VersionItem>)
    requires PageDone(a, b, bucket, prefix, cutoff, times, last, items, page) && page != []
    ensures var p := page[|page| - 1].info; MarkersAt(VersionsOf(b.db, bucket), prefix, Some(p), p.key, p.versionId)
  {
    hide HasPrefix, NoNul, Ordered, OnlyExpired, DealtWith, VersionKey, Split, Before;
    var p := page[|page| - 1].info;
    RecordsRemain(a, b, bucket, prefix, cutoff, times);
    assert page[|page| - 1] in items;
    SplitVersionKey(p.key, p.versionId);
  }

  /** Each page leaves fewer records ahead of its last entry, although the store shrinks meanwhile. */
  lemma AheadShrinks(
    a: Disk, b: Disk, bucket: Bytes, prefix: Bytes, cutoff: int, times: nat -> int,
    last: Option<ObjectInfo>, items: seq<VersionItem>, page: seq<VersionItem>)
    requires PageDone(a, b, bucket, prefix, cutoff, times, last, items, page) && page != []
    ensures Ahead(VersionsOf(b.db, bucket), Some(page[|page| - 1].info)) < Ahead(VersionsOf(a.db, bucket), last)
  {
    hide HasPrefix, Ordered, OnlyExpired, DealtWith, VersionKey, Split, Before;
    var va, vb, p := VersionsOf(a.db, bucket), VersionsOf(b.db, bucket), page[|page| - 1].info;
    RecordsRemain(a, b, bucket, prefix, cutoff, times);
    assert page[|page| - 1] in items;
    SplitVersionKey(p.key, p.versionId);
    BeforeIrreflexive(p);
    var vk := VersionKey(p.key, p.versionId);
    assert vk in Ahead(va, last);
    assert vk !in Ahead(vb, Some(p)) by {
      if vk in vb { BeforeSameTime(p, Info(p.key, vb[vk])); }
    }
    forall x | x in Ahead(vb, Some(p))
      ensures x in Ahead(va, last)
    {
      BeforeInfo(p, KeyOf(x), vb[x], va[x]);
      if last.Some? { BeforeTransitive(last.value, p, Info(KeyOf(x), va[x])); }
    }
  }

  lemma BeforeSameTime(a: ObjectInfo, b: ObjectInfo)
    requires a.key == b.key && a.lastModified == b.lastModified
    ensures !Before(a, b)
  {
    LessIrreflexive(a.key);
  }

  lemma BeforeInfo(p: ObjectInfo, key: Bytes, m: ObjectMeta, n: ObjectMeta)
    requires SameButFlag(m, n)
    ensures Before(p, Info(key, m)) <==> Before(p, Info(key, n))
  {
  }

  ghost function RecordsUnder(vs: map<Bytes, ObjectMeta>, prefix: Bytes): set<Bytes> {
    set vk | vk in vs && Under(vk, prefix)
  }

  lemma {:induction false} ManyKeys(infos: seq<ObjectInfo>)
    requires DistinctEntries(infos)
    ensures |KeysOfInfos(infos)| == |infos|
  {
    hide KeyOfInfo;
    if infos != [] {
      var front, x := infos[..|infos| - 1], infos[|infos| - 1];
      ManyKeys(front);
      assert KeysOfInfos(infos) == KeysOfInfos(front) + {KeyOfInfo(x)};
    }
  }

  lemma {:induction false} SubsetIsSmaller<T>(a: set<T>, b: set<T>)
    requires a <= b
    ensures |a| <= |b|
  {
    if a != {} {
      var x :| x in a;
      SubsetIsSmaller(a - {x}, b - {x});
    }
  }

  /** What a page holds before the pass deletes from it. */
  lemma PageStarts(
    d: Disk, bucket: Bytes, clock: int, prefix: Bytes, last: Option<ObjectInfo>, km: Bytes, vm: Bytes,
    items: seq<VersionItem>, page: seq<VersionItem>)
    requires Ready(d, bucket, clock) && MarkersAt(VersionsOf(d.db, bucket), prefix, last, km, vm)
    requires items == Listed(VersionsOf(d.db, bucket), Query(prefix, [], km), vm) && page == Page(items, MAX_KEYS)
    ensures Lists(VersionsOf(d.db, bucket), prefix, last, items)
    ensures PageOf(VersionsOf(d.db, bucket), prefix, InfosIn(page)) && |InfosIn(page)| == |page| <= MAX_KEYS
    ensures forall j :: 0 <= j < |page| ==> page[j].Version? && InfosIn(page)[j] == page[j].info
  {
    hide MarkersAt, Lists, Listed, PageOf;
    PageLists(VersionsOf(d.db, bucket), prefix, last, km, vm);
    PageEntries(VersionsOf(d.db, bucket), prefix, last, items, page);
  }

  lemma PageEnds(
    a: Disk, b: Disk, bucket: Bytes, clock: int, prefix: Bytes, cutoff: int, times: nat -> int,
    last: Option<ObjectInfo>, items: seq<VersionItem>, page: seq<VersionItem>)
    requires Ready(a, bucket, clock) && Numbered(a, bucket)
    requires Lists(VersionsOf(a.db, bucket), prefix, last, items) && page == Page(items, MAX_KEYS)
    requires OnlyExpired(a, b, bucket, prefix, cutoff, times)
    requires |InfosIn(page)| == |page|
    requires forall j :: 0 <= j < |page| ==> page[j].Version? && InfosIn(page)[j] == page[j].info
    requires forall i :: 0 <= i < |InfosIn(page)| ==> DealtWith(b, bucket, KeyOfInfo(InfosIn(page)[i]), cutoff, times)
    ensures PageDone(a, b, bucket, prefix, cutoff, times, last, items, page)
  {
    hide Coherent, OnlyExpired, DealtWith, KeyOfInfo, Lists, WellKeyed;
    CoherentIsWellKeyed(ObjectsOf(a.db, bucket), VersionsOf(a.db, bucket), clock);
    CoherentKeys(ObjectsOf(a.db, bucket), VersionsOf(a.db, bucket), clock);
  }

  lemma CoherentKeys(latest: map<Bytes, ObjectMeta>, vs: map<Bytes, ObjectMeta>, clock: int)
    requires Coherent(latest, vs, clock)
    ensures WellKeyed(vs) && DistinctTimes(vs) && forall vk :: vk in vs ==> KeyOf(vk) != []
  {
  }

  /** Where a page ends that is followed by another. */
  lemma PageBreaks(items: seq<VersionItem>, page: seq<VersionItem>, km: Bytes, vm: Bytes)
    requires page == Page(items, MAX_KEYS) && (km, vm) == NextMarkers(items, MAX_KEYS)
    requires forall j :: 0 <= j < |page| ==> page[j].Version? && page[j].info.key != []
    ensures km != [] || vm != [] <==> Full(items, MAX_KEYS)
    ensures Full(items, MAX_KEYS) ==>
      |page| == MAX_KEYS && km == page[|page| - 1].info.key && vm == page[|page| - 1].info.versionId
    ensures !Full(items, MAX_KEYS) ==> page == items
  {
  }

  lemma PassStarts(d: Disk, bucket: Bytes, prefix: Bytes, cutoff: int, times: nat -> int)
    ensures OnlyExpired(d, d, bucket, prefix, cutoff, times)
    ensures MarkersAt(VersionsOf(d.db, bucket), prefix, None, [], [])
    ensures Behind(d, bucket, prefix, {}, None, cutoff, times)
  {
  }

  lemma NothingToCover(d: Disk, bucket: Bytes, prefix: Bytes, breaks: set<Bytes>, cutoff: int, times: nat -> int)
    requires bucket !in d.db.versions
    ensures Covered(d, bucket, prefix, breaks, cutoff, times)
  {
  }

  lemma PageKeys(
    a: Disk, b: Disk, bucket: Bytes, prefix: Bytes, cutoff: int, times: nat -> int,
    last: Option<ObjectInfo>, items: seq<VersionItem>, page: seq<VersionItem>)
    requires PageDone(a, b, bucket, prefix, cutoff, times, last, items, page)
    ensures forall j :: 0 <= j < |page| ==> page[j].Version? && page[j].info.key != []
  {
    hide OnlyExpired, DealtWith, HasPrefix, Ordered, VersionKey, Split;
    forall j | 0 <= j < |page|
      ensures page[j].info.key != []
    {
      assert page[j] in items;
      SplitVersionKey(page[j].info.key, page[j].info.versionId);
    }
  }

  /**
   * The version ids have to be non-empty: in a versioned bucket, expiring a record
   * with an empty id removes nothing and adds a delete marker instead.
   */
  lemma EmptyIdGainsMarker(d: Disk, bucket: Bytes, key: Bytes, stamp: Stamp)
    requires bucket in d.db.buckets && bucket in d.db.objects && Versioned(d.db.buckets[bucket])
    requires key != [] && stamp.id != []
    ensures var after := DeleteObjectAfter(d, bucket, key, [], stamp).0;
      var id := if d.db.buckets[bucket].versioning == "Enabled" then stamp.id else NULL_ID;
      && after.files == d.files
      && VersionsOf(after.db, bucket) == VersionsOf(d.db, bucket)[VersionKey(key, id) := DeleteMarker(stamp.now, id)]
      && VersionKey(key, id) != VersionKey(key, [])
  {
    var id := if d.db.buckets[bucket].versioning == "Enabled" then stamp.id else NULL_ID;
    assert |VersionKey(key, id)| > |VersionKey(key, [])|;
  }
}
