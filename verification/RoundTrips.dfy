/** Operations of the backend that one another undo or read back. */
module RoundTrips {
  import opened BackendModel
  import opened ByteStrings
  import opened Coherence
  import opened ObjectTypes
  import opened Outcomes
  import opened Paths
  import opened StoreModel
  import opened VersionKeys

  /** Reading a version that was just put returns what was put, whole and by ranges. */
  lemma PutThenGet(
    d: Disk, bucket: Bytes, key: Bytes, content: Bytes, meta: ObjectMeta, now: int, versionId: Bytes,
    rangeStart: Option<nat>, rangeEnd: Option<nat>)
    requires PutObjectAfter(d, bucket, key, content, meta, now).1.Ok?
    requires versionId == meta.versionId || (versionId == [] && meta.isLatest)
    ensures var got := GetObjectAfter(PutObjectAfter(d, bucket, key, content, meta, now).0,
                         bucket, key, versionId, rangeStart, rangeEnd);
      var m := meta.(etag := Md5(content), size := |content|, lastModified := now);
      if rangeStart.None? then got == Ok(Object(m, content, 0, |content| - 1))
      else
        var end := if rangeEnd.Some? && rangeEnd.value < |content| then rangeEnd.value else |content| - 1;
        if rangeStart.value >= |content| || (rangeEnd.Some? && rangeEnd.value < rangeStart.value) then
          got == Err(InvalidRange)
        else got == Ok(Object(m, content[rangeStart.value..end + 1], rangeStart.value, end))
  {
    if rangeStart.Some? && rangeStart.value <= |content| {
      assert content[rangeStart.value..|content|] == content[rangeStart.value..];
    }
  }

  /** In a coherent bucket the newest record of a key is its latest entry. */
  lemma LatestIsNewest(latest: map<Bytes, ObjectMeta>, vs: map<Bytes, ObjectMeta>, clock: int, key: Bytes)
    requires Coherent(latest, vs, clock) && NoNul(key)
    ensures key in latest <==> RecordsOf(vs, key) != {}
    ensures key in latest ==>
      var n := VersionKey(key, latest[key].versionId);
      (exists vk :: IsNewest(vs, key, vk)) && Newest(vs, key) == n && n in vs && vs[n] == latest[key]
  {
    hide Split, VersionKey, RecordsOf;
    RecordsByKey(vs, key);
    if key in latest {
      var n := VersionKey(key, latest[key].versionId);
      SplitVersionKey(key, latest[key].versionId);
      assert n in RecordsOf(vs, key);
      NewestRecord(vs, key);
      var vk := Newest(vs, key);
      assert vk == n by { assert KeyOf(vk) == KeyOf(n); }
    } else {
      NoRecordsWithoutEntry(latest, vs, clock, key);
    }
  }

  lemma NoRecordsWithoutEntry(latest: map<Bytes, ObjectMeta>, vs: map<Bytes, ObjectMeta>, clock: int, key: Bytes)
    requires Coherent(latest, vs, clock) && NoNul(key) && key !in latest
    ensures RecordsOf(vs, key) == {}
  {
    hide Split, VersionKey;
    forall vk | vk in vs
      ensures vk !in RecordsOf(vs, key)
    {
      PrefixIsKey(key, vk);
      assert KeyOf(vk) in latest;
    }
  }

  /** The flag of a key's latest record set in both maps: all that a marker's round trip may change. */
  function Reflagged(latest: map<Bytes, ObjectMeta>, key: Bytes): map<Bytes, ObjectMeta> {
    if key in latest then latest[key := latest[key].(isLatest := true)] else latest
  }

  function ReflaggedVersions(
    latest: map<Bytes, ObjectMeta>, vs: map<Bytes, ObjectMeta>, key: Bytes)
    : map<Bytes, ObjectMeta>
  {
    if key in latest then vs[VersionKey(key, latest[key].versionId) := latest[key].(isLatest := true)] else vs
  }

  /** On the two maps of a bucket: recording a fresh marker and deleting that version. */
  lemma MarkerComesAndGoes(
    latest: map<Bytes, ObjectMeta>, vs: map<Bytes, ObjectMeta>, clock: int, key: Bytes, marker: ObjectMeta)
    requires Coherent(latest, vs, clock) && NoNul(key) && key != []
    requires marker.versionId != [] && VersionKey(key, marker.versionId) !in vs
    ensures DeleteVersion(latest[key := marker], vs[VersionKey(key, marker.versionId) := marker], key, marker.versionId)
      == (Reflagged(latest, key), ReflaggedVersions(latest, vs, key))
  {
    hide Coherent, Split, VersionKey, RecordsOf, IsNewest;
    var vk := VersionKey(key, marker.versionId);
    assert vs[vk := marker] - {vk} == vs;
    LatestIsNewest(latest, vs, clock, key);
    if key !in latest {
      assert latest[key := marker] - {key} == latest;
    } else {
      assert latest[key := marker][key := latest[key].(isLatest := true)] ==
        latest[key := latest[key].(isLatest := true)];
    }
  }

  function WithMaps(d: Disk, bucket: Bytes, latest: map<Bytes, ObjectMeta>, vs: map<Bytes, ObjectMeta>): Disk {
    d.(db := d.db.(objects := d.db.objects[bucket := latest], versions := d.db.versions[bucket := vs]))
  }

  /** A delete without an id in a versioning-enabled bucket, on the bucket's two maps. */
  lemma MarkOnMaps(d: Disk, bucket: Bytes, key: Bytes, stamp: Stamp)
    requires bucket in d.db.buckets && d.db.buckets[bucket].versioning == "Enabled"
    requires bucket in d.db.objects && key != []
    ensures var marker := DeleteMarker(stamp.now, stamp.id);
      DeleteObjectAfter(d, bucket, key, [], stamp) ==
        (WithMaps(d, bucket, ObjectsOf(d.db, bucket)[key := marker],
                  VersionsOf(d.db, bucket)[VersionKey(key, stamp.id) := marker]), None)
  {
    hide VersionKey;
  }

  /** A delete of one unlocked version, on the bucket's two maps. */
  lemma EraseOnMaps(
    d: Disk, bucket: Bytes, latest: map<Bytes, ObjectMeta>, vs: map<Bytes, ObjectMeta>, key: Bytes, id: Bytes,
    stamp: Stamp)
    requires id != [] && VersionKey(key, id) in vs && !Locked(vs[VersionKey(key, id)], stamp.now)
    ensures var after := DeleteVersion(latest, vs, key, id);
      DeleteObjectAfter(WithMaps(d, bucket, latest, vs), bucket, key, id, stamp) ==
        (Unlink(WithMaps(d, bucket, after.0, after.1), FilePath(bucket, key, id)), None)
  {
    hide VersionKey, DeleteVersion, FilePath, Locked;
    var after := DeleteVersion(latest, vs, key, id);
    assert d.db.objects[bucket := latest][bucket := after.0] == d.db.objects[bucket := after.0];
    assert d.db.versions[bucket := vs][bucket := after.1] == d.db.versions[bucket := after.1];
  }

  /**
   * In a versioning-enabled bucket, deleting a key and then deleting the marker
   * this made restores the latest map, every version record and every file, except
   * that the restored record is flagged as the latest.
   */
  lemma DeleteMarkerRoundTrip(d: Disk, bucket: Bytes, key: Bytes, clock: int, first: Stamp, second: Stamp)
    requires bucket in d.db.buckets && d.db.buckets[bucket].versioning == "Enabled" && bucket in d.db.objects
    requires Coherent(ObjectsOf(d.db, bucket), VersionsOf(d.db, bucket), clock) && key != [] && NoNul(key)
    requires first.id != [] && VersionKey(key, first.id) !in VersionsOf(d.db, bucket)
    requires FilePath(bucket, key, first.id) !in d.files && FilePath(bucket, key, first.id) !in d.partFiles
    ensures var (marked, e1) := DeleteObjectAfter(d, bucket, key, [], first);
      var (back, e2) := DeleteObjectAfter(marked, bucket, key, first.id, second);
      && e1 == None && e2 == None
      && back.files == d.files && back.partFiles == d.partFiles && back.db.buckets == d.db.buckets
      && ObjectsOf(back.db, bucket) == Reflagged(ObjectsOf(d.db, bucket), key)
      && VersionsOf(back.db, bucket) == ReflaggedVersions(ObjectsOf(d.db, bucket), VersionsOf(d.db, bucket), key)
      && (forall b :: b != bucket ==>
            ObjectsOf(back.db, b) == ObjectsOf(d.db, b) && VersionsOf(back.db, b) == VersionsOf(d.db, b))
      && (key in ObjectsOf(marked.db, bucket) && ObjectsOf(marked.db, bucket)[key].isDeleteMarker)
  {
    hide Coherent, Split, VersionKey, DeleteVersion, FilePath, Reflagged, ReflaggedVersions, DeleteObjectAfter;
    var marker := DeleteMarker(first.now, first.id);
    var latest, vs := ObjectsOf(d.db, bucket), VersionsOf(d.db, bucket);
    MarkerComesAndGoes(latest, vs, clock, key, marker);
    MarkOnMaps(d, bucket, key, first);
    EraseOnMaps(d, bucket, latest[key := marker], vs[VersionKey(key, first.id) := marker], key, first.id, second);
    assert d.partFiles - {FilePath(bucket, key, first.id)} == d.partFiles;
  }

  /** On the two maps of a bucket: a marker of "a\0b" is promoted when the only version of "a" goes. */
  lemma ForeignMarkerPromoted(
    latest: map<Bytes, ObjectMeta>, vs: map<Bytes, ObjectMeta>, a: Bytes, b: Bytes, v: Bytes, marker: ObjectMeta)
    requires a != [] && NoNul(v) && marker.isLatest
    requires RecordsOf(vs, a) == {VersionKey(a, v)} && VersionKey(a, v) in vs
    ensures var k := a + [NUL] + b;
      DeleteVersion(latest, vs[VersionKey(k, marker.versionId) := marker], a, v) ==
        (latest[a := marker],
         (vs[VersionKey(k, marker.versionId) := marker] - {VersionKey(a, v)})
         [VersionKey(a, marker.versionId) := marker])
  {
    hide Split, NoNul, IsNewest;
    var k := a + [NUL] + b;
    var vk := VersionKey(k, marker.versionId);
    var rest := vs[vk := marker] - {VersionKey(a, v)};
    assert vk != VersionKey(a, v) by { NulInside(a, b, marker.versionId, v); }
    assert HasPrefix(vk, a + [NUL]) by { assert vk[..|a| + 1] == a + [NUL]; }
    assert RecordsOf(rest, a) <= RecordsOf(vs, a) + {vk};
    assert RecordsOf(rest, a) == {vk};
    OnlyOneIsNewest(rest, a, vk);
    assert marker.(isLatest := true) == marker;
  }

  lemma NulInside(a: Bytes, b: Bytes, id: Bytes, v: Bytes)
    requires NoNul(v)
    ensures VersionKey(a + [NUL] + b, id) != VersionKey(a, v)
  {
    var x, y := VersionKey(a + [NUL] + b, id), VersionKey(a, v);
    if |x| == |y| {
      assert x[|a| + 1 + |b|] == NUL;
      assert y[|a| + 1 + |b|] == v[|b|];
    }
  }

  lemma OnlyOneIsNewest(vs: map<Bytes, ObjectMeta>, key: Bytes, vk: Bytes)
    requires RecordsOf(vs, key) == {vk}
    ensures (exists x :: IsNewest(vs, key, x)) && Newest(vs, key) == vk
  {
    hide HasPrefix, VersionKey;
    NewestExists(vs, key);
    assert Newest(vs, key) in RecordsOf(vs, key);
  }

  /**
   * What a NUL in a key does where the backend lets it in, with a delete marker: in
   * a versioning-enabled bucket, deleting "a\0b" and then the only version of "a"
   * makes the marker a version of "a", and its latest one.
   */
  lemma NulKeyGainsMarker(d: Disk, bucket: Bytes, a: Bytes, b: Bytes, v: Bytes, first: Stamp, second: Stamp)
    requires bucket in d.db.buckets && d.db.buckets[bucket].versioning == "Enabled" && bucket in d.db.objects
    requires a != [] && v != [] && NoNul(v) && first.id != []
    requires RecordsOf(VersionsOf(d.db, bucket), a) == {VersionKey(a, v)}
    requires VersionKey(a, v) in VersionsOf(d.db, bucket)
    requires !Locked(VersionsOf(d.db, bucket)[VersionKey(a, v)], second.now)
    ensures var (marked, e1) := DeleteObjectAfter(d, bucket, a + [NUL] + b, [], first);
      var (after, e2) := DeleteObjectAfter(marked, bucket, a, v, second);
      var marker := DeleteMarker(first.now, first.id);
      && e1 == None && e2 == None
      && a in ObjectsOf(after.db, bucket) && ObjectsOf(after.db, bucket)[a] == marker
      && VersionKey(a, first.id) in VersionsOf(after.db, bucket)
      && VersionsOf(after.db, bucket)[VersionKey(a, first.id)] == marker
  {
    hide Split, NoNul, RecordsOf, DeleteVersion, FilePath, VersionKey, DeleteObjectAfter;
    var k, marker := a + [NUL] + b, DeleteMarker(first.now, first.id);
    var latest, vs := ObjectsOf(d.db, bucket)[k := marker], VersionsOf(d.db, bucket);
    NulInside(a, b, first.id, v);
    ForeignMarkerPromoted(latest, vs, a, b, v, marker);
    MarkOnMaps(d, bucket, k, first);
    EraseOnMaps(d, bucket, latest, vs[VersionKey(k, first.id) := marker], a, v, second);
  }
}
