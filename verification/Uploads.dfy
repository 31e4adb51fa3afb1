/**
 * Multipart uploads over whole runs: what the store and the part files hold of
 * every upload, against what its clients expect.
 */
module Uploads {
  import opened BackendModel
  import opened ByteStrings
  import opened ObjectLock
  import opened ObjectTypes
  import opened Outcomes
  import opened Parts
  import opened Paths
  import opened StoreModel
  import opened VersionKeys

  // ----- keys of the uploads bucket -----

  lemma FirstColon(b1: Bytes, r1: Bytes, b2: Bytes, r2: Bytes)
    requires COLON !in b1 && COLON !in b2
    ensures b1 + [COLON] + r1 == b2 + [COLON] + r2 <==> b1 == b2 && r1 == r2
  {
    var x, y := b1 + [COLON] + r1, b2 + [COLON] + r2;
    if x == y {
      assert x[|b1|] == COLON && y[|b2|] == COLON;
      assert forall j :: 0 <= j < |b1| ==> x[j] == b1[j];
      assert forall j :: 0 <= j < |b2| ==> y[j] == b2[j];
      assert |b1| == |b2|;
      assert x[..|b1|] == b1 && y[..|b2|] == b2;
      assert x[|b1| + 1..] == r1 && y[|b2| + 1..] == r2;
    }
  }

  lemma LastColon(k1: Bytes, i1: Bytes, k2: Bytes, i2: Bytes)
    requires COLON !in i1 && COLON !in i2
    ensures k1 + [COLON] + i1 == k2 + [COLON] + i2 <==> k1 == k2 && i1 == i2
  {
    var x, y := k1 + [COLON] + i1, k2 + [COLON] + i2;
    if x == y {
      assert x[|k1|] == COLON && y[|k2|] == COLON;
      assert forall j :: |k1| < j < |x| ==> x[j] == i1[j - |k1| - 1];
      assert forall j :: |k2| < j < |y| ==> y[j] == i2[j - |k2| - 1];
      assert |k1| == |k2|;
      assert x[..|k1|] == k1 && y[..|k2|] == k2;
      assert x[|k1| + 1..] == i1 && y[|k2| + 1..] == i2;
    }
  }

  /** Without colons in buckets and ids, an upload's key names its bucket, key and id. */
  lemma UploadKeyInjective(b1: Bytes, k1: Bytes, i1: Bytes, b2: Bytes, k2: Bytes, i2: Bytes)
    requires COLON !in b1 && COLON !in i1 && COLON !in b2 && COLON !in i2
    ensures UploadKey(b1, k1, i1) == UploadKey(b2, k2, i2) <==> b1 == b2 && k1 == k2 && i1 == i2
    ensures UploadMetaKey(b1, k1, i1) == UploadMetaKey(b2, k2, i2) <==> b1 == b2 && k1 == k2 && i1 == i2
  {
    assert UploadKey(b1, k1, i1) == b1 + [COLON] + (k1 + [COLON] + i1);
    assert UploadKey(b2, k2, i2) == b2 + [COLON] + (k2 + [COLON] + i2);
    FirstColon(b1, k1 + [COLON] + i1, b2, k2 + [COLON] + i2);
    LastColon(k1, i1, k2, i2);
    FirstColon(META_TAG, UploadKey(b1, k1, i1), META_TAG, UploadKey(b2, k2, i2));
  }

  /** The key of an upload and the key of an upload's metadata coincide only in a bucket named "meta". */
  lemma MetaKeyAliases(b1: Bytes, k1: Bytes, i1: Bytes, b2: Bytes, k2: Bytes, i2: Bytes)
    requires COLON !in b1
    ensures UploadKey(b1, k1, i1) == UploadMetaKey(b2, k2, i2) <==>
      b1 == META_TAG && k1 + [COLON] + i1 == UploadKey(b2, k2, i2)
  {
    assert UploadKey(b1, k1, i1) == b1 + [COLON] + (k1 + [COLON] + i1);
    FirstColon(b1, k1 + [COLON] + i1, META_TAG, UploadKey(b2, k2, i2));
  }

  // ----- part names -----

  function Number(s: Bytes): int {
    if s == [] then 0 else 10 * Number(s[..|s| - 1]) + (s[|s| - 1] as int - ZERO as int)
  }

  lemma NumberOfDigit(front: Bytes, x: byte)
    ensures Number(front + [x]) == 10 * Number(front) + (x as int - ZERO as int)
  {
    assert (front + [x])[..|front|] == front;
  }

  lemma {:induction false} NumberOfPadded(n: nat, w: nat)
    ensures Number(Padded(n, w)) == n
    ensures Padded(n, w) != [] ==> Padded(n, w)[0] != MINUS
    decreases n + w
  {
    hide Number;
    if n > 0 || w > 0 {
      var q, digit := n / 10, n % 10;
      assert n == 10 * q + digit && q + (if w == 0 then 0 else w - 1) < n + w;
      var front := Padded(q, if w == 0 then 0 else w - 1);
      NumberOfPadded(q, if w == 0 then 0 else w - 1);
      NumberOfDigit(front, ZERO + digit as byte);
    } else {
      NumberOfNothing();
    }
  }

  lemma NumberOfNothing()
    ensures Number([]) == 0
  {
  }

  /** No two part numbers share a file name. */
  lemma PartNameInjective(a: int, b: int)
    ensures PartName(a) == PartName(b) <==> a == b
  {
    hide Padded;
    var x, y := if a < 0 then -a else a, if b < 0 then -b else b;
    NumberOfPadded(x, if a < 0 then 4 else 5);
    NumberOfPadded(y, if b < 0 then 4 else 5);
    PaddedIsNotEmpty(x, 5);
    PaddedIsNotEmpty(y, 5);
    if a < 0 { assert PartName(a)[1..] == Padded(x, 4) && PartName(a)[0] == MINUS; }
    if b < 0 { assert PartName(b)[1..] == Padded(y, 4) && PartName(b)[0] == MINUS; }
  }

  lemma PaddedIsNotEmpty(n: nat, w: nat)
    requires w > 0
    ensures Padded(n, w) != []
  {
  }

  // ----- what clients expect -----

  /** What a client last uploaded as a part, when, and whether no restart has swept its file since. */
  datatype Part = Part(content: Bytes, at: int, kept: bool)

  datatype Upload = Upload(bucket: Bytes, key: Bytes, meta: ObjectMeta, parts: map<int, Part>)

  /**
   * `Elsewhere` is whatever the operations on buckets and objects make of the rest of
   * the disk, `Restart` the opening of the backend, which sweeps its temporary files.
   */
  datatype Op =
    | Create(bucket: Bytes, key: Bytes, meta: ObjectMeta, stamp: Stamp)
    | PutPart(uploadId: Bytes, partNumber: int, content: Bytes, now: int)
    | Complete(bucket: Bytes, key: Bytes, uploadId: Bytes, parts: seq<CompletePart>, stamp: Stamp)
    | Abort(bucket: Bytes, key: Bytes, uploadId: Bytes)
    | Elsewhere(rest: Disk)
    | Restart

  function Perform(d: Disk, op: Op): Disk {
    match op
    case Create(bucket, key, meta, stamp) => d.(db := CreateUploadTx(d.db, bucket, key, meta, stamp.id, stamp.now))
    case PutPart(id, n, content, now) => UploadPartAfter(d, id, n, content, now).0
    case Complete(bucket, key, id, parts, stamp) => CompleteUploadAfter(d, bucket, key, id, parts, stamp).0
    case Abort(bucket, key, id) => AbortUploadAfter(d, bucket, key, id).0
    case Elsewhere(rest) => rest.(db := rest.db.(uploads := d.db.uploads, parts := d.db.parts),
      partFiles := d.partFiles)
    case Restart => d.(partFiles := map[])
  }

  predicate Succeeds(d: Disk, op: Op) {
    match op
    case PutPart(id, n, content, now) => UploadPartAfter(d, id, n, content, now).1.Ok?
    case Complete(bucket, key, id, parts, stamp) => CompleteUploadAfter(d, bucket, key, id, parts, stamp).1.Ok?
    case Abort(bucket, key, id) => AbortUploadAfter(d, bucket, key, id).1.None?
    case _ => true
  }

  predicate IsLive(live: map<Bytes, Upload>, bucket: Bytes, key: Bytes, id: Bytes) {
    id in live && live[id].bucket == bucket && live[id].key == key
  }

  predicate HasFile(parts: map<int, Part>, n: int) {
    n in parts && parts[n].kept
  }

  predicate AllUploaded(parts: map<int, Part>, request: seq<CompletePart>) {
    forall i :: 0 <= i < |request| ==> HasFile(parts, request[i].partNumber)
  }

  function Swept(parts: map<int, Part>): map<int, Part> {
    map n | n in parts :: parts[n].(kept := false)
  }

  /** When a client may expect a request to succeed, in terms of the uploads it knows to be live. */
  predicate Accepted(live: map<Bytes, Upload>, db: Db, op: Op) {
    match op
    case PutPart(id, n, content, now) => id in live
    case Complete(bucket, key, id, parts, stamp) =>
      && IsLive(live, bucket, key, id) && AllUploaded(live[id].parts, parts) && bucket in db.objects && key != []
      && Reachable(bucket, key, CompletedId(db, bucket, live[id].meta, stamp))
    case Abort(bucket, key, id) => IsLive(live, bucket, key, id)
    case _ => true
  }

  /** What an accepted request makes of the live uploads. */
  function Expected(live: map<Bytes, Upload>, op: Op): map<Bytes, Upload> {
    match op
    case Create(bucket, key, meta, stamp) => live[stamp.id := Upload(bucket, key, meta, map[])]
    case PutPart(id, n, content, now) =>
      if id in live then live[id := live[id].(parts := live[id].parts[n := Part(content, now, true)])] else live
    case Complete(bucket, key, id, parts, stamp) => live - {id}
    case Abort(bucket, key, id) => live - {id}
    case Elsewhere(rest) => live
    case Restart => map id | id in live :: live[id].(parts := Swept(live[id].parts))
  }

  // ----- what the disk holds of them -----

  function RecordOf(n: int, p: Part): PartInfo {
    PartInfo(n, p.at, Md5(p.content), |p.content|)
  }

  predicate NameOfPart(parts: map<int, Part>, name: Bytes) {
    exists n :: n in parts && PartName(n) == name
  }

  ghost predicate FileOfPart(parts: map<int, Part>, id: Bytes, p: Path) {
    exists n :: HasFile(parts, n) && p == PartPath(id, PartName(n))
  }

  /**
   * Records of exactly the uploaded parts, and files of exactly those no restart has
   * swept, with what was last uploaded.
   */
  ghost predicate HoldsParts(records: map<Bytes, PartInfo>, files: map<Path, Bytes>, id: Bytes, parts: map<int, Part>) {
    && (forall n :: n in parts ==> PartName(n) in records && records[PartName(n)] == RecordOf(n, parts[n]))
    && (forall n :: HasFile(parts, n) ==>
          PartPath(id, PartName(n)) in files && files[PartPath(id, PartName(n))] == parts[n].content)
    && (forall name :: name in records ==> NameOfPart(parts, name))
    && (forall p :: p in files && Below(p, UploadDir(id)) ==> FileOfPart(parts, id, p))
  }

  ghost predicate HoldsEntries(uploads: map<Bytes, UploadEntry>, id: Bytes, u: Upload) {
    && COLON !in u.bucket && u.bucket != META_TAG && COLON !in id && Proper(id)
    && UploadKey(u.bucket, u.key, id) in uploads
    && UploadMetaKey(u.bucket, u.key, id) in uploads
    && uploads[UploadMetaKey(u.bucket, u.key, id)] == UploadMeta(u.meta)
  }

  ghost predicate Owned(live: map<Bytes, Upload>, k: Bytes) {
    exists id :: id in live &&
      (k == UploadKey(live[id].bucket, live[id].key, id) || k == UploadMetaKey(live[id].bucket, live[id].key, id))
  }

  ghost predicate OfLive(live: map<Bytes, Upload>, p: Path) {
    exists id :: id in live && Below(p, UploadDir(id))
  }

  ghost predicate Holds(d: Disk, live: map<Bytes, Upload>) {
    && d.db.parts.Keys == live.Keys
    && (forall p :: p in d.partFiles ==> OfLive(live, p))
    && (forall id :: id in live ==>
          HoldsEntries(d.db.uploads, id, live[id]) && HoldsParts(d.db.parts[id], d.partFiles, id, live[id].parts))
    && (forall k :: k in d.db.uploads ==> Owned(live, k))
  }

  /**
   * The names requests may use: no colon in buckets and upload ids, no bucket
   * named "meta", a fresh id for each new upload, part numbers as the handler
   * checks them, and for parts no upload id whose directory is another's.
   */
  predicate Legal(op: Op, used: set<Bytes>) {
    match op
    case Create(bucket, key, meta, stamp) =>
      COLON !in bucket && bucket != META_TAG && COLON !in stamp.id && Proper(stamp.id) && stamp.id !in used
    case PutPart(id, n, content, now) => 1 <= n <= 10000 && !AliasesUpload(id)
    case Complete(bucket, key, id, parts, stamp) => COLON !in bucket && bucket != META_TAG && COLON !in id
    case Abort(bucket, key, id) => COLON !in bucket && bucket != META_TAG && COLON !in id
    case _ => true
  }

  // ----- each step -----

  /** A live upload is found under its own names, and nothing else is. */
  lemma EntryIsLive(d: Disk, live: map<Bytes, Upload>, bucket: Bytes, key: Bytes, id: Bytes)
    requires Holds(d, live) && COLON !in bucket && bucket != META_TAG && COLON !in id
    ensures UploadKey(bucket, key, id) in d.db.uploads <==> IsLive(live, bucket, key, id)
    ensures UploadMetaKey(bucket, key, id) in d.db.uploads <==> IsLive(live, bucket, key, id)
  {
    hide UploadKey, UploadMetaKey, HoldsParts;
    if UploadKey(bucket, key, id) in d.db.uploads { OwnKey(d, live, bucket, key, id); }
    if UploadMetaKey(bucket, key, id) in d.db.uploads { OwnMetaKey(d, live, bucket, key, id); }
  }

  lemma OwnKey(d: Disk, live: map<Bytes, Upload>, bucket: Bytes, key: Bytes, id: Bytes)
    requires Holds(d, live) && COLON !in bucket && bucket != META_TAG && COLON !in id
    requires UploadKey(bucket, key, id) in d.db.uploads
    ensures IsLive(live, bucket, key, id)
  {
    hide UploadKey, UploadMetaKey, HoldsParts;
    var k := UploadKey(bucket, key, id);
    assert Owned(live, k);
    var x :| x in live &&
      (k == UploadKey(live[x].bucket, live[x].key, x) || k == UploadMetaKey(live[x].bucket, live[x].key, x));
    assert HoldsEntries(d.db.uploads, x, live[x]);
    UploadKeyInjective(bucket, key, id, live[x].bucket, live[x].key, x);
    MetaKeyAliases(bucket, key, id, live[x].bucket, live[x].key, x);
  }

  lemma OwnMetaKey(d: Disk, live: map<Bytes, Upload>, bucket: Bytes, key: Bytes, id: Bytes)
    requires Holds(d, live) && COLON !in bucket && bucket != META_TAG && COLON !in id
    requires UploadMetaKey(bucket, key, id) in d.db.uploads
    ensures IsLive(live, bucket, key, id)
  {
    hide UploadKey, UploadMetaKey, HoldsParts;
    var k := UploadMetaKey(bucket, key, id);
    assert Owned(live, k);
    var x :| x in live &&
      (k == UploadKey(live[x].bucket, live[x].key, x) || k == UploadMetaKey(live[x].bucket, live[x].key, x));
    assert HoldsEntries(d.db.uploads, x, live[x]);
    UploadKeyInjective(bucket, key, id, live[x].bucket, live[x].key, x);
    MetaKeyAliases(live[x].bucket, live[x].key, x, bucket, key, id);
  }

  /** The two keys of an upload differ from those of an upload with another bucket, key or id. */
  lemma KeysApart(b1: Bytes, k1: Bytes, i1: Bytes, b2: Bytes, k2: Bytes, i2: Bytes)
    requires COLON !in b1 && b1 != META_TAG && COLON !in i1 && COLON !in b2 && b2 != META_TAG && COLON !in i2
    ensures
      {UploadKey(b1, k1, i1), UploadMetaKey(b1, k1, i1)} !! {UploadKey(b2, k2, i2), UploadMetaKey(b2, k2, i2)} <==>
      !(b1 == b2 && k1 == k2 && i1 == i2)
    ensures UploadKey(b1, k1, i1) != UploadMetaKey(b1, k1, i1)
  {
    hide UploadKey, UploadMetaKey;
    UploadKeyInjective(b1, k1, i1, b2, k2, i2);
    MetaKeyAliases(b1, k1, i1, b2, k2, i2);
    MetaKeyAliases(b2, k2, i2, b1, k1, i1);
    MetaKeyAliases(b1, k1, i1, b1, k1, i1);
  }

  /** Changing the entries of one upload leaves those of another. */
  lemma EntriesStay(
    uploads: map<Bytes, UploadEntry>, after: map<Bytes, UploadEntry>, id: Bytes, u: Upload,
    bucket: Bytes, key: Bytes, other: Bytes)
    requires HoldsEntries(uploads, id, u) && COLON !in bucket && bucket != META_TAG && COLON !in other && other != id
    requires forall k :: k != UploadKey(bucket, key, other) && k != UploadMetaKey(bucket, key, other) ==>
      (k in uploads <==> k in after) && (k in uploads ==> after[k] == uploads[k])
    ensures HoldsEntries(after, id, u)
  {
    hide UploadKey, UploadMetaKey;
    KeysApart(bucket, key, other, u.bucket, u.key, id);
  }

  lemma EntriesAdded(uploads: map<Bytes, UploadEntry>, id: Bytes, u: Upload, now: int)
    requires COLON !in u.bucket && u.bucket != META_TAG && COLON !in id && Proper(id)
    ensures HoldsEntries(
      uploads[UploadKey(u.bucket, u.key, id) := UploadInfo(u.key, id, now)]
             [UploadMetaKey(u.bucket, u.key, id) := UploadMeta(u.meta)], id, u)
  {
  }

  lemma NoParts(files: map<Path, Bytes>, live: map<Bytes, Upload>, id: Bytes)
    requires id !in live && Proper(id) && forall x :: x in live ==> Proper(x)
    requires forall p :: p in files ==> OfLive(live, p)
    ensures HoldsParts(map[], files, id, map[])
  {
    hide Below, UploadDir, PartPath, Proper;
    forall p | p in files
      ensures !Below(p, UploadDir(id))
    {
      var x :| x in live && Below(p, UploadDir(x));
      OneDirectory(p, x, id);
    }
  }

  /** A file lies in the directory of one upload only. */
  lemma OneDirectory(p: Path, x: Bytes, y: Bytes)
    requires Proper(x) && Proper(y) && Below(p, UploadDir(x))
    ensures Below(p, UploadDir(y)) ==> x == y
  {
    hide UploadDir, Proper;
    UploadDirIs(x);
    UploadDirIs(y);
    assert p.names[2] == x;
  }

  lemma UploadDirIs(id: Bytes)
    requires Proper(id)
    ensures UploadDir(id) == Inside([TEMP, MULTIPART, id])
    ensures forall n :: Below(PartPath(id, PartName(n)), UploadDir(id))
    ensures forall m, n :: PartPath(id, PartName(m)) == PartPath(id, PartName(n)) <==> m == n
  {
    hide UploadDir, Proper, PartPath, PartName;
    forall n
      ensures PartPath(id, PartName(n)) == Inside([TEMP, MULTIPART, id, PARTS, PartName(n)])
    {
      PartNameIsProper(n);
      ProperUpload(id, PartName(n));
    }
    PartNameIsProper(1);
    ProperUpload(id, PartName(1));
    forall m, n | PartPath(id, PartName(m)) == PartPath(id, PartName(n))
      ensures m == n
    {
      PartNameInjective(m, n);
    }
  }

  lemma {:induction false} PaddedIsDigits(n: nat, w: nat)
    ensures forall i :: 0 <= i < |Padded(n, w)| ==> Padded(n, w)[i] >= ZERO
    decreases n + w
  {
    if n > 0 || w > 0 { PaddedIsDigits(n / 10, if w == 0 then 0 else w - 1); }
  }

  lemma PartNameIsProper(n: int)
    ensures Proper(PartName(n))
  {
    hide Padded;
    if n < 0 { PaddedIsDigits(-n, 4); } else { PaddedIsDigits(n, 5); }
    PaddedIsNotEmpty(if n < 0 then -n else n, 5);
    assert PartName(n)[0] != DOT[0] && DOT_DOT[0] == DOT[0];
  }

  lemma CreateHolds(d: Disk, live: map<Bytes, Upload>, bucket: Bytes, key: Bytes, meta: ObjectMeta, stamp: Stamp)
    requires Holds(d, live) && COLON !in bucket && bucket != META_TAG && COLON !in stamp.id && Proper(stamp.id)
    requires stamp.id !in live
    ensures Holds(Perform(d, Create(bucket, key, meta, stamp)), Expected(live, Create(bucket, key, meta, stamp)))
  {
    hide UploadKey, UploadMetaKey, HoldsEntries, HoldsParts, Owned;
    var id := stamp.id;
    var after, next := Perform(d, Create(bucket, key, meta, stamp)), Expected(live, Create(bucket, key, meta, stamp));
    EntriesAdded(d.db.uploads, id, next[id], stamp.now);
    LiveIdsAreProper(d, live);
    NoParts(d.partFiles, live, id);
    MoreLive(d.partFiles, live, next);
    forall x | x in live
      ensures HoldsEntries(after.db.uploads, x, live[x])
    {
      EntriesStay(d.db.uploads, after.db.uploads, x, live[x], bucket, key, id);
    }
    forall k | k in after.db.uploads
      ensures Owned(next, k)
    {
      if k in d.db.uploads { OwnedStays(live, next, k); } else { OwnedBy(next, id, k); }
    }
  }

  lemma LiveIdsAreProper(d: Disk, live: map<Bytes, Upload>)
    requires Holds(d, live)
    ensures forall x :: x in live ==> Proper(x)
  {
    hide Proper, HoldsParts, Owned, OfLive;
    forall x | x in live
      ensures Proper(x)
    {
      assert HoldsEntries(d.db.uploads, x, live[x]);
    }
  }

  lemma MoreLive(files: map<Path, Bytes>, live: map<Bytes, Upload>, next: map<Bytes, Upload>)
    requires live.Keys <= next.Keys && forall p :: p in files ==> OfLive(live, p)
    ensures forall p :: p in files ==> OfLive(next, p)
  {
    hide Below, UploadDir;
    forall p | p in files
      ensures OfLive(next, p)
    {
      var x :| x in live && Below(p, UploadDir(x));
      assert x in next;
    }
  }

  lemma OwnedBy(live: map<Bytes, Upload>, id: Bytes, k: Bytes)
    requires id in live
    requires k == UploadKey(live[id].bucket, live[id].key, id) || k == UploadMetaKey(live[id].bucket, live[id].key, id)
    ensures Owned(live, k)
  {
    hide UploadKey, UploadMetaKey;
  }

  lemma OwnedStays(live: map<Bytes, Upload>, next: map<Bytes, Upload>, k: Bytes)
    requires Owned(live, k)
    requires forall x :: x in live ==> x in next && next[x].bucket == live[x].bucket && next[x].key == live[x].key
    ensures Owned(next, k)
  {
    hide UploadKey, UploadMetaKey;
  }

  /** Two ids share a part's path only if one is the other's alias. */
  lemma PartOfOther(x: Bytes, m: int, id: Bytes, n: int)
    requires Proper(x) && x != id && PartPath(x, PartName(m)) == PartPath(id, PartName(n))
    ensures AliasesUpload(id)
  {
    hide UploadDir, Proper, PartName;
    PartNameIsProper(n);
    PartNameIsProper(m);
    ProperUpload(x, PartName(m));
    var dir := UploadDir(id);
    if dir.Inside? {
      EnterTwo(dir, PartName(n));
      var q := dir.names + [PARTS] + [PartName(n)];
      assert q == [TEMP, MULTIPART, x, PARTS, PartName(m)];
      assert dir.names == q[..3] == [TEMP, MULTIPART, x];
    }
  }

  lemma FileIsOfPart(d: Disk, live: map<Bytes, Upload>, p: Path) returns (x: Bytes, m: int)
    requires Holds(d, live) && p in d.partFiles
    ensures x in live && Proper(x) && HasFile(live[x].parts, m) && p == PartPath(x, PartName(m))
  {
    hide HoldsEntries, Owned, Below, UploadDir, PartPath, PartName, Proper;
    assert OfLive(live, p);
    x :| x in live && Below(p, UploadDir(x));
    LiveIdsAreProper(d, live);
    assert HoldsParts(d.db.parts[x], d.partFiles, x, live[x].parts);
    assert FileOfPart(live[x].parts, x, p);
    m :| HasFile(live[x].parts, m) && p == PartPath(x, PartName(m));
  }

  /** The path of a refused part is no live upload's. */
  lemma RefusedPathIsFree(d: Disk, live: map<Bytes, Upload>, id: Bytes, n: int)
    requires Holds(d, live) && id !in live && !AliasesUpload(id)
    ensures PartPath(id, PartName(n)) !in d.partFiles
  {
    hide Holds, PartPath, PartName, AliasesUpload, Proper;
    if PartPath(id, PartName(n)) in d.partFiles {
      var x, m := FileIsOfPart(d, live, PartPath(id, PartName(n)));
      PartOfOther(x, m, id, n);
    }
  }

  /** Why: under an id whose directory is another upload's, a part is refused, and takes that upload's part away. */
  lemma RefusedPartRemoves(d: Disk, live: map<Bytes, Upload>, x: Bytes, id: Bytes, n: int, content: Bytes, now: int)
    requires Holds(d, live) && x in live && id !in live && UploadDir(id) == UploadDir(x)
    ensures AliasesUpload(id)
    ensures var op := PutPart(id, n, content, now);
      !Succeeds(d, op) && Perform(d, op) == d.(partFiles := d.partFiles - {PartPath(x, PartName(n))})
  {
    hide HoldsEntries, HoldsParts, Owned, OfLive, PartName, UploadDir, Proper;
    LiveIdsAreProper(d, live);
    UploadDirIs(x);
  }

  lemma PutPartHolds(d: Disk, live: map<Bytes, Upload>, id: Bytes, n: int, content: Bytes, now: int)
    requires Holds(d, live) && (id in live || !AliasesUpload(id))
    ensures Succeeds(d, PutPart(id, n, content, now)) <==> id in live
    ensures Holds(Perform(d, PutPart(id, n, content, now)), Expected(live, PutPart(id, n, content, now)))
  {
    hide UploadKey, UploadMetaKey, PartName, Owned, OfLive, HoldsEntries, HoldsParts, PartPath, UploadDir, Proper;
    hide Below;
    hide AliasesUpload;
    var after, next := Perform(d, PutPart(id, n, content, now)), Expected(live, PutPart(id, n, content, now));
    var path := PartPath(id, PartName(n));
    if id in live {
      LiveIdsAreProper(d, live);
      UploadDirIs(id);
      PartNameIsProper(n);
      ProperUpload(id, PartName(n));
      assert after.partFiles == d.partFiles[path := content];
      forall x | x in live
        ensures HoldsEntries(d.db.uploads, x, next[x])
        ensures HoldsParts(after.db.parts[x], after.partFiles, x, next[x].parts)
      {
        if x == id {
          SameEntries(d.db.uploads, x, live[x], next[x]);
          PartAdded(d.db.parts[x], d.partFiles, x, live[x].parts, n, Part(content, now, true));
        } else {
          OneDirectory(path, id, x);
          OtherParts(d.db.parts[x], d.partFiles, after.partFiles, x, live[x].parts);
        }
      }
      forall k | k in d.db.uploads
        ensures Owned(next, k)
      {
        OwnedStays(live, next, k);
      }
      MoreLive(d.partFiles, live, next);
      LiveOwns(next, id, path);
    } else {
      RefusedPathIsFree(d, live, id, n);
      assert after.partFiles == d.partFiles;
    }
  }

  lemma LiveOwns(live: map<Bytes, Upload>, id: Bytes, p: Path)
    requires id in live && Below(p, UploadDir(id))
    ensures OfLive(live, p)
  {
  }

  lemma SameEntries(uploads: map<Bytes, UploadEntry>, id: Bytes, u: Upload, v: Upload)
    requires HoldsEntries(uploads, id, u) && v == u.(parts := v.parts)
    ensures HoldsEntries(uploads, id, v)
  {
  }

  lemma NameAdded(parts: map<int, Part>, n: int, p: Part, name: Bytes)
    requires NameOfPart(parts, name) || name == PartName(n)
    ensures NameOfPart(parts[n := p], name)
  {
    hide PartName;
    if name == PartName(n) {
      assert n in parts[n := p];
    } else {
      var m :| m in parts && PartName(m) == name;
      assert m in parts[n := p];
    }
  }

  lemma FileAdded(parts: map<int, Part>, id: Bytes, n: int, p: Part, q: Path)
    requires p.kept && (FileOfPart(parts, id, q) || q == PartPath(id, PartName(n)))
    ensures FileOfPart(parts[n := p], id, q)
  {
    hide PartName, PartPath;
    if q == PartPath(id, PartName(n)) {
      assert HasFile(parts[n := p], n);
    } else {
      var m :| HasFile(parts, m) && q == PartPath(id, PartName(m));
      assert HasFile(parts[n := p], m);
    }
  }

  lemma PartAdded(
    records: map<Bytes, PartInfo>, files: map<Path, Bytes>, id: Bytes, parts: map<int, Part>, n: int, p: Part)
    requires HoldsParts(records, files, id, parts) && p.kept && Proper(id)
    ensures HoldsParts(
      records[PartName(n) := RecordOf(n, p)], files[PartPath(id, PartName(n)) := p.content], id, parts[n := p])
  {
    hide PartName, PartPath, UploadDir, Below, Proper, NameOfPart, FileOfPart, RecordOf;
    UploadDirIs(id);
    forall m
      ensures PartName(m) == PartName(n) <==> m == n
    {
      PartNameInjective(m, n);
    }
    var next := parts[n := p];
    var namesNext, filesNext := records[PartName(n) := RecordOf(n, p)], files[PartPath(id, PartName(n)) := p.content];
    forall name | name in namesNext
      ensures NameOfPart(next, name)
    {
      NameAdded(parts, n, p, name);
    }
    forall q | q in filesNext && Below(q, UploadDir(id))
      ensures FileOfPart(next, id, q)
    {
      FileAdded(parts, id, n, p, q);
    }
  }

  /** A restart leaves the records and takes the files. */
  lemma PartsSwept(records: map<Bytes, PartInfo>, files: map<Path, Bytes>, id: Bytes, parts: map<int, Part>)
    requires HoldsParts(records, files, id, parts)
    ensures HoldsParts(records, map[], id, Swept(parts))
  {
    hide PartName;
    forall name | NameOfPart(parts, name)
      ensures NameOfPart(Swept(parts), name)
    {
      var m :| m in parts && PartName(m) == name;
      assert m in Swept(parts);
    }
  }

  lemma RestartHolds(d: Disk, live: map<Bytes, Upload>)
    requires Holds(d, live)
    ensures Holds(Perform(d, Restart), Expected(live, Restart))
  {
    hide UploadKey, UploadMetaKey, Owned, HoldsEntries, HoldsParts;
    var next := Expected(live, Restart);
    forall x | x in live
      ensures HoldsEntries(d.db.uploads, x, next[x]) && HoldsParts(d.db.parts[x], map[], x, next[x].parts)
    {
      SameEntries(d.db.uploads, x, live[x], next[x]);
      PartsSwept(d.db.parts[x], d.partFiles, x, live[x].parts);
    }
    forall k | k in d.db.uploads
      ensures Owned(next, k)
    {
      OwnedStays(live, next, k);
    }
  }

  lemma OtherParts(
    records: map<Bytes, PartInfo>, files: map<Path, Bytes>, after: map<Path, Bytes>, id: Bytes, parts: map<int, Part>)
    requires HoldsParts(records, files, id, parts) && Proper(id)
    requires forall p :: Below(p, UploadDir(id)) ==>
      (p in files <==> p in after) && (p in files ==> after[p] == files[p])
    ensures HoldsParts(records, after, id, parts)
  {
    hide PartName, PartPath, UploadDir, Below, Proper, NameOfPart, FileOfPart;
    UploadDirIs(id);
  }

  /** Dropping an upload drops its entries, its records and its files, and nothing else. */
  lemma DropHolds(d: Disk, live: map<Bytes, Upload>, bucket: Bytes, key: Bytes, id: Bytes)
    requires Holds(d, live) && IsLive(live, bucket, key, id)
    ensures DeleteUploadTx(d.db, bucket, key, id).Ok?
    ensures Holds(RemoveParts(d.(db := DeleteUploadTx(d.db, bucket, key, id).value), id), live - {id})
  {
    hide UploadKey, UploadMetaKey, HoldsParts, HoldsEntries, Owned, OfLive, UploadDir, Below, Proper;
    LiveNames(d.db.uploads, id, live[id]);
    LiveIdsAreProper(d, live);
    var after, next := RemoveParts(d.(db := DeleteUploadTx(d.db, bucket, key, id).value), id), live - {id};
    forall x | x in next
      ensures HoldsEntries(after.db.uploads, x, next[x])
    {
      EntriesStay(d.db.uploads, after.db.uploads, x, live[x], bucket, key, id);
    }
    forall x | x in next
      ensures HoldsParts(after.db.parts[x], after.partFiles, x, next[x].parts)
    {
      forall p | Below(p, UploadDir(x))
        ensures !Below(p, UploadDir(id))
      {
        OneDirectory(p, x, id);
      }
      OtherParts(d.db.parts[x], d.partFiles, after.partFiles, x, live[x].parts);
    }
    forall k | k in after.db.uploads
      ensures Owned(next, k)
    {
      OwnedByAnother(live, id, k);
    }
    forall p | p in after.partFiles
      ensures OfLive(next, p)
    {
      OfAnother(live, id, p);
    }
  }

  lemma OfAnother(live: map<Bytes, Upload>, id: Bytes, p: Path)
    requires OfLive(live, p) && !Below(p, UploadDir(id))
    ensures OfLive(live - {id}, p)
  {
    hide Below, UploadDir;
    var x :| x in live && Below(p, UploadDir(x));
    assert x in live - {id};
  }

  lemma LiveNames(uploads: map<Bytes, UploadEntry>, id: Bytes, u: Upload)
    requires HoldsEntries(uploads, id, u)
    ensures COLON !in u.bucket && u.bucket != META_TAG && COLON !in id && UploadKey(u.bucket, u.key, id) in uploads
  {
    hide UploadKey, UploadMetaKey;
  }

  lemma OwnedByAnother(live: map<Bytes, Upload>, id: Bytes, k: Bytes)
    requires Owned(live, k) && id in live
    requires k != UploadKey(live[id].bucket, live[id].key, id) && k != UploadMetaKey(live[id].bucket, live[id].key, id)
    ensures Owned(live - {id}, k)
  {
    hide UploadKey, UploadMetaKey;
    var x :| x in live &&
      (k == UploadKey(live[x].bucket, live[x].key, x) || k == UploadMetaKey(live[x].bucket, live[x].key, x));
    assert x in live - {id};
  }

  lemma AbortHolds(d: Disk, live: map<Bytes, Upload>, bucket: Bytes, key: Bytes, id: Bytes)
    requires Holds(d, live) && COLON !in bucket && bucket != META_TAG && COLON !in id
    ensures var op := Abort(bucket, key, id);
      && (Succeeds(d, op) <==> IsLive(live, bucket, key, id))
      && Holds(Perform(d, op), if Succeeds(d, op) then Expected(live, op) else live)
  {
    hide UploadKey, UploadMetaKey, Holds, RemoveParts;
    EntryIsLive(d, live, bucket, key, id);
    if IsLive(live, bucket, key, id) { DropHolds(d, live, bucket, key, id); }
  }

  // ----- completion -----

  /** The uploaded contents of the listed parts, in request order. */
  function Joined(parts: map<int, Part>, request: seq<CompletePart>): Bytes
    requires AllUploaded(parts, request)
  {
    if request == [] then [] else parts[request[0].partNumber].content + Joined(parts, request[1..])
  }

  function TotalSize(parts: map<int, Part>, request: seq<CompletePart>): nat
    requires AllUploaded(parts, request)
  {
    if request == [] then 0 else |parts[request[0].partNumber].content| + TotalSize(parts, request[1..])
  }

  lemma {:induction false} JoinedAppend(parts: map<int, Part>, request: seq<CompletePart>, last: CompletePart)
    requires AllUploaded(parts, request) && HasFile(parts, last.partNumber)
    ensures AllUploaded(parts, request + [last])
    ensures Joined(parts, request + [last]) == Joined(parts, request) + parts[last.partNumber].content
  {
    var longer := request + [last];
    if request == [] {
      assert longer[1..] == [];
    } else {
      assert longer[1..] == request[1..] + [last];
      JoinedAppend(parts, request[1..], last);
    }
  }

  lemma {:induction false} JoinedSize(parts: map<int, Part>, request: seq<CompletePart>)
    requires AllUploaded(parts, request)
    ensures |Joined(parts, request)| == TotalSize(parts, request)
  {
    if request != [] { JoinedSize(parts, request[1..]); }
  }

  lemma PartFileIs(d: Disk, live: map<Bytes, Upload>, id: Bytes, n: int)
    requires Holds(d, live) && id in live
    ensures PartPath(id, PartName(n)) in d.partFiles <==> HasFile(live[id].parts, n)
    ensures HasFile(live[id].parts, n) ==> d.partFiles[PartPath(id, PartName(n))] == live[id].parts[n].content
  {
    hide PartName, PartPath, UploadDir, Below, Proper, UploadKey, UploadMetaKey, Owned, OfLive, HoldsEntries;
    var parts := live[id].parts;
    LiveIdsAreProper(d, live);
    UploadDirIs(id);
    assert HoldsParts(d.db.parts[id], d.partFiles, id, parts);
    if PartPath(id, PartName(n)) in d.partFiles {
      assert FileOfPart(parts, id, PartPath(id, PartName(n)));
      var m :| HasFile(parts, m) && PartPath(id, PartName(n)) == PartPath(id, PartName(m));
    }
  }

  /**
   * The part loop succeeds exactly when every listed part was uploaded since the last
   * restart, and joins their contents.
   */
  lemma {:induction false} AssembleIsJoined(d: Disk, live: map<Bytes, Upload>, id: Bytes, request: seq<CompletePart>)
    requires Holds(d, live) && id in live
    ensures Assemble(d, id, request) ==
      if AllUploaded(live[id].parts, request) then Some(Joined(live[id].parts, request)) else None
  {
    hide Holds, PartName, PartPath;
    if request != [] {
      var front, last := request[..|request| - 1], request[|request| - 1];
      assert request == front + [last];
      AssembleIsJoined(d, live, id, front);
      PartFileIs(d, live, id, last.partNumber);
      if AllUploaded(live[id].parts, front) && HasFile(live[id].parts, last.partNumber) {
        JoinedAppend(live[id].parts, front, last);
      }
    }
  }

  lemma HoldsElsewhere(d: Disk, e: Disk, live: map<Bytes, Upload>)
    requires Holds(d, live) && e.db.uploads == d.db.uploads && e.db.parts == d.db.parts && e.partFiles == d.partFiles
    ensures Holds(e, live)
  {
    hide HoldsParts, HoldsEntries, Owned, OfLive;
  }

  lemma RecordLeavesUploads(d: Disk, bucket: Bytes, key: Bytes, m: ObjectMeta, content: Bytes)
    ensures var e := RecordObject(Place(d, FilePath(bucket, key, m.versionId), content), bucket, key, m);
      && e.db.uploads == d.db.uploads && e.db.parts == d.db.parts && e.partFiles == d.partFiles
  {
  }

  lemma CompleteHolds(
    d: Disk, live: map<Bytes, Upload>, bucket: Bytes, key: Bytes, id: Bytes, request: seq<CompletePart>, stamp: Stamp)
    requires Holds(d, live) && COLON !in bucket && bucket != META_TAG && COLON !in id
    ensures var op := Complete(bucket, key, id, request, stamp);
      && (Succeeds(d, op) <==> Accepted(live, d.db, op))
      && Holds(Perform(d, op), if Succeeds(d, op) then Expected(live, op) else live)
  {
    hide UploadKey, UploadMetaKey, Holds, RemoveParts, Assemble, DeleteUploadTx, FilePath, AllUploaded, Joined;
    hide Reachable, CompletedId, CleanUp;
    EntryIsLive(d, live, bucket, key, id);
    if IsLive(live, bucket, key, id) {
      EntryMeta(d, live, id);
      AssembleIsJoined(d, live, id, request);
      var versionId := CompletedId(d.db, bucket, live[id].meta, stamp);
      if AllUploaded(live[id].parts, request) && Reachable(bucket, key, versionId) {
        var content := Joined(live[id].parts, request);
        var m := CompletedMeta(d, bucket, GetUploadSpec(d.db, bucket, key, id).value, ETags(request), |content|, stamp);
        var recorded := RecordObject(Place(d, FilePath(bucket, key, m.versionId), content), bucket, key, m);
        RecordLeavesUploads(d, bucket, key, m, content);
        HoldsElsewhere(d, recorded, live);
        DropHolds(recorded, live, bucket, key, id);
        LiveCleanUp(d, live, id);
      }
    }
  }

  lemma LiveCleanUp(d: Disk, live: map<Bytes, Upload>, id: Bytes)
    requires Holds(d, live) && id in live
    ensures forall e: Disk :: CleanUp(e, id) == RemoveParts(e, id)
  {
    hide HoldsEntries, HoldsParts, Owned, OfLive, UploadDir, Proper;
    LiveIdsAreProper(d, live);
    UploadDirIs(id);
  }

  /** A completion records one object, whose file joins the parts in request order, and a read of its key returns it. */
  lemma CompletedRecord(
    d: Disk, live: map<Bytes, Upload>, bucket: Bytes, key: Bytes, id: Bytes, request: seq<CompletePart>, stamp: Stamp)
    requires Holds(d, live) && COLON !in bucket && bucket != META_TAG && COLON !in id
    requires Accepted(live, d.db, Complete(bucket, key, id, request, stamp))
    ensures var (after, r) := CompleteUploadAfter(d, bucket, key, id, request, stamp);
      var content := Joined(live[id].parts, request);
      var m := CompletedMeta(d, bucket, live[id].meta, ETags(request), |content|, stamp);
      && r == Ok(PutResult(m.etag, m.size, m.versionId))
      && m.size == TotalSize(live[id].parts, request)
      && after.files == d.files[FilePath(bucket, key, m.versionId) := content]
      && VersionsOf(after.db, bucket) == VersionsOf(d.db, bucket)[VersionKey(key, m.versionId) := m]
      && GetObjectAfter(after, bucket, key, [], None, None) == Ok(Object(m, content, 0, m.size - 1))
  {
    hide UploadKey, UploadMetaKey, Holds, Assemble, FilePath, AllUploaded, Joined, VersionKey, CleanUp;
    LiveCleanUp(d, live, id);
    EntryIsLive(d, live, bucket, key, id);
    EntryMeta(d, live, id);
    AssembleIsJoined(d, live, id, request);
    JoinedSize(live[id].parts, request);
    DropHolds(d, live, bucket, key, id);
  }

  lemma EntryMeta(d: Disk, live: map<Bytes, Upload>, id: Bytes)
    requires Holds(d, live) && id in live
    ensures GetUploadSpec(d.db, live[id].bucket, live[id].key, id) == Ok(live[id].meta)
  {
    hide UploadKey, UploadMetaKey, HoldsParts, Owned;
    assert HoldsEntries(d.db.uploads, id, live[id]);
  }

  // ----- runs -----

  /** The disk, the uploads that clients know to be live, and all upload ids ever given out. */
  datatype World = World(disk: Disk, live: map<Bytes, Upload>, used: set<Bytes>)

  ghost predicate Inv(w: World) {
    && Holds(w.disk, w.live)
    && w.live.Keys <= w.used
    && forall id, n :: id in w.live && n in w.live[id].parts ==> 1 <= n <= 10000
  }

  function Next(w: World, op: Op): World {
    World(
      Perform(w.disk, op),
      if Succeeds(w.disk, op) then Expected(w.live, op) else w.live,
      if op.Create? then w.used + {op.stamp.id} else w.used)
  }

  function Run(w: World, ops: seq<Op>): World
    decreases |ops|
  {
    if ops == [] then w else Run(Next(w, ops[0]), ops[1..])
  }

  predicate LegalRun(used: set<Bytes>, ops: seq<Op>)
    decreases |ops|
  {
    ops == [] || (Legal(ops[0], used) && LegalRun(if ops[0].Create? then used + {ops[0].stamp.id} else used, ops[1..]))
  }

  /** A request succeeds exactly when its client may expect it to, and the disk then holds what it expects. */
  lemma StepHolds(w: World, op: Op)
    requires Inv(w) && Legal(op, w.used)
    ensures Succeeds(w.disk, op) <==> Accepted(w.live, w.disk.db, op)
    ensures Inv(Next(w, op))
  {
    hide Holds, UploadPartAfter, CompleteUploadAfter, AbortUploadAfter;
    match op
    case Create(bucket, key, meta, stamp) => CreateHolds(w.disk, w.live, bucket, key, meta, stamp);
    case PutPart(id, n, content, now) => PutPartHolds(w.disk, w.live, id, n, content, now);
    case Complete(bucket, key, id, parts, stamp) => CompleteHolds(w.disk, w.live, bucket, key, id, parts, stamp);
    case Abort(bucket, key, id) => AbortHolds(w.disk, w.live, bucket, key, id);
    case Elsewhere(rest) => HoldsElsewhere(w.disk, Perform(w.disk, op), w.live);
    case Restart => RestartHolds(w.disk, w.live);
  }

  lemma {:induction false} RunHolds(w: World, ops: seq<Op>)
    requires Inv(w) && LegalRun(w.used, ops)
    ensures Inv(Run(w, ops)) && w.used <= Run(w, ops).used
    decreases |ops|
  {
    hide Inv, Legal, Perform, Succeeds, Expected;
    if ops != [] {
      StepHolds(w, ops[0]);
      RunHolds(Next(w, ops[0]), ops[1..]);
    }
  }

  /** An id that was given out and is no longer live never becomes live again. */
  lemma {:induction false} ClosedStaysClosed(w: World, ops: seq<Op>, id: Bytes)
    requires Inv(w) && LegalRun(w.used, ops) && id in w.used && id !in w.live
    ensures id in Run(w, ops).used && id !in Run(w, ops).live
    decreases |ops|
  {
    hide Inv, Perform, Succeeds;
    if ops != [] {
      StepHolds(w, ops[0]);
      ClosedStaysClosed(Next(w, ops[0]), ops[1..], id);
    }
  }

  predicate Addresses(op: Op, id: Bytes) {
    match op
    case PutPart(uploadId, _, _, _) => uploadId == id
    case Complete(_, _, uploadId, _, _) => uploadId == id
    case Abort(_, _, uploadId) => uploadId == id
    case _ => false
  }

  /**
   * After a successful complete or abort, no later part upload, complete or abort
   * of that id succeeds, each for want of the upload, and neither does listing its parts.
   */
  lemma ClosedForGood(w: World, close: Op, ops: seq<Op>, later: Op, bucket: Bytes, key: Bytes, id: Bytes, marker: int)
    requires Inv(w) && Legal(close, w.used) && (close.Complete? || close.Abort?) && close.uploadId == id
    requires Succeeds(w.disk, close) && LegalRun(w.used, ops)
    requires Legal(later, Run(Next(w, close), ops).used) && Addresses(later, id)
    requires COLON !in bucket && bucket != META_TAG
    ensures var d := Run(Next(w, close), ops).disk;
      && !Succeeds(d, later)
      && (later.PutPart? ==> var r := UploadPartAfter(d, id, later.partNumber, later.content, later.now).1;
            r == Err(StoreFailed(UploadNotFound)))
      && (later.Complete? ==>
            CompleteUploadAfter(d, later.bucket, later.key, id, later.parts, later.stamp) == (d, Err(NoSuchUpload)))
      && (later.Abort? ==> AbortUploadAfter(d, later.bucket, later.key, id) == (d, Some(NoSuchUpload)))
      && ListPartsSpec(d, bucket, key, id, marker) == Err(NoSuchUpload)
  {
    hide Holds, Perform, Succeeds;
    StepHolds(w, close);
    var closed := Next(w, close);
    ClosedStaysClosed(closed, ops, id);
    RunHolds(closed, ops);
    var end := Run(closed, ops);
    StepHolds(end, later);
    EntryIsLive(end.disk, end.live, bucket, key, id);
    if later.Complete? || later.Abort? { EntryIsLive(end.disk, end.live, later.bucket, later.key, id); }
    if later.PutPart? { PartsAreLive(end.disk, end.live, id); }
  }

  lemma PartsAreLive(d: Disk, live: map<Bytes, Upload>, id: Bytes)
    requires Holds(d, live)
    ensures id in d.db.parts <==> id in live
  {
    hide HoldsEntries, HoldsParts, Owned, OfLive;
  }

  /** What the last successful upload of a part in a run was, and whether a restart came after it. */
  function LastUpload(w: World, ops: seq<Op>, id: Bytes, n: int, before: Option<Part>): Option<Part>
    decreases |ops|
  {
    if ops == [] then before
    else
      var op := ops[0];
      var now := if op.PutPart? && op.uploadId == id && op.partNumber == n && Succeeds(w.disk, op)
                 then Some(Part(op.content, op.now, true))
                 else if op.Restart? && before.Some? then Some(before.value.(kept := false))
                 else before;
      LastUpload(Next(w, op), ops[1..], id, n, now)
  }

  function PartOf(live: map<Bytes, Upload>, id: Bytes, n: int): Option<Part> {
    if id in live && n in live[id].parts then Some(live[id].parts[n]) else None
  }

  /** The parts of an upload that is live after a run are what was last uploaded successfully. */
  lemma {:induction false} PartsAreLastUploads(w: World, ops: seq<Op>, id: Bytes, n: int)
    requires Inv(w) && LegalRun(w.used, ops) && id in Run(w, ops).live
    ensures PartOf(Run(w, ops).live, id, n) == LastUpload(w, ops, id, n, PartOf(w.live, id, n))
    decreases |ops|
  {
    hide Holds, Perform, Succeeds;
    if ops != [] {
      var op := ops[0];
      StepHolds(w, op);
      if id in w.live && id !in Next(w, op).live {
        ClosedStaysClosed(Next(w, op), ops[1..], id);
      }
      PartsAreLastUploads(Next(w, op), ops[1..], id, n);
    }
  }

  /** An upload that is still live has the bucket, key and metadata it was started with. */
  lemma {:induction false} UploadStays(w: World, ops: seq<Op>, id: Bytes)
    requires Inv(w) && LegalRun(w.used, ops) && id in w.live && id in Run(w, ops).live
    ensures var u, v := w.live[id], Run(w, ops).live[id]; u.bucket == v.bucket && u.key == v.key && u.meta == v.meta
    decreases |ops|
  {
    hide Holds, Perform, Succeeds;
    if ops != [] {
      var op := ops[0];
      StepHolds(w, op);
      if id !in Next(w, op).live { ClosedStaysClosed(Next(w, op), ops[1..], id); }
      UploadStays(Next(w, op), ops[1..], id);
    }
  }

  /** The tags that a completion was sent, in order. */
  lemma {:induction false} TagsInOrder(request: seq<CompletePart>)
    ensures |ETags(request)| == |request| && forall i :: 0 <= i < |request| ==> ETags(request)[i] == request[i].etag
  {
    if request != [] { TagsInOrder(request[..|request| - 1]); }
  }

  /**
   * The object that a completion has made: it reads back as this content, with the
   * retention date, the legal hold, the attributes and the marker flag that the upload
   * was started with, as the latest version under a new id, "null" or the upload's own,
   * as the bucket's versioning says, and with the tags, size and time of the completion.
   */
  ghost predicate MadeOf(
    d: Disk, after: Disk, bucket: Bytes, key: Bytes, start: ObjectMeta, content: Bytes, request: seq<CompletePart>,
    stamp: Stamp, r: PutResult)
  {
    var got := GetObjectAfter(after, bucket, key, [], None, None);
    var versioning := if bucket in d.db.buckets then d.db.buckets[bucket].versioning else "";
    && got.Ok? && got.value.content == content
    && var m := got.value.meta;
    && m.retainUntil == start.retainUntil && m.legalHold == start.legalHold
    && m.attributes == start.attributes && m.isDeleteMarker == start.isDeleteMarker
    && m.versionId == (if versioning == "Enabled" then stamp.id
                       else if versioning == "Suspended" then [110, 117, 108, 108] else start.versionId)
    && m.isLatest && m.lastModified == stamp.now && m.size == |content|
    && m.etag.Composite? && |m.etag.hashes| == |request|
    && (forall i :: 0 <= i < |request| ==> m.etag.hashes[i] == request[i].etag)
    && key + [0] + m.versionId in VersionsOf(after.db, bucket)
    && VersionsOf(after.db, bucket)[key + [0] + m.versionId] == m
    && r == PutResult(m.etag, m.size, m.versionId)
  }

  /**
   * A completed object holds the listed parts' current contents in request order, its
   * size is the sum of theirs, it keeps what its upload was started with, and no other
   * file or version of the bucket changes.
   */
  lemma CompletedObject(
    d: Disk, live: map<Bytes, Upload>, bucket: Bytes, key: Bytes, id: Bytes, request: seq<CompletePart>, stamp: Stamp)
    requires Holds(d, live) && COLON !in bucket && bucket != META_TAG && COLON !in id
    requires Accepted(live, d.db, Complete(bucket, key, id, request, stamp))
    ensures var (after, r) := CompleteUploadAfter(d, bucket, key, id, request, stamp);
      var content := Joined(live[id].parts, request);
      && r.Ok? && MadeOf(d, after, bucket, key, live[id].meta, content, request, stamp, r.value)
      && r.value.size == TotalSize(live[id].parts, request)
      && after.files == d.files[FilePath(bucket, key, r.value.versionId) := content]
      && (forall vk :: vk in VersionsOf(d.db, bucket) && vk != key + [0] + r.value.versionId ==>
            vk in VersionsOf(after.db, bucket) && VersionsOf(after.db, bucket)[vk] == VersionsOf(d.db, bucket)[vk])
  {
    hide Holds, CompleteUploadAfter, GetObjectAfter, Joined, FilePath, Reachable, AllUploaded, TotalSize;
    CompletedRecord(d, live, bucket, key, id, request, stamp);
    TagsInOrder(request);
    JoinedSize(live[id].parts, request);
  }

  /** From the start of an upload to its completion, whatever the run does in between. */
  lemma CompletedKeepsMeta(
    w: World, bucket: Bytes, key: Bytes, meta: ObjectMeta, start: Stamp, ops: seq<Op>, request: seq<CompletePart>,
    stamp: Stamp)
    requires Inv(w) && Legal(Create(bucket, key, meta, start), w.used) && LegalRun(w.used + {start.id}, ops)
    ensures var end := Run(Next(w, Create(bucket, key, meta, start)), ops);
      var (after, r) := CompleteUploadAfter(end.disk, bucket, key, start.id, request, stamp);
      r.Ok? ==>
        && start.id in end.live && AllUploaded(end.live[start.id].parts, request)
        && var content := Joined(end.live[start.id].parts, request);
           MadeOf(end.disk, after, bucket, key, meta, content, request, stamp, r.value)
  {
    hide Holds, CompleteUploadAfter, MadeOf, Joined, Reachable, AllUploaded;
    var create := Create(bucket, key, meta, start);
    var started := Next(w, create);
    StepHolds(w, create);
    RunHolds(started, ops);
    var end := Run(started, ops);
    CompleteHolds(end.disk, end.live, bucket, key, start.id, request, stamp);
    if CompleteUploadAfter(end.disk, bucket, key, start.id, request, stamp).1.Ok? {
      UploadStays(started, ops, start.id);
      CompletedObject(end.disk, end.live, bucket, key, start.id, request, stamp);
    }
  }

  /**
   * So an upload that was started with a legal hold or a retention date becomes a version
   * that no delete by id takes while it is held.
   */
  lemma LockedUploadsStay(
    w: World, bucket: Bytes, key: Bytes, meta: ObjectMeta, start: Stamp, ops: seq<Op>, request: seq<CompletePart>,
    stamp: Stamp, later: Stamp)
    requires Inv(w) && Legal(Create(bucket, key, meta, start), w.used) && LegalRun(w.used + {start.id}, ops)
    requires meta.legalHold == "ON" || (meta.retainUntil.Some? && later.now < meta.retainUntil.value)
    ensures var d := Run(Next(w, Create(bucket, key, meta, start)), ops).disk;
      var (after, r) := CompleteUploadAfter(d, bucket, key, start.id, request, stamp);
      r.Ok? && r.value.versionId != [] ==>
        DeleteObjectAfter(after, bucket, key, r.value.versionId, later) == (after, Some(AccessDenied))
  {
    hide CompleteUploadAfter, DeleteObjectAfter, GetObjectAfter, Inv, Legal, LegalRun, Run, Next, Joined;
    var d := Run(Next(w, Create(bucket, key, meta, start)), ops).disk;
    var (after, r) := CompleteUploadAfter(d, bucket, key, start.id, request, stamp);
    CompletedKeepsMeta(w, bucket, key, meta, start, ops, request, stamp);
    if r.Ok? && r.value.versionId != [] { DeleteRefused(after, bucket, key, r.value.versionId, later); }
  }

  /** The listing of a live upload: a record of each part's last upload, by ascending number. */
  lemma PartsListed(w: World, id: Bytes)
    requires Inv(w) && id in w.live
    ensures var u := w.live[id]; var listed := ListPartsSpec(w.disk, u.bucket, u.key, id, 0);
      && listed.Ok? && Ascending(listed.value)
      && forall p :: p in listed.value <==>
           p.partNumber in u.parts &&
           var part := u.parts[p.partNumber];
           p.lastModified == part.at && p.etag == Md5(part.content) && p.size == |part.content|
  {
    hide UploadKey, UploadMetaKey, PartName, PartsAfter, Owned, Ascending;
    var u, records := w.live[id], w.disk.db.parts[id];
    EntryMeta(w.disk, w.live, id);
    assert HoldsParts(records, w.disk.partFiles, id, u.parts);
    RecordsAreParts(records, w.disk.partFiles, id, u.parts);
    WholePartListing(records);
  }

  lemma RecordsAreParts(
    records: map<Bytes, PartInfo>, files: map<Path, Bytes>, id: Bytes, parts: map<int, Part>)
    requires HoldsParts(records, files, id, parts) && forall n :: n in parts ==> 1 <= n <= 10000
    ensures WellNumbered(records)
    ensures forall p :: p in records.Values <==> exists n :: n in parts && p == RecordOf(n, parts[n])
  {
    hide PartName;
    forall name | name in records
      ensures exists n :: n in parts && records[name] == RecordOf(n, parts[n]) && name == PartName(n)
    {
      assert NameOfPart(parts, name);
    }
    forall p, n | n in parts && p == RecordOf(n, parts[n])
      ensures p in records.Values
    {
      assert records[PartName(n)] == p;
    }
  }

  /**
   * After a restart an upload still lists its parts, and is refused completion with any
   * of them until they come again.
   */
  lemma RestartLosesParts(w: World, id: Bytes, request: seq<CompletePart>, stamp: Stamp)
    requires Inv(w) && id in w.live && request != []
    ensures var u := w.live[id]; var d := Next(w, Restart).disk;
      && ListPartsSpec(d, u.bucket, u.key, id, 0) == ListPartsSpec(w.disk, u.bucket, u.key, id, 0)
      && CompleteUploadAfter(d, u.bucket, u.key, id, request, stamp) == (d, Err(InvalidPart))
  {
    hide UploadKey, UploadMetaKey, PartName, PartsAfter, HoldsEntries, HoldsParts, Owned;
    EntryMeta(w.disk, w.live, id);
    StepHolds(w, Restart);
    var after := Next(w, Restart);
    AssembleIsJoined(after.disk, after.live, id, request);
    assert !HasFile(after.live[id].parts, request[0].partNumber);
  }

  /** The empty disk holds no uploads. */
  lemma EmptyHolds(buckets: map<Bytes, BucketInfo>)
    ensures Inv(World(Disk(EMPTY_DB.(buckets := buckets), map[], map[]), map[], {}))
  {
  }

  predicate SameUploads(d: Disk, e: Disk) {
    e.db.uploads == d.db.uploads && e.db.parts == d.db.parts && e.partFiles == d.partFiles
  }

  /** The operations on objects and buckets leave the uploads alone, so each is an `Elsewhere` step. */
  lemma ObjectStepsAreElsewhere(
    d: Disk, bucket: Bytes, key: Bytes, content: Bytes, meta: ObjectMeta, now: int, versionId: Bytes, stamp: Stamp,
    lock: bool)
    ensures var put := PutObjectAfter(d, bucket, key, content, meta, now).0; Perform(d, Elsewhere(put)) == put
    ensures FilePath(bucket, key, versionId) !in d.partFiles ==>
      var gone := DeleteObjectAfter(d, bucket, key, versionId, stamp).0; Perform(d, Elsewhere(gone)) == gone
    ensures var made := d.(db := Committed(d.db, CreateBucketTx(d.db, bucket, lock)));
      Perform(d, Elsewhere(made)) == made
    ensures var dropped := d.(db := Committed(d.db, DeleteBucketTx(d.db, bucket)));
      Perform(d, Elsewhere(dropped)) == dropped
  {
    hide PutObjectAfter, DeleteObjectAfter, CreateBucketTx, DeleteBucketTx, FilePath;
    PutLeavesUploads(d, bucket, key, content, meta, now);
    if FilePath(bucket, key, versionId) !in d.partFiles { DeleteLeavesUploads(d, bucket, key, versionId, stamp); }
    BucketsLeaveUploads(d.db, bucket, lock);
    forall e: Disk | SameUploads(d, e)
      ensures Perform(d, Elsewhere(e)) == e
    {
    }
  }

  lemma PutLeavesUploads(d: Disk, bucket: Bytes, key: Bytes, content: Bytes, meta: ObjectMeta, now: int)
    ensures SameUploads(d, PutObjectAfter(d, bucket, key, content, meta, now).0)
  {
    hide FilePath, VersionKey;
  }

  lemma DeleteLeavesUploads(d: Disk, bucket: Bytes, key: Bytes, versionId: Bytes, stamp: Stamp)
    requires FilePath(bucket, key, versionId) !in d.partFiles
    ensures SameUploads(d, DeleteObjectAfter(d, bucket, key, versionId, stamp).0)
  {
    hide FilePath, VersionKey, DeleteObjectTx, PutObjectTx, GetObjectSpec;
    EraseLeavesUploads(d.db, bucket, key, versionId);
  }

  lemma EraseLeavesUploads(db: Db, bucket: Bytes, key: Bytes, versionId: Bytes)
    ensures var tx := DeleteObjectTx(db, bucket, key, versionId);
      tx.Ok? ==> tx.value.uploads == db.uploads && tx.value.parts == db.parts
    ensures forall m :: var tx := PutObjectTx(db, bucket, key, m);
      tx.Ok? ==> tx.value.uploads == db.uploads && tx.value.parts == db.parts
  {
    hide VersionKey, RecordsOf, DeleteVersion;
  }

  lemma BucketsLeaveUploads(db: Db, bucket: Bytes, lock: bool)
    ensures var made := Committed(db, CreateBucketTx(db, bucket, lock));
      made.uploads == db.uploads && made.parts == db.parts
    ensures var dropped := Committed(db, DeleteBucketTx(db, bucket));
      dropped.uploads == db.uploads && dropped.parts == db.parts
  {
  }

  // ----- the names that break it -----

  /**
   * What is read as the metadata of an upload may be the own record of an upload in the
   * bucket "meta"; then none of the fields are there, whatever that upload was started with.
   */
  lemma OwnRecordReadsEmpty(db: Db, bucket: Bytes, key: Bytes, id: Bytes, meta: ObjectMeta, now: int)
    ensures var after := CreateUploadTx(db, META_TAG, bucket + [COLON] + key, meta, id, now);
      GetUploadSpec(after, bucket, key, id) == Ok(ObjectMeta(0, NoETag, 0, [], false, false, None, "", ""))
  {
    var k := bucket + [COLON] + key;
    assert UploadKey(META_TAG, k, id) == UploadMetaKey(bucket, key, id);
    assert |UploadMetaKey(META_TAG, k, id)| > |UploadKey(META_TAG, k, id)|;
  }

  lemma AliasKeys(bucket: Bytes, key: Bytes, id: Bytes, x: Bytes, y: Bytes)
    ensures UploadKey(META_TAG, bucket + [COLON] + key, id) == UploadMetaKey(bucket, key, id)
    ensures UploadKey(bucket, x + [COLON] + y, id) == UploadKey(bucket, x, y + [COLON] + id)
    ensures UploadMetaKey(bucket, x + [COLON] + y, id) == UploadMetaKey(bucket, x, y + [COLON] + id)
    ensures |UploadMetaKey(bucket, key, id)| == |UploadKey(bucket, key, id)| + 5
  {
    assert META_TAG + [COLON] + (bucket + [COLON] + key + [COLON] + id) ==
      META_TAG + [COLON] + (bucket + [COLON] + key) + [COLON] + id;
    assert bucket + [COLON] + (x + [COLON] + y) + [COLON] + id == bucket + [COLON] + x + [COLON] + (y + [COLON] + id);
  }

  /**
   * Why no bucket may be named "meta": through that bucket every live upload can be
   * aborted under another name, and the abort of its own name then succeeds again.
   */
  lemma MetaBucketAliases(d: Disk, live: map<Bytes, Upload>, id: Bytes)
    requires Holds(d, live) && id in live
    ensures var u := live[id]; var alias := Abort(META_TAG, u.bucket + [COLON] + u.key, id);
      && Succeeds(d, alias)
      && Succeeds(Perform(d, alias), Abort(u.bucket, u.key, id))
  {
    hide HoldsParts, UploadKey, UploadMetaKey, Owned;
    var u := live[id];
    assert HoldsEntries(d.db.uploads, id, u);
    AliasKeys(u.bucket, u.key, id, [], []);
    AliasKeys(META_TAG, u.bucket + [COLON] + u.key, id, [], []);
  }

  /** Why ids may hold no colon: an upload of key "x:y" can be aborted as one of key "x", and still takes parts. */
  lemma ColonIdAliases(
    d: Disk, live: map<Bytes, Upload>, id: Bytes, x: Bytes, y: Bytes, n: int, content: Bytes, now: int)
    requires Holds(d, live) && id in live && live[id].key == x + [COLON] + y
    ensures var alias := Abort(live[id].bucket, x, y + [COLON] + id);
      && Succeeds(d, alias)
      && Succeeds(Perform(d, alias), PutPart(id, n, content, now))
      && !Succeeds(Perform(d, alias), Abort(live[id].bucket, x + [COLON] + y, id))
  {
    hide HoldsParts, PartName, UploadKey, UploadMetaKey, Owned;
    var u := live[id];
    assert HoldsEntries(d.db.uploads, id, u);
    AliasKeys(u.bucket, u.key, id, x, y);
    assert |y + [COLON] + id| > |id|;
  }

  lemma ColonInside(x: Bytes, i: Bytes, key: Bytes, id: Bytes)
    requires COLON in i && COLON !in id && x + [COLON] + i == key + [COLON] + id
    ensures COLON in key
  {
    var j :| 0 <= j < |i| && i[j] == COLON;
    var s, t := x + [COLON] + i, key + [COLON] + id;
    assert s[|x| + 1 + j] == COLON && s[|x|] == COLON;
    assert forall a :: |key| < a < |t| ==> t[a] == id[a - |key| - 1];
    assert t[|x|] == key[|x|];
  }

  /** Only uploads whose key holds a colon can be reached under an id that holds one, and each of them can. */
  lemma ColonIdsReach(d: Disk, live: map<Bytes, Upload>, bucket: Bytes)
    requires Holds(d, live) && COLON !in bucket && bucket != META_TAG
    ensures (exists x, i :: COLON in i && UploadKey(bucket, x, i) in d.db.uploads) <==>
      exists id :: id in live && live[id].bucket == bucket && COLON in live[id].key
  {
    hide UploadMetaKey, HoldsParts, Owned;
    forall x, i | COLON in i && UploadKey(bucket, x, i) in d.db.uploads
      ensures exists id :: id in live && live[id].bucket == bucket && COLON in live[id].key
    {
      var id := ReachedUpload(d, live, bucket, x, i);
    }
    forall id | id in live && live[id].bucket == bucket && COLON in live[id].key
      ensures exists x, i :: COLON in i && UploadKey(bucket, x, i) in d.db.uploads
    {
      var key := live[id].key;
      var j :| 0 <= j < |key| && key[j] == COLON;
      var x, y := key[..j], key[j + 1..];
      assert key == x + [COLON] + y;
      AliasKeys(bucket, key, id, x, y);
      assert HoldsEntries(d.db.uploads, id, live[id]);
      assert COLON in y + [COLON] + id by { assert (y + [COLON] + id)[|y|] == COLON; }
      assert UploadKey(bucket, x, y + [COLON] + id) in d.db.uploads;
    }
  }

  lemma SameUploadKey(b1: Bytes, x: Bytes, i: Bytes, b2: Bytes, key: Bytes, id: Bytes)
    requires COLON !in b1 && COLON !in b2 && COLON !in id && COLON in i
    requires UploadKey(b1, x, i) == UploadKey(b2, key, id)
    ensures b1 == b2 && COLON in key
  {
    assert UploadKey(b1, x, i) == b1 + [COLON] + (x + [COLON] + i);
    assert UploadKey(b2, key, id) == b2 + [COLON] + (key + [COLON] + id);
    FirstColon(b1, x + [COLON] + i, b2, key + [COLON] + id);
    ColonInside(x, i, key, id);
  }

  lemma ReachedUpload(d: Disk, live: map<Bytes, Upload>, bucket: Bytes, x: Bytes, i: Bytes) returns (id: Bytes)
    requires Holds(d, live) && COLON !in bucket && bucket != META_TAG && COLON in i
    requires UploadKey(bucket, x, i) in d.db.uploads
    ensures id in live && live[id].bucket == bucket && COLON in live[id].key
    ensures UploadKey(bucket, x, i) == UploadKey(live[id].bucket, live[id].key, id)
  {
    hide HoldsParts, UploadKey, UploadMetaKey;
    var k := UploadKey(bucket, x, i);
    assert Owned(live, k);
    id :| id in live &&
      (k == UploadKey(live[id].bucket, live[id].key, id) || k == UploadMetaKey(live[id].bucket, live[id].key, id));
    LiveNames(d.db.uploads, id, live[id]);
    MetaKeyAliases(bucket, x, i, live[id].bucket, live[id].key, id);
    SameUploadKey(bucket, x, i, live[id].bucket, live[id].key, id);
  }
}
