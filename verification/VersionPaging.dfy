/** The whole version listing of a bucket, and what following its markers delivers. */
module VersionPaging {
  import opened ByteStrings
  import opened Coherence
  import opened Listing
  import opened ObjectTypes
  import opened Outcomes
  import opened SortedKeys
  import opened VersionKeys
  import opened VersionListing

  /** The order of a version listing: by key, then newest first. */
  ghost predicate Before(a: ObjectInfo, b: ObjectInfo) {
    Less(a.key, b.key) || (a.key == b.key && a.lastModified > b.lastModified)
  }

  /** An entry of the listing of `prefix` describes a record of the store: each of its fields is the record's. */
  ghost predicate Describes(vs: map<Bytes, ObjectMeta>, prefix: Bytes, info: ObjectInfo) {
    && NoNul(info.key) && HasPrefix(info.key, prefix)
    && VersionKey(info.key, info.versionId) in vs
    && var m := vs[VersionKey(info.key, info.versionId)];
       info == ObjectInfo(key := info.key, versionId := m.versionId, isLatest := m.isLatest,
         isDeleteMarker := m.isDeleteMarker, lastModified := m.lastModified, etag := m.etag, size := m.size)
  }

  lemma {:induction false} VersionKeyOrder(k1: Bytes, v1: Bytes, k2: Bytes, v2: Bytes)
    requires NoNul(k1) && NoNul(k2) && Less(k1, k2)
    ensures Less(VersionKey(k1, v1), VersionKey(k2, v2)) && Less(VersionKey(k1, v1), k2)
  {
    if k1 != [] && k1[0] == k2[0] {
      assert VersionKey(k1, v1)[1..] == VersionKey(k1[1..], v1);
      assert VersionKey(k2, v2)[1..] == VersionKey(k2[1..], v2);
      VersionKeyOrder(k1[1..], v1, k2[1..], v2);
    } else {
      assert k2[0] != NUL;
    }
  }

  /** In the versions bucket, records of different keys are ordered as their keys are. */
  lemma KeysInOrder(vks: seq<Bytes>, i: nat, j: nat)
    requires Sorted(vks) && i < j < |vks| && Split(vks[i]).Some? && Split(vks[j]).Some?
    ensures KeyOf(vks[i]) == KeyOf(vks[j]) || Less(KeyOf(vks[i]), KeyOf(vks[j]))
  {
    hide Less, VersionKey;
    var (k1, v1) := Split(vks[i]).value;
    var (k2, v2) := Split(vks[j]).value;
    LessTotal(k1, k2);
    if Less(k2, k1) {
      VersionKeyOrder(k2, v2, k1, v1);
      LessAsymmetric(vks[i], vks[j]);
    }
  }

  /** No earlier record has the key of the record at `i`. */
  ghost predicate RunStart(vks: seq<Bytes>, i: nat)
    requires i <= |vks| && forall vk :: vk in vks ==> Split(vk).Some?
  {
    0 < i < |vks| ==> KeyOf(vks[i - 1]) != KeyOf(vks[i])
  }

  lemma KeyNotBefore(vks: seq<Bytes>, i: nat, j: nat)
    requires Sorted(vks) && j < i < |vks| && (forall vk :: vk in vks ==> Split(vk).Some?) && RunStart(vks, i)
    ensures KeyOf(vks[j]) != KeyOf(vks[i])
  {
    hide Less, Split, Sorted;
    KeysInOrder(vks, i - 1, i);
    if j < i - 1 {
      KeysInOrder(vks, j, i - 1);
      if KeyOf(vks[j]) == KeyOf(vks[i]) {
        LessAsymmetric(KeyOf(vks[i]), KeyOf(vks[i - 1]));
      }
    }
  }

  /** The records of a key are the run that starts at its first record. */
  lemma RunOfKey(vks: seq<Bytes>, i: nat)
    requires Sorted(vks) && i < |vks| && (forall vk :: vk in vks ==> Split(vk).Some?) && RunStart(vks, i)
    ensures forall j :: 0 <= j < |vks| ==> (KeyOf(vks[j]) == KeyOf(vks[i]) <==> i <= j < KeyEnd(vks, i))
    ensures RunStart(vks, KeyEnd(vks, i))
  {
    hide Less, HasPrefix, Split, NoNul, Sorted, RunStart, RunEnd, KeyEnd;
    var key := KeyOf(vks[i]);
    var e := KeyEnd(vks, i);
    KeyEndIsRunEnd(vks, i);
    RunIsContiguous(vks, key + [NUL], i);
    forall j | 0 <= j < |vks|
      ensures KeyOf(vks[j]) == key <==> i <= j < e
    {
      PrefixIsKey(key, vks[j]);
      if j < i { KeyNotBefore(vks, i, j); }
    }
    RunStartByKeys(vks, e);
  }

  lemma KeyEndIsRunEnd(vks: seq<Bytes>, i: nat)
    requires i < |vks| && Split(vks[i]).Some?
    ensures HasPrefix(vks[i], KeyOf(vks[i]) + [NUL]) && NoNul(KeyOf(vks[i]))
    ensures KeyEnd(vks, i) == RunEnd(vks, KeyOf(vks[i]) + [NUL], i)
  {
    PrefixIsKey(KeyOf(vks[i]), vks[i]);
  }

  lemma RunStartByKeys(vks: seq<Bytes>, e: nat)
    requires e <= |vks| && (forall vk :: vk in vks ==> Split(vk).Some?)
    requires 0 < e < |vks| ==> KeyOf(vks[e - 1]) != KeyOf(vks[e])
    ensures RunStart(vks, e)
  {
  }

  lemma KeyIsSought(vks: seq<Bytes>, i: nat)
    requires Sorted(vks) && i < |vks| && (forall vk :: vk in vks ==> Split(vk).Some?) && RunStart(vks, i)
    ensures Seek(vks, KeyOf(vks[i])) == i
  {
    hide Less, HasPrefix, Split, NoNul, Seek, Sorted, VersionKey;
    var key := KeyOf(vks[i]);
    PrefixNotGreaterKey(vks[i]);
    if i > 0 {
      KeysInOrder(vks, i - 1, i);
      var (k1, v1) := Split(vks[i - 1]).value;
      KeyEndIsRunEnd(vks, i);
      VersionKeyOrder(k1, v1, key, []);
    }
    SeekUnique(vks, key, i);
  }

  lemma PrefixNotGreaterKey(vk: Bytes)
    requires Split(vk).Some?
    ensures !Less(vk, KeyOf(vk))
  {
    hide Less;
    var key := KeyOf(vk);
    assert HasPrefix(vk, key) by { assert vk[..|key|] == key; }
    PrefixNotGreater(vk, key);
  }

  ghost predicate DistinctIds(ms: seq<ObjectMeta>) {
    ms != [] ==> (forall x :: x in ms[1..] ==> x.versionId != ms[0].versionId) && DistinctIds(ms[1..])
  }

  ghost predicate ByAge(ms: seq<ObjectMeta>) {
    ms != [] ==> (forall x :: x in ms[1..] ==> x.lastModified <= ms[0].lastModified) && ByAge(ms[1..])
  }

  lemma Prepend(x: ObjectMeta, rest: seq<ObjectMeta>)
    ensures ByAge([x] + rest) <==> ByAge(rest) && forall y :: y in rest ==> y.lastModified <= x.lastModified
    ensures DistinctIds([x] + rest) <==> DistinctIds(rest) && forall y :: y in rest ==> y.versionId != x.versionId
  {
    assert ([x] + rest)[1..] == rest;
  }

  lemma {:induction false} DistinctByIndex(ms: seq<ObjectMeta>)
    requires forall i, j :: 0 <= i < j < |ms| ==> ms[i].versionId != ms[j].versionId
    ensures DistinctIds(ms)
  {
    if ms != [] { DistinctByIndex(ms[1..]); }
  }

  lemma {:induction false} InsertByAgeSorts(m: ObjectMeta, ms: seq<ObjectMeta>)
    requires ByAge(ms)
    ensures var r := InsertByAge(m, ms);
      && ByAge(r)
      && (forall x :: x in r <==> x == m || x in ms)
      && (DistinctIds(ms) && (forall x :: x in ms ==> x.versionId != m.versionId) ==> DistinctIds(r))
  {
    hide ByAge, DistinctIds;
    if ms != [] {
      assert ms == [ms[0]] + ms[1..];
      Prepend(ms[0], ms[1..]);
    }
    if ms != [] && m.lastModified <= ms[0].lastModified {
      InsertByAgeSorts(m, ms[1..]);
      Prepend(ms[0], InsertByAge(m, ms[1..]));
    } else {
      Prepend(m, ms);
    }
  }

  lemma SortedEmpty()
    ensures ByAge([]) && DistinctIds([])
  {
  }

  lemma {:induction false} DistinctAppended(ms: seq<ObjectMeta>, m: ObjectMeta)
    requires DistinctIds(ms + [m])
    ensures DistinctIds(ms) && forall x :: x in ms ==> x.versionId != m.versionId
  {
    if ms != [] {
      assert (ms + [m])[1..] == ms[1..] + [m];
      DistinctAppended(ms[1..], m);
      assert ms == [ms[0]] + ms[1..] && m in ms[1..] + [m];
    }
  }

  lemma {:induction false} NewestFirstSorts(ms: seq<ObjectMeta>)
    ensures ByAge(NewestFirst(ms))
    ensures forall x :: x in NewestFirst(ms) <==> x in ms
    ensures DistinctIds(ms) ==> DistinctIds(NewestFirst(ms))
  {
    hide InsertByAge, ByAge, DistinctIds;
    SortedEmpty();
    if ms != [] {
      var front, m := ms[..|ms| - 1], ms[|ms| - 1];
      NewestFirstSorts(front);
      InsertByAgeSorts(m, NewestFirst(front));
      assert ms == front + [m];
      if DistinctIds(ms) { DistinctAppended(front, m); }
    }
  }

  lemma {:induction false} MetasAt(vs: map<Bytes, ObjectMeta>, ks: seq<Bytes>)
    requires forall k :: k in ks ==> k in vs
    ensures |Metas(vs, ks)| == |ks| && forall j :: 0 <= j < |ks| ==> Metas(vs, ks)[j] == vs[ks[j]]
  {
    if ks != [] { MetasAt(vs, ks[..|ks| - 1]); }
  }

  /** The metadata of the run that starts at `i`: one entry for each record of its key. */
  lemma MetasOfRun(vs: map<Bytes, ObjectMeta>, vks: seq<Bytes>, i: nat)
    requires WellKeyed(vs) && vks == Keys(vs.Keys) && i < |vks| && RunStart(vks, i)
    ensures var key, ms := KeyOf(vks[i]), Metas(vs, vks[i..KeyEnd(vks, i)]);
      && ms != [] && DistinctIds(ms)
      && forall m :: m in ms <==> VersionKey(key, m.versionId) in vs && vs[VersionKey(key, m.versionId)] == m
  {
    hide Less, HasPrefix, Split, NoNul, VersionKey, Keys, Sorted, RunStart, DistinctIds;
    var key, e := KeyOf(vks[i]), KeyEnd(vks, i);
    var run := vks[i..e];
    var ms := Metas(vs, run);
    MetasAt(vs, run);
    RunOfKey(vks, i);
    KeyEndIsRunEnd(vks, i);
    forall j | 0 <= j < |run|
      ensures vks[i + j] == VersionKey(key, ms[j].versionId) && ms[j] == vs[vks[i + j]]
    {
      assert KeyOf(vks[i + j]) == key;
    }
    forall a, b | 0 <= a < b < |run|
      ensures ms[a].versionId != ms[b].versionId
    {
      KeysDiffer(vks, i + a, i + b);
    }
    DistinctByIndex(ms);
    forall m
      ensures m in ms <==> VersionKey(key, m.versionId) in vs && vs[VersionKey(key, m.versionId)] == m
    {
      var vk := VersionKey(key, m.versionId);
      if vk in vs && vs[vk] == m {
        assert vk in vks;
        var x :| 0 <= x < |vks| && vks[x] == vk;
        SplitVersionKey(key, m.versionId);
        assert ms[x - i] == m;
      }
      if m in ms {
        var x :| 0 <= x < |ms| && ms[x] == m;
        assert vks[i + x] == vk;
      }
    }
  }

  lemma KeysDiffer(ks: seq<Bytes>, i: nat, j: nat)
    requires Sorted(ks) && i < j < |ks|
    ensures ks[i] != ks[j]
  {
    LessIrreflexive(ks[i]);
  }

  /** The versions listed for a key are its records, each once, newest first. */
  lemma VersionsOfRun(vs: map<Bytes, ObjectMeta>, vks: seq<Bytes>, i: nat)
    requires WellKeyed(vs) && vks == Keys(vs.Keys) && i < |vks| && RunStart(vks, i)
    ensures var key, ms := KeyOf(vks[i]), VersionsAt(vs, vks, i);
      && ms != [] && DistinctIds(ms) && ByAge(ms)
      && forall m :: m in ms <==> VersionKey(key, m.versionId) in vs && vs[VersionKey(key, m.versionId)] == m
  {
    hide Less, Split, NoNul, VersionKey, Keys, NewestFirst, Metas, DistinctIds, ByAge;
    MetasOfRun(vs, vks, i);
    var metas := Metas(vs, vks[i..KeyEnd(vks, i)]);
    NewestFirstSorts(metas);
    assert metas[0] in VersionsAt(vs, vks, i);
  }

  /** The listing without delimiter or markers from index `i` on. */
  function All(vs: map<Bytes, ObjectMeta>, vks: seq<Bytes>, prefix: Bytes, i: nat): seq<VersionItem>
    requires i <= |vks| && forall k :: k in vks ==> k in vs
  {
    Scan(vs, vks, Query(prefix, [], []), [], i)
  }

  ghost predicate Ordered(items: seq<VersionItem>) {
    items != [] ==>
      && items[0].Version?
      && (forall x :: x in items[1..] ==> x.Version? && Before(items[0].info, x.info))
      && Ordered(items[1..])
  }

  lemma {:induction false} OrderedAppend(a: seq<VersionItem>, b: seq<VersionItem>)
    requires Ordered(a) && Ordered(b)
    requires forall x, y :: x in a && y in b ==> x.Version? && y.Version? && Before(x.info, y.info)
    ensures Ordered(a + b)
  {
    hide Before;
    if a == [] {
      assert a + b == b;
    } else {
      assert (a + b)[1..] == a[1..] + b;
      OrderedAppend(a[1..], b);
      if b != [] { assert b[0] in b; }
    }
  }

  lemma {:induction false} VersionsInOrder(key: Bytes, ms: seq<ObjectMeta>)
    requires ByAge(ms) && DistinctIds(ms)
    requires forall x, y :: x in ms && y in ms && x.lastModified == y.lastModified ==> x.versionId == y.versionId
    ensures Ordered(Versions(key, ms))
    ensures forall x :: x in Versions(key, ms) <==> x.Version? && exists m :: m in ms && x.info == Info(key, m)
  {
    if ms != [] {
      assert ms == [ms[0]] + ms[1..];
      VersionsInOrder(key, ms[1..]);
      assert Versions(key, ms)[1..] == Versions(key, ms[1..]);
    }
  }

  /** A key's versions as listed: in order, and exactly its records. */
  lemma ListedRun(vs: map<Bytes, ObjectMeta>, vks: seq<Bytes>, prefix: Bytes, i: nat)
    requires WellKeyed(vs) && DistinctTimes(vs) && vks == Keys(vs.Keys) && i < |vks| && RunStart(vks, i)
    requires HasPrefix(KeyOf(vks[i]), prefix)
    ensures var key := KeyOf(vks[i]); var run := Versions(key, VersionsAt(vs, vks, i));
      && Ordered(run)
      && forall x :: x in run <==> x.Version? && x.info.key == key && Describes(vs, prefix, x.info)
  {
    hide Less, HasPrefix, Split, NoNul, Seek, VersionKey, Keys, VersionsAt, ByAge, DistinctIds, RunStart;
    var key, ms := KeyOf(vks[i]), VersionsAt(vs, vks, i);
    VersionsOfRun(vs, vks, i);
    KeyEndIsRunEnd(vks, i);
    forall x, y | x in ms && y in ms && x.lastModified == y.lastModified
      ensures x.versionId == y.versionId
    {
      SplitVersionKey(key, x.versionId);
      SplitVersionKey(key, y.versionId);
      assert KeyOf(VersionKey(key, x.versionId)) == KeyOf(VersionKey(key, y.versionId));
    }
    VersionsInOrder(key, ms);
    forall x
      ensures x in Versions(key, ms) <==> x.Version? && x.info.key == key && Describes(vs, prefix, x.info)
    {
      if x.Version? && x.info.key == key && Describes(vs, prefix, x.info) {
        var vk := VersionKey(key, x.info.versionId);
        SplitVersionKey(key, x.info.versionId);
        assert vs[vk].versionId == x.info.versionId;
        assert vs[vk] in ms;
      }
    }
  }

  ghost predicate KeyAhead(vks: seq<Bytes>, i: nat, key: Bytes) {
    exists j :: i <= j < |vks| && Split(vks[j]).Some? && KeyOf(vks[j]) == key
  }

  /**
   * The listing from a run on: in order, and exactly the records with the prefix
   * from there on.
   */
  lemma {:induction false} AllIsOrdered(vs: map<Bytes, ObjectMeta>, vks: seq<Bytes>, prefix: Bytes, i: nat)
    requires WellKeyed(vs) && DistinctTimes(vs) && vks == Keys(vs.Keys) && i <= |vks| && RunStart(vks, i)
    ensures var items := All(vs, vks, prefix, i);
      && Ordered(items)
      && forall x :: x in items ==> x.Version? && Describes(vs, prefix, x.info) && KeyAhead(vks, i, x.info.key)
    decreases |vks| - i
  {
    hide Less, HasPrefix, Split, NoNul, Seek, VersionKey, Keys, VersionsAt, KeyEnd, RunStart, Describes, Versions;
    if i < |vks| && HasPrefix(KeyOf(vks[i]), prefix) {
      var key, e := KeyOf(vks[i]), KeyEnd(vks, i);
      ListedRun(vs, vks, prefix, i);
      RunOfKey(vks, i);
      AllIsOrdered(vs, vks, prefix, e);
      var run, rest := Versions(key, VersionsAt(vs, vks, i)), All(vs, vks, prefix, e);
      AllUnfolds(vs, vks, prefix, i);
      forall x, y | x in run && y in rest
        ensures Before(x.info, y.info)
      {
        var j :| e <= j < |vks| && Split(vks[j]).Some? && KeyOf(vks[j]) == y.info.key;
        KeysInOrder(vks, i, j);
      }
      OrderedAppend(run, rest);
    }
  }

  lemma AllUnfolds(vs: map<Bytes, ObjectMeta>, vks: seq<Bytes>, prefix: Bytes, i: nat)
    requires (forall k :: k in vks ==> k in vs) && i < |vks| && Split(vks[i]).Some? && HasPrefix(KeyOf(vks[i]), prefix)
    ensures All(vs, vks, prefix, i) ==
      Versions(KeyOf(vks[i]), VersionsAt(vs, vks, i)) + All(vs, vks, prefix, KeyEnd(vks, i))
  {
    assert GroupOf(prefix, [], KeyOf(vks[i])) == None;
  }

  lemma {:induction false} AllIsComplete(
    vs: map<Bytes, ObjectMeta>, vks: seq<Bytes>, prefix: Bytes, i: nat, info: ObjectInfo)
    requires WellKeyed(vs) && DistinctTimes(vs) && vks == Keys(vs.Keys) && i <= |vks| && RunStart(vks, i)
    requires Describes(vs, prefix, info)
    requires exists j :: i <= j < |vks| && vks[j] == VersionKey(info.key, info.versionId)
    requires Seek(vks, prefix) <= i
    ensures Version(info) in All(vs, vks, prefix, i)
    decreases |vks| - i
  {
    hide Less, HasPrefix, Split, NoNul, Seek, VersionKey, Keys, VersionsAt, KeyEnd, RunStart, Versions;
    var j :| i <= j < |vks| && vks[j] == VersionKey(info.key, info.versionId);
    SplitVersionKey(info.key, info.versionId);
    KeyCarriesPrefix(vks, prefix, i, j);
    AllUnfolds(vs, vks, prefix, i);
    RunOfKey(vks, i);
    if KeyOf(vks[i]) == info.key {
      ListedRun(vs, vks, prefix, i);
    } else {
      AllIsComplete(vs, vks, prefix, KeyEnd(vks, i), info);
    }
  }

  /** From where a prefix is sought up to a record that carries it, every record carries it. */
  lemma KeyCarriesPrefix(vks: seq<Bytes>, prefix: Bytes, i: nat, j: nat)
    requires Sorted(vks) && Seek(vks, prefix) <= i <= j < |vks|
    requires Split(vks[i]).Some? && Split(vks[j]).Some? && HasPrefix(KeyOf(vks[j]), prefix)
    ensures HasPrefix(KeyOf(vks[i]), prefix)
  {
    hide Less, HasPrefix, Split, NoNul, Seek, VersionKey;
    KeyPrefix(vks[j], prefix);
    SeekSplits(vks, prefix);
    if i < j { LessAsymmetric(vks[i], vks[j]); } else { LessIrreflexive(vks[i]); }
    PrefixConvex(prefix, vks[i], vks[j]);
    var (k, v) := Split(vks[i]).value;
    PrefixOfKey(prefix, k, v);
  }

  lemma SeekIsRunStart(vks: seq<Bytes>, x: Bytes)
    requires Sorted(vks) && (forall vk :: vk in vks ==> Split(vk).Some?)
    requires NoNul(x)
    ensures RunStart(vks, Seek(vks, x))
  {
    hide Less, HasPrefix, Split, NoNul, Seek, VersionKey;
    var i := Seek(vks, x);
    if 0 < i < |vks| && KeyOf(vks[i - 1]) == KeyOf(vks[i]) {
      var (k, v) := Split(vks[i]).value;
      var (k1, v1) := Split(vks[i - 1]).value;
      PrefixNotGreaterKey(vks[i - 1]);
      KeyEndIsRunEnd(vks, i);
      LeqLessTransitive(k, vks[i - 1], x);
      VersionKeyOrder(k, v, x, []);
      assert false;
    }
  }

  /**
   * The whole version listing of a prefix: exactly its records, each once, by key
   * ascending and then newest first.
   */
  lemma WholeVersionListing(vs: map<Bytes, ObjectMeta>, prefix: Bytes)
    requires WellKeyed(vs) && DistinctTimes(vs)
    ensures var items := Listed(vs, Query(prefix, [], []), []);
      && Ordered(items)
      && forall x :: x in items <==> x.Version? && Describes(vs, prefix, x.info)
  {
    hide Less, HasPrefix, Split, NoNul, Seek, VersionKey, Keys, Ordered, Describes, RunStart, Scan, LinearScan;
    hide NoneAhead;
    var vks := Keys(vs.Keys);
    var i := Seek(vks, prefix);
    NoneSeen(vks, i);
    ScanIsLinear(vs, vks, Query(prefix, [], []), [], i, {});
    if NoNul(prefix) {
      SeekIsRunStart(vks, prefix);
      AllIsOrdered(vs, vks, prefix, i);
      forall x: VersionItem | x.Version? && Describes(vs, prefix, x.info)
        ensures x in All(vs, vks, prefix, i)
      {
        RecordIsAhead(vs, vks, prefix, x.info);
        AllIsComplete(vs, vks, prefix, i, x.info);
      }
    } else {
      NothingUnderNul(vs, vks, prefix, i);
    }
  }

  lemma NoneSeen(vks: seq<Bytes>, i: nat)
    ensures NoneAhead(vks, {}, i)
  {
  }

  lemma NothingUnderNul(vs: map<Bytes, ObjectMeta>, vks: seq<Bytes>, prefix: Bytes, i: nat)
    requires !NoNul(prefix) && i <= |vks| && forall k :: k in vks ==> k in vs && Split(k).Some?
    ensures All(vs, vks, prefix, i) == [] && Ordered([]) && forall info :: !Describes(vs, prefix, info)
  {
    hide Split;
    var j :| 0 <= j < |prefix| && prefix[j] == NUL;
    forall key | NoNul(key)
      ensures !HasPrefix(key, prefix)
    {
      assert |prefix| <= |key| ==> key[..|prefix|][j] == key[j];
    }
    if i < |vks| { KeyEndIsRunEnd(vks, i); }
  }

  lemma RecordIsAhead(vs: map<Bytes, ObjectMeta>, vks: seq<Bytes>, prefix: Bytes, info: ObjectInfo)
    requires vks == Keys(vs.Keys) && Describes(vs, prefix, info)
    ensures exists j :: Seek(vks, prefix) <= j < |vks| && vks[j] == VersionKey(info.key, info.versionId)
  {
    hide Less, HasPrefix, NoNul;
    var vk := VersionKey(info.key, info.versionId);
    assert vk in vks;
    var j :| 0 <= j < |vks| && vks[j] == vk;
    SplitVersionKey(info.key, info.versionId);
    KeyPrefix(vk, prefix);
    PrefixNotGreater(vk, prefix);
    assert Seek(vks, prefix) <= j;
  }

  /** A version id marker plays no part where its key does not occur, or when it is empty. */
  lemma {:induction false} MarkerIdle(
    vs: map<Bytes, ObjectMeta>, vks: seq<Bytes>, prefix: Bytes, keyMarker: Bytes, marker: Bytes, i: nat)
    requires i <= |vks| && (forall k :: k in vks ==> k in vs && Split(k).Some?)
    requires marker == [] || forall j :: i <= j < |vks| ==> KeyOf(vks[j]) != keyMarker
    ensures Scan(vs, vks, Query(prefix, [], keyMarker), marker, i) == All(vs, vks, prefix, i)
    decreases |vks| - i
  {
    hide HasPrefix, Split, KeyEnd, VersionsAt, Versions;
    if i < |vks| && HasPrefix(KeyOf(vks[i]), prefix) {
      MarkerIdle(vs, vks, prefix, keyMarker, marker, KeyEnd(vks, i));
    }
  }

  /** Skipping to a marked version leaves the older ones; an absent marker leaves none. */
  lemma {:induction false} UnskipLeaves(ms: seq<ObjectMeta>, marker: Bytes, t: nat)
    requires marker != [] && t <= |ms| && DistinctIds(ms)
    requires if t == 0 then forall m :: m in ms ==> m.versionId != marker else ms[t - 1].versionId == marker
    ensures Unskip(true, ms, marker) == if t == 0 then ([], marker) else (ms[t..], [])
  {
    if ms != [] {
      assert ms == [ms[0]] + ms[1..];
      if t > 1 {
        assert ms[t - 1] == ms[1..][t - 2] && ms[1..][t - 1..] == ms[t..];
        UnskipLeaves(ms[1..], marker, t - 1);
      } else if t == 0 {
        UnskipLeaves(ms[1..], marker, 0);
      }
    }
  }

  lemma {:induction false} VersionsSlice(key: Bytes, ms: seq<ObjectMeta>, t: nat)
    requires t <= |ms|
    ensures |Versions(key, ms)| == |ms| && Versions(key, ms)[t..] == Versions(key, ms[t..])
    ensures forall j :: 0 <= j < |ms| ==> Versions(key, ms)[j] == Version(Info(key, ms[j]))
  {
    if ms != [] {
      VersionsSlice(key, ms[1..], if t == 0 then 0 else t - 1);
      if t > 0 { assert ms[1..][t - 1..] == ms[t..]; }
    }
  }

  /** What a page that starts at the markers of a key's version lists. */
  lemma ListedAfterVersion(
    vs: map<Bytes, ObjectMeta>, vks: seq<Bytes>, prefix: Bytes, i: nat, marker: Bytes, t: nat)
    requires WellKeyed(vs) && vks == Keys(vs.Keys) && i < |vks| && RunStart(vks, i)
    requires HasPrefix(KeyOf(vks[i]), prefix) && KeyOf(vks[i]) != [] && marker != []
    requires t <= |VersionsAt(vs, vks, i)|
    requires if t == 0 then forall m :: m in VersionsAt(vs, vks, i) ==> m.versionId != marker
             else VersionsAt(vs, vks, i)[t - 1].versionId == marker
    ensures Listed(vs, Query(prefix, [], KeyOf(vks[i])), marker) ==
      (if t == 0 then [] else Versions(KeyOf(vks[i]), VersionsAt(vs, vks, i)[t..]))
      + All(vs, vks, prefix, KeyEnd(vks, i))
  {
    hide Less, HasPrefix, Split, NoNul, Seek, VersionKey, Keys, Scan, LinearScan, RunStart, VersionsAt, DistinctIds;
    hide KeyEnd;
    hide ByAge, Unskip;
    var key, ms, e := KeyOf(vks[i]), VersionsAt(vs, vks, i), KeyEnd(vks, i);
    var q := Query(prefix, [], key);
    KeyIsSought(vks, i);
    NoneSeen(vks, i);
    ScanIsLinear(vs, vks, q, marker, i, {});
    VersionsOfRun(vs, vks, i);
    UnskipLeaves(ms, marker, t);
    RunOfKey(vks, i);
    MarkerIdle(vs, vks, prefix, key, if t == 0 then marker else [], e);
    MarkedScanUnfolds(vs, vks, prefix, i, marker);
  }

  lemma MarkedScanUnfolds(vs: map<Bytes, ObjectMeta>, vks: seq<Bytes>, prefix: Bytes, i: nat, marker: Bytes)
    requires (forall k :: k in vks ==> k in vs) && i < |vks| && Split(vks[i]).Some? && HasPrefix(KeyOf(vks[i]), prefix)
    ensures var key := KeyOf(vks[i]); var q := Query(prefix, [], key);
      var (ms, left) := Unskip(true, VersionsAt(vs, vks, i), marker);
      Scan(vs, vks, q, marker, i) == Versions(key, ms) + Scan(vs, vks, q, left, KeyEnd(vks, i))
  {
    assert GroupOf(prefix, [], KeyOf(vks[i])) == None;
  }

  /** A page that starts at markers lists records after them, in order. */
  lemma ListedAfterMarkers(vs: map<Bytes, ObjectMeta>, prefix: Bytes, keyMarker: Bytes, marker: Bytes)
    requires WellKeyed(vs) && DistinctTimes(vs) && keyMarker != [] && NoNul(keyMarker) && marker != []
    ensures var items := Listed(vs, Query(prefix, [], keyMarker), marker);
      && Ordered(items)
      && forall x :: x in items ==>
           && x.Version? && Describes(vs, prefix, x.info)
           && (Less(keyMarker, x.info.key) ||
               (&& VersionKey(keyMarker, marker) in vs
                && Before(Info(keyMarker, vs[VersionKey(keyMarker, marker)]), x.info)))
  {
    hide Less, HasPrefix, Split, NoNul, Seek, VersionKey, Keys, Scan, LinearScan, RunStart, VersionsAt, KeyEnd;
    hide DistinctIds, ByAge;
    hide Versions, Ordered, Describes;
    var vks := Keys(vs.Keys);
    var i := Seek(vks, keyMarker);
    SeekIsRunStart(vks, keyMarker);
    NoneSeen(vks, i);
    ScanIsLinear(vs, vks, Query(prefix, [], keyMarker), marker, i, {});
    if i < |vks| && KeyOf(vks[i]) == keyMarker {
      if HasPrefix(keyMarker, prefix) {
        ListedAfterOwnKey(vs, vks, prefix, i, marker);
      } else {
        ScanEndsAt(vs, vks, prefix, keyMarker, marker, i);
      }
    } else {
      KeysAhead(vks, keyMarker, i);
      MarkerIdle(vs, vks, prefix, keyMarker, marker, i);
      AllIsOrdered(vs, vks, prefix, i);
    }
  }

  lemma ScanEndsAt(
    vs: map<Bytes, ObjectMeta>, vks: seq<Bytes>, prefix: Bytes, keyMarker: Bytes, marker: Bytes, i: nat)
    requires (forall k :: k in vks ==> k in vs) && i < |vks| && Split(vks[i]).Some? && !HasPrefix(KeyOf(vks[i]), prefix)
    ensures Scan(vs, vks, Query(prefix, [], keyMarker), marker, i) == [] && Ordered([])
  {
  }

  /** From where a key is sought and not found, every key is greater. */
  lemma KeysAhead(vks: seq<Bytes>, key: Bytes, i: nat)
    requires Sorted(vks) && (forall vk :: vk in vks ==> Split(vk).Some?) && NoNul(key)
    requires i == Seek(vks, key) && (i < |vks| ==> KeyOf(vks[i]) != key)
    ensures forall j :: i <= j < |vks| ==> Less(key, KeyOf(vks[j])) && KeyOf(vks[j]) != key
  {
    hide Less, HasPrefix, Split, NoNul, Seek, VersionKey, Sorted;
    LessIrreflexive(key);
    if i < |vks| {
      var (k, v) := Split(vks[i]).value;
      KeyEndIsRunEnd(vks, i);
      LessTotal(k, key);
      if Less(k, key) { VersionKeyOrder(k, v, key, []); }
      forall j | i < j < |vks|
        ensures Less(key, KeyOf(vks[j]))
      {
        KeysInOrder(vks, i, j);
        if KeyOf(vks[j]) != k { LessTransitive(key, k, KeyOf(vks[j])); }
      }
    }
  }

  lemma ListedAfterOwnKey(vs: map<Bytes, ObjectMeta>, vks: seq<Bytes>, prefix: Bytes, i: nat, marker: Bytes)
    requires WellKeyed(vs) && DistinctTimes(vs) && vks == Keys(vs.Keys) && i < |vks| && RunStart(vks, i)
    requires HasPrefix(KeyOf(vks[i]), prefix) && KeyOf(vks[i]) != [] && marker != []
    ensures var key := KeyOf(vks[i]); var items := Listed(vs, Query(prefix, [], key), marker);
      && Ordered(items)
      && forall x :: x in items ==>
           && x.Version? && Describes(vs, prefix, x.info)
           && (Less(key, x.info.key) ||
               (VersionKey(key, marker) in vs && Before(Info(key, vs[VersionKey(key, marker)]), x.info)))
  {
    hide Less, HasPrefix, Split, NoNul, Seek, VersionKey, Keys, LinearScan, RunStart, VersionsAt, KeyEnd, DistinctIds;
    hide ByAge;
    hide Versions, Ordered, Describes, Listed, All;
    var key, ms, e := KeyOf(vks[i]), VersionsAt(vs, vks, i), KeyEnd(vks, i);
    var rest := All(vs, vks, prefix, e);
    RunOfKey(vks, i);
    AllIsOrdered(vs, vks, prefix, e);
    forall x | x in rest
      ensures Less(key, x.info.key)
    {
      var j :| e <= j < |vks| && Split(vks[j]).Some? && KeyOf(vks[j]) == x.info.key;
      KeysInOrder(vks, i, j);
    }
    if m :| m in ms && m.versionId == marker {
      var j :| 0 <= j < |ms| && ms[j] == m;
      var t := j + 1;
      ListedAfterVersion(vs, vks, prefix, i, marker, t);
      VersionsOfRun(vs, vks, i);
      ListedRun(vs, vks, prefix, i);
      VersionsSlice(key, ms, t);
      OrderedSuffix(Versions(key, ms), t);
      var tail := Versions(key, ms[t..]);
      assert forall x :: x in tail ==> x in Versions(key, ms);
      OrderedAppend(tail, rest);
    } else {
      ListedAfterVersion(vs, vks, prefix, i, marker, 0);
      assert [] + rest == rest;
    }
  }

  lemma {:induction false} OrderedSuffix(items: seq<VersionItem>, t: nat)
    requires Ordered(items) && t <= |items|
    ensures Ordered(items[t..])
    ensures t > 0 ==> forall x ::
      x in items[t..] ==> x.Version? && items[t - 1].Version? && Before(items[t - 1].info, x.info)
  {
    hide Before;
    if t > 0 {
      assert items[1..][t - 1..] == items[t..];
      OrderedSuffix(items[1..], t - 1);
      if t > 1 { assert items[1..][t - 2] == items[t - 1]; }
    }
  }

  /** A page that starts at markers leaves out no record of a later key. */
  lemma ListedAfterMarkersComplete(
    vs: map<Bytes, ObjectMeta>, prefix: Bytes, keyMarker: Bytes, marker: Bytes, info: ObjectInfo)
    requires WellKeyed(vs) && DistinctTimes(vs) && keyMarker != [] && NoNul(keyMarker) && marker != []
    requires HasPrefix(keyMarker, prefix) && Describes(vs, prefix, info) && Less(keyMarker, info.key)
    ensures Version(info) in Listed(vs, Query(prefix, [], keyMarker), marker)
  {
    hide Less, HasPrefix, Split, NoNul, Seek, VersionKey, Keys, Scan, LinearScan, RunStart, VersionsAt, KeyEnd;
    hide DistinctIds, ByAge;
    hide Versions, Describes;
    var vks := Keys(vs.Keys);
    var i := Seek(vks, keyMarker);
    SeekIsRunStart(vks, keyMarker);
    NoneSeen(vks, i);
    ScanIsLinear(vs, vks, Query(prefix, [], keyMarker), marker, i, {});
    var j := LaterRecord(vs, vks, prefix, keyMarker, info);
    if i < |vks| && KeyOf(vks[i]) == keyMarker {
      RunOfKey(vks, i);
      AllIsComplete(vs, vks, prefix, KeyEnd(vks, i), info);
      VersionsOfRun(vs, vks, i);
      if m :| m in VersionsAt(vs, vks, i) && m.versionId == marker {
        var t :| 0 <= t < |VersionsAt(vs, vks, i)| && VersionsAt(vs, vks, i)[t] == m;
        ListedAfterVersion(vs, vks, prefix, i, marker, t + 1);
      } else {
        ListedAfterVersion(vs, vks, prefix, i, marker, 0);
      }
    } else {
      KeysAhead(vks, keyMarker, i);
      MarkerIdle(vs, vks, prefix, keyMarker, marker, i);
      AllIsComplete(vs, vks, prefix, i, info);
    }
  }

  lemma LaterRecord(vs: map<Bytes, ObjectMeta>, vks: seq<Bytes>, prefix: Bytes, key: Bytes, info: ObjectInfo)
    returns (j: nat)
    requires WellKeyed(vs) && vks == Keys(vs.Keys) && NoNul(key) && HasPrefix(key, prefix)
    requires Describes(vs, prefix, info) && Less(key, info.key)
    ensures Seek(vks, prefix) <= Seek(vks, key) <= j < |vks| && vks[j] == VersionKey(info.key, info.versionId)
    ensures KeyOf(vks[j]) != key
  {
    hide Less, HasPrefix, NoNul, Split, VersionKey, Keys;
    var vk := VersionKey(info.key, info.versionId);
    assert vk in vks;
    j :| 0 <= j < |vks| && vks[j] == vk;
    SplitVersionKey(info.key, info.versionId);
    LessIrreflexive(key);
    SplitVersionKey(key, []);
    PrefixNotGreaterKey(vk);
    if j < Seek(vks, key) {
      LessAsymmetric(key, info.key);
      LeqLessTransitive(info.key, vk, key);
    }
    if Seek(vks, key) < Seek(vks, prefix) {
      PrefixNotGreater(key, prefix);
      LeqLessTransitive(key, vks[Seek(vks, key)], prefix);
    }
  }

  /** The position of a version among a key's versions, newest first, decides what follows it. */
  lemma {:induction false} OlderFollow(ms: seq<ObjectMeta>, t: nat, m: ObjectMeta)
    requires ByAge(ms) && DistinctIds(ms) && 0 < t <= |ms| && m in ms && m.versionId != ms[t - 1].versionId
    requires forall x, y :: x in ms && y in ms && x.lastModified == y.lastModified ==> x.versionId == y.versionId
    ensures m in ms[t..] <==> m.lastModified < ms[t - 1].lastModified
  {
    assert ms == [ms[0]] + ms[1..];
    if t > 1 {
      assert ms[1..][t - 1..] == ms[t..] && ms[1..][t - 2] == ms[t - 1];
      assert ms[t - 1] in ms[1..];
      if m in ms[1..] {
        OlderFollow(ms[1..], t - 1, m);
      } else {
        assert forall x :: x in ms[t..] ==> x in ms[1..];
      }
    } else {
      assert m != ms[0];
    }
  }

  lemma OlderAreListed(vs: map<Bytes, ObjectMeta>, prefix: Bytes, keyMarker: Bytes, marker: Bytes, m: ObjectMeta)
    requires WellKeyed(vs) && DistinctTimes(vs) && keyMarker != [] && NoNul(keyMarker) && marker != []
    requires HasPrefix(keyMarker, prefix) && VersionKey(keyMarker, m.versionId) in vs
    requires vs[VersionKey(keyMarker, m.versionId)] == m
    requires VersionKey(keyMarker, marker) in vs
    requires Before(Info(keyMarker, vs[VersionKey(keyMarker, marker)]), Info(keyMarker, m))
    ensures Version(Info(keyMarker, m)) in Listed(vs, Query(prefix, [], keyMarker), marker)
  {
    hide Less, HasPrefix, Split, NoNul, Seek, VersionKey, Keys, Scan, LinearScan, RunStart, VersionsAt, KeyEnd;
    hide DistinctIds, ByAge;
    hide Versions, Listed;
    var vks := Keys(vs.Keys);
    var i := Seek(vks, keyMarker);
    SeekIsRunStart(vks, keyMarker);
    KeyIsAhead(vs, vks, keyMarker, m.versionId);
    var ms := VersionsAt(vs, vks, i);
    VersionsOfRun(vs, vks, i);
    var marked := vs[VersionKey(keyMarker, marker)];
    OwnId(vs, keyMarker, marker);
    LessIrreflexive(keyMarker);
    assert m in ms && marked in ms;
    var j :| 0 <= j < |ms| && ms[j] == marked;
    ListedAfterVersion(vs, vks, prefix, i, marker, j + 1);
    TimesApart(vs, keyMarker, ms);
    OlderFollow(ms, j + 1, m);
    VersionsSlice(keyMarker, ms[j + 1..], 0);
  }

  /**
   * Of the marked key itself, a page lists exactly the records older than the marked
   * version, and none at all if that version is no longer in the store.
   */
  lemma MarkerDecides(vs: map<Bytes, ObjectMeta>, prefix: Bytes, keyMarker: Bytes, marker: Bytes, m: ObjectMeta)
    requires WellKeyed(vs) && DistinctTimes(vs) && keyMarker != [] && NoNul(keyMarker) && marker != []
    requires HasPrefix(keyMarker, prefix) && VersionKey(keyMarker, m.versionId) in vs
    requires vs[VersionKey(keyMarker, m.versionId)] == m
    ensures Version(Info(keyMarker, m)) in Listed(vs, Query(prefix, [], keyMarker), marker) <==>
      && VersionKey(keyMarker, marker) in vs
      && Before(Info(keyMarker, vs[VersionKey(keyMarker, marker)]), Info(keyMarker, m))
  {
    hide Less, HasPrefix, NoNul, VersionKey, Listed, Ordered, Describes, WellKeyed, DistinctTimes, Before;
    ListedAfterMarkers(vs, prefix, keyMarker, marker);
    LessIrreflexive(keyMarker);
    if
      && VersionKey(keyMarker, marker) in vs
      && Before(Info(keyMarker, vs[VersionKey(keyMarker, marker)]), Info(keyMarker, m))
    {
      OlderAreListed(vs, prefix, keyMarker, marker, m);
    }
  }

  lemma OwnId(vs: map<Bytes, ObjectMeta>, key: Bytes, id: Bytes)
    requires WellKeyed(vs) && NoNul(key) && VersionKey(key, id) in vs
    ensures vs[VersionKey(key, id)].versionId == id
  {
    hide VersionKey, Split, NoNul;
    SplitVersionKey(key, id);
    VersionKeyInjective(key, id, key, vs[VersionKey(key, id)].versionId);
  }

  lemma TimesApart(vs: map<Bytes, ObjectMeta>, key: Bytes, ms: seq<ObjectMeta>)
    requires WellKeyed(vs) && DistinctTimes(vs) && NoNul(key)
    requires forall m :: m in ms ==> VersionKey(key, m.versionId) in vs && vs[VersionKey(key, m.versionId)] == m
    ensures forall x, y :: x in ms && y in ms && x.lastModified == y.lastModified ==> x.versionId == y.versionId
  {
    hide VersionKey, Split, NoNul;
    forall x, y | x in ms && y in ms && x.lastModified == y.lastModified
      ensures x.versionId == y.versionId
    {
      SplitVersionKey(key, x.versionId);
      SplitVersionKey(key, y.versionId);
      assert KeyOf(VersionKey(key, x.versionId)) == KeyOf(VersionKey(key, y.versionId));
    }
  }

  /** Where a key with records is sought, its run starts. */
  lemma KeyIsAhead(vs: map<Bytes, ObjectMeta>, vks: seq<Bytes>, key: Bytes, id: Bytes)
    requires WellKeyed(vs) && vks == Keys(vs.Keys) && NoNul(key) && VersionKey(key, id) in vs
    ensures Seek(vks, key) < |vks| && KeyOf(vks[Seek(vks, key)]) == key
  {
    hide Less, HasPrefix, NoNul, Split, VersionKey, Keys, Seek;
    var i := Seek(vks, key);
    var vk := VersionKey(key, id);
    assert vk in vks;
    var j :| 0 <= j < |vks| && vks[j] == vk;
    SplitVersionKey(key, id);
    PrefixNotGreaterKey(vk);
    if i < |vks| && KeyOf(vks[i]) != key {
      KeysAhead(vks, key, i);
    }
  }
}
