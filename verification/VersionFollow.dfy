/** Following the markers of a version listing, whatever the version ids, empty ones included. */
module VersionFollow {
  import opened ByteStrings
  import opened Listing
  import opened ObjectTypes
  import opened Outcomes
  import opened SortedKeys
  import opened VersionKeys
  import opened VersionListing
  import opened VersionPaging

  // ----- the entries of a listing -----

  predicate AllVersions(items: seq<VersionItem>) {
    forall x :: x in items ==> x.Version?
  }

  predicate Distinct(items: seq<VersionItem>) {
    forall i, j :: 0 <= i < j < |items| ==> items[i] != items[j]
  }

  lemma {:induction false} IdsApart(ms: seq<ObjectMeta>, i: nat, j: nat)
    requires DistinctIds(ms) && i < j < |ms|
    ensures ms[i].versionId != ms[j].versionId
  {
    if i == 0 { assert ms[j] == ms[1..][j - 1] && ms[j] in ms[1..]; } else { IdsApart(ms[1..], i - 1, j - 1); }
  }

  /** The entries are versions of keys from the run on, and no entry occurs twice. */
  lemma {:induction false} Entries(vs: map<Bytes, ObjectMeta>, vks: seq<Bytes>, prefix: Bytes, i: nat)
    requires WellKeyed(vs) && vks == Keys(vs.Keys) && i <= |vks| && RunStart(vks, i)
    ensures var items := All(vs, vks, prefix, i);
      && AllVersions(items) && Distinct(items) && forall x :: x in items ==> KeyAhead(vks, i, x.info.key)
    decreases |vks| - i
  {
    hide Less, HasPrefix, Split, NoNul, Seek, VersionKey, Keys, VersionsAt, KeyEnd, RunStart, Versions, DistinctIds;
    hide ByAge;
    if i < |vks| && HasPrefix(KeyOf(vks[i]), prefix) {
      var key, ms, e := KeyOf(vks[i]), VersionsAt(vs, vks, i), KeyEnd(vks, i);
      RunOfKey(vks, i);
      Entries(vs, vks, prefix, e);
      AllUnfolds(vs, vks, prefix, i);
      VersionsOfRun(vs, vks, i);
      VersionsSlice(key, ms, 0);
      RestIsOther(vs, vks, prefix, i);
      forall a, b | 0 <= a < b < |ms|
        ensures Versions(key, ms)[a] != Versions(key, ms)[b]
      {
        IdsApart(ms, a, b);
      }
    }
  }

  /** Behind a key's run the listing has other keys. */
  lemma RestIsOther(vs: map<Bytes, ObjectMeta>, vks: seq<Bytes>, prefix: Bytes, i: nat)
    requires WellKeyed(vs) && vks == Keys(vs.Keys) && i < |vks| && RunStart(vks, i)
    requires var items := All(vs, vks, prefix, KeyEnd(vks, i));
      AllVersions(items) && forall x :: x in items ==> KeyAhead(vks, KeyEnd(vks, i), x.info.key)
    ensures forall x :: x in All(vs, vks, prefix, KeyEnd(vks, i)) ==> x.info.key != KeyOf(vks[i])
  {
    hide Less, HasPrefix, Split, NoNul, VersionKey, Keys, KeyEnd, RunStart, All;
    RunOfKey(vks, i);
    forall x | x in All(vs, vks, prefix, KeyEnd(vks, i))
      ensures x.info.key != KeyOf(vks[i])
    {
      var j :| KeyEnd(vks, i) <= j < |vks| && Split(vks[j]).Some? && KeyOf(vks[j]) == x.info.key;
    }
  }

  // ----- where the page after an entry starts -----

  /** The first of the entries of one key that end at entry `t - 1`. */
  function RunAt(items: seq<VersionItem>, t: nat): (s: nat)
    requires 0 < t <= |items| && AllVersions(items)
    ensures s < t
  {
    if t == 1 || items[t - 2].info.key != items[t - 1].info.key then t - 1 else RunAt(items, t - 1)
  }

  /** An empty version id marks nothing: the key's entries come again from the first. */
  function NextStart(items: seq<VersionItem>, t: nat): (s: nat)
    requires t <= |items| && AllVersions(items)
    ensures s <= t
  {
    if t > 0 && items[t - 1].info.versionId == [] then RunAt(items, t) else t
  }

  lemma {:induction false} RunAtBegin(items: seq<VersionItem>, t: nat)
    requires 0 < t <= |items| && AllVersions(items) && forall j :: 0 <= j < t ==> items[j].info.key == items[0].info.key
    ensures RunAt(items, t) == 0
  {
    if t > 1 { RunAtBegin(items, t - 1); }
  }

  lemma {:induction false} RunAtShift(run: seq<VersionItem>, rest: seq<VersionItem>, t: nat)
    requires AllVersions(run) && AllVersions(rest) && run != [] && 0 < t <= |rest|
    requires forall x, y :: x in run && y in rest ==> x.info.key != y.info.key
    ensures AllVersions(run + rest) && RunAt(run + rest, |run| + t) == |run| + RunAt(rest, t)
  {
    var items := run + rest;
    assert items[|run| + t - 1] == rest[t - 1];
    if t == 1 {
      assert items[|run| - 1] == run[|run| - 1] && run[|run| - 1] in run && rest[0] in rest;
    } else {
      assert items[|run| + t - 2] == rest[t - 2];
      RunAtShift(run, rest, t - 1);
    }
  }

  /**
   * Resuming at the markers of an entry of the listing gives exactly the entries after
   * it, or, if its version id is empty, all entries from the first of its key on.
   */
  lemma {:induction false} VersionResume(vs: map<Bytes, ObjectMeta>, vks: seq<Bytes>, prefix: Bytes, i: nat, t: nat)
    requires WellKeyed(vs) && vks == Keys(vs.Keys) && i <= |vks| && RunStart(vks, i)
    requires (forall vk :: vk in vs ==> KeyOf(vk) != []) && 0 < t <= |All(vs, vks, prefix, i)|
    ensures var all := All(vs, vks, prefix, i);
      && AllVersions(all) && all[t - 1].info.key != []
      && Listed(vs, Query(prefix, [], all[t - 1].info.key), all[t - 1].info.versionId) == all[NextStart(all, t)..]
    decreases |vks| - i
  {
    hide Less, HasPrefix, Split, NoNul, Seek, VersionKey, Keys, LinearScan, RunStart, VersionsAt, KeyEnd, DistinctIds;
    hide ByAge;
    hide Versions, Unskip, Listed, All, NextStart, AllVersions, WellKeyed, KeyAhead;
    RecordsSplit(vs, vks);
    Entries(vs, vks, prefix, i);
    UnderPrefix(vs, vks, prefix, i);
    var key, ms, e := KeyOf(vks[i]), VersionsAt(vs, vks, i), KeyEnd(vks, i);
    var run, rest := Versions(key, ms), All(vs, vks, prefix, e);
    AllUnfolds(vs, vks, prefix, i);
    VersionsSlice(key, ms, 0);
    if t <= |ms| {
      ResumeInRun(vs, vks, prefix, i, t);
    } else {
      RunOfKey(vks, i);
      Entries(vs, vks, prefix, e);
      RestIsOther(vs, vks, prefix, i);
      VersionResume(vs, vks, prefix, e, t - |ms|);
      VersionsOfRun(vs, vks, i);
      StartShift(run, rest, t - |ms|);
    }
  }

  lemma StartShift(run: seq<VersionItem>, rest: seq<VersionItem>, t: nat)
    requires AllVersions(run) && AllVersions(rest) && run != [] && 0 < t <= |rest|
    requires forall x, y :: x in run && y in rest ==> x.info.key != y.info.key
    ensures AllVersions(run + rest) && (run + rest)[|run| + t - 1] == rest[t - 1]
    ensures (run + rest)[NextStart(run + rest, |run| + t)..] == rest[NextStart(rest, t)..]
  {
    RunAtShift(run, rest, t);
    assert (run + rest)[|run| + NextStart(rest, t)..] == rest[NextStart(rest, t)..];
  }

  /** Within the run of the first key. */
  lemma ResumeInRun(vs: map<Bytes, ObjectMeta>, vks: seq<Bytes>, prefix: Bytes, i: nat, t: nat)
    requires WellKeyed(vs) && vks == Keys(vs.Keys) && i < |vks| && RunStart(vks, i)
    requires HasPrefix(KeyOf(vks[i]), prefix) && KeyOf(vks[i]) != [] && 0 < t <= |VersionsAt(vs, vks, i)|
    ensures var all := All(vs, vks, prefix, i);
      && AllVersions(all) && t <= |all| && all[t - 1].info.key == KeyOf(vks[i])
      && Listed(vs, Query(prefix, [], KeyOf(vks[i])), all[t - 1].info.versionId) == all[NextStart(all, t)..]
  {
    hide Less, HasPrefix, Split, NoNul, Seek, VersionKey, Keys, LinearScan, RunStart, VersionsAt, KeyEnd, DistinctIds;
    hide ByAge;
    hide Versions, Unskip, Listed, All;
    Entries(vs, vks, prefix, i);
    var key, ms := KeyOf(vks[i]), VersionsAt(vs, vks, i);
    var run, rest := Versions(key, ms), All(vs, vks, prefix, KeyEnd(vks, i));
    AllUnfolds(vs, vks, prefix, i);
    VersionsSlice(key, ms, t);
    if ms[t - 1].versionId == [] {
      ListedFromRun(vs, vks, prefix, i);
      RunAtBegin(run + rest, t);
      assert (run + rest)[0..] == run + rest;
    } else {
      ListedAfterVersion(vs, vks, prefix, i, ms[t - 1].versionId, t);
      assert (run + rest)[t..] == run[t..] + rest;
    }
  }

  lemma RecordsSplit(vs: map<Bytes, ObjectMeta>, vks: seq<Bytes>)
    requires WellKeyed(vs) && vks == Keys(vs.Keys)
    ensures Sorted(vks) && forall k :: k in vks ==> k in vs && Split(k).Some?
  {
    hide Split;
  }

  lemma UnderPrefix(vs: map<Bytes, ObjectMeta>, vks: seq<Bytes>, prefix: Bytes, i: nat)
    requires (forall k :: k in vks ==> k in vs && Split(k).Some?) && i <= |vks| && All(vs, vks, prefix, i) != []
    ensures i < |vks| && HasPrefix(KeyOf(vks[i]), prefix)
  {
  }

  /** A key marker without a version id marker starts at the key's first entry. */
  lemma ListedFromRun(vs: map<Bytes, ObjectMeta>, vks: seq<Bytes>, prefix: Bytes, i: nat)
    requires WellKeyed(vs) && vks == Keys(vs.Keys) && i < |vks| && RunStart(vks, i) && KeyOf(vks[i]) != []
    ensures Listed(vs, Query(prefix, [], KeyOf(vks[i])), []) == All(vs, vks, prefix, i)
  {
    hide Less, HasPrefix, Split, NoNul, Seek, VersionKey, Keys, Scan, LinearScan, RunStart;
    KeyIsSought(vks, i);
    NoneSeen(vks, i);
    ScanIsLinear(vs, vks, Query(prefix, [], KeyOf(vks[i])), [], i, {});
    MarkerIdle(vs, vks, prefix, KeyOf(vks[i]), [], i);
  }

  lemma ListingFacts(vs: map<Bytes, ObjectMeta>, prefix: Bytes)
    requires WellKeyed(vs)
    ensures var all := Listed(vs, Query(prefix, [], []), []); AllVersions(all) && Distinct(all)
  {
    hide Less, HasPrefix, Split, NoNul, Seek, VersionKey, Keys, Scan, LinearScan, RunStart;
    var vks := Keys(vs.Keys);
    var i := Seek(vks, prefix);
    NoneSeen(vks, i);
    ScanIsLinear(vs, vks, Query(prefix, [], []), [], i, {});
    if NoNul(prefix) {
      SeekIsRunStart(vks, prefix);
      Entries(vs, vks, prefix, i);
    } else {
      NothingUnderNul(vs, vks, prefix, i);
    }
  }

  lemma ResumeFrom(vs: map<Bytes, ObjectMeta>, prefix: Bytes, t: nat)
    requires WellKeyed(vs) && forall vk :: vk in vs ==> KeyOf(vk) != []
    requires var all := Listed(vs, Query(prefix, [], []), []); AllVersions(all) && 0 < t <= |all|
    ensures var all := Listed(vs, Query(prefix, [], []), []);
      var (keyMarker, versionIdMarker) := Markers(all[t - 1]);
      keyMarker != [] && Listed(vs, Query(prefix, [], keyMarker), versionIdMarker) == all[NextStart(all, t)..]
  {
    hide Less, HasPrefix, Split, NoNul, Seek, VersionKey, Keys, Scan, LinearScan, RunStart;
    var vks := Keys(vs.Keys);
    var i := Seek(vks, prefix);
    NoneSeen(vks, i);
    ScanIsLinear(vs, vks, Query(prefix, [], []), [], i, {});
    if NoNul(prefix) {
      SeekIsRunStart(vks, prefix);
      VersionResume(vs, vks, prefix, i, t);
    } else {
      NothingUnderNul(vs, vks, prefix, i);
    }
  }

  // ----- following the markers -----

  /** Drops what has come before. */
  function FirstSeen(infos: seq<ObjectInfo>): seq<ObjectInfo> {
    if infos == [] then []
    else
      var before, last := FirstSeen(infos[..|infos| - 1]), infos[|infos| - 1];
      if last in before then before else before + [last]
  }

  /** A page that starts within what was delivered adds what follows it. */
  lemma {:induction false} FirstSeenPage(infos: seq<ObjectInfo>, all: seq<ObjectInfo>, t: nat, f: nat, n: nat)
    requires f <= t <= |all| && f <= n <= |all| && FirstSeen(infos) == all[..t]
    requires forall i, j :: 0 <= i < j < |all| ==> all[i] != all[j]
    ensures FirstSeen(infos + all[f..n]) == all[..if n < t then t else n]
    decreases n
  {
    hide FirstSeen;
    if f == n {
      assert infos + all[f..n] == infos;
    } else {
      FirstSeenPage(infos, all, t, f, n - 1);
      FirstSeenNext(infos + all[f..n - 1], all[n - 1]);
      assert infos + all[f..n] == infos + all[f..n - 1] + [all[n - 1]];
      if n > t { assert all[..n] == all[..n - 1] + [all[n - 1]]; }
    }
  }

  lemma FirstSeenNext(infos: seq<ObjectInfo>, x: ObjectInfo)
    ensures var before := FirstSeen(infos); FirstSeen(infos + [x]) == if x in before then before else before + [x]
  {
    assert (infos + [x])[..|infos|] == infos;
  }

  /** Every page reaches beyond what was delivered: fewer entries come again than a page holds. */
  ghost predicate Advances(vs: map<Bytes, ObjectMeta>, prefix: Bytes, maxKeys: int) {
    var all := Listed(vs, Query(prefix, [], []), []);
    AllVersions(all) ==> forall t :: 0 <= t <= |all| ==> t - NextStart(all, t) < maxKeys
  }

  lemma InfosOf(items: seq<VersionItem>)
    requires AllVersions(items) && Distinct(items)
    ensures var infos := InfosIn(items);
      && |infos| == |items| && (forall i :: 0 <= i < |items| ==> infos[i] == items[i].info)
      && forall i, j :: 0 <= i < j < |infos| ==> infos[i] != infos[j]
  {
    InfosEach(items);
  }

  lemma {:induction false} InfosEach(items: seq<VersionItem>)
    requires AllVersions(items)
    ensures |InfosIn(items)| == |items| && forall i :: 0 <= i < |items| ==> InfosIn(items)[i] == items[i].info
  {
    if items != [] { InfosEach(items[..|items| - 1]); }
  }

  lemma SliceInfos(items: seq<VersionItem>, f: nat, n: nat)
    requires AllVersions(items) && f <= n <= |items|
    ensures |InfosIn(items)| == |items| && InfosIn(items[f..n]) == InfosIn(items)[f..n]
  {
    InfosEach(items);
    InfosEach(items[f..n]);
  }

  /**
   * Following the markers of a bucket that does not change delivers every entry of the
   * version listing, in order but for entries that come again, in at most one page more
   * than there are entries; without empty version ids none comes again.
   */
  method FollowMarkers(vs: map<Bytes, ObjectMeta>, prefix: Bytes, maxKeys: int)
    returns (objects: seq<ObjectInfo>, ghost pages: nat)
    requires WellKeyed(vs) && (forall vk :: vk in vs ==> KeyOf(vk) != []) && Advances(vs, prefix, maxKeys)
    ensures var all := InfosIn(Listed(vs, Query(prefix, [], []), []));
      && FirstSeen(objects) == all && pages <= |all| + 1
      && ((forall x :: x in all ==> x.versionId != []) ==> objects == all)
  {
    hide Less, HasPrefix, Split, NoNul, Seek, VersionKey, Keys, Scan, LinearScan, RunStart, InfosIn, Listed, FirstSeen;
    hide Distinct, WellKeyed, NextStart;
    ghost var items := Listed(vs, Query(prefix, [], []), []);
    ghost var all := InfosIn(items);
    ListingFacts(vs, prefix);
    InfosOf(items);
    objects, pages := [], 0;
    var keyMarker: Bytes, versionIdMarker: Bytes := [], [];
    ghost var t, f := 0, 0;
    SeenNothing();
    StartOfNothing(items);
    while true
      invariant f <= t <= |all| && t - f < maxKeys && f == NextStart(items, t)
      invariant FirstSeen(objects) == all[..t] && pages <= t
      invariant (forall x :: x in all ==> x.versionId != []) ==> objects == all[..t]
      invariant Listed(vs, Query(prefix, [], keyMarker), versionIdMarker) == items[f..]
      decreases |all| - t
    {
      var page, prefixes, nextKey, nextVersion :=
        VersionListing.ListObjectVersions(vs, prefix, [], keyMarker, versionIdMarker, maxKeys);
      ghost var n := f + |Page(items[f..], maxKeys)|;
      assert Page(items[f..], maxKeys) == items[f..n];
      SliceInfos(items, f, n);
      FirstSeenPage(objects, all, t, f, n);
      NoneAgain(items, all, t);
      assert all[..t] + all[t..n] == all[..n];
      objects, pages := objects + page, pages + 1;
      if nextKey == [] && nextVersion == [] {
        if n > 0 { ResumeFrom(vs, prefix, n); }
        assert n == |all| && all[..n] == all;
        break;
      }
      ResumeFrom(vs, prefix, n);
      keyMarker, versionIdMarker := nextKey, nextVersion;
      t, f := n, NextStart(items, n);
    }
  }

  lemma SeenNothing()
    ensures FirstSeen([]) == []
  {
  }

  lemma StartOfNothing(items: seq<VersionItem>)
    requires AllVersions(items)
    ensures NextStart(items, 0) == 0
  {
  }

  lemma NoneAgain(items: seq<VersionItem>, all: seq<ObjectInfo>, t: nat)
    requires AllVersions(items) && t <= |items| == |all| && forall i :: 0 <= i < |items| ==> all[i] == items[i].info
    ensures (forall x :: x in all ==> x.versionId != []) ==> NextStart(items, t) == t
  {
    if t > 0 { assert all[t - 1] in all; }
  }

  // ----- which buckets and pages this is so for -----

  lemma NumberedAdvances(vs: map<Bytes, ObjectMeta>, prefix: Bytes, maxKeys: int)
    requires WellKeyed(vs) && maxKeys >= 1
    requires forall x :: x in Listed(vs, Query(prefix, [], []), []) && x.Version? ==> x.info.versionId != []
    ensures Advances(vs, prefix, maxKeys)
  {
    hide Listed, WellKeyed;
  }

  /** In a bucket that never had versions every key has one record, which comes again. */
  lemma PlainStart(vs: map<Bytes, ObjectMeta>, prefix: Bytes, t: nat)
    requires WellKeyed(vs) && forall vk :: vk in vs ==> vs[vk].versionId == []
    requires var all := Listed(vs, Query(prefix, [], []), []); AllVersions(all) && 0 < t <= |all|
    ensures NextStart(Listed(vs, Query(prefix, [], []), []), t) == t - 1
  {
    hide Less, HasPrefix, Split, NoNul, Seek, VersionKey, Keys, Scan, LinearScan, RunStart;
    var vks := Keys(vs.Keys);
    var i := Seek(vks, prefix);
    NoneSeen(vks, i);
    ScanIsLinear(vs, vks, Query(prefix, [], []), [], i, {});
    if NoNul(prefix) {
      SeekIsRunStart(vks, prefix);
      OnePerKey(vs, vks, prefix, i, t);
    } else {
      NothingUnderNul(vs, vks, prefix, i);
    }
  }

  lemma OneId(ms: seq<ObjectMeta>)
    requires DistinctIds(ms) && ms != [] && forall m :: m in ms ==> m.versionId == []
    ensures |ms| == 1 && ms[0].versionId == []
  {
    assert forall a :: 0 <= a < |ms| ==> ms[a] in ms;
    if |ms| > 1 { IdsApart(ms, 0, 1); }
  }

  lemma {:induction false} OnePerKey(vs: map<Bytes, ObjectMeta>, vks: seq<Bytes>, prefix: Bytes, i: nat, t: nat)
    requires WellKeyed(vs) && vks == Keys(vs.Keys) && i <= |vks| && RunStart(vks, i)
    requires (forall vk :: vk in vs ==> vs[vk].versionId == []) && 0 < t <= |All(vs, vks, prefix, i)|
    ensures var all := All(vs, vks, prefix, i);
      AllVersions(all) && all[t - 1].info.versionId == [] && RunAt(all, t) == t - 1
    decreases |vks| - i
  {
    hide Less, HasPrefix, Split, NoNul, Seek, VersionKey, Keys, VersionsAt, KeyEnd, RunStart, Versions, DistinctIds;
    hide ByAge, All;
    Entries(vs, vks, prefix, i);
    UnderPrefix(vs, vks, prefix, i);
    var key, ms, e := KeyOf(vks[i]), VersionsAt(vs, vks, i), KeyEnd(vks, i);
    var run, rest := Versions(key, ms), All(vs, vks, prefix, e);
    AllUnfolds(vs, vks, prefix, i);
    VersionsOfRun(vs, vks, i);
    VersionsSlice(key, ms, 0);
    OneId(ms);
    if t > 1 {
      RunOfKey(vks, i);
      Entries(vs, vks, prefix, e);
      RestIsOther(vs, vks, prefix, i);
      OnePerKey(vs, vks, prefix, e, t - 1);
      RunAtShift(run, rest, t - 1);
    }
  }

  /** So there following the markers advances exactly with pages of two entries or more, or if nothing is listed. */
  lemma PlainAdvances(vs: map<Bytes, ObjectMeta>, prefix: Bytes, maxKeys: int)
    requires WellKeyed(vs) && maxKeys >= 1 && forall vk :: vk in vs ==> vs[vk].versionId == []
    ensures Advances(vs, prefix, maxKeys) <==> maxKeys >= 2 || Listed(vs, Query(prefix, [], []), []) == []
  {
    hide Listed, WellKeyed, NextStart;
    var all := Listed(vs, Query(prefix, [], []), []);
    ListingFacts(vs, prefix);
    StartOfNothing(all);
    forall t | 0 < t <= |all|
      ensures NextStart(all, t) == t - 1
    {
      PlainStart(vs, prefix, t);
    }
    if all != [] { assert NextStart(all, 1) == 0; }
  }

  /** The markers after `n` pages of one entry. */
  ghost function MarkersAfter(vs: map<Bytes, ObjectMeta>, prefix: Bytes, n: nat): (Bytes, Bytes) {
    if n == 0 then ([], [])
    else
      var (keyMarker, versionIdMarker) := MarkersAfter(vs, prefix, n - 1);
      NextMarkers(Listed(vs, Query(prefix, [], keyMarker), versionIdMarker), 1)
  }

  /** With pages of one entry such a bucket delivers its first entry for ever. */
  lemma {:induction false} PlainStalls(vs: map<Bytes, ObjectMeta>, prefix: Bytes, n: nat)
    requires WellKeyed(vs) && (forall vk :: vk in vs ==> KeyOf(vk) != [] && vs[vk].versionId == []) && n > 0
    requires Listed(vs, Query(prefix, [], []), []) != []
    ensures var all := Listed(vs, Query(prefix, [], []), []);
      AllVersions(all) && MarkersAfter(vs, prefix, n) == (all[0].info.key, []) && all[0].info.key != []
  {
    hide Listed, WellKeyed, NextStart;
    var all := Listed(vs, Query(prefix, [], []), []);
    ListingFacts(vs, prefix);
    ResumeFrom(vs, prefix, 1);
    PlainStart(vs, prefix, 1);
    assert all[0..] == all;
    PlainIds(vs, prefix);
    if n > 1 { PlainStalls(vs, prefix, n - 1); }
  }

  lemma PlainIds(vs: map<Bytes, ObjectMeta>, prefix: Bytes)
    requires WellKeyed(vs) && (forall vk :: vk in vs ==> vs[vk].versionId == [])
    requires Listed(vs, Query(prefix, [], []), []) != []
    ensures var x := Listed(vs, Query(prefix, [], []), [])[0]; x.Version? ==> x.info.versionId == []
  {
    hide Listed, WellKeyed;
    ListingFacts(vs, prefix);
    PlainStart(vs, prefix, 1);
  }
}
