/** One page of the expiration pass on a bucket that never had versioning, whose records have no ids. */
module PlainPass {
  import opened Backend
  import opened BackendModel
  import opened ByteStrings
  import opened Coherence
  import opened Lifecycle
  import opened Listing
  import opened ObjectTypes
  import opened Outcomes
  import opened SortedKeys
  import opened StoreModel
  import opened VersionKeys
  import opened VersionListing
  import opened VersionPaging

  // ----- what a page lists that starts at a key -----

  /** In order, describing records from a key on, and leaving none of them out. */
  ghost predicate ListsFrom(vs: map<Bytes, ObjectMeta>, prefix: Bytes, start: Bytes, items: seq<VersionItem>) {
    && Ordered(items)
    && (forall x :: x in items ==> x.Version? && Describes(vs, prefix, x.info) && !Less(x.info.key, start))
    && forall info :: Describes(vs, prefix, info) && !Less(info.key, start) ==> Version(info) in items
  }

  predicate StartsAt(prefix: Bytes, start: Bytes) {
    start == [] || (NoNul(start) && HasPrefix(start, prefix))
  }

  lemma ListedFromKey(vs: map<Bytes, ObjectMeta>, prefix: Bytes, start: Bytes)
    requires WellKeyed(vs) && DistinctTimes(vs) && StartsAt(prefix, start)
    ensures ListsFrom(vs, prefix, start, Listed(vs, Query(prefix, [], start), []))
  {
    hide Less, HasPrefix, Split, NoNul, Seek, VersionKey, Keys, Scan, LinearScan, RunStart, Ordered, Describes;
    hide WellKeyed, DistinctTimes;
    if start == [] {
      WholeVersionListing(vs, prefix);
      NothingLess();
    } else {
      var vks := Keys(vs.Keys);
      var i := Seek(vks, start);
      AllSplit(vs, vks);
      SeekIsRunStart(vks, start);
      NoneSeen(vks, i);
      ScanIsLinear(vs, vks, Query(prefix, [], start), [], i, {});
      MarkerIdle(vs, vks, prefix, start, [], i);
      AllIsOrdered(vs, vks, prefix, i);
      forall x | x in All(vs, vks, prefix, i)
        ensures !Less(x.info.key, start)
      {
        var j :| i <= j < |vks| && Split(vks[j]).Some? && KeyOf(vks[j]) == x.info.key;
        KeyFromSeek(vks, start, j);
      }
      forall info | Describes(vs, prefix, info) && !Less(info.key, start)
        ensures Version(info) in All(vs, vks, prefix, i)
      {
        RecordFromSeek(vs, vks, prefix, start, info);
        AllIsComplete(vs, vks, prefix, i, info);
      }
    }
  }

  lemma NothingLess()
    ensures forall k :: !Less(k, [])
  {
  }

  lemma AllSplit(vs: map<Bytes, ObjectMeta>, vks: seq<Bytes>)
    requires WellKeyed(vs) && vks == Keys(vs.Keys)
    ensures Sorted(vks) && forall k :: k in vks ==> k in vs && Split(k).Some?
  {
    hide Split;
  }

  lemma KeyFromSeek(vks: seq<Bytes>, start: Bytes, j: nat)
    requires Sorted(vks) && NoNul(start) && Seek(vks, start) <= j < |vks| && Split(vks[j]).Some?
    ensures !Less(KeyOf(vks[j]), start)
  {
    hide Less, HasPrefix, Split, NoNul, Seek, VersionKey, Sorted;
    SeekSplits(vks, start);
    if Less(KeyOf(vks[j]), start) {
      var (k, v) := Split(vks[j]).value;
      KeyEndIsRunEnd(vks, j);
      VersionKeyOrder(k, v, start, []);
    }
  }

  lemma RecordFromSeek(vs: map<Bytes, ObjectMeta>, vks: seq<Bytes>, prefix: Bytes, start: Bytes, info: ObjectInfo)
    requires WellKeyed(vs) && vks == Keys(vs.Keys) && start != [] && StartsAt(prefix, start)
    requires Describes(vs, prefix, info) && !Less(info.key, start)
    ensures Seek(vks, prefix) <= Seek(vks, start)
    ensures exists j :: Seek(vks, start) <= j < |vks| && vks[j] == VersionKey(info.key, info.versionId)
  {
    hide Less, HasPrefix, Split, NoNul, Seek, VersionKey, Keys, Sorted;
    var vk := VersionKey(info.key, info.versionId);
    assert vk in vks;
    var j :| 0 <= j < |vks| && vks[j] == vk;
    SplitVersionKey(info.key, info.versionId);
    PrefixNotGreaterKey(vk);
    SeekSplits(vks, start);
    SeekSplits(vks, prefix);
    PrefixNotGreater(start, prefix);
    if j < Seek(vks, start) {
      LeqLessTransitive(info.key, vk, start);
    }
    if Seek(vks, start) < Seek(vks, prefix) {
      LeqLessTransitive(start, vks[Seek(vks, start)], prefix);
    }
  }

  // ----- one page -----

  /** Every record up to a key is dealt with. */
  ghost predicate DoneUpTo(d: Disk, bucket: Bytes, prefix: Bytes, start: Bytes, cutoff: int, times: nat -> int) {
    start != [] ==> forall vk {:trigger Under(vk, prefix)} ::
      vk in VersionsOf(d.db, bucket) && Under(vk, prefix) && !Less(start, KeyOf(vk)) ==>
        DealtWith(d, bucket, vk, cutoff, times)
  }

  ghost function KeysAfter(vs: map<Bytes, ObjectMeta>, start: Bytes): set<Bytes> {
    set vk | vk in vs && Split(vk).Some? && Less(start, KeyOf(vk))
  }

  /** A page: what it lists from a key on, and that it has dealt with its entries. */
  ghost predicate PlainRound(
    a: Disk, b: Disk, bucket: Bytes, clock: int, prefix: Bytes, start: Bytes, cutoff: int, times: nat -> int,
    items: seq<VersionItem>, page: seq<VersionItem>)
  {
    && Coherent(ObjectsOf(a.db, bucket), VersionsOf(a.db, bucket), clock) && Plain(a, bucket)
    && OnlyExpired(a, b, bucket, prefix, cutoff, times)
    && ListsFrom(VersionsOf(a.db, bucket), prefix, start, items) && page <= items
    && forall i :: 0 <= i < |page| ==> page[i].Version? && DealtWith(b, bucket, KeyOfInfo(page[i].info), cutoff, times)
  }

  /** Records of different keys: of two entries the earlier has the smaller key. */
  lemma PlainOrder(vs: map<Bytes, ObjectMeta>, prefix: Bytes, start: Bytes, items: seq<VersionItem>, i: nat, j: nat)
    requires ListsFrom(vs, prefix, start, items) && i < j < |items| && forall vk :: vk in vs ==> vs[vk].versionId == []
    ensures items[i].Version? && items[j].Version? && Less(items[i].info.key, items[j].info.key)
  {
    hide Less, HasPrefix, NoNul, VersionKey;
    assert items[i] in items && items[j] in items;
    OrderedAt(items, i, j);
  }

  /** Where a record stands: dealt with before, on the page, or behind the page's last entry. */
  lemma PlainPlace(
    a: Disk, b: Disk, bucket: Bytes, clock: int, prefix: Bytes, start: Bytes, cutoff: int, times: nat -> int,
    items: seq<VersionItem>, page: seq<VersionItem>, vk: Bytes)
    requires PlainRound(a, b, bucket, clock, prefix, start, cutoff, times, items, page)
    requires DoneUpTo(a, bucket, prefix, start, cutoff, times) && vk in VersionsOf(a.db, bucket) && Under(vk, prefix)
    requires |page| < |items| ==> page != [] && !Less(page[|page| - 1].info.key, KeyOf(vk))
    ensures DealtWith(b, bucket, vk, cutoff, times)
  {
    hide Less, HasPrefix, NoNul, VersionKey, Ordered, OnlyExpired, DealtWith, Split, Coherent;
    var vs := VersionsOf(a.db, bucket);
    if start != [] && !Less(start, KeyOf(vk)) {
      StaysDealtWith(a, b, bucket, prefix, vk, cutoff, times);
    } else {
      var info := Info(KeyOf(vk), vs[vk]);
      CoherentIsWellKeyed(ObjectsOf(a.db, bucket), vs, clock);
      DescribesIt(vs, prefix, vk);
      NotLess(start, info.key);
      var j :| 0 <= j < |items| && items[j] == Version(info);
      if j < |page| {
        assert page[j] == items[j];
      } else {
        PlainOrder(vs, prefix, start, items, |page| - 1, j);
      }
    }
  }

  lemma DescribesIt(vs: map<Bytes, ObjectMeta>, prefix: Bytes, vk: Bytes)
    requires WellKeyed(vs) && vk in vs && Under(vk, prefix)
    ensures Describes(vs, prefix, Info(KeyOf(vk), vs[vk])) && KeyOfInfo(Info(KeyOf(vk), vs[vk])) == vk
  {
    hide HasPrefix;
  }

  lemma NotLess(start: Bytes, key: Bytes)
    ensures start == [] || Less(start, key) ==> !Less(key, start)
  {
    if start != [] && Less(start, key) { LessAsymmetric(start, key); }
  }

  /** After a full page all records up to its last key are dealt with, and fewer keys are ahead. */
  lemma PlainPageOn(
    a: Disk, b: Disk, bucket: Bytes, clock: int, prefix: Bytes, start: Bytes, cutoff: int, times: nat -> int,
    items: seq<VersionItem>, page: seq<VersionItem>)
    requires PlainRound(a, b, bucket, clock, prefix, start, cutoff, times, items, page)
    requires DoneUpTo(a, bucket, prefix, start, cutoff, times) && |page| >= 2
    ensures var last := page[|page| - 1].info.key;
      && last != [] && StartsAt(prefix, last)
      && DoneUpTo(b, bucket, prefix, last, cutoff, times)
      && KeysAfter(VersionsOf(b.db, bucket), last) < KeysAfter(VersionsOf(a.db, bucket), start)
  {
    hide Less, HasPrefix, NoNul, VersionKey, Ordered, OnlyExpired, DealtWith, Coherent, Split, ListsFrom;
    var va, vb := VersionsOf(a.db, bucket), VersionsOf(b.db, bucket);
    var x := page[|page| - 1].info;
    EntryFacts(va, prefix, start, items, |page| - 1);
    EntryFacts(va, prefix, start, items, 0);
    RecordsRemain(a, b, bucket, prefix, cutoff, times);
    CoherentKeys(ObjectsOf(a.db, bucket), va, clock);
    SplitVersionKey(x.key, x.versionId);
    forall vk | vk in vb && Under(vk, prefix) && !Less(x.key, KeyOf(vk))
      ensures DealtWith(b, bucket, vk, cutoff, times)
    {
      PlainPlace(a, b, bucket, clock, prefix, start, cutoff, times, items, page, vk);
    }
    PlainOrder(va, prefix, start, items, 0, |page| - 1);
    LeqLess(start, page[0].info.key, x.key);
    LessIrreflexive(x.key);
    forall vk | vk in KeysAfter(vb, x.key)
      ensures vk in KeysAfter(va, start)
    {
      LessTransitive(start, x.key, KeyOf(vk));
    }
    assert KeyOfInfo(x) in KeysAfter(va, start) && KeyOfInfo(x) !in KeysAfter(vb, x.key);
  }

  lemma LeqLess(a: Bytes, b: Bytes, c: Bytes)
    requires !Less(b, a) && Less(b, c)
    ensures Less(a, c)
  {
    LeqLessTransitive(a, b, c);
  }

  lemma EntryFacts(vs: map<Bytes, ObjectMeta>, prefix: Bytes, start: Bytes, items: seq<VersionItem>, i: nat)
    requires ListsFrom(vs, prefix, start, items) && i < |items|
    ensures items[i].Version? && Describes(vs, prefix, items[i].info) && !Less(items[i].info.key, start)
  {
    hide Less, Describes, Ordered;
    assert items[i] in items;
  }

  /** After the last page everything is dealt with. */
  lemma PlainPageLast(
    a: Disk, b: Disk, bucket: Bytes, clock: int, prefix: Bytes, start: Bytes, cutoff: int, times: nat -> int,
    items: seq<VersionItem>)
    requires PlainRound(a, b, bucket, clock, prefix, start, cutoff, times, items, items)
    requires DoneUpTo(a, bucket, prefix, start, cutoff, times)
    ensures Covered(b, bucket, prefix, {}, cutoff, times)
  {
    hide Less, HasPrefix, OnlyExpired, DealtWith, Split, PlainRound, DoneUpTo;
    RoundShrinks(a, b, bucket, clock, prefix, start, cutoff, times, items);
    forall vk | vk in VersionsOf(b.db, bucket) && Under(vk, prefix)
      ensures DealtWith(b, bucket, vk, cutoff, times)
    {
      PlainPlace(a, b, bucket, clock, prefix, start, cutoff, times, items, items, vk);
    }
  }

  lemma RoundShrinks(
    a: Disk, b: Disk, bucket: Bytes, clock: int, prefix: Bytes, start: Bytes, cutoff: int, times: nat -> int,
    items: seq<VersionItem>)
    requires PlainRound(a, b, bucket, clock, prefix, start, cutoff, times, items, items)
    ensures VersionsOf(b.db, bucket).Keys <= VersionsOf(a.db, bucket).Keys
  {
    hide OnlyExpired, ListsFrom, DealtWith;
    RecordsRemain(a, b, bucket, prefix, cutoff, times);
  }
}
