/** The expiration pass as a whole: its pages, what it covers, and what it leaves behind. */
module LifecyclePass {
  import opened Backend
  import opened BackendModel
  import opened ByteStrings
  import opened Coherence
  import opened Lifecycle
  import opened Listing
  import opened ObjectTypes
  import opened Outcomes
  import opened PlainPass
  import opened StoreModel
  import opened VersionKeys
  import opened VersionListing
  import opened VersionPaging

  datatype Rule = Rule(bucket: Bytes, prefix: Bytes, cutoff: int, times: nat -> int)

  /** The disk before the first page and after each page, and the pages as listed. */
  datatype Trace = Trace(disks: seq<Disk>, pages: seq<seq<ObjectInfo>>)

  function LastEntry(pages: seq<seq<ObjectInfo>>, i: nat): Option<ObjectInfo>
    requires i <= |pages|
  {
    if i == 0 || pages[i - 1] == [] then None else Some(pages[i - 1][|pages[i - 1]| - 1])
  }

  function KeyMarker(last: Option<ObjectInfo>): Bytes {
    if last.Some? then last.value.key else []
  }

  function VersionMarker(last: Option<ObjectInfo>): Bytes {
    if last.Some? then last.value.versionId else []
  }

  ghost function Items(d: Disk, r: Rule, last: Option<ObjectInfo>): seq<VersionItem> {
    Listed(VersionsOf(d.db, r.bucket), Query(r.prefix, [], KeyMarker(last)), VersionMarker(last))
  }

  /** One page: what the store lists after the page before, and the deletes that follow. */
  ghost predicate Round(a: Disk, b: Disk, r: Rule, last: Option<ObjectInfo>, page: seq<ObjectInfo>) {
    && page == InfosIn(Page(Items(a, r, last), MAX_KEYS))
    && OnlyExpired(a, b, r.bucket, r.prefix, r.cutoff, r.times)
    && (forall i :: 0 <= i < |page| ==> DealtWith(b, r.bucket, KeyOfInfo(page[i]), r.cutoff, r.times))
    && VersionsOf(a.db, r.bucket).Keys - KeysOfInfos(page) <= VersionsOf(b.db, r.bucket).Keys
  }

  /** A pass so far: every page but the last is full. */
  ghost predicate Rounds(t: Trace, r: Rule, clock: int) {
    && |t.disks| == |t.pages| + 1
    && (forall i :: 0 <= i < |t.disks| ==> Ready(t.disks[i], r.bucket, clock) && Numbered(t.disks[i], r.bucket))
    && (forall i :: 0 <= i < |t.disks| ==> OnlyExpired(t.disks[0], t.disks[i], r.bucket, r.prefix, r.cutoff, r.times))
    && (forall i :: 0 <= i < |t.pages| ==> Round(t.disks[i], t.disks[i + 1], r, LastEntry(t.pages, i), t.pages[i]))
    && (forall i :: 0 <= i < |t.pages| - 1 ==> |t.pages[i]| == MAX_KEYS)
  }

  /** A whole pass ends with the first page that is not full; a bucket that never had a version has no pages. */
  ghost predicate IsPass(t: Trace, r: Rule, clock: int) {
    && Rounds(t, r, clock)
    && (t.pages == [] ==> r.bucket !in t.disks[0].db.versions)
    && (t.pages != [] ==> |t.pages[|t.pages| - 1]| < MAX_KEYS)
  }

  /** The page ended with a record that the pass then removed. */
  ghost predicate LostLast(t: Trace, r: Rule, i: nat)
    requires i < |t.pages| && |t.disks| == |t.pages| + 1
  {
    |t.pages[i]| == MAX_KEYS && KeyOfInfo(t.pages[i][MAX_KEYS - 1]) !in VersionsOf(t.disks[i + 1].db, r.bucket)
  }

  /** The keys at which one of the first `n` pages lost the record it ended with. */
  ghost function BreaksUpTo(t: Trace, r: Rule, n: nat): set<Bytes>
    requires n <= |t.pages| && |t.disks| == |t.pages| + 1
  {
    if n == 0 then {}
    else if LostLast(t, r, n - 1) then BreaksUpTo(t, r, n - 1) + {t.pages[n - 1][MAX_KEYS - 1].key}
    else BreaksUpTo(t, r, n - 1)
  }

  ghost function BreaksOf(t: Trace, r: Rule): set<Bytes>
    requires |t.disks| == |t.pages| + 1
  {
    BreaksUpTo(t, r, |t.pages|)
  }

  lemma {:induction false} BreaksAre(t: Trace, r: Rule, n: nat, key: Bytes)
    requires n <= |t.pages| && |t.disks| == |t.pages| + 1
    ensures key in BreaksUpTo(t, r, n) <==>
      exists i :: 0 <= i < n && LostLast(t, r, i) && t.pages[i][MAX_KEYS - 1].key == key
  {
    if n > 0 { BreaksAre(t, r, n - 1, key); }
  }

  // ----- every page -----

  ghost predicate FullBefore(t: Trace, i: nat) {
    i <= |t.pages| && forall j :: 0 <= j < i ==> |t.pages[j]| == MAX_KEYS
  }

  lemma FullInRounds(t: Trace, r: Rule, clock: int, i: nat)
    requires Rounds(t, r, clock) && i < |t.pages|
    ensures FullBefore(t, i)
  {
    hide Ready, Round, OnlyExpired;
  }

  lemma Shape(t: Trace, r: Rule, clock: int)
    requires Rounds(t, r, clock)
    ensures |t.disks| == |t.pages| + 1
  {
    hide Ready, Round, OnlyExpired;
  }

  lemma LastEntryIs(pages: seq<seq<ObjectInfo>>, i: nat)
    requires 0 < i <= |pages| && |pages[i - 1]| == MAX_KEYS
    ensures LastEntry(pages, i) == Some(pages[i - 1][MAX_KEYS - 1])
  {
  }

  /** The markers of every page stand for the last entry of the page before. */
  lemma {:induction false} MarkersHold(t: Trace, r: Rule, clock: int, i: nat)
    requires Rounds(t, r, clock) && FullBefore(t, i)
    ensures |t.disks| == |t.pages| + 1
    ensures var last := LastEntry(t.pages, i);
      MarkersAt(VersionsOf(t.disks[i].db, r.bucket), r.prefix, last, KeyMarker(last), VersionMarker(last))
  {
    hide Rounds, MarkersAt, InfosIn, Page, PageOf, PageDone, Items, LastEntry;
    Shape(t, r, clock);
    if i == 0 {
      NoMarkers(VersionsOf(t.disks[0].db, r.bucket), r.prefix);
      assert LastEntry(t.pages, 0) == None by { FirstHasNoLast(t.pages); }
    } else {
      MarkersHold(t, r, clock, i - 1);
      var page := RoundFacts(t, r, clock, i - 1);
      LastEntryIs(t.pages, i);
      NextAt(t.disks[i - 1], t.disks[i], r.bucket, r.prefix, r.cutoff, r.times, LastEntry(t.pages, i - 1),
        Items(t.disks[i - 1], r, LastEntry(t.pages, i - 1)), page);
    }
  }

  lemma FirstHasNoLast(pages: seq<seq<ObjectInfo>>)
    ensures LastEntry(pages, 0) == None
  {
  }

  lemma NoMarkers(vs: map<Bytes, ObjectMeta>, prefix: Bytes)
    ensures MarkersAt(vs, prefix, None, [], [])
  {
  }

  /** What is known of one page, given that its markers hold. */
  lemma RoundFacts(t: Trace, r: Rule, clock: int, i: nat) returns (page: seq<VersionItem>)
    requires Rounds(t, r, clock) && i < |t.pages|
    requires var last := LastEntry(t.pages, i);
      MarkersAt(VersionsOf(t.disks[i].db, r.bucket), r.prefix, last, KeyMarker(last), VersionMarker(last))
    ensures var items, last := Items(t.disks[i], r, LastEntry(t.pages, i)), LastEntry(t.pages, i);
      && page == Page(items, MAX_KEYS) && InfosIn(page) == t.pages[i] && |page| == |t.pages[i]| <= MAX_KEYS
      && (forall j :: 0 <= j < |page| ==> page[j].Version? && t.pages[i][j] == page[j].info)
      && PageOf(VersionsOf(t.disks[i].db, r.bucket), r.prefix, t.pages[i])
      && PageDone(t.disks[i], t.disks[i + 1], r.bucket, r.prefix, r.cutoff, r.times, last, items, page)
  {
    hide Ready, OnlyExpired, MarkersAt, DealtWith, KeyOfInfo, KeysOfInfos, InfosIn, Page, Lists, PageOf, PageDone;
    hide Listed;
    var last := LastEntry(t.pages, i);
    var items := Items(t.disks[i], r, last);
    page := Page(items, MAX_KEYS);
    assert Round(t.disks[i], t.disks[i + 1], r, last, t.pages[i]);
    PageStarts(t.disks[i], r.bucket, clock, r.prefix, last, KeyMarker(last), VersionMarker(last), items, page);
    PageEnds(t.disks[i], t.disks[i + 1], r.bucket, clock, r.prefix, r.cutoff, r.times, last, items, page);
  }

  // ----- what a pass covers -----

  lemma BreaksStep(t: Trace, r: Rule, i: nat)
    requires 0 < i <= |t.pages| && |t.disks| == |t.pages| + 1 && |t.pages[i - 1]| == MAX_KEYS
    ensures BreaksUpTo(t, r, i) == Breaks(t.disks[i], r.bucket, BreaksUpTo(t, r, i - 1), t.pages[i - 1][MAX_KEYS - 1])
  {
    hide KeyOfInfo;
  }

  lemma {:induction false} BehindAt(t: Trace, r: Rule, clock: int, i: nat)
    requires Rounds(t, r, clock) && FullBefore(t, i)
    ensures |t.disks| == |t.pages| + 1
    ensures Behind(t.disks[i], r.bucket, r.prefix, BreaksUpTo(t, r, i), LastEntry(t.pages, i), r.cutoff, r.times)
  {
    hide Rounds, MarkersAt, InfosIn, Page, PageOf, PageDone, Items, LastEntry, Behind, Breaks;
    Shape(t, r, clock);
    FirstHasNoLast(t.pages);
    if i == 0 {
      PassStarts(t.disks[0], r.bucket, r.prefix, r.cutoff, r.times);
    } else {
      BehindAt(t, r, clock, i - 1);
      MarkersHold(t, r, clock, i - 1);
      var page := RoundFacts(t, r, clock, i - 1);
      LastEntryIs(t.pages, i);
      NextBehind(t.disks[i - 1], t.disks[i], r.bucket, r.prefix, BreaksUpTo(t, r, i - 1), r.cutoff, r.times,
        LastEntry(t.pages, i - 1), Items(t.disks[i - 1], r, LastEntry(t.pages, i - 1)), page);
      BreaksStep(t, r, i);
    }
  }

  /** A whole pass leaves no expired record that was never locked, but of keys at which a page lost its last record. */
  lemma PassCovers(t: Trace, r: Rule, clock: int)
    requires IsPass(t, r, clock)
    ensures |t.disks| == |t.pages| + 1
    ensures Covered(t.disks[|t.pages|], r.bucket, r.prefix, BreaksOf(t, r), r.cutoff, r.times)
  {
    hide Rounds, MarkersAt, InfosIn, PageOf, PageDone, Items, LastEntry, Behind, Covered;
    Shape(t, r, clock);
    if t.pages == [] {
      NothingToCover(t.disks[0], r.bucket, r.prefix, BreaksOf(t, r), r.cutoff, r.times);
    } else {
      var n := |t.pages| - 1;
      FullInRounds(t, r, clock, n);
      BehindAt(t, r, clock, n);
      MarkersHold(t, r, clock, n);
      var page := RoundFacts(t, r, clock, n);
      LastPageCovers(t.disks[n], t.disks[n + 1], r.bucket, r.prefix, BreaksUpTo(t, r, n), r.cutoff, r.times,
        LastEntry(t.pages, n), Items(t.disks[n], r, LastEntry(t.pages, n)));
    }
  }

  // ----- how many breaks there can be -----

  ghost function AheadUnder(vs: map<Bytes, ObjectMeta>, prefix: Bytes, last: Option<ObjectInfo>): set<Bytes> {
    set vk | vk in Ahead(vs, last) && Under(vk, prefix)
  }

  /** An entry of a page lies ahead of the page before and not ahead of the page's last entry. */
  lemma EntryIsAhead(
    a: Disk, b: Disk, r: Rule, last: Option<ObjectInfo>, items: seq<VersionItem>, page: seq<VersionItem>, j: nat)
    requires PageDone(a, b, r.bucket, r.prefix, r.cutoff, r.times, last, items, page) && j < |page|
    ensures var vk := KeyOfInfo(page[j].info);
      && vk in AheadUnder(VersionsOf(a.db, r.bucket), r.prefix, last)
      && vk !in AheadUnder(VersionsOf(b.db, r.bucket), r.prefix, Some(page[|page| - 1].info))
  {
    hide HasPrefix, NoNul, Ordered, OnlyExpired, DealtWith, VersionKey, Split, Before, Reached;
    var va, vb := VersionsOf(a.db, r.bucket), VersionsOf(b.db, r.bucket);
    var x, p := page[j].info, page[|page| - 1].info;
    assert page[j] in items && page[|page| - 1] in items;
    SplitVersionKey(x.key, x.versionId);
    RecordsRemain(a, b, r.bucket, r.prefix, r.cutoff, r.times);
    var vk := KeyOfInfo(x);
    if vk in vb {
      BeforeInfo(p, x.key, vb[vk], va[vk]);
      BeforeIrreflexive(x);
      if j < |page| - 1 {
        OrderedAt(items, j, |page| - 1);
        if Before(p, x) { BeforeTransitive(p, x, p); BeforeIrreflexive(p); }
      }
    }
  }

  lemma AheadDrops(
    a: Disk, b: Disk, r: Rule, last: Option<ObjectInfo>, items: seq<VersionItem>, page: seq<VersionItem>,
    infos: seq<ObjectInfo>)
    requires PageDone(a, b, r.bucket, r.prefix, r.cutoff, r.times, last, items, page) && page != []
    requires PageOf(VersionsOf(a.db, r.bucket), r.prefix, infos) && |infos| == |page|
    requires forall j :: 0 <= j < |page| ==> page[j].Version? && infos[j] == page[j].info
    ensures |AheadUnder(VersionsOf(b.db, r.bucket), r.prefix, Some(page[|page| - 1].info))| + |page|
      <= |AheadUnder(VersionsOf(a.db, r.bucket), r.prefix, last)|
  {
    hide PageDone, PageOf, KeyOfInfo, Ahead, Under, AllListable;
    var va, vb, p := VersionsOf(a.db, r.bucket), VersionsOf(b.db, r.bucket), page[|page| - 1].info;
    PageIsListable(a, r.bucket, r.prefix, infos);
    ManyKeys(infos);
    AheadShrinks(a, b, r.bucket, r.prefix, r.cutoff, r.times, last, items, page);
    var keys, left := KeysOfInfos(infos), AheadUnder(vb, r.prefix, Some(p));
    forall j | 0 <= j < |infos|
      ensures KeyOfInfo(infos[j]) in AheadUnder(va, r.prefix, last) && KeyOfInfo(infos[j]) !in left
    {
      EntryIsAhead(a, b, r, last, items, page, j);
    }
    assert keys !! left;
    SubsetIsSmaller(keys + left, AheadUnder(va, r.prefix, last));
  }

  lemma {:induction false} BreaksAndAhead(t: Trace, r: Rule, clock: int, i: nat)
    requires Rounds(t, r, clock) && FullBefore(t, i)
    ensures |t.disks| == |t.pages| + 1
    ensures |BreaksUpTo(t, r, i)| * MAX_KEYS
      + |AheadUnder(VersionsOf(t.disks[i].db, r.bucket), r.prefix, LastEntry(t.pages, i))|
      <= |RecordsUnder(VersionsOf(t.disks[0].db, r.bucket), r.prefix)|
  {
    hide Rounds, MarkersAt, InfosIn, Page, PageOf, PageDone, Items, LastEntry, AheadUnder, RecordsUnder, LostLast;
    Shape(t, r, clock);
    FirstHasNoLast(t.pages);
    if i == 0 {
      AllAhead(VersionsOf(t.disks[0].db, r.bucket), r.prefix);
    } else {
      BreaksAndAhead(t, r, clock, i - 1);
      MarkersHold(t, r, clock, i - 1);
      var page := RoundFacts(t, r, clock, i - 1);
      LastEntryIs(t.pages, i);
      AheadDrops(t.disks[i - 1], t.disks[i], r, LastEntry(t.pages, i - 1),
        Items(t.disks[i - 1], r, LastEntry(t.pages, i - 1)), page, t.pages[i - 1]);
      OneMore(t, r, i);
    }
  }

  lemma AllAhead(vs: map<Bytes, ObjectMeta>, prefix: Bytes)
    ensures AheadUnder(vs, prefix, None) == RecordsUnder(vs, prefix)
  {
  }

  lemma OneMore(t: Trace, r: Rule, i: nat)
    requires 0 < i <= |t.pages| && |t.disks| == |t.pages| + 1
    ensures |BreaksUpTo(t, r, i)| <= |BreaksUpTo(t, r, i - 1)| + 1
  {
    hide LostLast;
  }

  /** Every break takes a page full of records. */
  lemma FewBreaks(t: Trace, r: Rule, clock: int)
    requires IsPass(t, r, clock)
    ensures |t.disks| == |t.pages| + 1
    ensures |BreaksOf(t, r)| * 10000 <= |RecordsUnder(VersionsOf(t.disks[0].db, r.bucket), r.prefix)|
  {
    hide Rounds, AheadUnder, RecordsUnder;
    Shape(t, r, clock);
    if t.pages != [] {
      FullInRounds(t, r, clock, |t.pages| - 1);
      BreaksAndAhead(t, r, clock, |t.pages| - 1);
    }
  }

  // ----- what a pass leaves behind -----

  lemma PageInOrder(t: Trace, r: Rule, clock: int, j: nat)
    requires Rounds(t, r, clock) && j < |t.pages|
    ensures |t.disks| == |t.pages| + 1
    ensures PageOf(VersionsOf(t.disks[j].db, r.bucket), r.prefix, t.pages[j])
    ensures forall x :: x in t.pages[j] && LastEntry(t.pages, j).Some? ==> Before(LastEntry(t.pages, j).value, x)
  {
    hide Rounds, MarkersAt, InfosIn, Page, PageOf, PageDone, Items, LastEntry, Before;
    Shape(t, r, clock);
    FullInRounds(t, r, clock, j);
    MarkersHold(t, r, clock, j);
    var page := RoundFacts(t, r, clock, j);
    var last := LastEntry(t.pages, j);
    PageFollows(t.disks[j], t.disks[j + 1], r, last, Items(t.disks[j], r, last), page);
    forall x | x in t.pages[j] && last.Some?
      ensures Before(last.value, x)
    {
      var k :| 0 <= k < |t.pages[j]| && t.pages[j][k] == x;
      assert page[k] in page;
    }
  }

  lemma PageFollows(
    a: Disk, b: Disk, r: Rule, last: Option<ObjectInfo>, items: seq<VersionItem>, page: seq<VersionItem>)
    requires PageDone(a, b, r.bucket, r.prefix, r.cutoff, r.times, last, items, page)
    ensures forall x :: x in page && last.Some? ==> x.Version? && Before(last.value, x.info)
  {
    hide Before, OnlyExpired, Ordered, Describes, DealtWith;
    assert forall x :: x in page ==> x in items;
  }

  /** Behind a page that lost its last record come later keys only. */
  lemma {:induction false} LaterKeysOnly(t: Trace, r: Rule, clock: int, i: nat, j: nat, x: ObjectInfo)
    requires Rounds(t, r, clock) && |t.disks| == |t.pages| + 1 && i < j < |t.pages|
    requires LostLast(t, r, i) && x in t.pages[j]
    ensures Less(t.pages[i][MAX_KEYS - 1].key, x.key)
    decreases j
  {
    hide Rounds, InfosIn, Page, PageOf, PageDone, Listed, LastEntry, Less, Ready;
    var p := t.pages[i][MAX_KEYS - 1];
    FullInRounds(t, r, clock, j);
    LastEntryIs(t.pages, j);
    if j == i + 1 {
      FirstAfterLoss(t, r, clock, i, x);
    } else {
      var q := t.pages[j - 1][MAX_KEYS - 1];
      LaterKeysOnly(t, r, clock, i, j - 1, q);
      PageInOrder(t, r, clock, j);
      if q.key != x.key { LessTransitive(p.key, q.key, x.key); }
    }
  }

  lemma FirstAfterLoss(t: Trace, r: Rule, clock: int, i: nat, x: ObjectInfo)
    requires Rounds(t, r, clock) && |t.disks| == |t.pages| + 1 && i + 1 < |t.pages|
    requires LostLast(t, r, i) && x in t.pages[i + 1]
    ensures Less(t.pages[i][MAX_KEYS - 1].key, x.key)
  {
    hide Rounds, InfosIn, Page, PageOf, PageDone, Listed, LastEntry, Less, NoNul, HasPrefix, VersionKey, Ready, Before;
    FullInRounds(t, r, clock, i + 1);
    MarkersHold(t, r, clock, i + 1);
    LastEntryIs(t.pages, i + 1);
    var p := t.pages[i][MAX_KEYS - 1];
    var page := RoundFacts(t, r, clock, i + 1);
    var k :| 0 <= k < |t.pages[i + 1]| && t.pages[i + 1][k] == x;
    var vs := VersionsOf(t.disks[i + 1].db, r.bucket);
    ReadyKeys(t, r, clock, i + 1);
    ListedAfterMarkers(vs, r.prefix, p.key, p.versionId);
    assert page[k] in Items(t.disks[i + 1], r, Some(p));
  }

  lemma ReadyKeys(t: Trace, r: Rule, clock: int, i: nat)
    requires Rounds(t, r, clock) && i < |t.disks|
    ensures WellKeyed(VersionsOf(t.disks[i].db, r.bucket)) && DistinctTimes(VersionsOf(t.disks[i].db, r.bucket))
  {
    hide Round, OnlyExpired, Coherent, WellKeyed, DistinctTimes;
    assert Ready(t.disks[i], r.bucket, clock);
    CoherentKeys(ObjectsOf(t.disks[i].db, r.bucket), VersionsOf(t.disks[i].db, r.bucket), clock);
  }

  /** Up to a full page nothing listed comes after its last entry. */
  lemma {:induction false} EarlierEntries(t: Trace, r: Rule, clock: int, i: nat, j: nat, x: ObjectInfo)
    requires Rounds(t, r, clock) && j <= i < |t.pages| && |t.pages[i]| == MAX_KEYS && x in t.pages[j]
    ensures x == t.pages[i][MAX_KEYS - 1] || Before(x, t.pages[i][MAX_KEYS - 1])
    decreases i - j
  {
    hide Rounds, LastEntry, Before;
    var p := t.pages[i][MAX_KEYS - 1];
    FullInRounds(t, r, clock, i);
    PageInOrder(t, r, clock, j);
    var k :| 0 <= k < |t.pages[j]| && t.pages[j][k] == x;
    var q := t.pages[j][MAX_KEYS - 1];
    InOrder(VersionsOf(t.disks[j].db, r.bucket), r.prefix, t.pages[j], k);
    if j < i {
      PageInOrder(t, r, clock, j + 1);
      LastEntryIs(t.pages, j + 1);
      var y := t.pages[j + 1][MAX_KEYS - 1];
      EarlierEntries(t, r, clock, i, j + 1, y);
      assert Before(q, y);
      if y != p { BeforeTransitive(q, y, p); }
      if x != q { BeforeTransitive(x, q, p); }
    }
  }

  lemma InOrder(vs: map<Bytes, ObjectMeta>, prefix: Bytes, infos: seq<ObjectInfo>, k: nat)
    requires PageOf(vs, prefix, infos) && k < |infos|
    ensures infos[k] == infos[|infos| - 1] || Before(infos[k], infos[|infos| - 1])
  {
    hide Before, Describes;
  }

  lemma SkippedNotListed(t: Trace, r: Rule, clock: int, i: nat, v: Bytes, j: nat, x: ObjectInfo)
    requires Rounds(t, r, clock) && |t.disks| == |t.pages| + 1 && i < |t.pages| && j < |t.pages| && LostLast(t, r, i)
    requires var p, vs := t.pages[i][MAX_KEYS - 1], VersionsOf(t.disks[0].db, r.bucket);
      VersionKey(p.key, v) in vs && vs[VersionKey(p.key, v)].lastModified < p.lastModified
    requires VersionKey(t.pages[i][MAX_KEYS - 1].key, v) in VersionsOf(t.disks[j].db, r.bucket) && x in t.pages[j]
    ensures KeyOfInfo(x) != VersionKey(t.pages[i][MAX_KEYS - 1].key, v)
  {
    hide Rounds, LastEntry, Less, VersionKey, NoNul, HasPrefix;
    var p := t.pages[i][MAX_KEYS - 1];
    PageInOrder(t, r, clock, i);
    PageInOrder(t, r, clock, j);
    assert p in t.pages[i];
    Described(VersionsOf(t.disks[i].db, r.bucket), r.prefix, t.pages[i], p);
    Described(VersionsOf(t.disks[j].db, r.bucket), r.prefix, t.pages[j], x);
    VersionKeyInjective(x.key, x.versionId, p.key, v);
    if x.key == p.key {
      LessIrreflexive(p.key);
      if j > i {
        LaterKeysOnly(t, r, clock, i, j, x);
      } else {
        EarlierEntries(t, r, clock, i, j, x);
        SameTime(t, r, clock, j, VersionKey(p.key, v));
      }
    }
  }

  lemma Described(vs: map<Bytes, ObjectMeta>, prefix: Bytes, infos: seq<ObjectInfo>, x: ObjectInfo)
    requires PageOf(vs, prefix, infos) && x in infos
    ensures Describes(vs, prefix, x)
  {
    hide Before, Describes;
  }

  lemma SameTime(t: Trace, r: Rule, clock: int, j: nat, vk: Bytes)
    requires Rounds(t, r, clock) && |t.disks| == |t.pages| + 1 && j < |t.disks|
    requires vk in VersionsOf(t.disks[j].db, r.bucket)
    ensures vk in VersionsOf(t.disks[0].db, r.bucket)
    ensures VersionsOf(t.disks[j].db, r.bucket)[vk].lastModified == VersionsOf(t.disks[0].db, r.bucket)[vk].lastModified
  {
    hide Ready, Round, OnlyExpired;
    RecordsRemain(t.disks[0], t.disks[j], r.bucket, r.prefix, r.cutoff, r.times);
  }

  /**
   * Where a page lost its last record, every older record of its key stays in the
   * store to the end of the pass, however old it is and whether or not it is locked.
   */
  lemma {:induction false} SkippedStays(t: Trace, r: Rule, clock: int, i: nat, v: Bytes, j: nat)
    requires Rounds(t, r, clock) && |t.disks| == |t.pages| + 1 && i < |t.pages| && j <= |t.pages| && LostLast(t, r, i)
    requires var p, vs := t.pages[i][MAX_KEYS - 1], VersionsOf(t.disks[0].db, r.bucket);
      VersionKey(p.key, v) in vs && vs[VersionKey(p.key, v)].lastModified < p.lastModified
    ensures VersionKey(t.pages[i][MAX_KEYS - 1].key, v) in VersionsOf(t.disks[j].db, r.bucket)
    decreases j
  {
    hide Rounds, LostLast, VersionKey, KeyOfInfo;
    LostIsFull(t, r, i);
    if j > 0 {
      SkippedStays(t, r, clock, i, v, j - 1);
      var vk := VersionKey(t.pages[i][MAX_KEYS - 1].key, v);
      forall x | x in t.pages[j - 1]
        ensures KeyOfInfo(x) != vk
      {
        SkippedNotListed(t, r, clock, i, v, j - 1, x);
      }
      UnlistedStays(t, r, clock, j - 1, vk);
    }
  }

  /**
   * A full page's last record is removed if it is expired and never locked during the
   * pass, and only if it is expired and unlocked at some moment.
   */
  lemma LostWhenExpired(t: Trace, r: Rule, clock: int, i: nat)
    requires Rounds(t, r, clock) && |t.disks| == |t.pages| + 1 && i < |t.pages| && |t.pages[i]| == MAX_KEYS
    ensures var p, vs := t.pages[i][MAX_KEYS - 1], VersionsOf(t.disks[i].db, r.bucket);
      && KeyOfInfo(p) in vs
      && (p.lastModified < r.cutoff && (forall n :: !Locked(vs[KeyOfInfo(p)], r.times(n))) ==> LostLast(t, r, i))
      && (LostLast(t, r, i) ==> p.lastModified < r.cutoff && exists n :: !Locked(vs[KeyOfInfo(p)], r.times(n)))
  {
    hide Ready, InfosIn, Page, Items, PageOf, LastEntry, HasPrefix, NoNul, VersionKey, Split;
    var p := t.pages[i][MAX_KEYS - 1];
    PageInOrder(t, r, clock, i);
    assert p in t.pages[i];
    Described(VersionsOf(t.disks[i].db, r.bucket), r.prefix, t.pages[i], p);
    assert Round(t.disks[i], t.disks[i + 1], r, LastEntry(t.pages, i), t.pages[i]);
    assert DealtWith(t.disks[i + 1], r.bucket, KeyOfInfo(p), r.cutoff, r.times);
  }

  lemma LostIsFull(t: Trace, r: Rule, i: nat)
    requires |t.disks| == |t.pages| + 1 && i < |t.pages| && LostLast(t, r, i)
    ensures |t.pages[i]| == MAX_KEYS
  {
  }

  lemma UnlistedStays(t: Trace, r: Rule, clock: int, j: nat, vk: Bytes)
    requires Rounds(t, r, clock) && |t.disks| == |t.pages| + 1 && j < |t.pages|
    requires vk in VersionsOf(t.disks[j].db, r.bucket) && forall x :: x in t.pages[j] ==> KeyOfInfo(x) != vk
    ensures vk in VersionsOf(t.disks[j + 1].db, r.bucket)
  {
    hide Ready, OnlyExpired, KeyOfInfo, InfosIn, Page, Items, DealtWith;
    assert Round(t.disks[j], t.disks[j + 1], r, LastEntry(t.pages, j), t.pages[j]);
    assert vk !in KeysOfInfos(t.pages[j]);
  }

  // ----- exactly which expired records survive -----

  lemma {:induction false} DisksShrink(t: Trace, r: Rule, clock: int, i: nat, j: nat)
    requires Rounds(t, r, clock) && |t.disks| == |t.pages| + 1 && i <= j <= |t.pages|
    ensures OnlyExpired(t.disks[i], t.disks[j], r.bucket, r.prefix, r.cutoff, r.times)
    decreases j
  {
    hide Ready, OnlyExpired, InfosIn, Page, Items, DealtWith, KeysOfInfos;
    if i == j {
      NothingExpired(t.disks[i], r.bucket, r.prefix, r.cutoff, r.times);
    } else {
      DisksShrink(t, r, clock, i, j - 1);
      assert Round(t.disks[j - 1], t.disks[j - 1 + 1], r, LastEntry(t.pages, j - 1), t.pages[j - 1]);
      OnlyExpiredTransitive(t.disks[i], t.disks[j - 1], t.disks[j], r.bucket, r.prefix, r.cutoff, r.times);
    }
  }

  lemma {:induction false} FirstBreak(t: Trace, r: Rule, n: nat, key: Bytes) returns (i: nat)
    requires n <= |t.pages| && |t.disks| == |t.pages| + 1 && key in BreaksUpTo(t, r, n)
    ensures i < n && LostLast(t, r, i) && t.pages[i][MAX_KEYS - 1].key == key && key !in BreaksUpTo(t, r, i)
  {
    hide KeyOfInfo;
    if key in BreaksUpTo(t, r, n - 1) { i := FirstBreak(t, r, n - 1, key); } else { i := n - 1; }
  }

  /** Some page lost its last record, which was a newer one of this record's key. */
  ghost predicate SkippedAt(t: Trace, r: Rule, vk: Bytes, i: nat)
    requires |t.disks| == |t.pages| + 1 && Split(vk).Some? && vk in VersionsOf(t.disks[0].db, r.bucket)
  {
    && i < |t.pages| && LostLast(t, r, i) && t.pages[i][MAX_KEYS - 1].key == KeyOf(vk)
    && VersionsOf(t.disks[0].db, r.bucket)[vk].lastModified < t.pages[i][MAX_KEYS - 1].lastModified
  }

  /** Up to the page at which its key breaks first, a record no older than the page's last is dealt with. */
  lemma DealtWithAtBreak(t: Trace, r: Rule, clock: int, i: nat, vk: Bytes)
    requires Rounds(t, r, clock) && |t.disks| == |t.pages| + 1 && i < |t.pages| && |t.pages[i]| == MAX_KEYS
    requires Under(vk, r.prefix) && vk in VersionsOf(t.disks[i].db, r.bucket)
    requires t.pages[i][MAX_KEYS - 1].key == KeyOf(vk) && KeyOf(vk) !in BreaksUpTo(t, r, i)
    requires VersionsOf(t.disks[i].db, r.bucket)[vk].lastModified >= t.pages[i][MAX_KEYS - 1].lastModified
    ensures DealtWith(t.disks[i + 1], r.bucket, vk, r.cutoff, r.times)
  {
    hide Rounds, MarkersAt, InfosIn, PageOf, Items, LastEntry, Behind, Lists, DealtWith, KeyOfInfo, OnlyExpired, Split;
    hide Page;
    FullInRounds(t, r, clock, i);
    BehindAt(t, r, clock, i);
    MarkersHold(t, r, clock, i);
    var page := RoundFacts(t, r, clock, i);
    LessIrreflexive(KeyOf(vk));
    PageDealsWith(t.disks[i], t.disks[i + 1], r.bucket, r.prefix, BreaksUpTo(t, r, i), LastEntry(t.pages, i), r.cutoff,
      r.times, Items(t.disks[i], r, LastEntry(t.pages, i)), page, vk);
  }

  /**
   * An expired record that is never locked survives a whole pass exactly if some page
   * lost its last record and that was a newer one of the same key.
   */
  lemma WhoSurvives(t: Trace, r: Rule, clock: int, vk: Bytes)
    requires IsPass(t, r, clock) && |t.disks| == |t.pages| + 1
    requires Under(vk, r.prefix) && vk in VersionsOf(t.disks[0].db, r.bucket)
    requires var m := VersionsOf(t.disks[0].db, r.bucket)[vk];
      m.lastModified < r.cutoff && forall n :: !Locked(m, r.times(n))
    ensures vk in VersionsOf(t.disks[|t.pages|].db, r.bucket) <==> exists i :: SkippedAt(t, r, vk, i)
  {
    hide Rounds, LostLast, Split, VersionKey, DealtWith, OnlyExpired, HasPrefix, BreaksUpTo;
    var key, m := KeyOf(vk), VersionsOf(t.disks[0].db, r.bucket)[vk];
    KeyParts(t, r, clock, vk);
    forall i | SkippedAt(t, r, vk, i)
      ensures vk in VersionsOf(t.disks[|t.pages|].db, r.bucket)
    {
      SkippedStays(t, r, clock, i, m.versionId, |t.pages|);
    }
    if vk in VersionsOf(t.disks[|t.pages|].db, r.bucket) {
      NeverLocked(t, r, clock, |t.pages|, vk);
      PassCovers(t, r, clock);
      assert key in BreaksOf(t, r);
      var i := FirstBreak(t, r, |t.pages|, key);
      LostIsFull(t, r, i);
      BackThen(t, r, clock, i, vk);
      if m.lastModified >= t.pages[i][MAX_KEYS - 1].lastModified {
        DealtWithAtBreak(t, r, clock, i, vk);
        DisksShrink(t, r, clock, i + 1, |t.pages|);
        StaysDealtWith(t.disks[i + 1], t.disks[|t.pages|], r.bucket, r.prefix, vk, r.cutoff, r.times);
        assert false;
      }
      assert SkippedAt(t, r, vk, i);
    }
  }

  lemma KeyParts(t: Trace, r: Rule, clock: int, vk: Bytes)
    requires Rounds(t, r, clock) && |t.disks| == |t.pages| + 1 && vk in VersionsOf(t.disks[0].db, r.bucket)
    ensures Split(vk).Some? && vk == VersionKey(KeyOf(vk), VersionsOf(t.disks[0].db, r.bucket)[vk].versionId)
  {
    hide Split, VersionKey, Round, OnlyExpired;
    CoherentIsWellKeyed(ObjectsOf(t.disks[0].db, r.bucket), VersionsOf(t.disks[0].db, r.bucket), clock);
  }

  /** A record that is there later was there before, with its time. */
  lemma BackThen(t: Trace, r: Rule, clock: int, i: nat, vk: Bytes)
    requires Rounds(t, r, clock) && |t.disks| == |t.pages| + 1 && i <= |t.pages|
    requires vk in VersionsOf(t.disks[|t.pages|].db, r.bucket)
    ensures vk in VersionsOf(t.disks[i].db, r.bucket)
    ensures VersionsOf(t.disks[i].db, r.bucket)[vk].lastModified == VersionsOf(t.disks[0].db, r.bucket)[vk].lastModified
  {
    hide Rounds, OnlyExpired;
    DisksShrink(t, r, clock, i, |t.pages|);
    RecordsRemain(t.disks[i], t.disks[|t.pages|], r.bucket, r.prefix, r.cutoff, r.times);
    SameTime(t, r, clock, i, vk);
  }

  /** What is expired and never locked is not dealt with by staying. */
  lemma NeverLocked(t: Trace, r: Rule, clock: int, j: nat, vk: Bytes)
    requires Rounds(t, r, clock) && |t.disks| == |t.pages| + 1 && j <= |t.pages|
    requires vk in VersionsOf(t.disks[j].db, r.bucket) && vk in VersionsOf(t.disks[0].db, r.bucket)
    requires var m := VersionsOf(t.disks[0].db, r.bucket)[vk];
      m.lastModified < r.cutoff && forall n :: !Locked(m, r.times(n))
    ensures !DealtWith(t.disks[j], r.bucket, vk, r.cutoff, r.times)
  {
    hide Rounds, OnlyExpired;
    DisksShrink(t, r, clock, 0, j);
    RecordsRemain(t.disks[0], t.disks[j], r.bucket, r.prefix, r.cutoff, r.times);
    var a, b := VersionsOf(t.disks[0].db, r.bucket)[vk], VersionsOf(t.disks[j].db, r.bucket)[vk];
    assert forall n :: Locked(b, r.times(n)) == Locked(a, r.times(n));
  }

  // ----- the pass -----

  lemma RoundsExtend(t: Trace, r: Rule, clock: int, after: Disk, page: seq<ObjectInfo>)
    requires Rounds(t, r, clock) && FullBefore(t, |t.pages|) && |t.disks| == |t.pages| + 1
    requires Ready(after, r.bucket, clock) && Numbered(after, r.bucket)
    requires OnlyExpired(t.disks[0], after, r.bucket, r.prefix, r.cutoff, r.times)
    requires Round(t.disks[|t.pages|], after, r, LastEntry(t.pages, |t.pages|), page)
    ensures Rounds(Trace(t.disks + [after], t.pages + [page]), r, clock)
  {
    hide Ready, OnlyExpired, Round;
    var u := Trace(t.disks + [after], t.pages + [page]);
    forall i | 0 <= i < |u.pages|
      ensures Round(u.disks[i], u.disks[i + 1], r, LastEntry(u.pages, i), u.pages[i])
    {
      if i < |t.pages| {
        assert Round(t.disks[i], t.disks[i + 1], r, LastEntry(t.pages, i), t.pages[i]);
        assert LastEntry(u.pages, i) == LastEntry(t.pages, i);
      } else {
        assert LastEntry(u.pages, i) == LastEntry(t.pages, i);
      }
    }
  }

  lemma RoundsBegin(d: Disk, r: Rule, clock: int)
    requires Ready(d, r.bucket, clock) && Numbered(d, r.bucket)
    ensures Rounds(Trace([d], []), r, clock) && FullBefore(Trace([d], []), 0)
  {
    hide Ready;
    NothingExpired(d, r.bucket, r.prefix, r.cutoff, r.times);
  }

  /** What the store lists next is a page in the sense of `ExpirePage`. */
  lemma NextPage(t: Trace, r: Rule, clock: int, all: seq<ObjectInfo>)
    requires Rounds(t, r, clock) && FullBefore(t, |t.pages|) && |t.disks| == |t.pages| + 1
    requires all == InfosIn(Page(Items(t.disks[|t.pages|], r, LastEntry(t.pages, |t.pages|)), MAX_KEYS))
    ensures PageOf(VersionsOf(t.disks[|t.pages|].db, r.bucket), r.prefix, all)
  {
    hide Ready, MarkersAt, PageOf, InfosIn, Page, Listed, Lists, Round, OnlyExpired, LastEntry;
    var d, last := t.disks[|t.pages|], LastEntry(t.pages, |t.pages|);
    var items := Items(d, r, last);
    MarkersHold(t, r, clock, |t.pages|);
    PageStarts(d, r.bucket, clock, r.prefix, last, KeyMarker(last), VersionMarker(last), items, Page(items, MAX_KEYS));
  }

  /** After one more page the pass is over, or its new markers stand for the last entry and less lies ahead. */
  lemma PassGoesOn(t: Trace, r: Rule, clock: int, after: Disk, all: seq<ObjectInfo>, nextKey: Bytes, nextVersion: Bytes)
    requires Rounds(t, r, clock) && FullBefore(t, |t.pages|) && |t.disks| == |t.pages| + 1
    requires Ready(after, r.bucket, clock) && Numbered(after, r.bucket)
    requires Round(t.disks[|t.pages|], after, r, LastEntry(t.pages, |t.pages|), all)
    requires (nextKey, nextVersion) ==
      NextMarkers(Items(t.disks[|t.pages|], r, LastEntry(t.pages, |t.pages|)), MAX_KEYS)
    ensures var u := Trace(t.disks + [after], t.pages + [all]);
      && Rounds(u, r, clock) && OnlyExpired(t.disks[0], after, r.bucket, r.prefix, r.cutoff, r.times)
      && if nextKey == [] && nextVersion == [] then IsPass(u, r, clock) else Advances(t, u, r, nextKey, nextVersion)
  {
    hide Ready, OnlyExpired, MarkersAt, PageOf, InfosIn, Page, Items, Rounds, PageDone, LastEntry, NextMarkers, Ahead;
    hide KeyOfInfo, DealtWith;
    var u := Trace(t.disks + [after], t.pages + [all]);
    var n := |t.pages|;
    var before, last := t.disks[n], LastEntry(t.pages, n);
    var items := Items(before, r, last);
    StaysExpired(t, r, clock, after);
    RoundsExtend(t, r, clock, after, all);
    MarkersHold(t, r, clock, n);
    assert LastEntry(u.pages, n) == last by { SameLast(t.pages, all); }
    var page := RoundFacts(u, r, clock, n);
    PageKeys(before, after, r.bucket, r.prefix, r.cutoff, r.times, last, items, page);
    PageBreaks(items, page, nextKey, nextVersion);
    if nextKey != [] || nextVersion != [] {
      LastEntryIs(u.pages, n + 1);
      AheadShrinks(before, after, r.bucket, r.prefix, r.cutoff, r.times, last, items, page);
    } else {
      NotFull(items, page);
    }
  }

  ghost predicate Advances(t: Trace, u: Trace, r: Rule, nextKey: Bytes, nextVersion: Bytes) {
    && |t.disks| == |t.pages| + 1 && |u.disks| == |u.pages| + 1 && FullBefore(u, |u.pages|)
    && nextKey == KeyMarker(LastEntry(u.pages, |u.pages|))
    && nextVersion == VersionMarker(LastEntry(u.pages, |u.pages|))
    && Ahead(VersionsOf(u.disks[|u.pages|].db, r.bucket), LastEntry(u.pages, |u.pages|)) <
       Ahead(VersionsOf(t.disks[|t.pages|].db, r.bucket), LastEntry(t.pages, |t.pages|))
  }

  lemma StaysExpired(t: Trace, r: Rule, clock: int, after: Disk)
    requires Rounds(t, r, clock) && |t.disks| == |t.pages| + 1
    requires OnlyExpired(t.disks[|t.pages|], after, r.bucket, r.prefix, r.cutoff, r.times)
    ensures OnlyExpired(t.disks[0], after, r.bucket, r.prefix, r.cutoff, r.times)
  {
    hide Ready, OnlyExpired, Round;
    OnlyExpiredTransitive(t.disks[0], t.disks[|t.pages|], after, r.bucket, r.prefix, r.cutoff, r.times);
  }

  lemma SameLast(pages: seq<seq<ObjectInfo>>, page: seq<ObjectInfo>)
    ensures LastEntry(pages + [page], |pages|) == LastEntry(pages, |pages|)
  {
  }

  lemma NotFull(items: seq<VersionItem>, page: seq<VersionItem>)
    requires page == Page(items, MAX_KEYS) && !Full(items, MAX_KEYS)
    ensures |page| < MAX_KEYS
  {
  }

  lemma FirstPageMeansVersions(t: Trace, r: Rule, clock: int)
    requires Rounds(t, r, clock) && t.pages != [] && |t.disks| == |t.pages| + 1
    ensures t.pages[0] != [] ==> VersionsOf(t.disks[0].db, r.bucket) != map[]
  {
    hide Rounds, Items, Page, PageOf, PageDone, InfosIn, MarkersAt;
    FullInRounds(t, r, clock, 0);
    MarkersHold(t, r, clock, 0);
    var page := RoundFacts(t, r, clock, 0);
    ListedFromSome(VersionsOf(t.disks[0].db, r.bucket), r.prefix, t.pages[0]);
  }

  /** Only a bucket without versions fails to list, and its pass has no page. */
  lemma PagesMeanVersions(t: Trace, r: Rule, clock: int)
    requires Rounds(t, r, clock) && FullBefore(t, |t.pages|) && |t.disks| == |t.pages| + 1
    requires r.bucket !in t.disks[|t.pages|].db.versions
    ensures t.pages == [] && IsPass(t, r, clock)
  {
    hide Ready, Round, OnlyExpired;
    BucketStays(t.disks[0], t.disks[|t.pages|], r);
    if t.pages != [] { FirstPageMeansVersions(t, r, clock); }
  }

  lemma BucketStays(a: Disk, b: Disk, r: Rule)
    requires OnlyExpired(a, b, r.bucket, r.prefix, r.cutoff, r.times) && r.bucket !in b.db.versions
    ensures r.bucket !in a.db.versions
  {
  }

  lemma ListedFromSome(vs: map<Bytes, ObjectMeta>, prefix: Bytes, infos: seq<ObjectInfo>)
    requires PageOf(vs, prefix, infos)
    ensures infos != [] ==> vs != map[]
  {
    hide Before;
    if infos != [] { assert Describes(vs, prefix, infos[0]); }
  }

  // ----- a bucket without version ids -----

  ghost predicate PlainState(d: Disk, r: Rule, keyMarker: Bytes, versionIdMarker: Bytes) {
    && Plain(d, r.bucket) && versionIdMarker == [] && StartsAt(r.prefix, keyMarker)
    && DoneUpTo(d, r.bucket, r.prefix, keyMarker, r.cutoff, r.times)
  }

  lemma PlainBegins(d: Disk, r: Rule, clock: int)
    requires Ready(d, r.bucket, clock) && !Numbered(d, r.bucket)
    ensures PlainState(d, r, [], [])
  {
    hide Plain, Numbered, Coherent;
  }

  lemma PlainNextPage(d: Disk, r: Rule, clock: int, start: Bytes, items: seq<VersionItem>)
    requires Ready(d, r.bucket, clock) && PlainState(d, r, start, [])
    requires items == Listed(VersionsOf(d.db, r.bucket), Query(r.prefix, [], start), [])
    ensures ListsFrom(VersionsOf(d.db, r.bucket), r.prefix, start, items)
    ensures PageOf(VersionsOf(d.db, r.bucket), r.prefix, InfosIn(Page(items, MAX_KEYS)))
    ensures var page := Page(items, MAX_KEYS);
      |InfosIn(page)| == |page| && forall j :: 0 <= j < |page| ==> page[j].Version? && InfosIn(page)[j] == page[j].info
  {
    hide Coherent, Listed, PageOf, Plain, DoneUpTo, StartsAt, Lists;
    CoherentKeysOf(d, r.bucket, clock);
    ListedFromKey(VersionsOf(d.db, r.bucket), r.prefix, start);
    PageFrom(VersionsOf(d.db, r.bucket), r.prefix, start, items, Page(items, MAX_KEYS));
  }

  lemma CoherentKeysOf(d: Disk, bucket: Bytes, clock: int)
    requires Ready(d, bucket, clock)
    ensures WellKeyed(VersionsOf(d.db, bucket)) && DistinctTimes(VersionsOf(d.db, bucket))
  {
    hide Coherent;
    CoherentKeys(ObjectsOf(d.db, bucket), VersionsOf(d.db, bucket), clock);
  }

  lemma PageFrom(
    vs: map<Bytes, ObjectMeta>, prefix: Bytes, start: Bytes, items: seq<VersionItem>, page: seq<VersionItem>)
    requires ListsFrom(vs, prefix, start, items) && page <= items
    ensures PageOf(vs, prefix, InfosIn(page)) && |InfosIn(page)| == |page|
    ensures forall j :: 0 <= j < |page| ==> page[j].Version? && InfosIn(page)[j] == page[j].info
  {
    hide Before, Ordered, Describes, Less;
    assert forall x :: x in page ==> x in items;
    InfosAt(page);
    forall i, j | 0 <= i < j < |page|
      ensures Before(InfosIn(page)[i], InfosIn(page)[j])
    {
      OrderedAt(items, i, j);
    }
  }

  /** After one more page everything is dealt with, or the new marker stands for what is and less lies ahead. */
  lemma PlainGoesOn(
    d: Disk, after: Disk, r: Rule, clock: int, start: Bytes, items: seq<VersionItem>, nextKey: Bytes,
    nextVersion: Bytes)
    requires Ready(d, r.bucket, clock) && PlainState(d, r, start, [])
    requires items == Listed(VersionsOf(d.db, r.bucket), Query(r.prefix, [], start), [])
    requires OnlyExpired(d, after, r.bucket, r.prefix, r.cutoff, r.times)
    requires var all := InfosIn(Page(items, MAX_KEYS));
      forall i :: 0 <= i < |all| ==> DealtWith(after, r.bucket, KeyOfInfo(all[i]), r.cutoff, r.times)
    requires (nextKey, nextVersion) == NextMarkers(items, MAX_KEYS)
    ensures if nextKey == [] && nextVersion == [] then Covered(after, r.bucket, r.prefix, {}, r.cutoff, r.times)
      else
        && PlainState(after, r, nextKey, nextVersion)
        && KeysAfter(VersionsOf(after.db, r.bucket), nextKey) < KeysAfter(VersionsOf(d.db, r.bucket), start)
  {
    hide Coherent, Listed, PageOf, OnlyExpired, DealtWith, KeyOfInfo, DoneUpTo, StartsAt, Covered, KeysAfter, ListsFrom;
    hide Plain;
    var page := Page(items, MAX_KEYS);
    PlainNextPage(d, r, clock, start, items);
    PlainKeys(d, r, clock, start, items);
    PageBreaks(items, page, nextKey, nextVersion);
    StaysCounted(d, after, r.bucket, r.prefix, r.cutoff, r.times);
    assert PlainRound(d, after, r.bucket, clock, r.prefix, start, r.cutoff, r.times, items, page);
    if Full(items, MAX_KEYS) {
      PlainPageOn(d, after, r.bucket, clock, r.prefix, start, r.cutoff, r.times, items, page);
    } else {
      PlainPageLast(d, after, r.bucket, clock, r.prefix, start, r.cutoff, r.times, items);
    }
  }

  lemma PlainKeys(d: Disk, r: Rule, clock: int, start: Bytes, items: seq<VersionItem>)
    requires Ready(d, r.bucket, clock) && Plain(d, r.bucket)
    requires ListsFrom(VersionsOf(d.db, r.bucket), r.prefix, start, items)
    ensures forall j :: 0 <= j < |items| ==>
      items[j].Version? && items[j].info.key != [] && items[j].info.versionId == []
  {
    hide Coherent, Less, HasPrefix, VersionKey, Split, Ordered;
    CoherentKeys(ObjectsOf(d.db, r.bucket), VersionsOf(d.db, r.bucket), clock);
    forall j | 0 <= j < |items|
      ensures items[j].Version? && items[j].info.key != [] && items[j].info.versionId == []
    {
      assert items[j] in items;
      SplitVersionKey(items[j].info.key, items[j].info.versionId);
    }
  }

  lemma NoneToCover(start: Disk, d: Disk, r: Rule)
    requires OnlyExpired(start, d, r.bucket, r.prefix, r.cutoff, r.times)
    requires Numbered(start, r.bucket) && Plain(start, r.bucket)
    ensures Covered(d, r.bucket, r.prefix, {}, r.cutoff, r.times)
  {
    hide FilesGo, Under, DealtWith;
  }

  // ----- the method -----

  /** The trace so far, on the disk as it is and with the markers of its last page. */
  ghost predicate TraceState(
    t: Trace, r: Rule, clock: int, start: Disk, d: Disk, keyMarker: Bytes, versionIdMarker: Bytes)
  {
    && Rounds(t, r, clock) && FullBefore(t, |t.pages|) && |t.disks| == |t.pages| + 1
    && t.disks[0] == start && t.disks[|t.pages|] == d
    && keyMarker == KeyMarker(LastEntry(t.pages, |t.pages|))
    && versionIdMarker == VersionMarker(LastEntry(t.pages, |t.pages|))
  }

  /** The records that the pass has yet to come to. */
  ghost function StillAhead(numbered: bool, t: Trace, d: Disk, r: Rule, keyMarker: Bytes): set<Bytes> {
    if numbered then Ahead(VersionsOf(d.db, r.bucket), LastEntry(t.pages, |t.pages|))
    else KeysAfter(VersionsOf(d.db, r.bucket), keyMarker)
  }

  lemma PassBegins(d: Disk, r: Rule, clock: int)
    requires Ready(d, r.bucket, clock)
    ensures if Numbered(d, r.bucket) then TraceState(Trace([d], []), r, clock, d, d, [], [])
            else PlainState(d, r, [], [])
  {
    hide Ready, Numbered, PlainState, Rounds, LastEntry;
    if Numbered(d, r.bucket) {
      RoundsBegin(d, r, clock);
      FirstHasNoLast([]);
    } else {
      PlainBegins(d, r, clock);
    }
  }

  /** Only a bucket without versions fails to list: its pass has no page, and nothing to cover. */
  lemma PassWithoutVersions(
    numbered: bool, t: Trace, r: Rule, clock: int, start: Disk, d: Disk, keyMarker: Bytes, versionIdMarker: Bytes)
    requires r.bucket !in d.db.versions
    requires numbered ==> TraceState(t, r, clock, start, d, keyMarker, versionIdMarker)
    ensures numbered ==>
      IsPass(t, r, clock) && |t.disks| == |t.pages| + 1 && t.disks[0] == start && t.disks[|t.pages|] == d
    ensures Covered(d, r.bucket, r.prefix, {}, r.cutoff, r.times)
  {
    hide IsPass, Covered, Rounds, FullBefore, LastEntry;
    if numbered { PagesMeanVersions(t, r, clock); }
    NothingToCover(d, r.bucket, r.prefix, {}, r.cutoff, r.times);
  }

  /** What the store lists is a page in the sense of `ExpirePage`. */
  lemma PassPage(
    numbered: bool, t: Trace, r: Rule, clock: int, start: Disk, d: Disk, keyMarker: Bytes, versionIdMarker: Bytes)
    requires Ready(d, r.bucket, clock)
    requires if numbered then TraceState(t, r, clock, start, d, keyMarker, versionIdMarker)
             else PlainState(d, r, keyMarker, versionIdMarker)
    ensures var items := Listed(VersionsOf(d.db, r.bucket), Query(r.prefix, [], keyMarker), versionIdMarker);
      PageOf(VersionsOf(d.db, r.bucket), r.prefix, InfosIn(Page(items, MAX_KEYS)))
  {
    hide Ready, Rounds, FullBefore, LastEntry, PageOf, InfosIn, Page, Listed, Plain, DoneUpTo, StartsAt;
    var items := Listed(VersionsOf(d.db, r.bucket), Query(r.prefix, [], keyMarker), versionIdMarker);
    if numbered {
      NextPage(t, r, clock, InfosIn(Page(items, MAX_KEYS)));
    } else {
      PlainNextPage(d, r, clock, keyMarker, items);
    }
  }

  /** After one more page the pass is over, or its state holds with the new markers and less lies ahead. */
  lemma PassStep(
    numbered: bool, t: Trace, r: Rule, clock: int, start: Disk, d: Disk, after: Disk, keyMarker: Bytes,
    versionIdMarker: Bytes, items: seq<VersionItem>, all: seq<ObjectInfo>, nextKey: Bytes, nextVersion: Bytes)
    requires Ready(d, r.bucket, clock) && Ready(after, r.bucket, clock)
    requires if numbered then Numbered(start, r.bucket) && TraceState(t, r, clock, start, d, keyMarker, versionIdMarker)
             else PlainState(d, r, keyMarker, versionIdMarker)
    requires items == Listed(VersionsOf(d.db, r.bucket), Query(r.prefix, [], keyMarker), versionIdMarker)
    requires all == InfosIn(Page(items, MAX_KEYS)) && (nextKey, nextVersion) == NextMarkers(items, MAX_KEYS)
    requires OnlyExpired(d, after, r.bucket, r.prefix, r.cutoff, r.times)
    requires OnlyExpired(start, after, r.bucket, r.prefix, r.cutoff, r.times)
    requires forall i :: 0 <= i < |all| ==> DealtWith(after, r.bucket, KeyOfInfo(all[i]), r.cutoff, r.times)
    requires VersionsOf(d.db, r.bucket).Keys - KeysOfInfos(all) <= VersionsOf(after.db, r.bucket).Keys
    ensures var u := Trace(t.disks + [after], t.pages + [all]);
      if nextKey == [] && nextVersion == [] then
        if numbered then
          IsPass(u, r, clock) && |u.disks| == |u.pages| + 1 && u.disks[0] == start && u.disks[|u.pages|] == after
        else Covered(after, r.bucket, r.prefix, {}, r.cutoff, r.times)
      else
        && (if numbered then TraceState(u, r, clock, start, after, nextKey, nextVersion)
            else PlainState(after, r, nextKey, nextVersion))
        && StillAhead(numbered, u, after, r, nextKey) < StillAhead(numbered, t, d, r, keyMarker)
  {
    hide Ready, Rounds, FullBefore, LastEntry, PageOf, InfosIn, Page, Listed, Plain, DoneUpTo, StartsAt, IsPass;
    hide Covered;
    hide OnlyExpired, DealtWith, KeyOfInfo, KeysOfInfos, NextMarkers, Numbered, Ahead, KeysAfter;
    if numbered {
      StaysCounted(start, after, r.bucket, r.prefix, r.cutoff, r.times);
      assert Round(d, after, r, LastEntry(t.pages, |t.pages|), all);
      PassGoesOn(t, r, clock, after, all, nextKey, nextVersion);
    } else {
      PlainGoesOn(d, after, r, clock, keyMarker, items, nextKey, nextVersion);
    }
  }

  /**
   * A pass over a bucket with version ids everywhere or nowhere ends, removes only
   * expired records under the prefix, and leaves the bucket coherent. With version ids
   * its trace is a pass: the pages are what the changing store lists from one marker to
   * the next. Without any it leaves no expired record that was never locked.
   */
  method ApplyExpirationRule(b: LocalBackend, r: Rule, ghost clock: int) returns (ghost t: Trace)
    requires Ready(b.Contents(), r.bucket, clock)
    modifies b, b.meta
    ensures Ready(b.Contents(), r.bucket, clock)
    ensures OnlyExpired(old(b.Contents()), b.Contents(), r.bucket, r.prefix, r.cutoff, r.times)
    ensures old(Numbered(b.Contents(), r.bucket)) ==>
      && IsPass(t, r, clock) && |t.disks| == |t.pages| + 1
      && t.disks[0] == old(b.Contents()) && t.disks[|t.pages|] == b.Contents()
      && Covered(b.Contents(), r.bucket, r.prefix, BreaksOf(t, r), r.cutoff, r.times)
      && |BreaksOf(t, r)| * MAX_KEYS <= |RecordsUnder(VersionsOf(old(b.Contents()).db, r.bucket), r.prefix)|
    ensures old(Plain(b.Contents(), r.bucket)) ==> Covered(b.Contents(), r.bucket, r.prefix, {}, r.cutoff, r.times)
  {
    hide Ready, OnlyExpired, PageOf, RecordsUnder, DealtWith, KeyOfInfo, KeysOfInfos, BreaksOf, Covered, TraceState;
    hide NextMarkers, Page, InfosIn, Rounds, LastEntry, Listed, IsPass, Numbered, Plain, PlainState, StillAhead;
    hide Selects, AllTold;
    ghost var start := b.Contents();
    ghost var numbered := Numbered(start, r.bucket);
    var keyMarker: Bytes, versionIdMarker: Bytes := [], [];
    var n := 0;
    t := Trace([start], []);
    PassBegins(start, r, clock);
    NothingExpired(start, r.bucket, r.prefix, r.cutoff, r.times);
    while true
      invariant Ready(b.Contents(), r.bucket, clock)
      invariant OnlyExpired(start, b.Contents(), r.bucket, r.prefix, r.cutoff, r.times)
      invariant if numbered then TraceState(t, r, clock, start, b.Contents(), keyMarker, versionIdMarker)
                else PlainState(b.Contents(), r, keyMarker, versionIdMarker)
      decreases StillAhead(numbered, t, b.Contents(), r, keyMarker)
    {
      ghost var before := b.Contents();
      var objects, deleteMarkers, prefixes, truncated, nextKey, nextVersion, err :=
        b.ListObjectVersions(r.bucket, r.prefix, [], keyMarker, versionIdMarker, MAX_KEYS);
      if err.Some? {
        PassWithoutVersions(numbered, t, r, clock, start, before, keyMarker, versionIdMarker);
        break;
      }
      ghost var items := Listed(VersionsOf(before.db, r.bucket), Query(r.prefix, [], keyMarker), versionIdMarker);
      ghost var all := InfosIn(Page(items, MAX_KEYS));
      PassPage(numbered, t, r, clock, start, before, keyMarker, versionIdMarker);
      n := ExpirePage(b, r.bucket, objects, deleteMarkers, r.cutoff, r.times, n, all, r.prefix, clock);
      OnlyExpiredTransitive(start, before, b.Contents(), r.bucket, r.prefix, r.cutoff, r.times);
      PassStep(numbered, t, r, clock, start, before, b.Contents(), keyMarker, versionIdMarker, items, all, nextKey,
        nextVersion);
      t := Trace(t.disks + [b.Contents()], t.pages + [all]);
      if !truncated {
        break;
      }
      keyMarker, versionIdMarker := nextKey, nextVersion;
    }
    if numbered {
      PassCovers(t, r, clock);
      FewBreaks(t, r, clock);
      if Plain(start, r.bucket) { NoneToCover(start, b.Contents(), r); }
    }
  }
}
