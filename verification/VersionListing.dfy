/** ListObjectVersions: one page of a bucket's versions, jumping over whole groups. */
module VersionListing {
  import opened ByteStrings
  import opened Listing
  import opened ObjectTypes
  import opened Outcomes
  import opened SortedKeys
  import opened VersionKeys

  datatype VersionItem = Version(info: ObjectInfo) | Prefix(prefix: Bytes)

  datatype Query = Query(prefix: Bytes, delimiter: Bytes, keyMarker: Bytes)

  function InsertByAge(m: ObjectMeta, ms: seq<ObjectMeta>): seq<ObjectMeta> {
    if ms == [] || m.lastModified > ms[0].lastModified then [m] + ms
    else [ms[0]] + InsertByAge(m, ms[1..])
  }

  /** sort.Slice by LastModified, newest first. */
  function NewestFirst(ms: seq<ObjectMeta>): seq<ObjectMeta> {
    if ms == [] then [] else InsertByAge(ms[|ms| - 1], NewestFirst(ms[..|ms| - 1]))
  }

  function Metas(vs: map<Bytes, ObjectMeta>, ks: seq<Bytes>): seq<ObjectMeta>
    requires forall k :: k in ks ==> k in vs
  {
    if ks == [] then [] else Metas(vs, ks[..|ks| - 1]) + [vs[ks[|ks| - 1]]]
  }

  /** Where the run of versions of the key at index `i` ends. */
  function KeyEnd(vks: seq<Bytes>, i: nat): (e: nat)
    requires i < |vks| && Split(vks[i]).Some?
    ensures i < e <= |vks|
  {
    PrefixIsKey(KeyOf(vks[i]), vks[i]);
    RunEnd(vks, KeyOf(vks[i]) + [NUL], i)
  }

  /** The versions of the key at index `i`, newest first. */
  function VersionsAt(vs: map<Bytes, ObjectMeta>, vks: seq<Bytes>, i: nat): seq<ObjectMeta>
    requires i < |vks| && Split(vks[i]).Some? && forall k :: k in vks ==> k in vs
  {
    NewestFirst(Metas(vs, vks[i..KeyEnd(vks, i)]))
  }

  /** Drops the versions up to the marked one; what remains of the marker comes back too. */
  function Unskip(marked: bool, ms: seq<ObjectMeta>, marker: Bytes): (seq<ObjectMeta>, Bytes)
    decreases |ms|
  {
    if !marked || marker == [] || ms == [] then (ms, marker)
    else Unskip(marked, ms[1..], if ms[0].versionId == marker then [] else marker)
  }

  function Versions(key: Bytes, ms: seq<ObjectMeta>): seq<VersionItem> {
    if ms == [] then [] else [Version(Info(key, ms[0]))] + Versions(key, ms[1..])
  }

  /**
   * The reference listing: a linear scan that looks at every record and skips the
   * members of the groups it has met one by one.
   */
  function LinearScan(
    vs: map<Bytes, ObjectMeta>, vks: seq<Bytes>, q: Query, marker: Bytes, i: nat, seen: set<Bytes>)
    : seq<VersionItem>
    requires i <= |vks| && forall k :: k in vks ==> k in vs
    decreases |vks| - i
  {
    if i == |vks| then []
    else if Split(vks[i]).None? then LinearScan(vs, vks, q, marker, i + 1, seen)
    else
      var key := KeyOf(vks[i]);
      if !HasPrefix(key, q.prefix) then []
      else
        match GroupOf(q.prefix, q.delimiter, key)
        case Some(p) =>
          if p in seen then LinearScan(vs, vks, q, marker, i + 1, seen)
          else [Prefix(p)] + LinearScan(vs, vks, q, marker, i + 1, seen + {p})
        case None =>
          var (ms, rest) := Unskip(q.keyMarker == key, VersionsAt(vs, vks, i), marker);
          Versions(key, ms) + LinearScan(vs, vks, q, rest, KeyEnd(vks, i), seen)
  }

  /** The same listing with each group left at the end of its run. */
  function Scan(vs: map<Bytes, ObjectMeta>, vks: seq<Bytes>, q: Query, marker: Bytes, i: nat): seq<VersionItem>
    requires i <= |vks| && forall k :: k in vks ==> k in vs
    decreases |vks| - i
  {
    if i == |vks| then []
    else if Split(vks[i]).None? then Scan(vs, vks, q, marker, i + 1)
    else
      var key := KeyOf(vks[i]);
      if !HasPrefix(key, q.prefix) then []
      else
        match GroupOf(q.prefix, q.delimiter, key)
        case Some(p) => [Prefix(p)] + Scan(vs, vks, q, marker, GroupEnd(vks, p, i))
        case None =>
          var (ms, rest) := Unskip(q.keyMarker == key, VersionsAt(vs, vks, i), marker);
          Versions(key, ms) + Scan(vs, vks, q, rest, KeyEnd(vks, i))
  }

  function GroupEnd(vks: seq<Bytes>, p: Bytes, i: nat): (e: nat)
    requires i < |vks| && Split(vks[i]).Some? && HasPrefix(KeyOf(vks[i]), p)
    ensures i < e <= |vks| && e == RunEnd(vks, p, i)
  {
    KeyPrefix(vks[i], p);
    RunEnd(vks, p, i)
  }

  lemma KeyPrefix(vk: Bytes, p: Bytes)
    requires Split(vk).Some? && HasPrefix(KeyOf(vk), p)
    ensures HasPrefix(vk, p) && NoNul(p)
  {
    var (key, versionId) := Split(vk).value;
    assert p == key[..|p|];
    PrefixOfKey(p, key, versionId);
  }

  /** Within a group's run every record belongs to the group. */
  lemma MemberOfGroup(q: Query, key: Bytes, p: Bytes, vk: Bytes)
    requires HasPrefix(key, q.prefix) && GroupOf(q.prefix, q.delimiter, key) == Some(p)
    requires NoNul(p) && HasPrefix(vk, p) && Split(vk).Some?
    ensures HasPrefix(KeyOf(vk), q.prefix) && GroupOf(q.prefix, q.delimiter, KeyOf(vk)) == Some(p)
  {
    var (k, versionId) := Split(vk).value;
    PrefixOfKey(p, k, versionId);
    GroupIsPrefix(q.prefix, q.delimiter, key, k);
  }

  lemma {:induction false} LinearSkipsGroup(
    vs: map<Bytes, ObjectMeta>, vks: seq<Bytes>, q: Query, marker: Bytes, i: nat, e: nat, seen: set<Bytes>,
    key: Bytes, p: Bytes)
    requires i <= e <= |vks| && (forall k :: k in vks ==> k in vs)
    requires HasPrefix(key, q.prefix) && GroupOf(q.prefix, q.delimiter, key) == Some(p)
    requires NoNul(p) && p in seen && forall j :: i <= j < e ==> HasPrefix(vks[j], p)
    ensures LinearScan(vs, vks, q, marker, i, seen) == LinearScan(vs, vks, q, marker, e, seen)
    decreases e - i
  {
    hide HasPrefix, GroupOf, Split, NoNul;
    if i < e {
      if Split(vks[i]).Some? { MemberOfGroup(q, key, p, vks[i]); }
      LinearSkipsGroup(vs, vks, q, marker, i + 1, e, seen, key, p);
    }
  }

  /** Leaving each group at the end of its run lists what the linear scan lists. */
  lemma {:induction false} ScanIsLinear(
    vs: map<Bytes, ObjectMeta>, vks: seq<Bytes>, q: Query, marker: Bytes, i: nat, seen: set<Bytes>)
    requires Sorted(vks) && i <= |vks| && (forall k :: k in vks ==> k in vs)
    requires NoneAhead(vks, seen, i)
    ensures Scan(vs, vks, q, marker, i) == LinearScan(vs, vks, q, marker, i, seen)
    decreases |vks| - i
  {
    hide HasPrefix, GroupOf, Split, NoNul, Sorted, VersionsAt, Unskip, Versions;
    if i < |vks| {
      if Split(vks[i]).None? {
        ScanIsLinear(vs, vks, q, marker, i + 1, seen);
      } else {
        var key := KeyOf(vks[i]);
        if HasPrefix(key, q.prefix) {
          match GroupOf(q.prefix, q.delimiter, key)
          case Some(p) =>
            GroupIsPrefix(q.prefix, q.delimiter, key, key);
            KeyPrefix(vks[i], p);
            var e := GroupEnd(vks, p, i);
            RunIsContiguous(vks, p, i);
            LinearSkipsGroup(vs, vks, q, marker, i + 1, e, seen + {p}, key, p);
            ScanIsLinear(vs, vks, q, marker, e, seen + {p});
          case None =>
            var (ms, rest) := Unskip(q.keyMarker == key, VersionsAt(vs, vks, i), marker);
            ScanIsLinear(vs, vks, q, rest, KeyEnd(vks, i), seen);
        }
      }
    }
  }

  /** The seek to the successor of a common prefix moves forward exactly for last bytes below 255. */
  lemma JumpAdvances(vks: seq<Bytes>, p: Bytes, i: nat)
    requires Sorted(vks) && i < |vks| && p != [] && HasPrefix(vks[i], p)
    ensures Seek(vks, Successor(p)) > i <==> p[|p| - 1] < 255
    ensures p[|p| - 1] < 255 ==> Seek(vks, Successor(p)) == RunEnd(vks, p, i)
  {
    hide Less, HasPrefix, Successor;
    if p[|p| - 1] < 255 {
      SeekSuccessor(vks, p, i);
      RunEndMoves(vks, p, i);
    } else {
      SeekSuccessorWraps(vks, p, i);
    }
  }

  /** At 255 the jump comes back to where it started exactly if no key lies between the wrapped prefix and there. */
  lemma WrappedJumpRepeats(vks: seq<Bytes>, p: Bytes, i: nat)
    requires Sorted(vks) && i < |vks| && p != [] && HasPrefix(vks[i], p) && p[|p| - 1] == 255
    ensures Seek(vks, Successor(p)) == i <==> i == 0 || Less(vks[i - 1], Successor(p))
  {
    hide Less, HasPrefix, Successor, Sorted;
    SeekSuccessorWraps(vks, p, i);
    SeekSplits(vks, Successor(p));
  }

  /**
   * No jump that wraps around comes before the page is full: the delimiter ends below
   * 255, or no common prefix is listed but as the entry that fills the page.
   */
  predicate PageJumps(items: seq<VersionItem>, delimiter: Bytes, maxKeys: int) {
    (delimiter == [] || delimiter[|delimiter| - 1] < 255) ||
    forall i :: 0 <= i < |items| && i < maxKeys - 1 ==> items[i].Version?
  }

  lemma RunEndMoves(vks: seq<Bytes>, p: Bytes, i: nat)
    requires i < |vks| && HasPrefix(vks[i], p)
    ensures RunEnd(vks, p, i) > i
  {
  }

  lemma GroupEndsInDelimiter(prefix: Bytes, delimiter: Bytes, k: Bytes)
    requires HasPrefix(k, prefix) && GroupOf(prefix, delimiter, k).Some?
    ensures var p := GroupOf(prefix, delimiter, k).value;
      HasPrefix(k, p) && p != [] && delimiter != [] && p[|p| - 1] == delimiter[|delimiter| - 1]
  {
    var j := IndexFrom(k, delimiter, |prefix|).value;
    assert k[j..j + |delimiter|][|delimiter| - 1] == delimiter[|delimiter| - 1];
  }

  function InfosIn(items: seq<VersionItem>): seq<ObjectInfo> {
    if items == [] then []
    else InfosIn(items[..|items| - 1]) + (var x := items[|items| - 1]; if x.Version? then [x.info] else [])
  }

  function PrefixesIn(items: seq<VersionItem>): seq<Bytes> {
    if items == [] then []
    else PrefixesIn(items[..|items| - 1]) + (var x := items[|items| - 1]; if x.Prefix? then [x.prefix] else [])
  }

  /** The key marker and version id marker that point at an item. */
  function Markers(item: VersionItem): (Bytes, Bytes) {
    match item case Version(info) => (info.key, info.versionId) case Prefix(p) => (p, [])
  }

  function NextMarkers(items: seq<VersionItem>, maxKeys: int): (Bytes, Bytes) {
    if Full(items, maxKeys) then var page := Page(items, maxKeys); Markers(page[|page| - 1]) else ([], [])
  }

  /** The items of the listing that starts at the markers. */
  function Listed(vs: map<Bytes, ObjectMeta>, q: Query, versionIdMarker: Bytes): seq<VersionItem> {
    var vks := Keys(vs.Keys);
    LinearScan(vs, vks, q, versionIdMarker, Seek(vks, if q.keyMarker != [] then q.keyMarker else q.prefix), {})
  }

  ghost predicate IsVersionPage(
    items: seq<VersionItem>, maxKeys: int, objects: seq<ObjectInfo>, commonPrefixes: seq<Bytes>,
    nextKeyMarker: Bytes, nextVersionIdMarker: Bytes)
  {
    && objects == InfosIn(Page(items, maxKeys))
    && commonPrefixes == PrefixesIn(Page(items, maxKeys))
    && (nextKeyMarker, nextVersionIdMarker) == NextMarkers(items, maxKeys)
  }

  /** An entry tells of a record of its key, field by field. */
  ghost predicate TellsOf(vs: map<Bytes, ObjectMeta>, x: ObjectInfo, vk: Bytes) {
    && vk in vs && NoNul(x.key) && x.key + [0] <= vk
    && x.versionId == vs[vk].versionId && x.isLatest == vs[vk].isLatest
    && x.isDeleteMarker == vs[vk].isDeleteMarker && x.lastModified == vs[vk].lastModified
    && x.etag == vs[vk].etag && x.size == vs[vk].size
  }

  ghost predicate AllTold(vs: map<Bytes, ObjectMeta>, infos: seq<ObjectInfo>) {
    forall x :: x in infos ==> exists vk :: TellsOf(vs, x, vk)
  }

  lemma {:induction false} InsertedMembers(m: ObjectMeta, ms: seq<ObjectMeta>)
    ensures forall x :: x in InsertByAge(m, ms) <==> x == m || x in ms
  {
    if ms != [] {
      assert ms == [ms[0]] + ms[1..];
      InsertedMembers(m, ms[1..]);
    }
  }

  lemma {:induction false} NewestFirstMembers(ms: seq<ObjectMeta>)
    ensures forall x :: x in NewestFirst(ms) <==> x in ms
  {
    hide InsertByAge;
    if ms != [] {
      var front, m := ms[..|ms| - 1], ms[|ms| - 1];
      NewestFirstMembers(front);
      InsertedMembers(m, NewestFirst(front));
      assert ms == front + [m];
    }
  }

  lemma {:induction false} MetasMembers(vs: map<Bytes, ObjectMeta>, ks: seq<Bytes>)
    requires forall k :: k in ks ==> k in vs
    ensures forall m :: m in Metas(vs, ks) ==> exists k :: k in ks && vs[k] == m
  {
    if ks != [] {
      var front, last := ks[..|ks| - 1], ks[|ks| - 1];
      assert ks == front + [last];
      MetasMembers(vs, front);
      assert last in ks;
    }
  }

  ghost predicate IsRecorded(vs: map<Bytes, ObjectMeta>, key: Bytes, m: ObjectMeta) {
    exists vk :: vk in vs && vs[vk] == m && key + [0] <= vk
  }

  lemma {:induction false} VersionsTell(vs: map<Bytes, ObjectMeta>, key: Bytes, ms: seq<ObjectMeta>)
    requires NoNul(key) && forall m :: m in ms ==> IsRecorded(vs, key, m)
    ensures forall x :: x in Versions(key, ms) ==> x.Version? && exists vk :: TellsOf(vs, x.info, vk)
  {
    if ms != [] {
      assert ms == [ms[0]] + ms[1..];
      VersionsTell(vs, key, ms[1..]);
      assert IsRecorded(vs, key, ms[0]);
      var vk :| vk in vs && vs[vk] == ms[0] && key + [0] <= vk;
      assert TellsOf(vs, Info(key, ms[0]), vk);
    }
  }

  lemma {:induction false} UnskipMembers(marked: bool, ms: seq<ObjectMeta>, marker: Bytes)
    ensures forall m :: m in Unskip(marked, ms, marker).0 ==> m in ms
  {
    if marked && marker != [] && ms != [] {
      assert ms == [ms[0]] + ms[1..];
      UnskipMembers(marked, ms[1..], if ms[0].versionId == marker then [] else marker);
    }
  }

  lemma RunTells(vs: map<Bytes, ObjectMeta>, vks: seq<Bytes>, i: nat, marked: bool, marker: Bytes)
    requires (forall k :: k in vks ==> k in vs) && i < |vks| && Split(vks[i]).Some?
    ensures var key := KeyOf(vks[i]); var ms := Unskip(marked, VersionsAt(vs, vks, i), marker).0;
      forall x :: x in Versions(key, ms) ==> x.Version? && exists vk :: TellsOf(vs, x.info, vk)
  {
    hide Split, NewestFirst, Unskip, Metas, Versions, HasPrefix;
    var key, run := KeyOf(vks[i]), vks[i..KeyEnd(vks, i)];
    UnskipMembers(marked, VersionsAt(vs, vks, i), marker);
    NewestFirstMembers(Metas(vs, run));
    MetasMembers(vs, run);
    PrefixIsKey(key, vks[i]);
    forall vk | vk in run
      ensures key + [0] <= vk
    {
      var j :| 0 <= j < |run| && run[j] == vk;
      StartsWith(vks[i + j], key + [NUL]);
    }
    forall m | m in Metas(vs, run)
      ensures IsRecorded(vs, key, m)
    {
      var k :| k in run && vs[k] == m;
    }
    VersionsTell(vs, key, Unskip(marked, VersionsAt(vs, vks, i), marker).0);
  }

  lemma StartsWith(s: Bytes, p: Bytes)
    ensures HasPrefix(s, p) <==> p <= s
  {
  }

  /** Every version that is listed, from whichever markers, tells of a record. */
  lemma {:induction false} ScanTells(
    vs: map<Bytes, ObjectMeta>, vks: seq<Bytes>, q: Query, marker: Bytes, i: nat)
    requires i <= |vks| && forall k :: k in vks ==> k in vs
    ensures forall x :: x in Scan(vs, vks, q, marker, i) && x.Version? ==> exists vk :: TellsOf(vs, x.info, vk)
    decreases |vks| - i
  {
    hide HasPrefix, GroupOf, Split, VersionsAt, Versions, Unskip, TellsOf;
    if i < |vks| {
      if Split(vks[i]).None? {
        ScanTells(vs, vks, q, marker, i + 1);
      } else if HasPrefix(KeyOf(vks[i]), q.prefix) {
        var key := KeyOf(vks[i]);
        match GroupOf(q.prefix, q.delimiter, key)
        case Some(p) => ScanTells(vs, vks, q, marker, GroupEnd(vks, p, i));
        case None =>
          RunTells(vs, vks, i, q.keyMarker == key, marker);
          ScanTells(vs, vks, q, Unskip(q.keyMarker == key, VersionsAt(vs, vks, i), marker).1, KeyEnd(vks, i));
      }
    }
  }

  lemma {:induction false} InfosInItems(items: seq<VersionItem>)
    ensures forall x :: x in InfosIn(items) <==> Version(x) in items
    ensures forall p :: p in PrefixesIn(items) <==> Prefix(p) in items
  {
    if items != [] {
      InfosInItems(items[..|items| - 1]);
      assert items == items[..|items| - 1] + [items[|items| - 1]];
    }
  }

  lemma PageTells(vs: map<Bytes, ObjectMeta>, q: Query, marker: Bytes, maxKeys: int)
    ensures AllTold(vs, InfosIn(Page(Listed(vs, q, marker), maxKeys)))
  {
    hide Scan, LinearScan, TellsOf, Keys, Seek;
    var vks := Keys(vs.Keys);
    var c := Seek(vks, if q.keyMarker != [] then q.keyMarker else q.prefix);
    ScanStarts(vs, vks, q, marker, c);
    ScanTells(vs, vks, q, marker, c);
    InfosInItems(Page(Listed(vs, q, marker), maxKeys));
    forall x | x in Page(Listed(vs, q, marker), maxKeys)
      ensures x in Listed(vs, q, marker)
    {
    }
  }

  lemma PageIsTold(
    vs: map<Bytes, ObjectMeta>, q: Query, marker: Bytes, maxKeys: int, objects: seq<ObjectInfo>, prefixes: seq<Bytes>,
    nextKey: Bytes, nextVersion: Bytes)
    requires IsVersionPage(Listed(vs, q, marker), maxKeys, objects, prefixes, nextKey, nextVersion)
    ensures AllTold(vs, objects)
  {
    hide Listed, AllTold;
    PageTells(vs, q, marker, maxKeys);
  }

  /** The result lists hold the items emitted so far. */
  ghost predicate Gathered(done: seq<VersionItem>, objects: seq<ObjectInfo>, commonPrefixes: seq<Bytes>) {
    objects == InfosIn(done) && commonPrefixes == PrefixesIn(done) && |objects| + |commonPrefixes| == |done|
  }

  lemma GatherVersion(done: seq<VersionItem>, objects: seq<ObjectInfo>, commonPrefixes: seq<Bytes>, info: ObjectInfo)
    requires Gathered(done, objects, commonPrefixes)
    ensures Gathered(done + [Version(info)], objects + [info], commonPrefixes)
  {
    assert (done + [Version(info)])[..|done|] == done;
  }

  lemma GatherPrefix(done: seq<VersionItem>, objects: seq<ObjectInfo>, commonPrefixes: seq<Bytes>, p: Bytes)
    requires Gathered(done, objects, commonPrefixes)
    ensures Gathered(done + [Prefix(p)], objects, commonPrefixes + [p])
  {
    assert (done + [Prefix(p)])[..|done|] == done;
  }

  lemma GatherNothing()
    ensures Gathered([], [], [])
  {
  }

  lemma VersionPageIsFull(
    items: seq<VersionItem>, done: seq<VersionItem>, maxKeys: int, objects: seq<ObjectInfo>, commonPrefixes: seq<Bytes>)
    requires Gathered(done, objects, commonPrefixes) && done <= items
    requires done != [] && |done| >= maxKeys && (|done| == 1 || |done| == maxKeys)
    ensures var (k, v) := Markers(done[|done| - 1]); IsVersionPage(items, maxKeys, objects, commonPrefixes, k, v)
  {
    assert Page(items, maxKeys) == done;
  }

  lemma VersionPageIsLast(items: seq<VersionItem>, maxKeys: int, objects: seq<ObjectInfo>, commonPrefixes: seq<Bytes>)
    requires Gathered(items, objects, commonPrefixes) && (items != [] ==> |items| < maxKeys)
    ensures IsVersionPage(items, maxKeys, objects, commonPrefixes, [], [])
  {
  }

  ghost predicate NoneAhead(vks: seq<Bytes>, seen: set<Bytes>, c: nat) {
    forall p, j :: p in seen && c <= j < |vks| ==> !HasPrefix(vks[j], p)
  }

  /** The scan so far: what was emitted, and that no group met before has members ahead. */
  ghost predicate Scanning(
    vs: map<Bytes, ObjectMeta>, vks: seq<Bytes>, q: Query, items: seq<VersionItem>,
    done: seq<VersionItem>, marker: Bytes, c: nat, seen: set<Bytes>)
    requires forall k :: k in vks ==> k in vs
  {
    && c <= |vks|
    && items == done + Scan(vs, vks, q, marker, c)
    && NoneAhead(vks, seen, c)
  }

  /** The next entry is the group of the record at hand, and that has not been met. */
  lemma GroupComesNext(
    vs: map<Bytes, ObjectMeta>, vks: seq<Bytes>, q: Query, items: seq<VersionItem>,
    done: seq<VersionItem>, marker: Bytes, c: nat, seen: set<Bytes>, p: Bytes)
    requires Sorted(vks) && (forall k :: k in vks ==> k in vs)
    requires Scanning(vs, vks, q, items, done, marker, c, seen)
    requires c < |vks| && Split(vks[c]).Some? && HasPrefix(KeyOf(vks[c]), q.prefix)
    requires GroupOf(q.prefix, q.delimiter, KeyOf(vks[c])) == Some(p)
    ensures p !in seen && p != [] && q.delimiter != [] && p[|p| - 1] == q.delimiter[|q.delimiter| - 1]
    ensures HasPrefix(KeyOf(vks[c]), p) && HasPrefix(vks[c], p)
    ensures items == (done + [Prefix(p)]) + Scan(vs, vks, q, marker, GroupEnd(vks, p, c))
    ensures done + [Prefix(p)] <= items
  {
    hide Less, HasPrefix, GroupOf, Split, Sorted, Scan;
    GroupEndsInDelimiter(q.prefix, q.delimiter, KeyOf(vks[c]));
    KeyPrefix(vks[c], p);
    ScanUnfolds(vs, vks, q, marker, c, p);
  }

  lemma ScanPastGroup(
    vs: map<Bytes, ObjectMeta>, vks: seq<Bytes>, q: Query, items: seq<VersionItem>,
    done: seq<VersionItem>, marker: Bytes, c: nat, seen: set<Bytes>, p: Bytes)
    requires Sorted(vks) && (forall k :: k in vks ==> k in vs)
    requires Scanning(vs, vks, q, items, done, marker, c, seen)
    requires c < |vks| && Split(vks[c]).Some? && HasPrefix(KeyOf(vks[c]), q.prefix)
    requires GroupOf(q.prefix, q.delimiter, KeyOf(vks[c])) == Some(p)
    requires p != [] ==> p[|p| - 1] < 255
    ensures p !in seen && p != [] && Seek(vks, Successor(p)) > c
    ensures Scanning(vs, vks, q, items, done + [Prefix(p)], marker, Seek(vks, Successor(p)), seen + {p})
  {
    hide Less, HasPrefix, GroupOf, Split, Successor, Sorted, Scan, Seek;
    GroupComesNext(vs, vks, q, items, done, marker, c, seen, p);
    JumpPastGroup(vks, q, c, p);
  }

  lemma ScanUnfolds(vs: map<Bytes, ObjectMeta>, vks: seq<Bytes>, q: Query, marker: Bytes, c: nat, p: Bytes)
    requires forall k :: k in vks ==> k in vs
    requires c < |vks| && Split(vks[c]).Some? && HasPrefix(KeyOf(vks[c]), q.prefix) && HasPrefix(KeyOf(vks[c]), p)
    requires GroupOf(q.prefix, q.delimiter, KeyOf(vks[c])) == Some(p)
    ensures Scan(vs, vks, q, marker, c) == [Prefix(p)] + Scan(vs, vks, q, marker, GroupEnd(vks, p, c))
  {
  }

  lemma JumpPastGroup(vks: seq<Bytes>, q: Query, c: nat, p: Bytes)
    requires Sorted(vks)
    requires c < |vks| && Split(vks[c]).Some? && HasPrefix(KeyOf(vks[c]), q.prefix)
    requires GroupOf(q.prefix, q.delimiter, KeyOf(vks[c])) == Some(p)
    requires p != [] ==> p[|p| - 1] < 255
    ensures HasPrefix(KeyOf(vks[c]), p) && HasPrefix(vks[c], p)
    ensures p != [] && Seek(vks, Successor(p)) == GroupEnd(vks, p, c)
    ensures forall j :: GroupEnd(vks, p, c) <= j < |vks| ==> !HasPrefix(vks[j], p)
  {
    hide Less, HasPrefix, GroupOf, Split, Successor, Sorted, Seek;
    GroupEndsInDelimiter(q.prefix, q.delimiter, KeyOf(vks[c]));
    KeyPrefix(vks[c], p);
    JumpAdvances(vks, p, c);
    RunIsContiguous(vks, p, c);
  }

  /** Inside the loop over one key's versions: what it still has to emit comes first. */
  ghost predicate Emitting(
    vs: map<Bytes, ObjectMeta>, vks: seq<Bytes>, q: Query, items: seq<VersionItem>, done: seq<VersionItem>,
    key: Bytes, ms: seq<ObjectMeta>, marker: Bytes, e: nat)
    requires e <= |vks| && forall k :: k in vks ==> k in vs
  {
    var (rest, left) := Unskip(q.keyMarker == key, ms, marker);
    items == done + (Versions(key, rest) + Scan(vs, vks, q, left, e))
  }

  lemma EmitNext(
    vs: map<Bytes, ObjectMeta>, vks: seq<Bytes>, q: Query, items: seq<VersionItem>, done: seq<VersionItem>,
    key: Bytes, ms: seq<ObjectMeta>, marker: Bytes, e: nat)
    requires e <= |vks| && (forall k :: k in vks ==> k in vs) && ms != []
    requires Emitting(vs, vks, q, items, done, key, ms, marker, e)
    ensures if q.keyMarker == key && marker != [] then
        Emitting(vs, vks, q, items, done, key, ms[1..], if ms[0].versionId == marker then [] else marker, e)
      else
        && Emitting(vs, vks, q, items, done + [Version(Info(key, ms[0]))], key, ms[1..], marker, e)
        && done + [Version(Info(key, ms[0]))] <= items
  {
    if !(q.keyMarker == key && marker != []) {
      var item := Version(Info(key, ms[0]));
      var rest := Scan(vs, vks, q, marker, e);
      assert Versions(key, ms) == [item] + Versions(key, ms[1..]);
      assert items == (done + [item]) + (Versions(key, ms[1..]) + rest);
    }
  }

  lemma EmitStart(
    vs: map<Bytes, ObjectMeta>, vks: seq<Bytes>, q: Query, items: seq<VersionItem>,
    done: seq<VersionItem>, marker: Bytes, c: nat, seen: set<Bytes>)
    requires forall k :: k in vks ==> k in vs
    requires Scanning(vs, vks, q, items, done, marker, c, seen)
    requires c < |vks| && Split(vks[c]).Some? && HasPrefix(KeyOf(vks[c]), q.prefix)
    requires GroupOf(q.prefix, q.delimiter, KeyOf(vks[c])) == None
    ensures Emitting(vs, vks, q, items, done, KeyOf(vks[c]), VersionsAt(vs, vks, c), marker, KeyEnd(vks, c))
    ensures NoneAhead(vks, seen, c)
  {
  }

  /** The inner cursor loop: the records of one key. */
  method CollectRun(vs: map<Bytes, ObjectMeta>, vks: seq<Bytes>, key: Bytes, start: nat)
    returns (keyVersions: seq<ObjectMeta>, c: nat)
    requires start < |vks| && (forall k :: k in vks ==> k in vs)
    requires Split(vks[start]).Some? && KeyOf(vks[start]) == key
    ensures c == KeyEnd(vks, start) && keyVersions == Metas(vs, vks[start..c])
  {
    hide HasPrefix, Split;
    keyVersions, c := [], start;
    assert vks[c..c] == [];
    while c < |vks| && HasPrefix(vks[c], key + [NUL])
      invariant start <= c <= |vks| && RunEnd(vks, key + [NUL], c) == KeyEnd(vks, start)
      invariant keyVersions == Metas(vs, vks[start..c])
      decreases |vks| - c
    {
      CollectMeta(vs, vks, start, c, key);
      keyVersions := keyVersions + [vs[vks[c]]];
      c := c + 1;
    }
  }

  /**
   * One page of versions. Each key's run is collected and sorted; a group is left
   * by seeking the successor of its common prefix. The page is the head of what
   * the linear scan lists, if no jump wraps around before the page is full.
   */
  method ListObjectVersions(
    vs: map<Bytes, ObjectMeta>, prefix: Bytes, delimiter: Bytes, keyMarker: Bytes, versionIdMarker: Bytes, maxKeys: int)
    returns (objects: seq<ObjectInfo>, commonPrefixes: seq<Bytes>, nextKeyMarker: Bytes, nextVersionIdMarker: Bytes)
    requires PageJumps(Listed(vs, Query(prefix, delimiter, keyMarker), versionIdMarker), delimiter, maxKeys)
    ensures IsVersionPage(Listed(vs, Query(prefix, delimiter, keyMarker), versionIdMarker), maxKeys,
              objects, commonPrefixes, nextKeyMarker, nextVersionIdMarker)
    ensures AllTold(vs, objects)
  {
    hide PageJumps, IsVersionPage, AllTold, Scanning, Emitting, Gathered, Less, HasPrefix, GroupOf, Keys, Split;
    hide Successor, Sorted;
    hide NoneAhead, Scan, LinearScan, Unskip, Versions, NewestFirst, Metas, RunEnd, Markers;
    var vks := Keys(vs.Keys);
    var c := Seek(vks, if keyMarker != [] then keyMarker else prefix);
    ghost var q := Query(prefix, delimiter, keyMarker);
    ghost var items := Scan(vs, vks, q, versionIdMarker, c);
    objects, commonPrefixes, nextKeyMarker, nextVersionIdMarker := [], [], [], [];
    var prefixes: set<Bytes> := {};
    var marker := versionIdMarker;
    ghost var done: seq<VersionItem> := [];
    ScanStarts(vs, vks, q, marker, c);
    GatherNothing();
    while c < |vks|
      invariant c <= |vks| && Scanning(vs, vks, q, items, done, marker, c, prefixes)
      invariant Gathered(done, objects, commonPrefixes) && |objects| + |commonPrefixes| == |done|
      invariant nextKeyMarker == [] && nextVersionIdMarker == []
      invariant done != [] ==> |done| < maxKeys
      decreases |vks| - c
    {
      var parts := Split(vks[c]);
      if parts.None? {
        SkipUnsplit(vs, vks, q, items, done, marker, c, prefixes);
        c := c + 1;
        continue;
      }
      var key := parts.value.0;
      if !HasPrefix(key, prefix) {
        break;
      }
      var group := GroupOf(prefix, delimiter, key);
      if group.Some? {
        var pfx := group.value;
        GroupComesNext(vs, vks, q, items, done, marker, c, prefixes, pfx);
        ghost var before, seen := done, prefixes;
        if pfx !in prefixes {
          prefixes := prefixes + {pfx};
          GatherPrefix(done, objects, commonPrefixes, pfx);
          commonPrefixes := commonPrefixes + [pfx];
          done := done + [Prefix(pfx)];
          if |objects| + |commonPrefixes| >= maxKeys {
            nextKeyMarker := pfx;
            PrefixIsLast(items, done, maxKeys, objects, commonPrefixes, pfx);
            PageIsTold(vs, q, versionIdMarker, maxKeys, objects, commonPrefixes, pfx, []);
            return;
          }
        }
        RoomIsSmall(items, before, delimiter, maxKeys, pfx);
        ScanPastGroup(vs, vks, q, items, before, marker, c, seen, pfx);
        c := Seek(vks, Successor(pfx));
        continue;
      }
      var start := c;
      var keyVersions;
      keyVersions, c := CollectRun(vs, vks, key, start);
      keyVersions := NewestFirst(keyVersions);
      EmitStart(vs, vks, q, items, done, marker, start, prefixes);
      var x := 0;
      while x < |keyVersions|
        invariant x <= |keyVersions| && Emitting(vs, vks, q, items, done, key, keyVersions[x..], marker, c)
        invariant Gathered(done, objects, commonPrefixes) && |objects| + |commonPrefixes| == |done|
        invariant done != [] ==> |done| < maxKeys
      {
        var meta := keyVersions[x];
        EmitNext(vs, vks, q, items, done, key, keyVersions[x..], marker, c);
        assert keyVersions[x..][1..] == keyVersions[x + 1..];
        x := x + 1;
        if keyMarker == key && marker != [] {
          if meta.versionId == marker {
            marker := [];
          }
          continue;
        }
        GatherVersion(done, objects, commonPrefixes, Info(key, meta));
        objects := objects + [Info(key, meta)];
        done := done + [Version(Info(key, meta))];
        if |objects| + |commonPrefixes| >= maxKeys {
          nextKeyMarker, nextVersionIdMarker := key, meta.versionId;
          VersionIsLast(items, done, maxKeys, objects, commonPrefixes, key, meta);
          PageIsTold(vs, q, versionIdMarker, maxKeys, objects, commonPrefixes, key, meta.versionId);
          return;
        }
      }
      assert keyVersions[x..] == [];
      ScanContinues(vs, vks, q, items, done, key, marker, start, c, prefixes);
    }
    ScanEnds(vs, vks, q, items, done, marker, c, prefixes);
    VersionPageIsLast(items, maxKeys, objects, commonPrefixes);
    PageIsTold(vs, q, versionIdMarker, maxKeys, objects, commonPrefixes, [], []);
  }

  /** A jump that is made, because the page has room, does not wrap. */
  lemma RoomIsSmall(items: seq<VersionItem>, done: seq<VersionItem>, delimiter: Bytes, maxKeys: int, p: Bytes)
    requires PageJumps(items, delimiter, maxKeys) && done + [Prefix(p)] <= items && |done| + 1 < maxKeys
    requires p != [] && delimiter != [] && p[|p| - 1] == delimiter[|delimiter| - 1]
    ensures p[|p| - 1] < 255
  {
    assert items[|done|] == (done + [Prefix(p)])[|done|];
  }

  lemma ScanStarts(vs: map<Bytes, ObjectMeta>, vks: seq<Bytes>, q: Query, marker: Bytes, c: nat)
    requires Sorted(vks) && c <= |vks| && forall k :: k in vks ==> k in vs
    ensures Scanning(vs, vks, q, Scan(vs, vks, q, marker, c), [], marker, c, {})
    ensures Scan(vs, vks, q, marker, c) == LinearScan(vs, vks, q, marker, c, {})
  {
    hide Scan, LinearScan, Sorted;
    ScanIsLinear(vs, vks, q, marker, c, {});
  }

  lemma SkipUnsplit(
    vs: map<Bytes, ObjectMeta>, vks: seq<Bytes>, q: Query, items: seq<VersionItem>,
    done: seq<VersionItem>, marker: Bytes, c: nat, seen: set<Bytes>)
    requires c < |vks| && Split(vks[c]).None? && forall k :: k in vks ==> k in vs
    requires Scanning(vs, vks, q, items, done, marker, c, seen)
    ensures Scanning(vs, vks, q, items, done, marker, c + 1, seen)
  {
  }

  lemma ScanContinues(
    vs: map<Bytes, ObjectMeta>, vks: seq<Bytes>, q: Query, items: seq<VersionItem>, done: seq<VersionItem>,
    key: Bytes, marker: Bytes, c: nat, e: nat, seen: set<Bytes>)
    requires c <= e <= |vks| && (forall k :: k in vks ==> k in vs)
    requires Emitting(vs, vks, q, items, done, key, [], marker, e)
    requires NoneAhead(vks, seen, c)
    ensures Scanning(vs, vks, q, items, done, marker, e, seen)
  {
    assert items == done + Scan(vs, vks, q, marker, e);
  }

  lemma ScanEnds(
    vs: map<Bytes, ObjectMeta>, vks: seq<Bytes>, q: Query, items: seq<VersionItem>,
    done: seq<VersionItem>, marker: Bytes, c: nat, seen: set<Bytes>)
    requires forall k :: k in vks ==> k in vs
    requires Scanning(vs, vks, q, items, done, marker, c, seen)
    requires c == |vks| || (Split(vks[c]).Some? && !HasPrefix(KeyOf(vks[c]), q.prefix))
    ensures items == done
  {
  }

  lemma CollectMeta(vs: map<Bytes, ObjectMeta>, vks: seq<Bytes>, start: nat, c: nat, key: Bytes)
    requires start <= c < |vks| && HasPrefix(vks[c], key + [NUL]) && forall k :: k in vks ==> k in vs
    ensures Metas(vs, vks[start..c + 1]) == Metas(vs, vks[start..c]) + [vs[vks[c]]]
    ensures RunEnd(vks, key + [NUL], c) == RunEnd(vks, key + [NUL], c + 1)
  {
    hide HasPrefix;
    var longer := vks[start..c + 1];
    assert longer == vks[start..c] + [vks[c]];
    assert longer[..|longer| - 1] == vks[start..c] && longer[|longer| - 1] == vks[c];
  }

  lemma PrefixIsLast(
    items: seq<VersionItem>, done: seq<VersionItem>, maxKeys: int, objects: seq<ObjectInfo>,
    commonPrefixes: seq<Bytes>, p: Bytes)
    requires Gathered(done, objects, commonPrefixes) && done <= items
    requires done != [] && |done| >= maxKeys && (|done| == 1 || |done| == maxKeys) && done[|done| - 1] == Prefix(p)
    ensures IsVersionPage(items, maxKeys, objects, commonPrefixes, p, [])
  {
    VersionPageIsFull(items, done, maxKeys, objects, commonPrefixes);
  }

  lemma VersionIsLast(
    items: seq<VersionItem>, done: seq<VersionItem>, maxKeys: int, objects: seq<ObjectInfo>,
    commonPrefixes: seq<Bytes>, key: Bytes, m: ObjectMeta)
    requires Gathered(done, objects, commonPrefixes) && done <= items
    requires done != [] && |done| >= maxKeys && (|done| == 1 || |done| == maxKeys)
    requires done[|done| - 1] == Version(Info(key, m))
    ensures IsVersionPage(items, maxKeys, objects, commonPrefixes, key, m.versionId)
  {
    VersionPageIsFull(items, done, maxKeys, objects, commonPrefixes);
  }
}
