/** The markers of a version listing with a delimiter: that a full page has some, and what they stand for. */
module VersionGroups {
  import opened ByteStrings
  import opened Listing
  import opened ObjectTypes
  import opened Outcomes
  import opened SortedKeys
  import opened VersionKeys
  import opened VersionListing
  import opened VersionPaging

  ghost predicate AllSplit(vs: map<Bytes, ObjectMeta>, vks: seq<Bytes>) {
    Sorted(vks) && forall k :: k in vks ==> k in vs && Split(k).Some?
  }

  /** No item has an empty name if no key has. */
  lemma {:induction false} NamedItems(
    vs: map<Bytes, ObjectMeta>, vks: seq<Bytes>, q: Query, marker: Bytes, i: nat)
    requires AllSplit(vs, vks) && i <= |vks| && forall k :: k in vks ==> KeyOf(k) != []
    ensures forall x :: x in Scan(vs, vks, q, marker, i) ==> Markers(x).0 != []
    decreases |vks| - i
  {
    hide HasPrefix, GroupOf, Split, VersionsAt, Versions, Unskip, Sorted;
    if i < |vks| && HasPrefix(KeyOf(vks[i]), q.prefix) {
      var key := KeyOf(vks[i]);
      match GroupOf(q.prefix, q.delimiter, key)
      case Some(p) =>
        GroupEndsInDelimiter(q.prefix, q.delimiter, key);
        NamedItems(vs, vks, q, marker, GroupEnd(vks, p, i));
      case None =>
        var (ms, rest) := Unskip(q.keyMarker == key, VersionsAt(vs, vks, i), marker);
        VersionsSlice(key, ms, 0);
        NamedItems(vs, vks, q, rest, KeyEnd(vks, i));
    }
  }

  /** A page has markers, and so is said to be truncated, exactly if it is full. */
  lemma FullIsTruncated(vs: map<Bytes, ObjectMeta>, q: Query, marker: Bytes, maxKeys: int)
    requires forall k :: k in vs ==> Split(k).Some? && KeyOf(k) != []
    ensures var items := Listed(vs, q, marker);
      NextMarkers(items, maxKeys) != ([], []) <==> |items| >= 1 && |items| >= maxKeys
  {
    hide Scan, LinearScan, Keys, Seek, Markers, Split;
    var vks := Keys(vs.Keys);
    var c := Seek(vks, if q.keyMarker != [] then q.keyMarker else q.prefix);
    ScanStarts(vs, vks, q, marker, c);
    NamedItems(vs, vks, q, marker, c);
    var items, page := Listed(vs, q, marker), Page(Listed(vs, q, marker), maxKeys);
    if Full(items, maxKeys) { assert page[|page| - 1] in items; }
  }

  /** The record before an index is in no group that starts there. */
  ghost predicate Boundary(vks: seq<Bytes>, q: Query, i: nat)
    requires i <= |vks| && forall k :: k in vks ==> Split(k).Some?
  {
    0 < i < |vks| && HasPrefix(KeyOf(vks[i]), q.prefix) ==>
      var g := GroupOf(q.prefix, q.delimiter, KeyOf(vks[i])); g.Some? ==> !HasPrefix(vks[i - 1], g.value)
  }

  lemma BoundaryAtPrefix(vks: seq<Bytes>, q: Query)
    requires Sorted(vks) && forall k :: k in vks ==> Split(k).Some?
    ensures Boundary(vks, q, Seek(vks, q.prefix))
  {
    hide Less, HasPrefix, GroupOf, Split, Sorted, Seek;
    var i := Seek(vks, q.prefix);
    if 0 < i < |vks| && HasPrefix(KeyOf(vks[i]), q.prefix) {
      match GroupOf(q.prefix, q.delimiter, KeyOf(vks[i]))
      case None =>
      case Some(p) =>
        if HasPrefix(vks[i - 1], p) {
          PrefixOfPrefix(vks[i - 1], p, q.prefix);
          PrefixNotGreater(vks[i - 1], q.prefix);
        }
    }
  }

  lemma PrefixOfPrefix(k: Bytes, p: Bytes, q: Bytes)
    requires HasPrefix(k, p) && HasPrefix(p, q)
    ensures HasPrefix(k, q)
  {
    assert k[..|q|] == k[..|p|][..|q|];
  }

  /** Behind a record whose own group is another, or that has none. */
  lemma BoundaryBehind(vks: seq<Bytes>, q: Query, e: nat, g: Option<Bytes>)
    requires 0 < e <= |vks| && (forall k :: k in vks ==> Split(k).Some?) && HasPrefix(KeyOf(vks[e - 1]), q.prefix)
    requires GroupOf(q.prefix, q.delimiter, KeyOf(vks[e - 1])) == g
    requires g.Some? && e < |vks| ==> !HasPrefix(vks[e], g.value)
    ensures Boundary(vks, q, e)
  {
    hide HasPrefix, GroupOf, Split, VersionKey;
    if e < |vks| && HasPrefix(KeyOf(vks[e]), q.prefix) {
      match GroupOf(q.prefix, q.delimiter, KeyOf(vks[e]))
      case None =>
      case Some(p) =>
        KeyPrefix(vks[e], p);
        var (k, v) := Split(vks[e - 1]).value;
        PrefixOfKey(p, k, v);
        GroupIsPrefix(q.prefix, q.delimiter, KeyOf(vks[e]), k);
    }
  }

  lemma GroupHead(vks: seq<Bytes>, q: Query, i: nat, p: Bytes)
    requires Sorted(vks) && (forall k :: k in vks ==> Split(k).Some?) && i < |vks| && Boundary(vks, q, i)
    requires HasPrefix(KeyOf(vks[i]), q.prefix) && GroupOf(q.prefix, q.delimiter, KeyOf(vks[i])) == Some(p)
    ensures Seek(vks, p) == i
  {
    hide Less, HasPrefix, GroupOf, Split, Sorted, Seek;
    GroupHasKey(q, KeyOf(vks[i]), p);
    KeyPrefix(vks[i], p);
    SeekPrefix(vks, p, i);
  }

  lemma GroupHasKey(q: Query, key: Bytes, p: Bytes)
    requires HasPrefix(key, q.prefix) && GroupOf(q.prefix, q.delimiter, key) == Some(p)
    ensures HasPrefix(key, p)
  {
  }

  /** Without a version id marker the key marker plays no part in the scan. */
  lemma {:induction false} KeyMarkerIdle(
    vs: map<Bytes, ObjectMeta>, vks: seq<Bytes>, q: Query, keyMarker: Bytes, i: nat)
    requires AllSplit(vs, vks) && i <= |vks|
    ensures Scan(vs, vks, q.(keyMarker := keyMarker), [], i) == Scan(vs, vks, q, [], i)
    decreases |vks| - i
  {
    hide HasPrefix, GroupOf, Split, VersionsAt, Versions, Sorted, GroupEnd, KeyEnd;
    if i < |vks| && HasPrefix(KeyOf(vks[i]), q.prefix) {
      match GroupOf(q.prefix, q.delimiter, KeyOf(vks[i]))
      case Some(p) =>
        GroupHasKey(q, KeyOf(vks[i]), p);
        KeyMarkerIdle(vs, vks, q, keyMarker, GroupEnd(vks, p, i));
      case None => KeyMarkerIdle(vs, vks, q, keyMarker, KeyEnd(vks, i));
    }
  }

  /** Where the scan meets a group, seeking it leads, and what follows is the rest of the listing. */
  lemma {:induction false} FromGroup(
    vs: map<Bytes, ObjectMeta>, vks: seq<Bytes>, q: Query, i: nat, t: nat, p: Bytes)
    requires AllSplit(vs, vks) && i <= |vks| && Boundary(vks, q, i)
    requires t < |Scan(vs, vks, q, [], i)| && Scan(vs, vks, q, [], i)[t] == Prefix(p)
    ensures Scan(vs, vks, q, [], Seek(vks, p)) == Scan(vs, vks, q, [], i)[t..]
    decreases |vks| - i
  {
    hide HasPrefix, GroupOf, Split, VersionsAt, Versions, Sorted, GroupEnd, KeyEnd, Boundary, Seek;
    var items := Scan(vs, vks, q, [], i);
    var key := KeyOf(vks[i]);
    match GroupOf(q.prefix, q.delimiter, key)
    case Some(g) =>
      GroupHasKey(q, key, g);
      if t == 0 {
        GroupHead(vks, q, i, g);
      } else {
        var e := GroupEnd(vks, g, i);
        AfterGroup(vks, q, i, g);
        FromGroup(vs, vks, q, e, t - 1, p);
        assert items[t..] == Scan(vs, vks, q, [], e)[t - 1..];
      }
    case None =>
      var ms, e := VersionsAt(vs, vks, i), KeyEnd(vks, i);
      VersionsSlice(key, ms, 0);
      AfterKey(vks, q, i);
      assert t >= |ms|;
      FromGroup(vs, vks, q, e, t - |ms|, p);
      assert items[t..] == Scan(vs, vks, q, [], e)[t - |ms|..];
  }

  lemma AfterGroup(vks: seq<Bytes>, q: Query, i: nat, g: Bytes)
    requires Sorted(vks) && (forall k :: k in vks ==> Split(k).Some?) && i < |vks|
    requires HasPrefix(KeyOf(vks[i]), q.prefix) && GroupOf(q.prefix, q.delimiter, KeyOf(vks[i])) == Some(g)
    requires HasPrefix(KeyOf(vks[i]), g)
    ensures Boundary(vks, q, GroupEnd(vks, g, i))
  {
    hide HasPrefix, GroupOf, Split, Sorted, Boundary;
    var e := GroupEnd(vks, g, i);
    KeyPrefix(vks[i], g);
    MemberOfGroup(q, KeyOf(vks[i]), g, vks[e - 1]);
    BoundaryBehind(vks, q, e, Some(g));
  }

  lemma AfterKey(vks: seq<Bytes>, q: Query, i: nat)
    requires (forall k :: k in vks ==> Split(k).Some?) && i < |vks|
    requires HasPrefix(KeyOf(vks[i]), q.prefix) && GroupOf(q.prefix, q.delimiter, KeyOf(vks[i])) == None
    ensures Boundary(vks, q, KeyEnd(vks, i))
  {
    hide HasPrefix, GroupOf, Split, Boundary;
    var e := KeyEnd(vks, i);
    KeyEndIsRunEnd(vks, i);
    PrefixIsKey(KeyOf(vks[i]), vks[e - 1]);
    BoundaryBehind(vks, q, e, None);
  }

  /**
   * The page after a group's marker begins with that group again and then goes on behind
   * it, as the listing without markers does.
   */
  lemma GroupResume(vs: map<Bytes, ObjectMeta>, prefix: Bytes, delimiter: Bytes, t: nat, p: Bytes)
    requires forall k :: k in vs ==> Split(k).Some?
    requires t < |Listed(vs, Query(prefix, delimiter, []), [])|
    requires Listed(vs, Query(prefix, delimiter, []), [])[t] == Prefix(p)
    ensures Listed(vs, Query(prefix, delimiter, p), []) == Listed(vs, Query(prefix, delimiter, []), [])[t..]
  {
    hide Scan, LinearScan, Keys, Seek, Split, Boundary;
    var vks, q := Keys(vs.Keys), Query(prefix, delimiter, []);
    var c := Seek(vks, prefix);
    ScanStarts(vs, vks, q, [], c);
    BoundaryAtPrefix(vks, q);
    FromGroup(vs, vks, q, c, t, p);
    GroupsAreNamed(vs, vks, q, c, t, p);
    KeyMarkerIdle(vs, vks, q, p, Seek(vks, p));
    ScanStarts(vs, vks, q.(keyMarker := p), [], Seek(vks, p));
  }

  lemma {:induction false} GroupsAreNamed(
    vs: map<Bytes, ObjectMeta>, vks: seq<Bytes>, q: Query, i: nat, t: nat, p: Bytes)
    requires AllSplit(vs, vks) && i <= |vks|
    requires t < |Scan(vs, vks, q, [], i)| && Scan(vs, vks, q, [], i)[t] == Prefix(p)
    ensures p != []
    decreases |vks| - i
  {
    hide HasPrefix, GroupOf, Split, VersionsAt, Versions, Sorted, GroupEnd, KeyEnd;
    var key := KeyOf(vks[i]);
    match GroupOf(q.prefix, q.delimiter, key)
    case Some(g) =>
      GroupEndsInDelimiter(q.prefix, q.delimiter, key);
      if t > 0 { GroupsAreNamed(vs, vks, q, GroupEnd(vks, g, i), t - 1, p); }
    case None =>
      var ms := VersionsAt(vs, vks, i);
      VersionsSlice(key, ms, 0);
      GroupsAreNamed(vs, vks, q, KeyEnd(vks, i), t - |ms|, p);
  }

  /** Behind a group as behind a key, another key begins. */
  lemma StartAfterGroup(vks: seq<Bytes>, q: Query, i: nat, g: Bytes)
    requires Sorted(vks) && (forall k :: k in vks ==> Split(k).Some?) && i < |vks|
    requires HasPrefix(KeyOf(vks[i]), q.prefix) && GroupOf(q.prefix, q.delimiter, KeyOf(vks[i])) == Some(g)
    requires HasPrefix(KeyOf(vks[i]), g)
    ensures RunStart(vks, GroupEnd(vks, g, i))
  {
    hide HasPrefix, GroupOf, Split, Sorted, VersionKey;
    var e := GroupEnd(vks, g, i);
    KeyPrefix(vks[i], g);
    if e < |vks| && KeyOf(vks[e - 1]) == KeyOf(vks[e]) {
      var (k, v) := Split(vks[e - 1]).value;
      var (l, w) := Split(vks[e]).value;
      PrefixOfKey(g, k, v);
      PrefixOfKey(g, l, w);
    }
  }

  lemma KeyedAreSplit(vs: map<Bytes, ObjectMeta>, vks: seq<Bytes>)
    requires WellKeyed(vs) && vks == Keys(vs.Keys)
    ensures AllSplit(vs, vks)
  {
  }

  /** The markers of a version within its key's run. */
  lemma BehindVersion(vs: map<Bytes, ObjectMeta>, vks: seq<Bytes>, q: Query, i: nat, t: nat)
    requires WellKeyed(vs) && vks == Keys(vs.Keys) && i < |vks| && Split(vks[i]).Some? && RunStart(vks, i)
    requires HasPrefix(KeyOf(vks[i]), q.prefix) && GroupOf(q.prefix, q.delimiter, KeyOf(vks[i])) == None
    requires t < |VersionsAt(vs, vks, i)| && VersionsAt(vs, vks, i)[t].versionId != []
    ensures var key, ms := KeyOf(vks[i]), VersionsAt(vs, vks, i);
      Scan(vs, vks, q.(keyMarker := key), ms[t].versionId, Seek(vks, key)) ==
        Versions(key, ms[t + 1..]) + Scan(vs, vks, q, [], KeyEnd(vks, i))
  {
    hide HasPrefix, GroupOf, Split, VersionsAt, Versions, Keys, GroupEnd, KeyEnd, RunStart, Seek, Unskip, WellKeyed;
    hide DistinctIds, ByAge;
    KeyedAreSplit(vs, vks);
    var key, ms := KeyOf(vks[i]), VersionsAt(vs, vks, i);
    VersionsOfRun(vs, vks, i);
    VersionsSlice(key, ms, t + 1);
    UnskipLeaves(ms, ms[t].versionId, t + 1);
    KeyIsSought(vks, i);
    KeyMarkerIdle(vs, vks, q, key, KeyEnd(vks, i));
  }

  /** Where the scan meets a version with an id, its markers lead behind it. */
  lemma {:induction false} FromVersion(
    vs: map<Bytes, ObjectMeta>, vks: seq<Bytes>, q: Query, i: nat, t: nat, info: ObjectInfo)
    requires WellKeyed(vs) && vks == Keys(vs.Keys) && i <= |vks| && RunStart(vks, i)
    requires t < |Scan(vs, vks, q, [], i)| && Scan(vs, vks, q, [], i)[t] == Version(info) && info.versionId != []
    ensures Scan(vs, vks, q.(keyMarker := info.key), info.versionId, Seek(vks, info.key)) ==
      Scan(vs, vks, q, [], i)[t + 1..]
    decreases |vks| - i
  {
    hide HasPrefix, GroupOf, Split, VersionsAt, Versions, Keys, GroupEnd, KeyEnd, RunStart, Seek, Unskip, WellKeyed;
    hide Scan;
    KeyedAreSplit(vs, vks);
    ScanUnfolded(vs, vks, q, i);
    var key := KeyOf(vks[i]);
    match GroupOf(q.prefix, q.delimiter, key)
    case Some(g) =>
      var e := GroupEnd(vks, g, i);
      StartAfterGroup(vks, q, i, g);
      TailOf([Prefix(g)], Scan(vs, vks, q, [], e), t);
      FromVersion(vs, vks, q, e, t - 1, info);
    case None =>
      var ms, e := VersionsAt(vs, vks, i), KeyEnd(vks, i);
      VersionsSlice(key, ms, 0);
      TailOf(Versions(key, ms), Scan(vs, vks, q, [], e), t);
      if t < |ms| {
        VersionsSlice(key, ms, t + 1);
        BehindVersion(vs, vks, q, i, t);
      } else {
        RunOfKey(vks, i);
        FromVersion(vs, vks, q, e, t - |ms|, info);
      }
  }

  lemma TailOf(a: seq<VersionItem>, b: seq<VersionItem>, t: nat)
    requires t < |a| + |b|
    ensures (a + b)[t] == if t < |a| then a[t] else b[t - |a|]
    ensures (a + b)[t + 1..] == if t < |a| then a[t + 1..] + b else b[t - |a| + 1..]
  {
  }

  /** One turn of the scan: a group, or the versions of a key. */
  lemma ScanUnfolded(vs: map<Bytes, ObjectMeta>, vks: seq<Bytes>, q: Query, i: nat)
    requires AllSplit(vs, vks) && i <= |vks| && Scan(vs, vks, q, [], i) != []
    ensures i < |vks| && HasPrefix(KeyOf(vks[i]), q.prefix)
    ensures var items, g := Scan(vs, vks, q, [], i), GroupOf(q.prefix, q.delimiter, KeyOf(vks[i]));
      if g.Some? then
        HasPrefix(KeyOf(vks[i]), g.value) &&
        items == [Prefix(g.value)] + Scan(vs, vks, q, [], GroupEnd(vks, g.value, i))
      else
        items == Versions(KeyOf(vks[i]), VersionsAt(vs, vks, i)) + Scan(vs, vks, q, [], KeyEnd(vks, i))
  {
    hide HasPrefix, Split, VersionsAt, Versions, GroupEnd, KeyEnd;
  }

  /** The markers of a version with an id stand exactly for the entries after it, groups among them. */
  lemma DelimitedResume(vs: map<Bytes, ObjectMeta>, prefix: Bytes, delimiter: Bytes, t: nat, info: ObjectInfo)
    requires WellKeyed(vs) && (forall vk :: vk in vs ==> KeyOf(vk) != [])
    requires t < |Listed(vs, Query(prefix, delimiter, []), [])| && info.versionId != []
    requires Listed(vs, Query(prefix, delimiter, []), [])[t] == Version(info)
    ensures Listed(vs, Query(prefix, delimiter, info.key), info.versionId) ==
      Listed(vs, Query(prefix, delimiter, []), [])[t + 1..]
  {
    hide Scan, LinearScan, Keys, Seek, Split, RunStart;
    var vks, q := Keys(vs.Keys), Query(prefix, delimiter, []);
    var c := Seek(vks, prefix);
    ScanStarts(vs, vks, q, [], c);
    NamedItems(vs, vks, q, [], c);
    assert Scan(vs, vks, q, [], c)[t] in Scan(vs, vks, q, [], c);
    if NoNul(prefix) {
      SeekIsRunStart(vks, prefix);
      FromVersion(vs, vks, q, c, t, info);
      ScanStarts(vs, vks, q.(keyMarker := info.key), info.versionId, Seek(vks, info.key));
    } else {
      NoKeyUnder(vs, vks, q, c);
    }
  }

  lemma NoKeyUnder(vs: map<Bytes, ObjectMeta>, vks: seq<Bytes>, q: Query, c: nat)
    requires AllSplit(vs, vks) && c <= |vks| && !NoNul(q.prefix)
    ensures Scan(vs, vks, q, [], c) == []
  {
    hide Split, Sorted;
    var j :| 0 <= j < |q.prefix| && q.prefix[j] == NUL;
    if c < |vks| {
      KeyEndIsRunEnd(vks, c);
      var key := KeyOf(vks[c]);
      assert |q.prefix| <= |key| ==> key[..|q.prefix|][j] == key[j];
    }
  }
}
