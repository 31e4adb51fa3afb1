/** The client's listing loop: it asks for pages and follows their markers to the end. */
module ListClient {
  import opened ByteStrings
  import opened Listing
  import opened ObjectTypes
  import opened Outcomes
  import opened Paging
  import opened SortedKeys

  /** After `t` items of the listing `all`, the marker makes the next page start where they end. */
  ghost predicate Progress(
    ks: seq<Bytes>, prefix: Bytes, delimiter: Bytes, all: seq<Item>, t: nat, marker: Bytes)
  {
    && t <= |all|
    && marker == (if t == 0 then [] else Marker(all[t - 1]))
    && ItemsFrom(ks, prefix, delimiter, Start(ks, prefix, marker)) == Again(ks, all, t) + all[t..]
  }

  /** The item shown again at the head of the next page, if any. */
  ghost function Again(ks: seq<Bytes>, all: seq<Item>, t: nat): seq<Item>
    requires t <= |all|
  {
    if t > 0 && Repeats(ks, all[t - 1]) then [all[t - 1]] else []
  }

  /** How far the listing is after one more page. */
  ghost function After(ks: seq<Bytes>, all: seq<Item>, t: nat, maxKeys: int): int
    requires t <= |all|
  {
    t + |Page(Again(ks, all, t) + all[t..], maxKeys)| - |Again(ks, all, t)|
  }

  lemma OnePage(ks: seq<Bytes>, prefix: Bytes, delimiter: Bytes, all: seq<Item>, t: nat, marker: Bytes, maxKeys: int)
    requires Sorted(ks) && [] !in ks && all == ItemsFrom(ks, prefix, delimiter, Start(ks, prefix, []))
    requires Progress(ks, prefix, delimiter, all, t, marker)
    requires maxKeys >= 2 || (maxKeys == 1 && Again(ks, all, t) == [])
    ensures var items := ItemsFrom(ks, prefix, delimiter, Start(ks, prefix, marker));
      var n := After(ks, all, t, maxKeys);
      && t <= n <= |all| && Page(items, maxKeys) == Again(ks, all, t) + all[t..n]
      && (if Full(items, maxKeys) then
            && t < n && NextMarker(items, maxKeys) != []
            && Progress(ks, prefix, delimiter, all, n, NextMarker(items, maxKeys))
          else NextMarker(items, maxKeys) == [] && n == |all|)
  {
    hide Less, HasPrefix, Start, ItemsFrom, Sorted, Repeats, Again, Page;
    var again := Again(ks, all, t);
    assert |again| <= 1 && (again != [] ==> t > 0) by { AgainIsShort(ks, all, t); }
    PageArithmetic(again, all, t, maxKeys);
    var n := After(ks, all, t, maxKeys);
    if Full(again + all[t..], maxKeys) {
      StartIsBoundary(ks, prefix, delimiter);
      Resume(ks, prefix, delimiter, Start(ks, prefix, []), n);
      AgainIsShort(ks, all, n);
    }
  }

  lemma AgainIsShort(ks: seq<Bytes>, all: seq<Item>, t: nat)
    requires t <= |all|
    ensures |Again(ks, all, t)| <= 1
    ensures t > 0 ==> Again(ks, all, t) == if Repeats(ks, all[t - 1]) then [all[t - 1]] else []
    ensures t == 0 ==> Again(ks, all, t) == []
  {
  }

  lemma PageArithmetic(again: seq<Item>, all: seq<Item>, t: nat, maxKeys: int)
    requires t <= |all| && |again| <= 1 && maxKeys > |again|
    ensures var page := Page(again + all[t..], maxKeys);
      var n := t + |page| - |again|;
      && t <= n <= |all| && page == again + all[t..n]
      && (if Full(again + all[t..], maxKeys) then t < n && page[|page| - 1] == all[n - 1] else n == |all|)
  {
    var items := again + all[t..];
    var page := Page(items, maxKeys);
    var n := t + |page| - |again|;
    assert page == again + all[t..n];
  }

  lemma {:induction false} UndelimitedItems(ks: seq<Bytes>, prefix: Bytes, i: nat)
    requires i <= |ks|
    ensures KeysIn(ItemsFrom(ks, prefix, [], i)) == ks[i..RunEnd(ks, prefix, i)]
    ensures GroupsIn(ItemsFrom(ks, prefix, [], i)) == []
    ensures forall item :: item in ItemsFrom(ks, prefix, [], i) ==> item.Key?
    decreases |ks| - i
  {
    if i < |ks| && HasPrefix(ks[i], prefix) {
      UndelimitedItems(ks, prefix, i + 1);
    }
  }

  /**
   * From any marker, a key of the bucket or not, a listing without a delimiter has the
   * keys with the prefix after the marker, each exactly if no key without the prefix lies
   * between the marker and it.
   */
  lemma ListedFromMarker(ks: seq<Bytes>, prefix: Bytes, marker: Bytes, k: Bytes)
    requires Sorted(ks) && marker != []
    ensures k in KeysIn(ItemsFrom(ks, prefix, [], Start(ks, prefix, marker))) <==>
      && k in ks && HasPrefix(k, prefix) && Less(marker, k)
      && forall x :: x in ks && Less(marker, x) && Less(x, k) ==> HasPrefix(x, prefix)
  {
    hide Less, HasPrefix, Sorted, KeysIn, ItemsFrom, Start, RunEnd;
    var s := Start(ks, prefix, marker);
    var e := RunEnd(ks, prefix, s);
    UndelimitedItems(ks, prefix, s);
    forall j | 0 <= j < |ks|
      ensures s <= j <==> Less(marker, ks[j])
    {
      StartSplits(ks, prefix, marker, j);
    }
    if k in ks {
      var j :| 0 <= j < |ks| && ks[j] == k;
      InSlice(ks, s, e, j);
      if s <= j { ReachedByRun(ks, prefix, s, j); }
      if s <= j < e {
        forall x | x in ks && Less(marker, x) && Less(x, k)
          ensures HasPrefix(x, prefix)
        {
          var i :| 0 <= i < |ks| && ks[i] == x;
          if j <= i { NotBefore(ks, j, i); }
        }
      } else if s <= j {
        assert ks[e] in ks && (e == j || Less(ks[e], k));
      }
    }
  }

  lemma StartSplits(ks: seq<Bytes>, prefix: Bytes, marker: Bytes, j: nat)
    requires Sorted(ks) && marker != [] && j < |ks|
    ensures Start(ks, prefix, marker) <= j <==> Less(marker, ks[j])
  {
    hide Less, Sorted, Seek;
    SplitAt(ks, marker, j);
  }

  lemma InSlice(ks: seq<Bytes>, s: nat, e: nat, j: nat)
    requires Sorted(ks) && s <= e <= |ks| && j < |ks|
    ensures ks[j] in ks[s..e] <==> s <= j < e
  {
    hide Less, Sorted;
    if s <= j < e { assert ks[s..e][j - s] == ks[j]; }
    if ks[j] in ks[s..e] {
      var i :| 0 <= i < e - s && ks[s..e][i] == ks[j];
      OneIndex(ks, s + i, j);
    }
  }

  lemma ReachedByRun(ks: seq<Bytes>, prefix: Bytes, s: nat, j: nat)
    requires Sorted(ks) && s <= j < |ks|
    ensures var e := RunEnd(ks, prefix, s);
      && (j < e ==> forall i :: s <= i <= j ==> HasPrefix(ks[i], prefix))
      && (e <= j ==> e < |ks| && !HasPrefix(ks[e], prefix) && (e == j || Less(ks[e], ks[j])))
  {
    hide Less, HasPrefix;
  }

  lemma NotBefore(ks: seq<Bytes>, j: nat, i: nat)
    requires Sorted(ks) && j <= i < |ks|
    ensures !Less(ks[i], ks[j])
  {
    if j < i { LessAsymmetric(ks[j], ks[i]); } else { LessIrreflexive(ks[i]); }
  }

  lemma OneIndex(ks: seq<Bytes>, i: nat, j: nat)
    requires Sorted(ks) && i < |ks| && j < |ks| && ks[i] == ks[j]
    ensures i == j
  {
    LessIrreflexive(ks[i]);
  }

  /** Without a delimiter a listing is the run of the keys with the prefix, in byte order, each once. */
  lemma UndelimitedListing(ks: seq<Bytes>, prefix: Bytes)
    requires Sorted(ks)
    ensures var listed := KeysIn(ItemsFrom(ks, prefix, [], Start(ks, prefix, [])));
      Sorted(listed) && forall k :: k in listed <==> k in ks && HasPrefix(k, prefix)
  {
    hide Less, HasPrefix, Sorted, Start;
    var i := Start(ks, prefix, []);
    UndelimitedItems(ks, prefix, i);
    var e := RunEnd(ks, prefix, i);
    SortedSlice(ks, i, e);
    assert forall x :: i <= x < e ==> ks[i..e][x - i] == ks[x];
    forall k | k in ks && HasPrefix(k, prefix)
      ensures k in ks[i..e]
    {
      KeyInRun(ks, prefix, k);
    }
  }

  lemma SortedSlice(ks: seq<Bytes>, i: nat, e: nat)
    requires Sorted(ks) && i <= e <= |ks|
    ensures Sorted(ks[i..e])
  {
    hide Less;
  }

  lemma KeyInRun(ks: seq<Bytes>, prefix: Bytes, k: Bytes)
    requires Sorted(ks) && k in ks && HasPrefix(k, prefix)
    ensures var i := Start(ks, prefix, []); k in ks[i..RunEnd(ks, prefix, i)]
  {
    hide Less, HasPrefix, Sorted;
    var i := Start(ks, prefix, []);
    var j :| 0 <= j < |ks| && ks[j] == k;
    var s, f := PrefixRun(ks, prefix, j);
    SeekPrefix(ks, prefix, s);
    assert s == i;
    RunIsContiguous(ks, prefix, i);
    assert ks[i..RunEnd(ks, prefix, i)][j - i] == k;
  }

  /** What has been delivered after `t` items: their objects, and their groups up to immediate repeats. */
  ghost predicate Delivered(
    b: map<Bytes, ObjectMeta>, all: seq<Item>, t: nat, contents: seq<ObjectInfo>, prefixes: seq<Bytes>)
  {
    && t <= |all|
    && (forall k :: k in KeysIn(all[..t]) ==> k in b)
    && contents == Infos(b, KeysIn(all[..t]))
    && Squeeze(prefixes) == GroupsIn(all[..t])
    && EndsWell(all, t, prefixes)
  }

  lemma Deliver(
    b: map<Bytes, ObjectMeta>, ks: seq<Bytes>, all: seq<Item>, t: nat, n: nat,
    contents: seq<ObjectInfo>, prefixes: seq<Bytes>)
    requires Distinct(all) && t <= n <= |all| && Delivered(b, all, t, contents, prefixes)
    requires forall k :: k in KeysIn(Again(ks, all, t) + all[t..n]) ==> k in b
    ensures var page := Again(ks, all, t) + all[t..n];
      Delivered(b, all, n, contents + Infos(b, KeysIn(page)), prefixes + GroupsIn(page))
  {
    var more := all[t..n];
    var again := Again(ks, all, t);
    assert all[..n] == all[..t] + more;
    KeysInAppend(all[..t], more);
    GroupsInAppend(all[..t], more);
    KeysInAppend(again, more);
    GroupsInAppend(again, more);
    DeliveredKeys(ks, all, t);
    assert KeysIn(again + more) == KeysIn(more);
    InfosAppend(b, KeysIn(all[..t]), KeysIn(more));
    DeliveredGroups(ks, all, t, n, prefixes);
  }

  lemma DeliveredKeys(ks: seq<Bytes>, all: seq<Item>, t: nat)
    requires t <= |all|
    ensures KeysIn(Again(ks, all, t)) == []
    ensures Again(ks, all, t) == [] ==> GroupsIn(Again(ks, all, t)) == []
    ensures Again(ks, all, t) != [] ==> t > 0 && all[t - 1].Group? && GroupsIn(Again(ks, all, t)) == [all[t - 1].prefix]
  {
  }

  lemma DistinctSlice<T(!new)>(s: seq<T>, i: nat, j: nat)
    requires Distinct(s) && i <= j <= |s|
    ensures Distinct(s[i..j])
  {
  }

  /** The last group delivered is a delivered item, and the last item if that is a group. */
  ghost predicate EndsWell(all: seq<Item>, t: nat, prefixes: seq<Bytes>)
    requires t <= |all|
  {
    && (prefixes != [] ==> Group(prefixes[|prefixes| - 1]) in all[..t])
    && (t > 0 && all[t - 1].Group? ==> prefixes != [] && prefixes[|prefixes| - 1] == all[t - 1].prefix)
  }

  lemma DeliveredGroups(ks: seq<Bytes>, all: seq<Item>, t: nat, n: nat, prefixes: seq<Bytes>)
    requires Distinct(all) && t <= n <= |all|
    requires Squeeze(prefixes) == GroupsIn(all[..t]) && EndsWell(all, t, prefixes)
    ensures var now := prefixes + GroupsIn(Again(ks, all, t) + all[t..n]);
      Squeeze(now) == GroupsIn(all[..n]) && EndsWell(all, n, now)
  {
    hide Squeeze, NoAdjacentRepeat, Distinct, Again, GroupsIn, EndsWell;
    var more, again := all[t..n], Again(ks, all, t);
    GroupsInAppend(again, more);
    assert all[..n] == all[..t] + more;
    GroupsInAppend(all[..t], more);
    DistinctSlice(all, t, n);
    GroupsAreDistinct(more);
    DeliveredKeys(ks, all, t);
    EndsWellAfter(all, t, n, prefixes, GroupsIn(again));
    if again != [] {
      GroupAgain(all, t, n, prefixes);
    } else {
      assert again + more == more;
      GroupsAfresh(all, t, n, prefixes);
    }
  }

  lemma EndsWellAfter(all: seq<Item>, t: nat, n: nat, prefixes: seq<Bytes>, again: seq<Bytes>)
    requires t <= n <= |all| && EndsWell(all, t, prefixes)
    requires again == [] || (t > 0 && all[t - 1].Group? && again == [all[t - 1].prefix])
    ensures EndsWell(all, n, prefixes + (again + GroupsIn(all[t..n])))
  {
    hide GroupsIn;
    var more := all[t..n];
    GroupMembers(more);
    LastGroup(more);
    var groups := GroupsIn(more);
    assert forall x :: x in more || x in all[..t] ==> x in all[..n];
  }

  lemma {:induction false} GroupMembers(items: seq<Item>)
    ensures forall p :: p in GroupsIn(items) <==> Group(p) in items
  {
    if items != [] {
      GroupMembers(items[1..]);
      assert items == [items[0]] + items[1..];
    }
  }

  lemma GroupAgain(all: seq<Item>, t: nat, n: nat, prefixes: seq<Bytes>)
    requires Distinct(all) && 0 < t <= n <= |all| && EndsWell(all, t, prefixes) && all[t - 1].Group?
    ensures Squeeze(prefixes + ([all[t - 1].prefix] + GroupsIn(all[t..n]))) == Squeeze(prefixes) + GroupsIn(all[t..n])
  {
    hide Squeeze, NoAdjacentRepeat, Distinct;
    assert all[t - 1..n] == [all[t - 1]] + all[t..n];
    DistinctSlice(all, t - 1, n);
    GroupsAreDistinct(all[t - 1..n]);
    GroupsInAppend([all[t - 1]], all[t..n]);
    assert GroupsIn([all[t - 1]]) == [all[t - 1].prefix];
    SqueezeRepeat(prefixes, GroupsIn(all[t..n]));
  }

  lemma GroupsAfresh(all: seq<Item>, t: nat, n: nat, prefixes: seq<Bytes>)
    requires Distinct(all) && t <= n <= |all| && EndsWell(all, t, prefixes)
    ensures Squeeze(prefixes + GroupsIn(all[t..n])) == Squeeze(prefixes) + GroupsIn(all[t..n])
  {
    hide Squeeze, NoAdjacentRepeat, Distinct, GroupsIn;
    var groups := GroupsIn(all[t..n]);
    DistinctSlice(all, t, n);
    GroupsAreDistinct(all[t..n]);
    if prefixes != [] && groups != [] {
      DistinctHalves(all, t, n, Group(prefixes[|prefixes| - 1]), Group(groups[0]));
    }
    SqueezeAppend(prefixes, groups);
  }

  lemma DistinctHalves(all: seq<Item>, t: nat, n: nat, x: Item, y: Item)
    requires Distinct(all) && t <= n <= |all| && x in all[..t] && y in all[t..n]
    ensures x != y
  {
    var i :| 0 <= i < t && all[..t][i] == x;
    var j :| 0 <= j < n - t && all[t..n][j] == y;
    assert all[i] != all[t + j];
  }

  lemma {:induction false} LastGroup(items: seq<Item>)
    ensures items != [] && items[|items| - 1].Group? ==>
      GroupsIn(items) != [] && GroupsIn(items)[|GroupsIn(items)| - 1] == items[|items| - 1].prefix
  {
    if items != [] {
      var front := items[..|items| - 1];
      assert items == front + [items[|items| - 1]];
      GroupsInAppend(front, [items[|items| - 1]]);
    }
  }

  /**
   * Following the markers of a bucket that does not change delivers every object
   * once and in order, and every group; only immediate repeats of a group are
   * delivered twice. Pages of one item do so if no listed group repeats.
   */
  method ListAll(b: map<Bytes, ObjectMeta>, prefix: Bytes, delimiter: Bytes, maxKeys: int)
    returns (contents: seq<ObjectInfo>, prefixes: seq<Bytes>, ghost pages: nat)
    requires [] !in b
    requires maxKeys >= 2 || (maxKeys == 1 && (delimiter == [] || NoneRepeats(Keys(b.Keys), prefix, delimiter)))
    ensures var all := ItemsFrom(Keys(b.Keys), prefix, delimiter, Start(Keys(b.Keys), prefix, []));
      && (forall k :: k in KeysIn(all) ==> k in b)
      && contents == Infos(b, KeysIn(all)) && Told(b, KeysIn(all), contents)
      && Squeeze(prefixes) == GroupsIn(all)
    ensures pages <= |ItemsFrom(Keys(b.Keys), prefix, delimiter, Start(Keys(b.Keys), prefix, []))| + 1
  {
    hide ItemsFrom, Delivered, Progress, Keys, Start, Page, Infos, KeysIn, GroupsIn, Distinct, Less, Sorted;
    ghost var ks := Keys(b.Keys);
    ghost var all := ItemsFrom(ks, prefix, delimiter, Start(ks, prefix, []));
    ItemsAreDistinct(ks, prefix, delimiter, Start(ks, prefix, []));
    if delimiter == [] { NothingAgain(ks, prefix); } else if maxKeys == 1 { NeverAgain(ks, prefix, delimiter); }
    contents, prefixes, pages := [], [], 0;
    var marker: Bytes := [];
    ghost var t := 0;
    BeginProgress(b, ks, prefix, delimiter);
    while true
      invariant t <= |all| && Progress(ks, prefix, delimiter, all, t, marker)
      invariant Delivered(b, all, t, contents, prefixes)
      invariant pages <= t
      decreases |all| - t
    {
      var objects, groups, next := ListObjects(b, prefix, delimiter, marker, maxKeys);
      OnePage(ks, prefix, delimiter, all, t, marker, maxKeys);
      Deliver(b, ks, all, t, After(ks, all, t, maxKeys), contents, prefixes);
      t := After(ks, all, t, maxKeys);
      contents, prefixes := contents + objects, prefixes + groups;
      pages := pages + 1;
      if next == [] {
        break;
      }
      marker := next;
    }
    DeliveredAll(b, all, contents, prefixes);
  }

  lemma DeliveredAll(b: map<Bytes, ObjectMeta>, all: seq<Item>, contents: seq<ObjectInfo>, prefixes: seq<Bytes>)
    requires Delivered(b, all, |all|, contents, prefixes)
    ensures (forall k :: k in KeysIn(all) ==> k in b)
    ensures contents == Infos(b, KeysIn(all)) && Told(b, KeysIn(all), contents)
    ensures Squeeze(prefixes) == GroupsIn(all)
  {
    assert all[..|all|] == all;
    InfosTell(b, KeysIn(all));
  }

  lemma NothingAgain(ks: seq<Bytes>, prefix: Bytes)
    ensures var all := ItemsFrom(ks, prefix, [], Start(ks, prefix, []));
      forall t: nat {:trigger Again(ks, all, t)} :: t <= |all| ==> Again(ks, all, t) == []
  {
    UndelimitedItems(ks, prefix, Start(ks, prefix, []));
    var all := ItemsFrom(ks, prefix, [], Start(ks, prefix, []));
    forall t: nat | t <= |all|
      ensures Again(ks, all, t) == []
    {
      if t > 0 { assert all[t - 1] in all; }
    }
  }

  /** No common prefix of the listing would be listed again after serving as marker. */
  ghost predicate NoneRepeats(ks: seq<Bytes>, prefix: Bytes, delimiter: Bytes) {
    forall item :: item in ItemsFrom(ks, prefix, delimiter, Start(ks, prefix, [])) ==> !Repeats(ks, item)
  }

  lemma NeverAgain(ks: seq<Bytes>, prefix: Bytes, delimiter: Bytes)
    requires NoneRepeats(ks, prefix, delimiter)
    ensures var all := ItemsFrom(ks, prefix, delimiter, Start(ks, prefix, []));
      forall t: nat {:trigger Again(ks, all, t)} :: t <= |all| ==> Again(ks, all, t) == []
  {
    hide Repeats, ItemsFrom, Start;
  }

  lemma BeginProgress(b: map<Bytes, ObjectMeta>, ks: seq<Bytes>, prefix: Bytes, delimiter: Bytes)
    ensures var all := ItemsFrom(ks, prefix, delimiter, Start(ks, prefix, []));
      Progress(ks, prefix, delimiter, all, 0, []) && Delivered(b, all, 0, [], [])
  {
  }

  /**
   * Pages of one item advance exactly as long as no listed group repeats: after a
   * group that does, the next page is the same group with the same marker.
   */
  lemma SingleItemPagesStall(ks: seq<Bytes>, prefix: Bytes, delimiter: Bytes, t: nat)
    requires Sorted(ks) && [] !in ks
    requires 0 < t <= |ItemsFrom(ks, prefix, delimiter, Start(ks, prefix, []))|
    ensures var last := ItemsFrom(ks, prefix, delimiter, Start(ks, prefix, []))[t - 1];
      var items := ItemsFrom(ks, prefix, delimiter, Start(ks, prefix, Marker(last)));
      Page(items, 1) == [last] <==> Repeats(ks, last)
  {
    hide Less, HasPrefix, Seek, ItemsFrom, Sorted, Repeats;
    var start := Start(ks, prefix, []);
    var all := ItemsFrom(ks, prefix, delimiter, start);
    StartIsBoundary(ks, prefix, delimiter);
    Resume(ks, prefix, delimiter, start, t);
    ItemsAreDistinct(ks, prefix, delimiter, start);
    var last := all[t - 1];
    if Repeats(ks, last) {
      assert ([last] + all[t..])[..1] == [last];
    } else {
      assert [] + all[t..] == all[t..];
      if t < |all| {
        assert Page(all[t..], 1) == [all[t]] && all[t] != last;
      }
    }
  }

  /** Where the page after `n` pages of one item starts, if those have not reached the end. */
  ghost function MarkerAfter(ks: seq<Bytes>, prefix: Bytes, delimiter: Bytes, n: nat): Option<Bytes> {
    if n == 0 then Some([])
    else
      var before := MarkerAfter(ks, prefix, delimiter, n - 1);
      if before.None? then None
      else
        var next := NextMarker(ItemsFrom(ks, prefix, delimiter, Start(ks, prefix, before.value)), 1);
        if next == [] then None else Some(next)
  }

  /** While no group has repeated, each page of one item passes one item. */
  lemma {:induction false} OneByOne(ks: seq<Bytes>, prefix: Bytes, delimiter: Bytes, all: seq<Item>, n: nat)
    requires Sorted(ks) && [] !in ks && all == ItemsFrom(ks, prefix, delimiter, Start(ks, prefix, [])) && n <= |all|
    requires forall t :: 0 <= t < n - 1 ==> !Repeats(ks, all[t])
    ensures MarkerAfter(ks, prefix, delimiter, n) == Some(if n == 0 then [] else Marker(all[n - 1]))
    ensures Progress(ks, prefix, delimiter, all, n, if n == 0 then [] else Marker(all[n - 1]))
  {
    hide Start, ItemsFrom, Sorted, Repeats, NextMarker, Page;
    if n == 0 {
      assert all[0..] == all && [] + all == all;
    } else {
      OneByOne(ks, prefix, delimiter, all, n - 1);
      var marker := if n == 1 then [] else Marker(all[n - 2]);
      OnePage(ks, prefix, delimiter, all, n - 1, marker, 1);
      OneItemPage(ks, all, n - 1);
    }
  }

  lemma OneItemPage(ks: seq<Bytes>, all: seq<Item>, t: nat)
    requires t < |all| && Again(ks, all, t) == []
    ensures Full(Again(ks, all, t) + all[t..], 1) && After(ks, all, t, 1) == t + 1
  {
    assert [] + all[t..] == all[t..];
  }

  /** A group that repeats is the page from then on. */
  lemma {:induction false} StallsForever(
    ks: seq<Bytes>, prefix: Bytes, delimiter: Bytes, all: seq<Item>, t: nat, n: nat)
    requires Sorted(ks) && [] !in ks && all == ItemsFrom(ks, prefix, delimiter, Start(ks, prefix, [])) && 0 < t <= |all|
    requires (forall u :: 0 <= u < t - 1 ==> !Repeats(ks, all[u])) && Repeats(ks, all[t - 1]) && t <= n
    ensures MarkerAfter(ks, prefix, delimiter, n) == Some(Marker(all[t - 1])) && Marker(all[t - 1]) != []
    decreases n
  {
    hide Start, ItemsFrom, Sorted, Repeats;
    StartIsBoundary(ks, prefix, delimiter);
    Resume(ks, prefix, delimiter, Start(ks, prefix, []), t);
    if n == t {
      OneByOne(ks, prefix, delimiter, all, t);
    } else {
      StallsForever(ks, prefix, delimiter, all, t, n - 1);
      SingleItemPagesStall(ks, prefix, delimiter, t);
    }
  }

  lemma FirstRepeat(ks: seq<Bytes>, all: seq<Item>) returns (t: nat)
    requires exists item :: item in all && Repeats(ks, item)
    ensures 0 < t <= |all| && Repeats(ks, all[t - 1]) && forall u :: 0 <= u < t - 1 ==> !Repeats(ks, all[u])
  {
    hide Repeats;
    var item :| item in all && Repeats(ks, item);
    var i :| 0 <= i < |all| && all[i] == item;
    t := 0;
    while t < i && !Repeats(ks, all[t])
      invariant t <= i && forall u :: 0 <= u < t ==> !Repeats(ks, all[u])
    {
      t := t + 1;
    }
    t := t + 1;
  }

  /** Pages of one item reach the end exactly when no listed group repeats. */
  lemma OneItemPagingEnds(ks: seq<Bytes>, prefix: Bytes, delimiter: Bytes)
    requires Sorted(ks) && [] !in ks
    ensures (exists n :: MarkerAfter(ks, prefix, delimiter, n) == None) <==> NoneRepeats(ks, prefix, delimiter)
  {
    hide Start, ItemsFrom, Sorted, Repeats, MarkerAfter;
    var all := ItemsFrom(ks, prefix, delimiter, Start(ks, prefix, []));
    if NoneRepeats(ks, prefix, delimiter) {
      OneByOne(ks, prefix, delimiter, all, |all|);
      EndsAfterAll(ks, prefix, delimiter, all);
    } else {
      var t := FirstRepeat(ks, all);
      forall n: nat
        ensures MarkerAfter(ks, prefix, delimiter, n) != None
      {
        if n < t { OneByOne(ks, prefix, delimiter, all, n); } else { StallsForever(ks, prefix, delimiter, all, t, n); }
      }
    }
  }

  lemma EndsAfterAll(ks: seq<Bytes>, prefix: Bytes, delimiter: Bytes, all: seq<Item>)
    requires Sorted(ks) && [] !in ks && all == ItemsFrom(ks, prefix, delimiter, Start(ks, prefix, []))
    requires NoneRepeats(ks, prefix, delimiter)
    requires MarkerAfter(ks, prefix, delimiter, |all|) == Some(if |all| == 0 then [] else Marker(all[|all| - 1]))
    requires Progress(ks, prefix, delimiter, all, |all|, if |all| == 0 then [] else Marker(all[|all| - 1]))
    ensures MarkerAfter(ks, prefix, delimiter, |all| + 1) == None
  {
    hide Start, ItemsFrom, Sorted, Repeats;
    assert all[|all|..] == [];
  }
}
