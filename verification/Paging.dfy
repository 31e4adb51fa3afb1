/** What a whole listing contains, and what following its markers page by page delivers. */
module Paging {
  import opened ByteStrings
  import opened Listing
  import opened ObjectTypes
  import opened Outcomes
  import opened SortedKeys

  /** The item a key contributes to a listing. */
  function ItemOf(prefix: Bytes, delimiter: Bytes, k: Bytes): Item
    requires HasPrefix(k, prefix)
  {
    match GroupOf(prefix, delimiter, k) case None => Key(k) case Some(p) => Group(p)
  }

  lemma {:induction false} ItemHasKey(ks: seq<Bytes>, prefix: Bytes, delimiter: Bytes, i: nat, item: Item)
    returns (j: nat)
    requires i <= |ks| && item in ItemsFrom(ks, prefix, delimiter, i)
    ensures i <= j < |ks| && HasPrefix(ks[j], prefix) && ItemOf(prefix, delimiter, ks[j]) == item
    decreases |ks| - i
  {
    j := i;
    if ItemOf(prefix, delimiter, ks[i]) != item {
      match GroupOf(prefix, delimiter, ks[i])
      case None => j := ItemHasKey(ks, prefix, delimiter, i + 1, item);
      case Some(p) => j := ItemHasKey(ks, prefix, delimiter, RunEnd(ks, p, i), item);
    }
  }

  lemma {:induction false} KeyHasItem(ks: seq<Bytes>, prefix: Bytes, delimiter: Bytes, i: nat, j: nat)
    requires Sorted(ks) && Seek(ks, prefix) <= i <= j < |ks| && HasPrefix(ks[j], prefix)
    ensures ItemOf(prefix, delimiter, ks[j]) in ItemsFrom(ks, prefix, delimiter, i)
    decreases |ks| - i
  {
    hide Less, HasPrefix, GroupOf;
    assert HasPrefix(ks[i], prefix) by {
      SeekSplits(ks, prefix);
      if i < j { LessAsymmetric(ks[i], ks[j]); }
      LessIrreflexive(ks[i]);
      PrefixConvex(prefix, ks[i], ks[j]);
    }
    match GroupOf(prefix, delimiter, ks[i])
    case None =>
      if i < j { KeyHasItem(ks, prefix, delimiter, i + 1, j); }
    case Some(p) =>
      var e := RunEnd(ks, p, i);
      if e <= j {
        GroupIsPrefix(prefix, delimiter, ks[i], ks[i]);
        KeyHasItem(ks, prefix, delimiter, e, j);
      } else {
        GroupIsPrefix(prefix, delimiter, ks[i], ks[j]);
      }
  }

  ghost predicate Distinct<T(!new)>(s: seq<T>) {
    forall a, b :: 0 <= a < b < |s| ==> s[a] != s[b]
  }

  lemma DistinctEmpty<T(!new)>()
    ensures Distinct<T>([])
  {
  }

  lemma DistinctAppend(item: Item, rest: seq<Item>)
    requires item !in rest && Distinct(rest)
    ensures Distinct([item] + rest)
  {
  }

  lemma {:induction false} ItemsAreDistinct(ks: seq<Bytes>, prefix: Bytes, delimiter: Bytes, i: nat)
    requires Sorted(ks) && i <= |ks|
    ensures Distinct(ItemsFrom(ks, prefix, delimiter, i))
    decreases |ks| - i
  {
    hide Less, HasPrefix, GroupOf, Distinct;
    DistinctEmpty<Item>();
    if i < |ks| && HasPrefix(ks[i], prefix) {
      var item := ItemOf(prefix, delimiter, ks[i]);
      var next := i + 1;
      if item.Group? {
        GroupIsPrefix(prefix, delimiter, ks[i], ks[i]);
        RunIsContiguous(ks, item.prefix, i);
        next := RunEnd(ks, item.prefix, i);
      }
      ItemsAreDistinct(ks, prefix, delimiter, next);
      var rest := ItemsFrom(ks, prefix, delimiter, next);
      assert ItemsFrom(ks, prefix, delimiter, i) == [item] + rest;
      if item in rest {
        var j := ItemHasKey(ks, prefix, delimiter, next, item);
        if item.Group? {
          GroupIsPrefix(prefix, delimiter, ks[i], ks[j]);
        } else {
          LessIrreflexive(ks[i]);
        }
        assert false;
      }
      DistinctAppend(item, rest);
    }
  }

  /** No delimiter occurs in the key after the prefix. */
  ghost predicate Undelimited(prefix: Bytes, delimiter: Bytes, k: Bytes) {
    delimiter == [] || forall j :: |prefix| <= j ==> !OccursAt(k, delimiter, j)
  }

  ghost predicate InOneGroup(items: seq<Item>, k: Bytes, p: Bytes) {
    Group(p) in items && HasPrefix(k, p) && forall q :: Group(q) in items && HasPrefix(k, q) ==> q == p
  }

  ghost predicate IsRun(ks: seq<Bytes>, p: Bytes, i: int, e: int) {
    0 <= i < e <= |ks| && forall j :: 0 <= j < |ks| ==> (HasPrefix(ks[j], p) <==> i <= j < e)
  }

  /**
   * A whole listing partitions the keys under the prefix. A key is listed itself
   * exactly when no delimiter follows the prefix in it; every other key is in
   * exactly one listed group; a group is the contiguous run of keys that start
   * with its common prefix; nothing is listed twice or without a key.
   */
  lemma ListingPartitions(ks: seq<Bytes>, prefix: Bytes, delimiter: Bytes)
    requires Sorted(ks)
    ensures var items := ItemsFrom(ks, prefix, delimiter, Start(ks, prefix, []));
      && Distinct(items)
      && (forall k :: Key(k) in items <==> k in ks && HasPrefix(k, prefix) && Undelimited(prefix, delimiter, k))
      && (forall k :: k in ks && HasPrefix(k, prefix) && Key(k) !in items ==> exists p :: InOneGroup(items, k, p))
      && (forall p :: Group(p) in items ==> HasPrefix(p, prefix) && exists i, e :: IsRun(ks, p, i, e))
  {
    hide Less, HasPrefix, Sorted, ItemsFrom, GroupOf, IsRun, Undelimited;
    var s := Start(ks, prefix, []);
    var items := ItemsFrom(ks, prefix, delimiter, s);
    ItemsAreDistinct(ks, prefix, delimiter, s);
    forall k
      ensures Key(k) in items <==> k in ks && HasPrefix(k, prefix) && Undelimited(prefix, delimiter, k)
    {
      if k in ks && HasPrefix(k, prefix) {
        UndelimitedIsKey(prefix, delimiter, k);
        KeyIsListed(ks, prefix, delimiter, k);
      }
      if Key(k) in items {
        var j := ItemHasKey(ks, prefix, delimiter, s, Key(k));
      }
    }
    forall k | k in ks && HasPrefix(k, prefix) && Key(k) !in items
      ensures exists p :: InOneGroup(items, k, p)
    {
      KeyIsListed(ks, prefix, delimiter, k);
      var p := GroupOf(prefix, delimiter, k).value;
      GroupIsPrefix(prefix, delimiter, k, k);
      forall q | Group(q) in items && HasPrefix(k, q)
        ensures q == p
      {
        var j := ItemHasKey(ks, prefix, delimiter, s, Group(q));
        GroupIsPrefix(prefix, delimiter, ks[j], k);
      }
      assert InOneGroup(items, k, p);
    }
    forall p | Group(p) in items
      ensures HasPrefix(p, prefix) && exists i, e :: IsRun(ks, p, i, e)
    {
      var j := ItemHasKey(ks, prefix, delimiter, s, Group(p));
      GroupIsPrefix(prefix, delimiter, ks[j], ks[j]);
      var i, e := PrefixRun(ks, p, j);
    }
  }

  lemma UndelimitedIsKey(prefix: Bytes, delimiter: Bytes, k: Bytes)
    requires HasPrefix(k, prefix)
    ensures ItemOf(prefix, delimiter, k) == Key(k) <==> Undelimited(prefix, delimiter, k)
  {
  }

  lemma KeyIsListed(ks: seq<Bytes>, prefix: Bytes, delimiter: Bytes, k: Bytes)
    requires Sorted(ks) && k in ks && HasPrefix(k, prefix)
    ensures ItemOf(prefix, delimiter, k) in ItemsFrom(ks, prefix, delimiter, Start(ks, prefix, []))
  {
    var j :| 0 <= j < |ks| && ks[j] == k;
    PrefixNotGreater(k, prefix);
    KeyHasItem(ks, prefix, delimiter, Seek(ks, prefix), j);
  }

  /** The keys with a prefix form one run. */
  lemma PrefixRun(ks: seq<Bytes>, p: Bytes, j: nat) returns (i: nat, e: nat)
    requires Sorted(ks) && j < |ks| && HasPrefix(ks[j], p)
    ensures IsRun(ks, p, i, e)
  {
    hide Less, HasPrefix;
    i := j;
    while i > 0 && HasPrefix(ks[i - 1], p)
      invariant i <= j && forall x :: i <= x <= j ==> HasPrefix(ks[x], p)
    {
      i := i - 1;
    }
    SeekPrefix(ks, p, i);
    e := RunEnd(ks, p, i);
    RunIsContiguous(ks, p, i);
    forall x | 0 <= x < i
      ensures !HasPrefix(ks[x], p)
    {
      if HasPrefix(ks[x], p) { PrefixNotGreater(ks[x], p); }
    }
  }

  /** Index `i` does not fall inside the run of the group that its key belongs to. */
  ghost predicate AtBoundary(ks: seq<Bytes>, prefix: Bytes, delimiter: Bytes, i: nat)
    requires i <= |ks|
  {
    0 < i < |ks| && HasPrefix(ks[i], prefix) && GroupOf(prefix, delimiter, ks[i]).Some? ==>
      !HasPrefix(ks[i - 1], GroupOf(prefix, delimiter, ks[i]).value)
  }

  lemma StartIsBoundary(ks: seq<Bytes>, prefix: Bytes, delimiter: Bytes)
    requires Sorted(ks)
    ensures AtBoundary(ks, prefix, delimiter, Start(ks, prefix, []))
  {
    hide Less;
    var i := Start(ks, prefix, []);
    if 0 < i < |ks| && HasPrefix(ks[i], prefix) && GroupOf(prefix, delimiter, ks[i]).Some? {
      var p := GroupOf(prefix, delimiter, ks[i]).value;
      if HasPrefix(ks[i - 1], p) {
        GroupIsPrefix(prefix, delimiter, ks[i], ks[i - 1]);
        PrefixNotGreater(ks[i - 1], prefix);
      }
    }
  }

  lemma NextIsBoundary(ks: seq<Bytes>, prefix: Bytes, delimiter: Bytes, i: nat)
    requires Sorted(ks) && i < |ks| && HasPrefix(ks[i], prefix)
    ensures var item := ItemOf(prefix, delimiter, ks[i]);
      AtBoundary(ks, prefix, delimiter, if item.Key? then i + 1 else RunEnd(ks, item.prefix, i))
  {
    hide Less, HasPrefix, GroupOf;
    var item := ItemOf(prefix, delimiter, ks[i]);
    GroupBasics(prefix, delimiter, ks[i]);
    var n := if item.Key? then i + 1 else RunEnd(ks, item.prefix, i);
    if n < |ks| && HasPrefix(ks[n], prefix) && GroupOf(prefix, delimiter, ks[n]).Some? {
      GroupIsPrefix(prefix, delimiter, ks[n], ks[n - 1]);
      if item.Group? {
        GroupIsPrefix(prefix, delimiter, ks[i], ks[n - 1]);
        GroupIsPrefix(prefix, delimiter, ks[n], ks[n]);
      }
    }
  }

  lemma GroupBasics(prefix: Bytes, delimiter: Bytes, k: Bytes)
    requires HasPrefix(k, prefix)
    ensures var g := GroupOf(prefix, delimiter, k); g.Some? ==> HasPrefix(k, g.value) && g.value != []
  {
  }

  /** A listing shows a group again after its common prefix served as marker when it holds another key. */
  ghost predicate Repeats(ks: seq<Bytes>, item: Item) {
    item.Group? && exists k :: k in ks && HasPrefix(k, item.prefix) && k != item.prefix
  }

  /**
   * Resuming after the first `t` items from the marker of the last of them gives the
   * items that remain, preceded by that last item again exactly if it is a group
   * with a key other than its common prefix.
   */
  lemma {:induction false} Resume(ks: seq<Bytes>, prefix: Bytes, delimiter: Bytes, i: nat, t: nat)
    requires Sorted(ks) && [] !in ks && i <= |ks| && AtBoundary(ks, prefix, delimiter, i)
    requires 0 < t <= |ItemsFrom(ks, prefix, delimiter, i)|
    ensures var items := ItemsFrom(ks, prefix, delimiter, i);
      var last := items[t - 1];
      Marker(last) != [] &&
      ItemsFrom(ks, prefix, delimiter, Start(ks, prefix, Marker(last))) ==
        (if Repeats(ks, last) then [last] else []) + items[t..]
    decreases |ks| - i
  {
    hide Less, HasPrefix, GroupOf, AtBoundary, Repeats;
    var item := ItemOf(prefix, delimiter, ks[i]);
    GroupBasics(prefix, delimiter, ks[i]);
    var next := if item.Key? then i + 1 else RunEnd(ks, item.prefix, i);
    var items := ItemsFrom(ks, prefix, delimiter, i);
    var rest := ItemsFrom(ks, prefix, delimiter, next);
    assert items == [item] + rest;
    if t > 1 {
      NextIsBoundary(ks, prefix, delimiter, i);
      Resume(ks, prefix, delimiter, next, t - 1);
      assert items[t - 1] == rest[t - 2] && items[t..] == rest[t - 1..];
    } else {
      assert items[t..] == rest;
      if item.Key? {
        SeekFinds(ks, i);
        assert !Repeats(ks, item) by { KeysDoNotRepeat(ks, item); }
      } else {
        ResumeGroup(ks, prefix, delimiter, i, item.prefix);
      }
    }
  }

  lemma KeysDoNotRepeat(ks: seq<Bytes>, item: Item)
    ensures item.Key? ==> !Repeats(ks, item)
  {
  }

  lemma ResumeGroup(ks: seq<Bytes>, prefix: Bytes, delimiter: Bytes, i: nat, p: Bytes)
    requires Sorted(ks) && i < |ks| && HasPrefix(ks[i], prefix) && AtBoundary(ks, prefix, delimiter, i)
    requires GroupOf(prefix, delimiter, ks[i]) == Some(p) && p != []
    ensures ItemsFrom(ks, prefix, delimiter, Start(ks, prefix, p)) ==
      (if Repeats(ks, Group(p)) then [Group(p)] else []) + ItemsFrom(ks, prefix, delimiter, RunEnd(ks, p, i))
  {
    hide Less, HasPrefix, GroupOf;
    GroupBasics(prefix, delimiter, ks[i]);
    SeekPrefix(ks, p, i);
    var e := RunEnd(ks, p, i);
    RunIsContiguous(ks, p, i);
    if ks[i] != p {
      assert Repeats(ks, Group(p));
    } else if i + 1 < e {
      LessIrreflexive(p);
      assert HasPrefix(ks[i + 1], p) && ks[i + 1] in ks;
      assert Repeats(ks, Group(p));
      GroupIsPrefix(prefix, delimiter, ks[i], ks[i + 1]);
      assert RunEnd(ks, p, i + 1) == e;
    } else {
      if Repeats(ks, Group(p)) {
        var k :| k in ks && HasPrefix(k, p) && k != p;
        var j :| 0 <= j < |ks| && ks[j] == k;
        if j < i { PrefixNotGreater(k, p); }
        assert false;
      }
    }
  }

  /** A list without the elements that equal their predecessor. */
  function Squeeze(s: seq<Bytes>): seq<Bytes> {
    if |s| < 2 then s
    else if s[|s| - 1] == s[|s| - 2] then Squeeze(s[..|s| - 1])
    else Squeeze(s[..|s| - 1]) + [s[|s| - 1]]
  }

  ghost predicate NoAdjacentRepeat(s: seq<Bytes>) {
    forall i :: 0 < i < |s| ==> s[i] != s[i - 1]
  }

  lemma SqueezePush(s: seq<Bytes>, x: Bytes)
    ensures Squeeze(s + [x]) == if s != [] && s[|s| - 1] == x then Squeeze(s) else Squeeze(s) + [x]
  {
    assert (s + [x])[..|s|] == s;
  }

  lemma {:induction false} SqueezeAppend(s: seq<Bytes>, t: seq<Bytes>)
    requires NoAdjacentRepeat(t) && (s != [] && t != [] ==> s[|s| - 1] != t[0])
    ensures Squeeze(s + t) == Squeeze(s) + t
  {
    hide Squeeze;
    if t == [] {
      assert s + t == s;
    } else {
      var front, x := t[..|t| - 1], t[|t| - 1];
      SqueezeAppend(s, front);
      SqueezePush(s + front, x);
      assert s + t == (s + front) + [x];
      assert t == front + [x];
      assert Squeeze(s) + t == (Squeeze(s) + front) + [x];
    }
  }

  /** Repeating the last element in front of what follows changes nothing. */
  lemma SqueezeRepeat(s: seq<Bytes>, t: seq<Bytes>)
    requires s != [] && NoAdjacentRepeat([s[|s| - 1]] + t)
    ensures Squeeze(s + ([s[|s| - 1]] + t)) == Squeeze(s) + t
  {
    hide Squeeze;
    var x := s[|s| - 1];
    var again := s + [x];
    SqueezePush(s, x);
    var u := [x] + t;
    assert u[1..] == t;
    assert t != [] ==> u[1] != u[0];
    assert NoAdjacentRepeat(t) by {
      forall i | 0 < i < |t| ensures t[i] != t[i - 1] { assert u[i + 1] != u[i]; }
    }
    SqueezeAppend(again, t);
    assert s + u == again + t;
  }

  lemma {:induction false} GroupsAreDistinct(items: seq<Item>)
    requires Distinct(items)
    ensures NoAdjacentRepeat(GroupsIn(items))
    ensures forall p :: p in GroupsIn(items) <==> Group(p) in items
  {
    if items != [] {
      var rest := items[1..];
      GroupsAreDistinct(rest);
      if items[0].Group? {
        assert items[0] !in rest;
        assert GroupsIn(items) == [items[0].prefix] + GroupsIn(rest);
      }
      assert items == [items[0]] + rest;
    }
  }
}
