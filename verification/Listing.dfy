/** ListObjects: one page of a bucket's keys, with groups folded into common prefixes. */
module Listing {
  import opened ByteStrings
  import opened ObjectTypes
  import opened Outcomes
  import opened SortedKeys

  datatype Item = Key(key: Bytes) | Group(prefix: Bytes)

  /** The common prefix a key folds into: up to the first delimiter after the prefix. */
  function GroupOf(prefix: Bytes, delimiter: Bytes, k: Bytes): (r: Option<Bytes>)
    requires HasPrefix(k, prefix)
    ensures r.Some? ==>
      HasPrefix(k, r.value) && HasPrefix(r.value, prefix) && |r.value| >= |prefix| + |delimiter| > |prefix|
  {
    if delimiter == [] then None
    else
      match IndexFrom(k, delimiter, |prefix|)
      case None => None
      case Some(j) =>
        assert k[..j + |delimiter|][..|prefix|] == k[..|prefix|];
        Some(k[..j + |delimiter|])
  }

  /** Exactly the keys that start with a group's common prefix fold into that group. */
  lemma GroupIsPrefix(prefix: Bytes, delimiter: Bytes, k: Bytes, other: Bytes)
    requires HasPrefix(k, prefix) && GroupOf(prefix, delimiter, k).Some?
    ensures var p := GroupOf(prefix, delimiter, k).value;
      HasPrefix(other, p) <==> HasPrefix(other, prefix) && GroupOf(prefix, delimiter, other) == Some(p)
  {
    var p := GroupOf(prefix, delimiter, k).value;
    if HasPrefix(other, p) {
      assert other[..|prefix|] == p[..|prefix|] == k[..|prefix|];
      var j := |p| - |delimiter|;
      forall i: nat | i <= j
        ensures OccursAt(other, delimiter, i) <==> OccursAt(k, delimiter, i)
      {
        OccursInPrefix(other, k, p, delimiter, i);
      }
      assert IndexFrom(k, delimiter, |prefix|) == Some(j);
      assert IndexFrom(other, delimiter, |prefix|) == Some(j);
      assert other[..j + |delimiter|] == p;
    }
  }

  /** The items of the listing from index `i` on: each key outside any group, each group once. */
  function ItemsFrom(ks: seq<Bytes>, prefix: Bytes, delimiter: Bytes, i: nat): seq<Item>
    requires i <= |ks|
    decreases |ks| - i
  {
    if i == |ks| || !HasPrefix(ks[i], prefix) then []
    else
      match GroupOf(prefix, delimiter, ks[i])
      case None => [Key(ks[i])] + ItemsFrom(ks, prefix, delimiter, i + 1)
      case Some(p) => [Group(p)] + ItemsFrom(ks, prefix, delimiter, RunEnd(ks, p, i))
  }

  /** Where the cursor stands before the first key of a page. */
  function Start(ks: seq<Bytes>, prefix: Bytes, marker: Bytes): (i: nat)
    ensures i <= |ks|
  {
    if marker != [] then
      var i := Seek(ks, marker);
      if i < |ks| && ks[i] == marker then i + 1 else i
    else Seek(ks, prefix)
  }

  /** A page holds `maxKeys` items, and one even when `maxKeys` is not positive. */
  function Page<T>(items: seq<T>, maxKeys: int): (page: seq<T>)
    ensures page <= items
  {
    var n := if maxKeys < 1 then 1 else maxKeys;
    if |items| <= n then items else items[..n]
  }

  predicate Full<T>(items: seq<T>, maxKeys: int) {
    |items| >= if maxKeys < 1 then 1 else maxKeys
  }

  function Marker(item: Item): Bytes {
    match item case Key(k) => k case Group(p) => p
  }

  function NextMarker(items: seq<Item>, maxKeys: int): Bytes {
    if Full(items, maxKeys) then var page := Page(items, maxKeys); Marker(page[|page| - 1]) else []
  }

  function KeysIn(items: seq<Item>): seq<Bytes> {
    if items == [] then []
    else (if items[0].Key? then [items[0].key] else []) + KeysIn(items[1..])
  }

  function GroupsIn(items: seq<Item>): seq<Bytes> {
    if items == [] then []
    else (if items[0].Group? then [items[0].prefix] else []) + GroupsIn(items[1..])
  }

  function Infos(b: map<Bytes, ObjectMeta>, ks: seq<Bytes>): seq<ObjectInfo>
    requires forall k :: k in ks ==> k in b
  {
    if ks == [] then [] else [Info(ks[0], b[ks[0]])] + Infos(b, ks[1..])
  }

  /** The entries for some keys tell, one by one, what is recorded under them. */
  ghost predicate Told(b: map<Bytes, ObjectMeta>, ks: seq<Bytes>, infos: seq<ObjectInfo>) {
    |infos| == |ks| &&
    forall i :: 0 <= i < |ks| ==>
      && ks[i] in b && infos[i].key == ks[i] && infos[i].versionId == b[ks[i]].versionId
      && infos[i].isLatest == b[ks[i]].isLatest && infos[i].isDeleteMarker == b[ks[i]].isDeleteMarker
      && infos[i].lastModified == b[ks[i]].lastModified && infos[i].etag == b[ks[i]].etag
      && infos[i].size == b[ks[i]].size
  }

  lemma {:induction false} InfosTell(b: map<Bytes, ObjectMeta>, ks: seq<Bytes>)
    requires forall k :: k in ks ==> k in b
    ensures Told(b, ks, Infos(b, ks))
  {
    if ks != [] { InfosTell(b, ks[1..]); }
  }

  lemma {:induction false} KeysInAppend(items: seq<Item>, more: seq<Item>)
    ensures KeysIn(items + more) == KeysIn(items) + KeysIn(more)
  {
    if items == [] {
      assert items + more == more;
    } else {
      assert (items + more)[1..] == items[1..] + more;
      KeysInAppend(items[1..], more);
    }
  }

  lemma {:induction false} GroupsInAppend(items: seq<Item>, more: seq<Item>)
    ensures GroupsIn(items + more) == GroupsIn(items) + GroupsIn(more)
  {
    if items == [] {
      assert items + more == more;
    } else {
      assert (items + more)[1..] == items[1..] + more;
      GroupsInAppend(items[1..], more);
    }
  }

  lemma {:induction false} InfosAppend(b: map<Bytes, ObjectMeta>, ks: seq<Bytes>, more: seq<Bytes>)
    requires forall k :: k in ks + more ==> k in b
    ensures (forall k :: k in ks ==> k in b) && (forall k :: k in more ==> k in b)
    ensures Infos(b, ks + more) == Infos(b, ks) + Infos(b, more)
  {
    forall k | k in ks || k in more ensures k in b { assert k in ks + more; }
    if ks == [] {
      assert ks + more == more;
    } else {
      assert (ks + more)[1..] == ks[1..] + more;
      InfosAppend(b, ks[1..], more);
    }
  }

  /** A walk over the keys of a bucket: where it is, what it has emitted and which groups it has met. */
  datatype Walk = Walk(c: nat, next: nat, done: seq<Item>, seen: set<Bytes>)

  /**
   * What a walk knows on the way to listing `items`: up to `next` every key
   * belongs to a group it has met, from there on none does, and the items from
   * `next` on are the ones it still owes.
   */
  ghost predicate Walking(ks: seq<Bytes>, prefix: Bytes, delimiter: Bytes, items: seq<Item>, w: Walk) {
    && w.c <= w.next <= |ks|
    && items == w.done + ItemsFrom(ks, prefix, delimiter, w.next)
    && (forall i :: w.c <= i < w.next ==>
          HasPrefix(ks[i], prefix) && (var g := GroupOf(prefix, delimiter, ks[i]); g.Some? && g.value in w.seen))
    && (forall p, i :: p in w.seen && w.next <= i < |ks| ==> !HasPrefix(ks[i], p))
  }

  lemma WalkPastMember(ks: seq<Bytes>, prefix: Bytes, delimiter: Bytes, items: seq<Item>, w: Walk)
    requires Walking(ks, prefix, delimiter, items, w) && w.c < |ks| && HasPrefix(ks[w.c], prefix)
    requires var g := GroupOf(prefix, delimiter, ks[w.c]); g.Some? && g.value in w.seen
    ensures Walking(ks, prefix, delimiter, items, w.(c := w.c + 1))
  {
  }

  lemma WalkPastKey(ks: seq<Bytes>, prefix: Bytes, delimiter: Bytes, items: seq<Item>, w: Walk)
    requires Walking(ks, prefix, delimiter, items, w) && w.c < |ks| && HasPrefix(ks[w.c], prefix)
    requires GroupOf(prefix, delimiter, ks[w.c]) == None
    ensures Walking(ks, prefix, delimiter, items, Walk(w.c + 1, w.c + 1, w.done + [Key(ks[w.c])], w.seen))
    ensures w.done + [Key(ks[w.c])] <= items
  {
    assert w.c == w.next;
  }

  lemma WalkIntoGroup(ks: seq<Bytes>, prefix: Bytes, delimiter: Bytes, items: seq<Item>, w: Walk, p: Bytes)
    requires Sorted(ks) && Walking(ks, prefix, delimiter, items, w)
    requires w.c < |ks| && HasPrefix(ks[w.c], prefix) && GroupOf(prefix, delimiter, ks[w.c]) == Some(p)
    requires p !in w.seen
    ensures Walking(ks, prefix, delimiter, items,
              Walk(w.c + 1, RunEnd(ks, p, w.c), w.done + [Group(p)], w.seen + {p}))
    ensures w.done + [Group(p)] <= items
  {
    hide HasPrefix, GroupOf, Sorted, Less;
    assert w.c == w.next;
    var e := RunEnd(ks, p, w.c);
    GroupIsPrefix(prefix, delimiter, ks[w.c], ks[w.c]);
    RunIsContiguous(ks, p, w.c);
    forall i | w.c <= i < e
      ensures HasPrefix(ks[i], prefix) && GroupOf(prefix, delimiter, ks[i]) == Some(p)
    {
      GroupIsPrefix(prefix, delimiter, ks[w.c], ks[i]);
    }
  }

  lemma WalkEnds(ks: seq<Bytes>, prefix: Bytes, delimiter: Bytes, items: seq<Item>, w: Walk)
    requires Walking(ks, prefix, delimiter, items, w)
    requires w.c == |ks| || !HasPrefix(ks[w.c], prefix)
    ensures items == w.done
  {
  }

  /** The two result lists hold the items emitted so far. */
  ghost predicate Collected(
    b: map<Bytes, ObjectMeta>, done: seq<Item>, objects: seq<ObjectInfo>, commonPrefixes: seq<Bytes>)
  {
    && (forall k :: k in KeysIn(done) ==> k in b)
    && objects == Infos(b, KeysIn(done))
    && commonPrefixes == GroupsIn(done)
    && |objects| + |commonPrefixes| == |done|
  }

  lemma CollectNothing(b: map<Bytes, ObjectMeta>)
    ensures Collected(b, [], [], [])
  {
  }

  lemma CollectKey(
    b: map<Bytes, ObjectMeta>, done: seq<Item>, objects: seq<ObjectInfo>, commonPrefixes: seq<Bytes>, k: Bytes)
    requires Collected(b, done, objects, commonPrefixes) && k in b
    ensures Collected(b, done + [Key(k)], objects + [Info(k, b[k])], commonPrefixes)
  {
    KeysInAppend(done, [Key(k)]);
    GroupsInAppend(done, [Key(k)]);
    assert KeysIn([Key(k)]) == [k] && GroupsIn([Key(k)]) == [];
    assert Infos(b, [k]) == [Info(k, b[k])];
    InfosAppend(b, KeysIn(done), [k]);
  }

  lemma CollectGroup(
    b: map<Bytes, ObjectMeta>, done: seq<Item>, objects: seq<ObjectInfo>, commonPrefixes: seq<Bytes>, p: Bytes)
    requires Collected(b, done, objects, commonPrefixes)
    ensures Collected(b, done + [Group(p)], objects, commonPrefixes + [p])
  {
    KeysInAppend(done, [Group(p)]);
    GroupsInAppend(done, [Group(p)]);
    assert KeysIn([Group(p)]) == [] && GroupsIn([Group(p)]) == [p];
    assert KeysIn(done + [Group(p)]) == KeysIn(done);
  }

  lemma WalkBegins(ks: seq<Bytes>, prefix: Bytes, delimiter: Bytes, c: nat)
    requires c <= |ks|
    ensures Walking(ks, prefix, delimiter, ItemsFrom(ks, prefix, delimiter, c), Walk(c, c, [], {}))
  {
  }

  /**
   * The results of one page: the first items of the listing, each key told as it is
   * recorded, and a marker when it is full.
   */
  ghost predicate IsPage(
    b: map<Bytes, ObjectMeta>, items: seq<Item>, maxKeys: int,
    objects: seq<ObjectInfo>, commonPrefixes: seq<Bytes>, nextMarker: Bytes)
  {
    var page := Page(items, maxKeys);
    && (forall k :: k in KeysIn(page) ==> k in b)
    && objects == Infos(b, KeysIn(page))
    && Told(b, KeysIn(page), objects)
    && commonPrefixes == GroupsIn(page)
    && nextMarker == NextMarker(items, maxKeys)
  }

  lemma PageIsFull(
    b: map<Bytes, ObjectMeta>, items: seq<Item>, done: seq<Item>, maxKeys: int,
    objects: seq<ObjectInfo>, commonPrefixes: seq<Bytes>)
    requires Collected(b, done, objects, commonPrefixes) && done <= items
    requires done != [] && |done| >= maxKeys && (|done| == 1 || |done| == maxKeys)
    ensures IsPage(b, items, maxKeys, objects, commonPrefixes, Marker(done[|done| - 1]))
  {
    assert Page(items, maxKeys) == done;
    InfosTell(b, KeysIn(done));
  }

  lemma PageIsLast(
    b: map<Bytes, ObjectMeta>, items: seq<Item>, maxKeys: int,
    objects: seq<ObjectInfo>, commonPrefixes: seq<Bytes>)
    requires Collected(b, items, objects, commonPrefixes) && (items != [] ==> |items| < maxKeys)
    ensures IsPage(b, items, maxKeys, objects, commonPrefixes, [])
  {
    InfosTell(b, KeysIn(items));
  }

  /**
   * One page. The cursor walks every key and a set remembers the groups met; the
   * result is the first items of the listing that folds each group where it starts.
   */
  method ListObjects(b: map<Bytes, ObjectMeta>, prefix: Bytes, delimiter: Bytes, marker: Bytes, maxKeys: int)
    returns (objects: seq<ObjectInfo>, commonPrefixes: seq<Bytes>, nextMarker: Bytes)
    ensures IsPage(b, ItemsFrom(Keys(b.Keys), prefix, delimiter, Start(Keys(b.Keys), prefix, marker)), maxKeys,
              objects, commonPrefixes, nextMarker)
  {
    hide IsPage, Walking, Collected, HasPrefix, GroupOf, Seek, Keys, RunEnd, ItemsFrom, Sorted, Less;
    var ks := Keys(b.Keys);
    var c: nat;
    if marker != [] {
      c := Seek(ks, marker);
      if c < |ks| && ks[c] == marker {
        c := c + 1;
      }
    } else {
      c := Seek(ks, prefix);
    }
    ghost var items := ItemsFrom(ks, prefix, delimiter, c);
    objects, commonPrefixes, nextMarker := [], [], [];
    var prefixes: set<Bytes> := {};
    ghost var w := Walk(c, c, [], {});
    WalkBegins(ks, prefix, delimiter, c);
    CollectNothing(b);
    while c < |ks|
      invariant Walking(ks, prefix, delimiter, items, w) && c == w.c <= |ks| && prefixes == w.seen
      invariant Collected(b, w.done, objects, commonPrefixes)
      invariant |objects| + |commonPrefixes| == |w.done|
      invariant w.done != [] ==> |w.done| < maxKeys
      decreases |ks| - c
    {
      var key := ks[c];
      if !HasPrefix(key, prefix) {
        break;
      }
      var group := GroupOf(prefix, delimiter, key);
      if group.Some? {
        var pfx := group.value;
        if pfx !in prefixes {
          WalkIntoGroup(ks, prefix, delimiter, items, w, pfx);
          CollectGroup(b, w.done, objects, commonPrefixes, pfx);
          w := Walk(c + 1, RunEnd(ks, pfx, c), w.done + [Group(pfx)], w.seen + {pfx});
          prefixes := prefixes + {pfx};
          commonPrefixes := commonPrefixes + [pfx];
          if |objects| + |commonPrefixes| >= maxKeys {
            nextMarker := pfx;
            PageIsFull(b, items, w.done, maxKeys, objects, commonPrefixes);
            return;
          }
        } else {
          WalkPastMember(ks, prefix, delimiter, items, w);
          w := w.(c := c + 1);
        }
        c := c + 1;
        continue;
      }
      WalkPastKey(ks, prefix, delimiter, items, w);
      CollectKey(b, w.done, objects, commonPrefixes, key);
      w := Walk(c + 1, c + 1, w.done + [Key(key)], w.seen);
      objects := objects + [Info(key, b[key])];
      if |objects| + |commonPrefixes| >= maxKeys {
        nextMarker := key;
        PageIsFull(b, items, w.done, maxKeys, objects, commonPrefixes);
        return;
      }
      c := c + 1;
    }
    WalkEnds(ks, prefix, delimiter, items, w);
    PageIsLast(b, items, maxKeys, objects, commonPrefixes);
  }
}
