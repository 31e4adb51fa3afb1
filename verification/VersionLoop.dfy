/**
 * The loop behind a page of versions, turn by turn, also where its jump over a group
 * wraps around: when it delivers the page, and when it does not.
 */
module VersionLoop {
  import opened ByteStrings
  import opened Listing
  import opened ObjectTypes
  import opened Outcomes
  import opened SortedKeys
  import opened VersionKeys
  import opened VersionListing

  /** The cursor, the groups met, what remains of the version id marker and what was emitted; or the end. */
  datatype Loop =
    | At(c: nat, seen: set<Bytes>, marker: Bytes, done: seq<VersionItem>)
    | Ended(done: seq<VersionItem>, full: bool)

  datatype Request = Request(vs: map<Bytes, ObjectMeta>, q: Query, maxKeys: int)

  function Records(r: Request): (vks: seq<Bytes>)
    ensures Sorted(vks) && forall k :: k in vks ==> k in r.vs
  {
    Keys(r.vs.Keys)
  }

  /** Emitting stops as soon as the page is full; it holds at least one entry. */
  function Emit(r: Request, done: seq<VersionItem>, more: seq<VersionItem>): (seq<VersionItem>, bool) {
    if more == [] || |done| + |more| < r.maxKeys then (done + more, false)
    else if |done| < r.maxKeys then (done + more[..r.maxKeys - |done|], true)
    else (done + more[..1], true)
  }

  /** One turn of the loop: a group, or the versions of one key. */
  function Turn(r: Request, l: Loop): Loop {
    var vks := Records(r);
    if l.Ended? then l
    else if l.c >= |vks| then Ended(l.done, false)
    else if Split(vks[l.c]).None? then l.(c := l.c + 1)
    else
      var key := KeyOf(vks[l.c]);
      if !HasPrefix(key, r.q.prefix) then Ended(l.done, false)
      else
        match GroupOf(r.q.prefix, r.q.delimiter, key)
        case Some(p) =>
          GroupEndsInDelimiter(r.q.prefix, r.q.delimiter, key);
          if p in l.seen then l.(c := Seek(vks, Successor(p)))
          else
            var (done, full) := Emit(r, l.done, [Prefix(p)]);
            if full then Ended(done, true) else At(Seek(vks, Successor(p)), l.seen + {p}, l.marker, done)
        case None =>
          var (ms, rest) := Unskip(r.q.keyMarker == key, VersionsAt(r.vs, vks, l.c), l.marker);
          var (done, full) := Emit(r, l.done, Versions(key, ms));
          if full then Ended(done, true) else At(KeyEnd(vks, l.c), l.seen, rest, done)
  }

  function LoopAfter(r: Request, marker: Bytes, n: nat): Loop {
    if n == 0 then At(Seek(Records(r), if r.q.keyMarker != [] then r.q.keyMarker else r.q.prefix), {}, marker, [])
    else Turn(r, LoopAfter(r, marker, n - 1))
  }

  // ----- while no jump has wrapped -----

  predicate Wraps(q: Query) {
    q.delimiter != [] && q.delimiter[|q.delimiter| - 1] == 255
  }

  /** On the way of the linear scan. */
  ghost predicate OnTrack(r: Request, items: seq<VersionItem>, l: Loop) {
    && l.At? && Scanning(r.vs, Records(r), r.q, items, l.done, l.marker, l.c, l.seen)
    && (l.done != [] ==> |l.done| < r.maxKeys)
    && (Wraps(r.q) ==> l.seen == {} && forall x :: x in l.done ==> x.Version?)
  }

  /** The right end: the head of what the linear scan lists. */
  ghost predicate Delivered(r: Request, items: seq<VersionItem>, l: Loop) {
    l.Ended? && l.done == Page(items, r.maxKeys) && (l.full <==> Full(items, r.maxKeys))
  }

  // ----- after a jump that wrapped -----

  /** The item belongs to a record behind index `i`. */
  ghost predicate LiesBehind(vks: seq<Bytes>, i: nat, x: VersionItem) {
    exists j :: i < j < |vks| && match x
      case Version(info) => Split(vks[j]).Some? && KeyOf(vks[j]) == info.key
      case Prefix(p) => HasPrefix(vks[j], p)
  }

  /** Some record of the group of `p`, at index `i`. */
  ghost predicate InGroup(r: Request, i: nat, p: Bytes) {
    var vks := Records(r);
    && i < |vks| && Split(vks[i]).Some? && HasPrefix(KeyOf(vks[i]), r.q.prefix)
    && GroupOf(r.q.prefix, r.q.delimiter, KeyOf(vks[i])) == Some(p)
  }

  /** The first `t` entries and the group after them are right; the next one, if there is any, is not. */
  ghost predicate Strayed(r: Request, items: seq<VersionItem>, done: seq<VersionItem>, i: nat, p: Bytes, t: nat) {
    && t < |items| && t < |done| && t + 1 < r.maxKeys && items[..t + 1] == done[..t + 1] && items[t] == Prefix(p)
    && (forall x :: x in items[t + 1..] ==> LiesBehind(Records(r), i, x))
    && (|done| > t + 1 ==> !LiesBehind(Records(r), i, done[t + 1]))
  }

  ghost predicate Lost(r: Request, items: seq<VersionItem>, l: Loop, i: nat, p: Bytes, t: nat) {
    && Wraps(r.q) && InGroup(r, i, p) && Strayed(r, items, l.done, i, p, t)
    && (l.At? ==> p in l.seen && l.c <= i && HasPrefix(Records(r)[l.c], r.q.prefix) && |l.done| < r.maxKeys)
    && (l.Ended? ==> |l.done| > t + 1)
  }

  ghost predicate LoopInv(r: Request, items: seq<VersionItem>, l: Loop) {
    || OnTrack(r, items, l)
    || (Delivered(r, items, l) && PageJumps(items, r.q.delimiter, r.maxKeys))
    || exists i, p, t :: Lost(r, items, l, i, p, t)
  }

  // ----- where things lie -----

  lemma {:induction false} VersionsOfKey(key: Bytes, ms: seq<ObjectMeta>)
    ensures forall x :: x in Versions(key, ms) ==> x.Version? && x.info.key == key
    ensures |Versions(key, ms)| == |ms|
  {
    if ms != [] { VersionsOfKey(key, ms[1..]); }
  }

  /** What a scan from `e` on lists lies behind every earlier index. */
  lemma {:induction false} ScanLies(
    vs: map<Bytes, ObjectMeta>, vks: seq<Bytes>, q: Query, marker: Bytes, i: nat, e: nat)
    requires i < e <= |vks| && forall k :: k in vks ==> k in vs
    ensures forall x :: x in Scan(vs, vks, q, marker, e) ==> LiesBehind(vks, i, x)
    decreases |vks| - e
  {
    hide HasPrefix, GroupOf, Split, VersionsAt, Unskip, Versions, KeyEnd;
    if e < |vks| {
      if Split(vks[e]).None? {
        ScanLies(vs, vks, q, marker, i, e + 1);
      } else if HasPrefix(KeyOf(vks[e]), q.prefix) {
        var key := KeyOf(vks[e]);
        match GroupOf(q.prefix, q.delimiter, key)
        case Some(p) =>
          KeyPrefix(vks[e], p);
          ScanLies(vs, vks, q, marker, i, GroupEnd(vks, p, e));
        case None =>
          var (ms, rest) := Unskip(q.keyMarker == key, VersionsAt(vs, vks, e), marker);
          VersionsOfKey(key, ms);
          ScanLies(vs, vks, q, rest, i, KeyEnd(vks, e));
      }
    }
  }

  /** Between two records with a prefix every record has it. */
  lemma Between(vks: seq<Bytes>, prefix: Bytes, c: nat, j: nat, i: nat)
    requires Sorted(vks) && c <= j <= i < |vks| && HasPrefix(vks[c], prefix) && HasPrefix(vks[i], prefix)
    ensures HasPrefix(vks[j], prefix)
  {
    hide Less, HasPrefix;
    PrefixNotGreater(vks[c], prefix);
    if c < j && Less(vks[j], prefix) { LessTransitive(vks[c], vks[j], prefix); }
    if j < i { LessAsymmetric(vks[j], vks[i]); } else { LessIrreflexive(vks[i]); }
    PrefixConvex(prefix, vks[j], vks[i]);
  }

  /** A jump that wraps comes back to a record at or before its start that still has the prefix asked for. */
  lemma BackJump(vks: seq<Bytes>, prefix: Bytes, c: nat, p: Bytes)
    requires Sorted(vks) && c < |vks| && HasPrefix(vks[c], p) && HasPrefix(p, prefix) && |p| > |prefix|
    requires p[|p| - 1] == 255
    ensures Seek(vks, Successor(p)) <= c && HasPrefix(vks[Seek(vks, Successor(p))], prefix)
  {
    hide Less, Seek, Sorted;
    var back := Successor(p);
    assert HasPrefix(back, prefix) by { assert back[..|prefix|] == p[..|prefix|]; }
    assert HasPrefix(vks[c], prefix) by { assert vks[c][..|prefix|] == vks[c][..|p|][..|prefix|]; }
    Landing(vks, prefix, c, p, back);
  }

  lemma Landing(vks: seq<Bytes>, prefix: Bytes, c: nat, p: Bytes, back: Bytes)
    requires Sorted(vks) && c < |vks| && HasPrefix(vks[c], p) && p != [] && p[|p| - 1] == 255 && back == Successor(p)
    requires HasPrefix(back, prefix) && HasPrefix(vks[c], prefix)
    ensures Seek(vks, back) <= c && HasPrefix(vks[Seek(vks, back)], prefix)
  {
    hide Less, HasPrefix, Successor, Seek;
    SeekSuccessorWraps(vks, p, c);
    var j := Seek(vks, back);
    PrefixNotGreater(back, prefix);
    if Less(vks[j], prefix) { LeqLessTransitive(back, vks[j], prefix); }
    if j < c { LessAsymmetric(vks[j], vks[c]); } else { LessIrreflexive(vks[c]); }
    PrefixConvex(prefix, vks[j], vks[c]);
  }

  /** The records of another key that begin before index `i` also end there. */
  lemma RunBefore(vks: seq<Bytes>, c: nat, i: nat)
    requires Sorted(vks) && c < i < |vks| && Split(vks[c]).Some? && Split(vks[i]).Some?
    requires KeyOf(vks[c]) != KeyOf(vks[i])
    ensures KeyEnd(vks, c) <= i
    ensures forall j :: i < j < |vks| && Split(vks[j]).Some? ==> KeyOf(vks[j]) != KeyOf(vks[c])
  {
    hide Less, HasPrefix, Split, NoNul, Sorted;
    var key := KeyOf(vks[c]);
    SplitKey(vks[c]);
    PrefixIsKey(key, vks[c]);
    RunIsContiguous(vks, key + [NUL], c);
    PrefixIsKey(key, vks[i]);
    forall j | i < j < |vks| && Split(vks[j]).Some?
      ensures KeyOf(vks[j]) != key
    {
      PrefixIsKey(key, vks[j]);
    }
  }

  lemma SplitKey(vk: Bytes)
    requires Split(vk).Some?
    ensures NoNul(KeyOf(vk))
  {
  }

  /** So do those of another group. */
  lemma GroupBefore(r: Request, c: nat, i: nat, p: Bytes, other: Bytes)
    requires InGroup(r, i, p) && InGroup(r, c, other) && c < i && other != p
    ensures !LiesBehind(Records(r), i, Prefix(other))
  {
    hide Less, HasPrefix, Split, NoNul, Sorted, GroupOf;
    var vks := Records(r);
    KeyPrefix(vks[c], other);
    RunIsContiguous(vks, other, c);
    if RunEnd(vks, other, c) > i {
      SplitKey(vks[i]);
      var (k, v) := Split(vks[i]).value;
      PrefixOfKey(other, k, v);
      GroupIsPrefix(r.q.prefix, r.q.delimiter, KeyOf(vks[c]), k);
    }
  }

  lemma KeyHasPrefix(vks: seq<Bytes>, prefix: Bytes, c: nat, i: nat)
    requires c < |vks| && i < |vks| && Split(vks[c]).Some? && Split(vks[i]).Some?
    requires HasPrefix(KeyOf(vks[i]), prefix) && HasPrefix(vks[c], prefix)
    ensures HasPrefix(KeyOf(vks[c]), prefix)
  {
    hide HasPrefix, Split, NoNul;
    KeyPrefix(vks[i], prefix);
    SplitKey(vks[c]);
    var (k, v) := Split(vks[c]).value;
    PrefixOfKey(prefix, k, v);
  }

  // ----- each turn -----

  lemma EmitOne(r: Request, done: seq<VersionItem>, x: VersionItem)
    requires done != [] ==> |done| < r.maxKeys
    ensures Emit(r, done, [x]) == (done + [x], |done| + 1 >= r.maxKeys)
  {
    assert [x][..1] == [x];
  }

  /** An entry more, and whether the page is full then. */
  lemma StrayedMore(
    r: Request, items: seq<VersionItem>, done: seq<VersionItem>, more: seq<VersionItem>, i: nat, p: Bytes, t: nat)
    requires Strayed(r, items, done, i, p, t) && |done| < r.maxKeys
    requires forall x :: x in more ==> !LiesBehind(Records(r), i, x)
    ensures var (all, full) := Emit(r, done, more);
      && Strayed(r, items, all, i, p, t) && (full ==> |all| > t + 1) && (!full ==> |all| < r.maxKeys)
  {
    hide LiesBehind, Records;
    var (all, full) := Emit(r, done, more);
    assert all[..t + 1] == done[..t + 1];
    if |done| == t + 1 && |all| > t + 1 { assert all[t + 1] == more[0] && more[0] in more; }
  }

  lemma LostTurn(r: Request, items: seq<VersionItem>, l: Loop, i: nat, p: Bytes, t: nat)
    requires Lost(r, items, l, i, p, t)
    ensures Lost(r, items, Turn(r, l), i, p, t)
  {
    hide HasPrefix, Split, NoNul, Sorted, GroupOf, LiesBehind, Strayed, Seek, Successor, Versions, VersionsAt, Unskip;
    hide KeyEnd;
    hide Emit, Less;
    var vks := Records(r);
    if l.At? {
      KeyPrefix(vks[i], r.q.prefix);
      if Split(vks[l.c]).None? {
        Between(vks, r.q.prefix, l.c, l.c + 1, i);
      } else {
        KeyHasPrefix(vks, r.q.prefix, l.c, i);
        if GroupOf(r.q.prefix, r.q.delimiter, KeyOf(vks[l.c])).Some? {
          LostGroup(r, items, l, i, p, t);
        } else {
          LostRun(r, items, l, i, p, t);
        }
      }
    }
  }

  lemma LostGroup(r: Request, items: seq<VersionItem>, l: Loop, i: nat, p: Bytes, t: nat)
    requires Lost(r, items, l, i, p, t) && l.At?
    requires var vks := Records(r);
      && Split(vks[l.c]).Some? && HasPrefix(KeyOf(vks[l.c]), r.q.prefix)
      && GroupOf(r.q.prefix, r.q.delimiter, KeyOf(vks[l.c])).Some?
    ensures Lost(r, items, Turn(r, l), i, p, t)
  {
    hide HasPrefix, Split, NoNul, Sorted, GroupOf, LiesBehind, Strayed, Seek, Successor, Less, Emit;
    var vks := Records(r);
    var g := GroupOf(r.q.prefix, r.q.delimiter, KeyOf(vks[l.c])).value;
    GroupEndsInDelimiter(r.q.prefix, r.q.delimiter, KeyOf(vks[l.c]));
    KeyPrefix(vks[l.c], g);
    BackJump(vks, r.q.prefix, l.c, g);
    if g !in l.seen {
      GroupBefore(r, l.c, i, p, g);
      StrayedMore(r, items, l.done, [Prefix(g)], i, p, t);
    }
  }

  lemma LostRun(r: Request, items: seq<VersionItem>, l: Loop, i: nat, p: Bytes, t: nat)
    requires Lost(r, items, l, i, p, t) && l.At?
    requires var vks := Records(r);
      && Split(vks[l.c]).Some? && HasPrefix(KeyOf(vks[l.c]), r.q.prefix)
      && GroupOf(r.q.prefix, r.q.delimiter, KeyOf(vks[l.c])) == None
    ensures Lost(r, items, Turn(r, l), i, p, t)
  {
    hide HasPrefix, Split, NoNul, Sorted, GroupOf, Strayed, Seek, Successor, Less, Emit, Versions, VersionsAt, Unskip;
    hide KeyEnd;
    var vks := Records(r);
    var key := KeyOf(vks[l.c]);
    RunBefore(vks, l.c, i);
    KeyPrefix(vks[i], r.q.prefix);
    Between(vks, r.q.prefix, l.c, KeyEnd(vks, l.c), i);
    var (ms, rest) := Unskip(r.q.keyMarker == key, VersionsAt(r.vs, vks, l.c), l.marker);
    VersionsOfKey(key, ms);
    StrayedMore(r, items, l.done, Versions(key, ms), i, p, t);
  }

  lemma DoneIsPage(r: Request, items: seq<VersionItem>, l: Loop)
    requires OnTrack(r, items, l) && items == l.done
    ensures Delivered(r, items, Ended(l.done, false)) && PageJumps(items, r.q.delimiter, r.maxKeys)
  {
    hide Scanning;
  }

  lemma TrackIsAt(r: Request, items: seq<VersionItem>, l: Loop)
    ensures OnTrack(r, items, l) ==> l.At? && l.c <= |Records(r)|
    ensures Delivered(r, items, l) ==> l.Ended?
  {
  }

  lemma TrackTurn(r: Request, items: seq<VersionItem>, l: Loop)
    requires OnTrack(r, items, l)
    ensures LoopInv(r, items, Turn(r, l))
    ensures OnTrack(r, items, Turn(r, l)) ==> Turn(r, l).c > l.c
  {
    hide HasPrefix, Split, NoNul, GroupOf, LiesBehind, Seek, Successor, Versions, VersionsAt, Unskip, KeyEnd, Scanning;
    hide Emit;
    hide PageJumps, Less, Lost;
    var vks := Records(r);
    TrackIsAt(r, items, l);
    if l.c >= |vks| {
      ScanEnds(r.vs, vks, r.q, items, l.done, l.marker, l.c, l.seen);
      DoneIsPage(r, items, l);
    } else if Split(vks[l.c]).None? {
      SkipUnsplit(r.vs, vks, r.q, items, l.done, l.marker, l.c, l.seen);
    } else if !HasPrefix(KeyOf(vks[l.c]), r.q.prefix) {
      ScanEnds(r.vs, vks, r.q, items, l.done, l.marker, l.c, l.seen);
      DoneIsPage(r, items, l);
    } else if GroupOf(r.q.prefix, r.q.delimiter, KeyOf(vks[l.c])).Some? {
      TrackGroup(r, items, l);
    } else {
      TrackRun(r, items, l);
    }
  }

  lemma TrackGroup(r: Request, items: seq<VersionItem>, l: Loop)
    requires OnTrack(r, items, l) && l.c < |Records(r)|
    requires var vks := Records(r);
      && Split(vks[l.c]).Some? && HasPrefix(KeyOf(vks[l.c]), r.q.prefix)
      && GroupOf(r.q.prefix, r.q.delimiter, KeyOf(vks[l.c])).Some?
    ensures LoopInv(r, items, Turn(r, l))
    ensures OnTrack(r, items, Turn(r, l)) ==> Turn(r, l).c > l.c
  {
    hide HasPrefix, Split, NoNul, GroupOf, LiesBehind, Seek, Successor, Scanning, Emit, Less, Scan, GroupEnd, Lost;
    hide Sorted;
    var vks := Records(r);
    var p := GroupOf(r.q.prefix, r.q.delimiter, KeyOf(vks[l.c])).value;
    GroupComesNext(r.vs, vks, r.q, items, l.done, l.marker, l.c, l.seen, p);
    EmitOne(r, l.done, Prefix(p));
    if |l.done| + 1 < r.maxKeys {
      if Wraps(r.q) {
        BackJump(vks, r.q.prefix, l.c, p);
        TrackLeft(r, items, l, p);
      } else {
        ScanPastGroup(r.vs, vks, r.q, items, l.done, l.marker, l.c, l.seen, p);
      }
    } else {
      GroupFills(r, items, l.done, p);
    }
  }

  lemma GroupFills(r: Request, items: seq<VersionItem>, done: seq<VersionItem>, p: Bytes)
    requires done + [Prefix(p)] <= items && |done| + 1 >= r.maxKeys && (done != [] ==> |done| < r.maxKeys)
    requires Wraps(r.q) ==> forall x :: x in done ==> x.Version?
    ensures Delivered(r, items, Ended(done + [Prefix(p)], true)) && PageJumps(items, r.q.delimiter, r.maxKeys)
  {
    assert forall j :: 0 <= j < |done| ==> items[j] == (done + [Prefix(p)])[j] == done[j];
  }

  lemma TrackLeft(r: Request, items: seq<VersionItem>, l: Loop, p: Bytes)
    requires OnTrack(r, items, l) && InGroup(r, l.c, p) && Wraps(r.q) && |l.done| + 1 < r.maxKeys && p !in l.seen
    requires p != []
    requires HasPrefix(KeyOf(Records(r)[l.c]), p)
    requires items == (l.done + [Prefix(p)]) + Scan(r.vs, Records(r), r.q, l.marker, GroupEnd(Records(r), p, l.c))
    requires Seek(Records(r), Successor(p)) <= l.c && HasPrefix(Records(r)[Seek(Records(r), Successor(p))], r.q.prefix)
    ensures Lost(r, items, At(Seek(Records(r), Successor(p)), l.seen + {p}, l.marker, l.done + [Prefix(p)]),
      l.c, p, |l.done|)
  {
    hide HasPrefix, Split, NoNul, GroupOf, LiesBehind, Seek, Successor, Scanning, Less, Scan, Sorted;
    var vks, t, e := Records(r), |l.done|, GroupEnd(Records(r), p, l.c);
    ScanLies(r.vs, vks, r.q, l.marker, l.c, e);
    assert items[..t + 1] == l.done + [Prefix(p)] && items[t + 1..] == Scan(r.vs, vks, r.q, l.marker, e);
  }

  lemma RunComesNext(r: Request, items: seq<VersionItem>, l: Loop)
    requires OnTrack(r, items, l) && l.c < |Records(r)|
    requires var vks := Records(r);
      && Split(vks[l.c]).Some? && HasPrefix(KeyOf(vks[l.c]), r.q.prefix)
      && GroupOf(r.q.prefix, r.q.delimiter, KeyOf(vks[l.c])) == None
    ensures var vks := Records(r); var key := KeyOf(vks[l.c]);
      var (ms, rest) := Unskip(r.q.keyMarker == key, VersionsAt(r.vs, vks, l.c), l.marker);
      && items == (l.done + Versions(key, ms)) + Scan(r.vs, vks, r.q, rest, KeyEnd(vks, l.c))
      && Scanning(r.vs, vks, r.q, items, l.done + Versions(key, ms), rest, KeyEnd(vks, l.c), l.seen)
  {
    hide HasPrefix, Split, NoNul, GroupOf, Versions, VersionsAt, Unskip, Sorted, Less;
    var vks := Records(r);
    var key := KeyOf(vks[l.c]);
    var (ms, rest) := Unskip(r.q.keyMarker == key, VersionsAt(r.vs, vks, l.c), l.marker);
    var tail := Scan(r.vs, vks, r.q, rest, KeyEnd(vks, l.c));
    assert l.done + (Versions(key, ms) + tail) == (l.done + Versions(key, ms)) + tail;
  }

  lemma TrackRun(r: Request, items: seq<VersionItem>, l: Loop)
    requires OnTrack(r, items, l) && l.c < |Records(r)|
    requires var vks := Records(r);
      && Split(vks[l.c]).Some? && HasPrefix(KeyOf(vks[l.c]), r.q.prefix)
      && GroupOf(r.q.prefix, r.q.delimiter, KeyOf(vks[l.c])) == None
    ensures LoopInv(r, items, Turn(r, l))
    ensures OnTrack(r, items, Turn(r, l)) ==> Turn(r, l).c > l.c
  {
    hide HasPrefix, Split, NoNul, GroupOf, Seek, Successor, Less, Emit, Versions, VersionsAt, Unskip, Scanning, Lost;
    hide Scan, Sorted;
    var vks := Records(r);
    var key := KeyOf(vks[l.c]);
    RunComesNext(r, items, l);
    var (ms, rest) := Unskip(r.q.keyMarker == key, VersionsAt(r.vs, vks, l.c), l.marker);
    VersionsOfKey(key, ms);
    RunFills(r, items, l.done, Versions(key, ms));
  }

  lemma RunFills(r: Request, items: seq<VersionItem>, done: seq<VersionItem>, more: seq<VersionItem>)
    requires done + more <= items && (done != [] ==> |done| < r.maxKeys) && forall x :: x in more ==> x.Version?
    requires Wraps(r.q) ==> forall x :: x in done ==> x.Version?
    ensures var (all, full) := Emit(r, done, more);
      if full then Delivered(r, items, Ended(all, true)) && PageJumps(items, r.q.delimiter, r.maxKeys)
      else
        && all == done + more && (all != [] ==> |all| < r.maxKeys)
        && (Wraps(r.q) ==> forall x :: x in all ==> x.Version?)
  {
    var (all, full) := Emit(r, done, more);
    assert all <= done + more;
    assert forall j :: 0 <= j < |all| ==> items[j] == all[j] && (all[j] in done || all[j] in more);
  }

  // ----- the whole loop -----

  ghost function Linear(r: Request, marker: Bytes): seq<VersionItem> {
    Listed(r.vs, r.q, marker)
  }

  lemma LoopBegins(r: Request, marker: Bytes)
    ensures OnTrack(r, Linear(r, marker), LoopAfter(r, marker, 0))
  {
    hide Less, HasPrefix, Scan, LinearScan;
    var vks := Records(r);
    ScanStarts(r.vs, vks, r.q, marker, Seek(vks, if r.q.keyMarker != [] then r.q.keyMarker else r.q.prefix));
  }

  lemma {:induction false} LoopKeeps(r: Request, marker: Bytes, n: nat)
    ensures LoopInv(r, Linear(r, marker), LoopAfter(r, marker, n))
  {
    hide OnTrack, Delivered, Lost, Turn, Linear;
    var items := Linear(r, marker);
    if n == 0 {
      LoopBegins(r, marker);
    } else {
      LoopKeeps(r, marker, n - 1);
      var l := LoopAfter(r, marker, n - 1);
      if OnTrack(r, items, l) {
        TrackTurn(r, items, l);
      } else if Delivered(r, items, l) && PageJumps(items, r.q.delimiter, r.maxKeys) {
        EndedStays(r, items, l);
      } else {
        var i, p, t :| Lost(r, items, l, i, p, t);
        LostTurn(r, items, l, i, p, t);
      }
    }
  }

  lemma EndedStays(r: Request, items: seq<VersionItem>, l: Loop)
    requires Delivered(r, items, l)
    ensures Turn(r, l) == l
  {
  }

  /** A loop that has lost its way is not where the page is delivered, and that page is one with a jump that wraps. */
  lemma LostIsWrong(r: Request, items: seq<VersionItem>, l: Loop, i: nat, p: Bytes, t: nat)
    requires Lost(r, items, l, i, p, t)
    ensures !Delivered(r, items, l) && !PageJumps(items, r.q.delimiter, r.maxKeys) && !OnTrack(r, items, l)
  {
    hide LiesBehind, InGroup, Scanning;
    if |items| > t + 1 { assert items[t + 1..][0] == items[t + 1]; }
  }

  lemma {:induction false} LoopAdvances(r: Request, marker: Bytes, n: nat)
    requires PageJumps(Linear(r, marker), r.q.delimiter, r.maxKeys)
    ensures LoopAfter(r, marker, n).At? ==> n <= LoopAfter(r, marker, n).c <= |Records(r)|
    ensures LoopAfter(r, marker, n).Ended? ==> Delivered(r, Linear(r, marker), LoopAfter(r, marker, n))
  {
    hide Delivered, Lost, Turn, Linear, PageJumps, OnTrack;
    var items := Linear(r, marker);
    LoopKeeps(r, marker, n);
    var l := LoopAfter(r, marker, n);
    forall i, p, t
      ensures !Lost(r, items, l, i, p, t)
    {
      if Lost(r, items, l, i, p, t) { LostIsWrong(r, items, l, i, p, t); }
    }
    TrackIsAt(r, items, l);
    if n > 0 {
      LoopAdvances(r, marker, n - 1);
      LoopKeeps(r, marker, n - 1);
      var before := LoopAfter(r, marker, n - 1);
      forall i, p, t
        ensures !Lost(r, items, before, i, p, t)
      {
        if Lost(r, items, before, i, p, t) { LostIsWrong(r, items, before, i, p, t); }
      }
      if OnTrack(r, items, before) {
        TrackIsAt(r, items, before);
        TrackTurn(r, items, before);
      } else {
        EndedStays(r, items, before);
      }
    }
  }

  /**
   * The loop delivers the head of the linear scan exactly if no jump that wraps around
   * comes before the page is full. Otherwise it never ends, or ends with another page.
   */
  lemma LoopDelivers(r: Request, marker: Bytes)
    ensures (exists n :: Delivered(r, Linear(r, marker), LoopAfter(r, marker, n))) <==>
      PageJumps(Linear(r, marker), r.q.delimiter, r.maxKeys)
  {
    hide Delivered, Lost, Turn, Linear, PageJumps, OnTrack;
    var items := Linear(r, marker);
    if PageJumps(items, r.q.delimiter, r.maxKeys) {
      LoopAdvances(r, marker, |Records(r)| + 1);
      assert Delivered(r, items, LoopAfter(r, marker, |Records(r)| + 1));
    }
    forall n | Delivered(r, items, LoopAfter(r, marker, n))
      ensures PageJumps(items, r.q.delimiter, r.maxKeys)
    {
      var l := LoopAfter(r, marker, n);
      LoopKeeps(r, marker, n);
      TrackIsAt(r, items, l);
      forall i, p, t
        ensures !Lost(r, items, l, i, p, t)
      {
        if Lost(r, items, l, i, p, t) { LostIsWrong(r, items, l, i, p, t); }
      }
    }
  }
}
