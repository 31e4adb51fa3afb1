/**
 * The paths of files: how the backend joins bucket, key and version id to a path
 * below its data directory, and what lexical cleaning makes of it.
 */
module Paths {
  import opened ByteStrings
  import opened Outcomes

  /** A cleaned path, by its names below the data directory, or one that leaves it. */
  datatype Path = Inside(names: seq<Bytes>) | Outside

  const AT_SIGN: byte := 64
  const SLASH: byte := 47
  const DOT: Bytes := [46]
  const DOT_DOT: Bytes := [46, 46]
  const BUCKETS: Bytes := [98, 117, 99, 107, 101, 116, 115] // "buckets"
  const OBJECTS: Bytes := [111, 98, 106, 101, 99, 116, 115] // "objects"
  const TEMP: Bytes := [116, 109, 112] // "tmp"
  const MULTIPART: Bytes := [109, 117, 108, 116, 105, 112, 97, 114, 116] // "multipart"
  const PARTS: Bytes := [112, 97, 114, 116, 115] // "parts"
  const NULL_ID: Bytes := [110, 117, 108, 108] // "null"

  // ----- lexical cleaning -----

  /** The pieces between slashes. */
  function Components(s: Bytes): (r: seq<Bytes>)
    ensures r != []
  {
    if s == [] then [[]]
    else
      var before, c := Components(s[..|s| - 1]), s[|s| - 1];
      if c == SLASH then before + [[]] else before[..|before| - 1] + [before[|before| - 1] + [c]]
  }

  function JoinedNames(names: seq<Bytes>): Bytes
    requires names != []
  {
    if |names| == 1 then names[0]
    else JoinedNames(names[..|names| - 1]) + [SLASH] + names[|names| - 1]
  }

  /** One step down a path, where "" and "." stay and ".." goes back up. */
  function Enter(p: Path, name: Bytes): Path {
    if p.Outside? || name == [] || name == DOT then p
    else if name == DOT_DOT then (if p.names == [] then Outside else Inside(p.names[..|p.names| - 1]))
    else Inside(p.names + [name])
  }

  function EnterAll(p: Path, names: seq<Bytes>): Path {
    if names == [] then p else Enter(EnterAll(p, names[..|names| - 1]), names[|names| - 1])
  }

  /** A name that cleaning keeps. */
  predicate Proper(name: Bytes) {
    name != [] && name != DOT && name != DOT_DOT && SLASH !in name
  }

  /** All components are proper but the last, which the version's suffix joins. */
  predicate CleanKey(key: Bytes) {
    var c := Components(key);
    forall i :: 0 <= i < |c| - 1 ==> Proper(c[i])
  }

  /** The ids the server generates hold neither '@' nor a slash, and are not "null". */
  predicate Generated(id: Bytes) {
    id != [] && id != NULL_ID && AT_SIGN !in id && SLASH !in id
  }

  // ----- the files of versions -----

  function Suffixed(key: Bytes, versionId: Bytes): Bytes {
    key + [AT_SIGN] + if versionId == [] then NULL_ID else versionId
  }

  function BucketPath(bucket: Bytes): Path {
    EnterAll(Inside([BUCKETS]), Components(bucket))
  }

  function ObjectsDir(bucket: Bytes): Path {
    Enter(BucketPath(bucket), OBJECTS)
  }

  function FilePath(bucket: Bytes, key: Bytes, versionId: Bytes): Path {
    EnterAll(ObjectsDir(bucket), Components(Suffixed(key, versionId)))
  }

  /** Where a completion first looks, without the id. */
  function KeyPath(bucket: Bytes, key: Bytes): Path {
    EnterAll(ObjectsDir(bucket), Components(key))
  }

  // ----- components -----

  lemma {:induction false} NoSlashInComponents(s: Bytes)
    ensures forall i :: 0 <= i < |Components(s)| ==> SLASH !in Components(s)[i]
  {
    if s != [] { NoSlashInComponents(s[..|s| - 1]); }
  }

  lemma {:induction false} JoinedComponents(s: Bytes)
    ensures JoinedNames(Components(s)) == s
  {
    hide JoinedNames;
    if s == [] {
      JoinedOne([]);
    } else {
      var before, c := Components(s[..|s| - 1]), s[|s| - 1];
      JoinedComponents(s[..|s| - 1]);
      assert s == s[..|s| - 1] + [c];
      if c == SLASH {
        JoinedAppend(before, []);
        assert s == JoinedNames(before) + [SLASH] + [];
      } else {
        assert before == before[..|before| - 1] + [before[|before| - 1]];
        JoinedLonger(before[..|before| - 1], before[|before| - 1], c);
      }
    }
  }

  lemma JoinedLonger(front: seq<Bytes>, last: Bytes, c: byte)
    ensures JoinedNames(front + [last + [c]]) == JoinedNames(front + [last]) + [c]
  {
    hide JoinedNames;
    if front == [] {
      JoinedOne(last);
      JoinedOne(last + [c]);
      assert front + [last] == [last] && front + [last + [c]] == [last + [c]];
    } else {
      JoinedAppend(front, last);
      JoinedAppend(front, last + [c]);
      assert JoinedNames(front) + [SLASH] + (last + [c]) == JoinedNames(front) + [SLASH] + last + [c];
    }
  }

  lemma JoinedOne(name: Bytes)
    ensures JoinedNames([name]) == name
  {
  }

  lemma JoinedAppend(front: seq<Bytes>, last: Bytes)
    requires front != []
    ensures JoinedNames(front + [last]) == JoinedNames(front) + [SLASH] + last
  {
    assert (front + [last])[..|front|] == front;
  }

  /** Text without a slash joins the last component. */
  lemma {:induction false} ComponentsAppend(s: Bytes, t: Bytes)
    requires SLASH !in t
    ensures var c := Components(s); Components(s + t) == c[..|c| - 1] + [c[|c| - 1] + t]
  {
    hide Components;
    var c := Components(s);
    if t == [] {
      assert s + t == s && c[|c| - 1] + t == c[|c| - 1];
    } else {
      var front, last := t[..|t| - 1], t[|t| - 1];
      ComponentsAppend(s, front);
      ComponentsLonger(s + front, last);
      assert s + t == s + front + [last];
      assert c[|c| - 1] + t == c[|c| - 1] + front + [last];
      LastReplaced(c[..|c| - 1], c[|c| - 1] + front);
    }
  }

  lemma ComponentsLonger(s: Bytes, c: byte)
    requires c != SLASH
    ensures var b := Components(s); Components(s + [c]) == b[..|b| - 1] + [b[|b| - 1] + [c]]
  {
    assert (s + [c])[..|s|] == s;
  }

  lemma LastReplaced(front: seq<Bytes>, last: Bytes)
    ensures var c := front + [last]; c[..|c| - 1] == front && c[|c| - 1] == last
  {
  }

  lemma OneComponent(s: Bytes)
    requires SLASH !in s
    ensures Components(s) == [s]
  {
    ComponentsAppend([], s);
    assert [] + s == s;
  }

  lemma ComponentsNext(s: Bytes)
    ensures Components(s + [SLASH]) == Components(s) + [[]]
  {
    assert (s + [SLASH])[..|s|] == s;
  }

  lemma {:induction false} ComponentsOfJoined(names: seq<Bytes>)
    requires names != [] && forall i :: 0 <= i < |names| ==> SLASH !in names[i]
    ensures Components(JoinedNames(names)) == names
  {
    var front, last := names[..|names| - 1], names[|names| - 1];
    if |names| == 1 {
      OneComponent(last);
      assert names == [last];
    } else {
      ComponentsOfJoined(front);
      ComponentsNext(JoinedNames(front));
      ComponentsAppend(JoinedNames(front) + [SLASH], last);
      assert front + [last] == names;
      assert [] + last == last;
    }
  }

  // ----- entering proper names -----

  lemma {:induction false} EnterProper(p: Path, names: seq<Bytes>)
    requires p.Inside? && forall i :: 0 <= i < |names| ==> Proper(names[i])
    ensures EnterAll(p, names) == Inside(p.names + names)
  {
    if names == [] {
      assert p.names + names == p.names;
    } else {
      var front, last := names[..|names| - 1], names[|names| - 1];
      EnterProper(p, front);
      assert p.names + names == p.names + front + [last];
    }
  }

  lemma EnterOne(p: Path, name: Bytes)
    ensures EnterAll(p, [name]) == Enter(p, name)
  {
    assert [name][..0] == [];
  }

  predicate WellFormed(p: Path) {
    p.Inside? ==> forall i :: 0 <= i < |p.names| ==> Proper(p.names[i])
  }

  lemma {:induction false} EnterWellFormed(p: Path, names: seq<Bytes>)
    requires WellFormed(p) && forall i :: 0 <= i < |names| ==> SLASH !in names[i]
    ensures WellFormed(EnterAll(p, names))
  {
    if names != [] { EnterWellFormed(p, names[..|names| - 1]); }
  }

  lemma FilePathWellFormed(bucket: Bytes, key: Bytes, versionId: Bytes)
    ensures WellFormed(FilePath(bucket, key, versionId))
  {
    NoSlashInComponents(bucket);
    NoSlashInComponents(Suffixed(key, versionId));
    EnterWellFormed(Inside([BUCKETS]), Components(bucket));
    EnterWellFormed(ObjectsDir(bucket), Components(Suffixed(key, versionId)));
  }

  // ----- what cleaning does -----

  predicate IsStep(name: Bytes) {
    name != [] && name != [46] && name != [46, 46]
  }

  function Downs(names: seq<Bytes>): nat {
    if names == [] then 0 else Downs(names[..|names| - 1]) + if IsStep(names[|names| - 1]) then 1 else 0
  }

  function Ups(names: seq<Bytes>): nat {
    if names == [] then 0 else Ups(names[..|names| - 1]) + if names[|names| - 1] == [46, 46] then 1 else 0
  }

  /** Some head of the names goes up more often than the start is deep and it has gone down. */
  ghost predicate Climbs(names: seq<Bytes>, depth: nat) {
    exists k: nat :: k <= |names| && Ups(names[..k]) > depth + Downs(names[..k])
  }

  lemma ClimbsNot(depth: nat)
    ensures !Climbs([], depth)
  {
  }

  lemma ClimbsLonger(names: seq<Bytes>, depth: nat)
    requires names != []
    ensures Climbs(names, depth) <==> Climbs(names[..|names| - 1], depth) || Ups(names) > depth + Downs(names)
  {
    hide Ups, Downs;
    var front, n := names[..|names| - 1], |names|;
    assert names[..n] == names;
    if Climbs(names, depth) {
      var k: nat :| k <= n && Ups(names[..k]) > depth + Downs(names[..k]);
      if k < n { assert names[..k] == front[..k]; }
    }
    if Climbs(front, depth) {
      var k: nat :| k <= |front| && Ups(front[..k]) > depth + Downs(front[..k]);
      assert names[..k] == front[..k];
    }
  }

  /**
   * A path leaves the directory exactly if it climbs out of it; otherwise what remains is
   * as deep as it has gone down more often than up.
   */
  lemma {:induction false} CleaningDepth(p: Path, names: seq<Bytes>)
    requires p.Inside?
    ensures var q := EnterAll(p, names);
      && (q.Outside? <==> Climbs(names, |p.names|))
      && (q.Inside? ==> |q.names| == |p.names| + Downs(names) - Ups(names))
  {
    hide Climbs;
    if names == [] {
      ClimbsNot(|p.names|);
    } else {
      CleaningDepth(p, names[..|names| - 1]);
      ClimbsLonger(names, |p.names|);
    }
  }

  lemma {:induction false} EnterJoined(p: Path, a: seq<Bytes>, b: seq<Bytes>)
    ensures EnterAll(p, a + b) == EnterAll(EnterAll(p, a), b)
  {
    if b == [] {
      assert a + b == a;
    } else {
      assert (a + b)[..|a + b| - 1] == a + b[..|b| - 1];
      EnterJoined(p, a, b[..|b| - 1]);
    }
  }

  /** Wherever they stand, a name followed by "..", and "" and "." alone, change nothing; other names add themselves. */
  lemma CleaningCancels(p: Path, front: seq<Bytes>, name: Bytes, back: seq<Bytes>)
    ensures IsStep(name) ==> EnterAll(p, front + [name, [46, 46]] + back) == EnterAll(p, front + back)
    ensures EnterAll(p, front + [[]] + back) == EnterAll(p, front + back) == EnterAll(p, front + [[46]] + back)
    ensures var q := EnterAll(p, front);
      IsStep(name) && q.Inside? ==> EnterAll(p, front + [name]) == Inside(q.names + [name])
  {
    hide EnterAll;
    EnterJoined(p, front, back);
    EnterJoined(p, front + [name, [46, 46]], back);
    EnterJoined(p, front + [[]], back);
    EnterJoined(p, front + [[46]], back);
    EnterJoined(p, front, [name, [46, 46]]);
    EnterJoined(p, front, [[]]);
    EnterJoined(p, front, [[46]]);
    EnterJoined(p, front, [name]);
    var q := EnterAll(p, front);
    EnterOne(q, []);
    EnterOne(q, [46]);
    EnterOne(q, name);
    EnterJoined(q, [name], [[46, 46]]);
    EnterOne(Enter(q, name), [46, 46]);
    assert [name] + [[46, 46]] == [name, [46, 46]];
    if q.Inside? { assert (q.names + [name])[..|q.names|] == q.names; }
  }

  /** So a version's path below a bucket of a proper name is refused exactly if key and id climb out of three levels. */
  lemma RefusedPaths(bucket: Bytes, key: Bytes, versionId: Bytes)
    requires Proper(bucket)
    ensures FilePath(bucket, key, versionId).Outside? <==> Climbs(Components(Suffixed(key, versionId)), 3)
  {
    hide Components, Proper, EnterAll, Climbs, ObjectsDir;
    BucketDir(bucket);
    CleaningDepth(ObjectsDir(bucket), Components(Suffixed(key, versionId)));
  }

  // ----- which version a path is the file of -----

  /** The index of the last '@'. */
  function LastAtIndex(s: Bytes): (i: nat)
    requires AT_SIGN in s
    ensures i < |s| && s[i] == AT_SIGN && AT_SIGN !in s[i + 1..]
  {
    if s[|s| - 1] == AT_SIGN then |s| - 1
    else
      assert s == s[..|s| - 1] + [s[|s| - 1]];
      var i := LastAtIndex(s[..|s| - 1]);
      assert s[i + 1..] == s[..|s| - 1][i + 1..] + [s[|s| - 1]];
      i
  }

  lemma {:induction false} LastAtUnique(s: Bytes, i: nat)
    requires i < |s| && s[i] == AT_SIGN && AT_SIGN !in s[i + 1..]
    ensures LastAtIndex(s) == i
  {
    var last := |s| - 1;
    if i < last {
      assert s[i + 1..][last - i - 1] == s[last];
      assert s[i + 1..] == s[..last][i + 1..] + [s[last]];
      LastAtUnique(s[..last], i);
    }
  }

  lemma LastAtIs(k: Bytes, v: Bytes)
    requires AT_SIGN !in v
    ensures var s := k + [AT_SIGN] + v; AT_SIGN in s && LastAtIndex(s) == |k| && s[..|k|] == k && s[|k| + 1..] == v
  {
    var s := k + [AT_SIGN] + v;
    assert s[|k|] == AT_SIGN && s[|k| + 1..] == v;
    LastAtUnique(s, |k|);
  }

  /** The bucket, key and generated id whose file a path is, if there are any. */
  function VersionAt(p: Path): Option<(Bytes, Bytes, Bytes)> {
    if p.Outside? || |p.names| < 4 || p.names[0] != BUCKETS || p.names[2] != OBJECTS then None
    else
      var s := JoinedNames(p.names[3..]);
      if AT_SIGN !in s then None
      else
        var i := LastAtIndex(s);
        if Generated(s[i + 1..]) then Some((p.names[1], s[..i], s[i + 1..])) else None
  }

  predicate IsFileOf(p: Path, bucket: Bytes, key: Bytes, id: Bytes) {
    Proper(bucket) && CleanKey(key) && Generated(id) && FilePath(bucket, key, id) == p
  }

  /** The components of a version's text, if its id holds no slash. */
  lemma SuffixedComponents(key: Bytes, id: Bytes)
    requires SLASH !in id
    ensures var c, t := Components(key), [AT_SIGN] + if id == [] then NULL_ID else id;
      Components(Suffixed(key, id)) == c[..|c| - 1] + [c[|c| - 1] + t]
  {
    hide Components;
    var t := [AT_SIGN] + if id == [] then NULL_ID else id;
    assert Suffixed(key, id) == key + t;
    ComponentsAppend(key, t);
  }

  lemma WithAtIsProper(name: Bytes, rest: Bytes)
    requires SLASH !in name && SLASH !in rest
    ensures Proper(name + ([AT_SIGN] + rest))
  {
    assert (name + ([AT_SIGN] + rest))[|name|] == AT_SIGN;
    assert DOT[0] != AT_SIGN && DOT_DOT[0] != AT_SIGN && DOT_DOT[1] != AT_SIGN;
  }

  /** The text of a version with a clean key is the path below its bucket's directory. */
  lemma CleanFilePath(bucket: Bytes, key: Bytes, id: Bytes)
    requires Proper(bucket) && CleanKey(key) && SLASH !in id
    ensures FilePath(bucket, key, id) == Inside([BUCKETS, bucket, OBJECTS] + Components(Suffixed(key, id)))
  {
    hide Components, Proper, EnterAll;
    var c, rest := Components(key), if id == [] then NULL_ID else id;
    NoSlashInComponents(key);
    SuffixedComponents(key, id);
    WithAtIsProper(c[|c| - 1], rest);
    BucketDir(bucket);
    EnterProper(Inside([BUCKETS, bucket, OBJECTS]), Components(Suffixed(key, id)));
  }

  lemma BucketDir(bucket: Bytes)
    requires Proper(bucket)
    ensures ObjectsDir(bucket) == Inside([BUCKETS, bucket, OBJECTS])
  {
    OneComponent(bucket);
    EnterProper(Inside([BUCKETS]), [bucket]);
    assert [BUCKETS] + [bucket] == [BUCKETS, bucket] && [BUCKETS, bucket] + [OBJECTS] == [BUCKETS, bucket, OBJECTS];
  }

  lemma CleanByFront(key: Bytes, t: Bytes, names: seq<Bytes>)
    requires SLASH !in t && names == Components(key + t) && forall i :: 0 <= i < |names| ==> Proper(names[i])
    ensures CleanKey(key)
  {
    hide Components, Proper;
    ComponentsAppend(key, t);
    var c := Components(key);
    forall i | 0 <= i < |c| - 1
      ensures Proper(c[i])
    {
      assert c[i] == names[i];
    }
  }

  lemma FileIsRead(p: Path, bucket: Bytes, key: Bytes, id: Bytes)
    requires IsFileOf(p, bucket, key, id)
    ensures VersionAt(p) == Some((bucket, key, id))
  {
    hide Components, Proper, JoinedNames, LastAtIndex, FilePath, CleanKey;
    CleanFilePath(bucket, key, id);
    JoinedComponents(Suffixed(key, id));
    assert p.names[3..] == Components(Suffixed(key, id));
    assert Suffixed(key, id) == key + [AT_SIGN] + id;
    VersionRead(p, key, id);
  }

  lemma ReadIsFile(p: Path, bucket: Bytes, key: Bytes, id: Bytes)
    requires WellFormed(p) && VersionAt(p) == Some((bucket, key, id))
    ensures IsFileOf(p, bucket, key, id)
  {
    hide Components, Proper, JoinedNames, LastAtIndex, FilePath, CleanKey;
    var names := p.names[3..];
    var s := JoinedNames(names);
    ProperNames(p);
    ComponentsOfJoined(names);
    assert s == key + ([AT_SIGN] + id);
    assert Suffixed(key, id) == s;
    CleanByFront(key, [AT_SIGN] + id, names);
    CleanFilePath(bucket, key, id);
    assert p.names == [BUCKETS, bucket, OBJECTS] + names;
  }

  /** A path is the file of at most one version with a clean key and a generated id, the one read off it. */
  lemma VersionAtMeans(p: Path, bucket: Bytes, key: Bytes, id: Bytes)
    requires WellFormed(p)
    ensures VersionAt(p) == Some((bucket, key, id)) <==> IsFileOf(p, bucket, key, id)
  {
    hide VersionAt, IsFileOf;
    if IsFileOf(p, bucket, key, id) { FileIsRead(p, bucket, key, id); }
    if VersionAt(p) == Some((bucket, key, id)) { ReadIsFile(p, bucket, key, id); }
  }

  lemma ProperNames(p: Path)
    requires WellFormed(p) && p.Inside?
    ensures forall i :: 0 <= i < |p.names| ==> Proper(p.names[i]) && SLASH !in p.names[i]
  {
  }

  /** Paths tell versions apart if their keys are clean and their ids generated. */
  lemma PathInjective(b1: Bytes, k1: Bytes, v1: Bytes, b2: Bytes, k2: Bytes, v2: Bytes)
    requires Proper(b1) && CleanKey(k1) && Generated(v1) && Proper(b2) && CleanKey(k2) && Generated(v2)
    ensures FilePath(b1, k1, v1) == FilePath(b2, k2, v2) <==> b1 == b2 && k1 == k2 && v1 == v2
  {
    hide FilePath, VersionAt, Proper, CleanKey, Generated;
    FilePathWellFormed(b1, k1, v1);
    VersionAtMeans(FilePath(b1, k1, v1), b1, k1, v1);
    VersionAtMeans(FilePath(b1, k1, v1), b2, k2, v2);
  }

  /** The path asked for under these names is the file of another version, with a clean key and a generated id. */
  predicate Aliases(bucket: Bytes, key: Bytes, id: Bytes) {
    var v := VersionAt(FilePath(bucket, key, id));
    v.Some? && v.value != (bucket, key, id)
  }

  /** For all names: their path is also that of another clean key and generated id exactly if it reads as such. */
  lemma AliasedPaths(bucket: Bytes, key: Bytes, id: Bytes)
    ensures Aliases(bucket, key, id) <==>
      exists b, k, v :: IsFileOf(FilePath(bucket, key, id), b, k, v) && (b, k, v) != (bucket, key, id)
  {
    hide VersionAt, IsFileOf, FilePath;
    var p := FilePath(bucket, key, id);
    FilePathWellFormed(bucket, key, id);
    if VersionAt(p).Some? {
      var (b, k, v) := VersionAt(p).value;
      VersionAtMeans(p, b, k, v);
    }
    forall b, k, v | IsFileOf(p, b, k, v) && (b, k, v) != (bucket, key, id)
      ensures VersionAt(p) == Some((b, k, v))
    {
      VersionAtMeans(p, b, k, v);
    }
  }

  /**
   * What a caller can check first: under a clean key and an id without a slash this is
   * so exactly if the id holds an '@' with a generated id behind the last one.
   */
  lemma GuardedNames(bucket: Bytes, key: Bytes, id: Bytes)
    requires Proper(bucket) && CleanKey(key) && SLASH !in id
    ensures Aliases(bucket, key, id) <==> AT_SIGN in id && Generated(id[LastAtIndex(id) + 1..])
  {
    hide Components, Proper, JoinedNames, LastAtIndex, Generated, CleanKey, FilePath, VersionAt;
    var s, p := Suffixed(key, id), FilePath(bucket, key, id);
    CleanFilePath(bucket, key, id);
    JoinedComponents(s);
    assert p.names[3..] == Components(s);
    if AT_SIGN in id {
      var i := LastAtIndex(id);
      var v := id[i + 1..];
      assert id == id[..i] + [AT_SIGN] + v;
      assert s == (key + [AT_SIGN] + id[..i]) + [AT_SIGN] + v;
      VersionRead(p, key + [AT_SIGN] + id[..i], v);
    } else {
      VersionRead(p, key, if id == [] then NULL_ID else id);
      NullIsNotGenerated();
    }
  }

  lemma VersionRead(p: Path, k: Bytes, v: Bytes)
    requires p.Inside? && |p.names| >= 4 && p.names[0] == BUCKETS && p.names[2] == OBJECTS
    requires JoinedNames(p.names[3..]) == k + [AT_SIGN] + v && AT_SIGN !in v
    ensures VersionAt(p) == if Generated(v) then Some((p.names[1], k, v)) else None
  {
    hide JoinedNames, LastAtIndex, Generated;
    LastAtIs(k, v);
  }

  lemma NullIsNotGenerated()
    ensures !Generated(NULL_ID)
  {
  }

  // ----- whatever the key, generated ids tell paths apart -----

  lemma LastNameOf(bucket: Bytes, key: Bytes, id: Bytes)
    requires SLASH !in id && id != []
    ensures var p, c := FilePath(bucket, key, id), Components(key);
      p.Inside? ==> p.names != [] && p.names[|p.names| - 1] == c[|c| - 1] + ([AT_SIGN] + id)
  {
    hide Components, Proper;
    var c := Components(key);
    NoSlashInComponents(key);
    SuffixedComponents(key, id);
    WithAtIsProper(c[|c| - 1], id);
    EnterLast(ObjectsDir(bucket), c[..|c| - 1], c[|c| - 1] + ([AT_SIGN] + id));
  }

  lemma EnterLast(p: Path, front: seq<Bytes>, name: Bytes)
    requires Proper(name)
    ensures var q := EnterAll(p, front + [name]); q.Inside? ==> q.names != [] && q.names[|q.names| - 1] == name
  {
    assert (front + [name])[..|front|] == front;
  }

  lemma IdOfPath(bucket: Bytes, k1: Bytes, v1: Bytes, k2: Bytes, v2: Bytes)
    requires Generated(v1) && Generated(v2) && FilePath(bucket, k1, v1) == FilePath(bucket, k2, v2)
    requires FilePath(bucket, k1, v1).Inside?
    ensures v1 == v2
  {
    hide Components, FilePath;
    LastNameOf(bucket, k1, v1);
    LastNameOf(bucket, k2, v2);
    var c1, c2 := Components(k1), Components(k2);
    SameEnd(c1[|c1| - 1], v1, c2[|c2| - 1], v2);
  }

  lemma SameEnd(a: Bytes, v: Bytes, b: Bytes, w: Bytes)
    requires AT_SIGN !in v && AT_SIGN !in w && a + ([AT_SIGN] + v) == b + ([AT_SIGN] + w)
    ensures v == w
  {
    hide LastAtIndex;
    var s := a + ([AT_SIGN] + v);
    EndOf(s, a, v);
    EndOf(s, b, w);
  }

  lemma EndOf(s: Bytes, a: Bytes, v: Bytes)
    requires AT_SIGN !in v && s == a + ([AT_SIGN] + v)
    ensures AT_SIGN in s && s[LastAtIndex(s) + 1..] == v
  {
    hide LastAtIndex;
    assert s == a + [AT_SIGN] + v;
    LastAtIs(a, v);
  }

  // ----- the files of parts -----

  /** The directory of an upload below the temporary one. */
  function UploadDir(uploadId: Bytes): Path {
    EnterAll(Inside([TEMP, MULTIPART]), Components(uploadId))
  }

  function PartPath(uploadId: Bytes, name: Bytes): Path {
    Enter(Enter(UploadDir(uploadId), PARTS), name)
  }

  lemma ProperUpload(uploadId: Bytes, name: Bytes)
    requires Proper(uploadId) && Proper(name)
    ensures UploadDir(uploadId) == Inside([TEMP, MULTIPART, uploadId])
    ensures PartPath(uploadId, name) == Inside([TEMP, MULTIPART, uploadId, PARTS, name])
  {
    OneComponent(uploadId);
    EnterProper(Inside([TEMP, MULTIPART]), [uploadId]);
    assert [TEMP, MULTIPART] + [uploadId] == [TEMP, MULTIPART, uploadId];
    assert [TEMP, MULTIPART, uploadId] + [PARTS] + [name] == [TEMP, MULTIPART, uploadId, PARTS, name];
  }

  /** The part files of this id are those of another one that is a single name. */
  predicate AliasesUpload(uploadId: Bytes) {
    var p := UploadDir(uploadId);
    p.Inside? && |p.names| == 3 && p.names[0] == TEMP && p.names[1] == MULTIPART && p.names[2] != uploadId
  }

  lemma AliasedUploads(uploadId: Bytes, name: Bytes)
    requires Proper(name)
    ensures AliasesUpload(uploadId) <==>
      exists id :: Proper(id) && id != uploadId && PartPath(id, name) == PartPath(uploadId, name)
  {
    hide Components, Proper, EnterAll, UploadDir;
    var p := UploadDir(uploadId);
    UploadDirWellFormed(uploadId);
    PartsIsProper();
    if AliasesUpload(uploadId) {
      var id := p.names[2];
      ProperUpload(id, name);
      EnterTwo(p, name);
      assert p.names + [PARTS] + [name] == [TEMP, MULTIPART, id, PARTS, name];
    }
    forall id | Proper(id) && id != uploadId && PartPath(id, name) == PartPath(uploadId, name)
      ensures AliasesUpload(uploadId)
    {
      ProperUpload(id, name);
      if p.Inside? {
        EnterTwo(p, name);
        var q := p.names + [PARTS] + [name];
        assert q == [TEMP, MULTIPART, id, PARTS, name];
        assert p.names == q[..3] == [TEMP, MULTIPART, id];
      }
    }
  }

  lemma PartsIsProper()
    ensures Proper(PARTS)
  {
  }

  lemma EnterTwo(p: Path, name: Bytes)
    requires p.Inside? && Proper(name)
    ensures Enter(Enter(p, PARTS), name) == Inside(p.names + [PARTS] + [name])
  {
  }

  lemma UploadDirWellFormed(uploadId: Bytes)
    ensures WellFormed(UploadDir(uploadId))
  {
    NoSlashInComponents(uploadId);
    EnterWellFormed(Inside([TEMP, MULTIPART]), Components(uploadId));
  }

  /** Without a slash an upload id is no other's. */
  lemma SlashFreeUploads(uploadId: Bytes)
    requires SLASH !in uploadId
    ensures !AliasesUpload(uploadId)
  {
    OneComponent(uploadId);
    EnterOne(Inside([TEMP, MULTIPART]), uploadId);
  }
}
