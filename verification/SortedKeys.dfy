/**
 * The ordered view of a bbolt bucket: its keys as a strictly increasing
 * sequence, in which a cursor is an index and Seek finds the least key that is
 * not below its argument.
 */
module SortedKeys {
  import opened ByteStrings
  import opened Outcomes

  ghost predicate Sorted(ks: seq<Bytes>) {
    forall i, j :: 0 <= i < j < |ks| ==> Less(ks[i], ks[j])
  }

  predicate IsMinimum(s: set<Bytes>, k: Bytes) {
    k in s && forall x :: x in s && x != k ==> Less(k, x)
  }

  lemma {:induction false} MinimumExists(s: set<Bytes>) returns (m: Bytes)
    requires s != {}
    ensures IsMinimum(s, m)
  {
    var k :| k in s;
    m := k;
    if other :| other in s && other != k {
      var rest := s - {k};
      assert other in rest;
      var n := MinimumExists(rest);
      LessTotal(k, n);
      if Less(k, n) {
        forall x | x in s && x != k
          ensures Less(k, x)
        {
          if x != n { LessTransitive(k, n, x); }
        }
      } else {
        m := n;
      }
    }
  }

  lemma MinimumIsDefined(s: set<Bytes>)
    requires s != {}
    ensures exists m :: IsMinimum(s, m)
    ensures forall a, b :: IsMinimum(s, a) && IsMinimum(s, b) ==> a == b
  {
    var m := MinimumExists(s);
    forall a, b | IsMinimum(s, a) && IsMinimum(s, b)
      ensures a == b
    {
      if a != b { LessAsymmetric(a, b); }
    }
  }

  function Minimum(s: set<Bytes>): (k: Bytes)
    requires s != {}
    ensures IsMinimum(s, k)
  {
    MinimumIsDefined(s);
    var k :| k in s && IsMinimum(s, k);
    k
  }

  /** The keys of a bucket in the order its cursor visits them. */
  function Keys(s: set<Bytes>): (ks: seq<Bytes>)
    ensures Sorted(ks)
    ensures forall k :: k in ks <==> k in s
  {
    if s == {} then []
    else
      var k := Minimum(s);
      [k] + Keys(s - {k})
  }

  /** Cursor.Seek: the index of the first key that is not below `x`. */
  function Seek(ks: seq<Bytes>, x: Bytes): (i: nat)
    ensures i <= |ks|
    ensures forall j :: 0 <= j < i ==> Less(ks[j], x)
    ensures i < |ks| ==> !Less(ks[i], x)
  {
    if |ks| == 0 || !Less(ks[0], x) then 0 else 1 + Seek(ks[1..], x)
  }

  /** In a sorted sequence nothing from the sought index on is below `x`. */
  lemma SeekSplits(ks: seq<Bytes>, x: Bytes)
    requires Sorted(ks)
    ensures forall j :: Seek(ks, x) <= j < |ks| ==> !Less(ks[j], x)
  {
    var i := Seek(ks, x);
    forall j | i <= j < |ks|
      ensures !Less(ks[j], x)
    {
      if i < j && Less(ks[j], x) {
        LessTransitive(ks[i], ks[j], x);
      }
    }
  }

  /** Seek is the only index that splits a sorted sequence at `x`. */
  lemma SeekUnique(ks: seq<Bytes>, x: Bytes, i: nat)
    requires Sorted(ks) && i <= |ks|
    requires i > 0 ==> Less(ks[i - 1], x)
    requires i < |ks| ==> !Less(ks[i], x)
    ensures Seek(ks, x) == i
  {
    SeekSplits(ks, x);
  }

  /** The index behind `x`, whether it is a key or not, splits the keys into those up to it and those after it. */
  lemma SplitAt(ks: seq<Bytes>, x: Bytes, j: nat)
    requires Sorted(ks) && j < |ks|
    ensures var i := Seek(ks, x);
      (if i < |ks| && ks[i] == x then i + 1 else i) <= j <==> Less(x, ks[j])
  {
    var i := Seek(ks, x);
    SeekSplits(ks, x);
    LessTotal(x, ks[j]);
    LessIrreflexive(x);
    if j < i { LessAsymmetric(ks[j], x); }
    if i < |ks| && ks[i] == x && i < j { LaterIsGreater(ks, i, j); }
    if i < |ks| && ks[i] != x && ks[j] == x && i <= j {
      LessTotal(ks[i], x);
      if i < j { LessAsymmetric(ks[i], ks[j]); }
    }
  }

  lemma LaterIsGreater(ks: seq<Bytes>, i: nat, j: nat)
    requires Sorted(ks) && i < j < |ks|
    ensures Less(ks[i], ks[j])
  {
  }

  lemma SeekFinds(ks: seq<Bytes>, i: nat)
    requires Sorted(ks) && i < |ks|
    ensures Seek(ks, ks[i]) == i
  {
    LessIrreflexive(ks[i]);
    SeekUnique(ks, ks[i], i);
  }

  /** The end of the run of keys that start with `p`, walked one key at a time. */
  function RunEnd(ks: seq<Bytes>, p: Bytes, i: nat): (e: nat)
    requires i <= |ks|
    ensures i <= e <= |ks|
    ensures forall j :: i <= j < e ==> HasPrefix(ks[j], p)
    ensures e < |ks| ==> !HasPrefix(ks[e], p)
    decreases |ks| - i
  {
    if i < |ks| && HasPrefix(ks[i], p) then RunEnd(ks, p, i + 1) else i
  }

  /** Keys with a common prefix are contiguous: none follows the end of the run. */
  lemma RunIsContiguous(ks: seq<Bytes>, p: Bytes, i: nat)
    requires Sorted(ks) && i < |ks| && HasPrefix(ks[i], p)
    ensures forall j :: RunEnd(ks, p, i) <= j < |ks| ==> !HasPrefix(ks[j], p)
  {
    var e := RunEnd(ks, p, i);
    forall j | e <= j < |ks|
      ensures !HasPrefix(ks[j], p)
    {
      if HasPrefix(ks[j], p) {
        PrefixNotGreater(ks[i], p);
        assert Less(ks[i], ks[e]);
        assert !Less(ks[e], p) by {
          if Less(ks[e], p) { LessTransitive(ks[i], ks[e], p); }
        }
        if j > e { LessAsymmetric(ks[e], ks[j]); }
        PrefixConvex(p, ks[e], ks[j]);
      }
    }
  }

  /** Seeking a prefix lands on the first key of its run. */
  lemma SeekPrefix(ks: seq<Bytes>, p: Bytes, i: nat)
    requires Sorted(ks) && i < |ks| && HasPrefix(ks[i], p)
    requires i > 0 ==> !HasPrefix(ks[i - 1], p)
    ensures Seek(ks, p) == i
  {
    PrefixNotGreater(ks[i], p);
    if i > 0 && !Less(ks[i - 1], p) {
      LessAsymmetric(ks[i - 1], ks[i]);
      PrefixConvex(p, ks[i - 1], ks[i]);
    }
    SeekUnique(ks, p, i);
  }

  /** Seeking the successor of a prefix skips exactly the rest of its run. */
  lemma SeekSuccessor(ks: seq<Bytes>, p: Bytes, i: nat)
    requires Sorted(ks) && i < |ks| && HasPrefix(ks[i], p)
    requires p != [] && p[|p| - 1] < 255
    ensures Seek(ks, Successor(p)) == RunEnd(ks, p, i)
  {
    var e := RunEnd(ks, p, i);
    SuccessorBounds(p, ks[e - 1]);
    if e < |ks| {
      SuccessorBounds(p, ks[e]);
      PrefixNotGreater(ks[i], p);
      if Less(ks[e], p) { LessTransitive(ks[i], ks[e], p); }
    }
    SeekUnique(ks, Successor(p), e);
  }

  /** At 255 the jump lands at or before the key it started from. */
  lemma SeekSuccessorWraps(ks: seq<Bytes>, p: Bytes, i: nat)
    requires Sorted(ks) && i < |ks| && HasPrefix(ks[i], p)
    requires p != [] && p[|p| - 1] == 255
    ensures Seek(ks, Successor(p)) <= i
  {
    SuccessorWraps(p);
    PrefixNotGreater(ks[i], p);
    if Seek(ks, Successor(p)) > i {
      LessTransitive(ks[i], Successor(p), p);
    }
  }
}
