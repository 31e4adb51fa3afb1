/** Byte strings in the byte order that bbolt and Go's string comparison use. */
module ByteStrings {
  import opened Outcomes

  newtype byte = x: int | 0 <= x < 256

  type Bytes = seq<byte>

  const NUL: byte := 0

  predicate Less(a: Bytes, b: Bytes) {
    |b| > 0 && (|a| == 0 || a[0] < b[0] || (a[0] == b[0] && Less(a[1..], b[1..])))
  }

  predicate HasPrefix(s: Bytes, p: Bytes) {
    |p| <= |s| && s[..|p|] == p
  }

  predicate NoNul(s: Bytes) {
    NUL !in s
  }

  predicate OccursAt(s: Bytes, d: Bytes, j: nat) {
    j + |d| <= |s| && s[j..j + |d|] == d
  }

  /** The first index from `i` on at which `d` occurs in `s`. */
  function IndexFrom(s: Bytes, d: Bytes, i: nat): (r: Option<nat>)
    requires i <= |s|
    ensures r.Some? ==> i <= r.value && OccursAt(s, d, r.value)
    ensures r.Some? ==> forall j :: i <= j < r.value ==> !OccursAt(s, d, j)
    ensures r.None? ==> forall j :: i <= j ==> !OccursAt(s, d, j)
    decreases |s| - i
  {
    if i + |d| > |s| then None
    else if OccursAt(s, d, i) then Some(i)
    else IndexFrom(s, d, i + 1)
  }

  lemma OccursInPrefix(a: Bytes, b: Bytes, p: Bytes, d: Bytes, i: nat)
    requires HasPrefix(a, p) && HasPrefix(b, p) && i + |d| <= |p|
    ensures OccursAt(a, d, i) <==> OccursAt(b, d, i)
  {
    assert a[i..i + |d|] == a[..|p|][i..i + |d|] == b[i..i + |d|];
  }

  lemma {:induction false} LessIrreflexive(a: Bytes)
    ensures !Less(a, a)
  {
    if |a| > 0 {
      LessIrreflexive(a[1..]);
    }
  }

  lemma {:induction false} LessTransitive(a: Bytes, b: Bytes, c: Bytes)
    requires Less(a, b) && Less(b, c)
    ensures Less(a, c)
  {
    if |a| > 0 && a[0] == b[0] == c[0] {
      LessTransitive(a[1..], b[1..], c[1..]);
    }
  }

  lemma {:induction false} LessTotal(a: Bytes, b: Bytes)
    ensures Less(a, b) || a == b || Less(b, a)
  {
    if |a| > 0 && |b| > 0 && a[0] == b[0] {
      LessTotal(a[1..], b[1..]);
      assert a == [a[0]] + a[1..] && b == [b[0]] + b[1..];
    }
  }

  lemma LessAsymmetric(a: Bytes, b: Bytes)
    requires Less(a, b)
    ensures !Less(b, a) && a != b
  {
    LessIrreflexive(a);
    if Less(b, a) {
      LessTransitive(a, b, a);
    }
  }

  /** `a <= b < c`, written with `Less` only. */
  lemma LeqLessTransitive(a: Bytes, b: Bytes, c: Bytes)
    requires !Less(b, a) && Less(b, c)
    ensures Less(a, c)
  {
    LessTotal(a, b);
    if Less(a, b) {
      LessTransitive(a, b, c);
    }
  }

  lemma {:induction false} PrefixNotGreater(k: Bytes, p: Bytes)
    requires HasPrefix(k, p)
    ensures !Less(k, p)
  {
    if |p| > 0 {
      assert HasPrefix(k[1..], p[1..]) by {
        assert k[1..][..|p| - 1] == k[..|p|][1..];
      }
      PrefixNotGreater(k[1..], p[1..]);
    }
  }

  /** Strings between a prefix and a string carrying it carry it too. */
  lemma {:induction false} PrefixConvex(p: Bytes, b: Bytes, c: Bytes)
    requires !Less(b, p) && !Less(c, b) && HasPrefix(c, p)
    ensures HasPrefix(b, p)
  {
    if |p| > 0 {
      assert c[0] == p[0] by { assert c[..|p|][0] == p[0]; }
      assert |b| > 0 && b[0] == p[0];
      assert HasPrefix(c[1..], p[1..]) by {
        assert c[1..][..|p| - 1] == c[..|p|][1..];
      }
      PrefixConvex(p[1..], b[1..], c[1..]);
      assert b[..|p|] == [b[0]] + b[1..][..|p| - 1];
      assert p == [p[0]] + p[1..];
    }
  }

  /** The string that `prefixEnd[len-1]++` computes, wrap-around included. */
  function Successor(p: Bytes): (r: Bytes)
    requires p != []
    ensures |r| == |p|
  {
    var last := p[|p| - 1];
    p[..|p| - 1] + [if last == 255 then 0 else last + 1]
  }

  /** Below 255 the successor bounds exactly the strings with prefix `p`. */
  lemma {:induction false} SuccessorBounds(p: Bytes, k: Bytes)
    requires p != [] && p[|p| - 1] < 255
    ensures HasPrefix(k, p) <==> !Less(k, p) && Less(k, Successor(p))
  {
    var s := Successor(p);
    if |k| > 0 {
      if |p| == 1 {
        assert HasPrefix(k, p) <==> k[0] == p[0] by { assert k[..1] == [k[0]]; }
        assert p[1..] == [] && s[1..] == [];
      } else {
        assert s[1..] == Successor(p[1..]);
        SuccessorBounds(p[1..], k[1..]);
        assert |k| >= |p| ==> k[..|p|] == [k[0]] + k[1..][..|p| - 1];
        assert p == [p[0]] + p[1..];
        assert s[0] == p[0];
        assert HasPrefix(k, p) <==> k[0] == p[0] && HasPrefix(k[1..], p[1..]);
      }
    }
  }

  /** At 255 the byte wraps and the "successor" lies before the prefix itself. */
  lemma {:induction false} SuccessorWraps(p: Bytes)
    requires p != [] && p[|p| - 1] == 255
    ensures Less(Successor(p), p)
  {
    if |p| > 1 {
      assert Successor(p)[1..] == Successor(p[1..]);
      SuccessorWraps(p[1..]);
    }
  }

  /** Comparing equal-length heads decides the comparison of the whole strings. */
  lemma {:induction false} LessExtends(a: Bytes, b: Bytes, u: Bytes, v: Bytes)
    requires |a| == |b| && Less(a, b)
    ensures Less(a + u, b + v)
  {
    assert (a + u)[1..] == a[1..] + u && (b + v)[1..] == b[1..] + v;
    if a[0] == b[0] {
      LessExtends(a[1..], b[1..], u, v);
    }
  }

  lemma {:induction false} LessCommonHead(a: Bytes, u: Bytes, v: Bytes)
    ensures Less(a + u, a + v) <==> Less(u, v)
  {
    if a == [] {
      assert a + u == u && a + v == v;
    } else {
      assert (a + u)[1..] == a[1..] + u && (a + v)[1..] == a[1..] + v;
      LessCommonHead(a[1..], u, v);
    }
  }
}
