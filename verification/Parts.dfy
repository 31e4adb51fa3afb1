/** The parts of an upload: their zero-padded names, and listing them page by page. */
module Parts {
  import opened ByteStrings
  import opened Listing
  import opened ObjectTypes
  import opened Outcomes
  import opened SortedKeys

  const ZERO: byte := 48
  const MINUS: byte := 45

  /** The decimal digits of `n`, padded with zeros to at least `w` of them. */
  function Padded(n: nat, w: nat): Bytes
    decreases n + w
  {
    if n == 0 && w == 0 then []
    else Padded(n / 10, if w == 0 then 0 else w - 1) + [ZERO + (n % 10) as byte]
  }

  /** fmt.Sprintf("%05d", partNumber), which counts a minus sign in the width. */
  function PartName(partNumber: int): Bytes {
    if partNumber < 0 then [MINUS] + Padded(-partNumber, 4) else Padded(partNumber, 5)
  }

  function Pow10(w: nat): nat {
    if w == 0 then 1 else 10 * Pow10(w - 1)
  }

  /** Below ten to the width, padded numbers have equal length and compare as numbers do. */
  lemma {:induction false} PaddedOrder(a: nat, b: nat, w: nat)
    requires a < Pow10(w) && b < Pow10(w)
    ensures |Padded(a, w)| == |Padded(b, w)| == w
    ensures Less(Padded(a, w), Padded(b, w)) <==> a < b
    ensures Padded(a, w) == Padded(b, w) <==> a == b
  {
    hide Less;
    if w == 0 {
      assert !Less([], []) by { LessIrreflexive([]); }
    } else {
      PaddedOrder(a / 10, b / 10, w - 1);
      var x, y := Padded(a / 10, w - 1), Padded(b / 10, w - 1);
      var u, v := [ZERO + (a % 10) as byte], [ZERO + (b % 10) as byte];
      if a / 10 < b / 10 {
        LessExtends(x, y, u, v);
        LessAsymmetric(x + u, y + v);
      } else if b / 10 < a / 10 {
        PaddedOrder(b / 10, a / 10, w - 1);
        LessExtends(y, x, v, u);
        LessAsymmetric(y + v, x + u);
      } else {
        LessCommonHead(x, u, v);
        LessDigits(u[0], v[0]);
      }
      assert (x + u)[|x|] == u[0] && (y + v)[|y|] == v[0];
      assert (x + u)[..|x|] == x && (y + v)[..|y|] == y;
    }
  }

  lemma LessDigits(a: byte, b: byte)
    ensures Less([a], [b]) <==> a < b
  {
  }

  /** Byte order is numeric order for five-digit part numbers. */
  lemma PartOrder(a: int, b: int)
    requires 0 <= a < 100000 && 0 <= b < 100000
    ensures Less(PartName(a), PartName(b)) <==> a < b
    ensures PartName(a) == PartName(b) <==> a == b
  {
    assert Pow10(5) == 100000 by {
      assert Pow10(1) == 10 && Pow10(2) == 100 && Pow10(3) == 1000 && Pow10(4) == 10000;
    }
    PaddedOrder(a, b, 5);
  }

  /** With a sixth digit the order breaks: part 100000 would come before part 99999. */
  lemma SixDigitsBreakOrder()
    ensures Less(PartName(100000), PartName(99999))
  {
    assert PartName(100000)[0] == Padded(100000 / 10, 4)[0] == Padded(1000, 3)[0] == Padded(100, 2)[0]
      == Padded(10, 1)[0] == Padded(1, 0)[0] == ZERO + 1;
    assert PartName(99999)[0] == Padded(9999, 4)[0] == Padded(999, 3)[0] == Padded(99, 2)[0]
      == Padded(9, 1)[0] == ZERO + 9;
  }

  /** Every part is stored under the name of its number, which has at most five digits. */
  ghost predicate WellNumbered(parts: map<Bytes, PartInfo>) {
    forall name :: name in parts ==>
      1 <= parts[name].partNumber < 100000 && name == PartName(parts[name].partNumber)
  }

  function PartsAt(parts: map<Bytes, PartInfo>, ks: seq<Bytes>): seq<PartInfo>
    requires forall k :: k in ks ==> k in parts
  {
    seq(|ks|, i requires 0 <= i < |ks| => parts[ks[i]])
  }

  /** The parts after a marker, as the cursor visits them. */
  function PartsAfter(parts: map<Bytes, PartInfo>, marker: int): seq<PartInfo> {
    var ks := Keys(parts.Keys);
    PartsAt(parts, ks[Start(ks, [], if marker > 0 then PartName(marker) else [])..])
  }

  /**
   * One page of parts, with the number of its last part as the next marker exactly
   * when more parts follow.
   */
  method ListObjectParts(parts: map<Bytes, PartInfo>, partNumberMarker: int, maxParts: int)
    returns (page: seq<PartInfo>, nextMarker: int)
    ensures var rest := PartsAfter(parts, partNumberMarker);
      && page == Page(rest, maxParts)
      && nextMarker == if |page| < |rest| then page[|page| - 1].partNumber else 0
  {
    hide Less, Keys, PartName, Seek, PartsAt, Start, Sorted;
    var ks := Keys(parts.Keys);
    var c: nat := 0;
    if partNumberMarker > 0 {
      c := Seek(ks, PartName(partNumberMarker));
      if c < |ks| && ks[c] == PartName(partNumberMarker) {
        c := c + 1;
      }
    }
    StartOfParts(ks, partNumberMarker);
    ghost var start := c;
    ghost var rest := PartsAfter(parts, partNumberMarker);
    PartsByIndex(parts, ks, start);
    page, nextMarker := [], 0;
    while c < |ks|
      invariant start <= c <= |ks| && nextMarker == 0
      invariant |page| == c - start && page == rest[..c - start]
      invariant page != [] ==> |page| < maxParts
      decreases |ks| - c
    {
      var part := parts[ks[c]];
      assert rest[..c + 1 - start] == rest[..c - start] + [part];
      page := page + [part];
      if |page| >= maxParts {
        if c + 1 < |ks| {
          nextMarker := part.partNumber;
        }
        return;
      }
      c := c + 1;
    }
    assert rest[..|rest|] == rest;
  }

  lemma PartsByIndex(parts: map<Bytes, PartInfo>, ks: seq<Bytes>, start: nat)
    requires start <= |ks| && forall k :: k in ks ==> k in parts
    ensures var rest := PartsAt(parts, ks[start..]);
      |rest| == |ks| - start && forall c :: start <= c < |ks| ==> rest[c - start] == parts[ks[c]]
  {
  }

  lemma StartOfParts(ks: seq<Bytes>, marker: int)
    ensures Start(ks, [], if marker > 0 then PartName(marker) else []) ==
      if marker > 0 then
        var i := Seek(ks, PartName(marker)); if i < |ks| && ks[i] == PartName(marker) then i + 1 else i
      else 0
  {
    assert forall k: Bytes :: !Less(k, []);
  }

  ghost predicate Ascending(parts: seq<PartInfo>) {
    forall i, j :: 0 <= i < j < |parts| ==> parts[i].partNumber < parts[j].partNumber
  }

  /** The whole part listing: every part once, by ascending number. */
  lemma WholePartListing(parts: map<Bytes, PartInfo>)
    requires WellNumbered(parts)
    ensures Ascending(PartsAfter(parts, 0))
    ensures forall p :: p in PartsAfter(parts, 0) <==> p in parts.Values
  {
    hide Less, PartName, Keys;
    var ks := Keys(parts.Keys);
    var all := PartsAfter(parts, 0);
    StartOfParts(ks, 0);
    PartsByIndex(parts, ks, 0);
    assert ks[0..] == ks;
    forall i, j | 0 <= i < j < |all|
      ensures all[i].partNumber < all[j].partNumber
    {
      assert ks[i] in parts && ks[j] in parts;
      PartOrder(all[i].partNumber, all[j].partNumber);
    }
    forall p | p in parts.Values
      ensures p in all
    {
      var k :| k in parts && parts[k] == p;
      var i :| 0 <= i < |ks| && ks[i] == k;
      assert all[i] == p;
    }
    forall p | p in all
      ensures p in parts.Values
    {
      var i :| 0 <= i < |all| && all[i] == p;
      assert ks[i] in parts;
    }
  }

  /** From any marker below the sixth digit: exactly the parts of greater numbers. */
  lemma PartsBehind(parts: map<Bytes, PartInfo>, marker: int)
    requires WellNumbered(parts) && marker < 100000
    ensures forall p :: p in PartsAfter(parts, marker) <==> p in parts.Values && p.partNumber > marker
  {
    hide Less, PartName, Keys, PartsAt, Sorted, Start;
    var ks := Keys(parts.Keys);
    var start := Start(ks, [], if marker > 0 then PartName(marker) else []);
    StartOfParts(ks, marker);
    PartsByIndex(parts, ks, start);
    forall j | 0 <= j < |ks|
      ensures ks[j] in parts && (start <= j <==> parts[ks[j]].partNumber > marker)
    {
      assert ks[j] in parts;
      if marker > 0 {
        PartOrder(marker, parts[ks[j]].partNumber);
        PartOrder(parts[ks[j]].partNumber, marker);
        SplitAt(ks, PartName(marker), j);
      }
    }
    forall p | p in parts.Values && p.partNumber > marker
      ensures p in PartsAfter(parts, marker)
    {
      var k :| k in parts && parts[k] == p;
      var j :| 0 <= j < |ks| && ks[j] == k;
      assert PartsAfter(parts, marker)[j - start] == p;
    }
    forall p | p in PartsAfter(parts, marker)
      ensures p in parts.Values && p.partNumber > marker
    {
      var i :| 0 <= i < |PartsAfter(parts, marker)| && PartsAfter(parts, marker)[i] == p;
      assert ks[start + i] in parts && parts[ks[start + i]] == p;
    }
  }

  /** Resuming at the number of a listed part gives exactly the parts after it. */
  lemma PartResume(parts: map<Bytes, PartInfo>, t: nat)
    requires WellNumbered(parts) && 0 < t <= |PartsAfter(parts, 0)|
    ensures var all := PartsAfter(parts, 0);
      all[t - 1].partNumber > 0 && PartsAfter(parts, all[t - 1].partNumber) == all[t..]
  {
    hide Less, PartName, Keys, PartsAt, Sorted, Start, Seek;
    var ks := Keys(parts.Keys);
    StartOfParts(ks, 0);
    PartsByIndex(parts, ks, 0);
    assert ks[t - 1] in parts;
    var marker := PartsAfter(parts, 0)[t - 1].partNumber;
    assert marker > 0 && PartName(marker) == ks[t - 1];
    SeekFinds(ks, t - 1);
    StartOfParts(ks, marker);
    assert Start(ks, [], PartName(marker)) == t;
    PartsSuffix(parts, ks, t);
  }

  lemma PartsSuffix(parts: map<Bytes, PartInfo>, ks: seq<Bytes>, t: nat)
    requires t <= |ks| && forall k :: k in ks ==> k in parts
    ensures PartsAt(parts, ks[t..]) == PartsAt(parts, ks[0..])[t..]
  {
  }

  /** Following the part markers delivers the whole part listing, for every positive page size. */
  method FollowPartMarkers(parts: map<Bytes, PartInfo>, maxParts: int) returns (all: seq<PartInfo>)
    requires WellNumbered(parts) && maxParts >= 1
    ensures all == PartsAfter(parts, 0)
  {
    hide PartsAfter, WellNumbered;
    ghost var listing := PartsAfter(parts, 0);
    all := [];
    var marker := 0;
    while true
      invariant all <= listing && PartsAfter(parts, marker) == listing[|all|..]
      decreases |listing| - |all|
    {
      var page, next := ListObjectParts(parts, marker, maxParts);
      ghost var t := |all| + |page|;
      assert listing[..t] == all + page;
      all := all + page;
      if t > 0 { PartResume(parts, t); }
      if next == 0 {
        break;
      }
      marker := next;
    }
  }
}
