/** What the chunked decoder delivers of whole streams and of streams cut short. */
module ChunkedStreams {
  import opened ByteStrings
  import opened Chunked
  import opened Outcomes

  /** All that reading on delivers, and how it ends. */
  function Total(s: State, end: ReadError): (Bytes, ReadError)
    decreases |s.rest|
  {
    match Advance(s, end)
    case Broken(e, _) => ([], e)
    case Ended(_) => ([], EndOfFile)
    case Ready(rest, left) =>
      var n := Min(left, |rest|);
      var (more, e) := Total(State(rest[n..], Some(left - n), false), end);
      (rest[..n] + more, e)
  }

  /** No chunk's data reaches the end of the stream. */
  predicate Whole(s: State, end: ReadError)
    decreases |s.rest|
  {
    match Advance(s, end)
    case Ready(rest, left) => left < |rest| && Whole(State(rest[left..], Some(0), false), end)
    case _ => true
  }

  lemma SamePosition(s: State, t: State, end: ReadError)
    requires Advance(s, end) == Advance(t, end)
    ensures Total(s, end) == Total(t, end) && (Whole(s, end) <==> Whole(t, end))
  {
    hide Advance;
  }

  lemma AtData(s: State, end: ReadError, rest: Bytes, left: nat)
    requires Advance(s, end) == Ready(rest, left)
    ensures var n := Min(left, |rest|); var (more, e) := Total(State(rest[n..], Some(left - n), false), end);
      Total(s, end) == (rest[..n] + more, e)
    ensures Whole(s, end) <==> left < |rest| && Whole(State(rest[left..], Some(0), false), end)
  {
    hide Advance;
  }

  lemma CutTwice(rest: Bytes, tail: Bytes, k: nat, n: nat)
    requires k <= n <= |rest| && tail == rest[k..]
    ensures tail[..n - k] == rest[k..n] && tail[n - k..] == rest[n..]
  {
  }

  lemma JoinTwice(rest: Bytes, k: nat, n: nat, more: Bytes)
    requires k <= n <= |rest|
    ensures rest[..n] + more == rest[..k] + (rest[k..n] + more)
  {
  }

  /** What follows within a chunk, after all that can be read of it was taken. */
  lemma TakesAll(t: State, u: State, end: ReadError)
    requires t.rest == u.rest && t.chunk == u.chunk && t.chunk.Some? && (t.rest == [] || t.chunk.value == 0)
    ensures Total(t, end) == Total(u, end)
  {
    hide Advance, Total;
    AtChunk(t, end);
    AtChunk(u, end);
    SamePosition(t, u, end);
  }

  /** What is left of a chunk is delivered next, whether or not that is anything. */
  lemma RestOfChunk(t: State, u: State, end: ReadError, data: Bytes)
    requires t.chunk.Some? && t.chunk.value >= 0
    requires var n := Min(t.chunk.value, |t.rest|);
      data == t.rest[..n] && u == State(t.rest[n..], Some(t.chunk.value - n), false)
    ensures Total(t, end).0 == data + Total(u, end).0 && Total(t, end).1 == Total(u, end).1
  {
    hide Advance, Total, Whole;
    if t.chunk.value > 0 && t.rest != [] {
      AtChunk(t, end);
      AtData(t, end, t.rest, t.chunk.value);
    } else {
      assert data == [] && u.rest == t.rest;
      TakesAll(t, u, end);
      NothingBefore(Total(t, end).0);
    }
  }

  lemma NothingBefore(b: Bytes)
    ensures [] + b == b
  {
  }

  /** Taking fewer bytes than a chunk has left changes nothing of what follows. */
  lemma TotalTakes(s: State, end: ReadError, t: State, rest: Bytes, left: nat, k: nat)
    requires Advance(s, end) == Ready(rest, left)
    requires 0 < k <= Min(left, |rest|) && t.rest == rest[k..] && t.chunk == Some(left - k)
    ensures Total(s, end).0 == rest[..k] + Total(t, end).0 && Total(s, end).1 == Total(t, end).1
  {
    hide Advance, Total, Whole;
    var n := Min(left, |rest|);
    var u := State(rest[n..], Some(left - n), false);
    AtData(s, end, rest, left);
    CutTwice(rest, t.rest, k, n);
    RestOfChunk(t, u, end, rest[k..n]);
    JoinTwice(rest, k, n, Total(u, end).0);
  }

  lemma WholeTakes(s: State, end: ReadError, t: State, k: nat)
    requires var p := Advance(s, end);
      p.Ready? && 0 < k <= Min(p.left, |p.rest|) && t.rest == p.rest[k..] && t.chunk == Some(p.left - k)
    requires Whole(s, end)
    ensures Whole(t, end)
  {
    hide Advance, Total, Whole;
    var p := Advance(s, end);
    AtData(s, end, p.rest, p.left);
    var u := State(p.rest[p.left..], Some(0), false);
    AtChunk(t, end);
    if k < p.left {
      AtData(t, end, t.rest, p.left - k);
      CutTwice(p.rest, t.rest, k, p.left);
    } else {
      AtChunk(u, end);
      SamePosition(t, u, end);
    }
  }

  lemma NothingLeft(s: State, end: ReadError)
    requires var p := Advance(s, end); p.Ready? && |p.rest| <= p.left
    ensures var p := Advance(s, end); Total(s, end) == (p.rest, end) && !Whole(s, end)
  {
    hide Advance;
    var p := Advance(s, end);
    var u := State(p.rest[|p.rest|..], Some(p.left - |p.rest|), false);
    AtChunk(u, end);
    AtTrail(State([], None, true), end);
    assert p.rest[..|p.rest|] == p.rest && u.rest == [];
    assert Total(u, end) == ([], end);
    assert p.rest + [] == p.rest;
  }

  /** io.Copy from the decoder: reads of any positive sizes until an error or the end. */
  method CopyAll(r: AWSChunkedReader, lens: nat -> nat, grants: nat -> nat, eager: nat -> bool)
    returns (out: Bytes, err: ReadError)
    requires r.readErr == None && !r.eof && forall n :: lens(n) > 0
    modifies r
    ensures err == Total(old(r.Here()), r.end).1
    ensures out <= Total(old(r.Here()), r.end).0
    ensures Whole(old(r.Here()), r.end) || r.end != EndOfFile || (forall n :: !eager(n)) ==>
      out == Total(old(r.Here()), r.end).0
  {
    hide Advance, Total, Whole;
    out := [];
    var n := 0;
    ghost var start := r.Here();
    assert [] + Total(start, r.end).0 == Total(start, r.end).0;
    while true
      invariant r.readErr == None && !r.eof
      invariant Total(start, r.end) == (out + Total(r.Here(), r.end).0, Total(r.Here(), r.end).1)
      invariant Whole(start, r.end) ==> Whole(r.Here(), r.end)
      decreases |r.rest|
    {
      ghost var before := r.Here();
      AtEnd(before, r.end);
      var data, e := r.Read(lens(n), grants(n), eager(n));
      ghost var p := Advance(before, r.end);
      if e.Some? {
        if p.Ready? { NothingLeft(before, r.end); }
        out := out + data;
        return out, e.value;
      }
      assert data == p.rest[..|data|] && r.rest == p.rest[|data|..];
      TotalTakes(before, r.end, r.Here(), p.rest, p.left, |data|);
      if Whole(before, r.end) { WholeTakes(before, r.end, r.Here(), |data|); }
      Regroup(out, data, Total(r.Here(), r.end).0);
      out := out + data;
      n := n + 1;
    }
  }

  lemma AtEnd(s: State, end: ReadError)
    ensures Advance(s, end).Broken? ==> Total(s, end) == ([], Advance(s, end).error)
    ensures Advance(s, end).Ended? ==> Total(s, end) == ([], EndOfFile)
  {
    hide Advance;
  }

  lemma Regroup(a: Bytes, b: Bytes, c: Bytes)
    ensures a + (b + c) == (a + b) + c
  {
  }

  // ----- streams -----

  /** A header line without its line feed, and the data it announces. */
  datatype Chunk = Chunk(header: Bytes, data: Bytes)

  predicate IsHeader(line: Bytes, size: nat) {
    |line| < BUFFER_SIZE && NEWLINE !in line && ScanHex(SizeField(line + [NEWLINE])) == Some(size)
  }

  predicate ValidChunks(chunks: seq<Chunk>) {
    forall c :: c in chunks ==> c.data != [] && IsHeader(c.header, |c.data|)
  }

  const LINE_BREAK: Bytes := [CARRIAGE_RETURN, NEWLINE]

  function Encode(chunks: seq<Chunk>, last: Bytes, trailer: Bytes): Bytes {
    if chunks == [] then last + [NEWLINE] + trailer
    else chunks[0].header + [NEWLINE] + (chunks[0].data + (LINE_BREAK + Encode(chunks[1..], last, trailer)))
  }

  function Payload(chunks: seq<Chunk>): Bytes {
    if chunks == [] then [] else chunks[0].data + Payload(chunks[1..])
  }

  lemma FirstLine(line: Bytes, more: Bytes, end: ReadError)
    requires |line| < BUFFER_SIZE && NEWLINE !in line
    ensures ReadSlice(line + [NEWLINE] + more, end) == Line(line + [NEWLINE], more)
  {
    var s := line + [NEWLINE] + more;
    assert s[|line|..|line| + 1] == [NEWLINE];
    assert OccursAt(s, [NEWLINE], |line|);
    forall j | 0 <= j < |line|
      ensures !OccursAt(s, [NEWLINE], j)
    {
      assert s[j] == line[j];
    }
    assert IndexFrom(s, [NEWLINE], 0) == Some(|line|);
    assert s[..|line| + 1] == line + [NEWLINE] && s[|line| + 1..] == more;
  }

  lemma NoFirstLine(line: Bytes, end: ReadError)
    requires |line| < BUFFER_SIZE && NEWLINE !in line
    ensures ReadSlice(line, end) == NoLine(end, [])
  {
    forall j: nat
      ensures !OccursAt(line, [NEWLINE], j)
    {
      if j < |line| { assert line[j..j + 1] == [line[j]]; }
    }
  }

  /** A header line puts the reader at its chunk's data. */
  lemma HeaderRead(header: Bytes, size: nat, more: Bytes, end: ReadError)
    requires IsHeader(header, size)
    ensures Advance(State(header + [NEWLINE] + more, None, false), end) ==
      if size == 0 then Ended(more) else Advance(State(more, Some(size), false), end)
  {
    hide Advance, ReadSlice, ScanHex, SizeField;
    FirstLine(header, more, end);
    AtHeader(State(header + [NEWLINE] + more, None, false), end);
  }

  /** The data of a chunk, its line break and what follows: the data is delivered, the break skipped. */
  lemma ChunkRead(data: Bytes, more: Bytes, end: ReadError)
    requires data != []
    ensures var s, t := State(data + (LINE_BREAK + more), Some(|data|), false), State(more, None, false);
      && Total(s, end) == (data + Total(t, end).0, Total(t, end).1)
      && (Whole(t, end) ==> Whole(s, end))
  {
    hide Advance;
    var s, t := State(data + (LINE_BREAK + more), Some(|data|), false), State(more, None, false);
    AtChunk(s, end);
    var u := State(LINE_BREAK + more, Some(0), false);
    assert s.rest[..|data|] == data && s.rest[|data|..] == u.rest;
    AtChunk(u, end);
    AtTrail(State(u.rest, None, true), end);
    assert u.rest[2..] == more;
    SamePosition(u, t, end);
  }

  /** Decoding undoes encoding, for every split into chunks and all headers that fit the buffer. */
  lemma {:induction false} DecodesEncoded(chunks: seq<Chunk>, last: Bytes, trailer: Bytes, end: ReadError)
    requires ValidChunks(chunks) && IsHeader(last, 0)
    ensures var s := State(Encode(chunks, last, trailer), None, false);
      Total(s, end) == (Payload(chunks), EndOfFile) && Whole(s, end)
  {
    hide Advance, IsHeader;
    if chunks == [] {
      HeaderRead(last, 0, trailer, end);
    } else {
      var c, more := chunks[0], Encode(chunks[1..], last, trailer);
      DecodesEncoded(chunks[1..], last, trailer, end);
      HeaderRead(c.header, |c.data|, c.data + (LINE_BREAK + more), end);
      SamePosition(
        State(Encode(chunks, last, trailer), None, false),
        State(c.data + (LINE_BREAK + more), Some(|c.data|), false), end);
      ChunkRead(c.data, more, end);
    }
  }

  // ----- streams cut short -----

  /** Where the line of the last header ends. */
  function HeadersEnd(chunks: seq<Chunk>, last: Bytes): nat {
    if chunks == [] then |last| + 1
    else |chunks[0].header| + 1 + |chunks[0].data| + 2 + HeadersEnd(chunks[1..], last)
  }

  /** The data among the first `c` bytes of a stream. */
  function Arrived(chunks: seq<Chunk>, c: nat): Bytes {
    if chunks == [] then []
    else
      var h, n := |chunks[0].header| + 1, |chunks[0].data|;
      if c <= h then []
      else if c < h + n + 2 then chunks[0].data[..Min(c - h, n)]
      else chunks[0].data + Arrived(chunks[1..], c - h - n - 2)
  }

  /** A cut between the two bytes of a chunk's line break. */
  predicate SplitsBreak(chunks: seq<Chunk>, c: nat) {
    chunks != [] &&
    var end := |chunks[0].header| + 1 + |chunks[0].data|;
    c == end + 1 || (c >= end + 2 && SplitsBreak(chunks[1..], c - end - 2))
  }

  lemma {:induction false} ArrivedIsPrefix(chunks: seq<Chunk>, c: nat)
    ensures Arrived(chunks, c) <= Payload(chunks)
  {
    if chunks != [] {
      var h, n := |chunks[0].header| + 1, |chunks[0].data|;
      if c >= h + n + 2 {
        ArrivedIsPrefix(chunks[1..], c - h - n - 2);
      }
    }
  }

  lemma CutInHeader(line: Bytes, end: ReadError)
    requires |line| < BUFFER_SIZE && NEWLINE !in line
    ensures Total(State(line, None, false), end) == ([], end)
  {
    hide Advance, ReadSlice;
    NoFirstLine(line, end);
    AtHeader(State(line, None, false), end);
  }

  /** A chunk whose data or line break is cut. */
  lemma CutInChunk(data: Bytes, c: nat, end: ReadError)
    requires data != [] && c < |data| + 2
    ensures Total(State((data + LINE_BREAK)[..c], Some(|data|), false), end) ==
      (data[..Min(c, |data|)], if c == |data| + 1 && end == EndOfFile then UnexpectedEOF else end)
  {
    hide Advance, Total, Whole;
    var s := State((data + LINE_BREAK)[..c], Some(|data|), false);
    AtChunk(s, end);
    AtTrail(State([], None, true), end);
    if c == 0 {
      AtEnd(s, end);
    } else if c <= |data| {
      assert s.rest == data[..c];
      NothingLeft(s, end);
    } else {
      assert s.rest == data + [CARRIAGE_RETURN] && data[..|data|] == data;
      CutInBreak(data, s, end);
    }
  }

  lemma CutInBreak(data: Bytes, s: State, end: ReadError)
    requires data != [] && s == State(data + [CARRIAGE_RETURN], Some(|data|), false)
    ensures Total(s, end) == (data, if end == EndOfFile then UnexpectedEOF else end)
  {
    hide Advance, Total, Whole;
    AtChunk(s, end);
    AtData(s, end, s.rest, |data|);
    var u := State(s.rest[|data|..], Some(0), false);
    assert u.rest == [CARRIAGE_RETURN] && s.rest[..|data|] == data;
    AtChunk(u, end);
    AtTrail(State(u.rest, None, true), end);
    AtEnd(u, end);
    assert data + [] == data;
  }

  lemma CutEncoded(header: Bytes, data: Bytes, more: Bytes, c: nat)
    requires c <= |header| + 1 + |data| + 2 + |more|
    ensures var all := header + [NEWLINE] + (data + (LINE_BREAK + more)); var h, n := |header| + 1, |data|;
      && (c < h ==> all[..c] == header[..c])
      && (h <= c < h + n + 2 ==> all[..c] == header + [NEWLINE] + (data + LINE_BREAK)[..c - h])
      && (h + n + 2 <= c ==> all[..c] == header + [NEWLINE] + (data + (LINE_BREAK + more[..c - h - n - 2])))
  {
  }

  /**
   * A stream cut before its last header line is complete: the data that arrived is
   * delivered. If the data just ends, only a cut within a chunk's line break is told
   * from the end of the body.
   */
  lemma {:induction false} DecodesCut(chunks: seq<Chunk>, last: Bytes, trailer: Bytes, c: nat, end: ReadError)
    requires ValidChunks(chunks) && IsHeader(last, 0) && c < HeadersEnd(chunks, last)
    ensures c <= |Encode(chunks, last, trailer)|
    ensures Total(State(Encode(chunks, last, trailer)[..c], None, false), end) ==
      (Arrived(chunks, c), if end == EndOfFile && SplitsBreak(chunks, c) then UnexpectedEOF else end)
  {
    hide Advance, Total, Whole, ScanHex, SizeField, ReadSlice;
    var all := Encode(chunks, last, trailer);
    if chunks == [] {
      assert all[..c] == last[..c];
      CutInHeader(last[..c], end);
    } else {
      var ch, more := chunks[0], Encode(chunks[1..], last, trailer);
      var h, n := |ch.header| + 1, |ch.data|;
      if c >= h + n + 2 {
        DecodesCut(chunks[1..], last, trailer, c - h - n - 2, end);
      } else {
        EncodeIsLong(chunks, last, trailer);
      }
      CutEncoded(ch.header, ch.data, more, c);
      if c < h {
        CutInHeader(ch.header[..c], end);
      } else if c < h + n + 2 {
        var rest := (ch.data + LINE_BREAK)[..c - h];
        HeaderRead(ch.header, n, rest, end);
        SamePosition(State(all[..c], None, false), State(rest, Some(n), false), end);
        CutInChunk(ch.data, c - h, end);
      } else {
        var left := more[..c - h - n - 2];
        HeaderRead(ch.header, n, ch.data + (LINE_BREAK + left), end);
        SamePosition(State(all[..c], None, false), State(ch.data + (LINE_BREAK + left), Some(n), false), end);
        ChunkRead(ch.data, left, end);
      }
    }
  }

  lemma {:induction false} EncodeIsLong(chunks: seq<Chunk>, last: Bytes, trailer: Bytes)
    ensures |Encode(chunks, last, trailer)| == HeadersEnd(chunks, last) + |trailer|
  {
    if chunks != [] { EncodeIsLong(chunks[1..], last, trailer); }
  }

  /** A stream is longer than what it carries. */
  lemma {:induction false} FramingIsLonger(chunks: seq<Chunk>, last: Bytes, trailer: Bytes)
    ensures |Encode(chunks, last, trailer)| > |Payload(chunks)|
  {
    if chunks != [] { FramingIsLonger(chunks[1..], last, trailer); }
  }

  /** For every truncation of a stream the bytes delivered are a prefix of the payload, never framing. */
  lemma CutDeliversPrefix(chunks: seq<Chunk>, last: Bytes, trailer: Bytes, c: nat, end: ReadError)
    requires ValidChunks(chunks) && IsHeader(last, 0) && c <= |Encode(chunks, last, trailer)|
    ensures var (out, e) := Total(State(Encode(chunks, last, trailer)[..c], None, false), end);
      && out <= Payload(chunks)
      && (c >= HeadersEnd(chunks, last) ==> out == Payload(chunks) && e == EndOfFile)
  {
    hide Advance, Total, IsHeader;
    if c < HeadersEnd(chunks, last) {
      DecodesCut(chunks, last, trailer, c, end);
      ArrivedIsPrefix(chunks, c);
    } else {
      EncodeIsLong(chunks, last, trailer);
      CutTrailer(chunks, last, trailer, c - HeadersEnd(chunks, last));
      DecodesEncoded(chunks, last, trailer[..c - HeadersEnd(chunks, last)], end);
    }
  }

  lemma {:induction false} CutTrailer(chunks: seq<Chunk>, last: Bytes, trailer: Bytes, k: nat)
    requires k <= |trailer|
    ensures |Encode(chunks, last, trailer)| == HeadersEnd(chunks, last) + |trailer|
    ensures Encode(chunks, last, trailer)[..HeadersEnd(chunks, last) + k] == Encode(chunks, last, trailer[..k])
  {
    if chunks != [] {
      CutTrailer(chunks[1..], last, trailer, k);
      CutEncoded(chunks[0].header, chunks[0].data, Encode(chunks[1..], last, trailer), HeadersEnd(chunks, last) + k);
    }
  }

  // ----- the headers clients send -----

  function HexDigit(d: nat): byte
    requires d < 16
  {
    if d < 10 then 48 + d as byte else 87 + d as byte
  }

  function HexOf(n: nat): Bytes {
    if n < 16 then [HexDigit(n)] else HexOf(n / 16) + [HexDigit(n % 16)]
  }

  predicate AllDigits(s: Bytes) {
    forall b :: b in s ==> Digit(b).Some?
  }

  lemma {:induction false} DigitsAppend(s: Bytes, d: byte, value: nat)
    requires AllDigits(s) && Digit(d).Some?
    ensures DigitsFrom(s + [d], value) == 16 * DigitsFrom(s, value) + Digit(d).value
  {
    if s == [] {
      assert s + [d] == [d] && [d][1..] == [];
    } else {
      assert (s + [d])[1..] == s[1..] + [d];
      DigitsAppend(s[1..], d, 16 * value + Digit(s[0]).value);
    }
  }

  lemma {:induction false} HexIsRead(n: nat)
    ensures HexOf(n) != [] && AllDigits(HexOf(n)) && DigitsFrom(HexOf(n), 0) == n
  {
    if n >= 16 {
      var q, r := n / 16, n % 16;
      assert n == 16 * q + r;
      HexIsRead(q);
      DigitsAppend(HexOf(q), HexDigit(r), 0);
    }
  }

  lemma {:induction false} TrimStops(head: Bytes, b: byte, tail: Bytes)
    requires b != NEWLINE && b != CARRIAGE_RETURN
    ensures head + [b] <= TrimRight(head + [b] + tail)
  {
    var s := head + [b] + tail;
    if tail != [] {
      assert s[..|s| - 1] == head + [b] + tail[..|tail| - 1];
      TrimStops(head, b, tail[..|tail| - 1]);
    }
  }

  lemma FieldEnds(field: Bytes, trimmed: Bytes)
    requires SEMICOLON !in field && field + [SEMICOLON] <= trimmed
    ensures IndexFrom(trimmed, [SEMICOLON], 0) == Some(|field|) && trimmed[..|field|] == field
  {
    assert trimmed[|field|..|field| + 1] == [SEMICOLON];
    assert OccursAt(trimmed, [SEMICOLON], |field|);
    forall j | 0 <= j < |field|
      ensures !OccursAt(trimmed, [SEMICOLON], j)
    {
      assert trimmed[j] == field[j];
    }
  }

  /** The size in hexadecimal, an extension, a carriage return: a header of that size if it fits the buffer. */
  lemma SignedHeader(size: nat, extension: Bytes)
    requires size < INT64_LIMIT && NEWLINE !in extension
    requires |HexOf(size)| + 1 + |extension| + 1 < BUFFER_SIZE
    ensures IsHeader(HexOf(size) + [SEMICOLON] + extension + [CARRIAGE_RETURN], size)
  {
    hide TrimRight, HexOf, DigitsFrom;
    var field := HexOf(size);
    var line := field + [SEMICOLON] + extension + [CARRIAGE_RETURN];
    HexIsRead(size);
    assert line + [NEWLINE] == field + [SEMICOLON] + (extension + [CARRIAGE_RETURN, NEWLINE]);
    TrimStops(field, SEMICOLON, extension + [CARRIAGE_RETURN, NEWLINE]);
    FieldEnds(field, TrimRight(line + [NEWLINE]));
    assert Digit(field[0]).Some?;
    assert SkipSpace(field) == field;
    assert forall b :: b in field ==> Digit(b).Some?;
  }

  // ----- all headers that are read as a size -----

  predicate IsHex(b: byte) {
    48 <= b <= 57 || 65 <= b <= 70 || 97 <= b <= 102
  }

  predicate AllHex(s: Bytes) {
    forall i :: 0 <= i < |s| ==> IsHex(s[i])
  }

  /** White space within a line. */
  predicate AllBlank(s: Bytes) {
    forall i :: 0 <= i < |s| ==> s[i] == 32 || s[i] == 9 || 11 <= s[i] <= 13
  }

  function HexValue(b: byte): (v: nat)
    requires IsHex(b)
    ensures Digit(b) == Some(v)
  {
    if b <= 57 then b as nat - 48 else if b <= 70 then b as nat - 55 else b as nat - 87
  }

  /** The number that hexadecimal digits of either case write. */
  function HexNumber(digits: Bytes): nat
    requires AllHex(digits)
  {
    if digits == [] then 0
    else 16 * HexNumber(digits[..|digits| - 1]) + HexValue(digits[|digits| - 1])
  }

  lemma {:induction false} DigitsAreRead(digits: Bytes)
    requires AllHex(digits)
    ensures DigitsFrom(digits, 0) == HexNumber(digits)
  {
    if digits != [] {
      var front, last := digits[..|digits| - 1], digits[|digits| - 1];
      assert digits == front + [last];
      DigitsAreRead(front);
      assert AllDigits(front) && HexValue(last) == Digit(last).value;
      DigitsAppend(front, last, 0);
    }
  }

  lemma {:induction false} DigitsStop(digits: Bytes, rest: Bytes, value: nat)
    requires AllHex(digits) && (rest == [] || !IsHex(rest[0]))
    ensures DigitsFrom(digits + rest, value) == DigitsFrom(digits, value)
  {
    if digits == [] {
      assert digits + rest == rest;
    } else {
      assert (digits + rest)[1..] == digits[1..] + rest;
      DigitsStop(digits[1..], rest, 16 * value + HexValue(digits[0]));
    }
  }

  lemma {:induction false} SpacesAreSkipped(spaces: Bytes, rest: Bytes)
    requires (forall i :: 0 <= i < |spaces| ==> IsSpace(spaces[i])) && (rest == [] || !IsSpace(rest[0]))
    ensures SkipSpace(spaces + rest) == rest
  {
    if spaces == [] {
      assert spaces + rest == rest;
    } else {
      assert (spaces + rest)[1..] == spaces[1..] + rest;
      SpacesAreSkipped(spaces[1..], rest);
    }
  }

  /**
   * Spaces, a sign or none, digits, and whatever follows: the number, if it fits 64 bits
   * with a sign.
   */
  lemma HexIsScanned(spaces: Bytes, sign: Bytes, digits: Bytes, rest: Bytes)
    requires AllBlank(spaces) && (sign == [] || sign == [43] || sign == [45])
    requires digits != [] && AllHex(digits) && (rest == [] || !IsHex(rest[0]))
    ensures var n: int := HexNumber(digits);
      ScanHex(spaces + (sign + (digits + rest))) ==
        if sign == [45] then (if n <= 0x8000_0000_0000_0000 then Some(-n) else None)
        else if n < 0x8000_0000_0000_0000 then Some(n) else None
  {
    hide DigitsFrom, HexNumber, SkipSpace;
    var t := sign + (digits + rest);
    SpacesAreSkipped(spaces, t);
    DigitsAreRead(digits);
    DigitsStop(digits, rest, 0);
    assert IsHex(digits[0]) && Digit(digits[0]) == Some(HexValue(digits[0]));
    if sign == [] { assert t == digits + rest; } else { assert t[1..] == digits + rest; }
  }

  /** Without a digit after the spaces there is no number. */
  lemma NothingIsScanned(spaces: Bytes, rest: Bytes)
    requires (forall i :: 0 <= i < |spaces| ==> IsSpace(spaces[i])) && (rest == [] || StartsNoNumber(rest[0]))
    ensures ScanHex(spaces + rest) == None
  {
    hide SkipSpace;
    SpacesAreSkipped(spaces, rest);
  }

  /** Neither a digit nor a sign nor white space. */
  predicate StartsNoNumber(b: byte) {
    !IsHex(b) && b != 43 && b != 45 && b != 32 && !(9 <= b <= 13)
  }

  lemma {:induction false} TrimIsPrefix(s: Bytes)
    ensures TrimRight(s) <= s
  {
    if s != [] { TrimIsPrefix(s[..|s| - 1]); }
  }

  /** The field that is read is the head of the line, up to a semicolon or the line's end. */
  lemma FieldIsPrefix(line: Bytes)
    ensures SizeField(line) <= line
  {
    hide TrimRight;
    TrimIsPrefix(line);
  }

  /** It keeps all up to the last byte before any semicolon or line end. */
  lemma FieldKeeps(head: Bytes, b: byte, tail: Bytes)
    requires SEMICOLON !in head && b != SEMICOLON && b != NEWLINE && b != CARRIAGE_RETURN
    ensures head + [b] <= SizeField(head + [b] + tail)
  {
    hide TrimRight;
    TrimStops(head, b, tail);
    FirstSemicolon(TrimRight(head + [b] + tail), head + [b]);
  }

  lemma FirstSemicolon(s: Bytes, head: Bytes)
    requires head <= s && SEMICOLON !in head
    ensures var i := IndexFrom(s, [SEMICOLON], 0); i.Some? ==> i.value >= |head|
  {
    var i := IndexFrom(s, [SEMICOLON], 0);
    if i.Some? { assert s[i.value] == s[i.value..i.value + 1][0]; }
  }

  /**
   * Every header a stream may have: spaces, digits of either case, and whatever follows on
   * the line announce the number that the digits write.
   */
  lemma AnyHeader(spaces: Bytes, digits: Bytes, tail: Bytes)
    requires AllBlank(spaces) && digits != [] && AllHex(digits) && HexNumber(digits) < 0x8000_0000_0000_0000
    requires NEWLINE !in tail && (tail == [] || !IsHex(tail[0])) && |spaces| + |digits| + |tail| < 4096
    ensures IsHeader(spaces + digits + tail, HexNumber(digits))
  {
    hide SizeField, HexNumber, ScanHex, AllHex, AllBlank;
    var rest := FieldOfHeader(spaces, digits, tail);
    HexIsScanned(spaces, [], digits, rest);
    assert spaces + ([] + (digits + rest)) == spaces + digits + rest;
    PlainBytes(spaces, digits);
  }

  lemma FieldOfHeader(spaces: Bytes, digits: Bytes, tail: Bytes) returns (rest: Bytes)
    requires AllBlank(spaces) && digits != [] && AllHex(digits) && (tail == [] || !IsHex(tail[0]))
    ensures SizeField(spaces + digits + tail + [NEWLINE]) == spaces + digits + rest
    ensures rest == [] || !IsHex(rest[0])
  {
    hide SizeField, AllHex, AllBlank;
    var head, line := spaces + digits, spaces + digits + tail + [NEWLINE];
    PlainBytes(spaces, digits);
    var front, last := head[..|head| - 1], head[|head| - 1];
    assert head == front + [last] && last == digits[|digits| - 1];
    assert line == front + [last] + (tail + [NEWLINE]);
    FieldKeeps(front, last, tail + [NEWLINE]);
    FieldIsPrefix(line);
    var field := SizeField(line);
    rest := field[|head|..];
    assert field == head + rest;
    assert rest != [] ==> rest[0] == line[|head|] == (tail + [NEWLINE])[0];
  }

  lemma PlainBytes(spaces: Bytes, digits: Bytes)
    requires AllBlank(spaces) && AllHex(digits)
    ensures SEMICOLON !in spaces + digits && NEWLINE !in spaces + digits
    ensures digits != [] ==> var b := digits[|digits| - 1]; b != SEMICOLON && b != NEWLINE && b != CARRIAGE_RETURN
  {
  }

  /** A line that starts with no number, after spaces or none, ends the stream as invalid. */
  lemma NoHeader(spaces: Bytes, tail: Bytes, more: Bytes, end: ReadError)
    requires AllBlank(spaces) && NEWLINE !in tail && (tail == [] || StartsNoNumber(tail[0]))
    requires |spaces| + |tail| < 4096
    ensures Total(State(spaces + tail + [NEWLINE] + more, None, false), end) == ([], InvalidSize)
  {
    hide SizeField, ScanHex, Total, Advance, ReadSlice;
    var line := spaces + tail + [NEWLINE];
    FieldIsPrefix(line);
    var field := SizeField(line);
    LineIsRead(spaces + tail, more, end);
    var n := if |field| <= |spaces| then |field| else |spaces|;
    assert field == field[..n] + field[n..];
    assert forall i :: 0 <= i < n ==> field[i] == spaces[i];
    if n < |field| && tail == [] {
      assert field == spaces + [NEWLINE];
      NothingIsScanned(field, []);
      assert field + [] == field;
    } else {
      assert n < |field| ==> field[n..][0] == line[n] == tail[0];
      NothingIsScanned(field[..n], field[n..]);
    }
    AtBadHeader(State(spaces + tail + [NEWLINE] + more, None, false), end);
  }

  /** A header that announces less than nothing is an empty chunk: two bytes on the stream goes on. */
  lemma NegativeChunk(line: Bytes, a: byte, b: byte, more: Bytes, end: ReadError)
    requires |line| < 4096 && NEWLINE !in line
    requires var n := ScanHex(SizeField(line + [NEWLINE])); n.Some? && n.value < 0
    ensures Total(State(line + [NEWLINE] + ([a, b] + more), None, false), end) == Total(State(more, None, false), end)
  {
    hide SizeField, ScanHex, ReadSlice, Advance;
    var rest, n := [a, b] + more, ScanHex(SizeField(line + [NEWLINE]));
    var s := State(line + [NEWLINE] + rest, None, false);
    LineIsRead(line, rest, end);
    AtHeader(s, end);
    AtChunk(State(rest, n, false), end);
    AtTrail(State(rest, None, true), end);
    assert rest[2..] == more;
    SameTotal(s, State(more, None, false), end);
  }

  lemma SameTotal(s: State, t: State, end: ReadError)
    requires Advance(s, end) == Advance(t, end)
    ensures Total(s, end) == Total(t, end)
  {
    hide Advance;
  }

  lemma LineIsRead(line: Bytes, more: Bytes, end: ReadError)
    requires |line| < BUFFER_SIZE && NEWLINE !in line
    ensures ReadSlice(line + [NEWLINE] + more, end) == Line(line + [NEWLINE], more)
  {
    var s := line + [NEWLINE] + more;
    assert s[|line|..|line| + 1] == [NEWLINE];
    assert OccursAt(s, [NEWLINE], |line|);
    forall j | 0 <= j < |line|
      ensures !OccursAt(s, [NEWLINE], j)
    {
      assert s[j..j + 1] == [line[j]];
    }
    assert IndexFrom(s, [NEWLINE], 0) == Some(|line|);
  }

  lemma AtBadHeader(s: State, end: ReadError)
    requires s.chunk.None? && !s.chunkEOF && ReadSlice(s.rest, end).Line?
    requires ScanHex(SizeField(ReadSlice(s.rest, end).line)) == None
    ensures Total(s, end) == ([], InvalidSize)
  {
    hide ReadSlice, ScanHex, SizeField;
  }

  /** A header line of 4096 bytes or more is too long; data that ends before is no header. */
  lemma NoLineEnd(data: Bytes, end: ReadError)
    requires forall j :: 0 <= j < |data| && j < 4096 ==> data[j] != NEWLINE
    ensures Total(State(data, None, false), end) == ([], if |data| >= 4096 then BufferFull else end)
  {
    var i := IndexFrom(data, [NEWLINE], 0);
    if i.Some? { assert data[i.value..i.value + 1][0] == NEWLINE; }
  }
}
