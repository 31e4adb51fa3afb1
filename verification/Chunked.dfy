/**
 * The decoder of aws-chunked bodies: header lines that give a size in hexadecimal,
 * each followed by that many bytes and a line break, up to a size of zero.
 */
module Chunked {
  import opened ByteStrings
  import opened Outcomes

  const NEWLINE: byte := 10
  const CARRIAGE_RETURN: byte := 13
  const SEMICOLON: byte := 59
  const BUFFER_SIZE: nat := 4096
  const INT64_LIMIT: int := 0x8000_0000_0000_0000

  datatype ReadError = EndOfFile | UnexpectedEOF | BufferFull | InvalidSize | SourceFailed

  // ----- one header line -----

  datatype Slice = Line(line: Bytes, rest: Bytes) | NoLine(error: ReadError, rest: Bytes)

  /** bufio.Reader.ReadSlice('\n'): a line has to fit the buffer; `end` is how the data ends. */
  function ReadSlice(rest: Bytes, end: ReadError): (r: Slice)
    ensures r.Line? ==> rest == r.line + r.rest && r.line != []
    ensures |r.rest| <= |rest|
  {
    var i := IndexFrom(rest, [NEWLINE], 0);
    if i.Some? && i.value < BUFFER_SIZE then Line(rest[..i.value + 1], rest[i.value + 1..])
    else if |rest| >= BUFFER_SIZE then NoLine(BufferFull, rest[BUFFER_SIZE..])
    else NoLine(end, [])
  }

  /** bytes.TrimRight(line, "\r\n") */
  function TrimRight(line: Bytes): Bytes {
    if line != [] && (line[|line| - 1] == NEWLINE || line[|line| - 1] == CARRIAGE_RETURN)
    then TrimRight(line[..|line| - 1])
    else line
  }

  function SizeField(line: Bytes): Bytes {
    var trimmed := TrimRight(line);
    var i := IndexFrom(trimmed, [SEMICOLON], 0);
    if i.Some? then trimmed[..i.value] else trimmed
  }

  predicate IsSpace(b: byte) {
    b == 32 || 9 <= b <= 13
  }

  function SkipSpace(s: Bytes): (r: Bytes)
    ensures |r| <= |s|
  {
    if s != [] && IsSpace(s[0]) then SkipSpace(s[1..]) else s
  }

  function Digit(b: byte): Option<nat> {
    if 48 <= b <= 57 then Some(b as nat - 48)
    else if 65 <= b <= 70 then Some(b as nat - 55)
    else if 97 <= b <= 102 then Some(b as nat - 87)
    else None
  }

  /** The value of the digits at the head of `s`, read after `value`. */
  function DigitsFrom(s: Bytes, value: nat): nat {
    if s != [] && Digit(s[0]).Some? then DigitsFrom(s[1..], 16 * value + Digit(s[0]).value) else value
  }

  /** fmt.Sscanf(s, "%x", &n) for an int64: spaces, a sign, digits; what follows is ignored. */
  function ScanHex(s: Bytes): Option<int> {
    var t := SkipSpace(s);
    var negative := t != [] && t[0] == 45;
    var digits := if t != [] && (t[0] == 43 || t[0] == 45) then t[1..] else t;
    if digits == [] || Digit(digits[0]).None? then None
    else
      var n: int := DigitsFrom(digits, 0);
      if n < INT64_LIMIT then Some(if negative then -n else n)
      else if negative && n == INT64_LIMIT then Some(-n)
      else None
  }

  // ----- the decoder -----

  /** What is unread, how much of the current chunk is left, and whether its line break is still to come. */
  datatype State = State(rest: Bytes, chunk: Option<int>, chunkEOF: bool)

  datatype Position = Ready(rest: Bytes, left: nat) | Ended(rest: Bytes) | Broken(error: ReadError, rest: Bytes)

  function Rank(s: State): nat {
    if s.chunk.Some? then 2 else if s.chunkEOF then 1 else 0
  }

  /** Where a reader gets before it can deliver a byte. */
  function Advance(s: State, end: ReadError): (p: Position)
    ensures |p.rest| <= |s.rest|
    ensures p.Ready? ==> p.rest != [] && p.left > 0
    decreases |s.rest|, Rank(s)
  {
    if s.chunk.Some? then
      if s.chunk.value > 0 && s.rest != [] then Ready(s.rest, s.chunk.value)
      else if s.chunk.value > 0 && end != EndOfFile then Broken(end, [])
      else Advance(State(s.rest, None, true), end)
    else if s.chunkEOF then
      if |s.rest| >= 2 then Advance(State(s.rest[2..], None, false), end)
      else Broken(if s.rest == [] || end != EndOfFile then end else UnexpectedEOF, [])
    else
      match ReadSlice(s.rest, end)
      case NoLine(e, rest) => Broken(e, rest)
      case Line(line, rest) =>
        match ScanHex(SizeField(line))
        case None => Broken(InvalidSize, rest)
        case Some(size) => if size == 0 then Ended(rest) else Advance(State(rest, Some(size), false), end)
  }

  function Min(a: int, b: int): int {
    if a < b then a else b
  }

  /**
   * What one Read may do. `eager` says whether a source that hands out its last
   * bytes reports its end together with them.
   */
  ghost predicate Reads(s: State, end: ReadError, len: nat, eager: bool, out: Bytes, err: Option<ReadError>, t: State) {
    match Advance(s, end)
    case Broken(e, rest) => out == [] && err == Some(e) && t.rest == rest
    case Ended(rest) => out == [] && err == Some(EndOfFile) && t.rest == rest
    case Ready(rest, left) =>
      if err.None? then
        && 0 < |out| <= Min(len, Min(left, |rest|))
        && rest == out + t.rest && t.chunk == Some(left - |out|)
      else
        && eager && |rest| <= Min(len, left) && t.rest == []
        && err == Some(end) && out == if end == EndOfFile then [] else rest
  }

  lemma AtChunk(s: State, end: ReadError)
    requires s.chunk.Some?
    ensures s.chunk.value > 0 && s.rest != [] ==> Advance(s, end) == Ready(s.rest, s.chunk.value)
    ensures s.chunk.value > 0 && s.rest == [] && end != EndOfFile ==> Advance(s, end) == Broken(end, [])
    ensures s.chunk.value <= 0 || (s.rest == [] && end == EndOfFile) ==>
      Advance(s, end) == Advance(State(s.rest, None, true), end)
  {
  }

  lemma AtTrail(s: State, end: ReadError)
    requires s.chunk.None? && s.chunkEOF
    ensures |s.rest| >= 2 ==> Advance(s, end) == Advance(State(s.rest[2..], None, false), end)
    ensures |s.rest| < 2 ==>
      Advance(s, end) == Broken(if s.rest == [] || end != EndOfFile then end else UnexpectedEOF, [])
  {
  }

  lemma AtHeader(s: State, end: ReadError)
    requires s.chunk.None? && !s.chunkEOF
    ensures ReadSlice(s.rest, end).NoLine? ==>
      Advance(s, end) == Broken(ReadSlice(s.rest, end).error, ReadSlice(s.rest, end).rest)
    ensures ReadSlice(s.rest, end).Line? ==>
      var rest, size := ReadSlice(s.rest, end).rest, ScanHex(SizeField(ReadSlice(s.rest, end).line));
      Advance(s, end) ==
        if size.None? then Broken(InvalidSize, rest)
        else if size.value == 0 then Ended(rest)
        else Advance(State(rest, size, false), end)
  {
    hide ReadSlice, ScanHex, SizeField;
  }

  class AWSChunkedReader {
    const end: ReadError // how the underlying data ends
    var rest: Bytes // what the buffered reader has still to give
    var chunk: Option<int> // what the limit of the current chunk's reader has left
    var chunkEOF: bool
    var eof: bool
    var readErr: Option<ReadError>

    ghost function Here(): State
      reads this
    {
      State(rest, chunk, chunkEOF)
    }

    constructor (data: Bytes, end: ReadError)
      ensures Here() == State(data, None, false) && !eof && readErr == None && this.end == end
    {
      this.end, rest, chunk, chunkEOF, eof, readErr := end, data, None, false, false, None;
    }

    /** The chunk's reader: at most `len` bytes and at most what the chunk has left, `grant` of them if it can. */
    method ReadChunk(len: nat, grant: nat, eager: bool) returns (out: Bytes, err: Option<ReadError>)
      requires chunk.Some?
      modifies this`rest, this`chunk
      ensures old(rest) == out + rest && chunk == Some(old(chunk.value) - |out|)
      ensures out != [] ==> |out| <= Min(len, old(chunk.value))
      ensures old(chunk.value) <= 0 ==> out == [] && err == Some(EndOfFile)
      ensures old(chunk.value) > 0 && err.Some? ==> err == Some(end) && rest == [] && (out != [] ==> eager)
      ensures old(chunk.value) > 0 && err.None? ==> if len == 0 then out == [] else out != []
    {
      if chunk.value <= 0 {
        return [], Some(EndOfFile);
      }
      var want := Min(len, chunk.value);
      if want == 0 {
        err := if eager && rest == [] then Some(end) else None;
        return [], err;
      }
      if rest == [] {
        return [], Some(end);
      }
      var n := Min(if grant == 0 then 1 else grant, Min(want, |rest|));
      out := rest[..n];
      rest, chunk := rest[n..], Some(chunk.value - n);
      err := if eager && rest == [] then Some(end) else None;
    }

    method Read(len: nat, grant: nat, eager: bool) returns (out: Bytes, err: Option<ReadError>)
      modifies this
      ensures old(readErr).Some? ==> out == [] && err == old(readErr)
      ensures old(readErr).None? && old(eof) ==> out == [] && err == Some(EndOfFile)
      ensures old(readErr).Some? || old(eof) ==> Here() == old(Here()) && readErr == old(readErr) && eof == old(eof)
      ensures old(readErr).None? && !old(eof) ==>
        && (err.None? <==> readErr.None? && !eof)
        && (if err.None? && out == [] then len == 0 && Advance(Here(), end) == Advance(old(Here()), end)
            else Reads(old(Here()), end, len, eager, out, err, Here()))
    {
      hide Advance, ReadSlice, ScanHex, SizeField;
      if readErr.Some? {
        return [], readErr;
      }
      if eof {
        return [], Some(EndOfFile);
      }
      ghost var position := Advance(Here(), end);
      ghost var dropped := false;
      while true
        invariant readErr == None && !eof
        invariant if dropped then
            && Here() == State([], None, true) && end == EndOfFile && eager
            && position.Ready? && |position.rest| <= Min(len, position.left)
          else Advance(Here(), end) == position
        decreases |rest|, Rank(Here())
      {
        ghost var s := Here();
        if chunk.Some? {
          AtChunk(s, end);
          var n;
          n, err := ReadChunk(len, grant, eager);
          assert n == [] ==> rest == s.rest;
          if err == Some(EndOfFile) {
            dropped := dropped || n != [];
            chunk := None;
            chunkEOF := true;
            continue;
          }
          if err.Some? {
            readErr := err;
            return n, err;
          }
          return n, None;
        }
        if chunkEOF {
          AtTrail(s, end);
          if |rest| < 2 {
            readErr := Some(if rest == [] || end != EndOfFile then end else UnexpectedEOF);
            rest := [];
            return [], readErr;
          }
          rest := rest[2..];
          chunkEOF := false;
        }
        AtHeader(Here(), end);
        match ReadSlice(rest, end) {
          case NoLine(e, r) =>
            rest, readErr := r, Some(e);
            return [], readErr;
          case Line(line, r) =>
            rest := r;
            var parsedSize := ScanHex(SizeField(line));
            if parsedSize.None? {
              readErr := Some(InvalidSize);
              return [], readErr;
            }
            if parsedSize.value == 0 {
              eof := true;
              return [], Some(EndOfFile);
            }
            chunk := parsedSize;
        }
      }
    }
  }
}
