/** The handler of a part upload: what it checks of a request before the backend stores the part. */
module PartHandler {
  import opened Backend
  import opened BackendModel
  import opened ByteStrings
  import opened Chunked
  import opened ChunkedStreams
  import opened ObjectTypes
  import opened Outcomes

  const MAX_PART_NUMBER: nat := 10000

  /**
   * The announced length if it is a number, the bytes as they arrive and how they end,
   * and whether they are chunked.
   */
  datatype PartRequest = PartRequest(
    partNumber: int, contentLength: Option<int>, data: Bytes, end: ReadError, chunked: bool)

  /** How the body is read: the sizes asked for, the sizes got, and whether the end comes with the last bytes. */
  datatype Pace = Pace(lens: nat -> nat, grants: nat -> nat, eager: nat -> bool)

  predicate TooLarge(size: int, limit: Option<int>) {
    limit.Some? && size > limit.value
  }

  /** What the checks before the body refuse a request for. */
  function Refusal(q: PartRequest, limit: Option<int>): Option<BackendError> {
    if !(1 <= q.partNumber <= MAX_PART_NUMBER) then Some(InvalidPart)
    else if q.contentLength.None? || q.contentLength.value < 0 then Some(MissingContentLength)
    else if TooLarge(q.contentLength.value, limit) then Some(EntityTooLarge)
    else None
  }

  /**
   * The body a request carries: its bytes, or what they decode to. Of a stream whose
   * chunk is cut by its end, the last read may be lost.
   */
  ghost predicate Carries(q: PartRequest, body: Body) {
    if q.chunked then
      var start := State(q.data, None, false);
      && body.content <= Total(start, q.end).0
      && (body.complete <==> Total(start, q.end).1 == EndOfFile)
      && (Whole(start, q.end) ==> body.content == Total(start, q.end).0)
    else body == Body(q.data, q.end == EndOfFile)
  }

  method HandleUploadPart(
    b: LocalBackend, uploadId: Bytes, q: PartRequest, limit: Option<int>, pace: Pace, now: int, space: bool)
    returns (r: Result<PartInfo, BackendError>, ghost body: Body)
    requires forall n :: pace.lens(n) > 0
    modifies b, b.meta
    ensures Refusal(q, limit).Some? ==> b.Contents() == old(b.Contents()) && r == Err(Refusal(q, limit).value)
    ensures !(1 <= q.partNumber <= 10000) ==> r == Err(InvalidPart)
    ensures 1 <= q.partNumber <= 10000 && (q.contentLength.None? || q.contentLength.value < 0) ==>
      r == Err(MissingContentLength)
    ensures 1 <= q.partNumber <= 10000 && q.contentLength.Some? && q.contentLength.value >= 0 ==>
      (limit.Some? && q.contentLength.value > limit.value ==> r == Err(EntityTooLarge))
    ensures Refusal(q, limit).None? <==>
      && 1 <= q.partNumber <= 10000 && q.contentLength.Some? && q.contentLength.value >= 0
      && (limit.Some? ==> q.contentLength.value <= limit.value)
    ensures Refusal(q, limit).None? ==>
      && Carries(q, body)
      && if !(space && body.complete) then
           b.Contents() == old(b.Contents()) && r == Err(if space then ReadFailed else DiskFull)
         else (b.Contents(), r) == UploadPartAfter(old(b.Contents()), uploadId, q.partNumber, body.content, now)
  {
    hide Total, Whole, UploadPartAfter;
    body := Body([], false);
    if q.partNumber < 1 || q.partNumber > MAX_PART_NUMBER {
      r := Err(InvalidPart);
      return;
    }
    if q.contentLength.None? || q.contentLength.value < 0 {
      r := Err(MissingContentLength);
      return;
    }
    if TooLarge(q.contentLength.value, limit) {
      r := Err(EntityTooLarge);
      return;
    }
    var content, end := q.data, q.end;
    if q.chunked {
      var reader := new AWSChunkedReader(q.data, q.end);
      content, end := CopyAll(reader, pace.lens, pace.grants, pace.eager);
    }
    body := Body(content, end == EndOfFile);
    r := b.UploadPart(uploadId, q.partNumber, Body(content, end == EndOfFile), now, space);
  }
}
