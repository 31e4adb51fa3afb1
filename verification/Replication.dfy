/** The replication service: its queue, and bringing one event to every target. */
module Replication {
  import opened ByteStrings
  import opened Outcomes

  /** A bucket and a key in it. */
  type Name = (Bytes, Bytes)

  datatype EventType = EventPut | EventDelete

  /** `size` is the content length that the request announced. */
  datatype Event = Event(kind: EventType, name: Name, size: int)

  /** How a request to a target ended: `Lost` is any failure but an error response. */
  datatype Reply = Done | Rejected(code: string) | Lost

  /** What happens to a transfer: it arrives, the target refuses it, or it breaks off. */
  datatype Transfer = Works | Refused(code: string) | Breaks

  /**
   * What one attempt meets: the primary's content when it is read, the reply to the
   * bucket's creation, the fate of the transfer, and what it leaves if it breaks off.
   */
  datatype Encounter = Encounter(read: Option<Bytes>, makeBucket: Reply, transfer: Transfer, left: Option<Bytes>)

  datatype ReplicationError = MakeBucketFailed | PutFailed | RemoveFailed

  const MAX_RETRIES: nat := 3

  function Assign(objects: map<Name, Bytes>, name: Name, value: Option<Bytes>): map<Name, Bytes> {
    match value case Some(v) => objects[name := v] case None => objects - {name}
  }

  function Lookup(objects: map<Name, Bytes>, name: Name): Option<Bytes> {
    if name in objects then Some(objects[name]) else None
  }

  predicate BucketFailure(reply: Reply) {
    reply.Rejected? && reply.code != "BucketAlreadyExists" && reply.code != "BucketAlreadyOwnedByYou"
  }

  /**
   * Whether an attempt counts as done: what was read has the announced size and
   * arrives, or the object is said to be gone.
   */
  predicate Delivers(ev: Event, e: Encounter) {
    !BucketFailure(e.makeBucket) &&
    if ev.kind == EventPut then e.transfer.Works? && e.read.Some? && |e.read.value| == ev.size
    else e.transfer.Works? || e.transfer == Refused("NoSuchKey")
  }

  /** No one but the target itself says that an object is gone. */
  predicate Honest(ev: Event, e: Encounter) {
    ev.kind == EventDelete ==> e.transfer != Refused("NoSuchKey")
  }

  /** Whether an attempt that fails may still have changed the object on the target. */
  predicate LeavesTraces(ev: Event, e: Encounter) {
    !BucketFailure(e.makeBucket) && if ev.kind == EventPut then !e.transfer.Refused? else e.transfer.Breaks?
  }

  /** The content that a delivered event gives its object. */
  function Outcome(ev: Event, e: Encounter): Option<Bytes> {
    if ev.kind == EventPut then e.read else None
  }

  function AttemptAfter(objects: map<Name, Bytes>, ev: Event, e: Encounter): map<Name, Bytes> {
    if Delivers(ev, e) then (if e.transfer.Works? then Assign(objects, ev.name, Outcome(ev, e)) else objects)
    else if LeavesTraces(ev, e) then Assign(objects, ev.name, e.left)
    else objects
  }

  /** Attempts up to the first that delivers. */
  function RetryAfter(objects: map<Name, Bytes>, ev: Event, encounters: seq<Encounter>): map<Name, Bytes>
    decreases |encounters|
  {
    if encounters == [] then objects
    else
      var after := AttemptAfter(objects, ev, encounters[0]);
      if Delivers(ev, encounters[0]) then after else RetryAfter(after, ev, encounters[1..])
  }

  /**
   * What an attempt needs and does, for all replies: it ends at the bucket exactly if
   * that is rejected with another code than the two that say it is there.
   */
  lemma AttemptMeans(objects: map<Name, Bytes>, ev: Event, e: Encounter)
    ensures var goesOn := e.makeBucket == Done || e.makeBucket == Lost ||
                          e.makeBucket == Rejected("BucketAlreadyExists") ||
                          e.makeBucket == Rejected("BucketAlreadyOwnedByYou");
      && (!goesOn ==> !Delivers(ev, e) && AttemptAfter(objects, ev, e) == objects)
      && (goesOn && ev.kind == EventPut && e.transfer.Works? && e.read.Some? && |e.read.value| == ev.size ==>
            Delivers(ev, e) && AttemptAfter(objects, ev, e) == objects[ev.name := e.read.value])
      && (ev.kind == EventPut && !(e.transfer.Works? && e.read.Some? && |e.read.value| == ev.size) ==>
            !Delivers(ev, e))
      && (goesOn && ev.kind == EventDelete ==>
            (Delivers(ev, e) <==> e.transfer.Works? || e.transfer == Refused("NoSuchKey")))
      && (goesOn && ev.kind == EventDelete && e.transfer.Works? ==>
            AttemptAfter(objects, ev, e) == objects - {ev.name})
      && (e.transfer.Refused? ==> AttemptAfter(objects, ev, e) == objects)
      && (goesOn && !Delivers(ev, e) && !e.transfer.Refused? ==>
            AttemptAfter(objects, ev, e) ==
              if e.left.Some? then objects[ev.name := e.left.value] else objects - {ev.name})
  {
  }

  lemma AssignOne(objects: map<Name, Bytes>, name: Name, value: Option<Bytes>)
    ensures Lookup(Assign(objects, name, value), name) == value
    ensures forall other :: other != name ==> Lookup(Assign(objects, name, value), other) == Lookup(objects, other)
  {
  }

  /** Attempts touch only the event's object, and leave it as the first that delivers asks. */
  lemma {:induction false} RetryTouchesOne(objects: map<Name, Bytes>, ev: Event, encounters: seq<Encounter>)
    requires forall e :: e in encounters ==> Honest(ev, e)
    ensures var after := RetryAfter(objects, ev, encounters);
      && (forall name :: name != ev.name ==> Lookup(after, name) == Lookup(objects, name))
      && (FirstDelivery(ev, encounters).Some? ==>
            Lookup(after, ev.name) == Outcome(ev, encounters[FirstDelivery(ev, encounters).value]))
    decreases |encounters|
  {
    hide Assign, Lookup, LeavesTraces, Outcome;
    if encounters != [] {
      var e := encounters[0];
      assert Honest(ev, e);
      AssignOne(objects, ev.name, Outcome(ev, e));
      AssignOne(objects, ev.name, e.left);
      RetryTouchesOne(AttemptAfter(objects, ev, e), ev, encounters[1..]);
    }
  }

  class Target {
    const strict: bool // whether deleting a missing object is answered with NoSuchKey
    var objects: map<Name, Bytes>

    constructor (strict: bool)
      ensures objects == map[] && this.strict == strict
    {
      this.strict, objects := strict, map[];
    }

    /** A put of a body with an announced length; the transport fails on any other length. */
    method PutObject(name: Name, body: Option<Bytes>, size: int, transfer: Transfer, left: Option<Bytes>)
      returns (reply: Reply)
      modifies this
      ensures reply == Done <==> transfer.Works? && body.Some? && |body.value| == size
      ensures transfer.Refused? ==> reply == Rejected(transfer.code)
      ensures reply.Rejected? ==> transfer.Refused?
      ensures objects == if reply == Done then old(objects)[name := body.value]
        else if reply == Lost then Assign(old(objects), name, left) else old(objects)
    {
      if transfer.Refused? {
        return Rejected(transfer.code);
      }
      if transfer.Breaks? || body.None? || |body.value| != size {
        objects := Assign(objects, name, left);
        return Lost;
      }
      objects := objects[name := body.value];
      reply := Done;
    }

    method RemoveObject(name: Name, transfer: Transfer, left: Option<Bytes>) returns (reply: Reply)
      modifies this
      ensures transfer.Works? ==> objects == old(objects) - {name}
      ensures transfer.Works? ==> reply == if strict && name !in old(objects) then Rejected("NoSuchKey") else Done
      ensures transfer.Refused? ==> objects == old(objects) && reply == Rejected(transfer.code)
      ensures transfer.Breaks? ==> objects == Assign(old(objects), name, left) && reply == Lost
    {
      match transfer {
        case Refused(code) => return Rejected(code);
        case Breaks =>
          objects := Assign(objects, name, left);
          return Lost;
        case Works =>
          if strict && name !in objects {
            return Rejected("NoSuchKey");
          }
          objects := objects - {name};
          reply := Done;
      }
    }

    /**
     * One attempt. A bucket that the target rejects for another reason than that it has
     * it ends the attempt. Otherwise a put succeeds exactly if the content has the
     * announced size and arrives, and a delete exactly if it works or the object is
     * answered to be gone. Only the event's object changes.
     */
    method ReplicateToTarget(ev: Event, e: Encounter) returns (err: Option<ReplicationError>)
      modifies this
      ensures err.None? <==> Delivers(ev, e)
      ensures objects == AttemptAfter(old(objects), ev, e)
      ensures
        var was, name := old(objects), ev.name;
        var left := if e.left.Some? then was[name := e.left.value] else was - {name};
        if e.makeBucket.Rejected? && e.makeBucket.code !in {"BucketAlreadyExists", "BucketAlreadyOwnedByYou"} then
          err == Some(MakeBucketFailed) && objects == was
        else if ev.kind == EventPut then
          if e.transfer.Refused? then err == Some(PutFailed) && objects == was
          else if e.transfer.Works? && e.read.Some? && |e.read.value| == ev.size then
            err == None && objects == was[name := e.read.value]
          else err == Some(PutFailed) && objects == left
        else
          match e.transfer
          case Works => err == None && objects == was - {name}
          case Refused(code) => objects == was && err == if code == "NoSuchKey" then None else Some(RemoveFailed)
          case Breaks => err == Some(RemoveFailed) && objects == left
    {
      if
        && e.makeBucket.Rejected?
        && e.makeBucket.code != "BucketAlreadyExists" && e.makeBucket.code != "BucketAlreadyOwnedByYou"
      {
        return Some(MakeBucketFailed);
      }
      match ev.kind {
        case EventPut =>
          var reply := PutObject(ev.name, e.read, ev.size, e.transfer, e.left);
          if reply != Done {
            return Some(PutFailed);
          }
        case EventDelete =>
          var reply := RemoveObject(ev.name, e.transfer, e.left);
          if reply != Done {
            if reply == Rejected("NoSuchKey") {
              return None;
            }
            return Some(RemoveFailed);
          }
      }
      err := None;
    }

    /** Up to three attempts, with a wait after every failed one that doubles each time. */
    method ReplicateWithRetry(ev: Event, encounters: seq<Encounter>)
      returns (err: Option<ReplicationError>, tries: nat, waits: seq<nat>)
      requires |encounters| == 3
      modifies this
      ensures 1 <= tries <= 3
      ensures forall i :: 0 <= i < tries - 1 ==> !Delivers(ev, encounters[i])
      ensures err.None? <==> Delivers(ev, encounters[tries - 1])
      ensures err.Some? ==> tries == 3
      ensures objects == RetryAfter(old(objects), ev, encounters)
      ensures waits == [1, 2, 4][..if err.None? then tries - 1 else tries]
    {
      hide Delivers, AttemptAfter;
      var backoff: nat := 1;
      err, tries, waits := None, 0, [];
      assert encounters[0..] == encounters;
      while tries < MAX_RETRIES
        invariant tries <= MAX_RETRIES && |waits| == tries && (tries > 0 ==> err.Some?)
        invariant forall i :: 0 <= i < tries ==> !Delivers(ev, encounters[i])
        invariant RetryAfter(objects, ev, encounters[tries..]) == RetryAfter(old(objects), ev, encounters)
        invariant waits == [1, 2, 4][..tries] && (tries < MAX_RETRIES ==> backoff == [1, 2, 4][tries])
      {
        assert encounters[tries..][1..] == encounters[tries + 1..];
        err := ReplicateToTarget(ev, encounters[tries]);
        tries := tries + 1;
        if err.None? {
          return;
        }
        waits := waits + [backoff];
        backoff := backoff * 2;
      }
    }
  }

  /** The first of some attempts that delivers. */
  function FirstDelivery(ev: Event, encounters: seq<Encounter>): (r: Option<nat>)
    ensures r.Some? ==> r.value < |encounters| && Delivers(ev, encounters[r.value])
    ensures forall i :: 0 <= i < (if r.Some? then r.value else |encounters|) ==> !Delivers(ev, encounters[i])
  {
    if encounters == [] then None
    else if Delivers(ev, encounters[0]) then Some(0)
    else
      var rest := FirstDelivery(ev, encounters[1..]);
      if rest.Some? then Some(rest.value + 1) else None
  }

  /** One event for every target in turn; a target that was given up on does not stop the others. */
  method ProcessEvent(clients: seq<Target>, ev: Event, encounters: seq<seq<Encounter>>)
    requires |encounters| == |clients|
    requires forall i, j :: 0 <= i < j < |clients| ==> clients[i] != clients[j]
    requires forall i :: 0 <= i < |clients| ==> |encounters[i]| == MAX_RETRIES
    modifies clients
    ensures forall i :: 0 <= i < |clients| ==>
      clients[i].objects == RetryAfter(old(clients[i].objects), ev, encounters[i])
  {
    hide RetryAfter, Delivers;
    for c := 0 to |clients|
      invariant forall i :: 0 <= i < c ==> clients[i].objects == RetryAfter(old(clients[i].objects), ev, encounters[i])
      invariant forall i :: c <= i < |clients| ==> clients[i].objects == old(clients[i].objects)
    {
      var err, tries, waits := clients[c].ReplicateWithRetry(ev, encounters[c]);
    }
  }

  class Service {
    const maxQueueSize: nat
    var queue: seq<Event>

    constructor (maxQueueSize: nat)
      ensures queue == [] && this.maxQueueSize == maxQueueSize
    {
      this.maxQueueSize, queue := maxQueueSize, [];
    }

    /** A full queue drops the event. */
    method Enqueue(ev: Event)
      modifies this
      ensures queue == if |old(queue)| < maxQueueSize then old(queue) + [ev] else old(queue)
    {
      if |queue| < maxQueueSize {
        queue := queue + [ev];
      }
    }

    method Next() returns (ev: Event)
      requires queue != []
      modifies this
      ensures [ev] + queue == old(queue)
    {
      ev, queue := queue[0], queue[1..];
    }
  }
}
