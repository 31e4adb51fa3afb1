/**
 * Replication as a protocol: request handlers that change the primary and then
 * send an event, a bounded queue, and one worker that brings each event to every
 * target, reading the primary's current content for each attempt.
 */
module ReplicationProtocol {
  import opened ByteStrings
  import opened Outcomes
  import opened Replication
  import ChunkedStreams

  /** The event in work, the target it is brought to, failed attempts there, and what this attempt has read. */
  datatype Work = Work(event: Event, target: nat, failed: nat, read: Option<Option<Bytes>>)

  /**
   * `told` remembers the kind of the event last put in the queue for an object.
   * `silent` are the objects whose last change sent no event, as copies, completions,
   * form uploads and expiries send none. `pending` are the events of handlers between
   * their change and its enqueueing; handlers of one object may overtake one another.
   */
  datatype System = System(
    primary: map<Name, Bytes>,
    told: map<Name, EventType>,
    silent: set<Name>,
    pending: seq<Event>,
    queue: seq<Event>,
    working: Option<Work>,
    replicas: seq<map<Name, Bytes>>)

  datatype Step =
    | Change(event: Event, content: Option<Bytes>)
    | Silent(name: Name, content: Option<Bytes>)
    | Enqueue(i: nat)
    | Take
    | ReadPrimary
    | Succeed
    | Fail(left: Option<Bytes>)

  predicate Enabled(s: System, step: Step) {
    match step
    case Change(ev, content) => ev.kind == EventPut ==> content.Some?
    case Silent(name, content) => true
    case Enqueue(i) => i < |s.pending|
    case Take => s.working.None? && s.queue != []
    case ReadPrimary => s.working.Some? && s.working.value.event.kind == EventPut && s.working.value.read.None?
    case Succeed =>
      && s.working.Some?
      && var w := s.working.value;
         w.event.kind == EventPut ==> w.read.Some? && w.read.value.Some? && |w.read.value.value| == w.event.size
    case Fail(left) => s.working.Some?
  }

  predicate OnTarget(s: System) {
    s.working.Some? ==> s.working.value.target < |s.replicas|
  }

  function NextTarget(s: System): Option<Work>
    requires s.working.Some?
  {
    var w := s.working.value;
    if w.target + 1 < |s.replicas| then Some(Work(w.event, w.target + 1, 0, None)) else None
  }

  function WithoutAt(events: seq<Event>, i: nat): seq<Event>
    requires i < |events|
  {
    events[..i] + events[i + 1..]
  }

  /** The content a successful attempt gives the object on the target. */
  function Delivered(w: Work): Option<Bytes> {
    if w.event.kind == EventPut && w.read.Some? then w.read.value else None
  }

  function Next(s: System, step: Step, capacity: nat): System
    requires Enabled(s, step) && OnTarget(s)
  {
    match step
    case Change(ev, content) =>
      s.(primary := Assign(s.primary, ev.name, content),
         silent := s.silent - {ev.name},
         pending := s.pending + [ev])
    case Silent(name, content) =>
      s.(primary := Assign(s.primary, name, content), silent := s.silent + {name})
    case Enqueue(i) =>
      if |s.queue| >= capacity then s.(pending := WithoutAt(s.pending, i))
      else
        s.(pending := WithoutAt(s.pending, i), queue := s.queue + [s.pending[i]],
           told := s.told[s.pending[i].name := s.pending[i].kind])
    case Take => s.(queue := s.queue[1..],
      working := if s.replicas == [] then None else Some(Work(s.queue[0], 0, 0, None)))
    case ReadPrimary =>
      s.(working := Some(s.working.value.(read := Some(Lookup(s.primary, s.working.value.event.name)))))
    case Succeed =>
      var w := s.working.value;
      s.(working := NextTarget(s),
         replicas := s.replicas[w.target := Assign(s.replicas[w.target], w.event.name, Delivered(w))])
    case Fail(left) =>
      var w := s.working.value;
      s.(working := if w.failed + 1 < MAX_RETRIES then Some(w.(failed := w.failed + 1, read := None))
                    else NextTarget(s),
         replicas := s.replicas[w.target := Assign(s.replicas[w.target], w.event.name, left)])
  }

  // ----- what the invariant says -----

  ghost predicate Tells(events: seq<Event>, name: Name) {
    exists i :: 0 <= i < |events| && events[i].name == name
  }

  /** An event of the object is still to be enqueued or taken from the queue. */
  ghost predicate Later(s: System, name: Name) {
    Tells(s.pending, name) || Tells(s.queue, name)
  }

  /** An event of the object is still to be brought to target `j`. */
  ghost predicate Outstanding(s: System, name: Name, j: nat) {
    Later(s, name) || (s.working.Some? && s.working.value.event.name == name && s.working.value.target <= j)
  }

  /** What the event last told of an object asks a target to have of it. */
  function Wanted(s: System, name: Name): Option<Bytes> {
    if name in s.told && s.told[name] == EventDelete then None else Lookup(s.primary, name)
  }

  predicate Told(s: System, ev: Event) {
    ev.name in s.told && s.told[ev.name] == ev.kind
  }

  ghost predicate LastInQueue(queue: seq<Event>, i: nat)
    requires i < |queue|
  {
    forall j :: i < j < |queue| ==> queue[j].name != queue[i].name
  }

  /** The last queued event of an object is the one last told of it. */
  ghost predicate QueueFits(s: System) {
    forall i :: 0 <= i < |s.queue| && LastInQueue(s.queue, i) ==> Told(s, s.queue[i])
  }

  /** So is the event in work if no other follows, and what has been read is still there. */
  ghost predicate WorkFits(s: System) {
    s.working.Some? ==>
      var w := s.working.value;
      && w.target < |s.replicas| && w.failed < MAX_RETRIES
      && (!Later(s, w.event.name) && w.event.name !in s.silent ==>
            Told(s, w.event) && (w.read.Some? ==> w.read.value == Lookup(s.primary, w.event.name)))
  }

  /** Target `j` has the object as last told, or an event of it is outstanding, or its last change was silent. */
  ghost predicate AgreesOrOutstanding(s: System, j: nat, name: Name)
    requires j < |s.replicas|
  {
    name in s.silent || Lookup(s.replicas[j], name) == Wanted(s, name) || Outstanding(s, name, j)
  }

  ghost predicate Inv(s: System) {
    QueueFits(s) && WorkFits(s) && forall j, name :: 0 <= j < |s.replicas| ==> AgreesOrOutstanding(s, j, name)
  }

  // ----- what runs are assumed to keep -----

  /**
   * No event is dropped, and one is given up only when a later one of its object is on
   * its way or the object has changed silently since.
   */
  ghost predicate Kept(s: System, step: Step, capacity: nat) {
    match step
    case Enqueue(_) => |s.queue| < capacity
    case Fail(_) =>
      s.working.Some? && s.working.value.failed + 1 >= MAX_RETRIES ==>
        Later(s, s.working.value.event.name) || s.working.value.event.name in s.silent
    case _ => true
  }

  ghost predicate Legal(s: System, step: Step, capacity: nat) {
    Enabled(s, step) && Kept(s, step, capacity)
  }

  // ----- each step -----

  lemma ChangeKeeps(s: System, ev: Event, content: Option<Bytes>, capacity: nat)
    requires Inv(s) && Legal(s, Change(ev, content), capacity)
    ensures Inv(Next(s, Change(ev, content), capacity))
  {
    hide LastInQueue, Tells;
    var t := Next(s, Change(ev, content), capacity);
    forall name
      ensures Tells(t.pending, name) <==> Tells(s.pending, name) || name == ev.name
    {
      TellsAppend(s.pending, ev, name);
    }
    forall j, name | 0 <= j < |t.replicas|
      ensures AgreesOrOutstanding(t, j, name)
    {
      assert AgreesOrOutstanding(s, j, name);
    }
  }

  lemma TellsAppend(events: seq<Event>, ev: Event, name: Name)
    ensures Tells(events + [ev], name) <==> Tells(events, name) || name == ev.name
  {
    if Tells(events, name) {
      var i :| 0 <= i < |events| && events[i].name == name;
      assert (events + [ev])[i] == events[i];
    }
    assert (events + [ev])[|events|] == ev;
  }

  lemma TellsWithout(events: seq<Event>, i: nat, name: Name)
    requires i < |events| && name != events[i].name
    ensures Tells(WithoutAt(events, i), name) <==> Tells(events, name)
  {
    var rest := WithoutAt(events, i);
    assert forall j :: 0 <= j < |rest| ==> rest[j] == events[if j < i then j else j + 1];
    if Tells(events, name) {
      var j :| 0 <= j < |events| && events[j].name == name;
      assert rest[if j < i then j else j - 1] == events[j];
    }
  }

  lemma LaterKept(s: System, i: nat, capacity: nat, name: Name)
    requires OnTarget(s) && Legal(s, Enqueue(i), capacity)
    ensures Later(Next(s, Enqueue(i), capacity), name) <==> Later(s, name)
  {
    hide WithoutAt;
    TellsAppend(s.queue, s.pending[i], name);
    if name != s.pending[i].name { TellsWithout(s.pending, i, name); }
    assert Tells(s.pending, s.pending[i].name);
  }

  lemma LastAppended(queue: seq<Event>, ev: Event)
    ensures forall k :: 0 <= k < |queue| && LastInQueue(queue + [ev], k) ==>
      LastInQueue(queue, k) && queue[k].name != ev.name
  {
    var longer := queue + [ev];
    assert longer[|queue|] == ev;
    forall k | 0 <= k < |queue| && LastInQueue(longer, k)
      ensures LastInQueue(queue, k) && queue[k].name != ev.name
    {
      assert forall j :: k < j < |queue| ==> longer[j] == queue[j];
    }
  }

  lemma EnqueueKeeps(s: System, i: nat, capacity: nat)
    requires Inv(s) && Legal(s, Enqueue(i), capacity)
    ensures Inv(Next(s, Enqueue(i), capacity))
  {
    hide Tells, Later, LastInQueue, WithoutAt;
    var t := Next(s, Enqueue(i), capacity);
    LastAppended(s.queue, s.pending[i]);
    LaterKept(s, i, capacity, s.pending[i].name);
    assert Later(s, s.pending[i].name) by { PendingIsLater(s, i); }
    forall name
      ensures Later(t, name) <==> Later(s, name)
    {
      LaterKept(s, i, capacity, name);
    }
    forall j, name | 0 <= j < |t.replicas|
      ensures AgreesOrOutstanding(t, j, name)
    {
      assert AgreesOrOutstanding(s, j, name);
    }
  }

  lemma PendingIsLater(s: System, i: nat)
    requires i < |s.pending|
    ensures Later(s, s.pending[i].name)
  {
  }

  lemma TakeKeeps(s: System, capacity: nat)
    requires Inv(s) && Legal(s, Take, capacity) && s.replicas != []
    ensures Inv(Next(s, Take, capacity))
  {
    var t := Next(s, Take, capacity);
    var ev := s.queue[0];
    forall name
      ensures Tells(s.queue, name) <==> Tells(t.queue, name) || name == ev.name
    {
      TellsTail(s.queue, name);
    }
    forall k | 0 <= k < |t.queue| && LastInQueue(t.queue, k)
      ensures Told(t, t.queue[k])
    {
      assert LastInQueue(s.queue, k + 1);
    }
    if !Later(t, ev.name) {
      assert forall j :: 0 < j < |s.queue| ==> s.queue[j] == t.queue[j - 1];
      assert LastInQueue(s.queue, 0);
    }
    forall j, name | 0 <= j < |t.replicas|
      ensures AgreesOrOutstanding(t, j, name)
    {
      assert AgreesOrOutstanding(s, j, name);
    }
  }

  lemma TellsTail(events: seq<Event>, name: Name)
    requires events != []
    ensures Tells(events, name) <==> Tells(events[1..], name) || name == events[0].name
  {
    if Tells(events[1..], name) {
      var i :| 0 <= i < |events| - 1 && events[1..][i].name == name;
      assert events[i + 1].name == name;
    }
    if Tells(events, name) && name != events[0].name {
      var i :| 0 <= i < |events| && events[i].name == name;
      assert events[1..][i - 1].name == name;
    }
  }

  lemma OtherKeeps(s: System, step: Step, capacity: nat)
    requires Inv(s) && Legal(s, step, capacity) && !step.Change? && !step.Enqueue? && !step.Take?
    ensures Inv(Next(s, step, capacity))
  {
    hide Tells, LastInQueue;
    var t := Next(s, step, capacity);
    forall j, name | 0 <= j < |t.replicas|
      ensures AgreesOrOutstanding(t, j, name)
    {
      assert AgreesOrOutstanding(s, j, name);
    }
  }

  // ----- runs -----

  lemma StepKeeps(s: System, step: Step, capacity: nat)
    requires Inv(s) && s.replicas != [] && Legal(s, step, capacity)
    ensures Inv(Next(s, step, capacity)) && |Next(s, step, capacity).replicas| == |s.replicas|
  {
    hide Told, LastInQueue, Tells, Later, Outstanding;
    match step
    case Change(ev, content) => ChangeKeeps(s, ev, content, capacity);
    case Enqueue(i) => EnqueueKeeps(s, i, capacity);
    case Take => TakeKeeps(s, capacity);
    case _ => OtherKeeps(s, step, capacity);
  }

  /** The states of a run, each step legal where it is taken. */
  ghost predicate IsRun(states: seq<System>, steps: seq<Step>, capacity: nat) {
    && |states| == |steps| + 1
    && forall i :: 0 <= i < |steps| ==>
         && Legal(states[i], steps[i], capacity)
         && OnTarget(states[i])
         && states[i + 1] == Next(states[i], steps[i], capacity)
  }

  lemma {:induction false} RunKeeps(states: seq<System>, steps: seq<Step>, capacity: nat, n: nat)
    requires IsRun(states, steps, capacity) && n <= |steps|
    requires Inv(states[0]) && states[0].replicas != []
    ensures Inv(states[n]) && states[n].replicas != []
  {
    hide Inv, Legal, Next;
    if n > 0 {
      RunKeeps(states, steps, capacity, n - 1);
      StepKeeps(states[n - 1], steps[n - 1], capacity);
    }
  }

  ghost predicate Drained(s: System) {
    s.pending == [] && s.queue == [] && s.working.None?
  }

  /** Drained, nothing told yet, and every target like the primary. */
  ghost predicate AtPeace(s: System) {
    && Drained(s) && s.told == map[] && s.silent == {}
    && s.replicas != [] && forall r :: r in s.replicas ==> r == s.primary
  }

  lemma PeaceHolds(s: System)
    requires AtPeace(s)
    ensures Inv(s)
  {
    forall j, name | 0 <= j < |s.replicas|
      ensures AgreesOrOutstanding(s, j, name)
    {
      assert s.replicas[j] in s.replicas;
    }
  }

  /**
   * In every state of a run from agreement, each object on each target is as the
   * event last told of it asks, or one of its events is pending, queued or in work, or
   * its last change was silent.
   */
  lemma AgreementOrWork(states: seq<System>, steps: seq<Step>, capacity: nat, n: nat, j: nat, name: Name)
    requires IsRun(states, steps, capacity) && n <= |steps| && AtPeace(states[0])
    ensures states[n].replicas != [] && (j < |states[n].replicas| ==> AgreesOrOutstanding(states[n], j, name))
  {
    PeaceHolds(states[0]);
    RunKeeps(states, steps, capacity, n);
  }

  /** The kind of the event of an object that was enqueued last in the first `n` steps. */
  ghost function LastEnqueued(states: seq<System>, steps: seq<Step>, n: nat, name: Name): Option<EventType>
    requires n <= |steps| < |states|
  {
    if n == 0 then None
    else
      var before, step := states[n - 1], steps[n - 1];
      if step.Enqueue? && step.i < |before.pending| && before.pending[step.i].name == name
      then Some(before.pending[step.i].kind)
      else LastEnqueued(states, steps, n - 1, name)
  }

  lemma {:induction false} ToldMeans(states: seq<System>, steps: seq<Step>, capacity: nat, n: nat, name: Name)
    requires IsRun(states, steps, capacity) && n <= |steps| && states[0].told == map[]
    ensures LastEnqueued(states, steps, n, name) == if name in states[n].told then Some(states[n].told[name]) else None
  {
    hide Assign, Lookup, WithoutAt, Later;
    if n > 0 {
      ToldMeans(states, steps, capacity, n - 1, name);
      assert Legal(states[n - 1], steps[n - 1], capacity);
      assert states[n - 1 + 1] == Next(states[n - 1], steps[n - 1], capacity);
    }
  }

  /**
   * After a run that ends drained, however its handlers raced, a target has an object
   * whose last change sent an event as the primary has it exactly if the event of the
   * object that was enqueued last is a put, or none was, or the primary has no such object.
   */
  lemma DrainedEqualsPrimary(states: seq<System>, steps: seq<Step>, capacity: nat, j: nat, name: Name)
    requires IsRun(states, steps, capacity) && AtPeace(states[0])
    requires var s := states[|steps|]; Drained(s) && j < |s.replicas| && name !in s.silent
    ensures var s := states[|steps|];
      Lookup(s.replicas[j], name) == Lookup(s.primary, name) <==>
        LastEnqueued(states, steps, |steps|, name) != Some(EventDelete) || Lookup(s.primary, name) == None
  {
    AgreementOrWork(states, steps, capacity, |steps|, j, name);
    ToldMeans(states, steps, capacity, |steps|, name);
  }

  lemma SameLookups(a: map<Name, Bytes>, b: map<Name, Bytes>)
    requires forall name :: Lookup(a, name) == Lookup(b, name)
    ensures a == b
  {
    forall name
      ensures name in a <==> name in b
      ensures name in a ==> a[name] == b[name]
    {
      assert Lookup(a, name) == Lookup(b, name);
    }
  }

  // ----- runs that diverge -----

  /** One step of a run. */
  ghost predicate Steps(s: System, step: Step, capacity: nat, t: System) {
    Legal(s, step, capacity) && OnTarget(s) && t == Next(s, step, capacity)
  }

  lemma {:induction false} RunGrows(states: seq<System>, steps: seq<Step>, capacity: nat, step: Step, t: System)
    requires IsRun(states, steps, capacity) && Steps(states[|steps|], step, capacity, t)
    ensures IsRun(states + [t], steps + [step], capacity)
  {
    hide Next, Kept, Enabled, OnTarget;
    var longer, more := states + [t], steps + [step];
    forall i | 0 <= i < |more|
      ensures Legal(longer[i], more[i], capacity) && OnTarget(longer[i])
      ensures longer[i + 1] == Next(longer[i], more[i], capacity)
    {
      if i < |steps| { assert longer[i] == states[i] && longer[i + 1] == states[i + 1] && more[i] == steps[i]; }
    }
  }

  /**
   * Deleting one version sends a delete event although the object lives on: an instance
   * in which the event enqueued last is a delete and the primary has the object.
   */
  lemma VersionDeleteDiverges(s: System, name: Name, content: Bytes, capacity: nat)
    returns (states: seq<System>, steps: seq<Step>)
    requires AtPeace(s) && |s.replicas| == 1 && capacity > 0
    ensures IsRun(states, steps, capacity) && states[0] == s
    ensures steps == [Change(Event(EventDelete, name, 0), Some(content)), Enqueue(0), Take, Succeed]
    ensures var end := states[4];
      && Drained(end) && |end.replicas| == 1 && Lookup(end.primary, name) == Some(content)
      && Lookup(end.replicas[0], name) != Lookup(end.primary, name)
  {
    var s1 := Next(s, Change(Event(EventDelete, name, 0), Some(content)), capacity);
    var s2 := Next(s1, Enqueue(0), capacity);
    var s3 := Next(s2, Take, capacity);
    var s4 := Next(s3, Succeed, capacity);
    states := [s, s1, s2, s3, s4];
    steps := [Change(Event(EventDelete, name, 0), Some(content)), Enqueue(0), Take, Succeed];
    assert s1.pending[0].name == name;
    LastOfRun(states, steps, 2, name, EventDelete);
    DrainedEqualsPrimary(states, steps, capacity, 0, name);
  }

  /** No step from `n` on enqueues an event of the object. */
  lemma {:induction false} LastOfRun(states: seq<System>, steps: seq<Step>, n: nat, name: Name, kind: EventType)
    requires 0 < n <= |steps| < |states| && LastEnqueued(states, steps, n, name) == Some(kind)
    requires forall i :: n <= i < |steps| ==> !steps[i].Enqueue?
    ensures LastEnqueued(states, steps, |steps|, name) == Some(kind)
    decreases |steps| - n
  {
    if n < |steps| { LastOfRun(states, steps, n + 1, name, kind); }
  }

  /** A change without event: a drained system stays drained, and agrees exactly if nothing was changed. */
  lemma SilentDiverges(s: System, name: Name, content: Option<Bytes>, capacity: nat, j: nat)
    requires Drained(s) && j < |s.replicas| && Lookup(s.replicas[j], name) == Lookup(s.primary, name)
    ensures var t := Next(s, Silent(name, content), capacity);
      && Drained(t)
      && (Lookup(t.replicas[j], name) == Lookup(t.primary, name) <==> content == Lookup(s.primary, name))
  {
  }

  /** Nor does a put that is faithfully told help, if its attempt read before the silent change. */
  lemma SilentAfterReadDiverges(s: System, name: Name, content: Bytes, other: Option<Bytes>, capacity: nat)
    returns (s1: System, s2: System, s3: System, s4: System, s5: System, end: System)
    requires Drained(s) && |s.replicas| == 1 && capacity > 0 && other != Some(content)
    ensures
      && Steps(s, Change(Event(EventPut, name, |content|), Some(content)), capacity, s1)
      && Steps(s1, Enqueue(0), capacity, s2) && Steps(s2, Take, capacity, s3) && Steps(s3, ReadPrimary, capacity, s4)
      && Steps(s4, Silent(name, other), capacity, s5) && Steps(s5, Succeed, capacity, end)
    ensures Drained(end) && Lookup(end.replicas[0], name) == Some(content) && Lookup(end.primary, name) == other
  {
    s1 := Next(s, Change(Event(EventPut, name, |content|), Some(content)), capacity);
    s2 := Next(s1, Enqueue(0), capacity);
    s3 := Next(s2, Take, capacity);
    s4 := Next(s3, ReadPrimary, capacity);
    s5 := Next(s4, Silent(name, other), capacity);
    end := Next(s5, Succeed, capacity);
  }

  /**
   * A full queue drops the event: the change stays on the primary, and nothing that the
   * queue, the worker or the targets hold tells of it.
   */
  lemma DroppedEventIsLost(s: System, ev: Event, content: Option<Bytes>, capacity: nat)
    requires OnTarget(s) && Enabled(s, Change(ev, content)) && |s.queue| >= capacity
    ensures var changed := Next(s, Change(ev, content), capacity);
      Next(changed, Enqueue(|s.pending|), capacity) ==
        s.(primary := if content.Some? then s.primary[ev.name := content.value] else s.primary - {ev.name},
           silent := s.silent - {ev.name})
  {
    assert WithoutAt(s.pending + [ev], |s.pending|) == s.pending;
  }

  /**
   * Two handlers of one object that change it in one order and send their events in
   * the other: an instance of the same kind.
   */
  lemma RacingHandlersDiverge(s: System, name: Name, content: Bytes, capacity: nat)
    returns (states: seq<System>, steps: seq<Step>)
    requires AtPeace(s) && |s.replicas| == 1 && capacity > 1
    ensures IsRun(states, steps, capacity) && states[0] == s && |steps| == 9
    ensures steps[..4] == [Change(Event(EventDelete, name, 0), None),
                           Change(Event(EventPut, name, |content|), Some(content)), Enqueue(1), Enqueue(0)]
    ensures var end := states[9];
      && Drained(end) && |end.replicas| == 1 && Lookup(end.primary, name) == Some(content)
      && Lookup(end.replicas[0], name) != Lookup(end.primary, name)
  {
    hide Next, Kept, Enabled, OnTarget, Steps, IsRun, LastEnqueued, AtPeace, Lookup, Drained;
    states, steps := RacingEvents(s, name, content, capacity);
    var s5, s6, s7, s8, s9 := WorkedOff(states[4], name, content, capacity);
    RunGrows(states, steps, capacity, Take, s5);
    RunGrows(states + [s5], steps + [Take], capacity, ReadPrimary, s6);
    RunGrows(states + [s5] + [s6], steps + [Take] + [ReadPrimary], capacity, Succeed, s7);
    RunGrows(states + [s5] + [s6] + [s7], steps + [Take] + [ReadPrimary] + [Succeed], capacity, Take, s8);
    RunGrows(states + [s5] + [s6] + [s7] + [s8], steps + [Take] + [ReadPrimary] + [Succeed] + [Take], capacity,
      Succeed, s9);
    states := states + [s5] + [s6] + [s7] + [s8] + [s9];
    steps := steps + [Take] + [ReadPrimary] + [Succeed] + [Take] + [Succeed];
    DeleteWasLast(states, steps, name);
    DrainedEqualsPrimary(states, steps, capacity, 0, name);
  }

  lemma DeleteWasLast(states: seq<System>, steps: seq<Step>, name: Name)
    requires |steps| == 9 && |states| == 10 && steps[3] == Enqueue(0)
    requires states[3].pending == [Event(EventDelete, name, 0)]
    requires steps[4..] == [Take, ReadPrimary, Succeed, Take, Succeed]
    ensures LastEnqueued(states, steps, 9, name) == Some(EventDelete)
  {
    forall i | 4 <= i < 9
      ensures !steps[i].Enqueue?
    {
      assert steps[i] == steps[4..][i - 4];
    }
    assert states[3].pending[0].name == name;
    LastOfRun(states, steps, 4, name, EventDelete);
  }

  /** The worker brings the two events to the only target, each at its first attempt. */
  lemma WorkedOff(s: System, name: Name, content: Bytes, capacity: nat)
    returns (s5: System, s6: System, s7: System, s8: System, s9: System)
    requires s.pending == [] && s.queue == [Event(EventPut, name, |content|), Event(EventDelete, name, 0)]
    requires s.working == None && |s.replicas| == 1 && s.silent == {} && Lookup(s.primary, name) == Some(content)
    ensures Steps(s, Take, capacity, s5) && Steps(s5, ReadPrimary, capacity, s6) && Steps(s6, Succeed, capacity, s7)
    ensures Steps(s7, Take, capacity, s8) && Steps(s8, Succeed, capacity, s9)
    ensures Drained(s9) && |s9.replicas| == 1 && s9.silent == {} && Lookup(s9.primary, name) == Some(content)
  {
    hide Assign, Lookup;
    s5 := Next(s, Take, capacity);
    s6 := Next(s5, ReadPrimary, capacity);
    s7 := Next(s6, Succeed, capacity);
    s8 := Next(s7, Take, capacity);
    s9 := Next(s8, Succeed, capacity);
  }

  lemma RacingEvents(
    s: System, name: Name, content: Bytes, capacity: nat)
    returns (states: seq<System>, steps: seq<Step>)
    requires AtPeace(s) && capacity > 1
    ensures IsRun(states, steps, capacity) && states[0] == s
    ensures steps == [Change(Event(EventDelete, name, 0), None),
                      Change(Event(EventPut, name, |content|), Some(content)), Enqueue(1), Enqueue(0)]
    ensures states[3].pending == [Event(EventDelete, name, 0)]
    ensures var end := states[4];
      && end.pending == [] && end.queue == [Event(EventPut, name, |content|), Event(EventDelete, name, 0)]
      && end.working == None && end.replicas == s.replicas && end.silent == {}
      && Lookup(end.primary, name) == Some(content)
  {
    var s1 := Next(s, Change(Event(EventDelete, name, 0), None), capacity);
    var s2 := Next(s1, Change(Event(EventPut, name, |content|), Some(content)), capacity);
    var s3 := Next(s2, Enqueue(1), capacity);
    var s4 := Next(s3, Enqueue(0), capacity);
    states := [s, s1, s2, s3, s4];
    steps := [Change(Event(EventDelete, name, 0), None),
              Change(Event(EventPut, name, |content|), Some(content)), Enqueue(1), Enqueue(0)];
  }

  /**
   * The event of a chunked upload announces the length of the framed body, and no
   * attempt can deliver it while the object is what the body carried.
   */
  lemma ChunkedPutIsStuck(s: System, chunks: seq<ChunkedStreams.Chunk>, last: Bytes, trailer: Bytes)
    requires s.working.Some? && s.working.value.event.kind == EventPut
    requires s.working.value.event.size == |ChunkedStreams.Encode(chunks, last, trailer)|
    requires s.working.value.read.Some? ==> s.working.value.read.value == Some(ChunkedStreams.Payload(chunks))
    ensures !Enabled(s, Succeed)
    ensures forall e: Encounter ::
      e.read == Some(ChunkedStreams.Payload(chunks)) ==> !Delivers(s.working.value.event, e)
  {
    ChunkedStreams.FramingIsLonger(chunks, last, trailer);
  }

  // ----- the worker's code as steps -----

  ghost predicate CanPerform(s: System, steps: seq<Step>, capacity: nat)
    decreases |steps|
  {
    steps != [] ==>
      Enabled(s, steps[0]) && OnTarget(s) && CanPerform(Next(s, steps[0], capacity), steps[1..], capacity)
  }

  ghost function Perform(s: System, steps: seq<Step>, capacity: nat): System
    requires CanPerform(s, steps, capacity)
    decreases |steps|
  {
    if steps == [] then s else Perform(Next(s, steps[0], capacity), steps[1..], capacity)
  }

  lemma First(s: System, step: Step, rest: seq<Step>, capacity: nat)
    requires Enabled(s, step) && OnTarget(s) && CanPerform(Next(s, step, capacity), rest, capacity)
    ensures CanPerform(s, [step] + rest, capacity)
    ensures Perform(s, [step] + rest, capacity) == Perform(Next(s, step, capacity), rest, capacity)
  {
    hide Next;
    assert ([step] + rest)[1..] == rest;
  }

  /** What is read while nothing else happens is the primary's content, and the targets do not lie. */
  ghost predicate ReadsPrimary(s: System, ev: Event, encounters: seq<Encounter>) {
    forall e :: e in encounters ==> Honest(ev, e) && (ev.kind == EventPut ==> e.read == Lookup(s.primary, ev.name))
  }

  /** How one attempt of the worker ends, as a step. */
  function Ending(objects: map<Name, Bytes>, ev: Event, e: Encounter): Step {
    if Delivers(ev, e) then Succeed else Fail(Lookup(AttemptAfter(objects, ev, e), ev.name))
  }

  lemma AssignLookup(objects: map<Name, Bytes>, ev: Event, e: Encounter)
    ensures Assign(objects, ev.name, Lookup(AttemptAfter(objects, ev, e), ev.name)) == AttemptAfter(objects, ev, e)
  {
    hide Delivers, LeavesTraces, Outcome;
    SameLookups(Assign(objects, ev.name, Lookup(AttemptAfter(objects, ev, e), ev.name)), AttemptAfter(objects, ev, e));
  }

  /** One attempt on a target is a read of the primary, if the event is a put, and its ending. */
  lemma AttemptIsAStep(s: System, e: Encounter, capacity: nat)
    requires OnTarget(s) && s.working.Some? && s.working.value.failed < MAX_RETRIES && Honest(s.working.value.event, e)
    requires var w := s.working.value;
      w.read == (if w.event.kind == EventPut then Some(e.read) else None)
    ensures var w := s.working.value; var step := Ending(s.replicas[w.target], w.event, e);
      && Enabled(s, step)
      && Next(s, step, capacity) == s.(
           replicas := s.replicas[w.target := AttemptAfter(s.replicas[w.target], w.event, e)],
           working := if Delivers(w.event, e) || w.failed + 1 == MAX_RETRIES then NextTarget(s)
                      else Some(w.(failed := w.failed + 1, read := None)))
  {
    hide Assign, Lookup, LeavesTraces;
    AssignLookup(s.replicas[s.working.value.target], s.working.value.event, e);
  }

  /** The attempts on one target, left alone, take the target where the retry loop takes it. */
  lemma {:induction false} RetryIsARun(s: System, encounters: seq<Encounter>, capacity: nat) returns (steps: seq<Step>)
    requires OnTarget(s) && s.working.Some? && s.working.value.read == None
    requires encounters != [] && s.working.value.failed + |encounters| == MAX_RETRIES
    requires ReadsPrimary(s, s.working.value.event, encounters)
    ensures CanPerform(s, steps, capacity)
    ensures var w := s.working.value;
      Perform(s, steps, capacity) == s.(
        replicas := s.replicas[w.target := RetryAfter(s.replicas[w.target], w.event, encounters)],
        working := NextTarget(s))
    decreases |encounters|
  {
    hide AttemptAfter, Delivers, LeavesTraces, Lookup;
    var w, e := s.working.value, encounters[0];
    var ready := if w.event.kind == EventPut then Next(s, ReadPrimary, capacity) else s;
    assert e in encounters;
    AttemptIsAStep(ready, e, capacity);
    var ending := Ending(s.replicas[w.target], w.event, e);
    var after := Next(ready, ending, capacity);
    var rest: seq<Step> := [];
    if !Delivers(w.event, e) && |encounters| > 1 {
      assert forall x :: x in encounters[1..] ==> x in encounters;
      rest := RetryIsARun(after, encounters[1..], capacity);
    }
    RetryUnfolds(s.replicas[w.target], w.event, encounters);
    First(ready, ending, rest, capacity);
    steps := [ending] + rest;
    if w.event.kind == EventPut {
      First(s, ReadPrimary, steps, capacity);
      steps := [ReadPrimary] + steps;
    }
  }

  lemma RetryUnfolds(objects: map<Name, Bytes>, ev: Event, encounters: seq<Encounter>)
    requires encounters != []
    ensures RetryAfter(objects, ev, encounters) ==
      var after := AttemptAfter(objects, ev, encounters[0]);
      if Delivers(ev, encounters[0]) || |encounters| == 1 then after else RetryAfter(after, ev, encounters[1..])
  {
    hide AttemptAfter, Delivers;
  }

  lemma {:induction false} Both(s: System, a: seq<Step>, b: seq<Step>, capacity: nat)
    requires CanPerform(s, a, capacity) && CanPerform(Perform(s, a, capacity), b, capacity)
    ensures CanPerform(s, a + b, capacity)
    ensures Perform(s, a + b, capacity) == Perform(Perform(s, a, capacity), b, capacity)
    decreases |a|
  {
    hide Next, Enabled;
    if a == [] {
      assert a + b == b;
    } else {
      Both(Next(s, a[0], capacity), a[1..], b, capacity);
      assert a + b == [a[0]] + (a[1..] + b);
      First(s, a[0], a[1..] + b, capacity);
    }
  }

  ghost predicate ForAllTargets(s: System, ev: Event, encounters: seq<seq<Encounter>>) {
    |encounters| == |s.replicas| &&
    forall i :: 0 <= i < |encounters| ==> |encounters[i]| == MAX_RETRIES && ReadsPrimary(s, ev, encounters[i])
  }

  /** One event on the targets from `j` on. */
  lemma {:induction false} TargetsAreARun(s: System, ev: Event, j: nat, encounters: seq<seq<Encounter>>, capacity: nat)
    returns (steps: seq<Step>)
    requires s.working == Some(Work(ev, j, 0, None)) && j < |s.replicas| && ForAllTargets(s, ev, encounters)
    ensures CanPerform(s, steps, capacity)
    ensures var t := Perform(s, steps, capacity);
      && |t.replicas| == |s.replicas| && t == s.(replicas := t.replicas, working := None)
      && (forall i :: 0 <= i < j ==> t.replicas[i] == s.replicas[i])
      && forall i :: j <= i < |s.replicas| ==> t.replicas[i] == RetryAfter(s.replicas[i], ev, encounters[i])
    decreases |s.replicas| - j
  {
    hide RetryAfter, Perform, CanPerform;
    steps := RetryIsARun(s, encounters[j], capacity);
    var t := Perform(s, steps, capacity);
    if j + 1 < |s.replicas| {
      var rest := TargetsAreARun(t, ev, j + 1, encounters, capacity);
      Both(s, steps, rest, capacity);
      steps := steps + rest;
    }
  }

  /**
   * The worker, left alone with the first event of the queue, is a run of the
   * protocol that leaves every target as the code's retry loop leaves it.
   */
  lemma ProcessEventIsARun(s: System, encounters: seq<seq<Encounter>>, capacity: nat) returns (steps: seq<Step>)
    requires s.working.None? && s.queue != [] && s.replicas != [] && ForAllTargets(s, s.queue[0], encounters)
    ensures CanPerform(s, steps, capacity)
    ensures var t := Perform(s, steps, capacity);
      && t == s.(queue := s.queue[1..], replicas := t.replicas) && |t.replicas| == |s.replicas|
      && forall i :: 0 <= i < |s.replicas| ==> t.replicas[i] == RetryAfter(s.replicas[i], s.queue[0], encounters[i])
  {
    hide RetryAfter, Perform, CanPerform;
    var taken := Next(s, Take, capacity);
    assert ForAllTargets(taken, s.queue[0], encounters);
    var rest := TargetsAreARun(taken, s.queue[0], 0, encounters, capacity);
    First(s, Take, rest, capacity);
    steps := [Take] + rest;
  }
}
