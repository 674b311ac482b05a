/** Every interleaving of the producer, the reader and the calls that end a query. */
module CursorRuns {
  import opened Bytes
  import opened CursorSpec

  /** A producer inside `put` has found the cursor open and has a sample to write; inside `set_error` it is about to take the lock. */
  datatype Producer = Idle | Putting(s: Sample) | Reporting(code: nat)

  /** A reader inside `read` has copied `got` and has `room` left. */
  datatype Reader = Away | Reading(got: seq<Sample>, room: nat)

  /** Where `close` stands: it holds the lock while it waits for the thread of the query to end. */
  datatype Closing = Open | Joining | Closed

  datatype World = World(
    queue: seq<Buffer>, done: bool, error: nat,
    producer: Producer, reader: Reader,
    put: seq<Sample>, results: seq<seq<Sample>>,
    started: bool, ended: bool, closing: Closing)

  /** A new cursor; one that has been started has a thread of its own, which is the producer. */
  function Init(started: bool): World { World([], false, 0, Idle, Away, [], [], started, false, Open) }

  /** The producer looks at `done` without the lock, and completes without it; a stretch of anything else runs under it. */
  datatype Action =
    | PutCall(s: Sample) | PutRun
    | ReadCall(room: nat) | ReadRun
    | Complete | ErrorCall(code: nat) | ErrorRun | ThreadEnds
    | Close | Joined

  predicate Allowed(a: Action) { a.PutCall? ==> |a.s| <= BUFFER_SIZE }

  /** The producer is between two calls. */
  predicate Ready(w: World) { w.producer.Idle? && !w.ended }

  /** One action; one that is not its thread's turn, or that needs the lock while it is held, changes nothing. */
  function Step(w: World, a: Action): World
    requires QueueOk(w.queue)
  {
    match a
    case PutCall(s) => if Ready(w) && !w.done then w.(producer := Putting(s)) else w
    case PutRun => if w.closing.Joining? then w else PutStep(w)
    case ReadCall(room) => if w.reader.Away? then w.(reader := Reading([], room)) else w
    case ReadRun => if w.closing.Joining? then w else ReadStep(w)
    case Complete => if Ready(w) then w.(done := true) else w
    case ErrorCall(code) => if Ready(w) then w.(producer := Reporting(code)) else w
    case ErrorRun =>
      if w.closing.Joining? || !w.producer.Reporting? then w else w.(done := true, error := w.producer.code, producer := Idle)
    case ThreadEnds => if Ready(w) then w.(ended := true) else w
    case Close =>
      if !w.closing.Open? then w
      else w.(done := true, closing := if w.started && !w.ended then Joining else Closed)
    case Joined => if w.closing.Joining? && w.ended then w.(closing := Closed) else w
  }

  function PutStep(w: World): World {
    if !w.producer.Putting? then w
    else
      var r := Put(w.queue, w.producer.s);
      if r.written then w.(queue := r.queue, producer := Idle, put := w.put + [w.producer.s]) else w.(queue := r.queue)
  }

  function ReadStep(w: World): World
    requires QueueOk(w.queue)
  {
    if w.reader.Away? then w
    else
      var r := Read(w.queue, w.done, w.reader.room);
      var got := w.reader.got + r.copied;
      if r.ends then w.(queue := r.queue, reader := Away, results := w.results + [got])
      else w.(queue := r.queue, reader := Reading(got, r.room))
  }

  function Concat(results: seq<seq<Sample>>): seq<Sample> {
    if results == [] then [] else Concat(results[..|results| - 1]) + results[|results| - 1]
  }

  function InHand(r: Reader): seq<Sample> { if r.Reading? then r.got else [] }

  /** All the reader has been given, in the order it was given. */
  function Delivered(w: World): seq<Sample> { Concat(w.results) + InHand(w.reader) }

  predicate Inv(w: World) {
    && QueueOk(w.queue)
    && Delivered(w) + Unread(w.queue) == w.put
    && (w.producer.Putting? ==> |w.producer.s| <= BUFFER_SIZE)
    && (w.done && w.closing.Open? ==> !w.producer.Putting?)
    && (w.ended ==> w.producer.Idle?)
    && (!w.closing.Open? ==> w.done)
    && (w.closing.Joining? ==> w.started) && (w.closing.Closed? && w.started ==> w.ended)
  }

  lemma PutRunKeeps(w: World)
    requires Inv(w)
    ensures Inv(Step(w, PutRun))
  {
    if w.producer.Putting? {
      PutKeeps(w.queue, w.producer.s);
      Assoc(Delivered(w), Unread(w.queue), [w.producer.s]);
    }
  }

  lemma ConcatSnoc(results: seq<seq<Sample>>, r: seq<Sample>)
    ensures Concat(results + [r]) == Concat(results) + r
  {
    assert (results + [r])[..|results|] == results;
  }

  lemma ReadRunKeeps(w: World)
    requires Inv(w)
    ensures Inv(Step(w, ReadRun))
  {
    if w.reader.Reading? {
      var r := Read(w.queue, w.done, w.reader.room);
      var all, got := Concat(w.results), w.reader.got;
      ReadKeeps(w.queue, w.done, w.reader.room);
      Assoc(all, got, r.copied);
      Assoc(all + got, r.copied, Unread(r.queue));
      ConcatSnoc(w.results, got + r.copied);
      assert all + (got + r.copied) + [] == all + (got + r.copied);
    }
  }

  lemma StepKeeps(w: World, a: Action)
    requires Inv(w) && Allowed(a)
    ensures Inv(Step(w, a))
  {
    match a
    case PutRun => PutRunKeeps(w);
    case ReadRun => ReadRunKeeps(w);
    case ReadCall(_) => assert Concat(w.results) + [] == Concat(w.results);
    case _ =>
  }

  ghost predicate AllAllowed(actions: seq<Action>) { forall i :: 0 <= i < |actions| ==> Allowed(actions[i]) }

  /** Any run keeps the invariant. */
  ghost function Run(w: World, actions: seq<Action>): (w': World)
    requires Inv(w) && AllAllowed(actions)
    ensures Inv(w')
    decreases |actions|
  {
    if actions == [] then w
    else
      StepKeeps(w, actions[0]);
      Run(Step(w, actions[0]), actions[1..])
  }

  /** Exactly once and in order: what was delivered and what is queued is what was put. */
  lemma ExactlyOnce(started: bool, actions: seq<Action>)
    requires AllAllowed(actions)
    ensures var w := Run(Init(started), actions);
      && Delivered(w) + Unread(w.queue) == w.put
      && |w.queue| <= QUEUE_MAX && forall i :: 0 <= i < |w.queue| ==> w.queue[i].unread != []
  {
    var w := Run(Init(started), actions);
    assert Inv(w);
  }

  // ---- A cursor that is done ------------------------------------------------------------------

  /** What `is_done` answers; while `close` holds the lock it does not. */
  predicate SaysDone(w: World) { w.done && w.queue == [] && !w.closing.Joining? }

  lemma StepPutsNothing(w: World, a: Action)
    requires QueueOk(w.queue) && w.done && !w.producer.Putting?
    ensures var w' := Step(w, a); w'.put == w.put && w'.done && !w'.producer.Putting?
  {
  }

  /** Once the cursor is done and no `put` is under way, nothing is put any more. */
  lemma {:induction false} NothingMore(w: World, actions: seq<Action>)
    requires Inv(w) && w.done && !w.producer.Putting? && AllAllowed(actions)
    ensures Run(w, actions).put == w.put
    decreases |actions|
  {
    if actions != [] {
      StepKeeps(w, actions[0]);
      StepPutsNothing(w, actions[0]);
      NothingMore(Step(w, actions[0]), actions[1..]);
    }
  }

  /** Nothing will be put any more. */
  ghost predicate Final(w: World)
    requires Inv(w)
  {
    forall actions | AllAllowed(actions) :: Run(w, actions).put == w.put
  }

  lemma OneAction(w: World, a: Action)
    requires Inv(w) && Allowed(a)
    ensures Inv(Step(w, a)) && Run(w, [a]) == Step(w, a)
  {
    StepKeeps(w, a);
    assert [a][1..] == [];
    assert Run(Step(w, a), []) == Step(w, a);
  }

  /** A cursor that says it is done has delivered every sample put; there will be no other if and only if no `put` is under way. */
  lemma DoneExact(w: World)
    requires Inv(w) && SaysDone(w)
    ensures Delivered(w) == w.put
    ensures Final(w) <==> !w.producer.Putting?
  {
    assert Delivered(w) + [] == Delivered(w);
    if !w.producer.Putting? {
      forall actions | AllAllowed(actions) ensures Run(w, actions).put == w.put { NothingMore(w, actions); }
    } else {
      assert AllAllowed([PutRun]);
      OneAction(w, PutRun);
      PutKeeps(w.queue, w.producer.s);
    }
  }

  lemma StepStarted(w: World, a: Action)
    requires QueueOk(w.queue)
    ensures Step(w, a).started == w.started
  {
  }

  lemma {:induction false} StaysStarted(w: World, actions: seq<Action>)
    requires Inv(w) && AllAllowed(actions)
    ensures Run(w, actions).started == w.started
    decreases |actions|
  {
    if actions != [] {
      StepKeeps(w, actions[0]);
      StepStarted(w, actions[0]);
      StaysStarted(Step(w, actions[0]), actions[1..]);
    }
  }

  /** A started cursor that says it is done, in any run, with `close` or without, has delivered all there will ever be. */
  lemma DoneIsFinal(actions: seq<Action>)
    requires AllAllowed(actions)
    ensures var w := Run(Init(true), actions); SaysDone(w) ==> Delivered(w) == w.put && Final(w)
  {
    var w := Run(Init(true), actions);
    StaysStarted(Init(true), actions);
    if SaysDone(w) { DoneExact(w); }
  }

  lemma StepClosesNothing(w: World, a: Action)
    requires QueueOk(w.queue) && !a.Close? && w.closing.Open?
    ensures Step(w, a).closing.Open?
  {
  }

  lemma {:induction false} NotClosed(w: World, actions: seq<Action>)
    requires Inv(w) && w.closing.Open? && AllAllowed(actions) && forall i :: 0 <= i < |actions| ==> !actions[i].Close?
    ensures Run(w, actions).closing.Open?
    decreases |actions|
  {
    if actions != [] {
      StepKeeps(w, actions[0]);
      StepClosesNothing(w, actions[0]);
      NotClosed(Step(w, actions[0]), actions[1..]);
    }
  }

  /** Without `close`, so has one that was not started. */
  lemma DoneWithoutClose(started: bool, actions: seq<Action>)
    requires AllAllowed(actions) && forall i :: 0 <= i < |actions| ==> !actions[i].Close?
    ensures var w := Run(Init(started), actions); SaysDone(w) ==> Delivered(w) == w.put && Final(w)
  {
    var w := Run(Init(started), actions);
    NotClosed(Init(started), actions);
    if SaysDone(w) { DoneExact(w); }
  }

  lemma PutThenClose(started: bool, s: Sample)
    requires |s| <= BUFFER_SIZE
    ensures AllAllowed([PutCall(s), Close])
    ensures Run(Init(started), [PutCall(s), Close]) ==
      World([], true, 0, Putting(s), Away, [], [], started, false, if started then Joining else Closed)
  {
    var w1 := Step(Init(started), PutCall(s));
    StepKeeps(Init(started), PutCall(s));
    OneAction(w1, Close);
    assert [PutCall(s), Close][1..] == [Close];
  }

  /** One that was not started, and is closed, need not: a sample on its way in is put after the cursor was done. */
  lemma CloseMayMiss(s: Sample)
    requires |s| <= BUFFER_SIZE
    ensures AllAllowed([PutCall(s), Close]) && AllAllowed([PutRun])
    ensures var w := Run(Init(false), [PutCall(s), Close]); SaysDone(w) && !Final(w) && Run(w, [PutRun]).put == [s]
  {
    PutThenClose(false, s);
    var w := Run(Init(false), [PutCall(s), Close]);
    DoneExact(w);
    OneAction(w, PutRun);
    PutKeeps([], s);
    assert [] + [s] == [s];
  }

  // ---- Closing a started cursor ---------------------------------------------------------------

  /** `close` waits for a thread that waits for the lock. */
  predicate Stuck(w: World) { w.closing.Joining? && !w.producer.Idle? }

  lemma StuckStep(w: World, a: Action)
    requires Inv(w) && Stuck(w)
    ensures var w' := Step(w, a); w'.producer == w.producer && w'.closing == Joining && w'.queue == w.queue && w'.put == w.put && w'.results == w.results
  {
  }

  /** Nothing moves any more: the producer stays where it is, nothing is put or read, and `close` does not return. */
  lemma {:induction false} StuckForever(w: World, actions: seq<Action>)
    requires Inv(w) && Stuck(w) && AllAllowed(actions)
    ensures var w' := Run(w, actions);
      w'.producer == w.producer && w'.closing == Joining && w'.queue == w.queue && w'.put == w.put && w'.results == w.results
    decreases |actions|
  {
    if actions != [] {
      StepKeeps(w, actions[0]);
      StuckStep(w, actions[0]);
      StuckForever(Step(w, actions[0]), actions[1..]);
    }
  }

  ghost predicate CanReturn(w: World)
    requires Inv(w)
  {
    exists actions :: AllAllowed(actions) && Run(w, actions).closing.Closed?
  }

  lemma ReturnsWhenIdle(w: World)
    requires Inv(w) && w.closing.Joining? && w.producer.Idle?
    ensures CanReturn(w)
  {
    var actions := [ThreadEnds, Joined];
    assert AllAllowed(actions) && actions[1..] == [Joined];
    StepKeeps(w, ThreadEnds);
    OneAction(Step(w, ThreadEnds), Joined);
    assert Run(w, actions).closing.Closed?;
  }

  /** A `close` that waits can return if and only if the producer is in no call that needs the lock. */
  lemma CloseExact(w: World)
    requires Inv(w) && w.closing.Joining?
    ensures CanReturn(w) <==> w.producer.Idle?
  {
    if w.producer.Idle? {
      ReturnsWhenIdle(w);
    } else {
      forall actions | AllAllowed(actions) ensures !Run(w, actions).closing.Closed? { StuckForever(w, actions); }
    }
  }

  /** A started cursor closed while a sample is on its way in is stuck, before `is_done` has answered. */
  lemma CloseDeadlocks(s: Sample)
    requires |s| <= BUFFER_SIZE
    ensures AllAllowed([PutCall(s), Close])
    ensures var w := Run(Init(true), [PutCall(s), Close]); Stuck(w) && !SaysDone(w) && !CanReturn(w) && Final(w)
  {
    PutThenClose(true, s);
    var w := Run(Init(true), [PutCall(s), Close]);
    CloseExact(w);
    forall actions | AllAllowed(actions) ensures Run(w, actions).put == w.put { StuckForever(w, actions); }
  }

  /** So is one whose query reports an error after it was closed. */
  lemma ErrorDeadlocks(w: World, code: nat)
    requires Inv(w) && w.closing.Joining? && Ready(w)
    ensures Inv(Step(w, ErrorCall(code))) && Stuck(Step(w, ErrorCall(code))) && !CanReturn(Step(w, ErrorCall(code)))
  {
    StepKeeps(w, ErrorCall(code));
    CloseExact(Step(w, ErrorCall(code)));
  }
}
