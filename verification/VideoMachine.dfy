/**
 The buffer protocol of the dummy V4L2 capture driver, as a state machine over atomic steps.

 Two threads run. The videobuf2 thread calls buf_queue, start_streaming and stop_streaming, which the queue
 lock serialises. The timer callback runs beside it. A critical section under the spinlock is one step, and so
 is every access outside it; a run is any interleaving of the enabled steps. The event log records what
 videobuf2 sees, in the order in which it happens, and takes no part in the behaviour.
*/
module VideoMachine {
  import opened Bytes

  const FRAME_COUNT := 25

  /** A buffer: its identity, and whether vb2_plane_vaddr yields an address for its plane. */
  datatype Buffer<B> = Buffer(id: B, mapped: bool)

  /** Where the timer callback stands. `image` is what the plane of the buffer holds once it is filled. */
  datatype Callback<B> =
    | Idle
    | Entered
    | Popped(buf: Buffer<B>)
    | Filled(buf: Buffer<B>, image: Option<seq<byte>>)
    | Resched

  datatype StopPhase = NotStopping | Deleting | Draining

  datatype Event<B> =
    | Queued(buf: Buffer<B>)
    | Started
    | Done(buf: Buffer<B>, sequence: int, image: Option<seq<byte>>)
    | Failed(buf: Buffer<B>)
    | Stopped

  datatype State<B> = State(
    queue: seq<Buffer<B>>,
    sequence: int,
    armed: bool,
    callback: Callback<B>,
    streaming: bool,
    stop: StopPhase,
    log: seq<Event<B>>)

  datatype Action<B> =
    | BufQueue(buf: Buffer<B>)  // the videobuf2 thread ...
    | Start
    | StopCall
    | DeleteTimer
    | DrainOne
    | StopReturn
    | Fire  // ... and the timer callback
    | Pop
    | Fill
    | Complete
    | Rearm

  // ---------------------------------------------------------------- integers

  /** The C int that holds `n` after wrap-around. */
  function Int32(n: int): (r: int)
    ensures -0x8000_0000 <= r < 0x8000_0000
    ensures (n - r) % 0x1_0000_0000 == 0
  {
    var m := n % 0x1_0000_0000;
    if m < 0x8000_0000 then m else m - 0x1_0000_0000
  }

  /** The 32-bit unsigned word that holds `n`. */
  function UInt32(n: int): int {
    n % 0x1_0000_0000
  }

  /** `sequence % FRAME_COUNT`: the C int is converted to a 64-bit unsigned size first. */
  function FrameIndex(sequence: int): (i: int)
    ensures 0 <= i < FRAME_COUNT
  {
    sequence % 0x1_0000_0000_0000_0000 % FRAME_COUNT
  }

  // ---------------------------------------------------------------- steps

  function Held<B>(c: Callback<B>): seq<Buffer<B>> {
    match c
    case Popped(b) => [b]
    case Filled(b, _) => [b]
    case _ => []
  }

  /** The buffers that the driver owns, oldest first. */
  function Outstanding<B>(s: State<B>): seq<Buffer<B>> {
    Held(s.callback) + s.queue
  }

  function Init<B>(): State<B> {
    State([], 0, false, Idle, false, NotStopping, [])
  }

  /** Whether an action may happen next. videobuf2 queues no buffer that the driver still owns, starts and
      stops alternate, and timer_delete_sync waits until no callback runs. */
  predicate Enabled<B(==)>(s: State<B>, a: Action<B>) {
    match a
    case BufQueue(b) =>
      s.stop.NotStopping? && forall i | 0 <= i < |Outstanding(s)| :: Outstanding(s)[i].id != b.id
    case Start => !s.streaming && s.stop.NotStopping?
    case StopCall => s.streaming && s.stop.NotStopping?
    case DeleteTimer => s.stop.Deleting? && s.callback.Idle?
    case DrainOne => s.stop.Draining? && s.queue != []
    case StopReturn => s.stop.Draining? && s.queue == []
    case Fire => s.armed && s.callback.Idle?
    case Pop => s.callback.Entered?
    case Fill => s.callback.Popped?
    case Complete => s.callback.Filled?
    case Rearm => s.callback.Resched?
  }

  /** What the callback copies into a buffer when the driver's counter reads `sequence`. */
  function ImageFor<B>(frames: seq<seq<byte>>, b: Buffer<B>, sequence: int): Option<seq<byte>>
    requires |frames| == FRAME_COUNT
  {
    if b.mapped then Some(frames[FrameIndex(sequence)]) else None
  }

  /** One atomic step. */
  function Apply<B(==)>(frames: seq<seq<byte>>, s: State<B>, a: Action<B>): State<B>
    requires |frames| == FRAME_COUNT && Enabled(s, a)
  {
    match a
    case BufQueue(b) => s.(queue := s.queue + [b], log := s.log + [Queued(b)])
    case Start => s.(sequence := 0, armed := true, streaming := true, log := s.log + [Started])
    case StopCall => s.(stop := Deleting)
    case DeleteTimer => s.(armed := false, stop := Draining)
    case DrainOne => s.(queue := s.queue[1..], log := s.log + [Failed(s.queue[0])])
    case StopReturn => s.(streaming := false, stop := NotStopping, log := s.log + [Stopped])
    case Fire => s.(armed := false, callback := Entered)
    case Pop =>
      if s.queue == [] then s.(callback := Resched)
      else s.(callback := Popped(s.queue[0]), queue := s.queue[1..])
    case Fill =>
      s.(callback := Filled(s.callback.buf, ImageFor(frames, s.callback.buf, s.sequence)))
    case Complete =>
      s.(callback := Resched, sequence := Int32(s.sequence + 1),
         log := s.log + [Done(s.callback.buf, UInt32(s.sequence), s.callback.image)])
    case Rearm => s.(armed := true, callback := Idle)
  }

  /** The state that a sequence of actions leads to, if every one of them is enabled when its turn comes. */
  function Exec<B(==)>(frames: seq<seq<byte>>, acts: seq<Action<B>>): Option<State<B>>
    requires |frames| == FRAME_COUNT
  {
    if acts == [] then Some(Init())
    else
      var before := Exec(frames, acts[..|acts| - 1]);
      if before.Some? && Enabled(before.value, acts[|acts| - 1])
      then Some(Apply(frames, before.value, acts[|acts| - 1]))
      else None
  }

  // ---------------------------------------------------------------- readings of the log

  /** The buffers handed to the driver, in order. */
  function QueuedBufs<B>(log: seq<Event<B>>): seq<Buffer<B>> {
    if log == [] then []
    else
      var e := log[|log| - 1];
      QueuedBufs(log[..|log| - 1]) + if e.Queued? then [e.buf] else []
  }

  /** The buffers handed back, DONE or ERROR, in order. */
  function CompletedBufs<B>(log: seq<Event<B>>): seq<Buffer<B>> {
    if log == [] then []
    else
      var e := log[|log| - 1];
      CompletedBufs(log[..|log| - 1]) + if e.Done? || e.Failed? then [e.buf] else []
  }

  /** The buffers handed to the driver since stop_streaming last returned. */
  function QueuedSinceStop<B>(log: seq<Event<B>>): seq<Buffer<B>> {
    if log == [] then []
    else
      var e := log[|log| - 1];
      if e.Stopped? then []
      else QueuedSinceStop(log[..|log| - 1]) + if e.Queued? then [e.buf] else []
  }

  /** The number of DONE completions since the last start. */
  function DonesSinceStart<B>(log: seq<Event<B>>): nat {
    if log == [] then 0
    else
      var e := log[|log| - 1];
      if e.Started? then 0
      else DonesSinceStart(log[..|log| - 1]) + if e.Done? then 1 else 0
  }

  /** Whether the last start has not been followed by the return of a stop. */
  predicate InSession<B>(log: seq<Event<B>>) {
    log != [] &&
    var e := log[|log| - 1];
    e.Started? || (!e.Stopped? && InSession(log[..|log| - 1]))
  }

  /** An event is in order after `before`: completions happen inside sessions only, and the k-th DONE buffer of
      a session carries k and the frame that the counter k selects. */
  ghost predicate InOrder<B>(frames: seq<seq<byte>>, before: seq<Event<B>>, e: Event<B>)
    requires |frames| == FRAME_COUNT
  {
    match e
    case Done(b, sequence, image) =>
      var k := DonesSinceStart(before);
      && InSession(before)
      && sequence == UInt32(k)
      && image == ImageFor(frames, b, Int32(k))
    case Failed(_) => InSession(before)
    case Started => !InSession(before)
    case Stopped => InSession(before)
    case Queued(_) => true
  }

  lemma LogGrows<B>(log: seq<Event<B>>, e: Event<B>)
    ensures QueuedBufs(log + [e]) == QueuedBufs(log) + if e.Queued? then [e.buf] else []
    ensures CompletedBufs(log + [e]) == CompletedBufs(log) + if e.Done? || e.Failed? then [e.buf] else []
    ensures QueuedSinceStop(log + [e]) ==
            if e.Stopped? then [] else QueuedSinceStop(log) + if e.Queued? then [e.buf] else []
    ensures DonesSinceStart(log + [e]) ==
            if e.Started? then 0 else DonesSinceStart(log) + if e.Done? then 1 else 0
    ensures InSession(log + [e]) <==> e.Started? || (!e.Stopped? && InSession(log))
  {
    assert (log + [e])[..|log|] == log;
  }

  // ---------------------------------------------------------------- the invariant

  /** Nothing is lost, duplicated or reordered: what came in is what went out followed by what is inside. */
  predicate Conserved<B(==)>(s: State<B>) {
    QueuedBufs(s.log) == CompletedBufs(s.log) + Outstanding(s)
  }

  predicate Distinct<B(==)>(bufs: seq<Buffer<B>>) {
    forall i, j | 0 <= i < j < |bufs| :: bufs[i].id != bufs[j].id
  }

  ghost predicate LogInOrder<B>(frames: seq<seq<byte>>, log: seq<Event<B>>)
    requires |frames| == FRAME_COUNT
  {
    forall i | 0 <= i < |log| :: InOrder(frames, log[..i], log[i])
  }

  /** The control state: a session has exactly one heartbeat, either an armed timer or a running callback,
      until stop_streaming has deleted the timer; outside a session there is none. */
  predicate Controlled<B(==)>(s: State<B>) {
    && (s.streaming <==> InSession(s.log))
    && (s.streaming && !s.stop.Draining? ==> (s.armed <==> s.callback.Idle?))
    && (s.stop.Draining? ==> !s.armed && s.callback.Idle?)
    && (s.stop.Deleting? || s.stop.Draining? ==> s.streaming)
    && (!s.streaming ==> !s.armed && s.callback.Idle? && s.queue == QueuedSinceStop(s.log))
  }

  ghost predicate Inv<B>(frames: seq<seq<byte>>, s: State<B>)
    requires |frames| == FRAME_COUNT
  {
    && Conserved(s)
    && Distinct(Outstanding(s))
    && LogInOrder(frames, s.log)
    && Controlled(s)
    && s.sequence == Int32(DonesSinceStart(s.log))
    && (s.callback.Filled? ==> s.callback.image == ImageFor(frames, s.callback.buf, s.sequence))
  }

  lemma LogStaysInOrder<B>(frames: seq<seq<byte>>, log: seq<Event<B>>, e: Event<B>)
    requires |frames| == FRAME_COUNT && LogInOrder(frames, log) && InOrder(frames, log, e)
    ensures LogInOrder(frames, log + [e])
  {
    forall i | 0 <= i < |log + [e]|
      ensures InOrder(frames, (log + [e])[..i], (log + [e])[i])
    {
      assert (log + [e])[..i] == log[..i];
      assert log[..|log|] == log;
    }
  }

  /** A step appends at most one event, and that event is in order. */
  lemma StepLog<B>(frames: seq<seq<byte>>, s: State<B>, a: Action<B>)
    requires |frames| == FRAME_COUNT && Inv(frames, s) && Enabled(s, a)
    ensures var t := Apply(frames, s, a);
            t.log == s.log || exists e :: t.log == s.log + [e] && InOrder(frames, s.log, e)
  {
    var t := Apply(frames, s, a);
    if t.log != s.log {
      assert t.log == s.log + [t.log[|s.log|]] && InOrder(frames, s.log, t.log[|s.log|]);
    }
  }

  /** What a step may do to the buffers that the driver owns: nothing, unseen by videobuf2; or, with the
      matching event, add one at the back or take the oldest one out. */
  predicate Moves<B(==)>(s: State<B>, t: State<B>) {
    var mine, later := Outstanding(s), Outstanding(t);
    || (t.log == s.log && later == mine)
    || (|t.log| == |s.log| + 1 &&
        var e := t.log[|s.log|];
        && t.log == s.log + [e]
        && if e.Queued? then later == mine + [e.buf] && forall i | 0 <= i < |mine| :: mine[i].id != e.buf.id
           else if e.Done? || e.Failed? then mine == [e.buf] + later
           else later == mine)
  }

  lemma StepMoves<B>(frames: seq<seq<byte>>, s: State<B>, a: Action<B>)
    requires |frames| == FRAME_COUNT && Enabled(s, a)
    requires s.stop.Draining? ==> s.callback.Idle?
    ensures Moves(s, Apply(frames, s, a))
  {
    match a
    case BufQueue(b) =>
      assert Outstanding(Apply(frames, s, a)) == Outstanding(s) + [b];
    case DrainOne =>
      assert Outstanding(s) == [s.queue[0]] + Outstanding(Apply(frames, s, a));
    case Pop =>
      assert Outstanding(Apply(frames, s, a)) == Outstanding(s);
    case Complete =>
      assert Outstanding(s) == [s.callback.buf] + Outstanding(Apply(frames, s, a));
    case _ =>
  }

  lemma MovesConserve<B>(s: State<B>, t: State<B>)
    requires Moves(s, t) && Conserved(s)
    ensures Conserved(t)
  {
    if t.log != s.log {
      var e := t.log[|s.log|];
      LogGrows(s.log, e);
      if e.Queued? {
        ConcatAssoc(CompletedBufs(s.log), Outstanding(s), [e.buf]);
      } else if e.Done? || e.Failed? {
        ConcatAssoc(CompletedBufs(s.log), [e.buf], Outstanding(t));
      }
    }
  }

  lemma MovesKeepDistinct<B>(s: State<B>, t: State<B>)
    requires Moves(s, t) && Distinct(Outstanding(s))
    ensures Distinct(Outstanding(t))
  {
    var mine, later := Outstanding(s), Outstanding(t);
    if later != mine && !t.log[|s.log|].Queued? {
      assert later == mine[1..];
    }
  }

  lemma StepControlled<B>(frames: seq<seq<byte>>, s: State<B>, a: Action<B>)
    requires |frames| == FRAME_COUNT && Controlled(s) && Enabled(s, a)
    ensures Controlled(Apply(frames, s, a))
  {
    var t := Apply(frames, s, a);
    if t.log != s.log {
      LogGrows(s.log, t.log[|s.log|]);
    }
  }

  /** Incrementing the C int follows the count, across any number of wrap-arounds. */
  lemma Int32Succ(n: int)
    ensures Int32(Int32(n) + 1) == Int32(n + 1)
  {
  }

  /** How an event moves the count, seen through the C int. */
  lemma EventCounts<B>(log: seq<Event<B>>, e: Event<B>, sequence: int)
    requires sequence == Int32(DonesSinceStart(log))
    ensures Int32(DonesSinceStart(log + [e])) ==
            if e.Started? then 0 else if e.Done? then Int32(sequence + 1) else sequence
  {
    LogGrows(log, e);
    Int32Succ(DonesSinceStart(log));
    assert Int32(0) == 0;
  }

  lemma StepCounts<B>(frames: seq<seq<byte>>, s: State<B>, a: Action<B>)
    requires |frames| == FRAME_COUNT && s.sequence == Int32(DonesSinceStart(s.log)) && Enabled(s, a)
    ensures var t := Apply(frames, s, a); t.sequence == Int32(DonesSinceStart(t.log))
  {
    match a
    case BufQueue(b) => EventCounts(s.log, Queued(b), s.sequence);
    case Start => EventCounts(s.log, Started, s.sequence);
    case DrainOne => EventCounts(s.log, Failed(s.queue[0]), s.sequence);
    case StopReturn => EventCounts(s.log, Stopped, s.sequence);
    case Complete =>
      EventCounts(s.log, Done(s.callback.buf, UInt32(s.sequence), s.callback.image), s.sequence);
    case _ =>
  }

  /** Every step of either thread keeps the invariant. */
  lemma StepKeepsInv<B>(frames: seq<seq<byte>>, s: State<B>, a: Action<B>)
    requires |frames| == FRAME_COUNT && Inv(frames, s) && Enabled(s, a)
    ensures Inv(frames, Apply(frames, s, a))
  {
    var t := Apply(frames, s, a);
    StepMoves(frames, s, a);
    MovesConserve(s, t);
    MovesKeepDistinct(s, t);
    StepControlled(frames, s, a);
    StepCounts(frames, s, a);
    StepLog(frames, s, a);
    if e :| t.log == s.log + [e] && InOrder(frames, s.log, e) {
      LogStaysInOrder(frames, s.log, e);
    }
  }

  /** The invariant holds after every run, whatever the interleaving and the number of sessions. */
  lemma {:induction false} RunInv<B>(frames: seq<seq<byte>>, acts: seq<Action<B>>)
    requires |frames| == FRAME_COUNT && Exec(frames, acts).Some?
    ensures Inv(frames, Exec(frames, acts).value)
  {
    if acts == [] {
    } else {
      RunInv(frames, acts[..|acts| - 1]);
      StepKeepsInv(frames, Exec(frames, acts[..|acts| - 1]).value, acts[|acts| - 1]);
    }
  }

  lemma ExecPrefix<B>(frames: seq<seq<byte>>, acts: seq<Action<B>>, a: Action<B>)
    requires |frames| == FRAME_COUNT
    ensures Exec(frames, acts + [a]) ==
            var s := Exec(frames, acts);
            if s.Some? && Enabled(s.value, a) then Some(Apply(frames, s.value, a)) else None
  {
    assert (acts + [a])[..|acts|] == acts;
  }
}
