/** What can happen: steps that are open to videobuf2, to the timer and to its callback in every reachable state. */
module VideoRuns {
  import opened Bytes
  import opened VideoMachine
  import opened VideoProperties

  /** Queueing some buffers, one after the other. */
  function Queueings<B>(bufs: seq<Buffer<B>>): (acts: seq<Action<B>>)
    ensures |acts| == |bufs| && forall i | 0 <= i < |bufs| :: acts[i] == BufQueue(bufs[i])
  {
    if bufs == [] then [] else Queueings(bufs[..|bufs| - 1]) + [BufQueue(bufs[|bufs| - 1])]
  }

  /** The driver does not own the buffer: neither is it in the list, nor does the callback hold it. */
  predicate NotOwned<B(==)>(s: State<B>, b: Buffer<B>) {
    && (forall j | 0 <= j < |s.queue| :: s.queue[j].id != b.id)
    && (s.callback.Popped? ==> s.callback.buf.id != b.id)
    && (s.callback.Filled? ==> s.callback.buf.id != b.id)
  }

  lemma QueueOne<B>(frames: seq<seq<byte>>, acts: seq<Action<B>>, s: State<B>, b: Buffer<B>)
    requires |frames| == FRAME_COUNT && Exec(frames, acts) == Some(s) && s.stop.NotStopping? && NotOwned(s, b)
    ensures Exec(frames, acts + [BufQueue(b)]) == Some(s.(queue := s.queue + [b], log := s.log + [Queued(b)]))
  {
    ExecPrefix(frames, acts, BufQueue(b));
  }

  /** Unless a stop is in progress, any buffers that the driver does not own can be queued, whatever the list holds and
      wherever the callback is; they are appended in their order. */
  lemma {:induction false} QueueAll<B>(frames: seq<seq<byte>>, acts: seq<Action<B>>, bufs: seq<Buffer<B>>)
    requires |frames| == FRAME_COUNT && Exec(frames, acts).Some?
    requires Exec(frames, acts).value.stop.NotStopping?
    requires forall i | 0 <= i < |bufs| :: NotOwned(Exec(frames, acts).value, bufs[i])
    requires forall i, j | 0 <= i < j < |bufs| :: bufs[i].id != bufs[j].id
    ensures Exec(frames, acts + Queueings(bufs)).Some?
    ensures var s, t := Exec(frames, acts).value, Exec(frames, acts + Queueings(bufs)).value;
            t == s.(queue := s.queue + bufs, log := t.log)
  {
    var s := Exec(frames, acts).value;
    if bufs == [] {
      assert acts + Queueings(bufs) == acts;
      assert s.queue + bufs == s.queue;
    } else {
      var front, b := bufs[..|bufs| - 1], bufs[|bufs| - 1];
      QueueAll(frames, acts, front);
      var m := Exec(frames, acts + Queueings(front)).value;
      assert NotOwned(s, b);
      assert NotOwned(m, b);
      QueueOne(frames, acts + Queueings(front), m, b);
      assert acts + Queueings(bufs) == acts + Queueings(front) + [BufQueue(b)];
      assert s.queue + front + [b] == s.queue + bufs;
    }
  }

  /** Outside a session, and with no stop in progress, a session can start: the count begins anew and the timer is
      armed. */
  lemma CanStart<B>(frames: seq<seq<byte>>, acts: seq<Action<B>>)
    requires |frames| == FRAME_COUNT && Exec(frames, acts).Some?
    requires !Exec(frames, acts).value.streaming && Exec(frames, acts).value.stop.NotStopping?
    ensures Exec(frames, acts + [Start]).Some?
    ensures var s, t := Exec(frames, acts).value, Exec(frames, acts + [Start]).value;
            t == s.(streaming := true, armed := true, sequence := 0, log := s.log + [Started])
  {
    ExecPrefix(frames, acts, Start);
  }

  /** In a session, a stop can begin at any time, wherever the callback is. */
  lemma CanStop<B>(frames: seq<seq<byte>>, acts: seq<Action<B>>)
    requires |frames| == FRAME_COUNT && Exec(frames, acts).Some?
    requires Exec(frames, acts).value.streaming && Exec(frames, acts).value.stop.NotStopping?
    ensures Exec(frames, acts + [StopCall]).Some?
    ensures var s, t := Exec(frames, acts).value, Exec(frames, acts + [StopCall]).value;
            t == s.(stop := Deleting)
  {
    ExecPrefix(frames, acts, StopCall);
  }

  /** An armed timer can fire, and its callback can go on, at any time: also between the steps of a stop. */
  lemma CanTick<B>(frames: seq<seq<byte>>, acts: seq<Action<B>>)
    requires |frames| == FRAME_COUNT && Exec(frames, acts).Some?
    ensures var s := Exec(frames, acts).value;
            && (s.armed && s.callback.Idle? ==> Exec(frames, acts + [Fire]).Some?)
            && (s.callback.Entered? ==> Exec(frames, acts + [Pop]).Some?)
            && (s.callback.Popped? ==> Exec(frames, acts + [Fill]).Some?)
            && (s.callback.Filled? ==> Exec(frames, acts + [Complete]).Some?)
            && (s.callback.Resched? ==> Exec(frames, acts + [Rearm]).Some?)
  {
    ExecPrefix(frames, acts, Fire);
    ExecPrefix(frames, acts, Pop);
    ExecPrefix(frames, acts, Fill);
    ExecPrefix(frames, acts, Complete);
    ExecPrefix(frames, acts, Rearm);
  }

  lemma AtReturn<B>(frames: seq<seq<byte>>, acts: seq<Action<B>>)
    requires |frames| == FRAME_COUNT && Exec(frames, acts + [StopReturn]).Some?
    ensures var s := Exec(frames, acts + [StopReturn]).value;
            s.queue == [] && s.callback.Idle? && !s.streaming && s.stop.NotStopping?
  {
    StopQuiesces(frames, acts);
    ExecPrefix(frames, acts, StopReturn);
  }

  /** Buffers are queued, and a session starts. */
  lemma QueueAndStart<B>(frames: seq<seq<byte>>, acts: seq<Action<B>>, bufs: seq<Buffer<B>>)
    requires |frames| == FRAME_COUNT && Exec(frames, acts).Some?
    requires var s := Exec(frames, acts).value;
             s.queue == [] && s.callback.Idle? && !s.streaming && s.stop.NotStopping?
    requires forall i, j | 0 <= i < j < |bufs| :: bufs[i].id != bufs[j].id
    ensures Exec(frames, acts + Queueings(bufs) + [Start]).Some?
    ensures var t := Exec(frames, acts + Queueings(bufs) + [Start]).value;
            t.queue == bufs && t.callback.Idle? && t.streaming && t.armed && t.stop.NotStopping? && t.sequence == 0
  {
    QueueAll(frames, acts, bufs);
    assert [] + bufs == bufs;
    CanStart(frames, acts + Queueings(bufs));
  }

  lemma TailsDistinct<B>(a: seq<Buffer<B>>, b: seq<Buffer<B>>)
    requires forall i, j | 0 <= i < j < |a + b| :: (a + b)[i].id != (a + b)[j].id
    ensures forall i, j | 0 <= i < j < |a| :: a[i].id != a[j].id
    ensures forall i, j | 0 <= i < j < |b| :: b[i].id != b[j].id
    ensures forall i, j | 0 <= i < |a| && 0 <= j < |b| :: a[i].id != b[j].id
  {
    forall i, j | 0 <= i < j < |a|
      ensures a[i].id != a[j].id
    {
      assert (a + b)[i] == a[i] && (a + b)[j] == a[j];
    }
    forall i, j | 0 <= i < j < |b|
      ensures b[i].id != b[j].id
    {
      assert (a + b)[|a| + i] == b[i] && (a + b)[|a| + j] == b[j];
    }
    forall i, j | 0 <= i < |a| && 0 <= j < |b|
      ensures a[i].id != b[j].id
    {
      assert (a + b)[i] == a[i] && (a + b)[|a| + j] == b[j];
    }
  }

  /** After any returned stop a session can start again, and buffers can be queued before it and after it. */
  lemma CanRestart<B>(frames: seq<seq<byte>>, acts: seq<Action<B>>, before: seq<Buffer<B>>, behind: seq<Buffer<B>>)
    requires |frames| == FRAME_COUNT && Exec(frames, acts + [StopReturn]).Some?
    requires forall i, j | 0 <= i < j < |before + behind| :: (before + behind)[i].id != (before + behind)[j].id
    ensures var again := acts + [StopReturn] + Queueings(before) + [Start] + Queueings(behind);
            && Exec(frames, again).Some?
            && var t := Exec(frames, again).value;
               t.streaming && t.armed && t.stop.NotStopping? && t.queue == before + behind && t.sequence == 0
  {
    AtReturn(frames, acts);
    TailsDistinct(before, behind);
    QueueAndStart(frames, acts + [StopReturn], before);
    QueueAll(frames, acts + [StopReturn] + Queueings(before) + [Start], behind);
  }
}
