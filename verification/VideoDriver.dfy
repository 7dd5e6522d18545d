/**
 The dummy V4L2 driver itself: the list of queued buffers, the counter and the timer are updated in place by its
 callbacks. Each atomic section is a method, proved to be the step of the same name of the state machine.
*/
module VideoDriver {
  import opened Bytes
  import opened VideoMachine

  const PLANE_SIZE := 600 * 350 * 2

  /** struct dummy_video_frame_buf: the plane, its size, and the fields that the callback fills in. */
  class FrameBuf {
    const vaddr: array?<byte>
    const planeSize: nat
    var payload: nat
    var sequence: int
    var timestamp: nat

    constructor (vaddr: array?<byte>, planeSize: nat)
      requires vaddr != null ==> vaddr.Length == planeSize
      ensures this.vaddr == vaddr && this.planeSize == planeSize && IsPlane()
    {
      this.vaddr, this.planeSize := vaddr, planeSize;
      payload, sequence, timestamp := 0, 0, 0;
    }

    ghost predicate IsPlane() {
      vaddr != null ==> vaddr.Length == planeSize
    }

    /** Every frame that the driver may hold can be copied into the plane. */
    ghost predicate Fits() {
      vaddr != null ==> PLANE_SIZE <= vaddr.Length
    }

    /** The payload bytes, if the plane has an address. */
    ghost function Image(): Option<seq<byte>>
      reads this, vaddr
      requires Fits()
    {
      if vaddr != null && payload <= vaddr.Length then Some(vaddr[..payload]) else None
    }
  }

  function AsBuffer(b: FrameBuf): Buffer<FrameBuf> {
    Buffer(b, b.vaddr != null)
  }

  function AsBuffers(bufs: seq<FrameBuf>): (r: seq<Buffer<FrameBuf>>)
    ensures |r| == |bufs|
  {
    seq(|bufs|, i requires 0 <= i < |bufs| => AsBuffer(bufs[i]))
  }

  const EINVAL := 22

  /** dummy_video_buf_prepare: what buf_queue and the callback rely on. A buffer is let through exactly if its plane
      has room for every frame that the driver may hold. */
  method BufPrepare(buf: FrameBuf) returns (ret: int)
    requires buf.IsPlane()
    ensures ret == 0 ==> buf.Fits()
    ensures ret == 0 <==> forall frame: seq<byte> | |frame| <= PLANE_SIZE :: |frame| <= buf.planeSize
    ensures ret == if buf.planeSize < 420000 then -EINVAL else 0
  {
    if buf.planeSize < PLANE_SIZE {
      ghost var frame := seq(PLANE_SIZE, i => 0 as byte);
      assert |frame| > buf.planeSize;
      return -EINVAL;
    }
    ret := 0;
  }

  class DummyVideo {
    const frames: seq<seq<byte>>
    var queuedBufs: seq<FrameBuf>
    var sequence: int
    var timerArmed: bool
    var callback: Callback<FrameBuf>
    var streaming: bool
    var stop: StopPhase
    ghost var log: seq<Event<FrameBuf>>
    ghost var run: seq<Action<FrameBuf>>  // the steps so far

    ghost function Abs(): State<FrameBuf>
      reads this
    {
      State(AsBuffers(queuedBufs), sequence, timerArmed, callback, streaming, stop, log)
    }

    ghost function Planes(): set<object>
      reads this
    {
      match callback
      case Popped(b) => {b.id} + if b.id.vaddr != null then {b.id.vaddr as object} else {}
      case Filled(b, _) => {b.id} + if b.id.vaddr != null then {b.id.vaddr as object} else {}
      case _ => {}
    }

    /** The first buffer of the list and its plane. */
    ghost function FirstQueued(): set<object>
      reads this
    {
      if queuedBufs == [] then {}
      else {queuedBufs[0]} + if queuedBufs[0].vaddr != null then {queuedBufs[0].vaddr as object} else {}
    }

    ghost predicate Valid()
      reads this, Planes()
    {
      && |frames| == FRAME_COUNT
      && (forall i | 0 <= i < |frames| :: |frames[i]| <= PLANE_SIZE)
      && Exec(frames, run) == Some(Abs())
      && (forall i | 0 <= i < |queuedBufs| :: queuedBufs[i].Fits())
      && (callback.Popped? || callback.Filled? ==>
            callback.buf == AsBuffer(callback.buf.id) && callback.buf.id.Fits())
      && (callback.Filled? && callback.buf.mapped ==> callback.image == callback.buf.id.Image())
    }

    constructor (frames: seq<seq<byte>>)
      requires |frames| == FRAME_COUNT
      requires forall i | 0 <= i < |frames| :: |frames[i]| <= PLANE_SIZE
      ensures Valid() && Abs() == Init() && this.frames == frames
    {
      this.frames := frames;
      queuedBufs, sequence, timerArmed := [], 0, false;
      callback, streaming, stop, log, run := Idle, false, NotStopping, [], [];
    }

    /** dummy_video_buf_queue. */
    method QueueBuf(buf: FrameBuf)
      requires Valid() && buf.Fits() && stop.NotStopping?
      requires buf !in queuedBufs && (callback.Popped? || callback.Filled? ==> callback.buf.id != buf)
      modifies this`run, this`queuedBufs, this`log
      ensures Valid() && Abs() == Apply(frames, old(Abs()), BufQueue(AsBuffer(buf)))
      ensures queuedBufs == old(queuedBufs) + [buf]
    {
      ExecPrefix(frames, run, BufQueue(AsBuffer(buf)));
      run := run + [BufQueue(AsBuffer(buf))];
      queuedBufs := queuedBufs + [buf];
      log := log + [Queued(AsBuffer(buf))];
      assert AsBuffers(queuedBufs) == AsBuffers(old(queuedBufs)) + [AsBuffer(buf)];
    }

    /** dummy_video_start_streaming. */
    method StartStreaming()
      requires Valid() && !streaming && stop.NotStopping?
      modifies this`run, this`sequence, this`timerArmed, this`streaming, this`log
      ensures Valid() && Abs() == Apply(frames, old(Abs()), Start)
      ensures sequence == 0 && timerArmed && streaming && log == old(log) + [Started]
    {
      ExecPrefix(frames, run, Start);
      run := run + [Start];
      sequence := 0;
      timerArmed := true;
      streaming := true;
      log := log + [Started];
    }

    /** The timer expires: it is no longer pending and its callback begins. */
    method TimerExpires()
      requires Valid() && timerArmed && callback.Idle?
      modifies this`run, this`timerArmed, this`callback
      ensures Valid() && Abs() == Apply(frames, old(Abs()), Fire)
    {
      ExecPrefix(frames, run, Fire);
      run := run + [Fire];
      timerArmed := false;
      callback := Entered;
    }

    /** The critical section of the callback: unlink the first buffer, if there is one. */
    method TimerPop()
      requires Valid() && callback.Entered?
      modifies this`run, this`callback, this`queuedBufs
      ensures Valid() && Abs() == Apply(frames, old(Abs()), Pop)
      ensures queuedBufs == if old(queuedBufs) == [] then [] else old(queuedBufs)[1..]
      ensures callback == if old(queuedBufs) == [] then Resched else Popped(AsBuffer(old(queuedBufs)[0]))
    {
      ExecPrefix(frames, run, Pop);
      run := run + [Pop];
      if queuedBufs == [] {
        callback := Resched;
      } else {
        callback := Popped(AsBuffer(queuedBufs[0]));
        queuedBufs := queuedBufs[1..];
        assert AsBuffers(queuedBufs) == AsBuffers(old(queuedBufs))[1..];
      }
    }

    /** Copies the current frame into the plane, if it has an address, and sets the payload. */
    method TimerFill()
      requires Valid() && callback.Popped?
      modifies this`run, this`callback, callback.buf.id`payload, callback.buf.id.vaddr
      ensures Valid() && Abs() == Apply(frames, old(Abs()), Fill)
      ensures callback == Filled(old(callback).buf, ImageFor(frames, old(callback).buf, sequence))
      ensures var vaddr := old(callback).buf.id.vaddr;
              vaddr != null ==>
                var frame := frames[FrameIndex(sequence)];
                && vaddr[..|frame|] == frame
                && vaddr[|frame|..] == old(vaddr[|frame|..])
                && old(callback).buf.id.payload == |frame|
    {
      ExecPrefix(frames, run, Fill);
      run := run + [Fill];
      var buf := callback.buf.id;
      var vaddr := buf.vaddr;
      var image: Option<seq<byte>> := None;
      if vaddr != null {
        var frame := frames[sequence % 0x1_0000_0000_0000_0000 % FRAME_COUNT];
        forall i | 0 <= i < |frame| {
          vaddr[i] := frame[i];
        }
        buf.payload := |frame|;
        image := Some(frame);
        assert vaddr[..|frame|] == frame;
      }
      callback := Filled(callback.buf, image);
    }

    /** Numbers and timestamps the buffer and hands it back as DONE; `now` is the clock. */
    method TimerComplete(now: nat)
      requires Valid() && callback.Filled?
      modifies this`run, this`sequence, this`callback, this`log, callback.buf.id`sequence, callback.buf.id`timestamp
      ensures Valid() && Abs() == Apply(frames, old(Abs()), Complete)
      ensures sequence == Int32(old(sequence) + 1) && callback.Resched?
      ensures log == old(log) + [Done(old(callback).buf, UInt32(old(sequence)), old(callback).image)]
      ensures old(callback).buf.id.sequence == UInt32(old(sequence)) && old(callback).buf.id.timestamp == now
      ensures old(callback.buf.mapped) ==> log[|log| - 1].image == old(callback.buf.id.Image())
    {
      ExecPrefix(frames, run, Complete);
      run := run + [Complete];
      var buf := callback.buf;
      buf.id.sequence := UInt32(sequence);
      buf.id.timestamp := now;
      log := log + [Done(buf, UInt32(sequence), callback.image)];
      sequence := Int32(sequence + 1);
      callback := Resched;
      assert Abs() == Apply(frames, old(Abs()), Complete);
    }

    /** Re-arms the timer; the callback returns. */
    method TimerRearm()
      requires Valid() && callback.Resched?
      modifies this`run, this`timerArmed, this`callback
      ensures Valid() && Abs() == Apply(frames, old(Abs()), Rearm)
      ensures timerArmed && callback.Idle?
    {
      ExecPrefix(frames, run, Rearm);
      run := run + [Rearm];
      timerArmed := true;
      callback := Idle;
    }

    /** Fills the buffer just popped and hands it back. */
    method ServePopped(now: nat)
      requires Valid() && callback.Popped?
      modifies this`run, this`callback, this`sequence, this`log
      modifies callback.buf.id`payload, callback.buf.id`sequence, callback.buf.id`timestamp, callback.buf.id.vaddr
      ensures Valid() && callback.Resched?
      ensures var buf := old(callback).buf.id;
              && sequence == Int32(old(sequence) + 1)
              && buf.sequence == UInt32(old(sequence)) && buf.timestamp == now
              && (buf.vaddr != null ==> buf.Image() == Some(frames[FrameIndex(old(sequence))]))
              && log == old(log) + [Done(AsBuffer(buf), UInt32(old(sequence)),
                                         ImageFor(frames, AsBuffer(buf), old(sequence)))]
    {
      TimerFill();
      TimerComplete(now);
    }

    /** dummy_video_timer_func with no other step in between. */
    method TimerFunc(now: nat)
      requires Valid() && callback.Entered?
      modifies this`run, this`queuedBufs, this`callback, this`sequence, this`timerArmed, this`log
      modifies FirstQueued()
      ensures Valid() && timerArmed && callback.Idle?
      ensures old(queuedBufs) == [] ==> queuedBufs == [] && sequence == old(sequence) && log == old(log)
      ensures old(queuedBufs) != [] ==>
                var buf := old(queuedBufs)[0];
                && queuedBufs == old(queuedBufs)[1..]
                && sequence == Int32(old(sequence) + 1)
                && buf.sequence == UInt32(old(sequence)) && buf.timestamp == now
                && (buf.vaddr != null ==> buf.Image() == Some(frames[FrameIndex(old(sequence))]))
                && log == old(log) + [Done(AsBuffer(buf), UInt32(old(sequence)),
                                           ImageFor(frames, AsBuffer(buf), old(sequence)))]
    {
      TimerPop();
      FinishCallback(now);
    }

    /** The callback behind its critical section. */
    method FinishCallback(now: nat)
      requires Valid() && (callback.Popped? || callback.Resched?)
      modifies this`run, this`callback, this`sequence, this`timerArmed, this`log
      modifies Planes()
      ensures Valid() && timerArmed && callback.Idle?
      ensures old(callback).Resched? ==> sequence == old(sequence) && log == old(log)
      ensures old(callback).Popped? ==>
                var buf := old(callback).buf.id;
                && sequence == Int32(old(sequence) + 1)
                && buf.sequence == UInt32(old(sequence)) && buf.timestamp == now
                && (buf.vaddr != null ==> buf.Image() == Some(frames[FrameIndex(old(sequence))]))
                && log == old(log) + [Done(AsBuffer(buf), UInt32(old(sequence)),
                                           ImageFor(frames, AsBuffer(buf), old(sequence)))]
    {
      if callback.Popped? {
        ServePopped(now);
      }
      TimerRearm();
    }

    /** videobuf2 calls dummy_video_stop_streaming. */
    method StopCalled()
      requires Valid() && streaming && stop.NotStopping?
      modifies this`run, this`stop
      ensures Valid() && Abs() == Apply(frames, old(Abs()), StopCall)
    {
      ExecPrefix(frames, run, StopCall);
      run := run + [StopCall];
      stop := Deleting;
    }

    /** timer_delete_sync has found no callback running and leaves the timer unarmed. */
    method StopTimer()
      requires Valid() && stop.Deleting? && callback.Idle?
      modifies this`run, this`timerArmed, this`stop
      ensures Valid() && Abs() == Apply(frames, old(Abs()), DeleteTimer)
    {
      ExecPrefix(frames, run, DeleteTimer);
      run := run + [DeleteTimer];
      timerArmed := false;
      stop := Draining;
    }

    /** One round of the drain: unlink the first buffer and hand it back as ERROR. */
    method DrainFirst()
      requires Valid() && stop.Draining? && queuedBufs != []
      modifies this`run, this`queuedBufs, this`log
      ensures Valid() && Abs() == Apply(frames, old(Abs()), DrainOne)
      ensures queuedBufs == old(queuedBufs)[1..]
      ensures log == old(log) + [Failed(AsBuffer(old(queuedBufs)[0]))]
    {
      ExecPrefix(frames, run, DrainOne);
      run := run + [DrainOne];
      var buf := queuedBufs[0];
      queuedBufs := queuedBufs[1..];
      log := log + [Failed(AsBuffer(buf))];
      assert AsBuffers(queuedBufs) == AsBuffers(old(queuedBufs))[1..];
    }

    /** The list is empty: stop_streaming returns. */
    method FinishStop()
      requires Valid() && stop.Draining? && queuedBufs == []
      modifies this`run, this`streaming, this`stop, this`log
      ensures Valid() && Abs() == Apply(frames, old(Abs()), StopReturn)
    {
      ExecPrefix(frames, run, StopReturn);
      run := run + [StopReturn];
      streaming := false;
      stop := NotStopping;
      log := log + [Stopped];
    }

    /** One round of the drain loop, the `n`-th, over a list that was `all` at first. */
    method DrainNext(ghost all: seq<FrameBuf>, ghost before: seq<Event<FrameBuf>>, ghost n: nat)
      requires Valid() && stop.Draining? && n < |all|
      requires queuedBufs == all[n..] && log == before + Failures(all[..n])
      modifies this`run, this`queuedBufs, this`log
      ensures Valid() && queuedBufs == all[n + 1..] && log == before + Failures(all[..n + 1])
    {
      DrainFirst();
      FailuresGrow(all, n);
      ConcatAssoc(before, Failures(all[..n]), [Failed(AsBuffer(all[n]))]);
    }

    /** The drain loop: its list gets shorter with every round. */
    method Drain()
      requires Valid() && stop.Draining?
      modifies this`run, this`queuedBufs, this`log
      ensures Valid() && queuedBufs == []
      ensures log == old(log) + Failures(old(queuedBufs))
    {
      ghost var all, n := queuedBufs, 0;
      while queuedBufs != []
        invariant Valid() && stop.Draining?
        invariant 0 <= n <= |all| && queuedBufs == all[n..] && log == old(log) + Failures(all[..n])
        decreases |queuedBufs|
      {
        DrainNext(all, old(log), n);
        n := n + 1;
      }
      assert all[..n] == all;
    }

    /** dummy_video_stop_streaming, called while no callback runs. */
    method StopStreaming()
      requires Valid() && streaming && stop.NotStopping? && callback.Idle?
      modifies this`run, this`timerArmed, this`stop, this`streaming, this`queuedBufs, this`log
      ensures Valid() && queuedBufs == [] && !timerArmed && !streaming && stop.NotStopping?
      ensures log == old(log) + Failures(old(queuedBufs)) + [Stopped]
    {
      StopCalled();
      StopTimer();
      Drain();
      FinishStop();
    }
  }

  lemma FailuresGrow(bufs: seq<FrameBuf>, n: nat)
    requires n < |bufs|
    ensures Failures(bufs[..n + 1]) == Failures(bufs[..n]) + [Failed(AsBuffer(bufs[n]))]
  {
  }

  /** One ERROR completion for each buffer, in order. */
  function Failures(bufs: seq<FrameBuf>): (r: seq<Event<FrameBuf>>) {
    seq(|bufs|, i requires 0 <= i < |bufs| => Failed(AsBuffer(bufs[i])))
  }
}
