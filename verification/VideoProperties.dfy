/** What the invariant of the buffer protocol means for videobuf2, over every run. */
module VideoProperties {
  import opened Bytes
  import opened VideoMachine

  lemma DistinctOnce<B>(bufs: seq<Buffer<B>>, b: Buffer<B>)
    requires Distinct(bufs)
    ensures multiset(bufs)[b] <= 1
  {
    if bufs != [] {
      DistinctOnce(bufs[1..], b);
      assert bufs == [bufs[0]] + bufs[1..];
      forall j | 0 <= j < |bufs| - 1
        ensures bufs[1..][j] != bufs[0]
      {
        assert bufs[1..][j] == bufs[j + 1];
      }
    }
  }

  /** Conservation, first in first out, in every interleaving: the buffers handed in are the buffers handed
      back, in the same order, followed by the one the callback holds and by the queue. So no queueing of a
      buffer is completed twice, and the driver owns a buffer at most once. */
  lemma ConservedInOrder<B>(frames: seq<seq<byte>>, acts: seq<Action<B>>, b: Buffer<B>)
    requires |frames| == FRAME_COUNT && Exec(frames, acts).Some?
    ensures var s := Exec(frames, acts).value;
            && QueuedBufs(s.log) == CompletedBufs(s.log) + (Held(s.callback) + s.queue)
            && CompletedBufs(s.log) <= QueuedBufs(s.log)
            && Distinct(Held(s.callback) + s.queue)
            && var gone, came := multiset(CompletedBufs(s.log))[b], multiset(QueuedBufs(s.log))[b];
               gone <= came <= gone + 1
  {
    RunInv(frames, acts);
    var s := Exec(frames, acts).value;
    DistinctOnce(Outstanding(s), b);
    assert multiset(QueuedBufs(s.log)) == multiset(CompletedBufs(s.log)) + multiset(Outstanding(s));
  }

  /** When stop_streaming returns, in any run, the driver is at rest and every buffer it ever received has been
      given back. */
  lemma StopQuiesces<B>(frames: seq<seq<byte>>, acts: seq<Action<B>>)
    requires |frames| == FRAME_COUNT && Exec(frames, acts + [StopReturn]).Some?
    ensures var s := Exec(frames, acts + [StopReturn]).value;
            && s.queue == [] && !s.armed && s.callback.Idle? && !s.streaming
            && QueuedBufs(s.log) == CompletedBufs(s.log)
  {
    RunInv(frames, acts + [StopReturn]);
    ExecPrefix(frames, acts, StopReturn);
  }

  /** The buffers that a run hands to the driver. */
  function Handed<B>(acts: seq<Action<B>>): seq<Buffer<B>> {
    if acts == [] then []
    else
      var a := acts[|acts| - 1];
      Handed(acts[..|acts| - 1]) + if a.BufQueue? then [a.buf] else []
  }

  /** The rest lasts until the next start: the timer stays unarmed, no callback runs, nothing is completed, and
      the queue holds exactly the buffers queued since. */
  lemma {:induction false} QuietUntilStart<B>(frames: seq<seq<byte>>, acts: seq<Action<B>>, more: seq<Action<B>>)
    requires |frames| == FRAME_COUNT && Exec(frames, acts + [StopReturn] + more).Some?
    requires Start !in more
    ensures Exec(frames, acts + [StopReturn]).Some?
    ensures var s, t := Exec(frames, acts + [StopReturn]).value, Exec(frames, acts + [StopReturn] + more).value;
            && !t.armed && t.callback.Idle? && !t.streaming && t.stop.NotStopping?
            && t.queue == Handed(more)
            && CompletedBufs(t.log) == QueuedBufs(s.log)
  {
    var start := acts + [StopReturn];
    if more == [] {
      assert start + more == start;
      StopQuiesces(frames, acts);
      RunInv(frames, start);
      ExecPrefix(frames, acts, StopReturn);
    } else {
      var a := more[|more| - 1];
      assert start + more == start + more[..|more| - 1] + [a];
      ExecPrefix(frames, start + more[..|more| - 1], a);
      QuietUntilStart(frames, acts, more[..|more| - 1]);
      var s := Exec(frames, start + more[..|more| - 1]).value;
      assert a.BufQueue?;
      LogGrows(s.log, Queued(a.buf));
    }
  }

  /** Below overflow the counter selects frame k modulo 25. */
  lemma EarlyFrame(k: nat)
    requires k < 0x8000_0000
    ensures FrameIndex(Int32(k)) == k % FRAME_COUNT
  {
    assert Int32(k) == k;
  }

  /** The number and the contents of a DONE buffer, over any run and any number of sessions: the k-th one of its
      session carries k modulo 2^32, and while the counter has not overflowed it holds frame k modulo 25. */
  lemma DoneCarriesItsNumber<B>(frames: seq<seq<byte>>, acts: seq<Action<B>>, i: nat)
    requires |frames| == FRAME_COUNT && Exec(frames, acts).Some?
    requires i < |Exec(frames, acts).value.log| && Exec(frames, acts).value.log[i].Done?
    ensures var log := Exec(frames, acts).value.log;
            var k := DonesSinceStart(log[..i]);
            && InSession(log[..i])
            && log[i].sequence == k % 0x1_0000_0000
            && (log[i].image.Some? <==> log[i].buf.mapped)
            && (log[i].buf.mapped && k < 0x8000_0000 ==> log[i].image.value == frames[k % FRAME_COUNT])
  {
    RunInv(frames, acts);
    var log := Exec(frames, acts).value.log;
    assert InOrder(frames, log[..i], log[i]);
    var k := DonesSinceStart(log[..i]);
    if k < 0x8000_0000 {
      EarlyFrame(k);
    }
  }

  lemma Int32Counts(n: nat)
    ensures (n - Int32(n)) % 0x1_0000_0000 == 0
    ensures n < 0x8000_0000 ==> Int32(n) == n
  {
  }

  lemma CounterIsCount<B>(frames: seq<seq<byte>>, acts: seq<Action<B>>) returns (s: State<B>, n: nat)
    requires |frames| == FRAME_COUNT && Exec(frames, acts).Some?
    ensures s == Exec(frames, acts).value && n == DonesSinceStart(s.log) && s.sequence == Int32(n)
  {
    RunInv(frames, acts);
    s := Exec(frames, acts).value;
    n := DonesSinceStart(s.log);
  }

  /** The driver's counter is the number of DONE completions since the last start, wrapped to a C int. */
  lemma CounterCounts<B>(frames: seq<seq<byte>>, acts: seq<Action<B>>)
    requires |frames| == FRAME_COUNT && Exec(frames, acts).Some?
    ensures var s := Exec(frames, acts).value;
            && (DonesSinceStart(s.log) - s.sequence) % 0x1_0000_0000 == 0
            && (DonesSinceStart(s.log) < 0x8000_0000 ==> s.sequence == DonesSinceStart(s.log))
  {
    var s, n := CounterIsCount(frames, acts);
    Int32Counts(n);
  }

  lemma SameMod25(a: int, b: int, t: int)
    requires a == b + 25 * t
    ensures a % 25 == b % 25
  {
  }

  /** The frame the counter selects, from the low 32 bits of the count. */
  lemma WrappedFrame(k: nat)
    ensures var j := k % 0x1_0000_0000;
            FrameIndex(Int32(k)) == if j < 0x8000_0000 then j % 25 else (j + 20) % 25
  {
    var j := k % 0x1_0000_0000;
    if j >= 0x8000_0000 {
      assert Int32(k) % 0x1_0000_0000_0000_0000 == j - 0x1_0000_0000 + 0x1_0000_0000_0000_0000;
      SameMod25(j - 0x1_0000_0000 + 0x1_0000_0000_0000_0000, j + 20,
                 (0x1_0000_0000_0000_0000 - 0x1_0000_0000 - 20) / 25);
    } else {
      assert Int32(k) == j;
    }
  }

  /** Twenty-one has the inverse six modulo 25. */
  lemma Divided(r: int, q: int, c: int)
    requires 21 * r == 25 * q + c
    ensures r % 25 == 6 * c % 25
  {
    assert r == 6 * c + 25 * (6 * q - 5 * r);
  }

  lemma Congruent(r: int, v: int, w: int)
    requires (21 * r + v) % 25 == w % 25
    ensures r % 25 == 6 * (w - v) % 25
  {
    var q := (21 * r + v) / 25 - w / 25;
    assert 21 * r + v == 25 * q + w;
    Divided(r, q, w - v);
  }

  lemma Residues(r: int, v: int)
    requires 0 <= r < 25
    ensures (21 * r + v) % 25 == v % 25 <==> r == 0
    ensures (21 * r + v) % 25 == (v + 20) % 25 <==> r == 20
  {
    if (21 * r + v) % 25 == v % 25 {
      Congruent(r, v, v);
    }
    if (21 * r + v) % 25 == (v + 20) % 25 {
      Congruent(r, v, v + 20);
    }
    if r == 20 {
      SameMod25(21 * r + v, v + 20, 16);
    }
  }

  /** The count modulo 25, from its high and its low part: 2^32 is 21 modulo 25. */
  lemma PartsMod25(k: nat, q: nat, j: nat)
    requires k == q * 0x1_0000_0000 + j
    ensures k % 25 == (21 * (q % 25) + j % 25) % 25
  {
    SameMod25(k, 21 * (q % 25) + j % 25, 171798691 * q + 21 * (q / 25) + j / 25);
  }

  /** Exactly when the k-th buffer holds frame k modulo 25, across overflow: with k = q * 2^32 + j, the frame is
      the expected one iff j is below 2^31 and 25 divides q, or j is not and q is 20 modulo 25. */
  lemma FrameLaw(k: nat)
    ensures var q, j := k / 0x1_0000_0000, k % 0x1_0000_0000;
            FrameIndex(Int32(k)) == k % FRAME_COUNT <==> if j < 0x8000_0000 then q % 25 == 0 else q % 25 == 20
  {
    var q, j := k / 0x1_0000_0000, k % 0x1_0000_0000;
    WrappedFrame(k);
    PartsMod25(k, q, j);
    SameMod25(j + 20, j % 25 + 20, j / 25);
    Residues(q % 25, j % 25);
  }

  predicate PairwiseDistinct(frames: seq<seq<byte>>) {
    forall a, b | 0 <= a < b < |frames| :: frames[a] != frames[b]
  }

  /** Over any run: exactly when a DONE buffer with an address holds the frame of its number in the session, if no
      two frames are the same. */
  lemma DoneFrameExactly<B>(frames: seq<seq<byte>>, acts: seq<Action<B>>, i: nat)
    requires |frames| == FRAME_COUNT && PairwiseDistinct(frames) && Exec(frames, acts).Some?
    requires i < |Exec(frames, acts).value.log| && Exec(frames, acts).value.log[i].Done?
    requires Exec(frames, acts).value.log[i].buf.mapped
    ensures var log := Exec(frames, acts).value.log;
            var k := DonesSinceStart(log[..i]);
            var q, j := k / 0x1_0000_0000, k % 0x1_0000_0000;
            log[i].image == Some(frames[k % FRAME_COUNT]) <==> if j < 0x8000_0000 then q % 25 == 0 else q % 25 == 20
  {
    RunInv(frames, acts);
    var log := Exec(frames, acts).value.log;
    assert InOrder(frames, log[..i], log[i]);
    var k := DonesSinceStart(log[..i]);
    FrameLaw(k);
    SameFrame(frames, FrameIndex(Int32(k)), k % FRAME_COUNT);
  }

  lemma SameFrame(frames: seq<seq<byte>>, a: nat, b: nat)
    requires PairwiseDistinct(frames) && a < |frames| && b < |frames|
    ensures frames[a] == frames[b] <==> a == b
  {
  }

  // ---------------------------------------------------------------- every count is reached

  /** A session in which nothing is queued and the timer is about to fire. */
  predicate AtRest<B(==)>(s: State<B>) {
    s.streaming && s.armed && s.callback.Idle? && s.stop.NotStopping? && s.queue == []
  }

  lemma OneStep<B>(frames: seq<seq<byte>>, acts: seq<Action<B>>, s: State<B>, a: Action<B>)
    requires |frames| == FRAME_COUNT && Exec(frames, acts) == Some(s) && Enabled(s, a)
    ensures Exec(frames, acts + [a]) == Some(Apply(frames, s, a))
  {
    ExecPrefix(frames, acts, a);
  }

  /** A buffer is queued, the timer fires and the callback takes it. */
  lemma TakeBuffer<B>(frames: seq<seq<byte>>, acts: seq<Action<B>>, s: State<B>, b: Buffer<B>)
    returns (more: seq<Action<B>>)
    requires |frames| == FRAME_COUNT && Exec(frames, acts) == Some(s) && AtRest(s)
    ensures Exec(frames, more) == Some(s.(armed := false, callback := Popped(b), log := s.log + [Queued(b)]))
  {
    more := acts + [BufQueue(b)];
    OneStep(frames, acts, s, BufQueue(b));
    var s1 := s.(queue := [b], log := s.log + [Queued(b)]);
    assert s.queue + [b] == [b];
    OneStep(frames, more, s1, Fire);
    more := more + [Fire];
    var s2 := s1.(armed := false, callback := Entered);
    OneStep(frames, more, s2, Pop);
    more := more + [Pop];
    assert s1.queue[1..] == s.queue;
  }

  /** The callback fills the buffer and hands it back. */
  lemma GiveBuffer<B>(frames: seq<seq<byte>>, acts: seq<Action<B>>, s: State<B>)
    returns (more: seq<Action<B>>)
    requires |frames| == FRAME_COUNT && Exec(frames, acts) == Some(s) && s.callback.Popped?
    ensures var b := s.callback.buf;
            Exec(frames, more) ==
            Some(s.(callback := Resched, sequence := Int32(s.sequence + 1),
                    log := s.log + [Done(b, UInt32(s.sequence), ImageFor(frames, b, s.sequence))]))
  {
    var b := s.callback.buf;
    OneStep(frames, acts, s, Fill);
    more := acts + [Fill];
    OneStep(frames, more, s.(callback := Filled(b, ImageFor(frames, b, s.sequence))), Complete);
    more := more + [Complete];
  }

  /** One more buffer completed. */
  lemma OneMore<B>(frames: seq<seq<byte>>, acts: seq<Action<B>>, b: Buffer<B>) returns (more: seq<Action<B>>)
    requires |frames| == FRAME_COUNT && Exec(frames, acts).Some? && AtRest(Exec(frames, acts).value)
    ensures Exec(frames, more).Some? && AtRest(Exec(frames, more).value)
    ensures var s, t := Exec(frames, acts).value, Exec(frames, more).value;
            t.log == s.log + [Queued(b)] + [Done(b, UInt32(s.sequence), ImageFor(frames, b, s.sequence))]
  {
    var s := Exec(frames, acts).value;
    more := TakeBuffer(frames, acts, s, b);
    more := GiveBuffer(frames, more, Exec(frames, more).value);
    OneStep(frames, more, Exec(frames, more).value, Rearm);
    more := more + [Rearm];
  }

  /** Every count is reached: for every n, some run completes n buffers in a session that is still at rest. */
  lemma {:induction false} CountReached<B>(frames: seq<seq<byte>>, b: Buffer<B>, n: nat)
    returns (acts: seq<Action<B>>)
    requires |frames| == FRAME_COUNT
    ensures Exec(frames, acts).Some? && AtRest(Exec(frames, acts).value)
    ensures DonesSinceStart(Exec(frames, acts).value.log) == n
  {
    if n == 0 {
      acts := [Start];
      var none: seq<Action<B>> := [];
      OneStep(frames, none, Init(), Start);
      assert none + [Start] == acts;
      var log: seq<Event<B>> := [];
      LogGrows(log, Started);
    } else {
      var before := CountReached(frames, b, n - 1);
      var s := Exec(frames, before).value;
      acts := OneMore(frames, before, b);
      LogGrows(s.log, Queued(b));
      LogGrows(s.log + [Queued(b)], Done(b, UInt32(s.sequence), ImageFor(frames, b, s.sequence)));
    }
  }

  lemma WrongIndex(k: nat)
    requires k == 0x8000_0000
    ensures FrameIndex(Int32(k)) == 18 && k % FRAME_COUNT == 23
  {
    WrappedFrame(k);
  }

  /** The first buffer that shows the wrong frame is number 2^31, and a run completes it: it holds frame 18 in place
      of frame 23. */
  lemma FirstWrongFrame<B>(frames: seq<seq<byte>>, b: Buffer<B>) returns (acts: seq<Action<B>>, i: nat)
    requires |frames| == FRAME_COUNT && b.mapped
    ensures Exec(frames, acts).Some?
    ensures var log := Exec(frames, acts).value.log;
            && i < |log| && log[i].Done? && log[i].buf == b
            && DonesSinceStart(log[..i]) == 0x8000_0000 && 0x8000_0000 % FRAME_COUNT == 23
            && log[i].image == Some(frames[18])
  {
    var before := CountReached(frames, b, 0x8000_0000);
    var s := Exec(frames, before).value;
    RunInv(frames, before);
    acts := OneMore(frames, before, b);
    var log := Exec(frames, acts).value.log;
    i := |s.log| + 1;
    assert log[..i] == s.log + [Queued(b)];
    LogGrows(s.log, Queued(b));
    WrongIndex(DonesSinceStart(s.log));
  }

  /** During a session, until stop_streaming has deleted the timer, exactly one of "timer armed" and "callback
      running" holds: there is always one to come or one at work, and two callbacks never overlap. */
  lemma OneHeartbeat<B>(frames: seq<seq<byte>>, acts: seq<Action<B>>)
    requires |frames| == FRAME_COUNT && Exec(frames, acts).Some?
    ensures var s := Exec(frames, acts).value;
            && (s.streaming && !s.stop.Draining? ==> (s.armed <==> s.callback.Idle?))
            && (!s.streaming || s.stop.Draining? ==> !s.armed && s.callback.Idle?)
  {
    RunInv(frames, acts);
  }

  // ---------------------------------------------------------------- stop_streaming finishes

  function Rank<B>(c: Callback<B>): nat {
    match c
    case Idle => 0
    case Entered => 4
    case Popped(_) => 3
    case Filled(_, _) => 2
    case Resched => 1
  }

  /** The steps that a stop in progress still needs, at most. */
  function Remaining<B>(s: State<B>): nat {
    |Outstanding(s)| + Rank(s.callback) + if s.stop.Deleting? then 2 else 1
  }

  /** The next step towards the return of stop_streaming: let the callback finish, delete, drain, return. */
  function Towards<B(==)>(s: State<B>): Action<B> {
    match s.callback
    case Entered => Pop
    case Popped(_) => Fill
    case Filled(_, _) => Complete
    case Resched => Rearm
    case Idle => if s.stop.Deleting? then DeleteTimer else if s.queue != [] then DrainOne else StopReturn
  }

  lemma TowardsAdvances<B>(frames: seq<seq<byte>>, s: State<B>)
    requires |frames| == FRAME_COUNT && Controlled(s) && !s.stop.NotStopping?
    ensures var a := Towards(s);
            && Enabled(s, a) && !a.Fire? && !a.BufQueue? && !a.Start? && !a.StopCall?
            && (a != StopReturn ==>
                  var t := Apply(frames, s, a);
                  !t.stop.NotStopping? && Remaining(t) < Remaining(s))
  {
  }

  lemma RunControlled<B>(frames: seq<seq<byte>>, acts: seq<Action<B>>)
    requires |frames| == FRAME_COUNT && Exec(frames, acts).Some?
    ensures Controlled(Exec(frames, acts).value)
  {
    RunInv(frames, acts);
  }

  /** The next step of a run in which a stop is in progress. */
  lemma StepTowards<B>(frames: seq<seq<byte>>, acts: seq<Action<B>>) returns (a: Action<B>)
    requires |frames| == FRAME_COUNT && Exec(frames, acts).Some?
    requires !Exec(frames, acts).value.stop.NotStopping?
    ensures Exec(frames, acts + [a]).Some? && !a.Fire? && !a.BufQueue? && !a.Start? && !a.StopCall?
    ensures 0 < Remaining(Exec(frames, acts).value)
    ensures a != StopReturn ==>
              var t := Exec(frames, acts + [a]).value;
              !t.stop.NotStopping? && Remaining(t) < Remaining(Exec(frames, acts).value)
  {
    var s := Exec(frames, acts).value;
    RunControlled(frames, acts);
    TowardsAdvances(frames, s);
    a := Towards(s);
    ExecPrefix(frames, acts, a);
  }

  /** It is always possible to return: from every reachable state with a stop in progress, some steps that need
      neither the timer nor videobuf2 lead to the return of stop_streaming. */
  lemma {:induction false} StopFinishes<B>(frames: seq<seq<byte>>, acts: seq<Action<B>>)
    returns (more: seq<Action<B>>)
    requires |frames| == FRAME_COUNT && Exec(frames, acts).Some?
    requires !Exec(frames, acts).value.stop.NotStopping?
    ensures Exec(frames, acts + more + [StopReturn]).Some?
    ensures |more| < Remaining(Exec(frames, acts).value)
    ensures forall a | a in more :: !a.Fire? && !a.BufQueue? && !a.Start? && !a.StopCall?
    decreases Remaining(Exec(frames, acts).value)
  {
    var a := StepTowards(frames, acts);
    if a == StopReturn {
      more := [];
      assert acts + more == acts;
    } else {
      var rest := StopFinishes(frames, acts + [a]);
      more := [a] + rest;
      assert acts + [a] + rest == acts + more;
    }
  }

  /** How often the timer fires in a run. */
  function Fires<B>(acts: seq<Action<B>>): nat {
    if acts == [] then 0
    else Fires(acts[..|acts| - 1]) + if acts[|acts| - 1].Fire? then 1 else 0
  }

  /** Every step of a stop in progress leaves less to do, except that the timer may fire once more. */
  lemma StepRemaining<B>(frames: seq<seq<byte>>, s: State<B>, a: Action<B>)
    requires |frames| == FRAME_COUNT && Controlled(s) && !s.stop.NotStopping? && Enabled(s, a) && !a.StopReturn?
    ensures var t := Apply(frames, s, a);
            && !t.stop.NotStopping?
            && Remaining(t) + 1 <= Remaining(s) + if a.Fire? then 5 else 0
  {
  }

  /** In every run, whatever the interleaving, a stop in progress is delayed by the timer only: apart from five
      steps for each time that it fires, the steps taken are used up from those that remained. */
  lemma {:induction false} StopIsBounded<B>(frames: seq<seq<byte>>, acts: seq<Action<B>>, more: seq<Action<B>>)
    requires |frames| == FRAME_COUNT && Exec(frames, acts + more).Some? && StopReturn !in more
    requires Exec(frames, acts).Some? && !Exec(frames, acts).value.stop.NotStopping?
    ensures var s, t := Exec(frames, acts).value, Exec(frames, acts + more).value;
            && !t.stop.NotStopping?
            && Remaining(t) + |more| <= Remaining(s) + 5 * Fires(more)
  {
    if more == [] {
      assert acts + more == acts;
    } else {
      var front, a := more[..|more| - 1], more[|more| - 1];
      assert acts + more == acts + front + [a];
      ExecPrefix(frames, acts + front, a);
      StopIsBounded(frames, acts, front);
      RunControlled(frames, acts + front);
      StepRemaining(frames, Exec(frames, acts + front).value, a);
    }
  }

  lemma DrainingStep<B>(s: State<B>, a: Action<B>)
    requires Controlled(s) && s.stop.Draining?
    ensures Enabled(s, a) <==> if s.queue == [] then a.StopReturn? else a.DrainOne?
  {
  }

  /** Once the timer is deleted it fires no more: until the return, each step of any run takes one buffer off the
      list, and the return is the only other step. */
  lemma {:induction false} DrainIsBounded<B>(frames: seq<seq<byte>>, acts: seq<Action<B>>, more: seq<Action<B>>)
    requires |frames| == FRAME_COUNT && Exec(frames, acts + more).Some? && StopReturn !in more
    requires Exec(frames, acts).Some? && Exec(frames, acts).value.stop.Draining?
    ensures var s, t := Exec(frames, acts).value, Exec(frames, acts + more).value;
            && t.stop.Draining? && |t.queue| + |more| == |s.queue|
            && forall a: Action<B> :: Enabled(t, a) <==> if t.queue == [] then a.StopReturn? else a.DrainOne?
  {
    if more == [] {
      assert acts + more == acts;
    } else {
      var front, a := more[..|more| - 1], more[|more| - 1];
      assert acts + more == acts + front + [a];
      ExecPrefix(frames, acts + front, a);
      DrainIsBounded(frames, acts, front);
    }
    RunControlled(frames, acts + more);
    var t := Exec(frames, acts + more).value;
    forall a: Action<B>
      ensures Enabled(t, a) <==> if t.queue == [] then a.StopReturn? else a.DrainOne?
    {
      DrainingStep(t, a);
    }
  }

  // ---------------------------------------------------------------- capture goes on

  /** How often the callback returns in a run. */
  function Rearms<B>(acts: seq<Action<B>>): nat {
    if acts == [] then 0
    else Rearms(acts[..|acts| - 1]) + if acts[|acts| - 1].Rearm? then 1 else 0
  }

  /** `n` completions, counted from `c`, and one for each of `r` returns of the callback, the next one included if its
      buffer is back already; or all the `q` buffers that waited at first are back. */
  predicate KeptPace<B>(t: State<B>, c: nat, q: nat, r: nat) {
    var n := |CompletedBufs(t.log)|;
    n >= c + q || n >= c + r + if t.callback.Resched? then 1 else 0
  }

  lemma StepKeepsPace<B>(frames: seq<seq<byte>>, s: State<B>, a: Action<B>, c: nat, q: nat, r: nat)
    requires |frames| == FRAME_COUNT && Conserved(s) && Enabled(s, a)
    requires c + q <= |QueuedBufs(s.log)| && KeptPace(s, c, q, r)
    ensures var t := Apply(frames, s, a);
            && c + q <= |QueuedBufs(t.log)|
            && KeptPace(t, c, q, if a.Rearm? then r + 1 else r)
  {
    var t := Apply(frames, s, a);
    if t.log != s.log {
      LogGrows(s.log, t.log[|s.log|]);
    }
  }

  lemma {:induction false} PaceKept<B>(frames: seq<seq<byte>>, acts: seq<Action<B>>, more: seq<Action<B>>)
    requires |frames| == FRAME_COUNT && Exec(frames, acts).Some? && Exec(frames, acts + more).Some?
    requires Exec(frames, acts).value.callback.Idle?
    ensures var s, t := Exec(frames, acts).value, Exec(frames, acts + more).value;
            && |CompletedBufs(s.log)| + |s.queue| <= |QueuedBufs(t.log)|
            && KeptPace(t, |CompletedBufs(s.log)|, |s.queue|, Rearms(more))
            && QueuedBufs(s.log) <= QueuedBufs(t.log)
  {
    var s := Exec(frames, acts).value;
    if more == [] {
      assert acts + more == acts;
      RunConserved(frames, acts);
    } else {
      var front, a := more[..|more| - 1], more[|more| - 1];
      assert acts + more == acts + front + [a];
      ExecPrefix(frames, acts + front, a);
      PaceKept(frames, acts, front);
      RunConserved(frames, acts + front);
      var m := Exec(frames, acts + front).value;
      StepKeepsPace(frames, m, a, |CompletedBufs(s.log)|, |s.queue|, Rearms(front));
      StepQueued(frames, m, a);
    }
  }

  lemma StepQueued<B>(frames: seq<seq<byte>>, s: State<B>, a: Action<B>)
    requires |frames| == FRAME_COUNT && Enabled(s, a)
    ensures QueuedBufs(s.log) <= QueuedBufs(Apply(frames, s, a).log)
  {
    var t := Apply(frames, s, a);
    if t.log != s.log {
      LogGrows(s.log, t.log[|s.log|]);
    }
  }

  /** Each return of the callback brings one more waiting buffer back, whatever else happens: from any state of any run
      in which no callback runs, after r returns the first r buffers of the list have been completed, in order, or all
      of them. */
  lemma CaptureGoesOn<B>(frames: seq<seq<byte>>, acts: seq<Action<B>>, more: seq<Action<B>>)
    requires |frames| == FRAME_COUNT && Exec(frames, acts).Some? && Exec(frames, acts + more).Some?
    requires Exec(frames, acts).value.callback.Idle?
    ensures var s, t := Exec(frames, acts).value, Exec(frames, acts + more).value;
            var n := if |s.queue| < Rearms(more) then |s.queue| else Rearms(more);
            CompletedBufs(s.log) + s.queue[..n] <= CompletedBufs(t.log)
  {
    var s, t := Exec(frames, acts).value, Exec(frames, acts + more).value;
    var n := if |s.queue| < Rearms(more) then |s.queue| else Rearms(more);
    PaceKept(frames, acts, more);
    RunConserved(frames, acts);
    RunConserved(frames, acts + more);
    CompletedFirst(s);
    CompletedFirst(t);
    FirstOnes(QueuedBufs(t.log), CompletedBufs(t.log), CompletedBufs(s.log), s.queue, n);
  }

  lemma RunConserved<B>(frames: seq<seq<byte>>, acts: seq<Action<B>>)
    requires |frames| == FRAME_COUNT && Exec(frames, acts).Some?
    ensures Conserved(Exec(frames, acts).value)
  {
    RunInv(frames, acts);
  }

  lemma CompletedFirst<B>(s: State<B>)
    requires Conserved(s)
    ensures CompletedBufs(s.log) <= QueuedBufs(s.log)
    ensures s.callback.Idle? ==> QueuedBufs(s.log) == CompletedBufs(s.log) + s.queue
  {
  }

  /** A long prefix of a sequence that goes on with `back` and then `queue` has them too. */
  lemma FirstOnes<T>(whole: seq<T>, long: seq<T>, back: seq<T>, queue: seq<T>, n: nat)
    requires long <= whole && back + queue <= whole && n <= |queue| && |back| + n <= |long|
    ensures back + queue[..n] <= long
  {
    assert (back + queue)[..|back| + n] == back + queue[..n];
  }
}
