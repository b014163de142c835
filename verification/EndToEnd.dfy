/** The producer and the consumer together: a run of the DAQ as the event builder records it. */
module EndToEnd {
  import opened Bytes
  import opened DaqRun
  import opened DaqStream
  import opened EventBuilder
  import opened EventLoop
  import opened Outcomes
  import opened StateRecorder

  lemma ProducedLast(answers: nat -> EtAnswer, s: seq<Event>)
    requires s != []
    ensures Produced(answers, s) ==
            Produced(answers, s[..|s| - 1]) + if answers(|s| - 1).Accepted? then [s[|s| - 1].handler] else []
  {
  }

  /** When every event is accepted, the stream is the declared one. */
  lemma {:induction false} AllProduced(answers: nat -> EtAnswer, s: seq<Event>)
    requires forall k | 0 <= k < |s| :: answers(k).Accepted?
    ensures |Produced(answers, s)| == |s| && forall k | 0 <= k < |s| :: Produced(answers, s)[k] == s[k].handler
  {
    if s != [] {
      var t := s[..|s| - 1];
      AllProduced(answers, t);
      assert forall k | 0 <= k < |t| :: t[k] == s[k];
    }
  }

  lemma {:induction false} NoSentinelProduced(answers: nat -> EtAnswer, s: seq<Event>)
    requires forall k | 0 <= k < |s| :: !IsSentinel(s[k].handler)
    ensures NoSentinel(Produced(answers, s))
  {
    if s != [] {
      var t := s[..|s| - 1];
      assert forall k | 0 <= k < |t| :: t[k] == s[k];
      NoSentinelProduced(answers, t);
    }
  }

  /**
    In the stream of a closed run the last event alone is a sentinel when the transfer system took
    the sentinel, and there is none when it dropped it.
   */
  lemma SentinelIsProducedIff(r: Shape, s: seq<Event>, answers: nat -> EtAnswer)
    requires Closed(r, s) && NoFalseSentinel(s)
    ensures var p := Produced(answers, s);
            if answers(|s| - 1).Accepted? then p != [] && FirstSentinelAt(p, |p| - 1) else NoSentinel(p)
  {
    hide Closed, NoFalseSentinel, Produced;
    ClosedHasEvents(r, s);
    var t, p := s[..|s| - 1], Produced(answers, s);
    OnlyTheLastIsSentinel(r, s);
    forall k | 0 <= k < |t| ensures !IsSentinel(t[k].handler) { assert t[k] == s[k]; }
    NoSentinelProduced(answers, t);
    ProducedLast(answers, s);
    if answers(|s| - 1).Accepted? { assert p[..|p| - 1] == Produced(answers, t); }
  }

  lemma ClosedHasEvents(r: Shape, s: seq<Event>)
    requires Closed(r, s)
    ensures s != []
  {
  }

  /**
    A calm consumer of a closed run leaves only when the sentinel was produced and everything
    produced has been written; if the sentinel was dropped it never leaves.
   */
  lemma CalmConsumerWritesAll(r: Shape, s: seq<Event>, answers: nat -> EtAnswer, nearline: bool, actions: seq<Action>)
    requires Closed(r, s) && NoFalseSentinel(s)
    requires Run(nearline, actions).Some? && Run(nearline, actions).value.produced <= Produced(answers, s)
    requires Calm(nearline, actions)
    ensures var c := Run(nearline, actions).value;
            c.place.Left? ==>
              && answers(|s| - 1).Accepted? && c.produced == Produced(answers, s)
              && AllValid(c.produced) && c.written == Payloads(c.produced)
  {
    hide Run, Closed, NoFalseSentinel, Produced, Calm, Payloads, NoSentinel, IsSentinel;
    var c, p := Run(nearline, actions).value, Produced(answers, s);
    if c.place.Left? {
      SentinelIsProducedIff(r, s, answers);
      CalmLeavesAtSentinel(nearline, actions);
      StopsAtFirstSentinel(nearline, actions, p);
      LoneSentinel(p, |c.taken| - 1);
      RunKeepsInvariant(nearline, actions);
      assert c.produced == c.taken + c.queue;
      assert c.taken == p;
      assert p[..|p|] == p;
    }
  }

  /** When every event is accepted, what a calm consumer leaves on disk is the whole run, event by event. */
  lemma WholeRunIsWritten(r: Shape, s: seq<Event>, answers: nat -> EtAnswer, nearline: bool, actions: seq<Action>)
    requires Closed(r, s) && NoFalseSentinel(s) && forall k | 0 <= k < |s| :: answers(k).Accepted?
    requires Run(nearline, actions).Some? && Run(nearline, actions).value.produced <= Produced(answers, s)
    requires Calm(nearline, actions) && Run(nearline, actions).value.place.Left?
    ensures var c := Run(nearline, actions).value;
            && |c.produced| == |s| && (forall k | 0 <= k < |s| :: c.produced[k] == s[k].handler)
            && AllValid(c.produced) && c.written == Payloads(c.produced)
  {
    hide Run, Closed, NoFalseSentinel, Produced, Calm, Payloads;
    CalmConsumerWritesAll(r, s, answers, nearline, actions);
    AllProduced(answers, s);
  }

  // ----- the two programs -----

  /** The program may start: nothing declared, no gate begun. */
  ghost predicate Fresh(worker: DAQWorker)
    reads worker, worker.recorder, worker.et
  {
    && worker.Valid() && worker.recorder.Booked() && worker.recorder.gate == 0 == worker.recorder.finished
    && worker.et.declared == []
  }

  /**
    A run that sets up the transfer system and is not ended from outside exits with the code for a
    sentinel, whether the sentinel was taken or dropped.
   */
  method RunProducer(worker: DAQWorker) returns (exitCode: Option<int>)
    requires Fresh(worker)
    modifies worker`looks, worker.recorder, worker.readout, worker.et
    ensures worker.et.Valid()
    ensures exitCode.Some? ==> exitCode == Some(EXIT_CLEAN_SENTINEL) && Closed(worker.shape, worker.et.declared)
    ensures exitCode.Some? && NoFalseSentinel(worker.et.declared) ==>
              var s, p := worker.et.declared, worker.et.produced;
              if worker.et.answers(|s| - 1).Accepted? then p != [] && FirstSentinelAt(p, |p| - 1) else NoSentinel(p)
  {
    hide Closed, NoFalseSentinel, Produced, InRun, GateFile.HoldsGate, FirstSentinelAt, NoSentinel;
    exitCode := worker.Run(0);
    if exitCode.Some? {
      ghost var s := worker.et.declared;
      ClosedHasEvents(worker.shape, s);
      if NoFalseSentinel(s) { SentinelIsProducedIff(worker.shape, s, worker.et.answers); }
    }
  }

  lemma {:induction false} NothingProduced(answers: nat -> EtAnswer, s: seq<Event>)
    requires forall k :: !answers(k).Accepted?
    ensures Produced(answers, s) == []
  {
    if s != [] { NothingProduced(answers, s[..|s| - 1]); }
  }

  /**
    A run of one gate without any fault, whose transfer system is not alive: the code says sentinel, nothing
    was produced.
   */
  method SentinelIsLost() returns (exitCode: Option<int>, produced: seq<EventHandler>)
    ensures exitCode == Some(EXIT_CLEAN_SENTINEL) && produced == []
  {
    hide Produced, InRun, Closed, GateFile.HoldsGate;
    var recorder := new ReadoutStateRecorder(Args(1, OneShot, 0, 0, 0, 0, 0, 0), None, 0);
    var readout := new ReadoutWorker(1, _ => DaqRun.Reply(Normal, 1, 0, []));
    var et := new EventTransfer(_ => NotAlive);
    var worker := new DAQWorker(recorder, readout, et, _ => false);
    RunIsOpen(worker.shape);
    exitCode := worker.Run(0);
    NothingProduced(et.answers, et.declared);
    produced := et.produced;
  }

  lemma RunIsOpen(r: Shape)
    ensures InRun(r, [])
  {
  }

  /** Whatever is put in the consumer's world is the produced stream, in order. */
  ghost predicate Fed(w: World, p: seq<EventHandler>) {
    forall n :: PutBefore(w, n) <= p
  }

  /**
    A consumer that has left, in a calm world that is fed by a closed run, has written everything that
    was produced, and the sentinel was produced.
   */
  method RunConsumer(consumer: Consumer, rounds: nat, ghost r: Shape, ghost s: seq<Event>,
                     ghost answers: nat -> EtAnswer)
    returns (left: bool)
    requires consumer.At(Head, true) && consumer.Follows()
    modifies consumer
    ensures left && Closed(r, s) && NoFalseSentinel(s)
            && CalmWorld(consumer.nearline, consumer.world) && Fed(consumer.world, Produced(answers, s)) ==>
              && s != [] && answers(|s| - 1).Accepted? && AllValid(Produced(answers, s))
              && consumer.binaryOutputFile == Payloads(Produced(answers, s))
  {
    hide EventBuilder.Run, Closed, NoFalseSentinel, Produced, Payloads, AllValid, Calm, CalmWorld, Seen, PutBefore;
    var running;
    left, running := consumer.Collect(rounds);
    if left && Closed(r, s) && NoFalseSentinel(s)
       && CalmWorld(consumer.nearline, consumer.world) && Fed(consumer.world, Produced(answers, s)) {
      ClosedHasEvents(r, s);
      CalmRun(consumer.nearline, consumer.world, consumer.statements, consumer.produced, consumer.history);
      CalmConsumerWritesAll(r, s, answers, consumer.nearline, consumer.history);
    }
  }

  /** The producer and then the consumer of the events it produced: the file holds the stream, sentinel and all. */
  method RunBoth(worker: DAQWorker, consumer: Consumer, rounds: nat) returns (exitCode: Option<int>, left: bool)
    requires Fresh(worker) && consumer.At(Head, true) && consumer.Follows()
    modifies worker`looks, worker.recorder, worker.readout, worker.et, consumer
    ensures exitCode.Some? && left && NoFalseSentinel(worker.et.declared)
            && CalmWorld(consumer.nearline, consumer.world) && Fed(consumer.world, worker.et.produced) ==>
              var p := worker.et.produced;
              && exitCode == Some(EXIT_CLEAN_SENTINEL) && p != [] && FirstSentinelAt(p, |p| - 1)
              && AllValid(p) && consumer.binaryOutputFile == Payloads(p)
  {
    hide Closed, NoFalseSentinel, Produced, Payloads, AllValid, CalmWorld, Seen, Fed, FirstSentinelAt, NoSentinel;
    hide EventBuilder.Run, InRun, GateFile.HoldsGate;
    exitCode := RunProducer(worker);
    ghost var s, answers := worker.et.declared, worker.et.answers;
    left := RunConsumer(consumer, rounds, worker.shape, s, answers);
  }

  /** A stream without a sentinel has no first one. */
  lemma LoneSentinel(p: seq<EventHandler>, k: nat)
    requires FirstSentinelAt(p, k)
    ensures !NoSentinel(p)
  {
  }

  // ----- the consumer can always finish -----

  /** The consumer's steps for one event that is waiting. */
  function Round(waitingToQuit: bool): seq<Action> {
    if waitingToQuit then [Look(true), Choose, Get(Ok), Write, Return] else [Look(true), Get(Ok), Write, Return]
  }

  lemma RoundTakesOne(nearline: bool, actions: seq<Action>)
    requires Run(nearline, actions).Some?
    requires var s := Run(nearline, actions).value;
             s.place.Head? && s.continueRunning && !s.quitNow && s.queue != [] && s.queue[0].Valid()
    ensures var s := Run(nearline, actions).value; var more := actions + Round(s.waitingToQuit);
            && Run(nearline, more).Some?
            && var t := Run(nearline, more).value;
            && t.place.Head? && t.quitNow == s.quitNow && t.produced == s.produced && t.queue == s.queue[1..]
            && t.taken == s.taken + [s.queue[0]] && t.continueRunning == !IsSentinel(s.queue[0])
  {
    hide Run, IsSentinel;
    var s := Run(nearline, actions).value;
    RunAndNext(nearline, actions, Look(true));
    var looked := actions + [Look(true)];
    if s.waitingToQuit {
      RunAndNext(nearline, looked, Choose);
      FinishRound(nearline, looked + [Choose]);
      assert actions + Round(true) == looked + [Choose] + [Get(Ok), Write, Return];
    } else {
      FinishRound(nearline, looked);
      assert actions + Round(false) == looked + [Get(Ok), Write, Return];
    }
  }

  lemma FinishRound(nearline: bool, actions: seq<Action>)
    requires Run(nearline, actions).Some?
    requires var s := Run(nearline, actions).value;
             s.place.Getting? && s.continueRunning && s.queue != [] && s.queue[0].Valid()
    ensures var s := Run(nearline, actions).value; var more := actions + [Get(Ok), Write, Return];
            && Run(nearline, more).Some?
            && var t := Run(nearline, more).value;
            && t.place.Head? && t.quitNow == s.quitNow && t.produced == s.produced && t.queue == s.queue[1..]
            && t.taken == s.taken + [s.queue[0]] && t.continueRunning == !IsSentinel(s.queue[0])
  {
    hide Run, IsSentinel;
    RunAndNext(nearline, actions, Get(Ok));
    var got := actions + [Get(Ok)];
    RunAndNext(nearline, got, Write);
    RunAndNext(nearline, got + [Write], Return);
    assert actions + [Get(Ok), Write, Return] == got + [Write] + [Return];
  }

  /**
    Wherever a run has got to, while the consumer has not been told twice to quit and a sentinel is
    waiting, there is a way on in which it takes what is queued and stops at the sentinel.
   */
  lemma {:induction false} CanStopAtSentinel(nearline: bool, actions: seq<Action>)
    requires Run(nearline, actions).Some?
    requires var s := Run(nearline, actions).value;
             s.place.Head? && s.continueRunning && !s.quitNow && !NoSentinel(s.queue)
    ensures exists more :: actions <= more && Run(nearline, more).Some? && StoppedAtSentinel(Run(nearline, more).value)
    decreases |Run(nearline, actions).value.queue|
  {
    hide Run, IsSentinel, NoSentinel, StoppedAtSentinel;
    var s := Run(nearline, actions).value;
    QueueIsValid(nearline, actions);
    HeadOrTail(s.queue);
    RoundTakesOne(nearline, actions);
    var next := actions + Round(s.waitingToQuit);
    if IsSentinel(s.queue[0]) {
      StopsNow(nearline, next);
      assert actions <= next + [Look(true)];
    } else {
      CanStopAtSentinel(nearline, next);
      var more :| next <= more && Run(nearline, more).Some? && StoppedAtSentinel(Run(nearline, more).value);
      assert actions <= more;
    }
  }

  lemma QueueIsValid(nearline: bool, actions: seq<Action>)
    requires Run(nearline, actions).Some?
    ensures AllValid(Run(nearline, actions).value.queue)
  {
    NothingLostOrRepeated(nearline, actions);
  }

  lemma HeadOrTail(queue: seq<EventHandler>)
    requires !NoSentinel(queue)
    ensures queue != [] && (IsSentinel(queue[0]) || !NoSentinel(queue[1..]))
  {
    hide IsSentinel;
    var k :| 0 <= k < |queue| && IsSentinel(queue[k]);
    if k > 0 { assert queue[1..][k - 1] == queue[k]; }
  }

  lemma StopsNow(nearline: bool, actions: seq<Action>)
    requires Run(nearline, actions).Some?
    requires var s := Run(nearline, actions).value;
             s.place.Head? && !s.continueRunning && s.taken != [] && IsSentinel(s.taken[|s.taken| - 1])
    ensures var more := actions + [Look(true)];
            Run(nearline, more).Some? && StoppedAtSentinel(Run(nearline, more).value)
  {
    hide Run, IsSentinel;
    RunAndNext(nearline, actions, Look(true));
  }
}
