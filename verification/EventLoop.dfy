/** The loop of the event builder as a program that the producer and signals interrupt between any two statements. */
module EventLoop {
  import opened Bytes
  import opened DaqStream
  import opened EventBuilder

  /** What the rest of the world does: before each statement, and in answer to each request. */
  datatype World = World(others: nat -> seq<Action>, alive: nat -> bool, answers: nat -> EtStatus)

  /** The events that are put among these actions. */
  function PutsOf(actions: seq<Action>): seq<EventHandler> {
    if actions == [] then []
    else
      var a := actions[|actions| - 1];
      PutsOf(actions[..|actions| - 1]) + if a.Put? && a.event.Valid() then [a.event] else []
  }

  /** The events put, and the signals delivered, before the first `n` statements. */
  function PutBefore(w: World, n: nat): seq<EventHandler> {
    if n == 0 then [] else PutBefore(w, n - 1) + PutsOf(w.others(n - 1))
  }

  function SignalsBefore(w: World, n: nat): nat {
    if n == 0 then 0 else SignalsBefore(w, n - 1) + Signals(w.others(n - 1))
  }

  /** How often the head of the loop has been passed. */
  function Looks(actions: seq<Action>): nat {
    if actions == [] then 0
    else Looks(actions[..|actions| - 1]) + if actions[|actions| - 1].Look? then 1 else 0
  }

  lemma LooksNext(actions: seq<Action>, a: Action)
    ensures Looks(actions + [a]) == Looks(actions) + if a.Look? then 1 else 0
  {
    assert (actions + [a])[..|actions|] == actions;
  }

  /** The transfer system is up and answers no request with an error that ends the loop. */
  ghost predicate CalmAnswers(nearline: bool, w: World) {
    forall k :: w.alive(k) && CalmAction(nearline, Get(w.answers(k)))
  }

  /** And there is at most one signal. */
  ghost predicate CalmWorld(nearline: bool, w: World) {
    CalmAnswers(nearline, w) && forall n :: SignalsBefore(w, n) < 2
  }

  /** What a program has seen of its world after `n` statements and the part `extra` of what happens before the next. */
  ghost predicate Seen(nearline: bool, w: World, n: nat, extra: seq<Action>, produced: seq<EventHandler>,
                       history: seq<Action>) {
    && produced == PutBefore(w, n) + PutsOf(extra)
    && Signals(history) == SignalsBefore(w, n) + Signals(extra)
    && (CalmAnswers(nearline, w) ==> forall i | 0 <= i < |history| :: CalmAction(nearline, history[i]))
  }

  lemma SeenNothing(nearline: bool, w: World)
    ensures Seen(nearline, w, 0, [], [], [])
  {
  }

  /** One more of the actions before a statement. */
  lemma SeenMore(nearline: bool, w: World, n: nat, extra: seq<Action>, a: Action, produced: seq<EventHandler>,
                 history: seq<Action>)
    requires Seen(nearline, w, n, extra, produced, history)
    ensures a.Put? && a.event.Valid() ==> Seen(nearline, w, n, extra + [a], produced + [a.event], history + [a])
    ensures a.Signal? ==> Seen(nearline, w, n, extra + [a], produced, history + [a])
    ensures !a.Signal? && !(a.Put? && a.event.Valid()) ==> Seen(nearline, w, n, extra + [a], produced, history)
  {
    hide CalmAnswers, PutBefore, SignalsBefore;
    assert (extra + [a])[..|extra|] == extra && (history + [a])[..|history|] == history;
  }

  /** All of them: the statement comes next. */
  lemma SeenAll(nearline: bool, w: World, n: nat, produced: seq<EventHandler>, history: seq<Action>)
    requires Seen(nearline, w, n, w.others(n), produced, history)
    ensures Seen(nearline, w, n + 1, [], produced, history)
  {
    hide CalmAnswers;
  }

  /** A step of the consumer itself. */
  lemma SeenStep(nearline: bool, w: World, n: nat, produced: seq<EventHandler>, history: seq<Action>, a: Action)
    requires Seen(nearline, w, n, [], produced, history) && !a.Signal?
    requires CalmAnswers(nearline, w) ==> CalmAction(nearline, a)
    ensures Seen(nearline, w, n, [], produced, history + [a])
  {
    hide CalmAnswers;
    assert (history + [a])[..|history|] == history;
  }

  /** In a calm world the run is calm, and what was produced is what was put. */
  lemma CalmRun(nearline: bool, w: World, n: nat, produced: seq<EventHandler>, history: seq<Action>)
    requires Seen(nearline, w, n, [], produced, history)
    ensures produced == PutBefore(w, n)
    ensures CalmWorld(nearline, w) ==> Calm(nearline, history)
  {
    hide CalmAnswers;
    assert PutBefore(w, n) + [] == PutBefore(w, n);
  }

  class Consumer {
    const nearline: bool
    const world: World
    var statements: nat
    // the event transfer system
    var produced: seq<EventHandler>
    var queue: seq<EventHandler>
    var held: seq<EventHandler>
    // the output file and the flags of the signal handler
    var binaryOutputFile: bytes
    var waitingToQuit: bool
    var quitNow: bool
    ghost var taken: seq<EventHandler>
    ghost var history: seq<Action>

    constructor (n: bool, w: World)
      ensures nearline == n && world == w && At(Head, true) && Follows()
    {
      nearline, world, statements := n, w, 0;
      produced, queue, held, binaryOutputFile, waitingToQuit, quitNow := [], [], [], [], false, false;
      taken, history := [], [];
      new;
      SeenNothing(n, w);
    }

    /** What has been produced and what has happened is what the world has done so far. */
    ghost predicate Follows()
      reads this
    {
      Seen(nearline, world, statements, [], produced, history)
    }

    /** The program is at this place of the transition system, after the steps of its history. */
    ghost predicate At(place: Place, continueRunning: bool)
      reads this
    {
      Run(nearline, history)
      == Some(State(produced, queue, taken, held, binaryOutputFile, waitingToQuit, quitNow, continueRunning, place))
    }

    ghost method Note(a: Action)
      modifies this`history
      ensures history == old(history) + [a] && history[..|history| - 1] == old(history)
    {
      history := history + [a];
    }

    /** `quitsignal_handler`. */
    method HandleSignal(ghost place: Place, ghost running: bool)
      requires At(place, running)
      modifies this`waitingToQuit, this`quitNow, this`history
      ensures At(place, running) && history == old(history) + [Signal]
      ensures waitingToQuit && quitNow == (old(quitNow) || old(waitingToQuit))
    {
      if waitingToQuit {
        quitNow := true;
      } else {
        waitingToQuit := true;
      }
      Note(Signal);
    }

    /** Events put and signals delivered before the next statement. */
    method Interrupt(ghost place: Place, ghost running: bool)
      requires At(place, running) && Follows()
      modifies this`statements, this`produced, this`queue, this`waitingToQuit, this`quitNow, this`history
      ensures At(place, running) && Follows()
      ensures (old(waitingToQuit) ==> waitingToQuit) && (old(quitNow) ==> quitNow)
      ensures Looks(history) == Looks(old(history)) && statements == old(statements) + 1
    {
      hide Next, Run, Seen, Looks;
      var actions := world.others(statements);
      assert actions[..0] == [] && actions[..|actions|] == actions;
      for i := 0 to |actions|
        invariant At(place, running) && statements == old(statements)
        invariant (old(waitingToQuit) ==> waitingToQuit) && (old(quitNow) ==> quitNow)
        invariant Looks(history) == Looks(old(history))
        invariant Seen(nearline, world, statements, actions[..i], produced, history)
      {
        SeenMore(nearline, world, statements, actions[..i], actions[i], produced, history);
        assert actions[..i + 1] == actions[..i] + [actions[i]];
        LooksNext(history, actions[i]);
        match actions[i] {
          case Put(e) => if e.Valid() { PutEvent(e, place, running); }
          case Signal => HandleSignal(place, running);
          case _ =>
        }
      }
      SeenAll(nearline, world, statements, produced, history);
      statements := statements + 1;
    }

    method PutEvent(e: EventHandler, ghost place: Place, ghost running: bool)
      requires e.Valid() && At(place, running)
      modifies this`produced, this`queue, this`history
      ensures At(place, running) && produced == old(produced) + [e] && history == old(history) + [Put(e)]
    {
      produced, queue := produced + [e], queue + [e];
      Note(Put(e));
    }

    /** `et_event_get`: only a queue that holds something answers `Ok`, and only an empty one times out. */
    method GetEvent(timed: bool, ghost running: bool) returns (status: EtStatus, event: EventHandler)
      requires At(Getting(timed), running) && Follows()
      modifies this`queue, this`held, this`taken, this`history
      ensures Follows() && history == old(history) + [Get(status)]
      ensures status == Answered(world.answers(old(statements)), timed, old(queue))
      ensures status == Ok ==> At(Got(event), running)
      ensures status != Ok ==> At(Head, running && status !in {Timeout, Dead, Wakeup} &&
                                        (status in {ReadError, WriteError} ==> nearline))
    {
      hide Run, Seen;
      event := EventHandler(0, []);
      status := world.answers(statements);
      if status == Ok && queue == [] { status := Empty; }
      if status == Timeout && !(timed && queue == []) { status := Busy; }
      if status == Ok {
        event, held := queue[0], held + [queue[0]];
        taken, queue := taken + [queue[0]], queue[1..];
      }
      TakeStep(nearline, history, Get(status));
      SeenStep(nearline, world, statements, produced, history, Get(status));
      Note(Get(status));
    }

    method WriteEvent(event: EventHandler, running: bool) returns (continueRunning: bool)
      requires At(Got(event), running) && event.Valid() && Follows()
      modifies this`binaryOutputFile, this`history
      ensures Follows() && history == old(history) + [Write]
      ensures continueRunning == (running && !IsSentinel(event)) && At(Returning(event), continueRunning)
      ensures binaryOutputFile == old(binaryOutputFile) + event.Payload()
    {
      hide Run, Seen;
      continueRunning := running;
      binaryOutputFile := binaryOutputFile + event.data[..event.dataLength];
      if event.LeadBankType() as int == 5 { continueRunning := false; }
      TakeStep(nearline, history, Write);
      SeenStep(nearline, world, statements, produced, history, Write);
      Note(Write);
    }

    /** The event goes back to the transfer system, except on the nearline machines. */
    method PutBack(ghost event: EventHandler, ghost running: bool)
      requires At(Returning(event), running) && (nearline || held != []) && Follows()
      modifies this`held, this`history
      ensures At(Head, running) && Follows() && history == old(history) + [Return]
    {
      hide Run, Seen;
      if !nearline { held := held[..|held| - 1]; }
      TakeStep(nearline, history, Return);
      SeenStep(nearline, world, statements, produced, history, Return);
      Note(Return);
    }

    /** The head of the loop: leave, or ask for an event, with or without a time limit. */
    method LoopHead(running: bool) returns (go: bool, timed: bool)
      requires At(Head, running) && Follows()
      modifies this`statements, this`produced, this`queue, this`waitingToQuit, this`quitNow, this`history
      ensures Follows() && if go then At(Getting(timed), running) else At(Left, running)
      ensures Looks(history) == Looks(old(history)) + 1
      ensures var looksAgain := world.alive(old(statements)) && running && old(waitingToQuit);
              statements == old(statements) + if looksAgain then 1 else 0
      ensures go ==> world.alive(old(statements)) && running && !old(quitNow)
      ensures world.alive(old(statements)) && running && !old(waitingToQuit) ==> go && !timed
      ensures world.alive(old(statements)) && running && old(waitingToQuit) ==> timed && (go <==> !quitNow)
    {
      hide Run, Seen, Looks;
      RunKeepsInvariant(nearline, history);
      LooksNext(history, Look(true));
      LooksNext(history, Look(false));
      var alive := world.alive(statements);
      TakeStep(nearline, history, Look(alive));
      SeenStep(nearline, world, statements, produced, history, Look(alive));
      Note(Look(alive));
      if !(alive && running) { return false, false; }
      if !waitingToQuit { return true, false; }
      Interrupt(Waiting, running);
      TakeStep(nearline, history, Choose);
      SeenStep(nearline, world, statements, produced, history, Choose);
      LooksNext(history, Choose);
      Note(Choose);
      go, timed := !quitNow, true;
    }

    /** Writes an event and puts it back. */
    method Handle(event: EventHandler, running: bool) returns (continueRunning: bool)
      requires At(Got(event), running) && Follows()
      modifies this
      ensures At(Head, continueRunning) && Follows() && Looks(history) == Looks(old(history))
      ensures event.Valid() && continueRunning == (running && !IsSentinel(event)) && taken == old(taken)
      ensures statements == old(statements) + 2
      ensures binaryOutputFile == old(binaryOutputFile) + event.Payload()
    {
      hide Run, Invariant, Seen, Looks, IsSentinel;
      Interrupt(Got(event), running);
      RunKeepsInvariant(nearline, history);
      GotIsValid(nearline, Run(nearline, history).value);
      LooksNext(history, Write);
      continueRunning := WriteEvent(event, running);
      Interrupt(Returning(event), continueRunning);
      RunKeepsInvariant(nearline, history);
      ReturningIsHeld(nearline, Run(nearline, history).value);
      LooksNext(history, Return);
      PutBack(event, continueRunning);
    }

    /**
      At most `rounds` rounds of the loop of `main`. Every run of it is a run of the transition
      system, and between two rounds the file holds what has been taken, in order.
     */
    method Collect(rounds: nat) returns (left: bool, running: bool)
      requires At(Head, true) && Follows()
      modifies this
      ensures At(if left then Left else Head, running) && Follows()
      ensures left || Looks(history) == Looks(old(history)) + rounds
      ensures if left then statements > old(statements) else statements >= old(statements) + 2 * rounds
      ensures produced == taken + queue && AllValid(taken) && binaryOutputFile == Payloads(taken)
      ensures held == if nearline then taken else []
    {
      hide Run, Invariant, Seen, Looks;
      left, running := false, true;
      var round := 0;
      while round < rounds && !left
        invariant At(if left then Left else Head, running) && Follows()
        invariant round <= rounds && Looks(history) == Looks(old(history)) + round
        invariant if left then statements > old(statements) else statements >= old(statements) + 2 * round
        decreases rounds - round, !left
      {
        round := round + 1;
        Interrupt(Head, running);
        var go, timed := LoopHead(running);
        if !go {
          left := true;
        } else {
          Interrupt(Getting(timed), running);
          LooksNext(history, Get(Answered(world.answers(statements), timed, queue)));
          var status, event := GetEvent(timed, running);
          if timed && status == Timeout { running := false; }
          if (status == WriteError || status == ReadError) && !nearline { running := false; }
          if status == Dead || status == Timeout || status == Wakeup {
            running := false;
          } else if status == Empty || status == Busy {
            continue;
          }
          if status != Ok { continue; }
          running := Handle(event, running);
        }
      }
      RunKeepsInvariant(nearline, history);
      BetweenRounds(nearline, Run(nearline, history).value);
    }
  }

  /** What a request is told: `Ok` needs an event, and only a timed request that finds none times out. */
  function Answered(answer: EtStatus, timed: bool, queue: seq<EventHandler>): EtStatus {
    if answer == Ok && queue == [] then Empty
    else if answer == Timeout && !(timed && queue == []) then Busy
    else answer
  }

  lemma TakeStep(nearline: bool, history: seq<Action>, a: Action)
    ensures Run(nearline, history + [a]) ==
            match Run(nearline, history) case None => None case Some(s) => Next(nearline, s, a)
  {
    assert (history + [a])[..|history|] == history;
  }

  lemma GotIsValid(nearline: bool, s: State)
    requires Invariant(nearline, s) && s.place.Got?
    ensures s.place.event.Valid()
  {
    var k := |s.taken| - 1;
    assert s.taken[k] == s.produced[k];
  }

  lemma ReturningIsHeld(nearline: bool, s: State)
    requires Invariant(nearline, s) && s.place.Returning?
    ensures nearline || s.held != []
  {
  }

  lemma BetweenRounds(nearline: bool, s: State)
    requires Invariant(nearline, s) && (s.place.Head? || s.place.Left?)
    ensures s.produced == s.taken + s.queue && AllValid(s.taken) && s.written == Payloads(s.taken)
    ensures s.held == if nearline then s.taken else []
  {
  }
}
