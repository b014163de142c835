/**
  The consumer of the event stream, interleaved in every possible way with the producer and with
  quit signals. The event transfer system is a lossless queue.
 */
module EventBuilder {
  import opened Bytes
  import opened DaqStream
  import opened Headers

  /** The answers of `et_event_get`. */
  datatype EtStatus = Ok | Empty | Busy | Timeout | Dead | Wakeup | ReadError | WriteError | OtherError

  /** Where the consumer is in its loop. */
  datatype Place = Head | Waiting | Getting(timed: bool) | Got(event: EventHandler)
    | Returning(event: EventHandler) | Left

  datatype State = State(
    produced: seq<EventHandler>,
    queue: seq<EventHandler>,
    taken: seq<EventHandler>,
    held: seq<EventHandler>,
    written: bytes,
    waitingToQuit: bool,
    quitNow: bool,
    continueRunning: bool,
    place: Place)

  const START := State([], [], [], [], [], false, false, true, Head)

  /** One step of the producer (`Put`), of a user (`Signal`) or of the consumer. */
  datatype Action = Put(event: EventHandler) | Signal | Look(alive: bool) | Choose | Get(status: EtStatus) | Write
    | Return

  predicate IsSentinel(e: EventHandler) {
    e.Valid() && e.LeadBankType() == SENTINEL_BANK
  }

  /** The consumer's next place after it was told `status`, and whether it goes on. */
  function AfterGet(nearline: bool, s: State, status: EtStatus): Option<State> {
    match status
    case Ok =>
      if s.queue == [] then None
      else Some(s.(queue := s.queue[1..], taken := s.taken + [s.queue[0]], held := s.held + [s.queue[0]],
                   place := Got(s.queue[0])))
    case Empty => Some(s.(place := Head))
    case Busy => Some(s.(place := Head))
    case OtherError => Some(s.(place := Head))
    case Timeout =>
      // only a timed request that finds nothing times out
      if s.place == Getting(true) && s.queue == [] then Some(s.(continueRunning := false, place := Head)) else None
    case Dead => Some(s.(continueRunning := false, place := Head))
    case Wakeup => Some(s.(continueRunning := false, place := Head))
    case ReadError => Some(s.(continueRunning := s.continueRunning && nearline, place := Head))
    case WriteError => Some(s.(continueRunning := s.continueRunning && nearline, place := Head))
  }

  /** The state after the action, when the action is possible. */
  function Next(nearline: bool, s: State, a: Action): Option<State> {
    match a
    case Put(e) =>
      if e.Valid() then Some(s.(produced := s.produced + [e], queue := s.queue + [e])) else None
    case Signal =>
      Some(if s.waitingToQuit then s.(quitNow := true) else s.(waitingToQuit := true))
    case Look(alive) =>
      if s.place != Head then None
      else if !alive || !s.continueRunning then Some(s.(place := Left))
      else if !s.waitingToQuit then Some(s.(place := Getting(false)))
      else Some(s.(place := Waiting))
    case Choose =>
      if s.place != Waiting then None
      else if !s.quitNow then Some(s.(place := Getting(true)))
      else Some(s.(place := Left))
    case Get(status) =>
      if s.place.Getting? then AfterGet(nearline, s, status) else None
    case Write =>
      if s.place.Got? && s.place.event.Valid() then
        Some(s.(written := s.written + s.place.event.Payload(),
                continueRunning := s.continueRunning && !IsSentinel(s.place.event),
                place := Returning(s.place.event)))
      else None
    case Return =>
      if !s.place.Returning? then None
      else if nearline then Some(s.(place := Head))
      else if s.held == [] then None
      else Some(s.(held := s.held[..|s.held| - 1], place := Head))
  }

  /** The state after a whole run, when every action in it is possible. */
  function Run(nearline: bool, actions: seq<Action>): Option<State> {
    if actions == [] then Some(START)
    else
      match Run(nearline, actions[..|actions| - 1])
      case None => None
      case Some(s) => Next(nearline, s, actions[|actions| - 1])
  }

  predicate AllValid(es: seq<EventHandler>) {
    forall i | 0 <= i < |es| :: es[i].Valid()
  }

  function Payloads(es: seq<EventHandler>): bytes
    requires AllValid(es)
  {
    if es == [] then [] else Payloads(es[..|es| - 1]) + es[|es| - 1].Payload()
  }

  /** The events the consumer is done writing. */
  function Done(s: State): seq<EventHandler> {
    if s.place.Got? && s.taken != [] then s.taken[..|s.taken| - 1] else s.taken
  }

  predicate NoSentinel(es: seq<EventHandler>) {
    forall i | 0 <= i < |es| :: !IsSentinel(es[i])
  }

  /** What holds of every reachable state. */
  predicate Invariant(nearline: bool, s: State) {
    && AllValid(s.produced) && s.produced == s.taken + s.queue
    && AllValid(Done(s)) && s.written == Payloads(Done(s))
    && (s.place.Got? || s.place.Returning? ==> s.taken != [] && s.place.event == s.taken[|s.taken| - 1])
    && s.held == (if nearline then s.taken
                  else if s.place.Got? || s.place.Returning? then [s.place.event] else [])
    && (s.quitNow ==> s.waitingToQuit) && (s.place.Waiting? ==> s.waitingToQuit)
    && (s.taken != [] ==> NoSentinel(s.taken[..|s.taken| - 1]))
    && (s.taken != [] && IsSentinel(s.taken[|s.taken| - 1]) && !s.place.Got? ==>
          !s.continueRunning && (s.place.Returning? || s.place.Head? || s.place.Left?))
  }

  lemma StartIsInvariant(nearline: bool)
    ensures Invariant(nearline, START)
  {
  }

  lemma NextKeepsInvariant(nearline: bool, s: State, a: Action)
    requires Invariant(nearline, s) && Next(nearline, s, a).Some?
    ensures Invariant(nearline, Next(nearline, s, a).value)
  {
    hide Payloads, NoSentinel, IsSentinel, AllValid;
    match a
    case Put(e) => PutKeeps(nearline, s, e);
    case Signal =>
    case Look(alive) =>
    case Choose =>
    case Get(status) => GetKeeps(nearline, s, status);
    case Write => WriteKeeps(nearline, s);
    case Return =>
  }

  lemma PutKeeps(nearline: bool, s: State, e: EventHandler)
    requires Invariant(nearline, s) && e.Valid()
    ensures Invariant(nearline, Next(nearline, s, Put(e)).value)
  {
    assert s.taken + (s.queue + [e]) == s.produced + [e];
  }

  lemma GetKeeps(nearline: bool, s: State, status: EtStatus)
    requires Invariant(nearline, s) && Next(nearline, s, Get(status)).Some?
    ensures Invariant(nearline, Next(nearline, s, Get(status)).value)
  {
    hide Invariant;
    if status == Ok {
      TakeKeeps(nearline, s);
    } else {
      NothingTakenKeeps(nearline, s, AfterGet(nearline, s, status).value.continueRunning);
    }
  }

  lemma NothingTakenKeeps(nearline: bool, s: State, running: bool)
    requires Invariant(nearline, s) && s.place.Getting? && (running ==> s.continueRunning)
    ensures Invariant(nearline, s.(continueRunning := running, place := Head))
  {
    hide Payloads, NoSentinel, IsSentinel, AllValid;
  }

  lemma TakeKeeps(nearline: bool, s: State)
    requires Invariant(nearline, s) && s.place.Getting? && s.queue != []
    ensures Invariant(nearline, AfterGet(nearline, s, Ok).value)
  {
    hide Payloads, IsSentinel, AllValid, NoSentinel;
    HeadMoves(s.taken, s.queue);
    HeldBefore(nearline, s);
    OnlyTheLastStops(s);
  }

  lemma HeadMoves(taken: seq<EventHandler>, queue: seq<EventHandler>)
    requires queue != []
    ensures (taken + [queue[0]]) + queue[1..] == taken + queue
    ensures (taken + [queue[0]])[..|taken|] == taken && |taken + [queue[0]]| == |taken| + 1
  {
  }

  /** While the consumer asks, the online builder holds nothing, and it has not taken a sentinel. */
  lemma HeldBefore(nearline: bool, s: State)
    requires Invariant(nearline, s) && s.place.Getting? && s.queue != []
    ensures s.held + [s.queue[0]] == if nearline then s.taken + [s.queue[0]] else [s.queue[0]]
    ensures s.taken != [] ==> NoSentinel(s.taken[..|s.taken| - 1]) && !IsSentinel(s.taken[|s.taken| - 1])
  {
    hide Payloads, IsSentinel, AllValid, NoSentinel;
  }

  /** While the consumer runs, it has not taken a sentinel. */
  lemma OnlyTheLastStops(s: State)
    requires s.taken != [] ==> NoSentinel(s.taken[..|s.taken| - 1]) && !IsSentinel(s.taken[|s.taken| - 1])
    ensures NoSentinel(s.taken)
  {
    hide IsSentinel;
    if s.taken != [] {
      var k := |s.taken| - 1;
      forall i | 0 <= i < |s.taken| ensures !IsSentinel(s.taken[i]) {
        if i < k { assert s.taken[..k][i] == s.taken[i]; }
      }
    }
  }

  lemma WriteKeeps(nearline: bool, s: State)
    requires Invariant(nearline, s) && Next(nearline, s, Write).Some?
    ensures Invariant(nearline, Next(nearline, s, Write).value)
  {
    var k := |s.taken| - 1;
    assert s.taken == s.taken[..k] + [s.taken[k]];
    forall i | 0 <= i < |s.taken| ensures s.taken[i].Valid() { assert s.taken[i] == s.produced[i]; }
  }

  lemma {:induction false} RunKeepsInvariant(nearline: bool, actions: seq<Action>)
    requires Run(nearline, actions).Some?
    ensures Invariant(nearline, Run(nearline, actions).value)
  {
    hide Invariant, Next;
    if actions == [] {
      StartIsInvariant(nearline);
    } else {
      var k := |actions| - 1;
      RunKeepsInvariant(nearline, actions[..k]);
      NextKeepsInvariant(nearline, Run(nearline, actions[..k]).value, actions[k]);
    }
  }

  // ----- what a run has written -----

  lemma {:induction false} PayloadsAppend(a: seq<EventHandler>, b: seq<EventHandler>)
    requires AllValid(a) && AllValid(b)
    ensures AllValid(a + b) && Payloads(a + b) == Payloads(a) + Payloads(b)
  {
    if b == [] {
      assert a + b == a;
    } else {
      var k := |b| - 1;
      assert (a + b)[..|a + b| - 1] == a + b[..k];
      PayloadsAppend(a, b[..k]);
      assert Payloads(a) + Payloads(b) == Payloads(a) + Payloads(b[..k]) + b[k].Payload();
    }
  }

  /**
    Under every interleaving the file holds the payloads of the first events produced, each once and
    in order; what it lacks is the event being written and what is still queued. At the head of the
    loop the online builder holds no event.
   */
  lemma NothingLostOrRepeated(nearline: bool, actions: seq<Action>)
    requires Run(nearline, actions).Some?
    ensures var s := Run(nearline, actions).value;
            && AllValid(s.produced) && AllValid(s.queue) && AllValid(Done(s)) && Done(s) <= s.produced
            && s.written == Payloads(Done(s))
            && (s.place.Got? ==> s.place.event.Valid())
            && s.written + (if s.place.Got? then s.place.event.Payload() else []) + Payloads(s.queue)
               == Payloads(s.produced)
            && (!nearline && (s.place.Head? || s.place.Left?) ==> s.held == [])
  {
    hide Run;
    RunKeepsInvariant(nearline, actions);
    var s := Run(nearline, actions).value;
    forall i | 0 <= i < |s.queue| ensures s.queue[i].Valid() { assert s.queue[i] == s.produced[|s.taken| + i]; }
    forall i | 0 <= i < |s.taken| ensures s.taken[i].Valid() { assert s.taken[i] == s.produced[i]; }
    PayloadsAppend(s.taken, s.queue);
    if s.place.Got? {
      assert s.taken == Done(s) + [s.place.event];
    }
  }

  /** The first sentinel of a stream is at `k`. */
  predicate FirstSentinelAt(es: seq<EventHandler>, k: nat) {
    k < |es| && IsSentinel(es[k]) && NoSentinel(es[..k])
  }

  /** The consumer left its loop after it wrote a sentinel. */
  predicate StoppedAtSentinel(s: State) {
    s.place.Left? && s.taken != [] && IsSentinel(s.taken[|s.taken| - 1])
  }

  /**
    A consumer that stops at a sentinel stops at the first one of the whole stream, however much is
    produced afterwards, and has written exactly what comes up to it. So it has written the whole
    stream just when the first sentinel is the last event.
   */
  lemma StopsAtFirstSentinel(nearline: bool, actions: seq<Action>, stream: seq<EventHandler>)
    requires Run(nearline, actions).Some? && StoppedAtSentinel(Run(nearline, actions).value)
    requires Run(nearline, actions).value.produced <= stream
    ensures var s := Run(nearline, actions).value; var k := |s.taken| - 1;
            && FirstSentinelAt(stream, k) && AllValid(stream[..k + 1]) && s.written == Payloads(stream[..k + 1])
            && (s.taken == stream <==> FirstSentinelAt(stream, |stream| - 1))
  {
    hide Run, IsSentinel;
    RunKeepsInvariant(nearline, actions);
    var s := Run(nearline, actions).value;
    var k := |s.taken| - 1;
    assert stream[..k + 1] == s.taken;
    assert stream[..k] == s.taken[..k];
    if k < |stream| - 1 {
      assert stream[..|stream| - 1][k] == stream[k];
    } else {
      assert stream[..k + 1] == stream;
    }
  }

  /** When a request times out, everything produced until then has been written. */
  lemma TimeoutHasEverything(nearline: bool, actions: seq<Action>)
    requires Run(nearline, actions + [Get(Timeout)]).Some?
    ensures var s := Run(nearline, actions + [Get(Timeout)]).value;
            !s.continueRunning && AllValid(s.produced) && s.written == Payloads(s.produced)
  {
    hide Invariant;
    assert (actions + [Get(Timeout)])[..|actions|] == actions;
    RunKeepsInvariant(nearline, actions);
    EmptyQueueMeansWritten(nearline, Run(nearline, actions).value);
  }

  lemma EmptyQueueMeansWritten(nearline: bool, s: State)
    requires Invariant(nearline, s) && s.queue == [] && !s.place.Got?
    ensures AllValid(s.produced) && s.written == Payloads(s.produced)
  {
    assert s.taken + [] == s.taken;
  }

  function Signals(actions: seq<Action>): nat {
    if actions == [] then 0
    else Signals(actions[..|actions| - 1]) + if actions[|actions| - 1].Signal? then 1 else 0
  }

  /** The first signal asks the consumer to finish, the second to leave at once; whatever happens between. */
  lemma {:induction false} SignalsAreCounted(nearline: bool, actions: seq<Action>)
    requires Run(nearline, actions).Some?
    ensures var s := Run(nearline, actions).value;
            (s.waitingToQuit <==> Signals(actions) >= 1) && (s.quitNow <==> Signals(actions) >= 2)
  {
    hide Next;
    if actions != [] {
      var k := |actions| - 1;
      SignalsAreCounted(nearline, actions[..k]);
      SignalStep(nearline, Run(nearline, actions[..k]).value, actions[k]);
    }
  }

  lemma SignalStep(nearline: bool, s: State, a: Action)
    requires Next(nearline, s, a).Some?
    ensures var t := Next(nearline, s, a).value;
            if a == Signal then t.waitingToQuit && t.quitNow == (s.quitNow || s.waitingToQuit)
            else t.waitingToQuit == s.waitingToQuit && t.quitNow == s.quitNow
  {
  }

  // ----- what the consumer does next -----

  /** Two runs have the same events taken, written and held. */
  predicate SameEvents(s: State, t: State) {
    s.taken == t.taken && s.queue == t.queue && s.held == t.held && s.written == t.written
  }

  /**
    At the head of its loop the consumer leaves when the transfer system is down or it has been told to
    stop; before any signal it asks without a time limit, after one it looks at the flags again.
   */
  lemma HeadLooks(nearline: bool, actions: seq<Action>, alive: bool)
    requires Run(nearline, actions).Some? && Run(nearline, actions).value.place == Head
    ensures var s, r := Run(nearline, actions).value, Run(nearline, actions + [Look(alive)]);
            && r.Some? && SameEvents(s, r.value) && r.value.continueRunning == s.continueRunning
            && r.value.place == if !alive || !s.continueRunning then Left
                                else if Signals(actions) == 0 then Getting(false) else Waiting
  {
    hide Run;
    SignalsAreCounted(nearline, actions);
    RunAndNext(nearline, actions, Look(alive));
  }

  /** After two signals the consumer leaves at once; after one it asks with a time limit. */
  lemma QuitterLeaves(nearline: bool, actions: seq<Action>)
    requires Run(nearline, actions).Some? && Run(nearline, actions).value.place == Waiting
    ensures var s, r := Run(nearline, actions).value, Run(nearline, actions + [Choose]);
            && Signals(actions) >= 1 && r.Some? && SameEvents(s, r.value)
            && r.value.place == if Signals(actions) >= 2 then Left else Getting(true)
  {
    hide Run;
    SignalsAreCounted(nearline, actions);
    RunKeepsInvariant(nearline, actions);
    RunAndNext(nearline, actions, Choose);
  }

  /** A request takes the oldest event or none, and an answer ends the loop exactly when it is one of these. */
  lemma AnswerIsTaken(nearline: bool, actions: seq<Action>, status: EtStatus)
    requires Run(nearline, actions).Some? && Run(nearline, actions).value.place.Getting?
    ensures var s, r := Run(nearline, actions).value, Run(nearline, actions + [Get(status)]);
            && (r.None? <==> (status == Ok && s.queue == [])
                             || (status == Timeout && !(s.place.timed && s.queue == [])))
            && (r.Some? && status == Ok ==>
                  && r.value.place == Got(s.queue[0]) && r.value.taken == s.taken + [s.queue[0]]
                  && r.value.queue == s.queue[1..] && r.value.held == s.held + [s.queue[0]]
                  && r.value.continueRunning == s.continueRunning)
            && (r.Some? && status != Ok ==>
                  && r.value.place == Head && SameEvents(s, r.value)
                  && r.value.continueRunning ==
                       (s.continueRunning && !(status in {Timeout, Dead, Wakeup})
                        && !(status in {ReadError, WriteError} && !nearline)))
  {
    hide Run;
    RunAndNext(nearline, actions, Get(status));
  }

  lemma RunAndNext(nearline: bool, actions: seq<Action>, a: Action)
    requires Run(nearline, actions).Some?
    ensures Run(nearline, actions + [a]) == Next(nearline, Run(nearline, actions).value, a)
  {
    assert (actions + [a])[..|actions|] == actions;
  }

  // ----- calm operation -----

  /** The transfer system is up and the request does not fail for good or time out. */
  predicate CalmAction(nearline: bool, a: Action) {
    match a
    case Look(alive) => alive
    case Get(status) =>
      status in {Ok, Empty, Busy, OtherError} || (nearline && status in {ReadError, WriteError})
    case _ => true
  }

  predicate Calm(nearline: bool, actions: seq<Action>) {
    Signals(actions) < 2 && forall i | 0 <= i < |actions| :: CalmAction(nearline, actions[i])
  }

  /** The consumer is in its loop until it has taken a sentinel. */
  predicate RunsToSentinel(s: State) {
    && (s.place.Left? ==> !s.continueRunning)
    && (!s.continueRunning ==> s.taken != [] && IsSentinel(s.taken[|s.taken| - 1]))
  }

  lemma CalmStep(nearline: bool, s: State, a: Action)
    requires Invariant(nearline, s) && RunsToSentinel(s) && Next(nearline, s, a).Some?
    requires CalmAction(nearline, a) && !s.quitNow
    ensures RunsToSentinel(Next(nearline, s, a).value)
  {
    hide IsSentinel, NoSentinel, Payloads, AllValid;
  }

  lemma {:induction false} CalmKeepsRunning(nearline: bool, actions: seq<Action>)
    requires Run(nearline, actions).Some? && Calm(nearline, actions)
    ensures RunsToSentinel(Run(nearline, actions).value)
  {
    hide Next, Invariant, CalmAction;
    if actions != [] {
      var k := |actions| - 1;
      CalmBefore(nearline, actions);
      CalmKeepsRunning(nearline, actions[..k]);
      RunKeepsInvariant(nearline, actions[..k]);
      SignalsAreCounted(nearline, actions[..k]);
      CalmStep(nearline, Run(nearline, actions[..k]).value, actions[k]);
    }
  }

  lemma CalmBefore(nearline: bool, actions: seq<Action>)
    requires Calm(nearline, actions) && actions != []
    ensures Calm(nearline, actions[..|actions| - 1])
  {
    hide CalmAction;
    var before := actions[..|actions| - 1];
    forall i | 0 <= i < |before| ensures CalmAction(nearline, before[i]) { assert before[i] == actions[i]; }
  }

  /** In calm operation the consumer leaves only after it wrote a sentinel. */
  lemma CalmLeavesAtSentinel(nearline: bool, actions: seq<Action>)
    requires Run(nearline, actions).Some? && Calm(nearline, actions) && Run(nearline, actions).value.place.Left?
    ensures StoppedAtSentinel(Run(nearline, actions).value)
  {
    CalmKeepsRunning(nearline, actions);
  }
}
