/** A run of the DAQ: `DAQWorker` and the control flow of `main`, with every hardware call free to fail. */
module DaqRun {
  import opened Bytes
  import opened DaqStream
  import opened GateFile
  import opened Headers
  import opened Outcomes
  import opened StateRecorder

  const EXIT_CLEAN_SENTINEL := 2
  const EXIT_CLEAN_NOSENTINEL := 3

  /** What the hardware does with one call. */
  datatype Reply = Reply(status: Status, time: nat, size: nat, data: bytes)

  /** `data` cut or filled with zeros to `n` bytes. */
  function Sized(data: bytes, n: nat): (b: bytes)
    ensures |b| == n
    ensures forall i | 0 <= i < n :: b[i] == if i < |data| then data[i] else 0
    ensures |data| == n ==> b == data
  {
    if n <= |data| then data[..n] else data + seq(n - |data|, _ => 0)
  }

  /** `ReadoutWorker`: an iterator over the channels, and a hardware that follows a script. */
  class ReadoutWorker {
    const channels: nat
    const script: nat -> Reply
    var asked: nat
    var currentChannel: nat

    constructor (n: nat, s: nat -> Reply)
      ensures channels == n && script == s && asked == 0
    {
      channels, script, asked, currentChannel := n, s, 0, 0;
    }

    /** No call ever fails and every trigger comes. */
    ghost predicate Faultless() {
      forall k :: script(k).status == Normal && script(k).time > 0
    }

    /**
      The calls since `from` went well; or the last one did not, those before it did, and that is how it
      came back.
     */
    ghost predicate Told(from: nat, status: Status)
      reads this`asked
    {
      if status.Normal? then from <= asked && forall k | from <= k < asked :: script(k).status.Normal?
      else
        && from < asked && script(asked - 1).status == status
        && forall k | from <= k < asked - 1 :: script(k).status.Normal?
    }

    /** Any call of the hardware. */
    method Call() returns (status: Status, reply: Reply)
      modifies this`asked
      ensures reply == script(old(asked)) && status == reply.status && asked == old(asked) + 1
      ensures Faultless() ==> status.Normal? && reply.time > 0
    {
      reply := script(asked);
      status, asked := reply.status, asked + 1;
    }

    method ResetCurrentChannel()
      modifies this`currentChannel
      ensures currentChannel == 0
    {
      currentChannel := 0;
    }

    method MoveToNextChannel() returns (more: bool)
      requires currentChannel < channels
      modifies this`currentChannel
      ensures currentChannel == old(currentChannel) + 1 && (more <==> currentChannel < channels)
    {
      currentChannel := currentChannel + 1;
      more := currentChannel != channels;
    }

    method GetNextDataBlockSize() returns (status: Status, size: nat)
      modifies this`asked
      ensures currentChannel != channels ==>
                size == script(old(asked)).size && asked == old(asked) + 1 && status == script(old(asked)).status
      ensures currentChannel == channels ==> status.Normal? && asked == old(asked)
      ensures Faultless() ==> status.Normal?
    {
      status, size := Normal, 0;
      if currentChannel != channels {
        var reply;
        status, reply := Call();
        size := reply.size;
      }
    }

    /** Past the last channel the process exits. */
    method GetNextDataBlock(size: nat) returns (status: Status, block: bytes)
      requires currentChannel <= channels
      modifies this`asked
      ensures status.Normal? ==> currentChannel < channels
      ensures Faultless() && currentChannel < channels ==> status.Normal?
      ensures currentChannel < channels ==> block == Sized(script(old(asked)).data, size % 0x1_0000)
      ensures if currentChannel < channels then asked == old(asked) + 1 && status == script(old(asked)).status
              else asked == old(asked) && status.Exited?
      ensures |block| < 0x1_0000
    {
      block := [];
      if currentChannel == channels {
        return Exited, [];
      }
      var reply;
      status, reply := Call();
      block := Sized(reply.data, size % 0x1_0000);
    }

    method GetRunHeader() returns (status: Status, header: bytes)
      modifies this`asked
      ensures Faultless() ==> status.Normal?
      ensures exists config: bytes | |config| == RUN_HEADER_SIZE - 8 :: header == RunHeaderBytes(config)
      ensures asked == old(asked) + 1 && status == script(old(asked)).status
    {
      hide RunHeaderBytes;
      var reply;
      status, reply := Call();
      var config := Sized(reply.data, RUN_HEADER_SIZE - 8);
      header := RunHeaderBytes(config);
    }
  }

  /** What the event transfer system does with an event. */
  datatype EtAnswer = NotAlive | NewRefused | NewFailed | PutFailed | Accepted

  /** The events that were put into the system, of those it was asked to take. */
  function Produced(answers: nat -> EtAnswer, declared: seq<Event>): seq<EventHandler> {
    if declared == [] then []
    else
      var k := |declared| - 1;
      Produced(answers, declared[..k]) + if answers(k).Accepted? then [declared[k].handler] else []
  }

  class EventTransfer {
    const answers: nat -> EtAnswer
    var asked: nat
    var produced: seq<EventHandler>
    ghost var declared: seq<Event>

    ghost predicate Valid()
      reads this
    {
      asked == |declared| && produced == Produced(answers, declared)
    }

    constructor (a: nat -> EtAnswer)
      ensures Valid() && answers == a && declared == []
    {
      answers, asked, produced, declared := a, 0, [], [];
    }

    /** `ContactEventBuilder`: an event that is dropped before it is put still counts as a success. */
    method ContactEventBuilder(handler: EventHandler, ghost kind: Kind) returns (ok: bool)
      requires Valid()
      modifies this
      ensures Valid() && declared == old(declared) + [Event(kind, handler)]
      ensures !ok <==> answers(old(asked)).NewFailed? || answers(old(asked)).PutFailed?
    {
      var answer := answers(asked);
      asked, declared := asked + 1, declared + [Event(kind, handler)];
      ok := true;
      match answer {
        case NotAlive =>
        case NewRefused =>
        case NewFailed => ok := false;
        case PutFailed => ok := false;
        case Accepted => produced := produced + [handler];
      }
      assert declared[..|declared| - 1] == old(declared);
    }

    /** `DeclareDataBlock` with `CreateEventHandler`; nobody looks at whether the event was taken. */
    method DeclareDataBlock(data: bytes, ghost kind: Kind)
      requires Valid() && |data| < 0x1_0000
      modifies this
      ensures Valid() && OneMore(declared, old(declared)) && Holds(declared[|old(declared)|], kind, data)
    {
      var handler := CreateEventHandler(data);
      var _ := ContactEventBuilder(handler, kind);
    }
  }

  /** One event has been appended. */
  predicate OneMore(now: seq<Event>, before: seq<Event>) {
    |now| == |before| + 1 && now == before + [now[|before|]]
  }

  predicate Holds(e: Event, kind: Kind, data: bytes) {
    e.kind == kind && e.handler.Valid() && e.handler.Payload() == data
  }

  /** A run header is the first event of a run. */
  lemma StartsRun(r: Shape, s: seq<Event>)
    requires |s| == 1 && s[0].kind == RunStart && Carried(s[0])
    ensures InRun(r, s)
  {
    hide Carried;
  }

  class DAQWorker {
    const recorder: ReadoutStateRecorder
    const readout: ReadoutWorker
    const et: EventTransfer
    /** Whether the run has been told to stop at the k-th look at the status. */
    const stops: nat -> bool
    var looks: nat

    ghost const shape: Shape

    constructor (r: ReadoutStateRecorder, w: ReadoutWorker, e: EventTransfer, s: nat -> bool)
      ensures recorder == r && readout == w && et == e && stops == s
      ensures shape == Shape(w.channels, r.args.mode, r.tracked, r.origin)
    {
      recorder, readout, et, stops, looks := r, w, e, s, 0;
      shape := Shape(w.channels, r.args.mode, r.tracked, r.origin);
    }

    ghost function GatesAsked(): nat {
      if recorder.args.numberOfGates < 0 then 0 else recorder.args.numberOfGates
    }

    /** Nothing goes wrong: no fault, no signal, a known mode and something to read. */
    ghost predicate Quiet() {
      readout.Faultless() && (forall k :: !stops(k)) && recorder.args.mode != OtherMode && readout.channels > 0
    }

    lemma CallsForNext(gates: nat)
      requires shape.channels == readout.channels
      ensures CallsFor(0) == 0 && CallsFor(gates + 1) == CallsFor(gates) + 2 * shape.channels + 3
    {
    }

    /** The hardware calls of the first `gates` gates: a trigger, two for every channel, and two to finish. */
    ghost function CallsFor(gates: nat): nat {
      if gates == 0 then 0 else CallsFor(gates - 1) + 1 + 2 * readout.channels + 2
    }

    ghost predicate Valid()
      reads this, recorder, et
    {
      && shape == Shape(readout.channels, recorder.args.mode, recorder.tracked, recorder.origin)
      && et.Valid() && InRun(shape, et.declared) && recorder.finished <= GatesAsked()
    }

    /** Of `n` events the gate headers are those of the gates the recorder has finished. */
    ghost predicate Counts(n: nat)
      reads recorder
    {
      && recorder.Booked()
      && (n == 0 == recorder.finished
          || Complete(shape, recorder.finished) <= n <= Complete(shape, recorder.finished) + shape.channels)
    }

    ghost predicate Settled()
      reads this, recorder, et
    {
      Valid() && Counts(|et.declared|)
    }

    /** Every gate that began has been finished and declared. */
    ghost predicate BetweenGates()
      reads this, recorder, et
    {
      && Valid() && recorder.Booked() && recorder.gate == recorder.finished
      && |et.declared| == Complete(shape, recorder.gate)
    }

    /** A gate is open and the blocks of the channels before the current one have been declared. */
    ghost predicate InGate()
      reads this, recorder, et, readout
    {
      && Valid() && recorder.Booked() && recorder.gate == recorder.finished + 1 <= GatesAsked()
      && recorder.triggerType == TriggerFor(shape.mode, recorder.gate)
      && readout.currentChannel <= shape.channels
      && |et.declared| == Complete(shape, recorder.finished) + readout.currentChannel
    }

    method DeclareRunHeaderToET() returns (status: Status)
      requires Valid() && recorder.Booked() && recorder.finished == 0 && et.declared == []
      modifies readout`asked, et
      ensures Settled() && (status.Normal? ==> |et.declared| == 1) && (Quiet() ==> status.Normal?)
      ensures readout.Told(old(readout.asked), status) && readout.asked == old(readout.asked) + 1
    {
      hide RunHeaderBytes, IsDaqHeader, InfoWords, InRun, Produced, Complete, HoldsGate, TriggerFor;
      var header :- readout.GetRunHeader();
      et.DeclareDataBlock(header, RunStart);
      StartsRun(shape, et.declared);
      FirstPlace(shape);
      status := Normal;
    }

    /** The switch over the running modes: an unknown one has no trigger. */
    method AwaitTrigger() returns (status: Status, triggerTime: nat)
      modifies readout`asked
      ensures readout.Told(old(readout.asked), status)
      ensures if recorder.args.mode == OtherMode then
                status.Normal? && triggerTime == 0 && readout.asked == old(readout.asked)
              else
                && readout.asked == old(readout.asked) + 1 && status == readout.script(old(readout.asked)).status
                && triggerTime == readout.script(old(readout.asked)).time
      ensures Quiet() ==> status.Normal? && triggerTime > 0
    {
      status, triggerTime := Normal, 0;
      if recorder.args.mode != OtherMode {
        var reply;
        status, reply := readout.Call();
        triggerTime := reply.time;
      }
    }

    /** Waits for the next gate, unless there is none or the run is to stop. */
    method BeginNextGate() returns (status: Status, more: bool)
      requires BetweenGates()
      modifies this`looks, recorder, readout
      ensures Settled() && (more ==> status.Normal?)
      ensures more ==> InGate() && recorder.gate == old(recorder.gate) + 1 && readout.currentChannel == 0
      ensures more ==> 0 < recorder.gateStartTime == readout.script(old(readout.asked)).time
      ensures readout.Told(old(readout.asked), status) && looks == old(looks) + 1
      ensures var wanted := !stops(old(looks)) && old(recorder.gate) < recorder.args.numberOfGates
                            && recorder.args.mode != OtherMode;
              && readout.asked == old(readout.asked) + (if wanted then 1 else 0)
              && (more <==> wanted && status.Normal? && readout.script(old(readout.asked)).time > 0)
      ensures !more ==> BetweenGates() && recorder.gate == old(recorder.gate)
      ensures Quiet() ==> status.Normal? && (more <==> old(recorder.gate) < recorder.args.numberOfGates)
    {
      hide InRun, Produced, Complete, HoldsGate, TriggerFor, FitsAt, ReadGate, ReadoutWorker.Faultless;
      status, more := Normal, false;
      var stop := stops(looks);
      looks := looks + 1;
      if stop { return; }
      more := recorder.MoreGates();
      if !more { return; }
      more := false;
      readout.ResetCurrentChannel();
      var triggerType := recorder.GetNextTriggerType();
      var triggerTime :- AwaitTrigger();
      if triggerTime == 0 { return; }
      recorder.gateStartTime := triggerTime;
      more := recorder.BeginNextGate();
    }

    /** The block the hardware delivers when it is asked for a size and then for the data. */
    ghost function Delivered(asked: nat): bytes {
      Sized(readout.script(asked + 1).data, readout.script(asked).size % 0x1_0000)
    }

    /** One round of the loop over the channels: what the channel delivers is what is declared. */
    method ReadChannel() returns (status: Status, more: bool)
      requires InGate() && (readout.currentChannel < shape.channels || shape.channels == 0)
      modifies readout, et
      ensures Settled() && (Quiet() ==> status.Normal?)
      ensures if shape.channels == 0 then status.Exited? && readout.asked == old(readout.asked)
              else readout.Told(old(readout.asked), status)
      ensures status.Normal? ==> readout.asked == old(readout.asked) + 2
      ensures status.Normal? ==> InGate() && readout.currentChannel == old(readout.currentChannel) + 1
      ensures status.Normal? ==> (more <==> readout.currentChannel < shape.channels)
      ensures status.Normal? ==>
                && OneMore(et.declared, old(et.declared))
                && Holds(et.declared[|old(et.declared)|], Block(recorder.gate, old(readout.currentChannel)),
                         Delivered(old(readout.asked)))
    {
      hide InRun, FitsAt, Produced, Complete, HoldsGate, TriggerFor, Sized;
      more := false;
      var size :- readout.GetNextDataBlockSize();
      var block :- readout.GetNextDataBlock(size);
      ghost var was := et.declared;
      ghost var kind := Block(recorder.gate, readout.currentChannel);
      PlaceOf(shape, recorder.finished, readout.currentChannel, kind);
      et.DeclareDataBlock(block, kind);
      InRunNext(shape, was, et.declared[|was|]);
      more := readout.MoveToNextChannel();
      status := Normal;
    }

    /** `FinishGate`. */
    method FinishGate() returns (status: Status)
      requires InGate()
      modifies recorder, readout`asked
      ensures if status.Normal? then Valid() else Settled()
      ensures Quiet() ==> status.Normal?
      ensures readout.Told(old(readout.asked), status)
      ensures status.Normal? ==> readout.asked == old(readout.asked) + 2
      ensures status.Normal? ==> recorder.Booked() && recorder.gate == recorder.finished == old(recorder.gate)
      ensures status.Normal? ==> recorder.triggerType == old(recorder.triggerType)
      ensures status.Normal? ==>
                && recorder.gateFinishTime == readout.script(old(readout.asked)).time
                && recorder.minosSgate == readout.script(old(readout.asked) + 1).time
    {
      hide InRun, Produced, Complete, HoldsGate, TriggerFor;
      var now :- readout.Call();
      recorder.gateFinishTime := now.time;
      var gate :- readout.Call();
      recorder.minosSgate := gate.time;
      recorder.FinishGate();
      status := Normal;
    }

    /** The header that ends the gate. */
    method DeclareDAQHeaderToET()
      requires Valid() && recorder.Booked() && 0 < recorder.gate == recorder.finished
      requires recorder.triggerType == TriggerFor(shape.mode, recorder.gate)
      requires |et.declared| == Complete(shape, recorder.gate - 1) + shape.channels
      modifies et
      ensures BetweenGates()
      ensures OneMore(et.declared, old(et.declared)) && et.declared[|old(et.declared)|].kind == GateEnd(recorder.Info())
    {
      hide InRun, FitsAt, Produced, Complete, HoldsGate, IsDaqHeader, InfoWords, Unpack, TriggerCode, TriggerFor;
      var header := recorder.GetDAQHeader(DAQ_BANK);
      ghost var was := et.declared;
      ghost var kind := GateEnd(recorder.Info());
      PlaceOf(shape, (recorder.gate - 1) as nat, shape.channels, kind);
      HeaderSize(header, DAQ_BANK, recorder.Info());
      et.DeclareDataBlock(header, kind);
      InRunNext(shape, was, et.declared[|was|]);
    }

    method SendSentinel() returns (sent: bool)
      requires Valid()
      modifies et
      ensures sent && et.Valid() && Closed(shape, et.declared)
      ensures OneMore(et.declared, old(et.declared))
      ensures et.declared[|old(et.declared)|].kind == Sentinel(recorder.Info())
    {
      hide InRun, Produced, HoldsGate, IsDaqHeader, InfoWords, Unpack, TriggerCode;
      var header := recorder.GetDAQHeader(SENTINEL_BANK);
      HeaderSize(header, SENTINEL_BANK, recorder.Info());
      ghost var was := et.declared;
      et.DeclareDataBlock(header, Sentinel(recorder.Info()));
      assert et.declared[..|was|] == was;
      sent := true;
    }

    method TakeData() returns (status: Status)
      requires Valid() && recorder.Booked() && recorder.gate == 0 == recorder.finished && et.declared == []
      modifies this`looks, recorder, readout, et
      ensures Settled()
      ensures shape.channels > 0 ==> readout.Told(old(readout.asked), status)
      ensures Quiet() ==> status.Normal? && |et.declared| == Complete(shape, GatesAsked())
      ensures Quiet() ==> readout.asked == old(readout.asked) + CallsFor(GatesAsked()) + 2
    {
      hide InRun, Produced, Complete, HoldsGate, TriggerFor, CallsFor;
      CallsForNext(0);
      :- DeclareRunHeaderToET();
      FirstPlace(shape);
      var more;
      status, more := BeginNextGate();
      while status.Normal? && more
        invariant Settled() && (more ==> status.Normal? && InGate() && readout.currentChannel == 0)
        invariant status.Normal? && !more ==> BetweenGates()
        invariant shape.channels > 0 ==> readout.Told(old(readout.asked), status)
        invariant Quiet() ==> status.Normal? && (!more ==> recorder.gate == GatesAsked())
        invariant Quiet() ==>
                    readout.asked == old(readout.asked) + 1 + CallsFor(recorder.finished) + (if more then 1 else 0)
        decreases GatesAsked() - recorder.finished, more
      {
        CallsForNext(recorder.finished);
        :- TakeGate();
        status, more := BeginNextGate();
      }
      if !status.Normal? { return; }
      var reset :- readout.Call();
      status := Normal;
    }

    /** The body of the loop over the gates. */
    method TakeGate() returns (status: Status)
      requires InGate() && readout.currentChannel == 0
      modifies recorder, readout, et
      ensures Settled() && (Quiet() ==> status.Normal?)
      ensures shape.channels > 0 ==> readout.Told(old(readout.asked), status)
      ensures status.Normal? ==> readout.asked == old(readout.asked) + 2 * shape.channels + 2
      ensures status.Normal? ==> BetweenGates() && recorder.finished == old(recorder.finished) + 1
    {
      hide InRun, Produced, Complete, HoldsGate, TriggerFor;
      var more := true;
      while more
        invariant InGate() && recorder.finished == old(recorder.finished)
        invariant readout.Told(old(readout.asked), Normal)
        invariant readout.asked == old(readout.asked) + 2 * readout.currentChannel
        invariant more ==> readout.currentChannel < shape.channels || shape.channels == 0
        invariant !more ==> readout.currentChannel >= shape.channels
        decreases more, shape.channels - readout.currentChannel
      {
        more :- ReadChannel();
      }
      :- FinishGate();
      DeclareDAQHeaderToET();
      status := Normal;
    }

    /** What `main` does inside its `try`; `sent` is true from the sentinel on. */
    method Try() returns (status: Status, sent: bool)
      requires Valid() && recorder.Booked() && recorder.gate == 0 == recorder.finished && et.declared == []
      modifies this`looks, recorder, readout, et
      ensures if sent then et.Valid() && Closed(shape, et.declared) && Counts(|et.declared| - 1) else Settled()
      ensures status.Normal? ==> sent
      ensures shape.channels > 0 ==> readout.Told(old(readout.asked), status)
      ensures Quiet() ==> status.Normal? && |et.declared| == Complete(shape, GatesAsked()) + 1
      ensures Quiet() ==> readout.asked == old(readout.asked) + CallsFor(GatesAsked()) + 4
    {
      hide InRun, Produced, Complete, HoldsGate, TriggerFor, Closed;
      sent := false;
      var started :- readout.Call();
      :- TakeData();
      sent := SendSentinel();
      var cleaned :- readout.Call();
      status := Normal;
    }

    /**
      `main`, from the attempt to set up the event transfer on. There is no exit code when the
      hardware ended the process.
     */
    method Run(etError: int) returns (exitCode: Option<int>)
      requires Valid() && recorder.Booked() && recorder.gate == 0 == recorder.finished && et.declared == []
      modifies this`looks, recorder, readout, et
      ensures et.Valid()
      ensures etError != 0 ==> et.declared == [] && exitCode == Some(EXIT_CLEAN_NOSENTINEL)
      ensures etError == 0 && exitCode.Some? ==> Closed(shape, et.declared) && exitCode == Some(EXIT_CLEAN_SENTINEL)
      ensures exitCode.Some? ==> exitCode.value == if etError == 0 then 2 else 3
      ensures exitCode.None? ==> InRun(shape, et.declared) || Closed(shape, et.declared)
      ensures shape.channels > 0 ==>
                (exitCode.None? <==>
                  exists k | old(readout.asked) <= k < readout.asked :: readout.script(k).status.Exited?)
      ensures Counts(|et.declared| - if Closed(shape, et.declared) then 1 else 0)
      ensures etError == 0 && Quiet() ==>
                exitCode == Some(EXIT_CLEAN_SENTINEL) && |et.declared| == Complete(shape, GatesAsked()) + 1
    {
      hide InRun, Produced, Complete, HoldsGate, TriggerFor, Closed;
      var sentSentinel := false;
      OpenRun(shape, et.declared);
      if etError == 0 {
        var status;
        status, sentSentinel := Try();
        match status {
          case Normal =>
          case Thrown =>
            if !sentSentinel {
              sentSentinel := SendSentinel();
            }
          case Exited =>
            if !sentSentinel { OpenRun(shape, et.declared); }
            return None;
        }
      }
      exitCode := Some(if sentSentinel then EXIT_CLEAN_SENTINEL else EXIT_CLEAN_NOSENTINEL);
    }
  }
}
