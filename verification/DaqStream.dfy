/** The events a run hands to the event transfer system, and the order they come in. */
module DaqStream {
  import opened BitSerial
  import opened Bytes
  import ChannelConfig
  import FpgaFrame
  import opened Headers

  const ADC_FRAME_SIZE := 455
  const ADC_FRAMES := 22
  const DISCR_FRAME_SIZE := 1147

  /** The fixed buffer of an event: room for the longest chain. */
  const BUFFER_SIZE := ChannelConfig.MAX_FEBS * (FpgaFrame.FRAME_SIZE + ADC_FRAMES * ADC_FRAME_SIZE + DISCR_FRAME_SIZE)

  /** `EventHandler`: a buffer and how many of its bytes are data. */
  datatype EventHandler = EventHandler(dataLength: nat, data: bytes) {
    predicate Valid() {
      dataLength < 0x1_0000 && |data| == BUFFER_SIZE
    }

    function Payload(): bytes
      requires Valid()
    {
      data[..dataLength]
    }

    /** `leadBankType`: byte 5 of the buffer, whatever the length. */
    function LeadBankType(): byte
      requires Valid()
    {
      data[5]
    }
  }

  /**
    `CreateEventHandler`. A 16-bit length always fits the buffer. What the buffer held before is
    arbitrary, so the lead bank type is only known for at least six bytes.
   */
  method CreateEventHandler(data: bytes) returns (handler: EventHandler)
    requires |data| < 0x1_0000
    ensures handler.Valid() && handler.Payload() == data
    ensures |data| > 5 ==> handler.LeadBankType() == data[5]
  {
    var buffer := new byte[BUFFER_SIZE];
    forall i | 0 <= i < |data| { buffer[i] := data[i]; }
    handler := EventHandler(|data|, buffer[..]);
    assert handler.Payload() == data;
  }

  /** What an event is about. The gate is counted from 1, the channel from 0. */
  datatype Kind = RunStart | Block(gate: nat, channel: nat) | GateEnd(info: GateInfo) | Sentinel(info: GateInfo)

  datatype Event = Event(kind: Kind, handler: EventHandler)

  /** The frame header of a DAQ header. */
  function DaqSource(bank: nat): Source {
    Source(0, 0, 0, bank, 0, DAQ_HEADER_VERSION, 0, DAQ_HEADER_SIZE)
  }

  /** The run header begins with a frame header; what follows is the channel configuration. */
  function RunHeaderBytes(config: bytes): (b: bytes)
    requires |config| == RUN_HEADER_SIZE - 8
    ensures |b| == RUN_HEADER_SIZE
  {
    FrameBytes(Source(0, 0, 0, RUN_BANK, 0, RUN_HEADER_VERSION, 0, RUN_HEADER_SIZE)) + config
  }

  /** The bytes of the event are what its kind says. */
  ghost predicate Carried(e: Event) {
    && e.handler.Valid()
    && match e.kind
       case RunStart =>
         exists config: bytes | |config| == RUN_HEADER_SIZE - 8 :: e.handler.Payload() == RunHeaderBytes(config)
       case Block(_, _) => true
       case GateEnd(info) => IsDaqHeader(e.handler.Payload(), DaqSource(DAQ_BANK), InfoWords(info))
       case Sentinel(info) => IsDaqHeader(e.handler.Payload(), DaqSource(SENTINEL_BANK), InfoWords(info))
  }

  datatype Mode = OneShot | NuMIBeam | Cosmics | PureLightInjection | MixedBeamPedestal | MixedBeamLightInjection
    | MTBFBeamMuon | MTBFBeamOnly | OtherMode

  datatype Trigger = UnknownTrigger | Pedestal | LightInjection | Cosmic | NuMI | MTBFMuon | MTBFBeam

  function TriggerCode(t: Trigger): nat {
    match t
    case UnknownTrigger => 0
    case Pedestal => 1
    case LightInjection => 2
    case Cosmic => 8
    case NuMI => 0x10
    case MTBFMuon => 0x20
    case MTBFBeam => 0x40
  }

  /** The trigger of gate `k`, counted from 1: the mixed modes alternate, beginning with the beam. */
  function TriggerFor(mode: Mode, k: nat): Trigger {
    match mode
    case OneShot => Pedestal
    case NuMIBeam => NuMI
    case Cosmics => Cosmic
    case PureLightInjection => LightInjection
    case MixedBeamPedestal => if k % 2 == 0 then Pedestal else NuMI
    case MixedBeamLightInjection => if k % 2 == 0 then LightInjection else NuMI
    case MTBFBeamMuon => MTBFMuon
    case MTBFBeamOnly => MTBFBeam
    case OtherMode => UnknownTrigger
  }

  /** The byte that names the trigger in the header that ends gate `k`. */
  lemma TriggerByte(r: Shape, k: nat, e: Event)
    requires Carried(e) && e.kind.GateEnd? && EndsGate(r, k, e.kind.info)
    ensures var b := e.handler.Payload();
            |b| == 56 && b[20] as int ==
              match r.mode
              case OneShot => 0x01
              case NuMIBeam => 0x10
              case Cosmics => 0x08
              case PureLightInjection => 0x02
              case MixedBeamPedestal => if k % 2 == 1 then 0x10 else 0x01
              case MixedBeamLightInjection => if k % 2 == 1 then 0x10 else 0x02
              case MTBFBeamMuon => 0x20
              case MTBFBeamOnly => 0x40
              case OtherMode => 0
  {
    hide InfoWords, FrameBytes, Bytes4;
    var b, ws := e.handler.Payload(), InfoWords(e.kind.info);
    assert b[8 + 4 * 3..12 + 4 * 3] == Bytes4(ws[3]);
    assert b[20] == b[20..24][0];
    LowByte(e.kind.info);
  }

  lemma LowByte(g: GateInfo)
    ensures Bytes4(InfoWords(g)[3])[0] as int == g.trigger % 0x100
  {
  }

  /** How many of the first `n` gates have the trigger. */
  function CountTriggers(mode: Mode, t: Trigger, n: nat): nat {
    if n == 0 then 0 else CountTriggers(mode, t, n - 1) + if TriggerFor(mode, n) == t then 1 else 0
  }

  /** In the mixed modes the beam has the odd gate more. */
  lemma {:induction false} MixedTriggers(mode: Mode, n: nat)
    requires mode.MixedBeamPedestal? || mode.MixedBeamLightInjection?
    ensures CountTriggers(mode, NuMI, n) == (n + 1) / 2
    ensures CountTriggers(mode, if mode.MixedBeamPedestal? then Pedestal else LightInjection, n) == n / 2
  {
    if n > 0 { MixedTriggers(mode, n - 1); }
  }

  // ----- the grammar of a run -----

  /** What is fixed for a run; `tracked` says whether the global gate is, and it then starts after `origin`. */
  datatype Shape = Shape(channels: nat, mode: Mode, tracked: bool, origin: nat)

  /** The header that ends gate `k`. */
  predicate EndsGate(r: Shape, k: nat, info: GateInfo) {
    && info.gate == k && info.trigger == TriggerCode(TriggerFor(r.mode, k))
    && (r.tracked ==> info.globalGate == r.origin + k)
  }

  /** The event may stand at place `p`: a run header, then for every gate one block per channel and the header. */
  predicate FitsAt(r: Shape, p: nat, kind: Kind) {
    if p == 0 then kind == RunStart
    else
      var gate, place := (p - 1) / (r.channels + 1) + 1, (p - 1) % (r.channels + 1);
      if place < r.channels then kind == Block(gate, place) else kind.GateEnd? && EndsGate(r, gate, kind.info)
  }

  /** A prefix of RunStart (Block^channels GateEnd)*. */
  ghost predicate InRun(r: Shape, s: seq<Event>) {
    forall p | 0 <= p < |s| :: FitsAt(r, p, s[p].kind) && Carried(s[p])
  }

  /** How many events there are when `gates` gates are complete. */
  function Complete(r: Shape, gates: nat): nat {
    1 + gates * (r.channels + 1)
  }

  lemma PlaceOf(r: Shape, gates: nat, c: nat, kind: Kind)
    requires c <= r.channels
    ensures FitsAt(r, Complete(r, gates) + c, kind) <==>
            if c < r.channels then kind == Block(gates + 1, c) else kind.GateEnd? && EndsGate(r, gates + 1, kind.info)
    ensures Complete(r, gates + 1) == Complete(r, gates) + r.channels + 1
  {
    var p := Complete(r, gates) + c;
    hide EndsGate, FitsAt, Complete;
    CompleteStep(r, gates);
    DivUnique(p - 1, r.channels + 1, gates, c);
    FitsWhere(r, p, gates, c, kind);
  }

  lemma CompleteStep(r: Shape, gates: nat)
    ensures Complete(r, gates) == (r.channels + 1) * gates + 1
    ensures Complete(r, gates + 1) == Complete(r, gates) + r.channels + 1
  {
    var w := r.channels + 1;
    assert (gates + 1) * w == gates * w + w;
  }

  lemma FitsWhere(r: Shape, p: nat, gates: nat, c: nat, kind: Kind)
    requires p > 0 && c <= r.channels && (p - 1) / (r.channels + 1) == gates && (p - 1) % (r.channels + 1) == c
    ensures FitsAt(r, p, kind) <==>
            if c < r.channels then kind == Block(gates + 1, c) else kind.GateEnd? && EndsGate(r, gates + 1, kind.info)
  {
    hide EndsGate;
  }

  lemma FirstPlace(r: Shape)
    ensures Complete(r, 0) == 1
  {
  }

  lemma InRunNext(r: Shape, s: seq<Event>, e: Event)
    requires InRun(r, s) && FitsAt(r, |s|, e.kind) && Carried(e)
    ensures InRun(r, s + [e])
  {
    hide FitsAt, Carried;
  }

  /** A run that was closed with a sentinel. */
  ghost predicate Closed(r: Shape, s: seq<Event>) {
    && s != [] && InRun(r, s[..|s| - 1]) && s[|s| - 1].kind.Sentinel? && Carried(s[|s| - 1])
  }

  lemma OpenRun(r: Shape, s: seq<Event>)
    requires InRun(r, s)
    ensures !Closed(r, s)
  {
    hide Carried;
    if s != [] { assert FitsAt(r, |s| - 1, s[|s| - 1].kind); }
  }

  /** Blocks long enough to have a bank, and of another bank than the sentinel's. */
  predicate NoFalseSentinel(s: seq<Event>) {
    forall p | 0 <= p < |s| && s[p].kind.Block? :: s[p].handler.Valid() && s[p].handler.LeadBankType() != SENTINEL_BANK
  }

  lemma BankOf(e: Event)
    requires Carried(e) && !e.kind.Block?
    ensures e.handler.LeadBankType() as int
         == if e.kind.RunStart? then RUN_BANK else if e.kind.GateEnd? then DAQ_BANK else SENTINEL_BANK
  {
    hide IsDaqHeader, InfoWords, RunHeaderBytes;
    var b := e.handler.Payload();
    match e.kind
    case RunStart =>
      var config: bytes :| |config| == RUN_HEADER_SIZE - 8 && b == RunHeaderBytes(config);
      RunHeaderBank(config);
    case GateEnd(info) => DaqHeaderBank(b, DAQ_BANK, info);
    case Sentinel(info) => DaqHeaderBank(b, SENTINEL_BANK, info);
  }

  lemma RunHeaderBank(config: bytes)
    requires |config| == RUN_HEADER_SIZE - 8
    ensures |RunHeaderBytes(config)| > 5 && RunHeaderBytes(config)[5] == RUN_BANK
  {
    hide FrameBytes;
    FrameHeaderIsRead(Source(0, 0, 0, RUN_BANK, 0, RUN_HEADER_VERSION, 0, RUN_HEADER_SIZE), config);
  }

  /** The run header in bytes: 492 of them, version 1, bank 6, and the configuration from byte 8 on. */
  lemma RunHeaderFront(config: bytes)
    requires |config| == 484
    ensures var b := RunHeaderBytes(config);
            |b| == 492 && b[..8] == [0x01, 0xEC, 0xCB, 0xCB, 1, 6, 0, 0] && b[8..] == config
  {
    hide FrameBytes;
    var source := Source(0, 0, 0, RUN_BANK, 0, RUN_HEADER_VERSION, 0, RUN_HEADER_SIZE);
    var b := FrameBytes(source) + config;
    FrameHeaderIsRead(source, config);
    assert b[..8] == [b[0], b[1], b[2], b[3], b[4], b[5], b[6], b[7]];
  }

  lemma DaqHeaderBank(b: bytes, bank: nat, info: GateInfo)
    requires bank < 256 && IsDaqHeader(b, DaqSource(bank), InfoWords(info))
    ensures |b| > 5 && b[5] == bank
  {
    hide IsDaqHeader, InfoWords, Unpack, Masked;
    HeaderIsUnpacked(b, DaqSource(bank), info);
    HeaderSize(b, bank, info);
  }

  lemma HeaderSize(b: bytes, bank: nat, info: GateInfo)
    requires IsDaqHeader(b, DaqSource(bank), InfoWords(info))
    ensures |b| == DAQ_HEADER_SIZE
  {
    hide InfoWords, FrameBytes, Bytes4;
  }

  lemma EventsAreCarried(r: Shape, s: seq<Event>, p: nat)
    requires Closed(r, s) && p < |s|
    ensures Carried(s[p]) && (s[p].kind.Sentinel? <==> p == |s| - 1)
  {
    if p < |s| - 1 {
      var t := s[..|s| - 1];
      assert t[p] == s[p] && FitsAt(r, p, t[p].kind) && Carried(t[p]);
    }
  }

  /** In a closed run the last event alone has the sentinel's bank exactly when no block has it by accident. */
  lemma OnlyTheLastIsSentinel(r: Shape, s: seq<Event>)
    requires Closed(r, s)
    ensures forall p | 0 <= p < |s| :: s[p].handler.Valid()
    ensures (forall p | 0 <= p < |s| :: s[p].handler.LeadBankType() == SENTINEL_BANK <==> p == |s| - 1)
       <==> NoFalseSentinel(s)
  {
    hide Closed;
    forall p | 0 <= p < |s|
      ensures s[p].handler.Valid() && (s[p].kind.Sentinel? <==> p == |s| - 1)
      ensures !s[p].kind.Block? ==> (s[p].handler.LeadBankType() == SENTINEL_BANK <==> s[p].kind.Sentinel?)
    {
      EventsAreCarried(r, s, p);
      if !s[p].kind.Block? { BankOf(s[p]); }
    }
  }
}
