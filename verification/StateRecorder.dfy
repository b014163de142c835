/** The gate counters of a run (`ReadoutStateRecorder`). */
module StateRecorder {
  import opened BitSerial
  import opened Bytes
  import opened DaqStream
  import opened GateFile
  import opened Headers

  const TWO_64 := 0x1_0000_0000_0000_0000

  /** The command line arguments the recorder uses, as unsigned numbers but for the number of gates. */
  datatype Args = Args(numberOfGates: int, mode: Mode, detector: nat, config: nat, run: nat, subRun: nat,
                       ledLevel: nat, ledGroup: nat)

  /** The global gate after an attempt to read it from the file: kept when there is no file or nothing in it. */
  function ReadGate(file: Option<bytes>, current: nat): nat {
    match file
    case None => current
    case Some(text) =>
      match ReadNumber(text)
      case None => current
      case Some(n) => n
  }

  function WrittenGate(file: Option<bytes>, g: nat): Option<bytes> {
    match file
    case None => None
    case Some(text) => Some(Overwritten(text, Decimal(g)))
  }

  /** The file holds the gate, or there is no file and no gate has been counted before. */
  predicate Starts(file: Option<bytes>, origin: nat) {
    match file
    case None => origin == 0
    case Some(text) => HoldsGate(text, origin)
  }

  /** The eight bytes of the frame header in front. */
  lemma FrontBytes(header: bytes, bank: nat, ws: seq<nat>)
    requires IsDaqHeader(header, DaqSource(bank), ws)
    ensures |header| == 56 && header[..5] == [0, 56, 0xCB, 0xCB, 9]
    ensures header[5] == bank % 256 && header[6] == 0 == header[7]
  {
    hide FrameBytes;
    FrameHeaderIsRead(DaqSource(bank), header[8..]);
    assert FrameBytes(DaqSource(bank)) + header[8..] == header;
    assert header[..5] == [header[0], header[1], header[2], header[3], header[4]];
  }

  lemma ReadTimeMasked(t: int)
    ensures t % TWO_64 % 0x1_0000_0000 % 0x100_0000 == t % 0x100_0000
  {
    var a, b := t / TWO_64, t % TWO_64;
    var c, d := b / 0x1_0000_0000, b % 0x1_0000_0000;
    DivUnique(t, 0x100_0000, a * 0x100_0000_0000 + c * 0x100 + d / 0x100_0000, d % 0x100_0000);
  }

  class ReadoutStateRecorder {
    const args: Args
    var gate: nat
    var triggerType: Trigger
    var firstGate: nat
    var globalGate: nat
    var gateStartTime: nat
    var gateFinishTime: nat
    var minosSgate: nat
    /** The global gate file, which nobody else writes. */
    var gateFile: Option<bytes>
    ghost var finished: nat
    ghost const origin: nat
    ghost const tracked: bool

    /** `finished` gates are recorded in the file, and at most one more has begun. */
    ghost predicate Booked()
      reads this
    {
      && finished <= gate <= finished + 1
      && (tracked ==>
            && firstGate == origin + 1 && globalGate == origin + gate
            && origin + (if args.numberOfGates < 0 then 0 else args.numberOfGates) <= ULLONG_MAX
            && match gateFile
               case None => true
               case Some(text) => HoldsGate(text, origin + finished))
    }

    /** The run is tracked when the file can be trusted and the numbers do not run out. */
    constructor (a: Args, file: Option<bytes>, ghost start: nat)
      ensures args == a && gateFile == file && origin == start && gate == 0 && finished == 0 && Booked()
      ensures gateStartTime == gateFinishTime == minosSgate == 0 && triggerType == UnknownTrigger
      ensures firstGate == (globalGate + 1) % TWO_64 && globalGate == ReadGate(file, 0)
      ensures tracked <==>
              Starts(file, start) && start + (if a.numberOfGates < 0 then 0 else a.numberOfGates) < ULLONG_MAX
    {
      args, gateFile := a, file;
      gate, triggerType, firstGate, globalGate := 0, UnknownTrigger, 0, 0;
      gateStartTime, gateFinishTime, minosSgate := 0, 0, 0;
      finished, origin := 0, start;
      tracked := Starts(file, start) && start + (if a.numberOfGates < 0 then 0 else a.numberOfGates) < ULLONG_MAX;
      new;
      GetGlobalGateFromFile();
      firstGate := (globalGate + 1) % TWO_64;
      if tracked && file.Some? { HeldGateIsRead(file.value, start); }
    }

    method GetGlobalGateFromFile()
      modifies this`globalGate
      ensures globalGate == ReadGate(gateFile, old(globalGate))
    {
      match gateFile
      case None =>
      case Some(text) =>
        var number := ReadNumber(text);
        if number.Some? { globalGate := number.value; }
    }

    method IncrementGlobalGate()
      modifies this`globalGate
      ensures globalGate == (old(globalGate) + 1) % TWO_64
    {
      globalGate := (globalGate + 1) % TWO_64;
    }

    method WriteGlobalGateToFile()
      modifies this`gateFile
      ensures gateFile == WrittenGate(old(gateFile), globalGate)
    {
      match gateFile
      case None =>
      case Some(text) => gateFile := Some(Overwritten(text, Decimal(globalGate)));
    }

    method MoreGates() returns (more: bool)
      ensures more <==> gate < args.numberOfGates
    {
      var nextGate := gate + 1;
      more := nextGate <= args.numberOfGates;
    }

    /** Counts the next gate. It is in bounds whenever there were more gates before. */
    method BeginNextGate() returns (inBounds: bool)
      requires Booked() && gate == finished
      modifies this`gate, this`globalGate
      ensures gate == old(gate) + 1 && (inBounds <==> gate <= args.numberOfGates)
      ensures globalGate == (ReadGate(gateFile, old(globalGate)) + 1) % TWO_64
      ensures inBounds ==> Booked()
    {
      gate := gate + 1;
      GetGlobalGateFromFile();
      IncrementGlobalGate();
      if tracked && gateFile.Some? && gate <= args.numberOfGates { HeldGateIsRead(gateFile.value, origin + finished); }
      inBounds := gate <= args.numberOfGates;
    }

    /** Records the gate that has begun. */
    method FinishGate()
      requires Booked() && gate == finished + 1
      modifies this`gateFile, this`finished
      ensures Booked() && finished == gate && gateFile == WrittenGate(old(gateFile), globalGate)
    {
      if tracked && gateFile.Some? { LaterGateOverwrites(gateFile.value, origin + finished, globalGate); }
      WriteGlobalGateToFile();
      finished := finished + 1;
    }

    /** Chooses the trigger for the gate that comes next; the counter still stands at the gate before. */
    method GetNextTriggerType() returns (t: Trigger)
      modifies this`triggerType
      ensures t == triggerType == TriggerFor(args.mode, gate + 1)
    {
      triggerType := UnknownTrigger;
      match args.mode {
        case OneShot => triggerType := Pedestal;
        case NuMIBeam => triggerType := NuMI;
        case PureLightInjection => triggerType := LightInjection;
        case MixedBeamPedestal =>
          triggerType := NuMI;
          if gate % 2 == 1 { triggerType := Pedestal; }
        case MixedBeamLightInjection =>
          triggerType := NuMI;
          if gate % 2 == 1 { triggerType := LightInjection; }
        case Cosmics => triggerType := Cosmic;
        case MTBFBeamMuon => triggerType := MTBFMuon;
        case MTBFBeamOnly => triggerType := MTBFBeam;
        case OtherMode =>
      }
      t := triggerType;
    }

    /** What the DAQ header says of the current gate. */
    ghost function Info(): GateInfo
      reads this
    {
      GateInfo(args.detector, args.config, args.run, args.subRun, TriggerCode(triggerType), args.ledLevel,
               args.ledGroup,
               globalGate, gate, gateStartTime, 0, minosSgate,
               (gateFinishTime - gateStartTime) % TWO_64 % 0x1_0000_0000, 0, 0, 0)
    }

    method GetDAQHeader(bank: nat) returns (header: bytes)
      ensures IsDaqHeader(header, DaqSource(bank), InfoWords(Info()))
      ensures |header| == 56 && header[..5] == [0, 56, 0xCB, 0xCB, 9] && header[5] == bank % 256
      ensures header[6] == 0 == header[7]
      ensures Unpack(header) == GateInfo(
                args.detector % 0x100, args.config % 0x1_0000, args.run % 0x1_0000_0000, args.subRun % 0x1_0000_0000,
                TriggerCode(triggerType), args.ledLevel % 4, args.ledGroup / 8 % 32 * 8,
                globalGate % 0x1_0000_0000_0000_0000, gate % 0x1_0000_0000, gateStartTime % 0x1_0000_0000_0000_0000, 0,
                minosSgate % 0x4000_0000, (gateFinishTime - gateStartTime) % 0x100_0000, 0, 0, 0)
    {
      hide FrameWords, InfoWords, IsDaqHeader, Unpack;
      var readoutTimeLong := (gateFinishTime - gateStartTime) % TWO_64;
      var readoutTime := readoutTimeLong % 0x1_0000_0000;
      var frameHeader := new FrameHeader(DaqSource(bank));
      var info := GateInfo(args.detector, args.config, args.run, args.subRun, TriggerCode(triggerType), args.ledLevel,
                           args.ledGroup, globalGate, gate, gateStartTime, 0, minosSgate, readoutTime, 0, 0, 0);
      var daqHeader := new DAQHeader(info, DaqSource(bank), frameHeader);
      header := daqHeader.data[..];
      HeaderSize(header, bank, info);
      HeaderIsUnpacked(header, DaqSource(bank), info);
      FrontBytes(header, bank, InfoWords(info));
      ReadTimeMasked(gateFinishTime - gateStartTime);
    }
  }
}
