/** The register image a front-end board is programmed with and read back by (`FPGAFrame`). */
module FpgaFrame {
  import opened Lvds

  const REGISTER_BYTES := 54
  const FRAME_SIZE := 80

  datatype Registers = Registers(
    timer: bv32, gateStart: bv16, gateLength: bv16, dcm2PhaseTotal: bv16, dcm2PhaseDone: bv8, dcm1NoClock: bv8,
    dcm2NoClock: bv8, dcm1Lock: bv8, dcm2Lock: bv8, testPulse2Bit: bv8, phaseCount: bv8, extTriggerFound: bv8,
    extTriggerRearm: bv8, statusSCMDUnknown: bv8, statusFCMDUnknown: bv8, phaseIncrement: bv8, phaseStart: bv8,
    statusRXLock: bv8, statusTXSyncLock: bv8, testPulseCount: bv32, injectCount: seq<bv8>, injectEnable: seq<bv8>,
    tripPowerOff: bv8, hvManual: bv8, hvEnabled: bv8, hvTarget: bv16, hvActual: bv16, hvControl: bv8,
    afterPulseExtendedWidth: bv8, injectDACValue: bv16, injectDACMode: bv8, injectDACDone: bv8, injectDACStart: bv8,
    injectRange: bv8, injectPhase: bv8, boardID: bv8, hvNumAve: bv8, previewEnable: bv8, firmwareVersion: bv8,
    hvPeriodManual: bv16, hvPeriodAuto: bv16, hvPulseWidth: bv8, temperature: bv16, tripXThresh: bv8,
    tripXCompEnc: bv8, discrimEnableMask: seq<bv16>, gateTimeStamp: bv32)
  {
    predicate Valid() {
      |injectCount| == 6 && |injectEnable| == 6 && |discrimEnableMask| == 4
    }
  }

  // ----- words and their bytes, low byte first -----

  function Low16(w: bv16): bv8 { (w & 0xFF) as bv8 }

  function High16(w: bv16): bv8 { ((w >> 8) & 0xFF) as bv8 }

  /** Byte `k` of a word of four bytes. */
  function Byte32(w: bv32, k: nat): bv8
    requires k < 4
  {
    if k == 0 then (w & 0xFF) as bv8
    else if k == 1 then ((w >> 8) & 0xFF) as bv8
    else if k == 2 then ((w >> 16) & 0xFF) as bv8
    else ((w >> 24) & 0xFF) as bv8
  }

  function Word16(low: bv8, high: bv8): bv16 {
    (low as bv16) | ((high as bv16) << 8)
  }

  function Word32(b0: bv8, b1: bv8, b2: bv8, b3: bv8): bv32 {
    (b0 as bv32) | ((b1 as bv32) << 8) | ((b2 as bv32) << 16) | ((b3 as bv32) << 24)
  }

  lemma Word16Bytes(w: bv16)
    ensures Word16(Low16(w), High16(w)) == w
  {
  }

  lemma Bytes16Word(a: bv8, b: bv8)
    ensures Low16(Word16(a, b)) == a && High16(Word16(a, b)) == b
  {
  }

  lemma Word32Bytes(w: bv32)
    ensures Word32(Byte32(w, 0), Byte32(w, 1), Byte32(w, 2), Byte32(w, 3)) == w
  {
  }

  lemma Bytes32Word(a: bv8, b: bv8, c: bv8, d: bv8)
    ensures var w := Word32(a, b, c, d);
            Byte32(w, 0) == a && Byte32(w, 1) == b && Byte32(w, 2) == c && Byte32(w, 3) == d
  {
  }

  // ----- the parts of bytes -----

  function Bits(b: bv8, mask: bv8, at: bv8): bv8
    requires at < 8
  {
    (b & mask) >> at
  }

  function Nibble(b: bv8): bv8 { b & 0x0F }

  function SixBits(b: bv8): bv8 { b & 0x3F }

  function SevenBits(b: bv8): bv8 { b & 0x7F }

  function TopBit(b: bv8): bv8 { (b & 0x80) >> 7 }

  lemma PartsOfParts(b: bv8)
    ensures Nibble(Nibble(b)) == Nibble(b) && SixBits(SixBits(b)) == SixBits(b)
  {
  }

  lemma InjectByteKept(b: bv8)
    ensures InjectByte(SevenBits(b), TopBit(b)) == b
  {
  }

  lemma TenOf<T>(s: seq<T>)
    requires |s| == 10
    ensures s == [s[0], s[1], s[2], s[3], s[4], s[5], s[6], s[7], s[8], s[9]]
  {
  }

  lemma TwelveOf<T>(s: seq<T>)
    requires |s| == 12
    ensures s == [s[0], s[1], s[2], s[3], s[4], s[5], s[6], s[7], s[8], s[9], s[10], s[11]]
  {
  }

  // ----- the bytes that hold several registers -----

  function PhaseByte(r: Registers): bv8 {
    (((r.dcm2PhaseTotal >> 8) & 0x01) as bv8) | ((r.dcm2PhaseDone & 0x01) << 1) | ((r.dcm1NoClock & 0x01) << 2)
    | ((r.dcm2NoClock & 0x01) << 3) | ((r.dcm1Lock & 0x01) << 4) | ((r.dcm2Lock & 0x01) << 5)
    | ((r.testPulse2Bit & 0x03) << 6)
  }

  function StatusByte(r: Registers): bv8 {
    (r.extTriggerFound & 0x01) | ((r.extTriggerRearm & 0x01) << 1) | ((r.statusSCMDUnknown & 0x01) << 2)
    | ((r.statusFCMDUnknown & 0x01) << 3) | ((r.phaseIncrement & 0x01) << 4) | ((r.phaseStart & 0x01) << 5)
    | ((r.statusRXLock & 0x01) << 6) | ((r.statusTXSyncLock & 0x01) << 7)
  }

  function InjectByte(count: bv8, enable: bv8): bv8 {
    (count & 0x7F) | ((enable & 0x01) << 7)
  }

  function PowerByte(r: Registers): bv8 {
    (r.tripPowerOff & 0x3F) | ((r.hvManual & 0x01) << 6) | ((r.hvEnabled & 0x01) << 7)
  }

  function DacByte(r: Registers): bv8 {
    (((r.injectDACValue & 0x0F00) >> 8) as bv8) | ((r.injectDACMode & 0x03) << 4) | ((r.injectDACDone & 0x01) << 6)
    | ((r.injectDACStart & 0x01) << 7)
  }

  function RangeByte(r: Registers): bv8 {
    (r.injectRange & 0x0F) | ((r.injectPhase & 0x0F) << 4)
  }

  function BoardByte(r: Registers): bv8 {
    (r.boardID & 0x0F) | ((r.hvNumAve & 0x07) << 4) | ((r.previewEnable & 0x01) << 7)
  }

  // ----- the image, in five stretches -----

  function TimingImage(r: Registers): (b: seq<bv8>)
    ensures |b| == 12
  {
    [Byte32(r.timer, 0), Byte32(r.timer, 1), Byte32(r.timer, 2), Byte32(r.timer, 3),
     Low16(r.gateStart), High16(r.gateStart), Low16(r.gateLength), High16(r.gateLength),
     Low16(r.dcm2PhaseTotal), PhaseByte(r), r.phaseCount, StatusByte(r)]
  }

  function InjectImage(r: Registers): (b: seq<bv8>)
    requires r.Valid()
    ensures |b| == 10
  {
    [Byte32(r.testPulseCount, 0), Byte32(r.testPulseCount, 1), Byte32(r.testPulseCount, 2), Byte32(r.testPulseCount, 3),
     InjectByte(r.injectCount[0], r.injectEnable[0]), InjectByte(r.injectCount[1], r.injectEnable[1]),
     InjectByte(r.injectCount[2], r.injectEnable[2]), InjectByte(r.injectCount[3], r.injectEnable[3]),
     InjectByte(r.injectCount[4], r.injectEnable[4]), InjectByte(r.injectCount[5], r.injectEnable[5])]
  }

  function VoltageImage(r: Registers): (b: seq<bv8>)
    ensures |b| == 10
  {
    [PowerByte(r), Low16(r.hvTarget), High16(r.hvTarget), Low16(r.hvActual), High16(r.hvActual),
     Nibble(r.afterPulseExtendedWidth), Low16(r.injectDACValue), DacByte(r), RangeByte(r), BoardByte(r)]
  }

  function PeriodImage(r: Registers): (b: seq<bv8>)
    ensures |b| == 10
  {
    [r.firmwareVersion, Low16(r.hvPeriodManual), High16(r.hvPeriodManual), Low16(r.hvPeriodAuto),
     High16(r.hvPeriodAuto), r.hvPulseWidth, Low16(r.temperature), High16(r.temperature), r.tripXThresh,
     SixBits(r.tripXCompEnc)]
  }

  function MaskImage(r: Registers): (b: seq<bv8>)
    requires r.Valid()
    ensures |b| == 12
  {
    [Low16(r.discrimEnableMask[0]), High16(r.discrimEnableMask[0]),
     Low16(r.discrimEnableMask[1]), High16(r.discrimEnableMask[1]),
     Low16(r.discrimEnableMask[2]), High16(r.discrimEnableMask[2]),
     Low16(r.discrimEnableMask[3]), High16(r.discrimEnableMask[3]),
     Byte32(r.gateTimeStamp, 0), Byte32(r.gateTimeStamp, 1), Byte32(r.gateTimeStamp, 2), Byte32(r.gateTimeStamp, 3)]
  }

  function Image(r: Registers): (b: seq<bv8>)
    requires r.Valid()
    ensures |b| == REGISTER_BYTES
  {
    TimingImage(r) + InjectImage(r) + VoltageImage(r) + PeriodImage(r) + MaskImage(r)
  }

  // ----- decoding -----

  function DecodeTiming(b: seq<bv8>, r: Registers): Registers
    requires |b| == 12
  {
    r.(timer := Word32(b[0], b[1], b[2], b[3]), gateStart := Word16(b[4], b[5]), gateLength := Word16(b[6], b[7]),
       dcm2PhaseTotal := Word16(b[8], Bits(b[9], 0x01, 0)),
       dcm2PhaseDone := Bits(b[9], 0x02, 0), dcm1NoClock := Bits(b[9], 0x04, 2), dcm2NoClock := Bits(b[9], 0x08, 3),
       dcm1Lock := Bits(b[9], 0x10, 4), dcm2Lock := Bits(b[9], 0x20, 5), testPulse2Bit := Bits(b[9], 0xC0, 6),
       phaseCount := b[10], extTriggerFound := Bits(b[11], 0x01, 0), extTriggerRearm := Bits(b[11], 0x02, 1),
       statusSCMDUnknown := Bits(b[11], 0x04, 2), statusFCMDUnknown := Bits(b[11], 0x08, 3),
       phaseIncrement := Bits(b[11], 0x10, 4), phaseStart := Bits(b[11], 0x20, 5),
       statusRXLock := Bits(b[11], 0x40, 6), statusTXSyncLock := Bits(b[11], 0x80, 7))
  }

  function DecodeCounts(b: seq<bv8>): (c: seq<bv8>)
    requires |b| == 10
    ensures |c| == 6
  {
    [SevenBits(b[4]), SevenBits(b[5]), SevenBits(b[6]), SevenBits(b[7]), SevenBits(b[8]), SevenBits(b[9])]
  }

  function DecodeEnables(b: seq<bv8>): (e: seq<bv8>)
    requires |b| == 10
    ensures |e| == 6
  {
    [TopBit(b[4]), TopBit(b[5]), TopBit(b[6]), TopBit(b[7]), TopBit(b[8]), TopBit(b[9])]
  }

  function DecodeInject(b: seq<bv8>, r: Registers): Registers
    requires |b| == 10
  {
    r.(testPulseCount := Word32(b[0], b[1], b[2], b[3]),
       injectCount := DecodeCounts(b), injectEnable := DecodeEnables(b))
  }

  function DecodeVoltage(b: seq<bv8>, r: Registers): Registers
    requires |b| == 10
  {
    r.(tripPowerOff := Bits(b[0], 0x3F, 0), hvManual := Bits(b[0], 0x40, 6), hvEnabled := Bits(b[0], 0x80, 7),
       hvTarget := Word16(b[1], b[2]), hvActual := Word16(b[3], b[4]), hvControl := 0,
       afterPulseExtendedWidth := Nibble(b[5]), injectDACValue := Word16(b[6], Nibble(b[7])),
       injectDACMode := Bits(b[7], 0x30, 4), injectDACDone := Bits(b[7], 0x40, 6),
       injectDACStart := Bits(b[7], 0x80, 7),
       injectRange := Bits(b[8], 0x0F, 0), injectPhase := Bits(b[8], 0xF0, 4), boardID := Bits(b[9], 0x0F, 0),
       hvNumAve := Bits(b[9], 0x70, 4), previewEnable := Bits(b[9], 0x80, 7))
  }

  function DecodePeriod(b: seq<bv8>, r: Registers): Registers
    requires |b| == 10
  {
    r.(firmwareVersion := b[0], hvPeriodManual := Word16(b[1], b[2]), hvPeriodAuto := Word16(b[3], b[4]),
       hvPulseWidth := b[5], temperature := Word16(b[6], b[7]), tripXThresh := b[8], tripXCompEnc := SixBits(b[9]))
  }

  function DecodeMask(b: seq<bv8>, r: Registers): Registers
    requires |b| == 12
  {
    r.(discrimEnableMask := [Word16(b[0], b[1]), Word16(b[2], b[3]), Word16(b[4], b[5]), Word16(b[6], b[7])],
       gateTimeStamp := Word32(b[8], b[9], b[10], b[11]))
  }

  /** The registers after an image has been decoded into `r`. */
  function Decode(p: seq<bv8>, r: Registers): Registers
    requires |p| == REGISTER_BYTES
  {
    DecodeMask(p[42..],
               DecodePeriod(p[32..42], DecodeVoltage(p[22..32], DecodeInject(p[12..22], DecodeTiming(p[..12], r)))))
  }

  // ----- an image decoded and written again -----

  /** The image without the bits that are lost: bit 1 of byte 9, the high bits of bytes 27 and 41. */
  function Kept(p: seq<bv8>): (b: seq<bv8>)
    requires |p| == REGISTER_BYTES
    ensures |b| == REGISTER_BYTES
  {
    p[9 := p[9] & 0xFD][27 := Nibble(p[27])][41 := SixBits(p[41])]
  }

  lemma PhaseByteKept(b: seq<bv8>, r: Registers)
    requires |b| == 12
    ensures PhaseByte(DecodeTiming(b, r)) == b[9] & 0xFD && Low16(DecodeTiming(b, r).dcm2PhaseTotal) == b[8]
  {
    var t := DecodeTiming(b, r);
    assert ((t.dcm2PhaseTotal >> 8) & 0x01) as bv8 == b[9] & 0x01;
    PhaseBits(b[9]);
  }

  lemma PhaseBits(b: bv8)
    ensures (b & 0x01) | (((b & 0x02) & 0x01) << 1) | ((((b & 0x04) >> 2) & 0x01) << 2)
            | ((((b & 0x08) >> 3) & 0x01) << 3)
          | ((((b & 0x10) >> 4) & 0x01) << 4) | ((((b & 0x20) >> 5) & 0x01) << 5) | ((((b & 0xC0) >> 6) & 0x03) << 6)
          == b & 0xFD
  {
  }

  lemma StatusByteKept(b: seq<bv8>, r: Registers)
    requires |b| == 12
    ensures StatusByte(DecodeTiming(b, r)) == b[11]
  {
  }

  lemma TimingKept(b: seq<bv8>, r: Registers)
    requires |b| == 12
    ensures TimingImage(DecodeTiming(b, r)) == b[9 := b[9] & 0xFD]
  {
    PhaseByteKept(b, r);
    StatusByteKept(b, r);
    hide Bits, PhaseByte, StatusByte, Word16, Word32, Low16, High16, Byte32;
    Bytes32Word(b[0], b[1], b[2], b[3]);
    Bytes16Word(b[4], b[5]);
    Bytes16Word(b[6], b[7]);
    TwelveOf(b[9 := b[9] & 0xFD]);
  }

  lemma InjectKept(b: seq<bv8>, r: Registers)
    requires |b| == 10 && |r.discrimEnableMask| == 4
    ensures DecodeInject(b, r).Valid() && InjectImage(DecodeInject(b, r)) == b
  {
    hide InjectByte, SevenBits, TopBit, Word32, Byte32;
    Bytes32Word(b[0], b[1], b[2], b[3]);
    InjectByteKept(b[4]);
    InjectByteKept(b[5]);
    InjectByteKept(b[6]);
    InjectByteKept(b[7]);
    InjectByteKept(b[8]);
    InjectByteKept(b[9]);
    TenOf(b);
  }

  lemma DacByteKept(b: seq<bv8>, r: Registers)
    requires |b| == 10
    ensures DacByte(DecodeVoltage(b, r)) == b[7] && Low16(DecodeVoltage(b, r).injectDACValue) == b[6]
  {
    var t := DecodeVoltage(b, r);
    assert ((t.injectDACValue & 0x0F00) >> 8) as bv8 == b[7] & 0x0F;
  }

  lemma VoltageBytesKept(b: seq<bv8>, r: Registers)
    requires |b| == 10
    ensures PowerByte(DecodeVoltage(b, r)) == b[0] && RangeByte(DecodeVoltage(b, r)) == b[8]
    ensures BoardByte(DecodeVoltage(b, r)) == b[9]
  {
  }

  lemma VoltageKept(b: seq<bv8>, r: Registers)
    requires |b| == 10
    ensures VoltageImage(DecodeVoltage(b, r)) == b[5 := Nibble(b[5])]
  {
    VoltageBytesKept(b, r);
    DacByteKept(b, r);
    hide Bits, PowerByte, RangeByte, BoardByte, DacByte, Word16, Low16, High16, Nibble;
    Bytes16Word(b[1], b[2]);
    Bytes16Word(b[3], b[4]);
    PartsOfParts(b[5]);
    TenOf(b[5 := Nibble(b[5])]);
  }

  lemma PeriodKept(b: seq<bv8>, r: Registers)
    requires |b| == 10
    ensures PeriodImage(DecodePeriod(b, r)) == b[9 := SixBits(b[9])]
  {
    hide Word16, Low16, High16, SixBits;
    Bytes16Word(b[1], b[2]);
    Bytes16Word(b[3], b[4]);
    Bytes16Word(b[6], b[7]);
    PartsOfParts(b[9]);
    TenOf(b[9 := SixBits(b[9])]);
  }

  lemma MaskKept(b: seq<bv8>, r: Registers)
    requires |b| == 12 && |r.injectCount| == 6 && |r.injectEnable| == 6
    ensures DecodeMask(b, r).Valid() && MaskImage(DecodeMask(b, r)) == b
  {
    hide Word16, Low16, High16, Word32, Byte32;
    Bytes16Word(b[0], b[1]);
    Bytes16Word(b[2], b[3]);
    Bytes16Word(b[4], b[5]);
    Bytes16Word(b[6], b[7]);
    Bytes32Word(b[8], b[9], b[10], b[11]);
    TwelveOf(b);
  }

  /** No stretch changes what another one writes. */
  lemma InjectApart(b: seq<bv8>, r: Registers)
    requires |b| == 10
    ensures TimingImage(DecodeInject(b, r)) == TimingImage(r)
  {
    hide Bits, Word16, Low16, High16, Word32, Byte32, SevenBits, TopBit, TimingImage;
    TimingOnly(DecodeInject(b, r), r);
  }

  lemma VoltageApart(b: seq<bv8>, r: Registers)
    requires |b| == 10 && r.Valid()
    ensures TimingImage(DecodeVoltage(b, r)) == TimingImage(r) && InjectImage(DecodeVoltage(b, r)) == InjectImage(r)
  {
    hide Bits, Word16, Low16, High16, Word32, Byte32, Nibble, InjectByte, TimingImage;
    TimingOnly(DecodeVoltage(b, r), r);
  }

  lemma PeriodApart(b: seq<bv8>, r: Registers)
    requires |b| == 10 && r.Valid()
    ensures TimingImage(DecodePeriod(b, r)) == TimingImage(r) && InjectImage(DecodePeriod(b, r)) == InjectImage(r)
    ensures VoltageImage(DecodePeriod(b, r)) == VoltageImage(r)
  {
    hide Bits, Word16, Low16, High16, Word32, Byte32, SixBits, Nibble, InjectByte, TimingImage, VoltageImage;
    TimingOnly(DecodePeriod(b, r), r);
    VoltageOnly(DecodePeriod(b, r), r);
  }

  lemma MaskApart(b: seq<bv8>, r: Registers)
    requires |b| == 12 && r.Valid()
    ensures TimingImage(DecodeMask(b, r)) == TimingImage(r) && InjectImage(DecodeMask(b, r)) == InjectImage(r)
    ensures VoltageImage(DecodeMask(b, r)) == VoltageImage(r) && PeriodImage(DecodeMask(b, r)) == PeriodImage(r)
  {
    hide Bits, Word16, Low16, High16, Word32, Byte32, SixBits, Nibble, InjectByte, TimingImage, VoltageImage;
    TimingOnly(DecodeMask(b, r), r);
    VoltageOnly(DecodeMask(b, r), r);
  }

  /** The first stretch depends on nothing else. */
  lemma TimingOnly(t: Registers, r: Registers)
    requires t.timer == r.timer && t.gateStart == r.gateStart && t.gateLength == r.gateLength
    requires t.dcm2PhaseTotal == r.dcm2PhaseTotal && t.dcm2PhaseDone == r.dcm2PhaseDone
    requires t.dcm1NoClock == r.dcm1NoClock
    requires t.dcm2NoClock == r.dcm2NoClock && t.dcm1Lock == r.dcm1Lock && t.dcm2Lock == r.dcm2Lock
    requires t.testPulse2Bit == r.testPulse2Bit && t.phaseCount == r.phaseCount
    requires t.extTriggerFound == r.extTriggerFound
    requires t.extTriggerRearm == r.extTriggerRearm && t.statusSCMDUnknown == r.statusSCMDUnknown
    requires t.statusFCMDUnknown == r.statusFCMDUnknown && t.phaseIncrement == r.phaseIncrement
    requires t.phaseStart == r.phaseStart && t.statusRXLock == r.statusRXLock
    requires t.statusTXSyncLock == r.statusTXSyncLock
    ensures TimingImage(t) == TimingImage(r)
  {
    hide Low16, High16, Byte32;
  }

  lemma VoltageOnly(t: Registers, r: Registers)
    requires t.tripPowerOff == r.tripPowerOff && t.hvManual == r.hvManual && t.hvEnabled == r.hvEnabled
    requires t.hvTarget == r.hvTarget && t.hvActual == r.hvActual && t.injectDACValue == r.injectDACValue
    requires t.afterPulseExtendedWidth == r.afterPulseExtendedWidth && t.injectDACMode == r.injectDACMode
    requires t.injectDACDone == r.injectDACDone && t.injectDACStart == r.injectDACStart
    requires t.injectRange == r.injectRange
    requires t.injectPhase == r.injectPhase && t.boardID == r.boardID && t.hvNumAve == r.hvNumAve
    requires t.previewEnable == r.previewEnable
    ensures VoltageImage(t) == VoltageImage(r)
  {
    hide Low16, High16, Nibble;
  }

  lemma StillValid(b: seq<bv8>, c: seq<bv8>, r: Registers)
    requires |b| == 10 && |c| == 12 && r.Valid()
    ensures DecodeTiming(c, r).Valid() && DecodeVoltage(b, r).Valid()
    ensures DecodePeriod(b, r).Valid() && DecodeMask(c, r).Valid()
  {
    hide Bits, Word16, Word32, SixBits, Nibble;
  }

  /**
    A payload that is decoded and written again is the same in every bit but bit 1 of byte 9, bits
    4 to 7 of byte 27 and bits 6 and 7 of byte 41, which are written as zero.
   */
  lemma ImageIsKept(p: seq<bv8>, r: Registers)
    requires |p| == REGISTER_BYTES && r.Valid()
    ensures Decode(p, r).Valid() && Image(Decode(p, r)) == Kept(p)
  {
    hide DecodeTiming, DecodeInject, DecodeVoltage, DecodePeriod, DecodeMask, Registers.Valid, Nibble, SixBits;
    hide TimingImage, InjectImage, VoltageImage, PeriodImage, MaskImage;
    var b0, b1, b2, b3, b4 := p[..12], p[12..22], p[22..32], p[32..42], p[42..];
    FourMasks(r);
    var r1 := DecodeTiming(b0, r);
    StillValid(b1, b0, r);
    FourMasks(r1);
    TimingKept(b0, r);
    var r2 := DecodeInject(b1, r1);
    InjectKept(b1, r1);
    InjectApart(b1, r1);
    var r3 := DecodeVoltage(b2, r2);
    StillValid(b2, b0, r2);
    VoltageKept(b2, r2);
    VoltageApart(b2, r2);
    var r4 := DecodePeriod(b3, r3);
    StillValid(b3, b0, r3);
    PeriodKept(b3, r3);
    PeriodApart(b3, r3);
    FourMasks(r4);
    MaskKept(b4, r4);
    StillValid(b3, b4, r4);
    MaskApart(b4, r4);
    KeptInParts(p);
  }

  lemma FourMasks(r: Registers)
    ensures r.Valid() <==> |r.injectCount| == 6 && |r.injectEnable| == 6 && |r.discrimEnableMask| == 4
  {
  }

  lemma KeptInParts(p: seq<bv8>)
    requires |p| == REGISTER_BYTES
    ensures var b0, b2, b3 := p[..12], p[22..32], p[32..42];
            Kept(p) == b0[9 := b0[9] & 0xFD] + p[12..22] + b2[5 := Nibble(b2[5])] + b3[9 := SixBits(b3[9])] + p[42..]
  {
    hide Nibble, SixBits;
    UpdatedInParts(p, p[9] & 0xFD, Nibble(p[27]), SixBits(p[41]));
  }

  lemma UpdatedInParts<T>(p: seq<T>, x: T, y: T, z: T)
    requires |p| == REGISTER_BYTES
    ensures p[9 := x][27 := y][41 := z] == p[..12][9 := x] + p[12..22] + p[22..32][5 := y] + p[32..42][9 := z] + p[42..]
  {
  }

  /** So the payload comes back whole exactly when those bits were zero. */
  lemma ImageIsSameIff(p: seq<bv8>, r: Registers)
    requires |p| == REGISTER_BYTES && r.Valid()
    ensures Decode(p, r).Valid()
    ensures Image(Decode(p, r)) == p <==> p[9] & 0x02 == 0 && p[27] & 0xF0 == 0 && p[41] & 0xC0 == 0
  {
    hide Decode, Image, Registers.Valid;
    ImageIsKept(p, r);
    MaskIsSameIff(p[9], p[27], p[41]);
    assert Kept(p)[9] == p[9] & 0xFD && Kept(p)[27] == Nibble(p[27]) && Kept(p)[41] == SixBits(p[41]);
    assert p[9 := p[9]][27 := p[27]][41 := p[41]] == p;
  }

  lemma MaskIsSameIff(a: bv8, b: bv8, c: bv8)
    ensures a & 0xFD == a <==> a & 0x02 == 0
    ensures Nibble(b) == b <==> b & 0xF0 == 0
    ensures SixBits(c) == c <==> c & 0xC0 == 0
  {
  }

  lemma FourOf<T>(s: seq<T>)
    requires |s| == 4
    ensures s == [s[0], s[1], s[2], s[3]]
  {
  }

  lemma SixOf<T>(s: seq<T>)
    requires |s| == 6
    ensures s == [s[0], s[1], s[2], s[3], s[4], s[5]]
  {
  }

  // ----- registers written and decoded again -----

  function One(b: bv8): bv8 { b & 0x01 }

  function TwoBits(b: bv8): bv8 { b & 0x03 }

  function ThreeBits(b: bv8): bv8 { b & 0x07 }

  function NineBits(w: bv16): bv16 { w & 0x1FF }

  function TwelveBits(w: bv16): bv16 { w & 0xFFF }

  /** What becomes of the phase-done bit. */
  function PhaseDoneRead(b: bv8): bv8 { One(b) << 1 }

  function NarrowCounts(c: seq<bv8>): (n: seq<bv8>)
    requires |c| == 6
    ensures |n| == 6
  {
    [SevenBits(c[0]), SevenBits(c[1]), SevenBits(c[2]), SevenBits(c[3]), SevenBits(c[4]), SevenBits(c[5])]
  }

  function NarrowEnables(e: seq<bv8>): (n: seq<bv8>)
    requires |e| == 6
    ensures |n| == 6
  {
    [One(e[0]), One(e[1]), One(e[2]), One(e[3]), One(e[4]), One(e[5])]
  }

  /** Every register cut to the bits it has in the image; the phase-done bit comes back one place too high. */
  function Narrowed(r: Registers): Registers
    requires r.Valid()
  {
    r.(dcm2PhaseTotal := NineBits(r.dcm2PhaseTotal), dcm2PhaseDone := PhaseDoneRead(r.dcm2PhaseDone),
       dcm1NoClock := One(r.dcm1NoClock), dcm2NoClock := One(r.dcm2NoClock), dcm1Lock := One(r.dcm1Lock),
       dcm2Lock := One(r.dcm2Lock), testPulse2Bit := TwoBits(r.testPulse2Bit),
       extTriggerFound := One(r.extTriggerFound),
       extTriggerRearm := One(r.extTriggerRearm), statusSCMDUnknown := One(r.statusSCMDUnknown),
       statusFCMDUnknown := One(r.statusFCMDUnknown), phaseIncrement := One(r.phaseIncrement),
       phaseStart := One(r.phaseStart), statusRXLock := One(r.statusRXLock),
       statusTXSyncLock := One(r.statusTXSyncLock),
       injectCount := NarrowCounts(r.injectCount), injectEnable := NarrowEnables(r.injectEnable),
       tripPowerOff := SixBits(r.tripPowerOff), hvManual := One(r.hvManual), hvEnabled := One(r.hvEnabled),
       hvControl := 0,
       afterPulseExtendedWidth := Nibble(r.afterPulseExtendedWidth), injectDACValue := TwelveBits(r.injectDACValue),
       injectDACMode := TwoBits(r.injectDACMode), injectDACDone := One(r.injectDACDone),
       injectDACStart := One(r.injectDACStart), injectRange := Nibble(r.injectRange),
       injectPhase := Nibble(r.injectPhase),
       boardID := Nibble(r.boardID), hvNumAve := ThreeBits(r.hvNumAve), previewEnable := One(r.previewEnable),
       tripXCompEnc := SixBits(r.tripXCompEnc))
  }

  lemma PhaseFields(r: Registers)
    ensures var b := PhaseByte(r);
            && Word16(Low16(r.dcm2PhaseTotal), Bits(b, 0x01, 0)) == NineBits(r.dcm2PhaseTotal)
            && Bits(b, 0x02, 0) == PhaseDoneRead(r.dcm2PhaseDone) && Bits(b, 0x04, 2) == One(r.dcm1NoClock)
            && Bits(b, 0x08, 3) == One(r.dcm2NoClock) && Bits(b, 0x10, 4) == One(r.dcm1Lock)
            && Bits(b, 0x20, 5) == One(r.dcm2Lock) && Bits(b, 0xC0, 6) == TwoBits(r.testPulse2Bit)
  {
  }

  lemma StatusFields(r: Registers)
    ensures var b := StatusByte(r);
            && Bits(b, 0x01, 0) == One(r.extTriggerFound) && Bits(b, 0x02, 1) == One(r.extTriggerRearm)
            && Bits(b, 0x04, 2) == One(r.statusSCMDUnknown) && Bits(b, 0x08, 3) == One(r.statusFCMDUnknown)
            && Bits(b, 0x10, 4) == One(r.phaseIncrement) && Bits(b, 0x20, 5) == One(r.phaseStart)
            && Bits(b, 0x40, 6) == One(r.statusRXLock) && Bits(b, 0x80, 7) == One(r.statusTXSyncLock)
  {
  }

  lemma InjectFields(count: bv8, enable: bv8)
    ensures SevenBits(InjectByte(count, enable)) == SevenBits(count) && TopBit(InjectByte(count, enable)) == One(enable)
  {
  }

  lemma PowerFields(r: Registers)
    ensures var b := PowerByte(r);
            && Bits(b, 0x3F, 0) == SixBits(r.tripPowerOff) && Bits(b, 0x40, 6) == One(r.hvManual)
            && Bits(b, 0x80, 7) == One(r.hvEnabled)
  {
  }

  lemma DacFields(r: Registers)
    ensures var b := DacByte(r);
            && Word16(Low16(r.injectDACValue), Nibble(b)) == TwelveBits(r.injectDACValue)
            && Bits(b, 0x30, 4) == TwoBits(r.injectDACMode) && Bits(b, 0x40, 6) == One(r.injectDACDone)
            && Bits(b, 0x80, 7) == One(r.injectDACStart)
  {
  }

  lemma RangeFields(r: Registers)
    ensures Bits(RangeByte(r), 0x0F, 0) == Nibble(r.injectRange) && Bits(RangeByte(r), 0xF0, 4) == Nibble(r.injectPhase)
    ensures Bits(BoardByte(r), 0x0F, 0) == Nibble(r.boardID) && Bits(BoardByte(r), 0x70, 4) == ThreeBits(r.hvNumAve)
    ensures Bits(BoardByte(r), 0x80, 7) == One(r.previewEnable)
  {
  }

  lemma TimingNarrowed(r: Registers, s: Registers)
    requires r.Valid()
    ensures DecodeTiming(TimingImage(r), s) ==
            var n := Narrowed(r);
            s.(timer := n.timer, gateStart := n.gateStart, gateLength := n.gateLength,
               dcm2PhaseTotal := n.dcm2PhaseTotal,
               dcm2PhaseDone := n.dcm2PhaseDone, dcm1NoClock := n.dcm1NoClock, dcm2NoClock := n.dcm2NoClock,
               dcm1Lock := n.dcm1Lock, dcm2Lock := n.dcm2Lock, testPulse2Bit := n.testPulse2Bit,
               phaseCount := n.phaseCount,
               extTriggerFound := n.extTriggerFound, extTriggerRearm := n.extTriggerRearm,
               statusSCMDUnknown := n.statusSCMDUnknown, statusFCMDUnknown := n.statusFCMDUnknown,
               phaseIncrement := n.phaseIncrement, phaseStart := n.phaseStart, statusRXLock := n.statusRXLock,
               statusTXSyncLock := n.statusTXSyncLock)
  {
    hide Bits, One, TwoBits, ThreeBits, NineBits, TwelveBits, PhaseDoneRead, SixBits, SevenBits, Nibble, PhaseByte;
    hide StatusByte, Word16, Word32, Low16, High16, Byte32;
    Word32Bytes(r.timer);
    Word16Bytes(r.gateStart);
    Word16Bytes(r.gateLength);
    PhaseFields(r);
    StatusFields(r);
  }

  lemma CountsNarrowed(r: Registers)
    requires r.Valid()
    ensures DecodeCounts(InjectImage(r)) == NarrowCounts(r.injectCount)
    ensures DecodeEnables(InjectImage(r)) == NarrowEnables(r.injectEnable)
  {
    hide One, SevenBits, TopBit, InjectByte, Byte32;
    InjectFields(r.injectCount[0], r.injectEnable[0]);
    InjectFields(r.injectCount[1], r.injectEnable[1]);
    InjectFields(r.injectCount[2], r.injectEnable[2]);
    InjectFields(r.injectCount[3], r.injectEnable[3]);
    InjectFields(r.injectCount[4], r.injectEnable[4]);
    InjectFields(r.injectCount[5], r.injectEnable[5]);
  }

  lemma TestPulseKept(r: Registers)
    requires r.Valid()
    ensures var b := InjectImage(r); Word32(b[0], b[1], b[2], b[3]) == r.testPulseCount
  {
    hide Word32, Byte32, InjectByte;
    Word32Bytes(r.testPulseCount);
  }

  lemma InjectNarrowed(r: Registers, s: Registers)
    requires r.Valid()
    ensures DecodeInject(InjectImage(r), s) ==
            var n := Narrowed(r);
            s.(testPulseCount := n.testPulseCount, injectCount := n.injectCount, injectEnable := n.injectEnable)
  {
    hide One, TwoBits, ThreeBits, NineBits, TwelveBits, PhaseDoneRead, SixBits, SevenBits, Nibble, Word32;
    hide InjectImage, DecodeCounts, DecodeEnables, NarrowCounts, NarrowEnables;
    TestPulseKept(r);
    CountsNarrowed(r);
  }

  lemma VoltageNarrowed(r: Registers, s: Registers)
    requires r.Valid()
    ensures DecodeVoltage(VoltageImage(r), s) ==
            var n := Narrowed(r);
            s.(tripPowerOff := n.tripPowerOff, hvManual := n.hvManual, hvEnabled := n.hvEnabled, hvTarget := n.hvTarget,
               hvActual := n.hvActual, hvControl := 0, afterPulseExtendedWidth := n.afterPulseExtendedWidth,
               injectDACValue := n.injectDACValue, injectDACMode := n.injectDACMode, injectDACDone := n.injectDACDone,
               injectDACStart := n.injectDACStart, injectRange := n.injectRange, injectPhase := n.injectPhase,
               boardID := n.boardID, hvNumAve := n.hvNumAve, previewEnable := n.previewEnable)
  {
    PartsOfParts(r.afterPulseExtendedWidth);
    hide Bits, One, TwoBits, ThreeBits, NineBits, TwelveBits, PhaseDoneRead, SixBits, SevenBits, Nibble, PowerByte;
    hide DacByte, RangeByte, BoardByte, Word16, Low16, High16;
    Word16Bytes(r.hvTarget);
    Word16Bytes(r.hvActual);
    PowerFields(r);
    DacFields(r);
    RangeFields(r);
  }

  lemma PeriodNarrowed(r: Registers, s: Registers)
    requires r.Valid()
    ensures DecodePeriod(PeriodImage(r), s) ==
            var n := Narrowed(r);
            s.(firmwareVersion := n.firmwareVersion, hvPeriodManual := n.hvPeriodManual, hvPeriodAuto := n.hvPeriodAuto,
               hvPulseWidth := n.hvPulseWidth, temperature := n.temperature, tripXThresh := n.tripXThresh,
               tripXCompEnc := n.tripXCompEnc)
  {
    PartsOfParts(r.tripXCompEnc);
    hide One, TwoBits, ThreeBits, NineBits, TwelveBits, PhaseDoneRead, SixBits, SevenBits, Nibble, Word16, Low16;
    hide High16;
    Word16Bytes(r.hvPeriodManual);
    Word16Bytes(r.hvPeriodAuto);
    Word16Bytes(r.temperature);
  }

  lemma MaskNarrowed(r: Registers, s: Registers)
    requires r.Valid()
    ensures DecodeMask(MaskImage(r), s) ==
            var n := Narrowed(r);
            s.(discrimEnableMask := n.discrimEnableMask, gateTimeStamp := n.gateTimeStamp)
  {
    hide One, TwoBits, ThreeBits, NineBits, TwelveBits, PhaseDoneRead, SixBits, SevenBits, Nibble, Word16, Word32;
    hide Low16, High16, Byte32;
    Word16Bytes(r.discrimEnableMask[0]);
    Word16Bytes(r.discrimEnableMask[1]);
    Word16Bytes(r.discrimEnableMask[2]);
    Word16Bytes(r.discrimEnableMask[3]);
    Word32Bytes(r.gateTimeStamp);
    FourOf(r.discrimEnableMask);
  }

  lemma PartsOfConcat<T>(a: seq<T>, b: seq<T>, c: seq<T>, d: seq<T>, e: seq<T>)
    requires |a| == 12 && |b| == 10 && |c| == 10 && |d| == 10 && |e| == 12
    ensures var p := a + b + c + d + e;
            p[..12] == a && p[12..22] == b && p[22..32] == c && p[32..42] == d && p[42..] == e
  {
  }

  /** Decoding the image of any registers, into whatever was there before, yields the narrowed registers. */
  lemma RegistersAreNarrowed(r: Registers, s: Registers)
    requires r.Valid()
    ensures Decode(Image(r), s) == Narrowed(r)
  {
    hide DecodeTiming, DecodeInject, DecodeVoltage, DecodePeriod, DecodeMask;
    hide TimingImage, InjectImage, VoltageImage, PeriodImage, MaskImage;
    hide One, TwoBits, ThreeBits, NineBits, TwelveBits, PhaseDoneRead, SixBits, SevenBits, Nibble;
    PartsOfConcat(TimingImage(r), InjectImage(r), VoltageImage(r), PeriodImage(r), MaskImage(r));
    var r1 := DecodeTiming(TimingImage(r), s);
    TimingNarrowed(r, s);
    var r2 := DecodeInject(InjectImage(r), r1);
    InjectNarrowed(r, r1);
    var r3 := DecodeVoltage(VoltageImage(r), r2);
    VoltageNarrowed(r, r2);
    var r4 := DecodePeriod(PeriodImage(r), r3);
    PeriodNarrowed(r, r3);
    MaskNarrowed(r, r4);
  }

  predicate IsBit(b: bv8) { b < 2 }

  predicate IsZero(b: bv8) { b == 0 }

  predicate IsTwo(b: bv8) { b < 4 }

  predicate IsNine(w: bv16) { w < 0x200 }

  predicate TimingFits(r: Registers) {
    && IsNine(r.dcm2PhaseTotal) && IsTwo(r.testPulse2Bit) && IsBit(r.dcm1NoClock) && IsBit(r.dcm2NoClock)
    && IsBit(r.dcm1Lock)
    && IsBit(r.dcm2Lock) && IsBit(r.extTriggerFound) && IsBit(r.extTriggerRearm) && IsBit(r.statusSCMDUnknown)
    && IsBit(r.statusFCMDUnknown) && IsBit(r.phaseIncrement) && IsBit(r.phaseStart) && IsBit(r.statusRXLock)
    && IsBit(r.statusTXSyncLock)
  }

  predicate InjectFits(r: Registers)
    requires r.Valid()
  {
    (forall i | 0 <= i < 6 :: r.injectCount[i] < 0x80) && (forall i | 0 <= i < 6 :: r.injectEnable[i] < 2)
  }

  predicate VoltageFits(r: Registers) {
    && r.tripPowerOff < 0x40 && r.injectDACValue < 0x1000 && r.injectDACMode < 4 && r.hvNumAve < 8
    && r.tripXCompEnc < 0x40 && IsBit(r.hvManual) && IsBit(r.hvEnabled) && IsBit(r.injectDACDone)
    && IsBit(r.injectDACStart)
    && IsBit(r.previewEnable) && r.afterPulseExtendedWidth < 0x10 && r.injectRange < 0x10 && r.injectPhase < 0x10
    && r.boardID < 0x10
  }

  /** Every register fits the bits it has in the image. */
  predicate InRange(r: Registers)
    requires r.Valid()
  {
    TimingFits(r) && InjectFits(r) && VoltageFits(r)
  }

  predicate TimingSame(r: Registers) {
    && NineBits(r.dcm2PhaseTotal) == r.dcm2PhaseTotal && PhaseDoneRead(r.dcm2PhaseDone) == r.dcm2PhaseDone
    && TwoBits(r.testPulse2Bit) == r.testPulse2Bit && One(r.dcm1NoClock) == r.dcm1NoClock
    && One(r.dcm2NoClock) == r.dcm2NoClock && One(r.dcm1Lock) == r.dcm1Lock && One(r.dcm2Lock) == r.dcm2Lock
    && One(r.extTriggerFound) == r.extTriggerFound && One(r.extTriggerRearm) == r.extTriggerRearm
    && One(r.statusSCMDUnknown) == r.statusSCMDUnknown && One(r.statusFCMDUnknown) == r.statusFCMDUnknown
    && One(r.phaseIncrement) == r.phaseIncrement && One(r.phaseStart) == r.phaseStart
    && One(r.statusRXLock) == r.statusRXLock && One(r.statusTXSyncLock) == r.statusTXSyncLock
  }

  predicate InjectSame(r: Registers)
    requires r.Valid()
  {
    NarrowCounts(r.injectCount) == r.injectCount && NarrowEnables(r.injectEnable) == r.injectEnable
  }

  predicate VoltageSame(r: Registers) {
    && SixBits(r.tripPowerOff) == r.tripPowerOff && TwelveBits(r.injectDACValue) == r.injectDACValue
    && TwoBits(r.injectDACMode) == r.injectDACMode && ThreeBits(r.hvNumAve) == r.hvNumAve
    && SixBits(r.tripXCompEnc) == r.tripXCompEnc && One(r.hvManual) == r.hvManual && One(r.hvEnabled) == r.hvEnabled
    && One(r.injectDACDone) == r.injectDACDone && One(r.injectDACStart) == r.injectDACStart
    && One(r.previewEnable) == r.previewEnable && Nibble(r.afterPulseExtendedWidth) == r.afterPulseExtendedWidth
    && Nibble(r.injectRange) == r.injectRange && Nibble(r.injectPhase) == r.injectPhase
    && Nibble(r.boardID) == r.boardID
  }

  lemma NarrowedSame(r: Registers)
    requires r.Valid()
    ensures Narrowed(r) == r <==> TimingSame(r) && InjectSame(r) && VoltageSame(r) && r.hvControl == 0
  {
    hide One, TwoBits, ThreeBits, NineBits, TwelveBits, PhaseDoneRead, SixBits, SevenBits, Nibble;
    hide NarrowCounts, NarrowEnables;
  }

  lemma OneFits(b: bv8)
    ensures One(b) == b <==> IsBit(b)
  {
  }

  lemma NibbleFits(b: bv8)
    ensures Nibble(b) == b <==> b < 0x10
  {
  }

  lemma SixBitsFit(b: bv8)
    ensures SixBits(b) == b <==> b < 0x40
  {
  }

  lemma SevenBitsFit(b: bv8)
    ensures SevenBits(b) == b <==> b < 0x80
  {
  }

  lemma PhaseFits(total: bv16, done: bv8, pulse: bv8)
    ensures NineBits(total) == total <==> IsNine(total)
    ensures PhaseDoneRead(done) == done <==> IsZero(done)
    ensures TwoBits(pulse) == pulse <==> IsTwo(pulse)
  {
  }

  lemma DacFits(value: bv16, mode: bv8, average: bv8)
    ensures TwelveBits(value) == value <==> value < 0x1000
    ensures TwoBits(mode) == mode <==> mode < 4
    ensures ThreeBits(average) == average <==> average < 8
  {
  }

  lemma TimingSameIff(r: Registers)
    ensures TimingSame(r) <==> TimingFits(r) && IsZero(r.dcm2PhaseDone)
  {
    hide One, TwoBits, NineBits, PhaseDoneRead, IsBit, IsZero, IsNine, IsTwo;
    PhaseFits(r.dcm2PhaseTotal, r.dcm2PhaseDone, r.testPulse2Bit);
    OneFits(r.dcm1NoClock);
    OneFits(r.dcm2NoClock);
    OneFits(r.dcm1Lock);
    OneFits(r.dcm2Lock);
    OneFits(r.extTriggerFound);
    OneFits(r.extTriggerRearm);
    OneFits(r.statusSCMDUnknown);
    OneFits(r.statusFCMDUnknown);
    OneFits(r.phaseIncrement);
    OneFits(r.phaseStart);
    OneFits(r.statusRXLock);
    OneFits(r.statusTXSyncLock);
  }

  lemma InjectSameIff(r: Registers)
    requires r.Valid()
    ensures InjectSame(r) <==> InjectFits(r)
  {
    hide One, SevenBits;
    forall i | 0 <= i < 6 ensures NarrowCounts(r.injectCount)[i] == r.injectCount[i] <==> r.injectCount[i] < 0x80 {
      SevenBitsFit(r.injectCount[i]);
    }
    forall i | 0 <= i < 6 ensures NarrowEnables(r.injectEnable)[i] == r.injectEnable[i] <==> r.injectEnable[i] < 2 {
      OneFits(r.injectEnable[i]);
    }
  }

  lemma VoltageSameIff(r: Registers)
    ensures VoltageSame(r) <==> VoltageFits(r)
  {
    hide One, TwoBits, ThreeBits, TwelveBits, SixBits, Nibble, IsBit;
    DacFits(r.injectDACValue, r.injectDACMode, r.hvNumAve);
    SixBitsFit(r.tripPowerOff);
    SixBitsFit(r.tripXCompEnc);
    OneFits(r.hvManual);
    OneFits(r.hvEnabled);
    OneFits(r.injectDACDone);
    OneFits(r.injectDACStart);
    OneFits(r.previewEnable);
    NibbleFits(r.afterPulseExtendedWidth);
    NibbleFits(r.injectRange);
    NibbleFits(r.injectPhase);
    NibbleFits(r.boardID);
  }

  /** So registers survive being written and read exactly when they fit, but for phase-done and the unused control. */
  lemma RegistersAreSameIff(r: Registers, s: Registers)
    requires r.Valid()
    ensures Decode(Image(r), s) == r <==> InRange(r) && r.dcm2PhaseDone == 0 && r.hvControl == 0
  {
    hide Decode, Image, Narrowed, TimingSame, InjectSame, VoltageSame;
    RegistersAreNarrowed(r, s);
    NarrowedSame(r);
    TimingSameIff(r);
    InjectSameIff(r);
    VoltageSameIff(r);
  }

  // ----- the frame -----

  datatype Outcome = Decoded | WrongLength | HeaderRejected

  const FPGA_DEVICE: bv8 := 0x20
  const READ: bv8 := 0x02
  const DUMP_READ: bv8 := 0x03

  /** Frames are made without an identification. */
  const NO_ID: seq<bv8> := [0, 0]

  /** A request of the crate to the FPGA of one board. */
  function Asks(deviceFunction: bv8, feb: bv8): Address {
    Address(FPGA_DEVICE, 0x00, 0x00, deviceFunction, feb)
  }

  /** The requests in bytes: the board, then the device and the function. */
  lemma AskedBytes(feb: bv8)
    ensures OutgoingHeader(Asks(READ, feb), NO_ID) == [feb & 0x0F, 0x22, 0, 0, 0, 0, 0, 0, 0]
    ensures OutgoingHeader(Asks(DUMP_READ, feb), NO_ID) == [feb & 0x0F, 0x23, 0, 0, 0, 0, 0, 0, 0]
  {
  }

  class FPGAFrame {
    const febNumber: bv8
    const frameHeader: array<bv8>
    var registers: Registers
    var outgoingMessageIsShort: bool
    var outgoingMessage: array?<bv8>
    var receivedMessage: array?<bv8>

    ghost predicate Valid()
      reads this
    {
      frameHeader.Length == HEADER_SIZE && registers.Valid()
    }

    /** A new frame asks for the registers until told otherwise. */
    constructor (feb: bv8, defaults: Registers)
      requires defaults.Valid()
      ensures Valid() && fresh(frameHeader) && febNumber == feb && registers == defaults && !outgoingMessageIsShort
      ensures frameHeader[..] == OutgoingHeader(Asks(READ, feb), NO_ID)
      ensures frameHeader[..] == [feb & 0x0F, 0x22, 0, 0, 0, 0, 0, 0, 0]
      ensures outgoingMessage == null && receivedMessage == null
    {
      frameHeader := new bv8[HEADER_SIZE];
      febNumber, registers, outgoingMessageIsShort := feb, defaults, false;
      outgoingMessage, receivedMessage := null, null;
      new;
      MakeDeviceFrameTransmit(Asks(READ, feb));
      AskedBytes(feb);
    }

    /** `MakeDeviceFrameTransmit` with `MakeOutgoingHeader`. */
    method MakeDeviceFrameTransmit(a: Address)
      requires frameHeader.Length == HEADER_SIZE
      modifies frameHeader
      ensures frameHeader[..] == OutgoingHeader(a, NO_ID)
    {
      frameHeader[0] := a.direction & 0x80;
      frameHeader[0] := frameHeader[0] | (a.broadcast & 0xF0);
      frameHeader[0] := frameHeader[0] | (a.feb & 0x0F);
      frameHeader[1] := a.device & 0xF0;
      frameHeader[1] := frameHeader[1] | (a.deviceFunction & 0x0F);
      frameHeader[2] := 0;
      frameHeader[3], frameHeader[4] := NO_ID[0], NO_ID[1];
      frameHeader[5], frameHeader[6], frameHeader[7], frameHeader[8] := 0, 0, 0, 0;
    }

    method GetOutgoingMessageLength() returns (length: nat)
      ensures length == if outgoingMessageIsShort then HEADER_SIZE else HEADER_SIZE + REGISTER_BYTES
    {
      if outgoingMessageIsShort { return HEADER_SIZE; }
      return HEADER_SIZE + REGISTER_BYTES;
    }

    /** A dump read is a header and nothing else. */
    method MakeShortMessage()
      requires Valid()
      modifies this`outgoingMessageIsShort, this`outgoingMessage, frameHeader
      ensures outgoingMessageIsShort && outgoingMessage != null && fresh(outgoingMessage)
      ensures outgoingMessage[..] == frameHeader[..] == OutgoingHeader(Asks(DUMP_READ, febNumber), NO_ID)
      ensures outgoingMessage[..] == [febNumber & 0x0F, 0x23, 0, 0, 0, 0, 0, 0, 0]
    {
      hide OutgoingHeader;
      AskedBytes(febNumber);
      outgoingMessageIsShort := true;
      MakeDeviceFrameTransmit(Asks(DUMP_READ, febNumber));
      var message := new bv8[HEADER_SIZE];
      for i := 0 to HEADER_SIZE
        invariant outgoingMessageIsShort && message[..i] == frameHeader[..i]
        invariant frameHeader[..] == OutgoingHeader(Asks(DUMP_READ, febNumber), NO_ID)
      {
        message[i] := frameHeader[i];
      }
      assert message[..] == message[..HEADER_SIZE] && frameHeader[..] == frameHeader[..HEADER_SIZE];
      outgoingMessage := message;
    }

    method MakeMessage()
      requires Valid()
      modifies this`outgoingMessageIsShort, this`outgoingMessage
      ensures !outgoingMessageIsShort && outgoingMessage != null && fresh(outgoingMessage)
      ensures outgoingMessage[..] == frameHeader[..] + Image(registers)
    {
      hide Image;
      outgoingMessageIsShort := false;
      var message := PackRegisters();
      var length := GetOutgoingMessageLength();
      var outgoing := new bv8[length];
      for i := 0 to length
        invariant forall k | 0 <= k < i ::
                    outgoing[k] == if k < HEADER_SIZE then frameHeader[k] else message[k - HEADER_SIZE]
        invariant !outgoingMessageIsShort && message[..REGISTER_BYTES] == Image(registers)
      {
        if i < HEADER_SIZE {
          outgoing[i] := frameHeader[i];
        } else {
          outgoing[i] := message[i - HEADER_SIZE];
        }
      }
      assert outgoing[..] == frameHeader[..] + message[..REGISTER_BYTES];
      outgoingMessage := outgoing;
    }

    method PackPhase() returns (b: bv8)
      ensures b == PhaseByte(registers)
    {
      b := ((registers.dcm2PhaseTotal >> 8) & 0x01) as bv8;
      b := b | ((registers.dcm2PhaseDone & 0x01) << 1);
      b := b | ((registers.dcm1NoClock & 0x01) << 2);
      b := b | ((registers.dcm2NoClock & 0x01) << 3);
      b := b | ((registers.dcm1Lock & 0x01) << 4);
      b := b | ((registers.dcm2Lock & 0x01) << 5);
      b := b | ((registers.testPulse2Bit & 0x03) << 6);
    }

    method PackStatus() returns (b: bv8)
      ensures b == StatusByte(registers)
    {
      b := registers.extTriggerFound & 0x01;
      b := b | ((registers.extTriggerRearm & 0x01) << 1);
      b := b | ((registers.statusSCMDUnknown & 0x01) << 2);
      b := b | ((registers.statusFCMDUnknown & 0x01) << 3);
      b := b | ((registers.phaseIncrement & 0x01) << 4);
      b := b | ((registers.phaseStart & 0x01) << 5);
      b := b | ((registers.statusRXLock & 0x01) << 6);
      b := b | ((registers.statusTXSyncLock & 0x01) << 7);
    }

    method PackTiming(message: array<bv8>)
      requires Valid() && message.Length == REGISTER_BYTES + 1
      modifies message
      ensures message[..12] == TimingImage(registers)
    {
      hide Low16, High16, Byte32, PhaseByte, StatusByte;
      var r := registers;
      Put32(message, 0, r.timer);
      Put16(message, 4, r.gateStart);
      Put16(message, 6, r.gateLength);
      Put(message, 8, Low16(r.dcm2PhaseTotal));
      var phase := PackPhase();
      Put(message, 9, phase);
      Put(message, 10, r.phaseCount);
      var status := PackStatus();
      Put(message, 11, status);
      ghost var t := TimingImage(r);
      JoinTiming(message[..0], t[0], t[1], t[2], t[3], t[4], t[5], t[6], t[7], t[8], t[9], t[10], t[11]);
    }

    method PackInject(message: array<bv8>)
      requires Valid() && message.Length == REGISTER_BYTES + 1
      modifies message
      ensures message[..22] == old(message[..12]) + InjectImage(registers)
    {
      hide Byte32, InjectByte, InjectImage;
      ghost var before, t := message[..12], InjectImage(registers);
      InjectStart(registers);
      Put32(message, 12, registers.testPulseCount);
      for i := 16 to 22
        invariant message[..i] == before + t[..i - 12]
      {
        var b := registers.injectCount[i - 16] & 0x7F;
        b := b | ((registers.injectEnable[i - 16] & 0x01) << 7);
        InjectAt(registers, i - 16, b);
        Put(message, i, b);
        OneMore(before, t, i - 12);
      }
    }

    method PackVoltage(message: array<bv8>)
      requires Valid() && message.Length == REGISTER_BYTES + 1
      modifies message
      ensures message[..32] == old(message[..22]) + VoltageImage(registers)
    {
      hide Low16, High16, PowerByte, DacByte, RangeByte, BoardByte, Nibble;
      var r := registers;
      var power := PackPower();
      Put(message, 22, power);
      Put16(message, 23, r.hvTarget);
      Put16(message, 25, r.hvActual);
      Put(message, 27, Nibble(r.afterPulseExtendedWidth));
      Put(message, 28, Low16(r.injectDACValue));
      var dac := PackDac();
      Put(message, 29, dac);
      var range, board := PackBoard();
      Put(message, 30, range);
      Put(message, 31, board);
      ghost var t := VoltageImage(r);
      JoinVoltage(old(message[..22]), t[0], t[1], t[2], t[3], t[4], t[5], t[6], t[7], t[8], t[9]);
    }

    method PackPower() returns (b: bv8)
      ensures b == PowerByte(registers)
    {
      b := registers.tripPowerOff & 0x3F;
      b := b | ((registers.hvManual & 0x01) << 6);
      b := b | ((registers.hvEnabled & 0x01) << 7);
    }

    method PackDac() returns (b: bv8)
      ensures b == DacByte(registers)
    {
      b := ((registers.injectDACValue & 0x0F00) >> 8) as bv8;
      b := b | ((registers.injectDACMode & 0x03) << 4);
      b := b | ((registers.injectDACDone & 0x01) << 6);
      b := b | ((registers.injectDACStart & 0x01) << 7);
    }

    method PackBoard() returns (range: bv8, board: bv8)
      ensures range == RangeByte(registers) && board == BoardByte(registers)
    {
      range := registers.injectRange & 0x0F;
      range := range | ((registers.injectPhase & 0x0F) << 4);
      board := registers.boardID & 0x0F;
      board := board | ((registers.hvNumAve & 0x07) << 4);
      board := board | ((registers.previewEnable & 0x01) << 7);
    }

    method PackPeriod(message: array<bv8>)
      requires Valid() && message.Length == REGISTER_BYTES + 1
      modifies message
      ensures message[..42] == old(message[..32]) + PeriodImage(registers)
    {
      hide Low16, High16, SixBits;
      var r := registers;
      Put(message, 32, r.firmwareVersion);
      Put16(message, 33, r.hvPeriodManual);
      Put16(message, 35, r.hvPeriodAuto);
      Put(message, 37, r.hvPulseWidth);
      Put16(message, 38, r.temperature);
      Put(message, 40, r.tripXThresh);
      Put(message, 41, SixBits(r.tripXCompEnc));
      ghost var t := PeriodImage(r);
      JoinPeriod(old(message[..32]), t[0], t[1], t[2], t[3], t[4], t[5], t[6], t[7], t[8], t[9]);
    }

    method PackMask(message: array<bv8>)
      requires Valid() && message.Length == REGISTER_BYTES + 1
      modifies message
      ensures message[..54] == old(message[..42]) + MaskImage(registers)
    {
      hide Low16, High16, Byte32;
      var r := registers;
      Put16(message, 42, r.discrimEnableMask[0]);
      Put16(message, 44, r.discrimEnableMask[1]);
      Put16(message, 46, r.discrimEnableMask[2]);
      Put16(message, 48, r.discrimEnableMask[3]);
      Put32(message, 50, r.gateTimeStamp);
      ghost var t := MaskImage(r);
      JoinMask(old(message[..42]), t[0], t[1], t[2], t[3], t[4], t[5], t[6], t[7], t[8], t[9], t[10], t[11]);
    }

    /** The buffer has room for one byte more, so that its length is odd. */
    method PackRegisters() returns (message: array<bv8>)
      requires Valid()
      ensures fresh(message) && message.Length == REGISTER_BYTES + 1 && message[..REGISTER_BYTES] == Image(registers)
    {
      hide TimingImage, InjectImage, VoltageImage, PeriodImage, MaskImage;
      message := new bv8[REGISTER_BYTES + (REGISTER_BYTES + 1) % 2];
      PackTiming(message);
      PackInject(message);
      PackVoltage(message);
      PackPeriod(message);
      PackMask(message);
    }

    method ReadTiming(m: array<bv8>, startByte: nat) returns (next: nat)
      requires Valid() && startByte + 12 <= m.Length
      modifies this`registers
      ensures Valid() && registers == DecodeTiming(m[startByte..startByte + 12], old(registers))
      ensures next == startByte + 12
    {
      hide DecodeTiming;
      var length := ReadTimingBytes(m[startByte..startByte + 12]);
      next := startByte + length;
    }

    /** The first twelve bytes, in the order of the cursor. */
    method ReadTimingBytes(b: seq<bv8>) returns (at: nat)
      requires Valid() && |b| == 12
      modifies this`registers
      ensures Valid() && registers == DecodeTiming(b, old(registers)) && at == 12
    {
      hide Bits, Word16, Word32;
      at := 0;
      var timer := Word32(b[at], b[at + 1], b[at + 2], b[at + 3]);
      at := at + 4;
      var gateStart := Word16(b[at], b[at + 1]);
      at := at + 2;
      var gateLength := Word16(b[at], b[at + 1]);
      at := at + 2;
      var total := b[at];
      at := at + 1;
      var phase := b[at];
      at := at + 1;
      var phaseCount := b[at];
      at := at + 1;
      var status := b[at];
      at := at + 1;
      registers := registers.(
        timer := timer, gateStart := gateStart, gateLength := gateLength,
        dcm2PhaseTotal := Word16(total, Bits(phase, 0x01, 0)), dcm2PhaseDone := Bits(phase, 0x02, 0),
        dcm1NoClock := Bits(phase, 0x04, 2), dcm2NoClock := Bits(phase, 0x08, 3), dcm1Lock := Bits(phase, 0x10, 4),
        dcm2Lock := Bits(phase, 0x20, 5), testPulse2Bit := Bits(phase, 0xC0, 6), phaseCount := phaseCount,
        extTriggerFound := Bits(status, 0x01, 0), extTriggerRearm := Bits(status, 0x02, 1),
        statusSCMDUnknown := Bits(status, 0x04, 2), statusFCMDUnknown := Bits(status, 0x08, 3),
        phaseIncrement := Bits(status, 0x10, 4), phaseStart := Bits(status, 0x20, 5),
        statusRXLock := Bits(status, 0x40, 6), statusTXSyncLock := Bits(status, 0x80, 7));
    }

    method ReadInject(m: array<bv8>, startByte: nat) returns (next: nat)
      requires Valid() && startByte + 10 <= m.Length
      modifies this`registers
      ensures Valid() && registers == DecodeInject(m[startByte..startByte + 10], old(registers))
      ensures next == startByte + 10
    {
      hide SevenBits, TopBit, Word32, DecodeCounts, DecodeEnables;
      var b := m[startByte..startByte + 10];
      var testPulseCount := Word32(b[0], b[1], b[2], b[3]);
      var counts, enables, at := ReadCounts(b, 4);
      registers := registers.(testPulseCount := testPulseCount, injectCount := counts, injectEnable := enables);
      next := startByte + at;
    }

    method ReadVoltage(m: array<bv8>, startByte: nat) returns (next: nat)
      requires Valid() && startByte + 10 <= m.Length
      modifies this`registers
      ensures Valid() && registers == DecodeVoltage(m[startByte..startByte + 10], old(registers))
      ensures next == startByte + 10
    {
      hide Bits, Nibble, Word16;
      var b, at := m[startByte..startByte + 10], 0;
      var power := b[at];
      at := at + 1;
      var hvTarget := Word16(b[at], b[at + 1]);
      at := at + 2;
      var hvActual := Word16(b[at], b[at + 1]);
      at := at + 2;
      var width := Nibble(b[at]);
      at := at + 1;
      var low := b[at];
      at := at + 1;
      var dac := b[at];
      at := at + 1;
      var range := b[at];
      at := at + 1;
      var board := b[at];
      at := at + 1;
      registers := registers.(
        tripPowerOff := Bits(power, 0x3F, 0), hvManual := Bits(power, 0x40, 6), hvEnabled := Bits(power, 0x80, 7),
        hvTarget := hvTarget, hvActual := hvActual, hvControl := 0, afterPulseExtendedWidth := width,
        injectDACValue := Word16(low, Nibble(dac)), injectDACMode := Bits(dac, 0x30, 4),
        injectDACDone := Bits(dac, 0x40, 6), injectDACStart := Bits(dac, 0x80, 7), injectRange := Bits(range, 0x0F, 0),
        injectPhase := Bits(range, 0xF0, 4), boardID := Bits(board, 0x0F, 0), hvNumAve := Bits(board, 0x70, 4),
        previewEnable := Bits(board, 0x80, 7));
      next := startByte + at;
    }

    method ReadPeriod(m: array<bv8>, startByte: nat) returns (next: nat)
      requires Valid() && startByte + 10 <= m.Length
      modifies this`registers
      ensures Valid() && registers == DecodePeriod(m[startByte..startByte + 10], old(registers))
      ensures next == startByte + 10
    {
      hide SixBits, Word16;
      var b, at := m[startByte..startByte + 10], 0;
      var firmware := b[at];
      at := at + 1;
      var manual := Word16(b[at], b[at + 1]);
      at := at + 2;
      var automatic := Word16(b[at], b[at + 1]);
      at := at + 2;
      var pulseWidth := b[at];
      at := at + 1;
      var temperature := Word16(b[at], b[at + 1]);
      at := at + 2;
      var threshold := b[at];
      at := at + 1;
      var encoding := SixBits(b[at]);
      at := at + 1;
      registers := registers.(
        firmwareVersion := firmware, hvPeriodManual := manual, hvPeriodAuto := automatic, hvPulseWidth := pulseWidth,
        temperature := temperature, tripXThresh := threshold, tripXCompEnc := encoding);
      next := startByte + at;
    }

    method ReadMask(m: array<bv8>, startByte: nat) returns (next: nat)
      requires Valid() && startByte + 12 <= m.Length
      modifies this`registers
      ensures Valid() && registers == DecodeMask(m[startByte..startByte + 12], old(registers)) && next == startByte + 12
    {
      hide Word16, Word32;
      var b := m[startByte..startByte + 12];
      var masks, at := ReadMasks(b);
      var stamp := Word32(b[at], b[at + 1], b[at + 2], b[at + 3]);
      registers, next := registers.(discrimEnableMask := masks, gateTimeStamp := stamp), startByte + at + 4;
    }

    method ReadRegisters(m: array<bv8>)
      requires Valid() && m.Length >= FRAME_SIZE
      modifies this`registers
      ensures Valid() && registers == Decode(m[DATA..DATA + REGISTER_BYTES], old(registers))
    {
      hide DecodeTiming, DecodeInject, DecodeVoltage, DecodePeriod, DecodeMask, Registers.Valid;
      var startByte := ReadTiming(m, DATA);
      startByte := ReadInject(m, startByte);
      startByte := ReadVoltage(m, startByte);
      startByte := ReadPeriod(m, startByte);
      startByte := ReadMask(m, startByte);
      Stretches(m[..]);
    }

    /** The length the frame declares, high byte first. */
    ghost function DeclaredLength(m: seq<bv8>): nat
      requires |m| >= 2
    {
      m[0] as nat * 256 + m[1] as nat
    }

    /** `DecodeRegisterValues`: nothing changes unless the length and the header are right. */
    method DecodeRegisterValues() returns (outcome: Outcome)
      requires Valid() && receivedMessage != null && receivedMessage.Length >= 2
      requires receivedMessage.Length >= DeclaredLength(receivedMessage[..])
      modifies this`registers
      ensures var m := receivedMessage[..];
              outcome == if DeclaredLength(m) != FRAME_SIZE then WrongLength
                         else if StatusIsZero(m, 0) then HeaderRejected else Decoded
      ensures Valid()
      ensures registers ==
              if outcome == Decoded then Decode(receivedMessage[DATA..DATA + REGISTER_BYTES], old(registers))
              else old(registers)
    {
      hide Decode, Registers.Valid;
      var m := receivedMessage;
      var length := m[0] as nat * 256 + m[1] as nat;
      if length != FRAME_SIZE { return WrongLength; }
      if m[DEVICE_STATUS] == 0 || m[FRAME_STATUS] == 0 { return HeaderRejected; }
      ReadRegisters(m);
      outcome := Decoded;
    }
  }

  lemma Stretches<T>(m: seq<T>)
    requires |m| >= FRAME_SIZE
    ensures var p := m[DATA..DATA + REGISTER_BYTES];
            && p[..12] == m[19..31] && p[12..22] == m[31..41] && p[22..32] == m[41..51] && p[32..42] == m[51..61]
            && p[42..] == m[61..73]
  {
  }

  /** The loop over the injection counters. */
  method ReadCounts(b: seq<bv8>, from: nat) returns (counts: seq<bv8>, enables: seq<bv8>, at: nat)
    requires |b| == 10 && from == 4
    ensures counts == DecodeCounts(b) && enables == DecodeEnables(b) && at == from + 6
  {
    hide SevenBits, TopBit;
    counts, enables, at := [], [], from;
    for tmp := 0 to 6
      invariant |counts| == tmp == |enables| && at == from + tmp
      invariant forall k | 0 <= k < tmp :: counts[k] == SevenBits(b[from + k]) && enables[k] == TopBit(b[from + k])
    {
      counts, enables := counts + [SevenBits(b[at])], enables + [TopBit(b[at])];
      at := at + 1;
    }
    SixOf(counts);
    SixOf(enables);
  }

  /** The loop over the enable masks. */
  method ReadMasks(b: seq<bv8>) returns (masks: seq<bv16>, at: nat)
    requires |b| == 12
    ensures masks == [Word16(b[0], b[1]), Word16(b[2], b[3]), Word16(b[4], b[5]), Word16(b[6], b[7])] && at == 8
  {
    hide Word16;
    masks, at := [], 0;
    for i := 0 to 4
      invariant |masks| == i && at == 2 * i
      invariant forall k | 0 <= k < i :: masks[k] == Word16(b[2 * k], b[2 * k + 1])
    {
      masks, at := masks + [Word16(b[at], b[at + 1])], at + 2;
    }
    FourOf(masks);
    assert masks[0] == Word16(b[2 * 0], b[2 * 0 + 1]) && masks[1] == Word16(b[2 * 1], b[2 * 1 + 1]);
    assert masks[2] == Word16(b[2 * 2], b[2 * 2 + 1]) && masks[3] == Word16(b[2 * 3], b[2 * 3 + 1]);
  }

  method Put(message: array<bv8>, at: nat, b: bv8)
    requires at < message.Length
    modifies message
    ensures message[..at + 1] == old(message[..at]) + [b]
  {
    message[at] := b;
  }

  method Put16(message: array<bv8>, at: nat, w: bv16)
    requires at + 1 < message.Length
    modifies message
    ensures message[..at + 2] == old(message[..at]) + [Low16(w), High16(w)]
  {
    message[at] := (w & 0xFF) as bv8;
    message[at + 1] := ((w >> 8) & 0xFF) as bv8;
  }

  method Put32(message: array<bv8>, at: nat, w: bv32)
    requires at + 3 < message.Length
    modifies message
    ensures message[..at + 4] == old(message[..at]) + [Byte32(w, 0), Byte32(w, 1), Byte32(w, 2), Byte32(w, 3)]
  {
    message[at] := (w & 0xFF) as bv8;
    message[at + 1] := ((w >> 8) & 0xFF) as bv8;
    message[at + 2] := ((w >> 16) & 0xFF) as bv8;
    message[at + 3] := ((w >> 24) & 0xFF) as bv8;
  }

  lemma JoinTiming<T>(s: seq<T>, t0: T, t1: T, t2: T, t3: T, t4: T, t5: T, t6: T, t7: T, t8: T, t9: T, t10: T, t11: T)
    ensures s + [t0, t1, t2, t3] + [t4, t5] + [t6, t7] + [t8] + [t9] + [t10] + [t11]
         == s + [t0, t1, t2, t3, t4, t5, t6, t7, t8, t9, t10, t11]
  {
  }

  lemma JoinVoltage<T>(s: seq<T>, t0: T, t1: T, t2: T, t3: T, t4: T, t5: T, t6: T, t7: T, t8: T, t9: T)
    ensures s + [t0] + [t1, t2] + [t3, t4] + [t5] + [t6] + [t7] + [t8] + [t9]
         == s + [t0, t1, t2, t3, t4, t5, t6, t7, t8, t9]
  {
  }

  lemma JoinPeriod<T>(s: seq<T>, t0: T, t1: T, t2: T, t3: T, t4: T, t5: T, t6: T, t7: T, t8: T, t9: T)
    ensures s + [t0] + [t1, t2] + [t3, t4] + [t5] + [t6, t7] + [t8] + [t9]
         == s + [t0, t1, t2, t3, t4, t5, t6, t7, t8, t9]
  {
  }

  lemma JoinMask<T>(s: seq<T>, t0: T, t1: T, t2: T, t3: T, t4: T, t5: T, t6: T, t7: T, t8: T, t9: T, t10: T, t11: T)
    ensures s + [t0, t1] + [t2, t3] + [t4, t5] + [t6, t7] + [t8, t9, t10, t11]
         == s + [t0, t1, t2, t3, t4, t5, t6, t7, t8, t9, t10, t11]
  {
  }

  lemma OneMore<T>(s: seq<T>, t: seq<T>, n: nat)
    requires n < |t|
    ensures s + t[..n] + [t[n]] == s + t[..n + 1]
  {
  }

  lemma InjectStart(r: Registers)
    requires r.Valid()
    ensures InjectImage(r)[..4]
         == [Byte32(r.testPulseCount, 0), Byte32(r.testPulseCount, 1), Byte32(r.testPulseCount, 2),
             Byte32(r.testPulseCount, 3)]
    ensures InjectImage(r)[..10] == InjectImage(r)
  {
    hide Byte32, InjectByte;
  }

  lemma InjectAt(r: Registers, i: nat, b: bv8)
    requires r.Valid() && i < 6 && b == (r.injectCount[i] & 0x7F) | ((r.injectEnable[i] & 0x01) << 7)
    ensures InjectImage(r)[4 + i] == b == InjectByte(r.injectCount[i], r.injectEnable[i])
  {
  }
}
