/** Where every register stands in the 54 bytes of the image, bit by bit. */
module FpgaLayout {
  import opened FpgaFrame

  lemma Placed(r: Registers)
    requires r.Valid()
    ensures var m := Image(r);
            && m[..12] == TimingImage(r) && m[12..22] == InjectImage(r) && m[22..32] == VoltageImage(r)
            && m[32..42] == PeriodImage(r) && m[42..] == MaskImage(r)
  {
    hide TimingImage, InjectImage, VoltageImage, PeriodImage, MaskImage;
  }

  lemma At<T>(m: seq<T>, from: nat, to: nat, part: seq<T>, k: nat)
    requires from <= to <= |m| && m[from..to] == part && k < |part|
    ensures m[from + k] == part[k]
  {
  }

  /** Bytes 0 to 3: the timer. */
  lemma TimerLayout(r: Registers)
    requires r.Valid()
    ensures var m := Image(r);
            && m[0] == ((r.timer >> 0) & 0xFF) as bv8 && m[1] == ((r.timer >> 8) & 0xFF) as bv8
            && m[2] == ((r.timer >> 16) & 0xFF) as bv8 && m[3] == ((r.timer >> 24) & 0xFF) as bv8
  {
    hide Image;
    Placed(r);
    var m, part := Image(r), TimingImage(r);
    assert m[0..12] == m[..12];
    At(m, 0, 12, part, 0);
    At(m, 0, 12, part, 1);
    At(m, 0, 12, part, 2);
    At(m, 0, 12, part, 3);
  }

  /** Bytes 4 to 8 and 10: the gate, the low part of the phase total, the phase count. */
  lemma GateLayout(r: Registers)
    requires r.Valid()
    ensures var m := Image(r);
            && m[4] == (r.gateStart & 0xFF) as bv8 && m[5] == ((r.gateStart >> 8) & 0xFF) as bv8
            && m[6] == (r.gateLength & 0xFF) as bv8 && m[7] == ((r.gateLength >> 8) & 0xFF) as bv8
            && m[8] == (r.dcm2PhaseTotal & 0xFF) as bv8 && m[10] == r.phaseCount
  {
    hide Image;
    Placed(r);
    var m, part := Image(r), TimingImage(r);
    assert m[0..12] == m[..12];
    At(m, 0, 12, part, 4);
    At(m, 0, 12, part, 5);
    At(m, 0, 12, part, 6);
    At(m, 0, 12, part, 7);
    At(m, 0, 12, part, 8);
    At(m, 0, 12, part, 10);
  }

  /** Byte 9: the ninth bit of the phase total, five flags and the second test pulse. */
  lemma PhaseLayout(r: Registers)
    requires r.Valid()
    ensures var m := Image(r);
            && (m[9] & 0x01 != 0 <==> r.dcm2PhaseTotal & 0x100 != 0)
            && (m[9] & 0x02 != 0 <==> r.dcm2PhaseDone & 0x01 != 0)
            && (m[9] & 0x04 != 0 <==> r.dcm1NoClock & 0x01 != 0) && (m[9] & 0x08 != 0 <==> r.dcm2NoClock & 0x01 != 0)
            && (m[9] & 0x10 != 0 <==> r.dcm1Lock & 0x01 != 0) && (m[9] & 0x20 != 0 <==> r.dcm2Lock & 0x01 != 0)
            && m[9] >> 6 == r.testPulse2Bit & 0x03
  {
    hide Image;
    Placed(r);
    var m, part := Image(r), TimingImage(r);
    assert m[0..12] == m[..12];
    At(m, 0, 12, part, 9);
  }

  /** Byte 11: eight flags. */
  lemma StatusLayout(r: Registers)
    requires r.Valid()
    ensures var m := Image(r);
            && (m[11] & 0x01 != 0 <==> r.extTriggerFound & 0x01 != 0)
            && (m[11] & 0x02 != 0 <==> r.extTriggerRearm & 0x01 != 0)
            && (m[11] & 0x04 != 0 <==> r.statusSCMDUnknown & 0x01 != 0)
            && (m[11] & 0x08 != 0 <==> r.statusFCMDUnknown & 0x01 != 0)
            && (m[11] & 0x10 != 0 <==> r.phaseIncrement & 0x01 != 0)
            && (m[11] & 0x20 != 0 <==> r.phaseStart & 0x01 != 0)
            && (m[11] & 0x40 != 0 <==> r.statusRXLock & 0x01 != 0)
            && (m[11] & 0x80 != 0 <==> r.statusTXSyncLock & 0x01 != 0)
  {
    hide Image;
    Placed(r);
    var m, part := Image(r), TimingImage(r);
    assert m[0..12] == m[..12];
    At(m, 0, 12, part, 11);
  }

  /** Bytes 12 to 15: the test pulse count. */
  lemma TestPulseLayout(r: Registers)
    requires r.Valid()
    ensures var m := Image(r);
            && m[12] == ((r.testPulseCount >> 0) & 0xFF) as bv8 && m[13] == ((r.testPulseCount >> 8) & 0xFF) as bv8
            && m[14] == ((r.testPulseCount >> 16) & 0xFF) as bv8 && m[15] == ((r.testPulseCount >> 24) & 0xFF) as bv8
  {
    hide Image;
    Placed(r);
    var m, part := Image(r), InjectImage(r);
    At(m, 12, 22, part, 0);
    At(m, 12, 22, part, 1);
    At(m, 12, 22, part, 2);
    At(m, 12, 22, part, 3);
  }

  /** Byte 22: the power of the chips and two flags of the high voltage. */
  lemma PowerLayout(r: Registers)
    requires r.Valid()
    ensures var m := Image(r);
            && m[22] & 0x3F == r.tripPowerOff & 0x3F && (m[22] & 0x40 != 0 <==> r.hvManual & 0x01 != 0)
            && (m[22] & 0x80 != 0 <==> r.hvEnabled & 0x01 != 0)
  {
    hide Image;
    Placed(r);
    var m, part := Image(r), VoltageImage(r);
    At(m, 22, 32, part, 0);
  }

  /** Bytes 23 to 28: the high voltage, the pulse width and the low part of the injection value. */
  lemma VoltageLayout(r: Registers)
    requires r.Valid()
    ensures var m := Image(r);
            && m[23] == (r.hvTarget & 0xFF) as bv8 && m[24] == ((r.hvTarget >> 8) & 0xFF) as bv8
            && m[25] == (r.hvActual & 0xFF) as bv8 && m[26] == ((r.hvActual >> 8) & 0xFF) as bv8
            && m[27] == r.afterPulseExtendedWidth & 0x0F && m[28] == (r.injectDACValue & 0xFF) as bv8
  {
    hide Image;
    Placed(r);
    var m, part := Image(r), VoltageImage(r);
    At(m, 22, 32, part, 1);
    At(m, 22, 32, part, 2);
    At(m, 22, 32, part, 3);
    At(m, 22, 32, part, 4);
    At(m, 22, 32, part, 5);
    At(m, 22, 32, part, 6);
  }

  /** Byte 29: the high part of the injection value, its mode and two flags. */
  lemma DacLayout(r: Registers)
    requires r.Valid()
    ensures var m := Image(r);
            && m[29] & 0x0F == ((r.injectDACValue >> 8) & 0x0F) as bv8
            && (m[29] >> 4) & 0x03 == r.injectDACMode & 0x03 && (m[29] & 0x40 != 0 <==> r.injectDACDone & 0x01 != 0)
            && (m[29] & 0x80 != 0 <==> r.injectDACStart & 0x01 != 0)
  {
    hide Image;
    Placed(r);
    var m, part := Image(r), VoltageImage(r);
    At(m, 22, 32, part, 7);
  }

  /** Bytes 30 and 31: range and phase of the injection, the board, the averaging and the preview. */
  lemma BoardLayout(r: Registers)
    requires r.Valid()
    ensures var m := Image(r);
            && m[30] & 0x0F == r.injectRange & 0x0F && m[30] >> 4 == r.injectPhase & 0x0F
            && m[31] & 0x0F == r.boardID & 0x0F && (m[31] >> 4) & 0x07 == r.hvNumAve & 0x07
            && (m[31] & 0x80 != 0 <==> r.previewEnable & 0x01 != 0)
  {
    hide Image;
    Placed(r);
    var m, part := Image(r), VoltageImage(r);
    At(m, 22, 32, part, 8);
    At(m, 22, 32, part, 9);
  }

  /** Bytes 32 to 41: the firmware, the periods, the temperature and the chips. */
  lemma PeriodLayout(r: Registers)
    requires r.Valid()
    ensures var m := Image(r);
            && m[32] == r.firmwareVersion && m[33] == (r.hvPeriodManual & 0xFF) as bv8
            && m[34] == ((r.hvPeriodManual >> 8) & 0xFF) as bv8 && m[35] == (r.hvPeriodAuto & 0xFF) as bv8
            && m[36] == ((r.hvPeriodAuto >> 8) & 0xFF) as bv8 && m[37] == r.hvPulseWidth
            && m[38] == (r.temperature & 0xFF) as bv8 && m[39] == ((r.temperature >> 8) & 0xFF) as bv8
            && m[40] == r.tripXThresh && m[41] == r.tripXCompEnc & 0x3F
  {
    hide Image;
    Placed(r);
    var m, part := Image(r), PeriodImage(r);
    At(m, 32, 42, part, 0);
    At(m, 32, 42, part, 1);
    At(m, 32, 42, part, 2);
    At(m, 32, 42, part, 3);
    At(m, 32, 42, part, 4);
    At(m, 32, 42, part, 5);
    At(m, 32, 42, part, 6);
    At(m, 32, 42, part, 7);
    At(m, 32, 42, part, 8);
    At(m, 32, 42, part, 9);
  }

  /** Bytes 50 to 53: the time stamp. */
  lemma StampLayout(r: Registers)
    requires r.Valid()
    ensures var m := Image(r);
            && m[50] == ((r.gateTimeStamp >> 0) & 0xFF) as bv8 && m[51] == ((r.gateTimeStamp >> 8) & 0xFF) as bv8
            && m[52] == ((r.gateTimeStamp >> 16) & 0xFF) as bv8 && m[53] == ((r.gateTimeStamp >> 24) & 0xFF) as bv8
  {
    hide Image;
    Placed(r);
    var m, part := Image(r), MaskImage(r);
    assert m[42..54] == m[42..];
    At(m, 42, 54, part, 8);
    At(m, 42, 54, part, 9);
    At(m, 42, 54, part, 10);
    At(m, 42, 54, part, 11);
  }

  /** Bytes 16 to 21: the six injection counters with their enable bits. */
  lemma InjectLayout(r: Registers, k: nat)
    requires r.Valid() && k < 6
    ensures var b := Image(r)[16 + k]; b & 0x7F == r.injectCount[k] & 0x7F && b >> 7 == r.injectEnable[k] & 0x01
  {
    hide Image, Byte32;
    Placed(r);
    At(Image(r), 12, 22, InjectImage(r), 4 + k);
    InjectBits(r.injectCount[k], r.injectEnable[k]);
    hide InjectByte;
    assert InjectImage(r)[4 + k] == InjectByte(r.injectCount[k], r.injectEnable[k]);
  }

  lemma InjectBits(count: bv8, enable: bv8)
    ensures InjectByte(count, enable) & 0x7F == count & 0x7F && InjectByte(count, enable) >> 7 == enable & 0x01
  {
  }

  /** Bytes 42 to 49: the four discriminator masks. */
  lemma MaskLayout(r: Registers, k: nat)
    requires r.Valid() && k < 4
    ensures Image(r)[42 + 2 * k] == (r.discrimEnableMask[k] & 0xFF) as bv8
    ensures Image(r)[43 + 2 * k] == ((r.discrimEnableMask[k] >> 8) & 0xFF) as bv8
  {
    hide Image, MaskImage, Low16, High16;
    Placed(r);
    var m := Image(r);
    assert m[42..54] == m[42..];
    At(m, 42, 54, MaskImage(r), 2 * k);
    At(m, 42, 54, MaskImage(r), 2 * k + 1);
    MaskPart(r, k);
    Halves(r.discrimEnableMask[k]);
  }

  lemma MaskPart(r: Registers, k: nat)
    requires r.Valid() && k < 4
    ensures MaskImage(r)[2 * k] == Low16(r.discrimEnableMask[k])
    ensures MaskImage(r)[2 * k + 1] == High16(r.discrimEnableMask[k])
  {
    hide Low16, High16, Byte32;
  }

  lemma Halves(w: bv16)
    ensures Low16(w) == (w & 0xFF) as bv8 && High16(w) == ((w >> 8) & 0xFF) as bv8
  {
  }
}
