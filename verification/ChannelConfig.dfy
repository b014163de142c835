/** The configuration of the readout channels: boards, registers, and the crates that hold them. */
module ChannelConfig {
  const MAX_FEBS := 10
  const CHANNELS_PER_ECROC := 4
  const NFEBS_MASK: bv16 := 0x000F
  const FIRMWARE_MASK: bv16 := 0x03C0
  const UNUSED_MASK: bv16 := 0x0400

  // ----- the configuration register -----

  function SetBits(v: bv16, m: bv16): bv16 { v | m }

  function ClearBits(v: bv16, m: bv16): bv16 { v & !m }

  function Common(v: bv16, m: bv16): bv16 { v & m }

  predicate HasBits(v: bv16, m: bv16) { Common(v, m) != 0 }

  /** The one-bit fields of the register. */
  datatype Field = Sequencer | MemoryType | HitMode | NumberOfHits | ClockMonPhaseSel | EnableTestPulse
    | EnableChannelReset

  function Mask(f: Field): bv16 {
    match f
    case Sequencer => 0x8000
    case MemoryType => 0x4000
    case HitMode => 0x2000
    case NumberOfHits => 0x1000
    case ClockMonPhaseSel => 0x0800
    case EnableTestPulse => 0x0020
    case EnableChannelReset => 0x0010
  }

  /** A setter of the register: it sets or clears one field. */
  datatype Setting = Setting(field: Field, on: bool)

  function Applied(s: Setting, v: bv16): bv16 {
    if s.on then SetBits(v, Mask(s.field)) else ClearBits(v, Mask(s.field))
  }

  /** Setters one after the other. */
  function AppliedAll(settings: seq<Setting>, v: bv16): bv16 {
    if settings == [] then v
    else Applied(settings[|settings| - 1], AppliedAll(settings[..|settings| - 1], v))
  }

  /** What the settings make of a field: the last one that touches it decides. */
  function FieldAfter(settings: seq<Setting>, f: Field, before: bool): bool {
    if settings == [] then before
    else
      var last := settings[|settings| - 1];
      if last.field == f then last.on else FieldAfter(settings[..|settings| - 1], f, before)
  }

  predicate FieldOf(v: bv16, f: Field) {
    HasBits(v, Mask(f))
  }

  /** Everything else in the register: the board count, the firmware and the unused bit. */
  predicate SameElsewhere(v: bv16, w: bv16) {
    && Common(v, NFEBS_MASK) == Common(w, NFEBS_MASK) && Common(v, FIRMWARE_MASK) == Common(w, FIRMWARE_MASK)
    && Common(v, UNUSED_MASK) == Common(w, UNUSED_MASK)
  }

  lemma SetOrCleared(v: bv16, m: bv16)
    ensures HasBits(m, m) ==> HasBits(SetBits(v, m), m)
    ensures !HasBits(ClearBits(v, m), m)
  {
  }

  lemma OtherBits(v: bv16, m: bv16, k: bv16)
    requires !HasBits(m, k)
    ensures Common(SetBits(v, m), k) == Common(v, k) && Common(ClearBits(v, m), k) == Common(v, k)
    ensures HasBits(SetBits(v, m), k) == HasBits(v, k) && HasBits(ClearBits(v, m), k) == HasBits(v, k)
  {
    hide SetBits, ClearBits, Common;
    OtherBitsSet(v, m, k);
    OtherBitsCleared(v, m, k);
  }

  lemma OtherBitsSet(v: bv16, m: bv16, k: bv16)
    requires Common(m, k) == 0
    ensures Common(SetBits(v, m), k) == Common(v, k)
  {
    assert (v | m) & k == (v & k) | (m & k);
  }

  lemma OtherBitsCleared(v: bv16, m: bv16, k: bv16)
    requires Common(m, k) == 0
    ensures Common(ClearBits(v, m), k) == Common(v, k)
  {
    assert (v & !m) & k == v & k & !(m & k);
  }

  lemma MasksApart(f: Field, g: Field)
    ensures HasBits(Mask(f), Mask(g)) == (f == g)
    ensures !HasBits(Mask(f), NFEBS_MASK) && !HasBits(Mask(f), FIRMWARE_MASK) && !HasBits(Mask(f), UNUSED_MASK)
  {
  }

  /** A setter changes its own field and nothing else. */
  lemma AppliedIsLocal(s: Setting, v: bv16, f: Field)
    ensures FieldOf(Applied(s, v), f) == if s.field == f then s.on else FieldOf(v, f)
    ensures SameElsewhere(Applied(s, v), v)
  {
    hide Mask, SetBits, ClearBits, Common, HasBits;
    var m := Mask(s.field);
    MasksApart(s.field, f);
    SetOrCleared(v, m);
    if s.field != f { OtherBits(v, m, Mask(f)); }
    OtherBits(v, m, NFEBS_MASK);
    OtherBits(v, m, FIRMWARE_MASK);
    OtherBits(v, m, UNUSED_MASK);
  }

  /**
    After any sequence of settings every field is as its last setting left it; the rest of the register is as
    it was.
   */
  lemma {:induction false} SettingsAreLocal(settings: seq<Setting>, v: bv16, f: Field)
    ensures FieldOf(AppliedAll(settings, v), f) == FieldAfter(settings, f, FieldOf(v, f))
    ensures SameElsewhere(AppliedAll(settings, v), v)
  {
    hide Applied, FieldOf, Common;
    if settings != [] {
      var k := |settings| - 1;
      SettingsAreLocal(settings[..k], v, f);
      AppliedIsLocal(settings[k], AppliedAll(settings[..k], v), f);
    }
  }

  /** The fields and the rest make up the register. */
  lemma RegisterIsItsFields(v: bv16, w: bv16)
    requires SameElsewhere(v, w) && forall f: Field :: FieldOf(v, f) == FieldOf(w, f)
    ensures v == w
  {
    hide SameElsewhere, HasBits;
    assert FieldOf(v, Sequencer) == FieldOf(w, Sequencer) && FieldOf(v, MemoryType) == FieldOf(w, MemoryType);
    assert FieldOf(v, HitMode) == FieldOf(w, HitMode) && FieldOf(v, NumberOfHits) == FieldOf(w, NumberOfHits);
    assert FieldOf(v, ClockMonPhaseSel) == FieldOf(w, ClockMonPhaseSel);
    assert FieldOf(v, EnableTestPulse) == FieldOf(w, EnableTestPulse);
    assert FieldOf(v, EnableChannelReset) == FieldOf(w, EnableChannelReset);
    BitsMakeWord(v, w);
  }

  lemma BitsMakeWord(v: bv16, w: bv16)
    requires HasBits(v, 0x8000) == HasBits(w, 0x8000) && HasBits(v, 0x4000) == HasBits(w, 0x4000)
    requires HasBits(v, 0x2000) == HasBits(w, 0x2000) && HasBits(v, 0x1000) == HasBits(w, 0x1000)
    requires HasBits(v, 0x0800) == HasBits(w, 0x0800) && HasBits(v, 0x0020) == HasBits(w, 0x0020)
    requires HasBits(v, 0x0010) == HasBits(w, 0x0010) && SameElsewhere(v, w)
    ensures v == w
  {
  }

  function WithNFEBs(v: bv16, n: bv16): bv16 {
    SetBits(ClearBits(v, NFEBS_MASK), Common(n, NFEBS_MASK))
  }

  /** Setting the board count leaves every other bit alone, and up to 15 boards fit. */
  lemma NFEBsIsLocal(v: bv16, n: bv16)
    ensures ClearBits(WithNFEBs(v, n), NFEBS_MASK) == ClearBits(v, NFEBS_MASK)
    ensures n < 16 ==> Common(WithNFEBs(v, n), NFEBS_MASK) == n
  {
  }

  class EChannelsConfigRegParser {
    var registerValue: bv16

    constructor (value: bv16)
      ensures registerValue == value
    {
      registerValue := value;
    }

    /** The setters. */
    method Set(s: Setting)
      modifies this
      ensures registerValue == Applied(s, old(registerValue))
    {
      hide SetBits, ClearBits;
      var mask: bv16;
      match s.field {
        case Sequencer => mask := 1 << 15;
        case MemoryType => mask := 1 << 14;
        case HitMode => mask := 1 << 13;
        case NumberOfHits => mask := 1 << 12;
        case ClockMonPhaseSel => mask := 1 << 11;
        case EnableTestPulse => mask := 1 << 5;
        case EnableChannelReset => mask := 1 << 4;
      }
      registerValue := if s.on then SetBits(registerValue, mask) else ClearBits(registerValue, mask);
    }

    method SetNFEBs(nfebs: bv16)
      modifies this
      ensures registerValue == WithNFEBs(old(registerValue), nfebs)
    {
      hide SetBits, ClearBits, Common;
      var n := Common(nfebs, NFEBS_MASK);
      registerValue := ClearBits(registerValue, NFEBS_MASK);
      registerValue := SetBits(registerValue, n);
    }
  }

  // ----- configuration calls -----

  datatype Call = EnableSequencerReadout | DisableSequencerReadout | UseFourBitHitEncoding | UseFiveBitHitEncoding
    | UseSinglePipelineReadout | UseFullPipelineReadout | ConfigureForStandardDataTaking

  /** The setters each call runs, in order. */
  function SettingsOf(call: Call): seq<Setting> {
    match call
    case EnableSequencerReadout => [Setting(Sequencer, true)]
    case DisableSequencerReadout => [Setting(Sequencer, false)]
    case UseFourBitHitEncoding => [Setting(NumberOfHits, false)]
    case UseFiveBitHitEncoding => [Setting(NumberOfHits, true)]
    case UseSinglePipelineReadout => [Setting(HitMode, true)]
    case UseFullPipelineReadout => [Setting(HitMode, false)]
    case ConfigureForStandardDataTaking =>
      [Setting(Sequencer, true), Setting(NumberOfHits, true), Setting(HitMode, false), Setting(EnableTestPulse, false),
       Setting(EnableChannelReset, false)]
  }

  /** The register after a sequence of calls. */
  function AfterCalls(calls: seq<Call>, v: bv16): bv16 {
    if calls == [] then v else AppliedAll(SettingsOf(calls[|calls| - 1]), AfterCalls(calls[..|calls| - 1], v))
  }

  /** No sequence of configuration calls touches the board count or the firmware, the memory type or the clock phase. */
  lemma {:induction false} CallsKeepBoardCount(calls: seq<Call>, v: bv16)
    ensures SameElsewhere(AfterCalls(calls, v), v)
    ensures FieldOf(AfterCalls(calls, v), MemoryType) == FieldOf(v, MemoryType)
    ensures FieldOf(AfterCalls(calls, v), ClockMonPhaseSel) == FieldOf(v, ClockMonPhaseSel)
  {
    hide FieldOf, AppliedAll, Common;
    if calls != [] {
      var k := |calls| - 1;
      CallsKeepBoardCount(calls[..k], v);
      var w, settings := AfterCalls(calls[..k], v), SettingsOf(calls[k]);
      SettingsAreLocal(settings, w, MemoryType);
      SettingsAreLocal(settings, w, ClockMonPhaseSel);
      Untouched(calls[k], MemoryType, FieldOf(w, MemoryType));
      Untouched(calls[k], ClockMonPhaseSel, FieldOf(w, ClockMonPhaseSel));
    }
  }

  // ----- the register in numbers -----

  /** The bits beside a field. */
  function Others(f: Field): bv16 {
    match f
    case Sequencer => 0x7FFF
    case MemoryType => 0xBFFF
    case HitMode => 0xDFFF
    case NumberOfHits => 0xEFFF
    case ClockMonPhaseSel => 0xF7FF
    case EnableTestPulse => 0xFFDF
    case EnableChannelReset => 0xFFEF
  }

  lemma OthersAre(f: Field)
    ensures !Mask(f) == Others(f)
  {
  }

  /** A setter sets the bit of its field, or masks it away. */
  lemma SetterIs(f: Field, v: bv16)
    ensures Applied(Setting(f, true), v) == SetBits(v, Mask(f))
    ensures Applied(Setting(f, false), v) == Common(v, Others(f))
  {
    OthersAre(f);
    hide Mask, Others;
  }

  /** In numbers. */
  lemma SettersAre(v: bv16)
    ensures Applied(Setting(Sequencer, true), v) == SetBits(v, 0x8000)
    ensures Applied(Setting(Sequencer, false), v) == Common(v, 0x7FFF)
    ensures Applied(Setting(MemoryType, true), v) == SetBits(v, 0x4000)
    ensures Applied(Setting(MemoryType, false), v) == Common(v, 0xBFFF)
    ensures Applied(Setting(HitMode, true), v) == SetBits(v, 0x2000)
    ensures Applied(Setting(HitMode, false), v) == Common(v, 0xDFFF)
    ensures Applied(Setting(NumberOfHits, true), v) == SetBits(v, 0x1000)
    ensures Applied(Setting(NumberOfHits, false), v) == Common(v, 0xEFFF)
    ensures Applied(Setting(ClockMonPhaseSel, true), v) == SetBits(v, 0x0800)
    ensures Applied(Setting(ClockMonPhaseSel, false), v) == Common(v, 0xF7FF)
    ensures Applied(Setting(EnableTestPulse, true), v) == SetBits(v, 0x0020)
    ensures Applied(Setting(EnableTestPulse, false), v) == Common(v, 0xFFDF)
    ensures Applied(Setting(EnableChannelReset, true), v) == SetBits(v, 0x0010)
    ensures Applied(Setting(EnableChannelReset, false), v) == Common(v, 0xFFEF)
  {
    hide Applied, SetBits, Common;
    SetterIs(Sequencer, v);
    SetterIs(MemoryType, v);
    SetterIs(HitMode, v);
    SetterIs(NumberOfHits, v);
    SetterIs(ClockMonPhaseSel, v);
    SetterIs(EnableTestPulse, v);
    SetterIs(EnableChannelReset, v);
  }

  lemma NFEBsAre(v: bv16, n: bv16)
    ensures WithNFEBs(v, n) == (v & 0xFFF0) | (n & 0x000F)
  {
  }

  /** The register after a configuration call. */
  function Register(call: Call, v: bv16): bv16 {
    match call
    case EnableSequencerReadout => SetBits(v, 0x8000)
    case DisableSequencerReadout => Common(v, 0x7FFF)
    case UseFourBitHitEncoding => Common(v, 0xEFFF)
    case UseFiveBitHitEncoding => SetBits(v, 0x1000)
    case UseSinglePipelineReadout => SetBits(v, 0x2000)
    case UseFullPipelineReadout => Common(v, 0xDFFF)
    case ConfigureForStandardDataTaking => SetBits(Common(v, 0xDFCF), 0x9000)
  }

  // what the setters of each call make of a register, in numbers

  lemma SequencerIsEnabled(v: bv16)
    ensures AppliedAll(SettingsOf(EnableSequencerReadout), v) == v | 0x8000
  {
    hide AppliedAll, SettingsOf;
    CallIs(EnableSequencerReadout, v);
  }

  lemma SequencerIsDisabled(v: bv16)
    ensures AppliedAll(SettingsOf(DisableSequencerReadout), v) == v & 0x7FFF
  {
    hide AppliedAll, SettingsOf;
    CallIs(DisableSequencerReadout, v);
  }

  lemma FourBitsAreUsed(v: bv16)
    ensures AppliedAll(SettingsOf(UseFourBitHitEncoding), v) == v & 0xEFFF
  {
    hide AppliedAll, SettingsOf;
    CallIs(UseFourBitHitEncoding, v);
  }

  lemma FiveBitsAreUsed(v: bv16)
    ensures AppliedAll(SettingsOf(UseFiveBitHitEncoding), v) == v | 0x1000
  {
    hide AppliedAll, SettingsOf;
    CallIs(UseFiveBitHitEncoding, v);
  }

  lemma PipelineIsSingle(v: bv16)
    ensures AppliedAll(SettingsOf(UseSinglePipelineReadout), v) == v | 0x2000
  {
    hide AppliedAll, SettingsOf;
    CallIs(UseSinglePipelineReadout, v);
  }

  lemma PipelineIsFull(v: bv16)
    ensures AppliedAll(SettingsOf(UseFullPipelineReadout), v) == v & 0xDFFF
  {
    hide AppliedAll, SettingsOf;
    CallIs(UseFullPipelineReadout, v);
  }

  lemma StandardDataTaking(v: bv16)
    ensures AppliedAll(SettingsOf(ConfigureForStandardDataTaking), v) == (v & 0xDFCF) | 0x9000
  {
    hide AppliedAll, SettingsOf;
    CallIs(ConfigureForStandardDataTaking, v);
  }

  lemma CallIs(call: Call, v: bv16)
    ensures AppliedAll(SettingsOf(call), v) == Register(call, v)
  {
    hide Applied, AppliedAll, SetBits, Common;
    if call == ConfigureForStandardDataTaking {
      hide SettingsOf;
      FiveSetters(v);
      FiveMasks(v);
    } else {
      OneSetterIs(call, v);
    }
  }

  lemma OneSetterIs(call: Call, v: bv16)
    requires call != ConfigureForStandardDataTaking
    ensures AppliedAll(SettingsOf(call), v) == Register(call, v)
  {
    hide Applied, AppliedAll, SetBits, Common;
    match call
    case EnableSequencerReadout => OneField(Sequencer, true, v);
    case DisableSequencerReadout => OneField(Sequencer, false, v);
    case UseFourBitHitEncoding => OneField(NumberOfHits, false, v);
    case UseFiveBitHitEncoding => OneField(NumberOfHits, true, v);
    case UseSinglePipelineReadout => OneField(HitMode, true, v);
    case UseFullPipelineReadout => OneField(HitMode, false, v);
  }

  lemma OneField(f: Field, on: bool, v: bv16)
    ensures AppliedAll([Setting(f, on)], v) == if on then SetBits(v, Mask(f)) else Common(v, Others(f))
  {
    hide Applied, AppliedAll, SetBits, Common, Mask, Others;
    SetterIs(f, v);
    OneSetter(Setting(f, on), v);
  }

  lemma OneSetter(s: Setting, v: bv16)
    ensures AppliedAll([s], v) == Applied(s, v)
  {
    hide Applied;
    assert [s][..0] == [];
    assert AppliedAll([], v) == v;
  }

  lemma LastSetter(before: seq<Setting>, s: Setting, v: bv16)
    ensures AppliedAll(before + [s], v) == Applied(s, AppliedAll(before, v))
  {
    hide Applied;
    assert (before + [s])[..|before|] == before;
  }

  lemma FiveSetters(v: bv16)
    ensures AppliedAll(SettingsOf(ConfigureForStandardDataTaking), v)
         == Common(Common(Common(SetBits(SetBits(v, 0x8000), 0x1000), 0xDFFF), 0xFFDF), 0xFFEF)
  {
    hide Applied, AppliedAll, SettingsOf, SetBits, Common;
    FiveInOrder(v);
    var v1 := SetBits(v, 0x8000);
    var v2 := SetBits(v1, 0x1000);
    var v3 := Common(v2, 0xDFFF);
    SettersAre(v);
    SettersAre(v1);
    SettersAre(v2);
    SettersAre(v3);
    SettersAre(Common(v3, 0xFFDF));
  }

  lemma FiveInOrder(v: bv16)
    ensures AppliedAll(SettingsOf(ConfigureForStandardDataTaking), v)
         == Applied(Setting(EnableChannelReset, false), Applied(Setting(EnableTestPulse, false),
              Applied(Setting(HitMode, false),
                      Applied(Setting(NumberOfHits, true), Applied(Setting(Sequencer, true), v)))))
  {
    hide Applied, AppliedAll;
    var s1, s2 := [Setting(Sequencer, true)], [Setting(Sequencer, true), Setting(NumberOfHits, true)];
    var s3 := s2 + [Setting(HitMode, false)];
    var s4 := s3 + [Setting(EnableTestPulse, false)];
    assert s2 == s1 + [Setting(NumberOfHits, true)];
    assert SettingsOf(ConfigureForStandardDataTaking) == s4 + [Setting(EnableChannelReset, false)];
    OneSetter(Setting(Sequencer, true), v);
    LastSetter(s1, Setting(NumberOfHits, true), v);
    LastSetter(s2, Setting(HitMode, false), v);
    LastSetter(s3, Setting(EnableTestPulse, false), v);
    LastSetter(s4, Setting(EnableChannelReset, false), v);
  }

  lemma FiveMasks(v: bv16)
    ensures Common(Common(Common(SetBits(SetBits(v, 0x8000), 0x1000), 0xDFFF), 0xFFDF), 0xFFEF)
         == SetBits(Common(v, 0xDFCF), 0x9000)
  {
  }

  lemma Untouched(call: Call, f: Field, before: bool)
    requires f == MemoryType || f == ClockMonPhaseSel
    ensures FieldAfter(SettingsOf(call), f, before) == before
  {
    var s := SettingsOf(call);
    if call == ConfigureForStandardDataTaking {
      assert s[..4] == [s[0], s[1], s[2], s[3]] && s[..3] == [s[0], s[1], s[2]];
      assert s[..2] == [s[0], s[1]] && s[..1] == [s[0]];
      FieldAfterLast(s, f, before);
      FieldAfterLast(s[..4], f, before);
      FieldAfterLast(s[..3], f, before);
      FieldAfterLast(s[..2], f, before);
      assert s[..4][..3] == s[..3] && s[..3][..2] == s[..2] && s[..2][..1] == s[..1];
    }
  }

  lemma FieldAfterLast(settings: seq<Setting>, f: Field, before: bool)
    requires settings != [] && settings[|settings| - 1].field != f
    ensures FieldAfter(settings, f, before) == FieldAfter(settings[..|settings| - 1], f, before)
  {
  }
}
