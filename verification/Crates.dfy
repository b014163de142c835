/** Channels, the modules that hold four of them, and the crates that hold the modules. */
module Crates {
  import opened ChannelConfig
  import DaqStream
  import opened Outcomes

  /** What the bus does with one access; a board that answers tells its firmware. */
  datatype Reply = Reply(status: Status, firmware: bv8)

  class Bus {
    const script: nat -> Reply
    var asked: nat

    constructor (s: nat -> Reply)
      ensures script == s
    {
      script, asked := s, 0;
    }

    method Access() returns (status: Status, firmware: bv8)
      modifies this`asked
      ensures asked == old(asked) + 1
      ensures status == script(old(asked)).status && firmware == script(old(asked)).firmware
    {
      var reply := script(asked);
      asked := asked + 1;
      status, firmware := reply.status, reply.firmware;
    }
  }

  /** The boards of a channel have the addresses 1, 2, 3 and so on. */
  predicate InOrder(boards: seq<nat>) {
    forall k | 0 <= k < |boards| :: boards[k] == k + 1
  }

  /** The addresses a search for `n` boards goes through. */
  function Addresses(n: nat): (a: seq<nat>)
    ensures |a| == n && InOrder(a)
  {
    seq(n, k => k + 1)
  }

  /** The next `n` accesses succeed and are answered by boards of one firmware other than 0. */
  predicate BoardsAgree(script: nat -> Reply, from: nat, n: nat) {
    forall i | from <= i < from + n ::
      script(i).status.Normal? && script(i).firmware == script(from).firmware && script(i).firmware != 0
  }

  /** That is: all of them answer normally, with one and the same firmware, which is not 0. */
  lemma BoardsAgreeIff(script: nat -> Reply, from: nat, n: nat)
    ensures BoardsAgree(script, from, n) <==>
            n == 0 || exists f: bv8 :: f != 0 && forall i | from <= i < from + n :: script(i) == Reply(Normal, f)
  {
    if n > 0 && BoardsAgree(script, from, n) {
      var f := script(from).firmware;
      forall i | from <= i < from + n ensures script(i) == Reply(Normal, f) {
        assert script(i).status.Normal? && script(i).firmware == f;
      }
      assert f != 0;
    }
  }

  /**
    The accesses from `from` to `to` went well; or the last one failed, those before it went well, and
    that is how the call came back.
   */
  predicate Told(script: nat -> Reply, from: nat, to: nat, status: Status) {
    if status.Normal? then from <= to && forall k | from <= k < to :: script(k).status.Normal?
    else from < to && script(to - 1).status == status && forall k | from <= k < to - 1 :: script(k).status.Normal?
  }

  lemma ToldOn(script: nat -> Reply, from: nat, mid: nat, to: nat, status: Status)
    requires Told(script, from, mid, Normal) && Told(script, mid, to, status)
    ensures Told(script, from, to, status)
  {
  }

  lemma ToldNothing(script: nat -> Reply, from: nat)
    ensures Told(script, from, from, Normal)
  {
  }

  /** What is read, found and written for a channel that is to have `n` boards succeeds. */
  predicate ChannelAnswers(script: nat -> Reply, from: nat, n: nat) {
    n == 0 || (script(from).status.Normal? && BoardsAgree(script, from + 1, n)
               && script(from + 1 + n).status.Normal? && script(from + 2 + n).status.Normal?)
  }

  function Accesses(n: nat): nat {
    if n == 0 then 0 else n + 3
  }

  predicate ChannelsAnswer(script: nat -> Reply, from: nat, counts: seq<nat>)
    decreases |counts|
  {
    counts == [] || (ChannelAnswers(script, from, counts[0])
                     && ChannelsAnswer(script, from + Accesses(counts[0]), counts[1..]))
  }

  class EChannels {
    const channelNumber: nat
    const bus: Bus
    var frontEndBoards: seq<nat>
    /** The configuration register of the device. */
    var configuration: bv16

    /** Board at index k has address k + 1, there are 1 to 10 of them, and the register says how many. */
    ghost predicate Ready()
      reads this
    {
      && 1 <= |frontEndBoards| <= MAX_FEBS && InOrder(frontEndBoards)
      && Common(configuration, NFEBS_MASK) == |frontEndBoards| as bv16
    }

    constructor (number: nat, b: Bus, register: bv16)
      ensures channelNumber == number && bus == b && frontEndBoards == [] && configuration == register
    {
      channelNumber, bus, frontEndBoards, configuration := number, b, [], register;
    }

    method GetChannelConfiguration() returns (status: Status, config: EChannelsConfigRegParser)
      modifies bus`asked
      ensures fresh(config) && config.registerValue == configuration
      ensures bus.asked == old(bus.asked) + 1 && status == bus.script(old(bus.asked)).status
    {
      var ignored;
      status, ignored := bus.Access();
      config := new EChannelsConfigRegParser(configuration);
    }

    method SetChannelConfiguration(config: EChannelsConfigRegParser) returns (status: Status)
      modifies this`configuration, bus`asked
      ensures configuration == if status.Normal? then config.registerValue else old(configuration)
      ensures bus.asked == old(bus.asked) + 1 && status == bus.script(old(bus.asked)).status
    {
      var ignored;
      status, ignored := bus.Access();
      if status.Normal? { configuration := config.registerValue; }
    }

    /** Read, modify, write: a call that fails leaves the register as it was. */
    method Configure(call: Call) returns (status: Status)
      modifies this`configuration, bus`asked
      ensures configuration == Configured(call, status.Normal?, old(configuration))
      ensures Told(bus.script, old(bus.asked), bus.asked, status) && bus.asked <= old(bus.asked) + 2
      ensures status.Normal? ==> bus.asked == old(bus.asked) + 2
    {
      hide SettingsOf, Applied;
      var config :- GetChannelConfiguration();
      var settings := SettingsOf(call);
      for i := 0 to |settings|
        invariant fresh(config) && configuration == old(configuration) && bus.asked == old(bus.asked) + 1
        invariant config.registerValue == AppliedAll(settings[..i], old(configuration))
      {
        config.Set(settings[i]);
        assert settings[..i + 1][..i] == settings[..i];
      }
      assert settings[..|settings|] == settings;
      status := SetChannelConfiguration(config);
    }

    /** Looks for the boards one after the other; all must be there and run the same firmware. */
    method FindBoards(nFEBs: nat) returns (status: Status, ghost found: nat)
      requires 1 <= nFEBs <= MAX_FEBS
      modifies this`frontEndBoards, bus`asked
      ensures found <= nFEBs && frontEndBoards == old(frontEndBoards) + Addresses(found)
      ensures status.Normal? <==> BoardsAgree(bus.script, old(bus.asked), nFEBs)
      ensures status.Normal? ==> found == nFEBs && bus.asked == old(bus.asked) + nFEBs
    {
      var febFirmware: bv8 := 0;
      found := 0;
      for i := 1 to nFEBs + 1
        invariant found == i - 1 && bus.asked == old(bus.asked) + i - 1
        invariant frontEndBoards == old(frontEndBoards) + Addresses(found)
        invariant BoardsAgree(bus.script, old(bus.asked), i - 1)
        invariant i > 1 ==> febFirmware == bus.script(old(bus.asked)).firmware
      {
        var available :- bus.Access();
        if i == 1 {
          febFirmware := available;
        } else if febFirmware != available {
          status := Thrown;
          return;
        }
        if 0 < febFirmware {
          frontEndBoards := frontEndBoards + [i];
          found := i;
          assert Addresses(i) == Addresses(i - 1) + [i];
        } else {
          status := Thrown;
          return;
        }
      }
      status := Normal;
    }

    /**
      Reads the register, looks for the boards, writes their number to the register and sets up the
      header data. It succeeds exactly when every access does and the boards agree. The boards found come
      behind those the channel already has, while the register is told the number found.
     */
    method SetupNFrontEndBoards(nFEBs: int) returns (status: Status)
      modifies this`frontEndBoards, this`configuration, bus`asked
      ensures !(0 < nFEBs <= MAX_FEBS) ==>
                && status == (if nFEBs == 0 then Normal else Thrown)
                && frontEndBoards == old(frontEndBoards) && configuration == old(configuration)
      ensures 0 < nFEBs <= MAX_FEBS ==>
                var a := old(bus.asked);
                (status.Normal? <==>
                  && bus.script(a).status.Normal? && BoardsAgree(bus.script, a + 1, nFEBs)
                  && bus.script(a + 1 + nFEBs).status.Normal? && bus.script(a + 2 + nFEBs).status.Normal?)
      ensures status.Normal? ==> 0 <= nFEBs && bus.asked == old(bus.asked) + Accesses(nFEBs)
      ensures 0 < nFEBs <= MAX_FEBS && status.Normal? ==>
                && frontEndBoards == old(frontEndBoards) + Addresses(nFEBs)
                && configuration == WithCount(old(configuration), nFEBs)
      ensures 0 < nFEBs <= MAX_FEBS && status.Normal? && old(frontEndBoards) == [] ==>
                Ready() && |frontEndBoards| == nFEBs
    {
      hide WithNFEBs, BoardsAgree, WithCount, Common;
      if nFEBs < 0 || nFEBs > MAX_FEBS { return Thrown; }
      if nFEBs == 0 { return Normal; }
      var config :- GetChannelConfiguration();
      ghost var found;
      found :- FindBoards(nFEBs);
      config.SetNFEBs(nFEBs as bv16);
      :- SetChannelConfiguration(config);
      CountIsSet(old(configuration), nFEBs);
      var header :- bus.Access();
      status := Normal;
    }
  }

  /** The register with the board count `n`. */
  function WithCount(v: bv16, n: nat): bv16
    requires n <= MAX_FEBS
  {
    (v & 0xFFF0) | n as bv16
  }

  lemma CountIsSet(v: bv16, n: nat)
    requires n <= MAX_FEBS
    ensures WithNFEBs(v, n as bv16) == WithCount(v, n)
    ensures Common(WithNFEBs(v, n as bv16), NFEBS_MASK) == n as bv16
  {
    hide WithNFEBs, Common;
    SmallCount(n as bv16);
    NFEBsAre(v, n as bv16);
    NFEBsIsLocal(v, n as bv16);
  }

  lemma SmallCount(n: bv16)
    requires n <= 10
    ensures n < 16 && n & 0x000F == n
  {
  }

  lemma ReadyBoards(c: EChannels)
    requires c.Ready()
    ensures forall j | 0 <= j < |c.frontEndBoards| :: c.frontEndBoards[j] == j + 1
  {
    hide Common;
  }

  predicate Distinct(channels: seq<EChannels>) {
    forall i, j | 0 <= i < j < |channels| :: channels[i] != channels[j]
  }

  /** The channels that have boards. */
  ghost function NonEmpty(channels: seq<EChannels>): (cs: seq<EChannels>)
    reads channels
  {
    if channels == [] then []
    else
      var k := |channels| - 1;
      NonEmpty(channels[..k]) + if channels[k].frontEndBoards != [] then [channels[k]] else []
  }

  lemma {:induction false} NonEmptyMembers(channels: seq<EChannels>)
    ensures forall c | c in NonEmpty(channels) :: c in channels && c.frontEndBoards != []
  {
    if channels != [] { NonEmptyMembers(channels[..|channels| - 1]); }
  }

  lemma {:induction false} NonEmptyHas(channels: seq<EChannels>, k: nat)
    requires k < |channels| && channels[k].frontEndBoards != []
    ensures channels[k] in NonEmpty(channels)
  {
    var n := |channels| - 1;
    if k < n {
      NonEmptyHas(channels[..n], k);
      assert channels[..n][k] == channels[k];
    }
  }

  lemma {:induction false} NonEmptyDistinct(channels: seq<EChannels>)
    requires Distinct(channels)
    ensures Distinct(NonEmpty(channels))
  {
    if channels != [] {
      var k := |channels| - 1;
      NonEmptyDistinct(channels[..k]);
      NonEmptyMembers(channels[..k]);
      assert channels[k] !in channels[..k];
    }
  }

  class ECROC {
    const bus: Bus
    var ecrocChannels: seq<EChannels>

    /** Four channels, made but not initialized. The registers hold whatever the devices hold. */
    constructor (b: Bus, registers: seq<bv16>)
      requires |registers| == CHANNELS_PER_ECROC
      ensures bus == b && |ecrocChannels| == CHANNELS_PER_ECROC && Distinct(ecrocChannels)
      ensures forall k | 0 <= k < CHANNELS_PER_ECROC ::
                && fresh(ecrocChannels[k]) && ecrocChannels[k].bus == b && ecrocChannels[k].channelNumber == k
                && ecrocChannels[k].frontEndBoards == [] && ecrocChannels[k].configuration == registers[k]
    {
      bus := b;
      ecrocChannels := [];
      new;
      for i := 0 to CHANNELS_PER_ECROC
        invariant |ecrocChannels| == i && Distinct(ecrocChannels)
        invariant forall k | 0 <= k < i ::
                    && fresh(ecrocChannels[k]) && ecrocChannels[k].bus == b && ecrocChannels[k].channelNumber == k
                    && ecrocChannels[k].frontEndBoards == [] && ecrocChannels[k].configuration == registers[k]
      {
        var tmp := new EChannels(i, b, registers[i]);
        ecrocChannels := ecrocChannels + [tmp];
      }
    }

    /** Removes the channels without boards and keeps the others in order. */
    method ClearEmptyChannels()
      modifies this
      ensures ecrocChannels == NonEmpty(old(ecrocChannels))
    {
      var tempChannels: seq<EChannels> := [];
      for i := 0 to |ecrocChannels|
        invariant ecrocChannels == old(ecrocChannels) && tempChannels == NonEmpty(ecrocChannels[..i])
      {
        assert ecrocChannels[..i + 1][..i] == ecrocChannels[..i];
        if |ecrocChannels[i].frontEndBoards| > 0 {
          tempChannels := tempChannels + [ecrocChannels[i]];
        }
      }
      assert ecrocChannels[..|ecrocChannels|] == old(ecrocChannels);
      ecrocChannels := [];
      for i := 0 to |tempChannels|
        invariant ecrocChannels == tempChannels[..i]
      {
        ecrocChannels := ecrocChannels + [tempChannels[i]];
      }
    }

    /** Calls every channel in turn. When a call fails, the channels after it keep their registers. */
    method ConfigureInTurn(call: Call) returns (status: Status, ghost done: nat)
      requires Distinct(ecrocChannels) && forall c | c in ecrocChannels :: c.bus == bus
      modifies ecrocChannels, bus
      ensures done <= |ecrocChannels| && (status.Normal? <==> done == |ecrocChannels|)
      ensures Told(bus.script, old(bus.asked), bus.asked, status)
      ensures if status.Normal? then bus.asked == old(bus.asked) + 2 * |ecrocChannels|
              else bus.asked <= old(bus.asked) + 2 * |ecrocChannels|
      ensures forall k | 0 <= k < |ecrocChannels| ::
                && ecrocChannels[k].frontEndBoards == old(ecrocChannels[k].frontEndBoards)
                && ecrocChannels[k].configuration == Configured(call, k < done, old(ecrocChannels[k].configuration))
    {
      hide AppliedAll, SettingsOf, Told;
      done, status := 0, Normal;
      ToldNothing(bus.script, bus.asked);
      for i := 0 to |ecrocChannels|
        invariant done == i && status.Normal? && bus.asked == old(bus.asked) + 2 * i
        invariant Told(bus.script, old(bus.asked), bus.asked, Normal)
        invariant forall k | 0 <= k < |ecrocChannels| ::
                    && ecrocChannels[k].frontEndBoards == old(ecrocChannels[k].frontEndBoards)
                    && ecrocChannels[k].configuration == Configured(call, k < i, old(ecrocChannels[k].configuration))
      {
        ghost var mid := bus.asked;
        status := ecrocChannels[i].Configure(call);
        ToldOn(bus.script, old(bus.asked), mid, bus.asked, status);
        if !status.Normal? { return; }
        done := done + 1;
      }
    }

    method Configure(call: Call) returns (status: Status)
      requires Distinct(ecrocChannels) && forall c | c in ecrocChannels :: c.bus == bus
      modifies ecrocChannels, bus
      ensures forall c | c in ecrocChannels :: Kept(c) && (status.Normal? ==> Called(c, call))
      ensures Told(bus.script, old(bus.asked), bus.asked, status)
      ensures if status.Normal? then bus.asked == old(bus.asked) + 2 * |ecrocChannels|
              else bus.asked <= old(bus.asked) + 2 * |ecrocChannels|
    {
      hide Common, AppliedAll, SettingsOf, SameElsewhere, Told;
      ghost var done;
      status, done := ConfigureInTurn(call);
      forall c | c in ecrocChannels ensures Kept(c) && (status.Normal? ==> Called(c, call)) {
        var k :| 0 <= k < |ecrocChannels| && ecrocChannels[k] == c;
        ConfiguredElsewhere(call, k < done, old(c.configuration));
      }
    }

    /** One access of every channel: `ClearAndResetStatusRegisters` and `ResetEventCounter`. */
    method AccessChannels() returns (status: Status)
      modifies bus`asked
      ensures Told(bus.script, old(bus.asked), bus.asked, status)
      ensures if status.Normal? then bus.asked == old(bus.asked) + |ecrocChannels|
              else bus.asked <= old(bus.asked) + |ecrocChannels|
    {
      status := Normal;
      for i := 0 to |ecrocChannels|
        invariant status.Normal? && bus.asked == old(bus.asked) + i
        invariant Told(bus.script, old(bus.asked), bus.asked, Normal)
      {
        var ignored :- bus.Access();
      }
    }

    /**
      `InitializeRegisters`: the timing register, the reset and test pulse register, and the delay
      register, read and written once for its enable bit and once for its value. A mode that is none
      ends the process.
     */
    method InitializeRegisters(mode: DaqStream.Mode) returns (status: Status)
      modifies bus`asked
      ensures !mode.OtherMode? ==> Told(bus.script, old(bus.asked), bus.asked, status)
      ensures status.Normal? ==> bus.asked == old(bus.asked) + 6
      ensures mode.OtherMode? ==> !status.Normal?
      ensures mode.OtherMode? && (forall k :: bus.script(k).status.Normal?) ==> status.Exited?
    {
      var timing :- bus.Access();
      var testPulse :- bus.Access();
      if mode.OtherMode? { return Exited; }
      var enableRead :- bus.Access();
      var enableWritten :- bus.Access();
      var delayRead :- bus.Access();
      var delayWritten :- bus.Access();
      status := Normal;
    }

    /** `Initialize`: the sequencer is enabled on every channel unless something fails. */
    method Initialize(mode: DaqStream.Mode) returns (status: Status)
      requires Distinct(ecrocChannels) && forall c | c in ecrocChannels :: c.bus == bus
      modifies ecrocChannels, bus
      ensures forall c | c in ecrocChannels :: Kept(c) && (status.Normal? ==> Called(c, EnableSequencerReadout))
      ensures mode.OtherMode? ==> !status.Normal?
      ensures !mode.OtherMode? ==> Told(bus.script, old(bus.asked), bus.asked, status)
      ensures status.Normal? ==> bus.asked == old(bus.asked) + 3 * |ecrocChannels| + 6
    {
      hide Common, AppliedAll, SettingsOf, SameElsewhere, Distinct, Told;
      SameElsewhereAsItself();
      ghost var script, from := bus.script, bus.asked;
      status := AccessChannels();
      if !status.Normal? { return; }
      ghost var mid := bus.asked;
      status := Configure(EnableSequencerReadout);
      ToldOn(script, from, mid, bus.asked, status);
      if !status.Normal? { return; }
      mid := bus.asked;
      status := InitializeRegisters(mode);
      if !mode.OtherMode? { ToldOn(script, from, mid, bus.asked, status); }
    }
  }

  /** A call changed neither the boards of the channel nor the board count in its register. */
  twostate predicate Kept(c: EChannels)
    reads c
  {
    c.frontEndBoards == old(c.frontEndBoards) && SameElsewhere(c.configuration, old(c.configuration))
  }

  /** The settings of the call have been written to the register of the channel. */
  twostate predicate Called(c: EChannels, call: Call)
    reads c
  {
    c.configuration == AppliedAll(SettingsOf(call), old(c.configuration))
  }

  twostate lemma KeptReady(c: EChannels)
    requires Kept(c) && old(c.Ready())
    ensures c.Ready()
  {
    hide Common;
  }

  lemma ConfiguredElsewhere(call: Call, applied: bool, v: bv16)
    ensures SameElsewhere(Configured(call, applied, v), v)
  {
    hide Common;
    SettingsAreLocal(SettingsOf(call), v, Sequencer);
  }

  function Configured(call: Call, applied: bool, v: bv16): bv16 {
    if applied then AppliedAll(SettingsOf(call), v) else v
  }

  // ----- crates -----

  /** `AddECROC` takes an impossible number of boards for none. */
  function Clamp(n: int): (c: nat)
    ensures c <= MAX_FEBS
  {
    if n < 0 || n > MAX_FEBS then 0 else n
  }

  function Clamped(ns: seq<int>): (cs: seq<nat>)
    ensures |cs| == |ns|
    ensures forall k | 0 <= k < |ns| :: cs[k] == (if 0 <= ns[k] <= 10 then ns[k] else 0) <= MAX_FEBS
  {
    seq(|ns|, k requires 0 <= k < |ns| => Clamp(ns[k]))
  }

  function NonZero(ns: seq<nat>): seq<nat> {
    if ns == [] then []
    else NonZero(ns[..|ns| - 1]) + if ns[|ns| - 1] > 0 then [ns[|ns| - 1]] else []
  }

  ghost function BoardCounts(channels: seq<EChannels>): (ns: seq<nat>)
    reads channels
    ensures |ns| == |channels|
  {
    if channels == [] then []
    else BoardCounts(channels[..|channels| - 1]) + [|channels[|channels| - 1].frontEndBoards|]
  }

  lemma {:induction false} BoardCountsAre(channels: seq<EChannels>, ns: seq<nat>)
    requires |ns| == |channels| && forall k | 0 <= k < |ns| :: ns[k] == |channels[k].frontEndBoards|
    ensures BoardCounts(channels) == ns
  {
    if ns != [] {
      BoardCountsAre(channels[..|ns| - 1], ns[..|ns| - 1]);
      assert ns == ns[..|ns| - 1] + [ns[|ns| - 1]];
    }
  }

  lemma CountsAppend(channels: seq<EChannels>, c: EChannels, ns: seq<nat>, n: nat)
    ensures BoardCounts(channels + [c]) == BoardCounts(channels) + [|c.frontEndBoards|]
    ensures NonZero(ns + [n]) == NonZero(ns) + if n > 0 then [n] else []
  {
    assert (channels + [c])[..|channels|] == channels && (ns + [n])[..|ns|] == ns;
  }

  lemma {:induction false} NonEmptyCounts(channels: seq<EChannels>)
    ensures BoardCounts(NonEmpty(channels)) == NonZero(BoardCounts(channels))
  {
    if channels != [] {
      hide BoardCounts, NonZero;
      var k := |channels| - 1;
      var before, c := channels[..k], channels[k];
      NonEmptyCounts(before);
      CountsAppend(before, c, BoardCounts(before), |c.frontEndBoards|);
      var kept := NonEmpty(before);
      CountsAppend(kept, c, [], 0);
      assert channels == before + [c] && kept + [] == kept;
      assert NonZero(BoardCounts(before)) + [] == NonZero(BoardCounts(before));
    } else {
      assert BoardCounts([]) == [];
    }
  }

  ghost predicate ModuleReady(e: ECROC, bus: Bus)
    reads e, e.ecrocChannels
  {
    e.bus == bus && Distinct(e.ecrocChannels) && forall c | c in e.ecrocChannels :: c.bus == bus && c.Ready()
  }

  /** The accesses that set up a module from `from` on: four resets, four registers read and written, the boards. */
  predicate ModuleAnswers(script: nat -> Reply, from: nat, counts: seq<nat>) {
    Told(script, from, from + 12, Normal) && ChannelsAnswer(script, from + 12, counts)
  }

  lemma FailsEarly(script: nat -> Reply, from: nat, to: nat, status: Status, counts: seq<nat>)
    requires Told(script, from, to, status) && !status.Normal? && to <= from + 12
    ensures !ModuleAnswers(script, from, counts)
  {
  }

  lemma ChannelsAnswerNext(script: nat -> Reply, from: nat, counts: seq<nat>, i: nat)
    requires i < |counts|
    ensures ChannelsAnswer(script, from, counts[i..]) <==>
            && ChannelAnswers(script, from, counts[i])
            && ChannelsAnswer(script, from + Accesses(counts[i]), counts[i + 1..])
  {
    hide ChannelAnswers;
    assert counts[i..][1..] == counts[i + 1..];
  }

  /**
    The register of a channel that has been set up with `n` boards: no sequencer, and the board count if
    there is one.
   */
  function SetUp(v: bv16, n: nat): bv16
    requires n <= MAX_FEBS
  {
    if n == 0 then Register(DisableSequencerReadout, v) else WithCount(Register(DisableSequencerReadout, v), n)
  }

  lemma SetUpIs(v: bv16, n: nat)
    requires 1 <= n <= MAX_FEBS
    ensures SetUp(v, n) == (v & 0x7FF0) | n as bv16
  {
    SetUpMask(v);
  }

  lemma SetUpMask(v: bv16)
    ensures (v & 0x7FFF) & 0xFFF0 == v & 0x7FF0
  {
  }

  /** A channel as it was made. */
  ghost predicate Untouched(c: EChannels, bus: Bus, k: nat, register: bv16)
    reads c
  {
    c.bus == bus && c.channelNumber == k && c.frontEndBoards == [] && c.configuration == register
  }

  /** A channel that has been set up with `n` boards. */
  ghost predicate IsSetUp(c: EChannels, bus: Bus, k: nat, register: bv16, n: nat)
    requires n <= MAX_FEBS
    reads c
  {
    && c.bus == bus && c.channelNumber == k && |c.frontEndBoards| == n && c.configuration == SetUp(register, n)
    && (n > 0 ==> c.Ready())
  }

  /** The first two calls of `AddECROC` on a fresh module. */
  method ResetModule(e: ECROC, ghost registers: seq<bv16>) returns (status: Status)
    requires |registers| == CHANNELS_PER_ECROC == |e.ecrocChannels| && Distinct(e.ecrocChannels)
    requires forall k | 0 <= k < CHANNELS_PER_ECROC :: Untouched(e.ecrocChannels[k], e.bus, k, registers[k])
    modifies e.ecrocChannels, e.bus
    ensures Told(e.bus.script, old(e.bus.asked), e.bus.asked, status) && e.bus.asked <= old(e.bus.asked) + 12
    ensures status.Normal? ==> e.bus.asked == old(e.bus.asked) + 12
    ensures status.Normal? ==> forall k | 0 <= k < CHANNELS_PER_ECROC ::
              Untouched(e.ecrocChannels[k], e.bus, k, Register(DisableSequencerReadout, registers[k]))
  {
    hide Common, AppliedAll, SettingsOf, SameElsewhere, Told, Register, Distinct;
    ghost var script, from := e.bus.script, e.bus.asked;
    forall c | c in e.ecrocChannels ensures c.bus == e.bus {
      var k :| 0 <= k < CHANNELS_PER_ECROC && e.ecrocChannels[k] == c;
      assert Untouched(e.ecrocChannels[k], e.bus, k, registers[k]);
    }
    status := e.AccessChannels();
    if !status.Normal? { return; }
    ghost var mid := e.bus.asked;
    label Cleared:
    status := e.Configure(DisableSequencerReadout);
    ToldOn(script, from, mid, e.bus.asked, status);
    if !status.Normal? { return; }
    forall k | 0 <= k < CHANNELS_PER_ECROC
      ensures Untouched(e.ecrocChannels[k], e.bus, k, Register(DisableSequencerReadout, registers[k]))
    {
      var c := e.ecrocChannels[k];
      assert old@Cleared(Untouched(e.ecrocChannels[k], e.bus, k, registers[k]));
      assert c in e.ecrocChannels && Kept@Cleared(c) && Called@Cleared(c, DisableSequencerReadout);
      CallIs(DisableSequencerReadout, registers[k]);
    }
  }

  /**
    What `AddECROC` does to a fresh module before it removes the empty channels. It succeeds exactly when
    every access does and the boards of every channel agree.
   */
  method SetUpModule(e: ECROC, counts: seq<nat>, ghost registers: seq<bv16>) returns (status: Status)
    requires |counts| == CHANNELS_PER_ECROC == |registers| == |e.ecrocChannels| && Distinct(e.ecrocChannels)
    requires forall k | 0 <= k < CHANNELS_PER_ECROC :: Untouched(e.ecrocChannels[k], e.bus, k, registers[k])
    requires forall k | 0 <= k < CHANNELS_PER_ECROC :: counts[k] <= MAX_FEBS
    modifies e.ecrocChannels, e.bus
    ensures status.Normal? <==> ModuleAnswers(e.bus.script, old(e.bus.asked), counts)
    ensures status.Normal? ==> forall k | 0 <= k < CHANNELS_PER_ECROC ::
              IsSetUp(e.ecrocChannels[k], e.bus, k, registers[k], counts[k])
  {
    hide Told, ChannelsAnswer, BoardsAgree, Register, WithCount, Common;
    ghost var script, from := e.bus.script, e.bus.asked;
    status := ResetModule(e, registers);
    if !status.Normal? {
      FailsEarly(script, from, e.bus.asked, status, counts);
      return;
    }
    assert counts[0..] == counts;
    for i := 0 to CHANNELS_PER_ECROC
      invariant status.Normal?
      invariant ModuleAnswers(script, from, counts) <==> ChannelsAnswer(script, e.bus.asked, counts[i..])
      invariant forall k | 0 <= k < i :: IsSetUp(e.ecrocChannels[k], e.bus, k, registers[k], counts[k])
      invariant forall k | i <= k < CHANNELS_PER_ECROC ::
                  Untouched(e.ecrocChannels[k], e.bus, k, Register(DisableSequencerReadout, registers[k]))
    {
      ChannelsAnswerNext(script, e.bus.asked, counts, i);
      status := e.ecrocChannels[i].SetupNFrontEndBoards(counts[i]);
      if !status.Normal? { return; }
    }
    NoMoreChannels(script, e.bus.asked, counts);
  }

  lemma NoMoreChannels(script: nat -> Reply, from: nat, counts: seq<nat>)
    ensures ChannelsAnswer(script, from, counts[|counts|..])
  {
  }

  /** The channels of a module that has been set up: exactly those that were to have boards, in order. */
  ghost predicate ChannelsSetUp(channels: seq<EChannels>, bus: Bus, counts: seq<nat>, registers: seq<bv16>)
    requires |counts| == CHANNELS_PER_ECROC == |registers|
    requires forall k | 0 <= k < CHANNELS_PER_ECROC :: counts[k] <= MAX_FEBS
    reads channels
  {
    && Distinct(channels) && BoardCounts(channels) == NonZero(counts)
    && (forall c | c in channels ::
          && c.channelNumber < CHANNELS_PER_ECROC && counts[c.channelNumber] > 0
          && IsSetUp(c, bus, c.channelNumber, registers[c.channelNumber], counts[c.channelNumber]))
    && (forall k | 0 <= k < CHANNELS_PER_ECROC && counts[k] > 0 ::
          exists c :: c in channels && c.channelNumber == k)
  }

  /** Removing the empty channels leaves a module that has been set up. */
  lemma NonEmptyIsSetUp(channels: seq<EChannels>, bus: Bus, counts: seq<nat>, registers: seq<bv16>)
    requires |counts| == CHANNELS_PER_ECROC == |registers| == |channels| && Distinct(channels)
    requires forall k | 0 <= k < CHANNELS_PER_ECROC :: counts[k] <= MAX_FEBS
    requires forall k | 0 <= k < CHANNELS_PER_ECROC :: IsSetUp(channels[k], bus, k, registers[k], counts[k])
    ensures ChannelsSetUp(NonEmpty(channels), bus, counts, registers)
    ensures forall c | c in NonEmpty(channels) :: c in channels
  {
    hide SetUp, EChannels.Ready, NonEmpty, BoardCounts, NonZero, Distinct;
    NonEmptyDistinct(channels);
    NonEmptyMembers(channels);
    NonEmptyCounts(channels);
    forall k | 0 <= k < CHANNELS_PER_ECROC ensures |channels[k].frontEndBoards| == counts[k] {
      assert IsSetUp(channels[k], bus, k, registers[k], counts[k]);
    }
    BoardCountsAre(channels, counts);
    forall c | c in NonEmpty(channels)
      ensures c.channelNumber < CHANNELS_PER_ECROC && counts[c.channelNumber] > 0
      ensures IsSetUp(c, bus, c.channelNumber, registers[c.channelNumber], counts[c.channelNumber])
    {
      var k :| 0 <= k < CHANNELS_PER_ECROC && channels[k] == c;
      assert IsSetUp(channels[k], bus, k, registers[k], counts[k]);
    }
    forall k | 0 <= k < CHANNELS_PER_ECROC && counts[k] > 0
      ensures exists c :: c in NonEmpty(channels) && c.channelNumber == k
    {
      assert IsSetUp(channels[k], bus, k, registers[k], counts[k]);
      NonEmptyHas(channels, k);
    }
  }

  lemma SetUpIsReady(e: ECROC, bus: Bus, counts: seq<nat>, registers: seq<bv16>)
    requires |counts| == CHANNELS_PER_ECROC == |registers|
    requires forall k | 0 <= k < CHANNELS_PER_ECROC :: counts[k] <= MAX_FEBS
    requires e.bus == bus && ChannelsSetUp(e.ecrocChannels, bus, counts, registers)
    ensures ModuleReady(e, bus)
  {
    hide SetUp, EChannels.Ready, BoardCounts, NonZero, Distinct;
  }

  /** A new module with its channels set up and the empty ones removed. */
  method MakeModule(bus: Bus, counts: seq<nat>, registers: seq<bv16>) returns (status: Status, e: ECROC)
    requires |counts| == CHANNELS_PER_ECROC == |registers|
    requires forall k | 0 <= k < CHANNELS_PER_ECROC :: counts[k] <= MAX_FEBS
    modifies bus
    ensures fresh(e) && forall c | c in e.ecrocChannels :: fresh(c)
    ensures status.Normal? <==> ModuleAnswers(bus.script, old(bus.asked), counts)
    ensures status.Normal? ==> ModuleReady(e, bus) && ChannelsSetUp(e.ecrocChannels, bus, counts, registers)
  {
    hide SetUp, EChannels.Ready, BoardCounts, NonZero, NonEmpty, ModuleAnswers, ChannelsSetUp, ModuleReady;
    e := new ECROC(bus, registers);
    ghost var all := e.ecrocChannels;
    assert forall c | c in all :: fresh(c);
    status := SetUpModule(e, counts, registers);
    if !status.Normal? { return; }
    e.ClearEmptyChannels();
    assert forall k | 0 <= k < CHANNELS_PER_ECROC :: IsSetUp(all[k], bus, k, registers[k], counts[k]);
    NonEmptyIsSetUp(all, bus, counts, registers);
    SetUpIsReady(e, bus, counts, registers);
  }

  /**
    The channels of a module in numbers: one for every count from 1 to 10, with the boards 1, 2, 3 and so on,
    the sequencer off and the count in the register of the device.
   */
  ghost predicate AsAsked(channels: seq<EChannels>, nFEBs: seq<int>, registers: seq<bv16>)
    requires |nFEBs| == CHANNELS_PER_ECROC == |registers|
    reads channels
  {
    && (forall c | c in channels ::
          && c.channelNumber < CHANNELS_PER_ECROC && 1 <= nFEBs[c.channelNumber] <= 10
          && |c.frontEndBoards| == nFEBs[c.channelNumber]
          && (forall j | 0 <= j < |c.frontEndBoards| :: c.frontEndBoards[j] == j + 1)
          && c.configuration == (registers[c.channelNumber] & 0x7FF0) | |c.frontEndBoards| as bv16)
    && (forall k | 0 <= k < CHANNELS_PER_ECROC && 1 <= nFEBs[k] <= 10 ::
          exists c :: c in channels && c.channelNumber == k)
  }

  lemma SetUpAsAsked(channels: seq<EChannels>, bus: Bus, nFEBs: seq<int>, registers: seq<bv16>)
    requires |nFEBs| == CHANNELS_PER_ECROC == |registers|
    requires ChannelsSetUp(channels, bus, Clamped(nFEBs), registers)
    ensures AsAsked(channels, nFEBs, registers)
  {
    hide SetUp, EChannels.Ready, BoardCounts, NonZero, Distinct;
    var counts := Clamped(nFEBs);
    forall c | c in channels
      ensures 1 <= nFEBs[c.channelNumber] <= 10 && |c.frontEndBoards| == nFEBs[c.channelNumber]
      ensures forall j | 0 <= j < |c.frontEndBoards| :: c.frontEndBoards[j] == j + 1
      ensures c.configuration == (registers[c.channelNumber] & 0x7FF0) | |c.frontEndBoards| as bv16
    {
      SetUpIs(registers[c.channelNumber], counts[c.channelNumber]);
      ReadyBoards(c);
    }
  }

  class VMECrate {
    const bus: Bus
    var ecrocs: seq<ECROC>
    /** The channels of all modules. */
    ghost var channels: set<EChannels>

    ghost predicate Valid()
      reads this, ecrocs, channels
    {
      && (forall i, c | 0 <= i < |ecrocs| && c in ecrocs[i].ecrocChannels :: c in channels)
      && (forall i | 0 <= i < |ecrocs| :: ModuleReady(ecrocs[i], bus))
      && (forall i, j, c | 0 <= i < j < |ecrocs| && c in ecrocs[i].ecrocChannels :: c !in ecrocs[j].ecrocChannels)
    }

    constructor (b: Bus)
      ensures Valid() && bus == b && ecrocs == []
    {
      bus, ecrocs, channels := b, [], {};
    }

    /**
      Adds a module with the channels that are to have boards; a count that is impossible is taken for none.
      When a board is missing, runs another firmware or a call fails, the crate is as it was.
     */
    method AddECROC(nFEBs: seq<int>, registers: seq<bv16>) returns (status: Status)
      requires Valid() && |nFEBs| == CHANNELS_PER_ECROC == |registers|
      modifies this`ecrocs, this`channels, bus
      ensures Valid()
      ensures status.Normal? <==> ModuleAnswers(bus.script, old(bus.asked), Clamped(nFEBs))
      ensures !status.Normal? ==> ecrocs == old(ecrocs)
      ensures status.Normal? ==>
                && |ecrocs| == |old(ecrocs)| + 1 && ecrocs[..|old(ecrocs)|] == old(ecrocs)
                && ChannelsSetUp(ecrocs[|old(ecrocs)|].ecrocChannels, bus, Clamped(nFEBs), registers)
      ensures status.Normal? ==> AsAsked(ecrocs[|old(ecrocs)|].ecrocChannels, nFEBs, registers)
    {
      hide ChannelsSetUp, AsAsked, EChannels.Ready, Distinct, ModuleAnswers;
      var counts := Clamped(nFEBs);
      var e;
      e :- MakeModule(bus, counts, registers);
      SetUpAsAsked(e.ecrocChannels, bus, nFEBs, registers);
      channels := channels + set c | c in e.ecrocChannels;
      ecrocs := ecrocs + [e];
      status := Normal;
    }

    /** Calls every channel of every module in turn. Whether or not a call fails, the crate stays valid. */
    method Configure(call: Call) returns (status: Status)
      requires Valid()
      modifies channels, bus
      ensures Valid()
      ensures forall i, c | 0 <= i < |ecrocs| && c in ecrocs[i].ecrocChannels ::
                Kept(c) && (status.Normal? ==> Called(c, call))
      ensures Told(bus.script, old(bus.asked), bus.asked, status)
      ensures status.Normal? ==> bus.asked == old(bus.asked) + 2 * ChannelCount(ecrocs, |ecrocs|)
    {
      hide Distinct, EChannels.Ready, SameElsewhere, AppliedAll, SettingsOf, Told, ChannelCount;
      status := Normal;
      CountNone(ecrocs);
      SameElsewhereAsItself();
      ToldNothing(bus.script, bus.asked);
      var i := 0;
      while i < |ecrocs| && status.Normal?
        invariant i <= |ecrocs| && Told(bus.script, old(bus.asked), bus.asked, status)
        invariant status.Normal? ==> bus.asked == old(bus.asked) + 2 * ChannelCount(ecrocs, i)
        invariant forall j, c | 0 <= j < i && c in ecrocs[j].ecrocChannels ::
                    Kept(c) && (status.Normal? ==> Called(c, call))
        invariant forall j, c | i <= j < |ecrocs| && c in ecrocs[j].ecrocChannels :: unchanged(c)
        decreases |ecrocs| - i
      {
        assert ModuleReady(ecrocs[i], bus);
        ghost var mid := bus.asked;
        CountNext(ecrocs, i);
        status := ecrocs[i].Configure(call);
        ToldOn(bus.script, old(bus.asked), mid, bus.asked, status);
        i := i + 1;
      }
      AllKept(this);
    }

    /** Initializes every module in turn; the channels up to the first failure have their sequencer enabled. */
    method InitializeModules(mode: DaqStream.Mode) returns (status: Status)
      requires Valid()
      modifies channels, bus
      ensures Valid()
      ensures forall i, c | 0 <= i < |ecrocs| && c in ecrocs[i].ecrocChannels ::
                Kept(c) && (status.Normal? ==> Called(c, EnableSequencerReadout))
      ensures mode.OtherMode? && ecrocs != [] ==> !status.Normal?
      ensures !mode.OtherMode? ==> Told(bus.script, old(bus.asked), bus.asked, status)
      ensures status.Normal? ==> bus.asked == old(bus.asked) + 3 * ChannelCount(ecrocs, |ecrocs|) + 6 * |ecrocs|
    {
      hide Distinct, EChannels.Ready, SameElsewhere, AppliedAll, SettingsOf, Told, ChannelCount;
      status := Normal;
      CountNone(ecrocs);
      SameElsewhereAsItself();
      ToldNothing(bus.script, bus.asked);
      var i := 0;
      while i < |ecrocs| && status.Normal?
        invariant i <= |ecrocs| && (mode.OtherMode? && i > 0 ==> !status.Normal?)
        invariant !mode.OtherMode? ==> Told(bus.script, old(bus.asked), bus.asked, status)
        invariant status.Normal? ==> bus.asked == old(bus.asked) + 3 * ChannelCount(ecrocs, i) + 6 * i
        invariant forall j, c | 0 <= j < i && c in ecrocs[j].ecrocChannels ::
                    Kept(c) && (status.Normal? ==> Called(c, EnableSequencerReadout))
        invariant forall j, c | i <= j < |ecrocs| && c in ecrocs[j].ecrocChannels :: unchanged(c)
        decreases |ecrocs| - i
      {
        assert ModuleReady(ecrocs[i], bus);
        ghost var mid := bus.asked;
        CountNext(ecrocs, i);
        status := ecrocs[i].Initialize(mode);
        if !mode.OtherMode? { ToldOn(bus.script, old(bus.asked), mid, bus.asked, status); }
        i := i + 1;
      }
      AllKept(this);
    }

    method ResetEventCounter() returns (status: Status)
      requires Valid()
      modifies bus`asked
      ensures Told(bus.script, old(bus.asked), bus.asked, status)
      ensures status.Normal? ==> bus.asked == old(bus.asked) + ChannelCount(ecrocs, |ecrocs|)
    {
      hide Distinct, EChannels.Ready, Told;
      status := Normal;
      ToldNothing(bus.script, bus.asked);
      for i := 0 to |ecrocs|
        invariant status.Normal? && Told(bus.script, old(bus.asked), bus.asked, Normal)
        invariant bus.asked == old(bus.asked) + ChannelCount(ecrocs, i)
      {
        assert ModuleReady(ecrocs[i], bus);
        ghost var mid := bus.asked;
        status := ecrocs[i].AccessChannels();
        ToldOn(bus.script, old(bus.asked), mid, bus.asked, status);
        if !status.Normal? { return; }
      }
    }

    /** `Initialize` without the triggers: the registers afterwards, and a valid crate even when an access fails. */
    method Initialize(mode: DaqStream.Mode) returns (status: Status)
      requires Valid()
      modifies channels, bus
      ensures Valid()
      ensures mode.OtherMode? && ecrocs != [] ==> !status.Normal?
      ensures !mode.OtherMode? ==> Told(bus.script, old(bus.asked), bus.asked, status)
      ensures status.Normal? ==> bus.asked == old(bus.asked) + 6 * ChannelCount(ecrocs, |ecrocs|) + 6 * |ecrocs|
      ensures status.Normal? ==> forall i, c | 0 <= i < |ecrocs| && c in ecrocs[i].ecrocChannels ::
                c.configuration == (old(c.configuration) & 0xDFCF) | 0x9000
    {
      hide Valid, Kept, AppliedAll, SettingsOf, Told;
      ghost var script, from := bus.script, bus.asked;
      status := InitializeModules(mode);
      if !status.Normal? { return; }
      ghost var mid := bus.asked;
      forall i, c | 0 <= i < |ecrocs| && c in ecrocs[i].ecrocChannels
        ensures c.configuration == AppliedAll(SettingsOf(EnableSequencerReadout), old(c.configuration))
      {
        assert c in old(ecrocs[i].ecrocChannels) && Called(c, EnableSequencerReadout);
      }
      label Enabled:
      status := Configure(ConfigureForStandardDataTaking);
      if !mode.OtherMode? { ToldOn(script, from, mid, bus.asked, status); }
      if !status.Normal? { return; }
      forall i, c | 0 <= i < |ecrocs| && c in ecrocs[i].ecrocChannels
        ensures c.configuration == (old(c.configuration) & 0xDFCF) | 0x9000
      {
        assert c in old(ecrocs[i].ecrocChannels);
        assert c in old@Enabled(ecrocs[i].ecrocChannels) && Called@Enabled(c, ConfigureForStandardDataTaking);
        assert old@Enabled(c.configuration) == AppliedAll(SettingsOf(EnableSequencerReadout), old(c.configuration));
        InitializedRegister(old(c.configuration));
      }
      mid := bus.asked;
      label Reset:
      status := ResetEventCounter();
      StaysValid@Reset(this);
      if !mode.OtherMode? { ToldOn(script, from, mid, bus.asked, status); }
    }
  }

  /** How many channels the first `n` modules have. */
  ghost function ChannelCount(ecrocs: seq<ECROC>, n: nat): nat
    requires n <= |ecrocs|
    reads ecrocs
  {
    if n == 0 then 0 else ChannelCount(ecrocs, n - 1) + |ecrocs[n - 1].ecrocChannels|
  }

  lemma CountNone(ecrocs: seq<ECROC>)
    ensures ChannelCount(ecrocs, 0) == 0
  {
  }

  lemma CountNext(ecrocs: seq<ECROC>, n: nat)
    requires n < |ecrocs|
    ensures ChannelCount(ecrocs, n + 1) == ChannelCount(ecrocs, n) + |ecrocs[n].ecrocChannels|
  {
  }

  /** The two calls that configure a channel when its crate is initialized. */
  lemma InitializedRegister(v: bv16)
    ensures AppliedAll(SettingsOf(ConfigureForStandardDataTaking), AppliedAll(SettingsOf(EnableSequencerReadout), v))
         == (v & 0xDFCF) | 0x9000
    ensures AfterCalls([EnableSequencerReadout, ConfigureForStandardDataTaking], v) == (v & 0xDFCF) | 0x9000
  {
    hide AppliedAll, SettingsOf, Register;
    TwoCalls(EnableSequencerReadout, ConfigureForStandardDataTaking, v);
    CallIs(EnableSequencerReadout, v);
    CallIs(ConfigureForStandardDataTaking, Register(EnableSequencerReadout, v));
    InitializedBits(v);
  }

  lemma InitializedBits(v: bv16)
    ensures Register(ConfigureForStandardDataTaking, Register(EnableSequencerReadout, v)) == (v & 0xDFCF) | 0x9000
  {
  }

  /** A crate that was valid stays so when nothing but the bus is used. */
  twostate lemma StaysValid(crate: VMECrate)
    requires old(crate.Valid()) && unchanged(crate)
    requires forall i | 0 <= i < |old(crate.ecrocs)| :: unchanged(old(crate.ecrocs)[i])
    requires forall c | c in old(crate.channels) :: unchanged(c)
    ensures crate.Valid()
  {
    hide Distinct, EChannels.Ready;
  }

  lemma TwoCalls(a: Call, b: Call, v: bv16)
    ensures AfterCalls([a, b], v) == AppliedAll(SettingsOf(b), AppliedAll(SettingsOf(a), v))
  {
    hide AppliedAll, SettingsOf;
    assert [a, b][..1] == [a] && [a][..0] == [];
    assert AfterCalls([a], v) == AppliedAll(SettingsOf(a), v);
  }

  lemma SameElsewhereAsItself()
    ensures forall v :: SameElsewhere(v, v)
  {
  }

  twostate predicate SameModule(e: ECROC)
    reads e
  {
    e.ecrocChannels == old(e.ecrocChannels)
  }

  /** A crate whose channels have all been kept is as valid as before. */
  twostate lemma AllKept(crate: VMECrate)
    requires old(crate.Valid()) && unchanged(crate)
    requires forall i | 0 <= i < |old(crate.ecrocs)| :: SameModule(old(crate.ecrocs)[i])
    requires forall i, c | 0 <= i < |old(crate.ecrocs)| && c in old(crate.ecrocs[i].ecrocChannels) :: Kept(c)
    ensures crate.Valid()
  {
    hide Distinct, EChannels.Ready, Kept;
    var ecrocs, bus := old(crate.ecrocs), crate.bus;
    forall i | 0 <= i < |ecrocs| ensures ModuleReady(ecrocs[i], bus) {
      var e := ecrocs[i];
      assert old(ModuleReady(e, bus)) && SameModule(e);
      forall c | c in old(e.ecrocChannels) ensures c.Ready() {
        assert old(c.Ready()) && Kept(c);
        KeptReady(c);
      }
    }
  }
}
