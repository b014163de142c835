/** The headers of frames sent to front-end boards and received from them (`LVDSFrame`). */
module Lvds {
  import opened BitSerial
  import opened Bytes

  /** Sizes of an outgoing header and of the header in front of the data of a received frame. */
  const HEADER_SIZE := 9
  const DATA := 19

  const FRAME_START := 10
  const DEVICE_STATUS := 11
  const FRAME_STATUS := 12

  /** The frame length in the first two bytes, high byte first. */
  function ReceivedLength(m: bytes): nat
    requires |m| >= 2
  {
    m[0] as int * 256 + m[1]
  }

  const FLAG_BYTES: seq<nat> := [FRAME_START, DEVICE_STATUS, DEVICE_STATUS, FRAME_STATUS,
    FRAME_STATUS, FRAME_STATUS, FRAME_STATUS, FRAME_STATUS]
  const FLAGS: seq<byte> := [0x80, 0x01, 0x02, 0x01, 0x02, 0x04, 0x08, 0x10]

  /** One of the two status bytes is zero altogether. */
  predicate StatusIsZero<T(==)>(m: seq<T>, zero: T)
    requires |m| > FRAME_STATUS
  {
    m[DEVICE_STATUS] == zero || m[FRAME_STATUS] == zero
  }

  /** What the header check amounts to: only a status byte that is zero altogether is an error. */
  predicate HeaderError(m: bytes)
    requires |m| > FRAME_STATUS
  {
    StatusIsZero(m, 0)
  }

  /** `!b & flag`: the byte is negated before it is masked, so 0 becomes 1 and all else becomes 0. */
  function NegatedMasked(b: byte, flag: byte): nat {
    if b == 0 then flag % 2 else 0
  }

  /** `CheckForErrors`. */
  method CheckForErrors(m: array<byte>) returns (error: bool)
    requires m.Length > FRAME_STATUS
    ensures error <==> HeaderError(m[..])
  {
    error := false;
    for i := 0 to 8
      invariant error <==> exists k | 0 <= k < i :: NegatedMasked(m[FLAG_BYTES[k]], FLAGS[k]) != 0
    {
      if NegatedMasked(m[FLAG_BYTES[i]], FLAGS[i]) != 0 {
        error := true;
      }
    }
    assert NegatedMasked(m[FLAG_BYTES[1]], FLAGS[1]) != 0 <==> m[DEVICE_STATUS] == 0;
    assert NegatedMasked(m[FLAG_BYTES[3]], FLAGS[3]) != 0 <==> m[FRAME_STATUS] == 0;
  }

  /** The check the flags are meant for: some flag bit is not set in its byte. */
  predicate FlagMissing(m: bytes)
    requires |m| > FRAME_STATUS
  {
    exists k | 0 <= k < 8 :: m[FLAG_BYTES[k]] / FLAGS[k] % 2 == 0
  }

  /** All flags are set: the direction bit, both bits of the device status and five of the frame status. */
  predicate AllFlagsSet(m: bytes)
    requires |m| > FRAME_STATUS
  {
    m[FRAME_START] >= 128 && m[DEVICE_STATUS] % 4 == 3 && m[FRAME_STATUS] % 32 == 31
  }

  lemma NoFlagMissingIff(m: bytes)
    requires |m| > FRAME_STATUS
    ensures FlagMissing(m) <==> !AllFlagsSet(m)
  {
    var f, d, s := m[FRAME_START] as int, m[DEVICE_STATUS] as int, m[FRAME_STATUS] as int;
    assert f / 128 % 2 == 0 <==> f < 128;
    TwoFlags(d);
    FiveFlags(s);
    assert m[FLAG_BYTES[0]] / FLAGS[0] == f / 128;
    assert m[FLAG_BYTES[1]] / FLAGS[1] == d && m[FLAG_BYTES[2]] / FLAGS[2] == d / 2;
    assert m[FLAG_BYTES[3]] / FLAGS[3] == s && m[FLAG_BYTES[4]] / FLAGS[4] == s / 2;
    assert m[FLAG_BYTES[5]] / FLAGS[5] == s / 4 && m[FLAG_BYTES[6]] / FLAGS[6] == s / 8;
    assert m[FLAG_BYTES[7]] / FLAGS[7] == s / 16;
  }

  lemma TwoFlags(d: nat)
    ensures d % 4 == 3 <==> d % 2 == 1 && d / 2 % 2 == 1
  {
    DivTwice(d, 2);
  }

  lemma FiveFlags(s: nat)
    ensures s % 32 == 31 <==> s % 2 == 1 && s / 2 % 2 == 1 && s / 4 % 2 == 1 && s / 8 % 2 == 1 && s / 16 % 2 == 1
  {
    DivTwice(s, 16);
    DivTwice(s / 2, 8);
    DivTwice(s / 4, 4);
    TwoFlags(s / 8);
    assert s / 2 / 2 == s / 4 && s / 4 / 2 == s / 8 && s / 8 / 2 == s / 16;
  }

  /**
    The check never raises a false alarm, and it is right exactly for messages with a zero status byte
    and for messages with all flags set.
   */
  lemma CheckIsRightIff(m: bytes)
    requires |m| > FRAME_STATUS
    ensures HeaderError(m) ==> FlagMissing(m)
    ensures (HeaderError(m) <==> FlagMissing(m)) <==>
            || m[DEVICE_STATUS] == 0 || m[FRAME_STATUS] == 0
            || (m[FRAME_START] >= 128 && m[DEVICE_STATUS] % 4 == 3 && m[FRAME_STATUS] % 32 == 31)
  {
    hide FlagMissing;
    NoFlagMissingIff(m);
  }

  /** A message that came from nowhere, with one flag in each status byte, passes the check. */
  lemma CheckMisses(m: bytes)
    requires |m| > FRAME_STATUS && m[FRAME_START] == 0 && m[DEVICE_STATUS] == 1 == m[FRAME_STATUS]
    ensures FlagMissing(m) && !HeaderError(m)
  {
    hide FlagMissing;
    NoFlagMissingIff(m);
  }

  // ----- headers that are sent -----

  /** Whom a frame is for and what it asks: each code stands where the header wants its bits. */
  datatype Address = Address(device: bv8, broadcast: bv8, direction: bv8, deviceFunction: bv8, feb: bv8)

  /** `MakeOutgoingHeader`; the two bytes of the frame id are whatever the frame holds. */
  function OutgoingHeader(a: Address, id: seq<bv8>): (h: seq<bv8>)
    requires |id| == 2
    ensures |h| == HEADER_SIZE
  {
    [(a.direction & 0x80) | (a.broadcast & 0xF0) | (a.feb & 0x0F),
     (a.device & 0xF0) | (a.deviceFunction & 0x0F), 0, id[0], id[1], 0, 0, 0, 0]
  }

  /** A board that masks the first two bytes finds every code, if the broadcast does not use the direction bit. */
  lemma HeaderIsRead(a: Address, id: seq<bv8>)
    requires |id| == 2
    ensures var h := OutgoingHeader(a, id);
            && h[0] & 0x0F == a.feb & 0x0F && h[0] & 0x70 == a.broadcast & 0x70
            && h[1] & 0xF0 == a.device & 0xF0 && h[1] & 0x0F == a.deviceFunction & 0x0F
            && (h[0] & 0x80 == a.direction & 0x80 <==> a.broadcast & 0x80 == 0 || a.direction & 0x80 != 0)
  {
  }
}
