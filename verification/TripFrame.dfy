/** The `TRIPFrame` class: programming one TRiP chip and decoding its reply. */
module TripFrame {
  import opened Bytes
  import opened BitSerial
  import opened Lvds
  import opened TripStream
  import opened TripReply
  import opened TripChips
  import opened TripWords

  const READ_SIZE := 652
  const WRITE_SIZE := 758
  const INJECT_RANGE := 0x4_0000_0000

  /** The physical registers that the fifteen logical values stand for; a read sends zeros. */
  function Registers(v: seq<nat>, read: bool): (r: seq<nat>)
    requires |v| == 15
    ensures |r| == 14
  {
    if read then seq(14, _ => 0)
    else [v[0] % 256, v[1] % 256, v[2] % 256, v[3] % 256, v[4] % 256,
          v[5] % 256, v[6] % 256, v[7] % 256, v[8] % 256, v[9] % 256,
          v[10] % 64 + v[11] % 16 * 64,
          v[13] % 4 + v[12] % 4 * 4,
          0,
          v[14] % INJECT_RANGE]
  }

  lemma NothingSent(before: bytes, control: bool, reset: bool)
    ensures before + Clocked([], control, reset) == before
    ensures forall data, high {:trigger SortedBits(data, 0, high)} :: SortedBits(data, 0, high) == []
  {
  }

  lemma LowFirstNext(data: nat, i: nat)
    ensures SortedBits(data, i + 1, true) == SortedBits(data, i, true) + [Bit(data, i)]
  {
  }

  /** The first `i` of the `n` pairs from `o` on are well-formed. */
  predicate PairsOk(m: bytes, o: nat, i: nat, n: nat, f: nat)
    requires i <= n && o + 2 * n <= |m|
  {
    forall k | 0 <= k < i :: BitPair(m[o + 2 * k], m[o + 2 * k + 1], k == n - 1, f)
  }

  lemma NoLineBits(m: bytes, o: nat, f: nat)
    ensures FromHigh(LineBits(m, o, 0, f)) == 0
  {
  }

  lemma RegisterBytesInSteps(p: bytes, i: nat, value: nat, o: Order)
    ensures p + [0] + [1]
      + BitSerial.SortNSet(false, o.chip, 5, true, false) + BitSerial.SortNSet(false, i + 1, 5, true, false)
      + BitSerial.SortNSet(false, o.command, 3, true, false) + [3] + [1]
      + BitSerial.SortNSet(false, value, RegisterBits(i), true, true) + [1] + [0] + [2] + [0] + [2] + [0] + [0]
      == p + RegisterBytes(i, value, o)
  {
    var a, b := BitSerial.SortNSet(false, o.chip, 5, true, false), BitSerial.SortNSet(false, i + 1, 5, true, false);
    var c, v := BitSerial.SortNSet(false, o.command, 3, true, false), BitSerial.SortNSet(false, value,
                                                                                         RegisterBits(i), true, true);
    RegisterInParts(i, value, o);
    hide *;
    Two(p, 0, 1);
    Two(p + [0, 1] + a + b + c, 3, 1);
    TailInSteps(p + [0, 1] + a + b + c + [3, 1] + v);
    Nested(p, [0, 1], a, b, c, [3, 1], v, TAIL);
  }

  lemma RegisterInParts(i: nat, value: nat, o: Order)
    ensures RegisterBytes(i, value, o) ==
      [0, 1] + (BitSerial.SortNSet(false, o.chip, 5, true, false) + (BitSerial.SortNSet(false, i + 1, 5, true, false) +
      (BitSerial.SortNSet(false, o.command, 3, true, false) +
      ([3, 1] + (BitSerial.SortNSet(false, value, RegisterBits(i), true, true) + TAIL)))))
  {
  }

  lemma Two(s: bytes, x: byte, y: byte)
    ensures s + [x] + [y] == s + [x, y]
  {
  }

  lemma TailInSteps(s: bytes)
    ensures s + [1] + [0] + [2] + [0] + [2] + [0] + [0] == s + TAIL
  {
  }

  lemma Nested(p: bytes, q: bytes, a: bytes, b: bytes, c: bytes, d: bytes, v: bytes, t: bytes)
    ensures p + q + a + b + c + d + v + t == p + (q + (a + (b + (c + (d + (v + t))))))
  {
    Associate(p + q + a + b + c + d, v, t);
    Associate(p + q + a + b + c, d, v + t);
    Associate(p + q + a + b, c, d + (v + t));
    Associate(p + q + a, b, c + (d + (v + t)));
    Associate(p + q, a, b + (c + (d + (v + t))));
    Associate(p, q, a + (b + (c + (d + (v + t)))));
  }

  lemma Associate(a: bytes, b: bytes, c: bytes)
    ensures (a + b) + c == a + (b + c)
  {
  }

  /** How a decoding ends: `ParseError` names the first register whose answer is malformed. */
  datatype Outcome = Decoded | HeaderRejected | ParseError(register: nat)

  class TRIPFrame {
    const chipId: byte
    const readCommand: byte
    const writeCommand: byte
    const tripFunction: byte
    const frameHeader: array<byte>
    const tripValues: array<nat>
    const tripRegisters: array<nat>
    var read: bool
    var packTripData: bytes
    var outgoingMessage: array?<byte>
    var receivedMessage: array?<byte>

    ghost predicate Valid()
      reads this
    {
      && tripValues.Length == 15 && tripRegisters.Length == 14 && tripValues != tripRegisters
      && frameHeader.Length == HEADER_SIZE
      && chipId == 0x0A && readCommand == 0x04 && writeCommand == 0x01
    }

    /** The frame writes the defaults until told otherwise. */
    constructor (f: byte, header: array<byte>, defaults: seq<nat>)
      requires header.Length == HEADER_SIZE && |defaults| == 14
      ensures Valid() && fresh(tripValues) && fresh(tripRegisters) && frameHeader == header && tripFunction == f
      ensures !read && packTripData == [] && outgoingMessage == null && receivedMessage == null
      ensures tripValues[..] == defaults + [0]
    {
      chipId, readCommand, writeCommand := 0x0A, 0x04, 0x01;
      tripFunction, frameHeader := f, header;
      tripValues := new nat[15](i requires 0 <= i < 15 => (defaults + [0])[i]);
      tripRegisters := new nat[14];
      read, packTripData, outgoingMessage, receivedMessage := false, [], null, null;
    }

    function CurrentOrder(): Order
      reads this
    {
      Order(chipId, if read then readCommand else writeCommand, read)
    }

    /** An `int` stored in an unsigned long of 64 bits. */
    method SetRegisterValue(index: nat, value: int)
      requires Valid() && index < 15
      modifies tripValues
      ensures tripValues[..] == old(tripValues[..])[index := value % 0x1_0000_0000_0000_0000]
    {
      tripValues[index] := value % 0x1_0000_0000_0000_0000;
    }

    method PackBits(control: bool, clock: bool, data: bool, reset: bool)
      modifies this`packTripData
      ensures packTripData == old(packTripData) + [Pack(control, clock, data, reset)]
    {
      var packMe := BitValue(control);
      packMe := packMe + 2 * BitValue(clock);
      packMe := packMe + 4 * BitValue(data);
      packMe := packMe + 8 * BitValue(reset);
      packTripData := packTripData + [packMe];
    }

    /** `SortNSet`: a mask walks over the bits of `data` in the order asked for. */
    method SortNSet(reset: bool, data: nat, bits: nat, control: bool, lowToHigh: bool)
      modifies this`packTripData
      ensures packTripData == old(packTripData) + BitSerial.SortNSet(reset, data, bits, control, lowToHigh)
    {
      if lowToHigh {
        SendLowFirst(reset, data, bits, control);
      } else {
        SendHighFirst(reset, data, bits, control);
      }
    }

    method SendLowFirst(reset: bool, data: nat, bits: nat, control: bool)
      modifies this`packTripData
      ensures packTripData == old(packTripData) + Clocked(SortedBits(data, bits, true), control, reset)
    {
      hide Pack, Bit, Clocked, SortedBits;
      ghost var before, sent: seq<bool> := packTripData, SortedBits(data, 0, true);
      NothingSent(before, control, reset);
      var bitmask := 1;
      assert Pow2(0) == 1;
      for i := 0 to bits
        invariant bitmask == Pow2(i) && sent == SortedBits(data, i, true)
        invariant packTripData == before + Clocked(sent, control, reset)
      {
        BitIsQuotient(data, i);
        LowFirstNext(data, i);
        var maskdata := data / bitmask % 2 == 1;
        SendPair(control, maskdata, reset, before, sent);
        sent := sent + [maskdata];
        bitmask := bitmask * 2;
      }
    }

    method SendHighFirst(reset: bool, data: nat, bits: nat, control: bool)
      modifies this`packTripData
      ensures packTripData == old(packTripData) + Clocked(SortedBits(data, bits, false), control, reset)
    {
      hide Pack, Bit, Clocked, SortedBits;
      ghost var before, sent: seq<bool> := packTripData, SortedBits(data, bits, false)[..0];
      NothingSent(before, control, reset);
      var bitmask := if bits == 0 then 0 else Pow2(bits - 1);
      for i := 0 to bits
        invariant i < bits ==> bitmask == Pow2(bits - 1 - i)
        invariant sent == SortedBits(data, bits, false)[..i]
        invariant packTripData == before + Clocked(sent, control, reset)
      {
        BitIsQuotient(data, bits - 1 - i);
        HighBitAt(data, bits, i);
        var maskdata := data / bitmask % 2 == 1;
        SendPair(control, maskdata, reset, before, sent);
        sent := sent + [maskdata];
        bitmask := bitmask / 2;
      }
      assert SortedBits(data, bits, false)[..bits] == SortedBits(data, bits, false);
    }

    method SendPair(control: bool, data: bool, reset: bool, ghost before: bytes, ghost sent: seq<bool>)
      requires packTripData == before + Clocked(sent, control, reset)
      modifies this`packTripData
      ensures packTripData == before + Clocked(sent + [data], control, reset)
    {
      PackBits(control, true, data, reset);
      PackBits(control, false, data, reset);
      assert (sent + [data])[..|sent|] == sent;
    }

    /** Start, chip id, address, command and turn-around. */
    method EncodeIntro(registerAddress: nat)
      modifies this`packTripData
      ensures packTripData == old(packTripData) + [0] + [1]
        + BitSerial.SortNSet(false, chipId, 5, true, false) + BitSerial.SortNSet(false, registerAddress, 5, true, false)
        + BitSerial.SortNSet(false, CurrentOrder().command, 3, true, false) + [3] + [1]
    {
      hide BitSerial.SortNSet;
      PackBits(false, false, false, false);
      PackBits(true, false, false, false);
      SortNSet(false, chipId, 5, true, false);
      SortNSet(false, registerAddress, 5, true, false);
      if read {
        SortNSet(false, readCommand, 3, true, false);
      } else {
        SortNSet(false, writeCommand, 3, true, false);
      }
      PackBits(true, true, false, false);
      PackBits(true, false, false, false);
    }

    method EncodeTail()
      modifies this`packTripData
      ensures packTripData == old(packTripData) + [1] + [0] + [2] + [0] + [2] + [0] + [0]
    {
      PackBits(true, false, false, false);
      PackBits(false, false, false, false);
      PackBits(false, true, false, false);
      PackBits(false, false, false, false);
      PackBits(false, true, false, false);
      PackBits(false, false, false, false);
      PackBits(false, false, false, false);
    }

    /** The bytes of one register, appended to the buffer. */
    method EncodeRegister(i: nat)
      requires Valid() && i < 14
      modifies this`packTripData
      ensures packTripData == old(packTripData)
                + RegisterBytes(i, tripRegisters[i], Order(0x0A, if read then 0x04 else 0x01, read))
    {
      hide RegisterBytes, BitSerial.SortNSet;
      EncodeIntro(i + 1);
      match i {
        case 10 => SortNSet(false, tripRegisters[i], 10, true, true);
        case 11 => SortNSet(false, tripRegisters[i], 4, true, true);
        case 13 => SortNSet(false, tripRegisters[i], 34, true, true);
        case _ => SortNSet(false, tripRegisters[i], 8, true, true);
      }
      EncodeTail();
      RegisterBytesInSteps(old(packTripData), i, tripRegisters[i], CurrentOrder());
    }

    /** The register image: zeros for a read, else the logical values masked and combined. */
    method FillRegisters()
      requires Valid()
      modifies tripRegisters
      ensures tripRegisters[..] == Registers(tripValues[..], read)
    {
      if read {
        for i := 0 to 14
          invariant forall k | 0 <= k < i :: tripRegisters[k] == 0
        {
          tripRegisters[i] := 0;
        }
      } else {
        for i := 0 to 14
          invariant forall k | 0 <= k < i && k < 10 :: tripRegisters[k] == tripValues[k] % 256
        {
          if i == 10 || i == 11 || i == 12 || i == 13 { continue; }
          tripRegisters[i] := tripValues[i] % 256;
        }
        tripRegisters[10] := tripValues[10] % 64 + tripValues[11] % 16 * 64;
        tripRegisters[11] := tripValues[13] % 4 + tripValues[12] % 4 * 4;
        tripRegisters[12] := 0;
        tripRegisters[13] := tripValues[14] % INJECT_RANGE;
      }
    }

    /** `EncodeRegisterValues`. */
    method EncodeRegisterValues()
      requires Valid()
      modifies this`packTripData, tripRegisters
      ensures tripRegisters[..] == Registers(tripValues[..], read)
      ensures packTripData == Encoded(Registers(tripValues[..], read), CurrentOrder(), 14)
      ensures Hears(packTripData, read, tripValues[..])
    {
      hide RegisterBytes, Encoded, Registers, Hears;
      MessageIsHeard(tripValues[..], CurrentOrder());
      packTripData := [];
      FillRegisters();
      ghost var regs, o := tripRegisters[..], CurrentOrder();
      EmptyBuffer(regs, o);
      for i := 0 to 14
        invariant tripRegisters[..] == regs
        invariant packTripData == Encoded(regs, o, i)
      {
        EncodedStep(regs, o, i);
        if i == 12 { continue; }
        if i == 13 && read { continue; }
        EncodeRegister(i);
        if |packTripData| % 2 != 1 {
          PackBits(false, false, false, false);
        }
      }
    }

    function OutgoingMessageLength(): nat
      reads this
    {
      if read then READ_SIZE else WRITE_SIZE
    }

    /** `MakeMessage`: the header and the buffer, whose size never depends on a value. */
    method MakeMessage()
      requires Valid()
      modifies this`packTripData, this`outgoingMessage, tripRegisters
      ensures tripRegisters[..] == Registers(tripValues[..], read)
      ensures packTripData == Encoded(Registers(tripValues[..], read), CurrentOrder(), 14)
      ensures outgoingMessage != null && fresh(outgoingMessage)
      ensures outgoingMessage[..] == frameHeader[..] + packTripData
      ensures outgoingMessage.Length == OutgoingMessageLength() == if read then 652 else 758
      ensures Hears(outgoingMessage[HEADER_SIZE..], read, tripValues[..])
    {
      hide Encoded, Registers, Bit, Hears;
      EncodeRegisterValues();
      EncodedSize(Registers(tripValues[..], read), CurrentOrder(), 14);
      BufferSizes(read);
      outgoingMessage := Assemble(packTripData);
      assert outgoingMessage[HEADER_SIZE..] == packTripData;
    }

    method Assemble(packed: bytes) returns (message: array<byte>)
      requires Valid()
      ensures fresh(message) && message[..] == frameHeader[..] + packed
    {
      var messageSize := HEADER_SIZE + |packed|;
      message := new byte[messageSize];
      for i := 0 to HEADER_SIZE
        invariant message[..i] == frameHeader[..i]
      {
        message[i] := frameHeader[i];
      }
      for i := HEADER_SIZE to messageSize
        invariant message[..i] == frameHeader[..] + packed[..i - HEADER_SIZE]
      {
        message[i] := packed[i - HEADER_SIZE];
      }
      assert message[..] == message[..messageSize];
    }

    /** Sets every value and makes the message of a write: a chip that listens receives the values as registers. */
    method Program(values: seq<int>)
      requires Valid() && |values| == 15
      modifies this`read, this`packTripData, this`outgoingMessage, tripValues, tripRegisters
      ensures !read && tripValues[..] == Unsigned64(values)
      ensures outgoingMessage != null && outgoingMessage.Length == WRITE_SIZE
      ensures outgoingMessage[..HEADER_SIZE] == frameHeader[..]
      ensures Hears(outgoingMessage[HEADER_SIZE..], false, Unsigned64(values))
    {
      hide Encoded, Registers, Hears;
      read := false;
      for i := 0 to 15
        invariant !read && tripValues[..i] == Unsigned64(values)[..i]
      {
        SetRegisterValue(i, values[i]);
      }
      assert tripValues[..15] == tripValues[..] && Unsigned64(values)[..15] == Unsigned64(values);
      MakeMessage();
      assert outgoingMessage[..] == frameHeader[..] + packTripData;
      assert outgoingMessage[HEADER_SIZE..] == packTripData && outgoingMessage[..HEADER_SIZE] == frameHeader[..];
    }

    // ----- decoding -----

    /** The framing in front of a value. */
    method CheckPreamble(m: array<byte>, index0: nat) returns (ok: bool, index: nat)
      requires index0 + 31 <= m.Length
      ensures ok <==> PreambleAt(m[..], index0)
      ensures ok ==> index == index0 + 31
    {
      index := index0;
      if m[index] != 0 { return false, index; }
      index := index + 1;
      if m[index] != 1 { return false, index; }
      for k := 0 to 14
        invariant index == index0 + 1 + 2 * k
        invariant forall i | 0 <= i < k :: PreamblePair(m[..], index0, i)
      {
        index := index + 1;
        if m[index] != 3 {
          assert !PreamblePair(m[..], index0, k);
          return false, index;
        }
        index := index + 1;
        if m[index] != 1 {
          assert !PreamblePair(m[..], index0, k);
          return false, index;
        }
      }
      index := index + 1;
      if m[index] != 3 { return false, index; }
      index := index + 1;
      ok := true;
    }

    /** The two bytes of one bit, and whether they are as they should be. */
    method ReadPair(m: array<byte>, index0: nat, last: bool) returns (ok: bool, index: nat, bit: bool)
      requires index0 + 2 <= m.Length
      ensures ok <==> BitPair(m[..][index0], m[..][index0 + 1], last, tripFunction)
      ensures index == index0 + 2 && bit == LineAt(m[..], index0, tripFunction)
    {
      hide Bit;
      index := index0;
      var b0 := m[index];
      index := index + 1;
      var b1 := m[index];
      ok := !(b0 % 4 != 1 || (!last && b1 % 4 != 3) || (last && b1 % 4 != 1) ||
              Bit(b0, tripFunction) != Bit(b1, tripFunction));
      bit := Bit(b0, tripFunction);
      index := index + 1;
    }

    /** The loop of `GetRegisterValue`: the bits on this chip's line, most significant first. */
    method ReadValue(m: array<byte>, index0: nat, bits: nat) returns (ok: bool, index: nat, value: nat)
      requires index0 + 2 * bits <= m.Length
      ensures ok <==> ValueAt(m[..], index0, bits, tripFunction)
      ensures ok ==> index == index0 + 2 * bits
      ensures ok ==> value == FromHigh(LineBits(m[..], index0, bits, tripFunction))
    {
      hide BitPair, LineAt, LineBits, FromHigh;
      index, value := index0, 0;
      NoLineBits(m[..], index0, tripFunction);
      for i := 0 to bits
        invariant index == index0 + 2 * i
        invariant PairsOk(m[..], index0, i, bits, tripFunction)
        invariant value == FromHigh(LineBits(m[..], index0, i, tripFunction))
      {
        value := value * 2;
        var good, bit;
        good, index, bit := ReadPair(m, index, i == bits - 1);
        if !good {
          return false, index, value;
        }
        if bit { value := value + 1; }
        NextLineBit(m[..], index0, i, tripFunction);
      }
      ok := true;
    }

    /** `GetRegisterValue`. */
    method GetRegisterValue(m: array<byte>, j: nat, index0: nat, bits: nat) returns (ok: bool, index: nat)
      requires Valid() && j < 12 && index0 + 2 * bits <= m.Length
      modifies tripValues
      ensures m[..] == old(m[..])
      ensures ok <==> ValueAt(m[..], index0, bits, tripFunction)
      ensures ok ==> index == index0 + 2 * bits
      ensures tripValues[..] ==
        if ok then Stored(old(tripValues[..]), j, FromHigh(LineBits(m[..], index0, bits, tripFunction)))
        else old(tripValues[..])
    {
      hide ValueAt, LineBits, FromHigh;
      var value;
      ok, index, value := ReadValue(m, index0, bits);
      if !ok { return; }
      match j {
        case 10 =>
          tripValues[10] := value % 64;
          tripValues[11] := value / 64 % 16;
        case 11 =>
          tripValues[12] := value / 4 % 4;
          tripValues[13] := value % 4;
        case _ => tripValues[j] := value;
      }
    }

    /** The tail of one register and the pad byte that brings the cursor to an even position. */
    method CheckTail(m: array<byte>, index0: nat) returns (ok: bool, index: nat)
      requires index0 + 6 + index0 % 2 <= m.Length
      ensures ok <==> TailAt(m[..], index0)
      ensures ok ==> index == ToEven(index0 + 6)
    {
      index := index0;
      if m[index] % 4 != 0 { return false, index; }
      index := index + 1;
      if m[index] % 4 != 2 { return false, index; }
      index := index + 1;
      if m[index] != 0 { return false, index; }
      index := index + 1;
      if m[index] != 2 { return false, index; }
      index := index + 1;
      if m[index] != 0 { return false, index; }
      index := index + 1;
      if m[index] != 0 { return false, index; }
      index := index + 1;
      if index % 2 == 1 {
        if m[index] != 0 { return false, index; }
        index := index + 1;
      }
      ok := true;
    }

    /** One turn of the decoding loop. */
    method DecodeRegister(m: array<byte>, j: nat, index0: nat) returns (ok: bool, index: nat)
      requires Valid() && j < 12 && index0 == Start(j) && Start(j + 1) <= m.Length
      modifies tripValues
      ensures m[..] == old(m[..])
      ensures ok <==> RegisterAt(m[..], j, tripFunction)
      ensures ok ==> index == Start(j + 1) && ValueReached(m[..], j, tripFunction)
      ensures tripValues[..] ==
        if ValueReached(m[..], j, tripFunction)
        then Stored(old(tripValues[..]), j, RegisterValue(m[..], j, tripFunction))
        else old(tripValues[..])
    {
      hide Start, PreambleAt, ValueAt, TailAt, LineBits, FromHigh, Stored;
      StartStep(j);
      ok, index := CheckPreamble(m, index0);
      if !ok { return; }
      match j {
        case 10 => ok, index := GetRegisterValue(m, j, index, 10);
        case 11 => ok, index := GetRegisterValue(m, j, index, 4);
        case _ => ok, index := GetRegisterValue(m, j, index, 8);
      }
      if !ok { return; }
      ok, index := CheckTail(m, index);
    }

    /**
      `DecodeRegisterValues`: succeeds exactly on replies that are well-formed on this chip's line, and
      then holds the chip's settings; otherwise names the first malformed register, with the registers
      before it already stored (and its own, if only its tail is wrong).
     */
    method DecodeRegisterValues() returns (r: Outcome)
      requires Valid() && receivedMessage != null && Start(12) <= receivedMessage.Length
      modifies tripValues
      ensures receivedMessage[..] == old(receivedMessage[..])
      ensures HeaderError(receivedMessage[..]) ==> r == HeaderRejected && tripValues[..] == old(tripValues[..])
      ensures !HeaderError(receivedMessage[..]) ==> (r == Decoded <==> ReplyAt(receivedMessage[..], tripFunction, 12))
      ensures !HeaderError(receivedMessage[..]) ==> r != HeaderRejected
      ensures r == Decoded ==>
        tripValues[..] == DecodedUpTo(receivedMessage[..], tripFunction, old(tripValues[..]), 12)
      ensures r.ParseError? ==>
        && r.register < 12
        && ReplyAt(receivedMessage[..], tripFunction, r.register)
        && !RegisterAt(receivedMessage[..], r.register, tripFunction)
        && tripValues[..] == DecodedUpTo(receivedMessage[..], tripFunction, old(tripValues[..]),
                               if ValueReached(receivedMessage[..], r.register, tripFunction)
                               then r.register + 1 else r.register)
    {
      hide Start, RegisterAt, ValueReached, RegisterValue, Stored, HeaderError;
      var m := receivedMessage;
      CursorFits();
      var error := CheckForErrors(m);
      if error { return HeaderRejected; }
      ghost var before := tripValues[..];
      var index := DATA;
      StartStep(0);
      for j := 0 to 14
        invariant m[..] == old(m[..])
        invariant j <= 12 ==> index == Start(j) && ReplyAt(m[..], tripFunction, j)
        invariant j <= 12 ==> tripValues[..] == DecodedUpTo(m[..], tripFunction, before, j)
        invariant j > 12 ==> ReplyAt(m[..], tripFunction, 12)
        invariant j > 12 ==> tripValues[..] == DecodedUpTo(m[..], tripFunction, before, 12)
      {
        if j == 12 || j == 13 { continue; }
        StartGrows(j + 1, 12);
        DecodedStep(m[..], tripFunction, before, j);
        var ok;
        ok, index := DecodeRegister(m, j, index);
        if !ok {
          return ParseError(j);
        }
      }
      return Decoded;
    }

    /** The frame of chip `c` decodes the reply of six chips to what that chip holds, when the header passes. */
    method DecodeReply(ghost header: bytes, ghost regs: Contents, ghost trailer: bytes,
                       ghost c: nat) returns (r: Outcome)
      requires Valid() && |header| == DATA && c < CHIPS && tripFunction as int == c + 2
      requires receivedMessage != null && receivedMessage[..] == Reply(header, regs, trailer)
      modifies tripValues
      ensures HeaderError(header) ==> r == HeaderRejected && tripValues[..] == old(tripValues[..])
      ensures !HeaderError(header) ==>
                r == Decoded && tripValues[..] == Logical(ChipValues(regs, c, 12)) + [old(tripValues[14])]
    {
      hide Reply, ReplyAt, DecodedUpTo, Logical, ChipValues, Start;
      ReplyIsDecoded(header, regs, trailer, c, tripValues[..]);
      ReplyBegins(header, regs, trailer);
      r := DecodeRegisterValues();
    }
  }

  /** A listener hears the request for all registers, or all the values. */
  lemma MessageIsHeard(v: seq<nat>, o: Order)
    requires |v| == 15 && o.chip == 0x0A && o.command == if o.read then 0x04 else 0x01
    ensures Hears(Encoded(Registers(v, o.read), o, 14), o.read, v)
  {
    hide Encoded, ReadAll, Expected, Registers, Low;
    var regs := Registers(v, o.read);
    StreamIsUniquelyReadable(regs, o);
    ExpectedFrom(regs, o, 0);
    ExpectedEnds(regs, o);
    var words := Expected(regs, o, 0);
    assert words[12..] == Expected(regs, o, 12);
    RegistersAre(v);
    RegistersFit(v, o.read);
    if o.read {
      forall k | 0 <= k < 12 ensures words[k] == Word(0x0A, k + 1, 0x04, 0) {
        assert words[k - 0] == words[k] && Low(regs[k], RegisterBits(k)) == 0;
      }
    } else {
      forall k | 0 <= k < 12 ensures words[k] == Word(0x0A, k + 1, 0x01, regs[k]) { assert words[k - 0] == words[k]; }
      assert words[12] == words[12..][0];
    }
  }

  lemma RegistersFit(v: seq<nat>, read: bool)
    requires |v| == 15
    ensures forall j | 0 <= j < 14 ::
              Low(Registers(v, read)[j], RegisterBits(j)) == if read then 0 else Registers(v, read)[j]
  {
    hide Low, RegisterBits, Registers;
    forall j | 0 <= j < 14
      ensures Low(Registers(v, read)[j], RegisterBits(j)) == if read then 0 else Registers(v, read)[j]
    {
      RegisterFits(v, read, j);
    }
  }

  lemma RegistersAre(v: seq<nat>)
    requires |v| == 15
    ensures var regs := Registers(v, false);
            && (forall j | 0 <= j < 10 :: regs[j] == v[j] % 0x100) && regs[10] == v[10] % 0x40 + v[11] % 0x10 * 0x40
            && regs[11] == v[13] % 4 + v[12] % 4 * 4 && regs[13] == v[14] % 0x4_0000_0000
  {
  }

  lemma RegisterFits(v: seq<nat>, read: bool, j: nat)
    requires |v| == 15 && j < 14
    ensures Low(Registers(v, read)[j], RegisterBits(j)) == if read then 0 else Registers(v, read)[j]
  {
    ThirtyFour();
    hide Pow2;
  }

  /** An `int` stored in an unsigned long of 64 bits. */
  function Unsigned64(values: seq<int>): (u: seq<nat>)
    ensures |u| == |values|
    ensures forall i | 0 <= i < |u| :: u[i] == values[i] % 0x1_0000_0000_0000_0000
  {
    seq(|values|, i requires 0 <= i < |values| => values[i] % 0x1_0000_0000_0000_0000)
  }

  lemma ReplyBegins(header: bytes, regs: Contents, trailer: bytes)
    requires |header| == DATA
    ensures |Reply(header, regs, trailer)| >= DATA && Reply(header, regs, trailer)[..DATA] == header
    ensures HeaderError(Reply(header, regs, trailer)) == HeaderError(header)
  {
    hide ReplyUpTo;
    ReplyUpToBegins(header, regs, 12);
  }

  lemma {:induction false} ReplyUpToBegins(header: bytes, regs: Contents, k: nat)
    requires k <= 12
    ensures header <= ReplyUpTo(header, regs, k)
  {
    hide Record;
    if k > 0 { ReplyUpToBegins(header, regs, k - 1); }
  }

  /** A response of the size the crate reserves holds every byte the decoder may read. */
  lemma CursorFits()
    ensures Start(12) == 662 <= 664
  {
    CursorEnds();
  }

  lemma DecodedStep(m: bytes, f: nat, vals: seq<nat>, j: nat)
    requires |vals| == 15 && j < 12
    ensures DecodedUpTo(m, f, vals, j + 1) == Stored(DecodedUpTo(m, f, vals, j), j, RegisterValue(m, j, f))
  {
  }

  lemma NextLineBit(m: bytes, o: nat, i: nat, f: nat)
    ensures FromHigh(LineBits(m, o, i + 1, f)) == 2 * FromHigh(LineBits(m, o, i, f)) + BitValue(LineAt(m, o + 2 * i, f))
  {
    hide LineAt;
    assert LineBits(m, o, i + 1, f)[..i] == LineBits(m, o, i, f);
  }

  // ----- what the chips and the frame agree on -----

  /** For any register contents of six chips, the frame of chip `c` reads back that chip and no other. */
  lemma ReplyIsDecoded(header: bytes, regs: Contents, trailer: bytes, c: nat, vals: seq<nat>)
    requires |header| == DATA && c < CHIPS && |vals| == 15
    ensures ReplyAt(Reply(header, regs, trailer), c + 2, 12)
    ensures DecodedUpTo(Reply(header, regs, trailer), c + 2, vals, 12) == Logical(ChipValues(regs, c, 12)) + [vals[14]]
    ensures |Reply(header, regs, trailer)| >= Start(12)
  {
    hide Reply, RegisterAt, RegisterValue, Logical, ChipValues, Start;
    ChipIsReadBack(header, regs, trailer, c, 12);
    DecodedIsLogical(Reply(header, regs, trailer), c + 2, vals);
    RecordPlace(header, regs, trailer, 11);
    ReplyLength(header, regs, trailer);
  }

  lemma ReplyLength(header: bytes, regs: Contents, trailer: bytes)
    requires |header| == DATA
    ensures |Reply(header, regs, trailer)| == Start(12) + |trailer|
  {
    hide ReplyUpTo, Start;
    ReplySize(header, regs, 12);
  }

  /** The settings a chip can hold: each value cut to its width. */
  function Settings(v: seq<nat>): (r: seq<nat>)
    requires |v| == 15
  {
    [v[0] % 256, v[1] % 256, v[2] % 256, v[3] % 256, v[4] % 256,
     v[5] % 256, v[6] % 256, v[7] % 256, v[8] % 256, v[9] % 256,
     v[10] % 64, v[11] % 16, v[12] % 4, v[13] % 4]
  }

  /** The words a chip receives from a frame. */
  function WordsSent(v: seq<nat>, o: Order): Option<seq<Word>>
    requires |v| == 15
  {
    ReadAll(Encoded(Registers(v, o.read), o, 14), 0)
  }

  /** A chip that has stored the words of a write frame it could address. */
  ghost predicate HoldsWords(regs: Contents, c: nat, words: seq<Word>) {
    forall w | w in words && 1 <= w.address <= 12 :: regs(c, w.address - 1) == w.value
  }

  lemma {:induction false} ExpectedHas(regs: seq<nat>, o: Order, k: nat, j: nat)
    requires |regs| == 14 && k <= j < 12
    ensures Word(o.chip, j + 1, o.command, Low(regs[j], RegisterBits(j))) in Expected(regs, o, k)
    decreases j - k
  {
    hide Low, RegisterBits;
    if k < j {
      ExpectedHas(regs, o, k + 1, j);
    }
  }

  lemma {:induction false} LowTwice(v: nat, n: nat)
    ensures Low(Low(v, n), n) == Low(v, n)
  {
    hide Pow2;
    LowSmall(v % Pow2(n), n);
  }

  lemma {:induction false} ChipHoldsRegisters(phys: seq<nat>, o: Order, regs: Contents, c: nat, k: nat)
    requires |phys| == 14 && k <= 12 && HoldsWords(regs, c, Expected(phys, o, 0))
    ensures forall j | 0 <= j < k :: ChipValues(regs, c, k)[j] == Low(phys[j], RegisterBits(j))
  {
    hide Low, RegisterBits, Expected;
    if k > 0 {
      ChipHoldsRegisters(phys, o, regs, c, k - 1);
      ExpectedHas(phys, o, 0, k - 1);
      LowTwice(phys[k - 1], RegisterBits(k - 1));
    }
  }

  lemma SmallPowers()
    ensures Pow2(4) == 16 && Pow2(8) == 256 && Pow2(10) == 1024
  {
    assert Pow2(2) == 4 && Pow2(6) == 64;
  }

  lemma PlainRegister(v: seq<nat>, j: nat)
    requires |v| == 15 && j < 10
    ensures Low(Registers(v, false)[j], RegisterBits(j)) == v[j] % 256 == Settings(v)[j]
  {
    SmallPowers();
    hide Pow2;
  }

  lemma CombinedRegisters(v: seq<nat>)
    requires |v| == 15
    ensures var p := Low(Registers(v, false)[10], 10); p % 64 == v[10] % 64 && p / 64 % 16 == v[11] % 16
    ensures var p := Low(Registers(v, false)[11], 4); p / 4 % 4 == v[12] % 4 && p % 4 == v[13] % 4
  {
    SmallPowers();
    hide Pow2;
  }

  lemma LogicalOfRegisters(v: seq<nat>, values: seq<nat>)
    requires |v| == 15 && |values| == 12
    requires forall j | 0 <= j < 12 :: values[j] == Low(Registers(v, false)[j], RegisterBits(j))
    ensures Logical(values) == Settings(v)
  {
    hide Low, Registers;
    CombinedRegisters(v);
    forall j | 0 <= j < 10 ensures values[j] == Settings(v)[j] {
      PlainRegister(v, j);
    }
  }

  /**
    Program, then read: if chip `c` stores what a write frame with settings `v` sends, then the reply of
    the six chips, decoded by that chip's frame, gives the settings `v`, each cut to its width; whatever
    the other chips hold and whatever the decoding frame held before.
   */
  lemma ProgramThenRead(v: seq<nat>, o: Order, regs: Contents, c: nat, header: bytes, trailer: bytes, vals: seq<nat>)
    requires |v| == 15 && |vals| == 15 && |header| == DATA && c < CHIPS && o.Fits() && !o.read
    requires WordsSent(v, o).Some? ==> HoldsWords(regs, c, WordsSent(v, o).value)
    ensures WordsSent(v, o).Some? && ReplyAt(Reply(header, regs, trailer), c + 2, 12)
    ensures DecodedUpTo(Reply(header, regs, trailer), c + 2, vals, 12) == Settings(v) + [vals[14]]
  {
    hide Expected, Encoded, Reply, Logical, Settings, Registers, DecodedUpTo, ChipValues, ReplyAt, HoldsWords, Low;
    var phys := Registers(v, false);
    StreamIsUniquelyReadable(phys, o);
    ChipHoldsRegisters(phys, o, regs, c, 12);
    LogicalOfRegisters(v, ChipValues(regs, c, 12));
    ReplyIsDecoded(header, regs, trailer, c, vals);
  }
}
