/** The headers the DAQ itself writes into the data stream: the frame header and the DAQ header. */
module Headers {
  import opened BitSerial
  import opened Bytes
  import opened Lvds

  const SENTINEL_BANK := 5
  const DAQ_BANK := 3
  const RUN_BANK := 6
  const DAQ_HEADER_SIZE := 56
  const DAQ_HEADER_VERSION := 9
  const RUN_HEADER_VERSION := 1
  const RUN_HEADER_SIZE := 492
  const MAGIC_PATTERN := 0xCBCB

  // ----- the frame header -----

  /** Crate, croc, channel, board and hit in one word; bits 3 and 4 of the hit fall off the top. */
  function SourceId(crate: int, croc: int, chan: int, feb: int, hit: int): nat {
    crate % 2 * 0x4000 + croc % 16 * 0x200 + chan % 4 * 0x80 + feb % 16 * 8 + hit % 8
  }

  /** Every part of the source is recovered, modulo its mask. */
  lemma SourceIdFields(crate: int, croc: int, chan: int, feb: int, hit: int)
    ensures var s := SourceId(crate, croc, chan, feb, hit);
            && s < 0x8000 && s / 0x4000 % 2 == crate % 2 && s / 0x200 % 16 == croc % 16
            && s / 0x80 % 4 == chan % 4 && s / 8 % 16 == feb % 16 && s % 8 == hit % 8
  {
    hide SourceId;
    var c, r, n, f, h := crate % 2, croc % 16, chan % 4, feb % 16, hit % 8;
    SourceIdNested(crate, croc, chan, feb, hit);
    SplitAt(((c * 32 + r) * 4 + n) * 16 + f, h, 8);
    SplitAt((c * 32 + r) * 4 + n, f, 16);
    SplitAt(c * 32 + r, n, 4);
    SplitAt(c, r, 32);
    SourceIdShifts(SourceId(crate, croc, chan, feb, hit));
  }

  lemma SourceIdNested(crate: int, croc: int, chan: int, feb: int, hit: int)
    ensures SourceId(crate, croc, chan, feb, hit)
         == (((crate % 2 * 32 + croc % 16) * 4 + chan % 4) * 16 + feb % 16) * 8 + hit % 8
  {
  }

  lemma SplitAt(high: nat, low: nat, k: nat)
    requires low < k
    ensures (high * k + low) / k == high && (high * k + low) % k == low
  {
    DivUnique(high * k + low, k, high, low);
  }

  lemma SourceIdShifts(s: nat)
    ensures s / 0x80 == s / 8 / 16 && s / 0x200 == s / 8 / 16 / 4 && s / 0x4000 == s / 8 / 16 / 4 / 32
  {
  }

  /** So two hits of the same board are told apart only when they differ modulo 8. */
  lemma HitsCollideIff(crate: int, croc: int, chan: int, feb: int, hit: int, hit': int)
    ensures SourceId(crate, croc, chan, feb, hit) == SourceId(crate, croc, chan, feb, hit') <==> hit % 8 == hit' % 8
  {
  }

  function ByteSwap(w: nat): nat {
    w % 256 * 256 + w / 256 % 256
  }

  /** The little-endian bytes of a 16-bit and of a 32-bit word. */
  function Bytes2(w: nat): (b: bytes)
    ensures |b| == 2
  {
    [w % 256, w / 256 % 256]
  }

  function Bytes4(w: nat): (b: bytes)
    ensures |b| == 4
  {
    [w % 0x100, w / 0x100 % 0x100, w / 0x1_0000 % 0x100, w / 0x100_0000 % 0x100]
  }

  function Word4(b: bytes): (w: nat)
    requires |b| == 4
  {
    b[0] as int + 0x100 * b[1] as int + 0x1_0000 * b[2] as int + 0x100_0000 * b[3] as int
  }

  lemma Word4Bytes4(w: nat)
    requires w < 0x1_0000_0000
    ensures Word4(Bytes4(w)) == w
  {
    var a := w / 0x100; var b := a / 0x100; var c := b / 0x100;
    assert w / 0x1_0000 == b && w / 0x100_0000 == c;
  }

  /** Who a frame comes from and what it holds. */
  datatype Source = Source(crate: int, croc: int, chan: int, bank: int, feb: int, firmware: int, hit: int, length: int)

  /** The four words of the frame header. */
  function FrameWords(f: Source): (ws: seq<nat>)
    ensures |ws| == 4
  {
    [ByteSwap(f.length % 0x1_0000), MAGIC_PATTERN, f.bank % 256 * 256 + f.firmware % 256,
     ByteSwap(SourceId(f.crate, f.croc, f.chan, f.feb, f.hit))]
  }

  function FrameBytes(f: Source): (b: bytes)
    ensures |b| == 8
  {
    var ws := FrameWords(f);
    Bytes2(ws[0]) + Bytes2(ws[1]) + Bytes2(ws[2]) + Bytes2(ws[3])
  }

  /** What a reader of the stream finds in a frame header: the length, the bank, the firmware and the source. */
  lemma FrameHeaderIsRead(f: Source, rest: bytes)
    ensures var b := FrameBytes(f) + rest;
            && ReceivedLength(b) == f.length % 0x1_0000
            && b[2] == 0xCB && b[3] == 0xCB && b[4] == f.firmware % 256 && b[5] == f.bank % 256
            && b[6] as int * 256 + b[7] as int == SourceId(f.crate, f.croc, f.chan, f.feb, f.hit)
  {
    hide SourceId, ByteSwap, Bytes2;
    var ws, b := FrameWords(f), FrameBytes(f) + rest;
    assert b[0] == Bytes2(ws[0])[0] && b[1] == Bytes2(ws[0])[1] && b[2] == Bytes2(ws[1])[0] && b[3] == Bytes2(ws[1])[1];
    assert b[4] == Bytes2(ws[2])[0] && b[5] == Bytes2(ws[2])[1] && b[6] == Bytes2(ws[3])[0] && b[7] == Bytes2(ws[3])[1];
    SourceIdFields(f.crate, f.croc, f.chan, f.feb, f.hit);
    SwappedBytes(f.length % 0x1_0000);
    SwappedBytes(SourceId(f.crate, f.croc, f.chan, f.feb, f.hit));
    PairBytes(f.bank % 256, f.firmware % 256);
    PairBytes(0xCB, 0xCB);
  }

  lemma PairBytes(high: nat, low: nat)
    requires low < 256 && high < 256
    ensures Bytes2(high * 256 + low)[0] == low && Bytes2(high * 256 + low)[1] == high
  {
  }

  lemma SwappedBytes(w: nat)
    requires w < 0x1_0000
    ensures Bytes2(ByteSwap(w))[0] as int * 256 + Bytes2(ByteSwap(w))[1] as int == w
  {
  }

  // ----- the DAQ header -----

  /** What a DAQ header says of a gate, as unsigned numbers. */
  datatype GateInfo = GateInfo(
    det: nat, config: nat, run: nat, subRun: nat, trigger: nat, ledLevel: nat, ledGroup: nat,
    globalGate: nat, gate: nat, time: nat, error: nat, minos: nat, readTime: nat,
    adcFrames: nat, discFrames: nat, fpgaFrames: nat)

  /** The twelve words of the information block. */
  function InfoWords(g: GateInfo): (ws: seq<nat>)
    ensures |ws| == 12
  {
    [g.det % 0x100 + g.config % 0x1_0000 * 0x1_0000,
     g.run % 0x1_0000_0000,
     g.subRun % 0x1_0000_0000,
     g.trigger % 0x100 + g.ledLevel % 4 * 0x100 + g.ledGroup / 8 % 32 * 0x800 + g.fpgaFrames % 0x1_0000 * 0x1_0000,
     g.globalGate % 0x1_0000_0000,
     g.globalGate / 0x1_0000_0000 % 0x1_0000_0000,
     g.gate % 0x1_0000_0000,
     g.adcFrames % 0x1_0000 + g.discFrames % 0x1_0000 * 0x1_0000,
     g.time % 0x1_0000_0000,
     g.time / 0x1_0000_0000 % 0x1_0000_0000,
     g.error % 8 * 16 + g.readTime % 0x100_0000 * 0x100,
     g.minos % 0x4000_0000]
  }

  /** What survives in the header. */
  function Masked(g: GateInfo): GateInfo {
    GateInfo(g.det % 0x100, g.config % 0x1_0000, g.run % 0x1_0000_0000, g.subRun % 0x1_0000_0000, g.trigger % 0x100,
             g.ledLevel % 4, g.ledGroup / 8 % 32 * 8, g.globalGate % 0x1_0000_0000_0000_0000, g.gate % 0x1_0000_0000,
             g.time % 0x1_0000_0000_0000_0000, g.error % 8, g.minos % 0x4000_0000, g.readTime % 0x100_0000,
             g.adcFrames % 0x1_0000, g.discFrames % 0x1_0000, g.fpgaFrames % 0x1_0000)
  }

  /** The little-endian word `i` of the information block of a header. */
  function WordOf(b: bytes, i: nat): nat
    requires |b| == DAQ_HEADER_SIZE && i < 12
  {
    Word4(b[8 + 4 * i..12 + 4 * i])
  }

  /** How an unpacker takes the words apart. */
  function FromWords(ws: seq<nat>): GateInfo
    requires |ws| == 12
  {
    GateInfo(ws[0] % 0x100, ws[0] / 0x1_0000, ws[1], ws[2], ws[3] % 0x100, ws[3] / 0x100 % 4, ws[3] / 0x800 % 32 * 8,
             ws[4] + 0x1_0000_0000 * ws[5], ws[6], ws[8] + 0x1_0000_0000 * ws[9], ws[10] / 16 % 8, ws[11],
             ws[10] / 0x100, ws[7] % 0x1_0000, ws[7] / 0x1_0000, ws[3] / 0x1_0000)
  }

  function Unpack(b: bytes): GateInfo
    requires |b| == DAQ_HEADER_SIZE
  {
    FromWords([WordOf(b, 0), WordOf(b, 1), WordOf(b, 2), WordOf(b, 3), WordOf(b, 4), WordOf(b, 5),
               WordOf(b, 6), WordOf(b, 7), WordOf(b, 8), WordOf(b, 9), WordOf(b, 10), WordOf(b, 11)])
  }

  lemma Halves(low: nat, high: nat)
    requires low < 0x1_0000 && high < 0x1_0000
    ensures var w := low + high * 0x1_0000;
            w < 0x1_0000_0000 && w % 0x1_0000 == low && w / 0x1_0000 == high && w % 0x100 == low % 0x100
  {
  }

  lemma Word3(t: nat, l: nat, g: nat, f: nat)
    requires t < 0x100 && l < 4 && g < 32 && f < 0x1_0000
    ensures var w := t + l * 0x100 + g * 0x800 + f * 0x1_0000;
            && w < 0x1_0000_0000 && w % 0x100 == t && w / 0x100 % 4 == l && w / 0x800 % 32 == g && w / 0x1_0000 == f
  {
    hide *;
    var w := t + l * 0x100 + g * 0x800 + f * 0x1_0000;
    var s := f * 32 + g;
    SplitAt(s * 8 + l, t, 0x100);
    SplitAt(s * 2, l, 4);
    SplitAt(s, l, 8);
    SplitAt(f, g, 32);
    WordShifts(w);
    assert (s * 8 + l) * 0x100 + t == w && s * 2 * 4 + l == s * 8 + l;
  }

  lemma WordShifts(w: nat)
    ensures w / 0x800 == w / 0x100 / 8 && w / 0x1_0000 == w / 0x800 / 32 && w / 0x100 == w / 16 / 16
  {
  }

  lemma Word10(e: nat, r: nat)
    requires e < 8 && r < 0x100_0000
    ensures var w := e * 16 + r * 0x100; w < 0x1_0000_0000 && w / 16 % 8 == e && w / 0x100 == r
  {
    hide *;
    var w := e * 16 + r * 0x100;
    SplitAt(r * 16 + e, 0, 16);
    SplitAt(r * 2, e, 8);
    SplitAt(r, e, 16);
    WordShifts(w);
    assert (r * 16 + e) * 16 == w && r * 2 * 8 + e == r * 16 + e;
  }

  lemma WordPair(g: nat)
    ensures g % 0x1_0000_0000 + 0x1_0000_0000 * (g / 0x1_0000_0000 % 0x1_0000_0000) == g % 0x1_0000_0000_0000_0000
  {
    var h := g / 0x1_0000_0000;
    DivUnique(g, 0x1_0000_0000_0000_0000, h / 0x1_0000_0000, g % 0x1_0000_0000 + 0x1_0000_0000 * (h % 0x1_0000_0000));
  }

  lemma InfoWordsUnpacked(g: GateInfo)
    ensures FromWords(InfoWords(g)) == Masked(g)
    ensures forall i | 0 <= i < 12 :: InfoWords(g)[i] < 0x1_0000_0000
  {
    Halves(g.det % 0x100, g.config % 0x1_0000);
    Word3(g.trigger % 0x100, g.ledLevel % 4, g.ledGroup / 8 % 32, g.fpgaFrames % 0x1_0000);
    Word10(g.error % 8, g.readTime % 0x100_0000);
    Halves(g.adcFrames % 0x1_0000, g.discFrames % 0x1_0000);
    WordPair(g.globalGate);
    WordPair(g.time);
    WordLimits(g);
  }

  lemma WordLimits(g: GateInfo)
    ensures forall i | 0 <= i < 12 :: InfoWords(g)[i] < 0x1_0000_0000
  {
  }

  /** The bytes are a DAQ header with this frame header and these words. */
  ghost predicate IsDaqHeader(b: bytes, f: Source, ws: seq<nat>) {
    && |ws| == 12 && |b| == DAQ_HEADER_SIZE && b[..8] == FrameBytes(f)
    && forall i | 0 <= i < 12 :: b[8 + 4 * i..12 + 4 * i] == Bytes4(ws[i])
  }

  lemma WordIsRead(b: bytes, f: Source, ws: seq<nat>, i: nat)
    requires IsDaqHeader(b, f, ws) && i < 12 && ws[i] < 0x1_0000_0000
    ensures WordOf(b, i) == ws[i]
  {
    Word4Bytes4(ws[i]);
  }

  lemma WordsAreRead(b: bytes, f: Source, ws: seq<nat>)
    requires IsDaqHeader(b, f, ws) && forall i | 0 <= i < 12 :: ws[i] < 0x1_0000_0000
    ensures Unpack(b) == FromWords(ws)
  {
    hide WordOf, FromWords;
    forall i | 0 <= i < 12 ensures WordOf(b, i) == ws[i] { WordIsRead(b, f, ws, i); }
    assert ws == [WordOf(b, 0), WordOf(b, 1), WordOf(b, 2), WordOf(b, 3), WordOf(b, 4), WordOf(b, 5),
                  WordOf(b, 6), WordOf(b, 7), WordOf(b, 8), WordOf(b, 9), WordOf(b, 10), WordOf(b, 11)];
  }

  /**
    Every field of every gate is recovered from its header, modulo its mask, and the frame header in
    front of it reads as the length and the bank it was built with.
   */
  lemma HeaderIsUnpacked(b: bytes, f: Source, g: GateInfo)
    requires IsDaqHeader(b, f, InfoWords(g))
    ensures Unpack(b) == Masked(g)
    ensures ReceivedLength(b) == f.length % 0x1_0000 && b[4] == f.firmware % 256 && b[5] == f.bank % 256
  {
    hide FromWords, InfoWords, FrameBytes, Unpack, Masked;
    InfoWordsUnpacked(g);
    WordsAreRead(b, f, InfoWords(g));
    FrameHeaderIsRead(f, b[8..]);
    assert FrameBytes(f) + b[8..] == b;
  }

  /** `FrameHeader`. */
  class FrameHeader {
    const bankHeader: array<nat>

    constructor (f: Source)
      ensures bankHeader.Length == 4 && bankHeader[..] == FrameWords(f) && fresh(bankHeader)
    {
      var sourceId := SourceId(f.crate, f.croc, f.chan, f.feb, f.hit);
      bankHeader := new nat[4];
      new;
      bankHeader[0] := ByteSwap(f.length % 0x1_0000);
      bankHeader[1] := MAGIC_PATTERN;
      bankHeader[2] := f.bank % 256 * 256 + f.firmware % 256;
      bankHeader[3] := ByteSwap(sourceId);
    }
  }

  /** `DAQHeader`: 56 bytes filled by two loops. */
  class DAQHeader {
    const data: array<byte>
    const dataLength: nat

    constructor (g: GateInfo, f: Source, header: FrameHeader)
      requires header.bankHeader.Length == 4 && header.bankHeader[..] == FrameWords(f)
      ensures dataLength == data.Length == DAQ_HEADER_SIZE && fresh(data)
      ensures IsDaqHeader(data[..], f, InfoWords(g))
    {
      dataLength := DAQ_HEADER_SIZE;
      data := new byte[DAQ_HEADER_SIZE];
      new;
      hide FrameWords, InfoWords;
      FillInfo(data, InfoWords(g));
      ghost var was := data[..];
      FillFrame(data, f, header);
      InfoKept(data[..], was, InfoWords(g));
    }
  }

  /** The first `n` words are in their places. */
  ghost predicate InfoUpTo(b: bytes, block: seq<nat>, n: nat) {
    && |b| == DAQ_HEADER_SIZE && n <= 12 == |block|
    && forall i | 0 <= i < n :: b[8 + 4 * i..12 + 4 * i] == Bytes4(block[i])
  }

  /** `b'` is `b` but for the bytes from `at` to `end`. */
  ghost predicate SameOutside(b': bytes, b: bytes, at: nat, end: nat) {
    |b'| == |b| && forall p | 0 <= p < |b| && !(at <= p < end) :: b'[p] == b[p]
  }

  lemma InfoNext(b': bytes, b: bytes, block: seq<nat>, n: nat)
    requires InfoUpTo(b, block, n) && n < 12 && SameOutside(b', b, 8 + 4 * n, 12 + 4 * n)
    requires b'[8 + 4 * n..12 + 4 * n] == Bytes4(block[n])
    ensures InfoUpTo(b', block, n + 1)
  {
    hide Bytes4;
    forall i | 0 <= i < n ensures b'[8 + 4 * i..12 + 4 * i] == Bytes4(block[i]) {
      assert b'[8 + 4 * i..12 + 4 * i] == b[8 + 4 * i..12 + 4 * i];
    }
  }

  lemma OutsideGrows(b'': bytes, b': bytes, b: bytes, n: nat)
    requires n < 12 && |b| == DAQ_HEADER_SIZE
    requires SameOutside(b', b, 8, 8 + 4 * n) && SameOutside(b'', b', 8 + 4 * n, 12 + 4 * n)
    ensures SameOutside(b'', b, 8, 12 + 4 * n)
  {
  }

  lemma InfoKept(b': bytes, b: bytes, block: seq<nat>)
    requires InfoUpTo(b, block, 12) && SameOutside(b', b, 0, 8)
    ensures InfoUpTo(b', block, 12)
  {
    hide Bytes4;
    forall i | 0 <= i < 12 ensures b'[8 + 4 * i..12 + 4 * i] == Bytes4(block[i]) {
      assert b'[8 + 4 * i..12 + 4 * i] == b[8 + 4 * i..12 + 4 * i];
    }
  }

  method PutWord(data: array<byte>, at: nat, w: nat)
    requires at + 4 <= data.Length
    modifies data
    ensures data[at..at + 4] == Bytes4(w) && SameOutside(data[..], old(data[..]), at, at + 4)
  {
    data[at] := w % 0x100;
    data[at + 1] := w / 0x100 % 0x100;
    data[at + 2] := w / 0x1_0000 % 0x100;
    data[at + 3] := w / 0x100_0000 % 0x100;
  }

  /** The loop over the information block. */
  method FillInfo(data: array<byte>, block: seq<nat>)
    requires data.Length == DAQ_HEADER_SIZE && |block| == 12
    modifies data
    ensures InfoUpTo(data[..], block, 12) && SameOutside(data[..], old(data[..]), 8, DAQ_HEADER_SIZE)
  {
    hide InfoUpTo, SameOutside, Bytes4;
    var at := 4;
    ghost var before := data[..];
    InfoNone(before, block);
    for i := 0 to 12
      invariant at == 4 + 4 * i && InfoUpTo(data[..], block, i) && SameOutside(data[..], before, 8, 8 + 4 * i)
    {
      at := at + 4;
      ghost var was := data[..];
      PutWord(data, at, block[i]);
      assert data[at..at + 4] == data[..][at..at + 4];
      InfoNext(data[..], was, block, i);
      OutsideGrows(data[..], was, before, i);
    }
  }

  lemma InfoNone(b: bytes, block: seq<nat>)
    requires |b| == DAQ_HEADER_SIZE && |block| == 12
    ensures InfoUpTo(b, block, 0) && SameOutside(b, b, 8, 8)
  {
  }

  /** The loop that puts the frame header in front. */
  method FillFrame(data: array<byte>, f: Source, header: FrameHeader)
    requires data.Length == DAQ_HEADER_SIZE
    requires header.bankHeader.Length == 4 && header.bankHeader[..] == FrameWords(f)
    requires header.bankHeader as object != data
    modifies data
    ensures data[..8] == FrameBytes(f) && SameOutside(data[..], old(data[..]), 0, 8)
  {
    hide FrameWords;
    var at := 0;
    for i := 0 to 4
      invariant at == 2 * i && SameOutside(data[..], old(data[..]), 0, 2 * i)
      invariant header.bankHeader[..] == FrameWords(f)
      invariant forall k | 0 <= k < i ::
                  data[2 * k] == FrameWords(f)[k] % 256 && data[2 * k + 1] == FrameWords(f)[k] / 256 % 256
    {
      var w := header.bankHeader[i];
      assert w == FrameWords(f)[i];
      data[at] := w % 256;
      at := at + 1;
      data[at] := w / 256 % 256;
      at := at + 1;
    }
    assert data[..8] == FrameBytes(f) by {
      var ws := FrameWords(f);
      assert data[..8] == [data[0], data[1], data[2], data[3], data[4], data[5], data[6], data[7]];
      assert data[2 * 0] == ws[0] % 256 && data[2 * 1] == ws[1] % 256 && data[2 * 2] == ws[2] % 256;
    }
  }
}
