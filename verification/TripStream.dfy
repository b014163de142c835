/**
  The byte stream that programs the registers of a TRiP chip, as `EncodeRegisterValues` builds it, and
  an independent receiver that recovers every register from it.
 */
module TripStream {
  import opened Bytes
  import opened BitSerial

  /** The chip id and command the frame puts in front of every register, and whether it reads. */
  datatype Order = Order(chip: nat, command: nat, read: bool) {
    /** Both codes fit their fields of five and three bits. */
    predicate Fits() {
      chip < 32 && command < 8
    }
  }

  const REGISTERS := 14

  /** Width of physical register `i` (its address is i + 1). */
  function RegisterBits(i: nat): nat {
    if i == 10 then 10 else if i == 11 then 4 else if i == 13 then 34 else 8
  }

  /** Register 13 does not exist; register 14, the injection register, cannot be read. */
  predicate Skipped(i: nat, read: bool) {
    i == 12 || (i == 13 && read)
  }

  const TAIL: bytes := [1, 0, 2, 0, 2, 0, 0]

  /** Start, chip id, register address, command, turn-around, value and tail. */
  function RegisterBytes(i: nat, value: nat, o: Order): (s: bytes)
    ensures |s| == 37 + 2 * RegisterBits(i)
  {
    [0, 1] + (SortNSet(false, o.chip, 5, true, false) +
    (SortNSet(false, i + 1, 5, true, false) +
    (SortNSet(false, o.command, 3, true, false) +
    ([3, 1] + (SortNSet(false, value, RegisterBits(i), true, true) + TAIL)))))
  }

  /** The next odd number. */
  function ToOdd(n: nat): nat {
    if n % 2 == 1 then n else n + 1
  }

  /** A zero byte keeps the size of the buffer odd. */
  function Padded(s: bytes): bytes {
    if |s| % 2 != 1 then s + [0] else s
  }

  /** The buffer after the first `k` registers. */
  function Encoded(regs: seq<nat>, o: Order, k: nat): bytes
    requires k <= |regs|
  {
    if k == 0 then []
    else if Skipped(k - 1, o.read) then Encoded(regs, o, k - 1)
    else Padded(Encoded(regs, o, k - 1) + RegisterBytes(k - 1, regs[k - 1], o))
  }

  // ----- the receiver -----

  datatype Word = Word(chip: nat, address: nat, command: nat, value: nat)

  datatype Received = Received(word: Word, next: nat)

  /**
    One register from position `p`: thirteen clock pairs of header, a turn-around, as many pairs as the
    addressed register is wide, the tail, and a pad byte wherever the position would be even.
   */
  function ReadWord(s: bytes, p: nat): (r: Option<Received>)
    ensures r.Some? ==> p < r.value.next <= |s|
  {
    if p + 30 > |s| || !PairsAt(s, p + 2, 13) then None
    else
      var chip := FromHigh(Sample(s, p + 2, 5));
      var address := FromHigh(Sample(s, p + 12, 5));
      var command := FromHigh(Sample(s, p + 22, 3));
      if address == 0 then None
      else
        var n := RegisterBits(address - 1);
        var end := p + 37 + 2 * n;
        var next := ToOdd(end);
        if next > |s| || !PairsAt(s, p + 30, n) then None
        else Some(Received(Word(chip, address, command, FromLow(Sample(s, p + 30, n))), next))
  }

  function ReadAll(s: bytes, p: nat): Option<seq<Word>>
    decreases |s| - p
  {
    if p >= |s| then Some([])
    else match ReadWord(s, p)
      case None => None
      case Some(r) =>
        match ReadAll(s, r.next)
        case None => None
        case Some(words) => Some([r.word] + words)
  }

  /** What a perfect link delivers: each register once, in order, its value modulo its width. */
  function Expected(regs: seq<nat>, o: Order, k: nat): seq<Word>
    requires k <= |regs|
    decreases |regs| - k
  {
    if k == |regs| then []
    else if Skipped(k, o.read) then Expected(regs, o, k + 1)
    else [Word(o.chip, k + 1, o.command, Low(regs[k], RegisterBits(k)))] + Expected(regs, o, k + 1)
  }

  // ----- proofs -----

  lemma DropHead(r: bytes, p: nat, a: bytes, b: bytes)
    requires p <= |r| && r[p..] == a + b
    ensures p + |a| <= |r| && r[p..p + |a|] == a && r[p + |a|..] == b
  {
    assert r[p..][..|a|] == r[p..p + |a|] && r[p..][|a|..] == r[p + |a|..];
  }

  /** Where the three header fields and the value sit inside one register's bytes. */
  lemma RegisterFields(i: nat, value: nat, o: Order)
    ensures var r := RegisterBytes(i, value, o);
      && r[2..12] == SortNSet(false, o.chip, 5, true, false)
      && r[12..22] == SortNSet(false, i + 1, 5, true, false)
      && r[22..28] == SortNSet(false, o.command, 3, true, false)
      && r[30..30 + 2 * RegisterBits(i)] == SortNSet(false, value, RegisterBits(i), true, true)
  {
    var a, b := SortNSet(false, o.chip, 5, true, false), SortNSet(false, i + 1, 5, true, false);
    var c, v := SortNSet(false, o.command, 3, true, false), SortNSet(false, value, RegisterBits(i), true, true);
    hide SortNSet;
    var r := RegisterBytes(i, value, o);
    assert r[0..] == r == [0, 1] + (a + (b + (c + ([3, 1] + (v + TAIL)))));
    hide RegisterBytes;
    DropHead(r, 0, [0, 1], a + (b + (c + ([3, 1] + (v + TAIL)))));
    DropHead(r, 2, a, b + (c + ([3, 1] + (v + TAIL))));
    DropHead(r, 12, b, c + ([3, 1] + (v + TAIL)));
    DropHead(r, 22, c, [3, 1] + (v + TAIL));
    DropHead(r, 28, [3, 1], v + TAIL);
    DropHead(r, 30, v, TAIL);
  }

  lemma SliceOfSlice(s: bytes, p: nat, r: bytes, a: nat, b: nat)
    requires p + |r| <= |s| && s[p..p + |r|] == r && a <= b <= |r|
    ensures s[p + a..p + b] == r[a..b]
  {
    forall i | 0 <= i < b - a ensures s[p + a..p + b][i] == r[a..b][i] {
      assert s[p + a + i] == s[p..p + |r|][a + i];
    }
  }

  lemma PairsJoin(s: bytes, at: nat, n: nat, m: nat)
    requires PairsAt(s, at, n) && PairsAt(s, at + 2 * n, m)
    ensures PairsAt(s, at, n + m)
  {
    forall i | 0 <= i < n + m ensures ClockPair(s[at + 2 * i], s[at + 2 * i + 1]) {
      if i >= n {
        assert ClockPair(s[at + 2 * n + 2 * (i - n)], s[at + 2 * n + 2 * (i - n) + 1]);
      }
    }
  }

  lemma {:induction false} LowSmall(v: nat, n: nat)
    requires v < Pow2(n)
    ensures Low(v, n) == v
  {
    DivUnique(v, Pow2(n), 0, v);
  }

  lemma FieldWidths(i: nat, o: Order)
    requires i < REGISTERS && o.Fits()
    ensures Low(o.chip, 5) == o.chip && Low(i + 1, 5) == i + 1 && Low(o.command, 3) == o.command
  {
    assert Pow2(3) == 8 && Pow2(5) == 32;
    hide Low, Pow2;
    LowSmall(o.chip, 5);
    LowSmall(i + 1, 5);
    LowSmall(o.command, 3);
  }

  /** The header of a register that sits at `p`, as the receiver sees it. */
  lemma HeaderIsRead(s: bytes, p: nat, i: nat, value: nat, o: Order)
    requires i < REGISTERS && o.Fits() && p + |RegisterBytes(i, value, o)| <= |s|
    requires s[p..p + |RegisterBytes(i, value, o)|] == RegisterBytes(i, value, o)
    ensures p + 30 <= |s| && PairsAt(s, p + 2, 13)
    ensures FromHigh(Sample(s, p + 2, 5)) == o.chip
    ensures FromHigh(Sample(s, p + 12, 5)) == i + 1
    ensures FromHigh(Sample(s, p + 22, 3)) == o.command
  {
    hide *;
    var r := RegisterBytes(i, value, o);
    RegisterFields(i, value, o);
    FieldWidths(i, o);
    FieldIsRead(s, p, r, 2, o.chip, 5);
    FieldIsRead(s, p, r, 12, i + 1, 5);
    FieldIsRead(s, p, r, 22, o.command, 3);
    PairsJoin(s, p + 2, 5, 5);
    PairsJoin(s, p + 2, 10, 3);
  }

  /** A field sent highest bit first, as the receiver sees it. */
  lemma FieldIsRead(s: bytes, p: nat, r: bytes, at: nat, data: nat, n: nat)
    requires p + |r| <= |s| && s[p..p + |r|] == r
    requires at + 2 * n <= |r| && r[at..at + 2 * n] == SortNSet(false, data, n, true, false)
    ensures PairsAt(s, p + at, n) && FromHigh(Sample(s, p + at, n)) == Low(data, n)
  {
    hide *;
    SliceOfSlice(s, p, r, at, at + 2 * n);
    SampleClocked(s, p + at, data, n, true, false, false);
    HighFirstRoundTrip(data, n);
  }

  lemma ValueIsRead(s: bytes, p: nat, i: nat, value: nat, o: Order)
    requires p + |RegisterBytes(i, value, o)| <= |s|
    requires s[p..p + |RegisterBytes(i, value, o)|] == RegisterBytes(i, value, o)
    ensures PairsAt(s, p + 30, RegisterBits(i))
    ensures FromLow(Sample(s, p + 30, RegisterBits(i))) == Low(value, RegisterBits(i))
  {
    var n := RegisterBits(i);
    RegisterFields(i, value, o);
    hide RegisterBytes, SortNSet, PairsAt, Sample, SortedBits, FromLow, Low;
    SliceOfSlice(s, p, RegisterBytes(i, value, o), 30, 30 + 2 * n);
    SampleClocked(s, p + 30, value, n, true, false, true);
    LowFirstRoundTrip(value, n);
  }

  lemma EncodedStep(regs: seq<nat>, o: Order, k: nat)
    requires k < |regs|
    ensures Encoded(regs, o, k + 1) ==
      if Skipped(k, o.read) then Encoded(regs, o, k)
      else Padded(Encoded(regs, o, k) + RegisterBytes(k, regs[k], o))
    ensures Encoded(regs, o, k) <= Encoded(regs, o, k + 1)
  {
    hide RegisterBytes;
  }

  lemma {:induction false} EncodedIsPrefix(regs: seq<nat>, o: Order, k: nat, k': nat)
    requires k <= k' <= |regs|
    ensures Encoded(regs, o, k) <= Encoded(regs, o, k')
  {
    hide Encoded, Skipped, Padded, RegisterBytes;
    if k < k' {
      EncodedIsPrefix(regs, o, k, k' - 1);
      EncodedStep(regs, o, k' - 1);
    }
  }

  /** A register that is sent occupies its place in the whole stream, pad included. */
  lemma RegisterPlace(regs: seq<nat>, o: Order, k: nat)
    requires k < |regs| && !Skipped(k, o.read)
    ensures var s := Encoded(regs, o, |regs|);
      var p := |Encoded(regs, o, k)|;
      var r := RegisterBytes(k, regs[k], o);
      var end := p + |r|;
      && end <= |s| && s[p..end] == r
      && |Encoded(regs, o, k + 1)| == ToOdd(end) <= |s|
  {
    hide RegisterBytes, Encoded;
    var s, b, c := Encoded(regs, o, |regs|), Encoded(regs, o, k), Encoded(regs, o, k + 1);
    EncodedStep(regs, o, k);
    EncodedIsPrefix(regs, o, k + 1, |regs|);
    var r := RegisterBytes(k, regs[k], o);
    PrefixSlice(s, c, b, r);
  }

  lemma PrefixSlice(s: bytes, c: bytes, b: bytes, r: bytes)
    requires c <= s && c == Padded(b + r)
    ensures |b| + |r| <= |c| <= |s| && s[|b|..|b| + |r|] == r
  {
    assert c[..|b| + |r|] == b + r;
    assert s[|b|..|b| + |r|] == c[..|b| + |r|][|b|..];
  }

  lemma ReadWordParts(s: bytes, p: nat, w: Word, next: nat)
    requires p + 30 <= |s| && PairsAt(s, p + 2, 13) && w.address > 0
    requires FromHigh(Sample(s, p + 2, 5)) == w.chip && FromHigh(Sample(s, p + 12, 5)) == w.address
    requires FromHigh(Sample(s, p + 22, 3)) == w.command
    requires PairsAt(s, p + 30, RegisterBits(w.address - 1))
    requires FromLow(Sample(s, p + 30, RegisterBits(w.address - 1))) == w.value
    requires var end := p + 37 + 2 * RegisterBits(w.address - 1); next == ToOdd(end)
    requires next <= |s|
    ensures ReadWord(s, p) == Some(Received(w, next))
  {
    hide PairsAt, Sample, FromHigh, FromLow, RegisterBits;
  }

  lemma WordIsRead(regs: seq<nat>, o: Order, k: nat)
    requires |regs| == REGISTERS && o.Fits() && k < REGISTERS && !Skipped(k, o.read)
    ensures var s := Encoded(regs, o, |regs|);
      ReadWord(s, |Encoded(regs, o, k)|) ==
      Some(Received(Word(o.chip, k + 1, o.command, Low(regs[k], RegisterBits(k))), |Encoded(regs, o, k + 1)|))
  {
    hide *;
    var s, p := Encoded(regs, o, |regs|), |Encoded(regs, o, k)|;
    RegisterPlace(regs, o, k);
    HeaderIsRead(s, p, k, regs[k], o);
    ValueIsRead(s, p, k, regs[k], o);
    var w := Word(o.chip, k + 1, o.command, Low(regs[k], RegisterBits(k)));
    ReadWordParts(s, p, w, |Encoded(regs, o, k + 1)|);
  }

  lemma {:induction false} StreamIsReadFrom(regs: seq<nat>, o: Order, k: nat)
    requires |regs| == REGISTERS && o.Fits() && k <= REGISTERS
    ensures ReadAll(Encoded(regs, o, |regs|), |Encoded(regs, o, k)|) == Some(Expected(regs, o, k))
    decreases REGISTERS - k
  {
    hide Encoded, RegisterBytes, ReadWord, Low, Skipped, PairsAt, Sample;
    if k < REGISTERS {
      StreamIsReadFrom(regs, o, k + 1);
      EncodedIsPrefix(regs, o, k, |regs|);
      if Skipped(k, o.read) {
        EncodedSkip(regs, o, k);
      } else {
        WordIsRead(regs, o, k);
      }
    }
  }

  lemma EncodedSkip(regs: seq<nat>, o: Order, k: nat)
    requires k < |regs| && Skipped(k, o.read)
    ensures Encoded(regs, o, k + 1) == Encoded(regs, o, k)
  {
  }

  /** The whole stream, for any register contents: every register is recovered, in order. */
  lemma StreamIsUniquelyReadable(regs: seq<nat>, o: Order)
    requires |regs| == REGISTERS && o.Fits()
    ensures ReadAll(Encoded(regs, o, |regs|), 0) == Some(Expected(regs, o, 0))
  {
    StreamIsReadFrom(regs, o, 0);
  }

  // ----- sizes -----

  /** Size of the buffer after `k` registers, whatever their contents. */
  function BufferSize(read: bool, k: nat): nat {
    if k == 0 then 0
    else if Skipped(k - 1, read) then BufferSize(read, k - 1)
    else ToOdd(BufferSize(read, k - 1) + 37 + 2 * RegisterBits(k - 1))
  }

  lemma PaddedSize(s: bytes)
    ensures |Padded(s)| == ToOdd(|s|)
  {
  }

  lemma BufferStep(read: bool, k: nat)
    ensures BufferSize(read, 0) == 0
    ensures BufferSize(read, k + 1) ==
      if Skipped(k, read) then BufferSize(read, k)
      else ToOdd(BufferSize(read, k) + 37 + 2 * RegisterBits(k))
  {
  }

  lemma EncodedSizeStep(regs: seq<nat>, o: Order, k: nat)
    requires k < |regs|
    ensures |Encoded(regs, o, k + 1)| ==
      if Skipped(k, o.read) then |Encoded(regs, o, k)|
      else ToOdd(|Encoded(regs, o, k)| + 37 + 2 * RegisterBits(k))
  {
    hide RegisterBytes, Skipped, RegisterBits;
    EncodedStep(regs, o, k);
    PaddedSize(Encoded(regs, o, k) + RegisterBytes(k, regs[k], o));
  }

  lemma {:induction false} EncodedSize(regs: seq<nat>, o: Order, k: nat)
    requires k <= |regs|
    ensures |Encoded(regs, o, k)| == BufferSize(o.read, k)
  {
    hide *;
    if k > 0 {
      EncodedSize(regs, o, k - 1);
      EncodedSizeStep(regs, o, k - 1);
      BufferStep(o.read, k - 1);
    } else {
      BufferStep(o.read, k);
      EmptyBuffer(regs, o);
    }
  }

  lemma EmptyBuffer(regs: seq<nat>, o: Order)
    ensures Encoded(regs, o, 0) == []
  {
  }

  lemma {:induction false} EightBitSizes(read: bool, k: nat)
    requires 1 <= k <= 10
    ensures BufferSize(read, k) == 54 * k - 1
  {
    if k > 1 {
      EightBitSizes(read, k - 1);
    }
  }

  /** All but the first register are padded; the totals do not depend on any value. */
  lemma BufferSizes(read: bool)
    ensures BufferSize(read, 12) == 643 && BufferSize(read, 14) == if read then 643 else 749
  {
    hide BufferSize;
    EightBitSizes(read, 10);
    BufferStep(read, 10);
    BufferStep(read, 11);
    BufferStep(read, 12);
    BufferStep(read, 13);
  }
}
