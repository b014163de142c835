/**
  Six TRiP chips answering together. `regs(c, j)` is what register `j` of chip `c` holds; chip `c`
  drives bit c + 2 of every byte that carries a value bit.
 */
module TripChips {
  import opened Bytes
  import opened BitSerial
  import opened Lvds
  import opened TripStream
  import opened TripReply

  const CHIPS := 6

  type Contents = (nat, nat) -> nat

  /** Bit `b` of register `j` of the first `n` chips, side by side. */
  function Lanes(regs: Contents, j: nat, b: nat, n: nat): (v: nat)
    ensures v < Pow2(n)
  {
    if n == 0 then 0
    else Lanes(regs, j, b, n - 1) + if Bit(regs(n - 1, j), b) then Pow2(n - 1) else 0
  }

  lemma SixLanes(regs: Contents, j: nat, b: nat)
    ensures Lanes(regs, j, b, CHIPS) < 64
  {
    assert Pow2(2) == 4 && Pow2(4) == 16 && Pow2(6) == 64;
  }

  function Preamble(): (s: bytes)
    ensures |s| == 31 && s[0] == 0 && s[1] == 1 && s[30] == 3
    ensures forall k | 0 <= k < 14 :: s[2 * k + 2] == 3 && s[2 * k + 3] == 1
  {
    seq(31, i requires 0 <= i < 31 => if i == 0 then 0 else if i % 2 == 1 then 1 else 3)
  }

  /** The first byte of the pair for bit `b`; the second adds the clock line unless the bit is the last. */
  function LaneByte(regs: Contents, j: nat, b: nat, clock: bool): byte {
    SixLanes(regs, j, b);
    4 * Lanes(regs, j, b, CHIPS) + if clock then 3 else 1
  }

  /** The first `i` of the `n` bits of register `j`, most significant first. */
  function ValueBytes(regs: Contents, j: nat, n: nat, i: nat): (s: bytes)
    requires i <= n
    ensures |s| == 2 * i
  {
    if i == 0 then []
    else
      var b := n - i;
      ValueBytes(regs, j, n, i - 1) + [LaneByte(regs, j, b, false), LaneByte(regs, j, b, b > 0)]
  }

  const REPLY_TAIL: bytes := [0, 2, 0, 2, 0, 0]

  function Record(regs: Contents, j: nat): (s: bytes)
    ensures |s| == 37 + 2 * RegisterBits(j)
  {
    Preamble() + (ValueBytes(regs, j, RegisterBits(j), RegisterBits(j)) + REPLY_TAIL)
  }

  function PaddedEven(s: bytes): bytes {
    if |s| % 2 == 1 then s + [0] else s
  }

  /** The message up to register `k`, behind a header. */
  function ReplyUpTo(header: bytes, regs: Contents, k: nat): bytes {
    if k == 0 then header
    else if Skipped(k - 1, true) then ReplyUpTo(header, regs, k - 1)
    else PaddedEven(ReplyUpTo(header, regs, k - 1) + Record(regs, k - 1))
  }

  function Reply(header: bytes, regs: Contents, trailer: bytes): bytes {
    ReplyUpTo(header, regs, 12) + trailer
  }

  // ----- one lane among six -----

  lemma {:induction false} BitOfSum(x: nat, n: nat, b: bool, c: nat)
    requires x < Pow2(n) && c <= n
    ensures Bit(x + (if b then Pow2(n) else 0), c) == if c == n then b else Bit(x, c)
  {
    if n > 0 {
      var v := x + if b then Pow2(n) else 0;
      assert v / 2 == x / 2 + (if b then Pow2(n - 1) else 0) && v % 2 == x % 2;
      if c > 0 {
        BitOfSum(x / 2, n - 1, b, c - 1);
      }
    }
  }

  /** Each chip's bit is untouched by the others. */
  lemma {:induction false} LaneIsIndependent(regs: Contents, j: nat, b: nat, n: nat, c: nat)
    requires c < n
    ensures Bit(Lanes(regs, j, b, n), c) == Bit(regs(c, j), b)
  {
    hide Bit;
    BitOfSum(Lanes(regs, j, b, n - 1), n - 1, Bit(regs(n - 1, j), b), c);
    if c < n - 1 {
      LaneIsIndependent(regs, j, b, n - 1, c);
    }
  }

  lemma ShiftTwo(v: nat, k: nat, c: nat)
    requires k < 4
    ensures Bit(4 * v + k, c + 2) == Bit(v, c)
  {
    var w := 4 * v + k;
    assert w / 2 / 2 == v;
    assert Bit(w, c + 2) == Bit(w / 2, c + 1) == Bit(w / 2 / 2, c);
  }

  lemma LaneByteLines(regs: Contents, j: nat, b: nat, clock: bool, c: nat)
    requires c < CHIPS
    ensures LaneByte(regs, j, b, clock) % 4 == (if clock then 3 else 1)
    ensures Bit(LaneByte(regs, j, b, clock), c + 2) == Bit(regs(c, j), b)
  {
    hide Bit, Lanes;
    ShiftTwo(Lanes(regs, j, b, CHIPS), if clock then 3 else 1, c);
    LaneIsIndependent(regs, j, b, CHIPS, c);
  }

  // ----- one register -----

  lemma {:induction false} ValueByteAt(regs: Contents, j: nat, n: nat, i: nat, k: nat)
    requires k < i <= n
    ensures ValueBytes(regs, j, n, i)[2 * k] == LaneByte(regs, j, n - 1 - k, false)
    ensures ValueBytes(regs, j, n, i)[2 * k + 1] == LaneByte(regs, j, n - 1 - k, n - 1 - k > 0)
  {
    hide LaneByte;
    if k < i - 1 {
      ValueByteAt(regs, j, n, i - 1, k);
    }
  }

  lemma {:induction false} LineBitAt(m: bytes, o: nat, n: nat, f: nat, k: nat)
    requires k < n
    ensures LineBits(m, o, n, f)[k] == LineAt(m, o + 2 * k, f)
  {
    hide LineAt;
    if k < n - 1 {
      LineBitAt(m, o, n - 1, f, k);
    }
  }

  lemma {:induction false} HighBitAt(d: nat, n: nat, k: nat)
    requires k < n
    ensures SortedBits(d, n, false)[k] == Bit(d, n - 1 - k)
  {
    hide Bit;
    if k > 0 {
      HighBitAt(d, n - 1, k - 1);
    }
  }

  lemma PairAt(m: bytes, o: nat, regs: Contents, j: nat, n: nat, c: nat, i: nat)
    requires c < CHIPS && i < n && o + 2 * n <= |m| && m[o..o + 2 * n] == ValueBytes(regs, j, n, n)
    ensures BitPair(m[o + 2 * i], m[o + 2 * i + 1], i == n - 1, c + 2)
    ensures LineAt(m, o + 2 * i, c + 2) == Bit(regs(c, j), n - 1 - i)
  {
    hide Bit, LaneByte, ValueBytes;
    var b := n - 1 - i;
    ValueByteAt(regs, j, n, n, i);
    assert m[o + 2 * i] == m[o..o + 2 * n][2 * i] && m[o + 2 * i + 1] == m[o..o + 2 * n][2 * i + 1];
    LaneByteLines(regs, j, b, false, c);
    LaneByteLines(regs, j, b, b > 0, c);
  }

  lemma ValueIsReadBack(m: bytes, o: nat, regs: Contents, j: nat, n: nat, c: nat)
    requires c < CHIPS && o + 2 * n <= |m| && m[o..o + 2 * n] == ValueBytes(regs, j, n, n)
    ensures ValueAt(m, o, n, c + 2)
    ensures FromHigh(LineBits(m, o, n, c + 2)) == Low(regs(c, j), n)
  {
    hide BitPair, Bit, LineAt, LineBits, SortedBits, ValueBytes, FromHigh, Low;
    forall i | 0 <= i < n ensures BitPair(m[o + 2 * i], m[o + 2 * i + 1], i == n - 1, c + 2) {
      PairAt(m, o, regs, j, n, c, i);
    }
    var a, b := LineBits(m, o, n, c + 2), SortedBits(regs(c, j), n, false);
    forall i | 0 <= i < n ensures a[i] == b[i] {
      PairAt(m, o, regs, j, n, c, i);
      LineBitAt(m, o, n, c + 2, i);
      HighBitAt(regs(c, j), n, i);
    }
    assert a == b;
    HighFirstRoundTrip(regs(c, j), n);
  }

  lemma PreambleIsRead(m: bytes, o: nat)
    requires o + 31 <= |m| && m[o..o + 31] == Preamble()
    ensures PreambleAt(m, o)
  {
    var p := m[o..o + 31];
    assert m[o] == p[0] && m[o + 1] == p[1] && m[o + 30] == p[30];
    hide Preamble;
    forall k | 0 <= k < 14 ensures PreamblePair(m, o, k) {
      assert m[o + 2 * k + 2] == p[2 * k + 2] && m[o + 2 * k + 3] == p[2 * k + 3];
    }
  }

  lemma TailIsRead(m: bytes, o: nat)
    requires o + 6 <= |m| && m[o..o + 6] == REPLY_TAIL && (o % 2 == 1 ==> o + 6 < |m| && m[o + 6] == 0)
    ensures TailAt(m, o)
  {
    var t := m[o..o + 6];
    assert m[o] == t[0] && m[o + 1] == t[1] && m[o + 2] == t[2];
    assert m[o + 3] == t[3] && m[o + 4] == t[4] && m[o + 5] == t[5];
  }

  // ----- the whole message -----

  lemma ReplyStep(header: bytes, regs: Contents, k: nat)
    ensures ReplyUpTo(header, regs, k + 1) ==
      if Skipped(k, true) then ReplyUpTo(header, regs, k)
      else PaddedEven(ReplyUpTo(header, regs, k) + Record(regs, k))
    ensures ReplyUpTo(header, regs, k) <= ReplyUpTo(header, regs, k + 1)
  {
    hide Record;
  }

  lemma PaddedEvenSize(s: bytes)
    ensures |PaddedEven(s)| == ToEven(|s|)
  {
  }

  lemma {:induction false} ReplySize(header: bytes, regs: Contents, k: nat)
    requires |header| == DATA
    ensures |ReplyUpTo(header, regs, k)| == Start(k)
  {
    hide Record, PaddedEven, ToEven, RegisterBits, Skipped, Start;
    if k > 0 {
      ReplySize(header, regs, k - 1);
      StartStep(k - 1);
      PaddedEvenSize(ReplyUpTo(header, regs, k - 1) + Record(regs, k - 1));
    } else {
      StartStep(0);
    }
  }

  lemma {:induction false} ReplyIsPrefix(header: bytes, regs: Contents, k: nat, k': nat)
    requires k <= k'
    ensures ReplyUpTo(header, regs, k) <= ReplyUpTo(header, regs, k')
  {
    hide Record, PaddedEven, ReplyUpTo;
    if k < k' {
      ReplyIsPrefix(header, regs, k, k' - 1);
      ReplyStep(header, regs, k' - 1);
    }
  }

  lemma PaddedPlace(m: bytes, c: bytes, b: bytes, r: bytes)
    requires c <= m && c == PaddedEven(b + r)
    ensures |b| + |r| <= |m| && m[|b|..|b| + |r|] == r
    ensures (|b| + |r|) % 2 == 1 ==> |b| + |r| < |m| && m[|b| + |r|] == 0
  {
    assert c[..|b| + |r|] == b + r;
    assert m[|b|..|b| + |r|] == c[..|b| + |r|][|b|..];
  }

  /** The record of register `j`, where the decoder looks for it. */
  lemma RecordPlace(header: bytes, regs: Contents, trailer: bytes, j: nat)
    requires |header| == DATA && j < 12
    ensures var m := Reply(header, regs, trailer);
      var end := Start(j) + |Record(regs, j)|;
      && end <= |m| && m[Start(j)..end] == Record(regs, j)
      && (end % 2 == 1 ==> end < |m| && m[end] == 0)
  {
    hide Record, ReplyUpTo, PaddedEven, Start;
    ReplyIsPrefix(header, regs, j + 1, 12);
    ReplyStep(header, regs, j);
    ReplySize(header, regs, j);
    PaddedPlace(Reply(header, regs, trailer), ReplyUpTo(header, regs, j + 1), ReplyUpTo(header, regs, j),
                Record(regs, j));
  }

  lemma RecordParts(regs: Contents, j: nat)
    ensures var r := Record(regs, j);
      var n := RegisterBits(j);
      && r[0..31] == Preamble()
      && r[31..31 + 2 * n] == ValueBytes(regs, j, n, n)
      && r[31 + 2 * n..31 + 2 * n + 6] == REPLY_TAIL
  {
    hide Preamble, ValueBytes;
    var r, n := Record(regs, j), RegisterBits(j);
    var v := ValueBytes(regs, j, n, n);
    assert r[0..] == Preamble() + (v + REPLY_TAIL);
    DropHead(r, 0, Preamble(), v + REPLY_TAIL);
    DropHead(r, 31, v, REPLY_TAIL);
    assert r[31 + 2 * n..] == r[31 + 2 * n..31 + 2 * n + 6];
  }

  /** Register `j` of chip `c`: well-formed on its line, with the chip's value modulo the width. */
  lemma RegisterIsReadBack(header: bytes, regs: Contents, trailer: bytes, j: nat, c: nat)
    requires |header| == DATA && j < 12 && c < CHIPS
    ensures RegisterAt(Reply(header, regs, trailer), j, c + 2)
    ensures RegisterValue(Reply(header, regs, trailer), j, c + 2) == Low(regs(c, j), RegisterBits(j))
  {
    hide Reply, Record, Start, Preamble, ValueBytes, PreambleAt, ValueAt, TailAt, LineBits, FromHigh, Low, RegisterBits;
    var m, r, n, o := Reply(header, regs, trailer), Record(regs, j), RegisterBits(j), Start(j);
    RecordPlace(header, regs, trailer, j);
    RecordParts(regs, j);
    SliceOfSlice(m, o, r, 0, 31);
    SliceOfSlice(m, o, r, 31, 31 + 2 * n);
    SliceOfSlice(m, o, r, 31 + 2 * n, 31 + 2 * n + 6);
    PreambleIsRead(m, o);
    ValueIsReadBack(m, o + 31, regs, j, n, c);
    TailIsRead(m, o + 31 + 2 * n);
  }

  /** What chip `c` holds, register by register, modulo the register widths. */
  function ChipValues(regs: Contents, c: nat, k: nat): (r: seq<nat>)
    ensures |r| == k
  {
    if k == 0 then [] else ChipValues(regs, c, k - 1) + [Low(regs(c, k - 1), RegisterBits(k - 1))]
  }

  lemma {:induction false} ChipIsReadBack(header: bytes, regs: Contents, trailer: bytes, c: nat, k: nat)
    requires |header| == DATA && c < CHIPS && k <= 12
    ensures ReplyAt(Reply(header, regs, trailer), c + 2, k)
    ensures RegisterValues(Reply(header, regs, trailer), c + 2, k) == ChipValues(regs, c, k)
  {
    hide Reply, RegisterAt, RegisterValue, Low, RegisterBits;
    if k > 0 {
      ChipIsReadBack(header, regs, trailer, c, k - 1);
      RegisterIsReadBack(header, regs, trailer, k - 1, c);
    }
  }
}
