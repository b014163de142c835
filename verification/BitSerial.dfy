/** Bits of numbers, and the clocked bit stream the TRiP chips are programmed with. */
module BitSerial {
  import opened Bytes

  function Pow2(n: nat): (p: nat)
    ensures p > 0
  {
    if n == 0 then 1 else 2 * Pow2(n - 1)
  }

  /** Bit `i` of `v`, the least significant being bit 0. */
  predicate Bit(v: nat, i: nat) {
    if i == 0 then v % 2 == 1 else Bit(v / 2, i - 1)
  }

  /** The low `n` bits of `v`. */
  function Low(v: nat, n: nat): nat {
    v % Pow2(n)
  }

  function BitValue(b: bool): nat {
    if b then 1 else 0
  }

  lemma MulAtLeast(m: int, k: int)
    requires m > 0 && k >= 1
    ensures m * k >= m
  {
    assert m * k == m * (k - 1) + m;
  }

  lemma NoMultiple(m: int, k: int, d: int)
    requires m * k == d && -m < d < m
    ensures k == 0
  {
    assert m * -k == -(m * k);
    if k >= 1 {
      MulAtLeast(m, k);
    } else if k <= -1 {
      MulAtLeast(m, -k);
    }
  }

  lemma SameQuotient(m: int, q: int, r: int, q': int, r': int)
    requires 0 <= r < m && 0 <= r' < m && m * q + r == m * q' + r'
    ensures q == q' && r == r'
  {
    assert m * (q - q') == m * q - m * q';
    NoMultiple(m, q - q', r' - r);
  }

  lemma DivUnique(v: int, m: int, q: int, r: int)
    requires 0 <= r < m && v == m * q + r
    ensures v / m == q && v % m == r
  {
    SameQuotient(m, q, r, v / m, v % m);
  }

  lemma DivTwice(v: nat, m: nat)
    requires m > 0
    ensures v / (2 * m) == v / 2 / m && v % (2 * m) == v % 2 + 2 * (v / 2 % m)
  {
    var h := v / 2;
    var q, r := h / m, h % m;
    assert h == m * q + r;
    assert 2 * (m * q) == (2 * m) * q;
    DivUnique(v, 2 * m, q, 2 * r + v % 2);
  }

  /** `v & (1 << i)` is not zero: the quotient by the mask is odd. */
  lemma {:induction false} BitIsQuotient(v: nat, i: nat)
    ensures Bit(v, i) <==> v / Pow2(i) % 2 == 1
  {
    if i > 0 {
      BitIsQuotient(v / 2, i - 1);
      DivTwice(v, Pow2(i - 1));
    }
  }

  /** The low n + 1 bits are the lowest bit below the low n bits of the half. */
  lemma LowBit(v: nat, n: nat)
    ensures Low(v, n + 1) == v % 2 + 2 * Low(v / 2, n)
  {
    DivTwice(v, Pow2(n));
  }

  /** Value of bits, least significant first. */
  function FromLow(bits: seq<bool>): nat {
    if bits == [] then 0 else BitValue(bits[0]) + 2 * FromLow(bits[1..])
  }

  /** Value of bits, most significant first. */
  function FromHigh(bits: seq<bool>): nat {
    if bits == [] then 0 else 2 * FromHigh(bits[..|bits| - 1]) + BitValue(bits[|bits| - 1])
  }

  /** The order in which `SortNSet` sends the bits of `data`. */
  function SortedBits(data: nat, n: nat, lowToHigh: bool): (b: seq<bool>)
    ensures |b| == n
  {
    if n == 0 then []
    else if lowToHigh then SortedBits(data, n - 1, true) + [Bit(data, n - 1)]
    else [Bit(data, n - 1)] + SortedBits(data, n - 1, false)
  }

  lemma {:induction false} SortedBitsOfHalf(data: nat, n: nat)
    ensures SortedBits(data, n + 1, true) == [data % 2 == 1] + SortedBits(data / 2, n, true)
    ensures SortedBits(data, n + 1, false) == SortedBits(data / 2, n, false) + [data % 2 == 1]
  {
    if n > 0 {
      SortedBitsOfHalf(data, n - 1);
    }
  }

  /** A number sent lowest bit first is read back modulo the width of the register. */
  lemma {:induction false} LowFirstRoundTrip(data: nat, n: nat)
    ensures FromLow(SortedBits(data, n, true)) == Low(data, n)
  {
    if n > 0 {
      hide SortedBits, Low;
      SortedBitsOfHalf(data, n - 1);
      LowFirstRoundTrip(data / 2, n - 1);
      LowBit(data, n - 1);
    }
  }

  /** A number sent highest bit first is read back modulo the width of the field. */
  lemma {:induction false} HighFirstRoundTrip(data: nat, n: nat)
    ensures FromHigh(SortedBits(data, n, false)) == Low(data, n)
  {
    if n > 0 {
      hide SortedBits, Low;
      SortedBitsOfHalf(data, n - 1);
      HighFirstRoundTrip(data / 2, n - 1);
      LowBit(data, n - 1);
    }
  }

  // ----- the clocked stream -----

  /** `PackBits`: one byte on the control, clock, data and reset lines. */
  function Pack(control: bool, clock: bool, data: bool, reset: bool): byte {
    BitValue(control) + 2 * BitValue(clock) + 4 * BitValue(data) + 8 * BitValue(reset)
  }

  /** Every bit is sent twice: clock high, then clock low. */
  function Clocked(bits: seq<bool>, control: bool, reset: bool): (s: bytes)
    ensures |s| == 2 * |bits|
    ensures forall i | 0 <= i < |bits| ::
      s[2 * i] == Pack(control, true, bits[i], reset) && s[2 * i + 1] == Pack(control, false, bits[i], reset)
  {
    if bits == [] then []
    else
      var init := bits[..|bits| - 1];
      var last := bits[|bits| - 1];
      Clocked(init, control, reset) + [Pack(control, true, last, reset), Pack(control, false, last, reset)]
  }

  /** `SortNSet` as a function of its arguments. */
  function SortNSet(reset: bool, data: nat, n: nat, control: bool, lowToHigh: bool): (s: bytes)
    ensures |s| == 2 * n
  {
    Clocked(SortedBits(data, n, lowToHigh), control, reset)
  }

  /** The data line at one byte of the stream. */
  predicate DataLine(b: byte) {
    b / 4 % 2 == 1
  }

  /** A clock pair: the clock line goes high, then low, and nothing else changes. */
  predicate ClockPair(b0: byte, b1: int) {
    b0 / 2 % 2 == 1 && b1 == b0 - 2
  }

  predicate PairsAt(s: bytes, at: nat, n: nat) {
    at + 2 * n <= |s| && forall i | 0 <= i < n :: ClockPair(s[at + 2 * i], s[at + 2 * i + 1])
  }

  /** A receiver that samples the data line once per clock pair. */
  function Sample(s: bytes, at: nat, n: nat): (b: seq<bool>)
    requires at + 2 * n <= |s|
    ensures |b| == n
  {
    if n == 0 then [] else Sample(s, at, n - 1) + [DataLine(s[at + 2 * (n - 1)])]
  }

  lemma PackLines(control: bool, data: bool, reset: bool)
    ensures ClockPair(Pack(control, true, data, reset), Pack(control, false, data, reset))
    ensures DataLine(Pack(control, true, data, reset)) == data
  {
  }

  lemma SampleOne(s: bytes, at: nat, bits: seq<bool>, control: bool, reset: bool, i: nat)
    requires i < |bits| && at + 2 * |bits| <= |s| && s[at..at + 2 * |bits|] == Clocked(bits, control, reset)
    ensures ClockPair(s[at + 2 * i], s[at + 2 * i + 1]) && DataLine(s[at + 2 * i]) == bits[i]
  {
    var window := s[at..at + 2 * |bits|];
    assert s[at + 2 * i] == window[2 * i] && s[at + 2 * i + 1] == window[2 * i + 1];
    hide Clocked, Pack, ClockPair, DataLine;
    PackLines(control, bits[i], reset);
  }

  lemma {:induction false} SampleIs(s: bytes, at: nat, bits: seq<bool>)
    requires at + 2 * |bits| <= |s| && forall i | 0 <= i < |bits| :: DataLine(s[at + 2 * i]) == bits[i]
    ensures Sample(s, at, |bits|) == bits
  {
    if bits != [] {
      SampleIs(s, at, bits[..|bits| - 1]);
    }
  }

  /** Wherever a clocked number sits in a longer stream, sampling there gives its bits in order. */
  lemma SampleClocked(s: bytes, at: nat, data: nat, n: nat, control: bool, reset: bool, lowToHigh: bool)
    requires at + 2 * n <= |s| && s[at..at + 2 * n] == SortNSet(reset, data, n, control, lowToHigh)
    ensures PairsAt(s, at, n) && Sample(s, at, n) == SortedBits(data, n, lowToHigh)
  {
    var bits := SortedBits(data, n, lowToHigh);
    hide Clocked, Pack, ClockPair, DataLine, SortedBits, Sample;
    forall i | 0 <= i < n
      ensures ClockPair(s[at + 2 * i], s[at + 2 * i + 1]) && DataLine(s[at + 2 * i]) == bits[i]
    {
      SampleOne(s, at, bits, control, reset, i);
    }
    SampleIs(s, at, bits);
  }
}
