/** The hits of a discriminator frame (`DiscrFrame`). */
module DiscrFrame {
  import opened BitSerial
  import opened Bytes
  import opened Lvds

  const NUM_HITS_01 := 20
  const NUM_HITS_23 := 21
  const BRAM := 22
  const HIT_SIZE := 40
  const SRL_DEPTH := 16
  const CHANNELS := 16

  /** A hit: its time stamp, and for every channel the quarter ticks and the delay ticks. */
  datatype Hit = Hit(time: nat, quarters: seq<nat>, delays: seq<nat>)

  // ----- one hit -----

  /** `GetBitFromWord`: `(ip & word) / ip` for the power of two `ip`. */
  function GetBitFromWord(word: nat, index: nat): (b: nat)
    ensures b <= 1
  {
    BitValue(Bit(word, index))
  }

  /** The sum of a column of the first `n` rows. */
  function ColumnSum(rows: seq<nat>, ch: nat, n: nat): (sum: nat)
    requires n <= |rows|
    ensures sum <= n
  {
    if n == 0 then 0 else ColumnSum(rows, ch, n - 1) + GetBitFromWord(rows[n - 1], ch)
  }

  function Quarters(low: nat, high: nat, n: nat): (q: seq<nat>)
    ensures |q| == n && forall i | 0 <= i < n :: q[i] < 4
  {
    if n == 0 then []
    else Quarters(low, high, n - 1) + [2 * GetBitFromWord(high, n - 1) + GetBitFromWord(low, n - 1)]
  }

  function Delays(words: seq<nat>, n: nat): (d: seq<nat>)
    requires |words| >= SRL_DEPTH
    ensures |d| == n && forall i | 0 <= i < n :: d[i] <= SRL_DEPTH
  {
    if n == 0 then [] else Delays(words, n - 1) + [SRL_DEPTH - ColumnSum(words, n - 1, SRL_DEPTH)]
  }

  /** What the twenty words of a hit say. */
  function HitOf(words: seq<nat>): Hit
    requires |words| == 20
  {
    Hit((words[19] * 0x1_0000 + words[18]) % 0x1_0000_0000, Quarters(words[16], words[17], CHANNELS),
        Delays(words, CHANNELS))
  }

  lemma {:induction false} DelayAt(words: seq<nat>, n: nat, ch: nat)
    requires |words| >= SRL_DEPTH && ch < n
    ensures Delays(words, n)[ch] == SRL_DEPTH - ColumnSum(words, ch, SRL_DEPTH)
  {
    if ch < n - 1 { DelayAt(words, n - 1, ch); }
  }

  lemma {:induction false} QuarterAt(low: nat, high: nat, n: nat, ch: nat)
    requires ch < n
    ensures Quarters(low, high, n)[ch] == 2 * GetBitFromWord(high, ch) + GetBitFromWord(low, ch)
  {
    if ch < n - 1 { QuarterAt(low, high, n - 1, ch); }
  }

  /** The first of the rows from `s` on that holds a one in the column, or 16. */
  function FirstRow(rows: seq<nat>, ch: nat, s: nat): (r: nat)
    requires s <= SRL_DEPTH == |rows|
    decreases SRL_DEPTH - s
    ensures s <= r <= SRL_DEPTH && (r < SRL_DEPTH ==> Bit(rows[r], ch)) && forall k | s <= k < r :: !Bit(rows[k], ch)
  {
    if s == SRL_DEPTH || Bit(rows[s], ch) then s else FirstRow(rows, ch, s + 1)
  }

  lemma {:induction false} SumFrom(rows: seq<nat>, ch: nat, f: nat, n: nat)
    requires f <= n <= |rows| && forall k | 0 <= k < f :: !Bit(rows[k], ch)
    ensures ColumnSum(rows, ch, n) <= n - f
    ensures ColumnSum(rows, ch, n) == n - f <==> forall k | f <= k < n :: Bit(rows[k], ch)
  {
    if n > f {
      SumFrom(rows, ch, f, n - 1);
    } else if n > 0 {
      SumFrom(rows, ch, f - 1, n - 1);
    }
  }

  /**
    The delay is never before the first row that holds a one, and it is that row exactly when the
    column stays one from there on.
   */
  lemma DelayIsFirstRowIff(rows: seq<nat>, ch: nat)
    requires |rows| == SRL_DEPTH
    ensures var f := FirstRow(rows, ch, 0); var delay := SRL_DEPTH - ColumnSum(rows, ch, SRL_DEPTH);
            && f <= delay <= SRL_DEPTH
            && (delay == f <==> forall k | f <= k < SRL_DEPTH :: Bit(rows[k], ch))
  {
    SumFrom(rows, ch, FirstRow(rows, ch, 0), SRL_DEPTH);
  }

  // ----- what a board sends for a hit -----

  /** The bits of the row `s`: the channels whose delay has been reached. */
  function RowBits(delays: seq<nat>, s: nat): (b: seq<bool>)
    ensures |b| == |delays|
    ensures forall i | 0 <= i < |delays| :: b[i] == (delays[i] <= s)
  {
    if delays == [] then [] else [delays[0] <= s] + RowBits(delays[1..], s)
  }

  /** Bit 0, or bit 1, of every quarter. */
  function QuarterBits(quarters: seq<nat>, second: bool): (b: seq<bool>)
    ensures |b| == |quarters|
    ensures forall i | 0 <= i < |quarters| :: b[i] == if second then quarters[i] / 2 % 2 == 1 else quarters[i] % 2 == 1
  {
    if quarters == [] then []
    else [if second then quarters[0] / 2 % 2 == 1 else quarters[0] % 2 == 1] + QuarterBits(quarters[1..], second)
  }

  function Rows(delays: seq<nat>, n: nat): (r: seq<nat>)
    ensures |r| == n
    ensures forall s | 0 <= s < n :: r[s] == FromLow(RowBits(delays, s))
  {
    if n == 0 then [] else Rows(delays, n - 1) + [FromLow(RowBits(delays, n - 1))]
  }

  function WordsOf(h: Hit): (words: seq<nat>)
    ensures |words| == 20
  {
    Rows(h.delays, SRL_DEPTH)
    + [FromLow(QuarterBits(h.quarters, false)), FromLow(QuarterBits(h.quarters, true)), h.time % 0x1_0000,
       h.time / 0x1_0000]
  }

  predicate IsHit(h: Hit) {
    && h.time < 0x1_0000_0000 && |h.quarters| == CHANNELS == |h.delays|
    && (forall i | 0 <= i < CHANNELS :: h.quarters[i] < 4) && (forall i | 0 <= i < CHANNELS :: h.delays[i] <= SRL_DEPTH)
  }

  lemma {:induction false} FromLowBit(bits: seq<bool>, i: nat)
    requires i < |bits|
    ensures Bit(FromLow(bits), i) == bits[i]
  {
    hide FromLow, Bit;
    FromLowHalf(bits);
    BitStep(FromLow(bits), i);
    if i > 0 { FromLowBit(bits[1..], i - 1); }
  }

  lemma FromLowHalf(bits: seq<bool>)
    requires bits != []
    ensures FromLow(bits) / 2 == FromLow(bits[1..]) && (FromLow(bits) % 2 == 1) == bits[0]
  {
    var h := FromLow(bits[1..]);
    assert FromLow(bits) == BitValue(bits[0]) + 2 * h;
  }

  lemma BitStep(v: nat, i: nat)
    ensures Bit(v, i) == if i == 0 then v % 2 == 1 else Bit(v / 2, i - 1)
  {
  }

  lemma {:induction false} FromLowBound(bits: seq<bool>)
    ensures FromLow(bits) < Pow2(|bits|)
  {
    if bits != [] { FromLowBound(bits[1..]); }
  }

  lemma {:induction false} Staircase(delays: seq<nat>, ch: nat, n: nat)
    requires ch < |delays| && n <= SRL_DEPTH && delays[ch] <= SRL_DEPTH
    ensures ColumnSum(Rows(delays, SRL_DEPTH), ch, n) == if n <= delays[ch] then 0 else n - delays[ch]
  {
    if n > 0 {
      Staircase(delays, ch, n - 1);
      FromLowBit(RowBits(delays, n - 1), ch);
    }
  }

  lemma {:induction false} ColumnSumPrefix(rows: seq<nat>, more: seq<nat>, ch: nat, n: nat)
    requires n <= |rows|
    ensures ColumnSum(rows + more, ch, n) == ColumnSum(rows, ch, n)
  {
    if n > 0 { ColumnSumPrefix(rows, more, ch, n - 1); }
  }

  /** The decoder recovers every time stamp, every quarter and every delay of every channel. */
  lemma HitRoundTrip(h: Hit)
    requires IsHit(h)
    ensures HitOf(WordsOf(h)) == h
  {
    hide FromLow, Rows, Delays, Quarters, Bit, RowBits, QuarterBits, ColumnSum;
    var ws := WordsOf(h);
    forall ch | 0 <= ch < CHANNELS ensures Delays(ws, CHANNELS)[ch] == h.delays[ch] {
      DelayAt(ws, CHANNELS, ch);
      DelayRoundTrip(h, ch);
    }
    forall ch | 0 <= ch < CHANNELS ensures Quarters(ws[16], ws[17], CHANNELS)[ch] == h.quarters[ch] {
      QuarterAt(ws[16], ws[17], CHANNELS, ch);
      FromLowBit(QuarterBits(h.quarters, false), ch);
      FromLowBit(QuarterBits(h.quarters, true), ch);
    }
  }

  lemma DelayRoundTrip(h: Hit, ch: nat)
    requires IsHit(h) && ch < CHANNELS
    ensures SRL_DEPTH - ColumnSum(WordsOf(h), ch, SRL_DEPTH) == h.delays[ch]
  {
    hide FromLow, Rows, QuarterBits, RowBits, ColumnSum;
    var rows := Rows(h.delays, SRL_DEPTH);
    assert WordsOf(h) == rows + WordsOf(h)[16..];
    ColumnSumPrefix(rows, WordsOf(h)[16..], ch, SRL_DEPTH);
    Staircase(h.delays, ch, SRL_DEPTH);
  }

  // ----- the frame -----

  function WordAt(m: bytes, at: nat): nat
    requires at + 1 < |m|
  {
    m[at] as int + 256 * m[at + 1] as int
  }

  function WordsAt(m: bytes, at: nat, n: nat): (ws: seq<nat>)
    requires at + 2 * n <= |m|
    ensures |ws| == n && forall i | 0 <= i < n :: ws[i] == WordAt(m, at + 2 * i)
  {
    if n == 0 then [] else WordsAt(m, at, n - 1) + [WordAt(m, at + 2 * (n - 1))]
  }

  /** `n` hits one after the other. */
  function HitsAt(m: bytes, at: nat, n: nat): (hs: seq<Hit>)
    requires at + HIT_SIZE * n <= |m|
    ensures |hs| == n
  {
    if n == 0 then [] else HitsAt(m, at, n - 1) + [HitOf(WordsAt(m, at + HIT_SIZE * (n - 1), 20))]
  }

  /** `GetNHitsOnTRiP`: the first two and the last two chips share a count. */
  function NHitsOnTRiP(m: bytes, trip: nat): nat
    requires |m| > NUM_HITS_23 && trip < 4
  {
    m[if trip < 2 then NUM_HITS_01 else NUM_HITS_23]
  }

  /** Where the hits of a chip begin. */
  function TripStart(m: bytes, trip: nat): nat
    requires |m| > NUM_HITS_23 && trip <= 4
  {
    if trip == 0 then BRAM else TripStart(m, trip - 1) + HIT_SIZE * NHitsOnTRiP(m, trip - 1)
  }

  /** The cursor ends after 40 bytes for each hit of the four chips. */
  lemma CursorEnd(m: bytes)
    requires |m| > NUM_HITS_23
    ensures TripStart(m, 4) ==
            BRAM + HIT_SIZE * (NHitsOnTRiP(m, 0) + NHitsOnTRiP(m, 1) + NHitsOnTRiP(m, 2) + NHitsOnTRiP(m, 3))
    ensures TripStart(m, 4) == BRAM + 2 * HIT_SIZE * (m[NUM_HITS_01] as int + m[NUM_HITS_23] as int)
    ensures TripStart(m, 0) <= TripStart(m, 1) <= TripStart(m, 2) <= TripStart(m, 3) <= TripStart(m, 4)
  {
    assert TripStart(m, 2) == TripStart(m, 1) + HIT_SIZE * NHitsOnTRiP(m, 1);
    assert TripStart(m, 4) == TripStart(m, 3) + HIT_SIZE * NHitsOnTRiP(m, 3);
  }

  /** The hits that are read end within the message; the log statement of the last word reads two bytes more. */
  predicate LongEnough(m: bytes) {
    |m| >= 2 && (ReceivedLength(m) != 0 ==>
      |m| > DATA && (m[DATA] == 0 ==>
        |m| > NUM_HITS_23 && (TripStart(m, 4) > BRAM ==> TripStart(m, 4) + 2 <= |m|)))
  }

  // ----- the places the decoder reads -----

  /** In `n` turns of the loop over words: the two bytes of the word, and after the step the next two for the log. */
  function WordReads(at: nat, n: nat): seq<nat> {
    if n == 0 then []
    else
      var indx := at + 2 * (n - 1);
      WordReads(at, n - 1) + [indx, indx + 1, indx + 2, indx + 3]
  }

  function HitReads(at: nat, n: nat): seq<nat> {
    if n == 0 then [] else HitReads(at, n - 1) + WordReads(at + HIT_SIZE * (n - 1), 20)
  }

  function TripReads(m: bytes, trips: nat): seq<nat>
    requires |m| > NUM_HITS_23 && trips <= 4
  {
    if trips == 0 then []
    else TripReads(m, trips - 1) + HitReads(TripStart(m, trips - 1), NHitsOnTRiP(m, trips - 1))
  }

  /** Every place read, up to the first that lies past the end and decides what is read next. */
  function Reads(m: bytes): seq<nat> {
    [1, 0] + (if |m| < 2 || ReceivedLength(m) == 0 then [] else [DATA] + ReadsAfterData(m))
  }

  function ReadsAfterData(m: bytes): seq<nat> {
    if |m| <= DATA || m[DATA] != 0 then []
    else [NUM_HITS_01, NUM_HITS_01, NUM_HITS_23, NUM_HITS_23] + (if |m| <= NUM_HITS_23 then [] else TripReads(m, 4))
  }

  predicate Within(places: seq<nat>, size: nat) {
    forall i | 0 <= i < |places| :: places[i] < size
  }

  lemma WithinBoth(a: seq<nat>, b: seq<nat>, size: nat)
    ensures Within(a + b, size) <==> Within(a, size) && Within(b, size)
  {
    if Within(a + b, size) {
      forall i | 0 <= i < |a| ensures a[i] < size { assert (a + b)[i] < size; }
      forall i | 0 <= i < |b| ensures b[i] < size { assert (a + b)[|a| + i] < size; }
    }
  }

  lemma WithinFour(a: nat, size: nat)
    ensures Within([a, a + 1, a + 2, a + 3], size) <==> a + 4 <= size
  {
    if Within([a, a + 1, a + 2, a + 3], size) { assert [a, a + 1, a + 2, a + 3][3] < size; }
  }

  lemma {:induction false} WordReadsWithin(at: nat, n: nat, size: nat)
    ensures Within(WordReads(at, n), size) <==> n == 0 || at + 2 * n + 2 <= size
  {
    hide Within;
    if n > 0 {
      var indx := at + 2 * (n - 1);
      WordReadsWithin(at, n - 1, size);
      WithinBoth(WordReads(at, n - 1), [indx, indx + 1, indx + 2, indx + 3], size);
      WithinFour(indx, size);
    } else {
      WithinNone(size);
    }
  }

  lemma WithinNone(size: nat)
    ensures Within([], size)
  {
  }

  lemma {:induction false} HitReadsWithin(at: nat, n: nat, size: nat)
    ensures Within(HitReads(at, n), size) <==> n == 0 || at + HIT_SIZE * n + 2 <= size
  {
    hide Within, WordReads;
    if n > 0 {
      HitReadsWithin(at, n - 1, size);
      WithinBoth(HitReads(at, n - 1), WordReads(at + HIT_SIZE * (n - 1), 20), size);
      WordReadsWithin(at + HIT_SIZE * (n - 1), 20, size);
    } else {
      WithinNone(size);
    }
  }

  lemma {:induction false} TripReadsWithin(m: bytes, trips: nat, size: nat)
    requires |m| > NUM_HITS_23 && trips <= 4
    ensures TripStart(m, trips) >= BRAM
    ensures Within(TripReads(m, trips), size) <==> TripStart(m, trips) == BRAM || TripStart(m, trips) + 2 <= size
  {
    hide Within, HitReads, NHitsOnTRiP;
    if trips > 0 {
      var at, n := TripStart(m, trips - 1), NHitsOnTRiP(m, trips - 1);
      TripReadsWithin(m, trips - 1, size);
      WithinBoth(TripReads(m, trips - 1), HitReads(at, n), size);
      HitReadsWithin(at, n, size);
    } else {
      WithinNone(size);
    }
  }

  /** A message is long enough exactly when every place the decoder reads lies in it. */
  lemma LongEnoughIff(m: bytes)
    ensures LongEnough(m) <==> Within(Reads(m), |m|)
  {
    hide TripReads, TripStart, Within;
    WithinFew(|m|);
    if |m| >= 2 && ReceivedLength(m) != 0 {
      var counts := [NUM_HITS_01, NUM_HITS_01, NUM_HITS_23, NUM_HITS_23];
      var hits := if |m| <= NUM_HITS_23 then [] else TripReads(m, 4);
      WithinBoth([1, 0], [DATA] + ReadsAfterData(m), |m|);
      WithinBoth([DATA], ReadsAfterData(m), |m|);
      WithinBoth(counts, hits, |m|);
      if |m| > NUM_HITS_23 { TripReadsWithin(m, 4, |m|); }
    } else {
      assert [1, 0] + [] == [1, 0];
    }
  }

  lemma WithinFew(size: nat)
    ensures Within([], size) && (Within([1, 0], size) <==> size >= 2) && (Within([DATA], size) <==> size > DATA)
    ensures Within([NUM_HITS_01, NUM_HITS_01, NUM_HITS_23, NUM_HITS_23], size) <==> size > NUM_HITS_23
  {
    if Within([1, 0], size) { assert [1, 0][0] < size; }
    if Within([DATA], size) { assert [DATA][0] < size; }
    var counts := [NUM_HITS_01, NUM_HITS_01, NUM_HITS_23, NUM_HITS_23];
    if Within(counts, size) { assert counts[2] < size; }
  }

  // ----- what is decoded -----

  /** The hits of a chip. */
  function TripHits(m: bytes, trip: nat): (hs: seq<Hit>)
    requires |m| > NUM_HITS_23 && trip < 4 && TripStart(m, trip + 1) <= |m|
  {
    HitsAt(m, TripStart(m, trip), NHitsOnTRiP(m, trip))
  }

  datatype Outcome = Decoded(trips: seq<seq<Hit>>) | EmptyFrame | DummyByteSet

  /** What decoding a frame yields. */
  function Decode(m: bytes): Outcome
    requires LongEnough(m)
  {
    if ReceivedLength(m) == 0 then EmptyFrame
    else if m[DATA] != 0 then DummyByteSet
    else
      CursorEnd(m);
      Decoded([TripHits(m, 0), TripHits(m, 1), TripHits(m, 2), TripHits(m, 3)])
  }

  /** Where the parts of a hit stand in its forty bytes: sixteen rows, two words of quarters, the time. */
  lemma HitInBytes(m: bytes, at: nat, ch: nat)
    requires at + 40 <= |m| && ch < 16
    ensures var h := HitOf(WordsAt(m, at, 20)); var rows := WordsAt(m, at, 16);
            && h.time == m[at + 36] as int + 0x100 * m[at + 37] as int + 0x1_0000 * m[at + 38] as int
                         + 0x100_0000 * m[at + 39] as int
            && h.quarters[ch] == GetBitFromWord(m[at + 32] as int + 0x100 * m[at + 33] as int, ch)
                                 + 2 * GetBitFromWord(m[at + 34] as int + 0x100 * m[at + 35] as int, ch)
            && h.delays[ch] == 16 - ColumnSum(rows, ch, 16)
  {
    hide GetBitFromWord, ColumnSum, WordsAt;
    var ws, rows := WordsAt(m, at, 20), WordsAt(m, at, 16);
    QuarterAt(ws[16], ws[17], CHANNELS, ch);
    DelayAt(ws, CHANNELS, ch);
    assert ws == rows + ws[16..];
    ColumnSumPrefix(rows, ws[16..], ch, 16);
    assert ws[16] == WordAt(m, at + 32) && ws[17] == WordAt(m, at + 34);
    assert ws[18] == WordAt(m, at + 36) && ws[19] == WordAt(m, at + 38);
  }

  // ----- what a board sends -----

  function WordBytes(ws: seq<nat>): (b: bytes)
    ensures |b| == 2 * |ws|
  {
    if ws == [] then [] else WordBytes(ws[..|ws| - 1]) + [ws[|ws| - 1] % 256, ws[|ws| - 1] / 256 % 256]
  }

  function HitBytes(hs: seq<Hit>): (b: bytes)
    ensures |b| == HIT_SIZE * |hs|
  {
    if hs == [] then [] else HitBytes(hs[..|hs| - 1]) + WordBytes(WordsOf(hs[|hs| - 1]))
  }

  predicate AllHits(hs: seq<Hit>) {
    forall i | 0 <= i < |hs| :: IsHit(hs[i])
  }

  lemma {:induction false} WordsAreRead(m: bytes, at: nat, ws: seq<nat>)
    requires at + 2 * |ws| <= |m| && m[at..at + 2 * |ws|] == WordBytes(ws)
    requires forall i | 0 <= i < |ws| :: ws[i] < 0x1_0000
    ensures WordsAt(m, at, |ws|) == ws
  {
    hide WordAt, WordBytes, WordsAt;
    if ws == [] {
      assert WordsAt(m, at, 0) == [];
    } else {
      var k := |ws| - 1;
      WordsStep(m, at, ws);
      FoundInParts(m, at, WordBytes(ws[..k]), [ws[k] % 256, ws[k] / 256 % 256]);
      WordsAreRead(m, at, ws[..k]);
      WordIsRead(m, at + 2 * k, ws[k]);
      assert ws == ws[..k] + [ws[k]];
    }
  }

  lemma WordsStep(m: bytes, at: nat, ws: seq<nat>)
    requires ws != [] && at + 2 * |ws| <= |m|
    ensures var k := |ws| - 1;
            && WordBytes(ws) == WordBytes(ws[..k]) + [ws[k] % 256, ws[k] / 256 % 256]
            && WordsAt(m, at, |ws|) == WordsAt(m, at, k) + [WordAt(m, at + 2 * k)]
  {
    hide WordAt;
  }

  lemma WordIsRead(m: bytes, at: nat, w: nat)
    requires at + 2 <= |m| && w < 0x1_0000 && m[at..at + 2] == [w % 256, w / 256 % 256]
    ensures WordAt(m, at) == w
  {
    assert m[at] == m[at..at + 2][0] && m[at + 1] == m[at..at + 2][1];
  }

  lemma WordsFit(h: Hit)
    requires IsHit(h)
    ensures forall i | 0 <= i < 20 :: WordsOf(h)[i] < 0x1_0000
  {
    hide RowBits, QuarterBits, FromLow;
    assert Pow2(16) == 0x1_0000 by { Pow2Sixteen(); }
    forall i | 0 <= i < 20 ensures WordsOf(h)[i] < 0x1_0000 {
      if i < 16 {
        RowFits(h.delays, i);
      } else if i < 18 {
        FromLowBound(QuarterBits(h.quarters, i == 17));
      }
    }
  }

  lemma RowFits(delays: seq<nat>, s: nat)
    requires |delays| == CHANNELS && s < SRL_DEPTH
    ensures Rows(delays, SRL_DEPTH)[s] < Pow2(16)
  {
    FromLowBound(RowBits(delays, s));
  }

  lemma Pow2Sixteen()
    ensures Pow2(16) == 0x1_0000
  {
    assert Pow2(8) == 256 by { assert Pow2(4) == 16; }
    assert Pow2(12) == 4096;
  }

  /** A string found at `at` is its two parts found one after the other. */
  lemma FoundInParts(m: bytes, at: nat, a: bytes, b: bytes)
    requires at + |a| + |b| <= |m| && m[at..at + |a| + |b|] == a + b
    ensures m[at..at + |a|] == a && m[at + |a|..at + |a| + |b|] == b
  {
    var s := m[at..at + |a| + |b|];
    assert m[at..at + |a|] == s[..|a|] && m[at + |a|..at + |a| + |b|] == s[|a|..];
  }

  lemma HitIsRead(m: bytes, at: nat, h: Hit)
    requires IsHit(h) && at + HIT_SIZE <= |m| && m[at..at + HIT_SIZE] == WordBytes(WordsOf(h))
    ensures HitOf(WordsAt(m, at, 20)) == h
  {
    hide WordsOf, IsHit, WordsAt, WordBytes, HitOf;
    WordsFit(h);
    WordsAreRead(m, at, WordsOf(h));
    HitRoundTrip(h);
  }

  lemma HitsStep(m: bytes, at: nat, hs: seq<Hit>)
    requires hs != [] && at + HIT_SIZE * |hs| <= |m|
    ensures var k := |hs| - 1;
            && HitBytes(hs) == HitBytes(hs[..k]) + WordBytes(WordsOf(hs[k]))
            && HitsAt(m, at, |hs|) == HitsAt(m, at, k) + [HitOf(WordsAt(m, at + HIT_SIZE * k, 20))]
  {
    hide WordsOf, WordsAt, WordBytes, HitOf;
  }

  lemma {:induction false} HitsAreRead(m: bytes, at: nat, hs: seq<Hit>)
    requires AllHits(hs) && at + HIT_SIZE * |hs| <= |m| && m[at..at + HIT_SIZE * |hs|] == HitBytes(hs)
    ensures HitsAt(m, at, |hs|) == hs
  {
    hide WordsOf, IsHit, WordsAt, WordBytes, HitOf, HitsAt, HitBytes;
    if hs == [] {
      assert HitsAt(m, at, 0) == [];
    } else {
      var k := |hs| - 1;
      HitsStep(m, at, hs);
      FoundInParts(m, at, HitBytes(hs[..k]), WordBytes(WordsOf(hs[k])));
      HitsAreRead(m, at, hs[..k]);
      HitIsRead(m, at + HIT_SIZE * k, hs[k]);
      assert hs == hs[..k] + [hs[k]];
    }
  }

  /** A frame: a header with a length, a zero byte and the two counts; the hits; and what follows them. */
  predicate IsFrame(m: bytes, trips: seq<seq<Hit>>, rest: bytes) {
    && |trips| == 4 && (forall t | 0 <= t < 4 :: AllHits(trips[t])) && |rest| >= 2
    && |m| > 21 && (m[0] != 0 || m[1] != 0) && m[19] == 0
    && m[20] as int == |trips[0]| == |trips[1]| && m[21] as int == |trips[2]| == |trips[3]|
    && m[22..] == HitBytes(trips[0]) + HitBytes(trips[1]) + HitBytes(trips[2]) + HitBytes(trips[3]) + rest
  }

  /** Whatever hits a board sends are the hits that are decoded. */
  lemma FrameIsDecoded(m: bytes, trips: seq<seq<Hit>>, rest: bytes)
    requires IsFrame(m, trips, rest)
    ensures LongEnough(m) && Decode(m) == Decoded(trips)
  {
    hide HitsAt, HitBytes, AllHits, TripStart;
    CursorEnd(m);
    TripStarts(m);
    PartsFound(m, HitBytes(trips[0]), HitBytes(trips[1]), HitBytes(trips[2]), HitBytes(trips[3]), rest);
    HitsAreRead(m, TripStart(m, 0), trips[0]);
    HitsAreRead(m, TripStart(m, 1), trips[1]);
    HitsAreRead(m, TripStart(m, 2), trips[2]);
    HitsAreRead(m, TripStart(m, 3), trips[3]);
    assert trips == [trips[0], trips[1], trips[2], trips[3]];
  }

  lemma PartsFound(m: bytes, b0: bytes, b1: bytes, b2: bytes, b3: bytes, rest: bytes)
    requires |m| >= BRAM && m[BRAM..] == b0 + b1 + b2 + b3 + rest
    ensures var s1 := BRAM + |b0|; var s2 := s1 + |b1|; var s3 := s2 + |b2|;
            && s3 + |b3| + |rest| == |m|
            && m[BRAM..s1] == b0 && m[s1..s2] == b1 && m[s2..s3] == b2 && m[s3..s3 + |b3|] == b3
  {
    var s1 := BRAM + |b0|;
    var s2 := s1 + |b1|;
    assert m[BRAM..] == m[BRAM..|m|];
    assert b0 + b1 + b2 + b3 + rest == b0 + (b1 + b2 + b3 + rest);
    FoundInParts(m, BRAM, b0, b1 + b2 + b3 + rest);
    assert b1 + b2 + b3 + rest == b1 + (b2 + b3 + rest);
    FoundInParts(m, s1, b1, b2 + b3 + rest);
    assert b2 + b3 + rest == b2 + (b3 + rest);
    FoundInParts(m, s2, b2, b3 + rest);
    FoundInParts(m, s2 + |b2|, b3, rest);
  }

  lemma TripStarts(m: bytes)
    requires |m| > NUM_HITS_23
    ensures TripStart(m, 0) == BRAM && TripStart(m, 1) == BRAM + HIT_SIZE * NHitsOnTRiP(m, 0)
    ensures TripStart(m, 2) == TripStart(m, 1) + HIT_SIZE * NHitsOnTRiP(m, 1)
    ensures TripStart(m, 3) == TripStart(m, 2) + HIT_SIZE * NHitsOnTRiP(m, 2)
    ensures TripStart(m, 4) == TripStart(m, 3) + HIT_SIZE * NHitsOnTRiP(m, 3)
  {
  }

  // ----- the decoder -----

  /** The loop that assigns the bytes of a hit to words. */
  method ReadWords(m: array<byte>, at: nat) returns (words: array<nat>, indx: nat)
    requires at + HIT_SIZE + 2 <= m.Length
    ensures fresh(words) && words.Length == 20 && words[..] == WordsAt(m[..], at, 20) && indx == at + HIT_SIZE
  {
    words := new nat[20];
    indx := at;
    for i := 0 to 20
      invariant indx == at + 2 * i
      invariant forall k | 0 <= k < i :: words[k] == WordAt(m[..], at + 2 * k)
    {
      words[i] := m[indx] as int + 256 * m[indx + 1] as int;
      indx := indx + 2;
      // the log statement looks at the two bytes after the step
      var logged := (m[indx], m[indx + 1]);
    }
  }

  method ReadQuarters(words: array<nat>) returns (quarters: seq<nat>)
    requires words.Length == 20
    ensures quarters == Quarters(words[16], words[17], CHANNELS)
  {
    quarters := [];
    for iCh := 0 to CHANNELS
      invariant quarters == Quarters(words[16], words[17], iCh)
    {
      quarters := quarters + [2 * GetBitFromWord(words[17], iCh) + GetBitFromWord(words[16], iCh)];
    }
  }

  method ReadDelays(words: array<nat>) returns (delays: seq<nat>)
    requires words.Length == 20
    ensures delays == Delays(words[..], CHANNELS)
  {
    delays := [];
    for iCh := 0 to CHANNELS
      invariant delays == Delays(words[..], iCh)
    {
      var ticks := 0;
      for iSRL := 0 to SRL_DEPTH
        invariant ticks == ColumnSum(words[..], iCh, iSRL)
      {
        ticks := ticks + GetBitFromWord(words[iSRL], iCh);
      }
      delays := delays + [SRL_DEPTH - ticks];
    }
  }

  method ReadHit(m: array<byte>, at: nat) returns (hit: Hit, indx: nat)
    requires at + HIT_SIZE + 2 <= m.Length
    ensures hit == HitOf(WordsAt(m[..], at, 20)) && indx == at + HIT_SIZE
  {
    hide Quarters, Delays, WordsAt;
    var words;
    words, indx := ReadWords(m, at);
    var time := (words[19] * 0x1_0000 + words[18]) % 0x1_0000_0000;
    var quarters := ReadQuarters(words);
    var delays := ReadDelays(words);
    hit := Hit(time, quarters, delays);
  }

  /** The loop over the hits of a chip. */
  method ReadTrip(m: array<byte>, at: nat, n: nat) returns (hits: seq<Hit>, indx: nat)
    requires n > 0 ==> at + HIT_SIZE * n + 2 <= m.Length
    requires at <= m.Length
    ensures indx == at + HIT_SIZE * n <= m.Length && hits == HitsAt(m[..], at, n)
  {
    hide HitOf, WordsAt;
    hits, indx := [], at;
    for iHit := 0 to n
      invariant indx == at + HIT_SIZE * iHit <= m.Length && hits == HitsAt(m[..], at, iHit)
    {
      var hit;
      hit, indx := ReadHit(m, indx);
      hits := hits + [hit];
    }
  }

  /** The loop over the chips. */
  method ReadTrips(m: array<byte>) returns (trips: seq<seq<Hit>>, indx: nat)
    requires m.Length > NUM_HITS_23 && (TripStart(m[..], 4) > BRAM ==> TripStart(m[..], 4) + 2 <= m.Length)
    ensures |trips| == 4 && indx == TripStart(m[..], 4) <= m.Length
    ensures forall t | 0 <= t < 4 :: TripStart(m[..], t + 1) <= m.Length && trips[t] == TripHits(m[..], t)
  {
    hide HitsAt, TripStart;
    CursorEnd(m[..]);
    TripStarts(m[..]);
    trips, indx := [], BRAM;
    for iTrip := 0 to 4
      invariant |trips| == iTrip && indx == TripStart(m[..], iTrip) <= m.Length
      invariant forall t | 0 <= t < iTrip :: TripStart(m[..], t + 1) <= m.Length && trips[t] == TripHits(m[..], t)
    {
      var hits;
      hits, indx := ReadTrip(m, indx, NHitsOnTRiP(m[..], iTrip));
      trips := trips + [hits];
    }
  }

  /** `DecodeRegisterValues`, with the hits it writes to the log. */
  method DecodeRegisterValues(m: array<byte>) returns (outcome: Outcome, indx: nat)
    requires LongEnough(m[..])
    ensures outcome == Decode(m[..])
    ensures m[0] == 0 && m[1] == 0 ==> outcome == EmptyFrame
    ensures (m[0] != 0 || m[1] != 0) && m[19] != 0 ==> outcome == DummyByteSet
    ensures (m[0] != 0 || m[1] != 0) && m[19] == 0 ==> outcome.Decoded? && |outcome.trips| == 4
    ensures outcome.Decoded? ==> indx == TripStart(m[..], 4)
    ensures outcome.Decoded? ==> indx == 22 + 80 * (m[20] as int + m[21] as int)
    ensures outcome.Decoded? ==> |outcome.trips[0]| == |outcome.trips[1]| == m[20] as int
    ensures outcome.Decoded? ==> |outcome.trips[2]| == |outcome.trips[3]| == m[21] as int
  {
    hide HitsAt, TripStart;
    var length := m[1] as int + 256 * m[0] as int;
    if length == 0 { return EmptyFrame, 0; }
    if m[DATA] != 0 { return DummyByteSet, 0; }
    var trips;
    trips, indx := ReadTrips(m);
    CursorEnd(m[..]);
    assert trips == [trips[0], trips[1], trips[2], trips[3]];
    outcome := Decoded(trips);
  }
}
