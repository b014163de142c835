/**
  The reply of a front-end board to a TRiP read: six chips answer at once, chip c on bit c + 2 of every
  byte. What a well-formed reply is, what it says about one chip, and replies built from six chips.
 */
module TripReply {
  import opened Bytes
  import opened BitSerial
  import opened Lvds
  import opened TripStream

  function ToEven(n: nat): nat {
    if n % 2 == 1 then n + 1 else n
  }

  /** Where the answer for register `j` starts; registers that are not read take no room. */
  function Start(j: nat): nat {
    if j == 0 then DATA
    else if Skipped(j - 1, true) then Start(j - 1)
    else ToEven(Start(j - 1) + 37 + 2 * RegisterBits(j - 1))
  }

  lemma StartStep(j: nat)
    ensures Start(0) == DATA
    ensures Start(j + 1) ==
      if Skipped(j, true) then Start(j) else ToEven(Start(j) + 37 + 2 * RegisterBits(j))
  {
  }

  lemma OddPlusData(n: nat)
    ensures ToEven(DATA + n) == DATA + ToOdd(n)
  {
  }

  /**
    Lockstep: the decoder's cursor after any number of registers is the encoder's buffer size plus the
    length of the header in front, although one pads to odd sizes and the other to even positions.
   */
  lemma {:induction false} CursorsInLockstep(k: nat)
    ensures Start(k) == DATA + BufferSize(true, k)
  {
    hide Start, BufferSize, ToEven, ToOdd, RegisterBits, Skipped;
    if k > 0 {
      CursorsInLockstep(k - 1);
      BufferStep(true, k - 1);
      StartStep(k - 1);
      OddPlusData(BufferSize(true, k - 1) + 37 + 2 * RegisterBits(k - 1));
    } else {
      BufferStep(true, 0);
      StartStep(0);
    }
  }

  /** The cursor and the buffer end at fixed sizes. */
  lemma CursorEnds()
    ensures Start(12) == 662 && BufferSize(true, 12) == 643
    ensures Start(14) == 662 && BufferSize(true, 14) == 643
  {
    hide Start;
    CursorsInLockstep(12);
    CursorsInLockstep(14);
    BufferSizes(true);
  }

  lemma {:induction false} StartGrows(j: nat, k: nat)
    requires j <= k
    ensures Start(j) <= Start(k)
  {
    hide Start, Skipped, RegisterBits;
    if j < k {
      StartGrows(j, k - 1);
      StartStep(k - 1);
    }
  }

  // ----- well-formed replies -----

  /** 31 bytes of framing: a start bit, then ones on the clock lines only. */
  predicate PreambleAt(m: bytes, o: nat) {
    && o + 31 <= |m|
    && m[o] == 0 && m[o + 1] == 1
    && (forall k | 0 <= k < 14 :: PreamblePair(m, o, k))
    && m[o + 30] == 3
  }

  predicate PreamblePair(m: bytes, o: nat, k: nat)
    requires o + 2 * k + 3 < |m|
  {
    m[o + 2 * k + 2] == 3 && m[o + 2 * k + 3] == 1
  }

  /** Two bytes carry one value bit of each chip; the second has the clock line low only for the last bit. */
  predicate BitPair(b0: byte, b1: byte, last: bool, f: nat) {
    b0 % 4 == 1 && b1 % 4 == (if last then 1 else 3) && Bit(b0, f) == Bit(b1, f)
  }

  predicate ValueAt(m: bytes, o: nat, n: nat, f: nat) {
    o + 2 * n <= |m| && forall i | 0 <= i < n :: BitPair(m[o + 2 * i], m[o + 2 * i + 1], i == n - 1, f)
  }

  predicate TailAt(m: bytes, o: nat) {
    && o + 6 <= |m|
    && m[o] % 4 == 0 && m[o + 1] % 4 == 2
    && m[o + 2] == 0 && m[o + 3] == 2 && m[o + 4] == 0 && m[o + 5] == 0
    && (o % 2 == 1 ==> o + 6 < |m| && m[o + 6] == 0)
  }

  /** The answer for register `j` is well-formed up to the end of its value. */
  predicate ValueReached(m: bytes, j: nat, f: nat) {
    PreambleAt(m, Start(j)) && ValueAt(m, Start(j) + 31, RegisterBits(j), f)
  }

  /** The answer for register `j` is well-formed on the lines of chip function `f`. */
  predicate RegisterAt(m: bytes, j: nat, f: nat) {
    ValueReached(m, j, f) && TailAt(m, Start(j) + 31 + 2 * RegisterBits(j))
  }

  /** The first `k` registers are well-formed on line `f`. */
  predicate ReplyAt(m: bytes, f: nat, k: nat) {
    forall j | 0 <= j < k :: RegisterAt(m, j, f)
  }

  /** Where the answers start, in numbers. */
  lemma {:induction false} StartsAt(j: nat)
    requires j <= 12
    ensures Start(j) == if j == 0 then 19 else if j <= 10 then 18 + 54 * j else if j == 11 then 616 else 662
  {
    hide Start;
    if j > 0 {
      StartsAt(j - 1);
      StartStep(j - 1);
    } else {
      StartStep(0);
    }
  }

  /** The 31 bytes in front of every value. */
  const PREAMBLE: bytes :=
    [0, 1, 3, 1, 3, 1, 3, 1, 3, 1, 3, 1, 3, 1, 3, 1, 3, 1, 3, 1, 3, 1, 3, 1, 3, 1, 3, 1, 3, 1, 3]

  lemma PreambleBytes()
    ensures |PREAMBLE| == 31
    ensures forall i | 0 <= i < 31 :: PREAMBLE[i] == if i == 0 then 0 else if i % 2 == 1 then 1 else 3
  {
  }

  lemma PreambleIs(m: bytes, o: nat)
    ensures PreambleAt(m, o) <==> o + 31 <= |m| && m[o..o + 31] == PREAMBLE
  {
    hide PREAMBLE;
    PreambleBytes();
    if PreambleAt(m, o) {
      forall i | 0 <= i < 31 ensures m[o + i] == PREAMBLE[i] {
        if 1 < i < 30 { assert PreamblePair(m, o, (i - 2) / 2); }
      }
    }
    if o + 31 <= |m| && m[o..o + 31] == PREAMBLE {
      forall i | 0 <= i < 31 ensures m[o + i] == PREAMBLE[i] { assert m[o..o + 31][i] == m[o + i]; }
      forall k | 0 <= k < 14 ensures PreamblePair(m, o, k) {
        assert m[o + (2 * k + 2)] == 3 && m[o + (2 * k + 3)] == 1;
      }
      assert m[o + 0] == 0 && m[o + 1] == 1 && m[o + 30] == 3;
    }
  }

  /** An answer is well-formed exactly when its bytes are these; only the data line of the value is free. */
  lemma WellFormedIff(m: bytes, j: nat, f: nat)
    ensures var o, n := Start(j) + 31, RegisterBits(j); var t := o + 2 * n;
            RegisterAt(m, j, f) <==>
            && PreambleAt(m, Start(j)) && t + 6 <= |m|
            && (forall i | 0 <= i < n ::
                  && m[o + 2 * i] % 4 == 1 && m[o + 2 * i + 1] % 4 == (if i < n - 1 then 3 else 1)
                  && Bit(m[o + 2 * i], f) == Bit(m[o + 2 * i + 1], f))
            && m[t] % 4 == 0 && m[t + 1] % 4 == 2 && m[t + 2..t + 6] == [0, 2, 0, 0]
            && (t % 2 == 1 ==> t + 6 < |m| && m[t + 6] == 0)
  {
    hide Start, RegisterBits, PreambleAt, Bit;
    var o, n := Start(j) + 31, RegisterBits(j);
    var t := o + 2 * n;
    if t + 6 <= |m| {
      assert m[t + 2..t + 6] == [m[t + 2], m[t + 3], m[t + 4], m[t + 5]];
    }
  }

  predicate LineAt(m: bytes, i: nat, f: nat) {
    i < |m| && Bit(m[i], f)
  }

  /** The bits on line `f`, in the order sent. */
  function LineBits(m: bytes, o: nat, n: nat, f: nat): (b: seq<bool>)
    ensures |b| == n
  {
    if n == 0 then [] else LineBits(m, o, n - 1, f) + [LineAt(m, o + 2 * (n - 1), f)]
  }

  /** The value of register `j` on line `f`, most significant bit first. */
  function RegisterValue(m: bytes, j: nat, f: nat): nat {
    FromHigh(LineBits(m, Start(j) + 31, RegisterBits(j), f))
  }

  // ----- physical and logical registers -----

  /** `GetRegisterValue`'s final switch: where the value of register `j` is stored. */
  function Stored(vals: seq<nat>, j: nat, v: nat): (r: seq<nat>)
    requires |vals| == 15 && j < 12
    ensures |r| == 15
  {
    if j == 10 then vals[10 := v % 64][11 := v / 64 % 16]
    else if j == 11 then vals[12 := v / 4 % 4][13 := v % 4]
    else vals[j := v]
  }

  /** The fourteen settings twelve physical registers stand for. */
  function Logical(phys: seq<nat>): (r: seq<nat>)
    requires |phys| >= 12
    ensures |r| == 14
  {
    phys[..10] + [phys[10] % 64, phys[10] / 64 % 16, phys[11] / 4 % 4, phys[11] % 4]
  }

  /** `trip_values` after the first `k` registers of a reply have been stored. */
  function DecodedUpTo(m: bytes, f: nat, vals: seq<nat>, k: nat): (r: seq<nat>)
    requires |vals| == 15 && k <= 12
    ensures |r| == 15
  {
    if k == 0 then vals else Stored(DecodedUpTo(m, f, vals, k - 1), k - 1, RegisterValue(m, k - 1, f))
  }

  /** The values of the first `k` registers on line `f`. */
  function RegisterValues(m: bytes, f: nat, k: nat): (r: seq<nat>)
    ensures |r| == k
  {
    if k == 0 then [] else RegisterValues(m, f, k - 1) + [RegisterValue(m, k - 1, f)]
  }

  /** Storing the twelve registers one by one yields the fourteen settings; the injection value stays. */
  lemma DecodedIsLogical(m: bytes, f: nat, vals: seq<nat>)
    requires |vals| == 15
    ensures DecodedUpTo(m, f, vals, 12) == Logical(RegisterValues(m, f, 12)) + [vals[14]]
  {
    hide RegisterValue;
    var n := 10;
    DecodedPlain(m, f, vals, n);
    var v10, v11 := RegisterValue(m, n, f), RegisterValue(m, n + 1, f);
    var plain := RegisterValues(m, f, n);
    assert DecodedUpTo(m, f, vals, n + 1) == Stored(plain + vals[n..], n, v10);
    assert RegisterValues(m, f, n + 2) == plain + [v10] + [v11];
    assert DecodedUpTo(m, f, vals, n + 2) == Stored(Stored(plain + vals[n..], n, v10), n + 1, v11);
  }

  lemma {:induction false} DecodedPlain(m: bytes, f: nat, vals: seq<nat>, k: nat)
    requires |vals| == 15 && k <= 10
    ensures DecodedUpTo(m, f, vals, k) == RegisterValues(m, f, k) + vals[k..]
  {
    hide RegisterValue;
    if k > 0 {
      DecodedPlain(m, f, vals, k - 1);
    }
  }
}
