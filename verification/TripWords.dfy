/** What a listener on the serial line of the TRiP chips hears, word by word and bit by bit. */
module TripWords {
  import opened Bytes
  import opened BitSerial
  import opened TripStream

  /** The chips are asked for the registers 1 to 12. */
  predicate AsksForAll(words: seq<Word>) {
    |words| == 12 && forall k | 0 <= k < 12 :: words[k] == Word(0x0A, k + 1, 0x04, 0)
  }

  /** The fifteen values are written: to the registers 1 to 12, and the injection value to register 14. */
  predicate WritesAll(words: seq<Word>, v: seq<nat>)
    requires |v| == 15
  {
    && |words| == 13 && (forall k | 0 <= k < 10 :: words[k] == Word(0x0A, k + 1, 0x01, v[k] % 0x100))
    && words[10] == Word(0x0A, 11, 0x01, v[10] % 0x40 + v[11] % 0x10 * 0x40)
    && words[11] == Word(0x0A, 12, 0x01, v[13] % 4 + v[12] % 4 * 4)
    && words[12] == Word(0x0A, 14, 0x01, v[14] % 0x4_0000_0000)
  }

  /** A listener that begins with the stream `s` hears the request, or the values `v`. */
  predicate Hears(s: bytes, read: bool, v: seq<nat>)
    requires |v| == 15
  {
    match ReadAll(s, 0)
    case None => false
    case Some(words) => if read then AsksForAll(words) else WritesAll(words, v)
  }

  lemma {:induction false} ExpectedFrom(regs: seq<nat>, o: Order, k: nat)
    requires |regs| == 14 && k <= 12
    ensures var words, last := Expected(regs, o, k), Expected(regs, o, 12);
            && |words| == 12 - k + |last| && words[12 - k..] == last
            && forall j | k <= j < 12 :: words[j - k] == Word(o.chip, j + 1, o.command, Low(regs[j], RegisterBits(j)))
    decreases 12 - k
  {
    hide Low, RegisterBits;
    if k < 12 {
      ExpectedFrom(regs, o, k + 1);
      var more := Expected(regs, o, k + 1);
      var words := [Word(o.chip, k + 1, o.command, Low(regs[k], RegisterBits(k)))] + more;
      assert Expected(regs, o, k) == words && words[12 - k..] == more[12 - (k + 1)..];
      forall j | k <= j < 12 ensures words[j - k] == Word(o.chip, j + 1, o.command, Low(regs[j], RegisterBits(j))) {
        if j > k { assert words[j - k] == more[j - (k + 1)]; }
      }
    }
  }

  lemma ExpectedEnds(regs: seq<nat>, o: Order)
    requires |regs| == 14
    ensures Expected(regs, o, 12) == if o.read then [] else [Word(o.chip, 14, o.command, Low(regs[13], 34))]
  {
    hide Low;
    assert Expected(regs, o, 12) == Expected(regs, o, 13) && Expected(regs, o, 14) == [];
  }

  /** The bytes that carry a word, as the lines show them: the framing, and a high and a low clock for every bit. */
  lemma RegisterIsFramed(i: nat, value: nat, o: Order)
    ensures var r, n := RegisterBytes(i, value, o), RegisterBits(i);
            && |r| == 37 + 2 * n && r[0] == 0 && r[1] == 1 && r[28] == 3 && r[29] == 1
            && (forall k | 0 <= k < 13 :: r[2 + 2 * k] in {3, 7} && r[3 + 2 * k] == r[2 + 2 * k] - 2)
            && (forall k | 0 <= k < n :: r[30 + 2 * k] in {3, 7} && r[31 + 2 * k] == r[30 + 2 * k] - 2)
            && r[30 + 2 * n..] == [1, 0, 2, 0, 2, 0, 0]
  {
    var r, n := RegisterBytes(i, value, o), RegisterBits(i);
    RegisterFields(i, value, o);
    RegisterEnds(i, value, o);
    hide *;
    forall k | 0 <= k < 13 ensures r[2 + 2 * k] in {3, 7} && r[3 + 2 * k] == r[2 + 2 * k] - 2 {
      if k < 5 {
        FieldClocked(r, 2, o.chip, 5, false, k);
      } else if k < 10 {
        FieldClocked(r, 12, i + 1, 5, false, k - 5);
      } else {
        FieldClocked(r, 22, o.command, 3, false, k - 10);
      }
    }
    forall k | 0 <= k < n ensures r[30 + 2 * k] in {3, 7} && r[31 + 2 * k] == r[30 + 2 * k] - 2 {
      FieldClocked(r, 30, value, n, true, k);
    }
  }

  /** A zero byte follows where the size would be even. */
  lemma PadIsZero(regs: seq<nat>, o: Order, k: nat)
    requires k < |regs| && !Skipped(k, o.read)
    ensures var r := RegisterBytes(k, regs[k], o); var before := Encoded(regs, o, k);
            Encoded(regs, o, k + 1) == before + r + (if (|before| + |r|) % 2 == 0 then [0] else [])
  {
    hide RegisterBytes;
  }

  lemma RegisterEnds(i: nat, value: nat, o: Order)
    ensures var r, n := RegisterBytes(i, value, o), RegisterBits(i);
            r[0] == 0 && r[1] == 1 && r[28] == 3 && r[29] == 1 && r[30 + 2 * n..] == [1, 0, 2, 0, 2, 0, 0]
  {
    hide SortNSet, RegisterBits;
    var a, b := SortNSet(false, o.chip, 5, true, false), SortNSet(false, i + 1, 5, true, false);
    var c, v := SortNSet(false, o.command, 3, true, false), SortNSet(false, value, RegisterBits(i), true, true);
    var r := RegisterBytes(i, value, o);
    assert r == [0, 1] + (a + (b + (c + ([3, 1] + (v + TAIL)))));
    assert r == ([0, 1] + a + b + c) + ([3, 1] + (v + TAIL));
    assert r == ([0, 1] + a + b + c + [3, 1] + v) + TAIL;
  }

  lemma FieldClocked(r: bytes, at: nat, data: nat, n: nat, low: bool, k: nat)
    requires at + 2 * n <= |r| && r[at..at + 2 * n] == SortNSet(false, data, n, true, low) && k < n
    ensures r[at + 2 * k] in {3, 7} && r[at + 1 + 2 * k] == r[at + 2 * k] - 2
  {
    hide SortedBits;
    var bits := SortedBits(data, n, low);
    var s := Clocked(bits, true, false);
    assert s[2 * k] == Pack(true, true, bits[k], false) && s[2 * k + 1] == Pack(true, false, bits[k], false);
    assert r[at + 2 * k] == r[at..at + 2 * n][2 * k] && r[at + 1 + 2 * k] == r[at..at + 2 * n][2 * k + 1];
  }

  lemma ThirtyFour()
    ensures Pow2(34) == 0x4_0000_0000 && Pow2(8) == 0x100 && Pow2(10) == 0x400 && Pow2(4) == 0x10
  {
    assert Pow2(4) == 0x10 && Pow2(8) == 0x100 && Pow2(10) == 0x400 && Pow2(14) == 0x4000 && Pow2(18) == 0x4_0000;
    assert Pow2(22) == 0x40_0000 && Pow2(26) == 0x400_0000 && Pow2(30) == 0x4000_0000 && Pow2(34) == 0x4_0000_0000;
  }
}
