/** The file that keeps the global gate number, written over without being truncated. */
module GateFile {
  import opened Bytes

  const ULLONG_MAX := 0xFFFF_FFFF_FFFF_FFFF

  predicate IsDigit(b: byte) {
    48 <= b <= 57
  }

  predicate IsSpace(b: byte) {
    9 <= b <= 13 || b == 32
  }

  /** What `<<` prints for an unsigned number. */
  function Decimal(n: nat): (s: bytes)
    ensures s != [] && forall i | 0 <= i < |s| :: IsDigit(s[i])
  {
    if n < 10 then [48 + n] else Decimal(n / 10) + [48 + n % 10]
  }

  /** The number a run of digits stands for. */
  function ValueOf(s: bytes): (n: nat)
    requires forall i | 0 <= i < |s| :: IsDigit(s[i])
  {
    if s == [] then 0
    else
      assert IsDigit(s[|s| - 1]);
      ValueOf(s[..|s| - 1]) * 10 + (s[|s| - 1] as int - 48)
  }

  function SkipSpace(s: bytes): bytes {
    if s != [] && IsSpace(s[0]) then SkipSpace(s[1..]) else s
  }

  /** The digits `s` starts with. */
  function DigitRun(s: bytes): (d: bytes)
    ensures d <= s && (forall i | 0 <= i < |d| :: IsDigit(d[i])) && (|d| < |s| ==> !IsDigit(s[|d|]))
  {
    if s == [] || !IsDigit(s[0]) then []
    else
      assert s == [s[0]] + s[1..];
      [s[0]] + DigitRun(s[1..])
  }

  /**
    What `>>` reads into an unsigned 64-bit number: nothing when there is only white space, 0 when
    something else than a digit comes first, the largest number when it is too big.
   */
  function ReadNumber(s: bytes): Option<nat> {
    if SkipSpace(s) == [] then None
    else
      var n := ValueOf(DigitRun(SkipSpace(s)));
      Some(if n > ULLONG_MAX then ULLONG_MAX else n)
  }

  /** The file after `w` is written at its start. */
  function Overwritten(previous: bytes, w: bytes): bytes {
    w + if |previous| > |w| then previous[|w|..] else []
  }

  lemma {:induction false} DecimalValue(n: nat)
    ensures ValueOf(Decimal(n)) == n
  {
    if n >= 10 {
      DecimalValue(n / 10);
      assert Decimal(n)[..|Decimal(n)| - 1] == Decimal(n / 10);
    }
  }

  lemma {:induction false} DecimalLengthGrows(m: nat, n: nat)
    requires m <= n
    ensures |Decimal(m)| <= |Decimal(n)|
  {
    if m >= 10 { DecimalLengthGrows(m / 10, n / 10); }
  }

  lemma {:induction false} MaximalRun(d: bytes, s: bytes)
    requires d <= s && (forall i | 0 <= i < |d| :: IsDigit(d[i])) && (|d| < |s| ==> !IsDigit(s[|d|]))
    ensures DigitRun(s) == d
  {
    if d != [] {
      assert s[0] == d[0];
      MaximalRun(d[1..], s[1..]);
      assert d == [d[0]] + d[1..];
    }
  }

  lemma {:induction false} LongerRun(d: bytes, e: bytes)
    requires (forall i | 0 <= i < |d| :: IsDigit(d[i])) && (forall i | 0 <= i < |e| :: IsDigit(e[i]))
    requires forall i | 0 <= i < |d + e| :: IsDigit((d + e)[i])
    ensures ValueOf(d + e) >= ValueOf(d)
    ensures ValueOf(d) > 0 && e != [] ==> ValueOf(d + e) > ValueOf(d)
    ensures ValueOf(d) == 0 ==> ValueOf(d + e) == ValueOf(e)
  {
    if e == [] {
      assert d + e == d;
    } else {
      var e' := e[..|e| - 1];
      assert (d + e)[..|d + e| - 1] == d + e';
      LongerRun(d, e');
    }
  }

  /** The digits of the old file that stick out behind the new number. */
  function Leftover(previous: bytes, g: nat): bytes {
    var k := |Decimal(g)|; if |previous| > k then DigitRun(previous[k..]) else []
  }

  lemma OverwrittenRun(previous: bytes, g: nat)
    ensures var s := Overwritten(previous, Decimal(g));
            SkipSpace(s) == s && DigitRun(s) == Decimal(g) + Leftover(previous, g)
  {
    var d, e := Decimal(g), Leftover(previous, g);
    var s := Overwritten(previous, d);
    assert SkipSpace(s) == s by { assert s[0] == d[0] && IsDigit(d[0]); }
    assert d + e <= s;
    assert |d + e| < |s| ==> s[|d + e|] == previous[|d|..][|e|];
    MaximalRun(d + e, s);
  }

  /**
    Overwriting is right exactly when no digit of the old file is left behind the new number, for
    every number but two: zero also survives zeros, and the largest number survives any digits.
   */
  lemma ReadsBackIff(previous: bytes, g: nat)
    requires g <= ULLONG_MAX
    ensures ReadNumber(Overwritten(previous, Decimal(g))) == Some(g) <==>
            Leftover(previous, g) == [] || g == ULLONG_MAX || (g == 0 && ValueOf(Leftover(previous, g)) == 0)
  {
    hide Decimal, ValueOf, DigitRun, SkipSpace;
    var d, e := Decimal(g), Leftover(previous, g);
    OverwrittenRun(previous, g);
    assert e == [] ==> d + e == d;
    DecimalValue(g);
    LongerRun(d, e);
  }

  /** No digit is left behind exactly when the old file ends, or goes on with another character, at that place. */
  lemma NothingLeftIff(previous: bytes, g: nat)
    ensures Leftover(previous, g) == [] <==> |previous| <= |Decimal(g)| || !IsDigit(previous[|Decimal(g)|])
  {
  }

  /**
    What is read from any file: white space in front is skipped, a number that is too big is the largest,
    and without a digit there is a zero, or nothing at all when there is only white space.
   */
  lemma NumberIsRead(w: bytes, g: nat, r: bytes)
    requires (forall i | 0 <= i < |w| :: w[i] in [9, 10, 11, 12, 13, 32]) && (r == [] || !(48 <= r[0] <= 57))
    ensures ReadNumber(w) == None
    ensures ReadNumber(w + (Decimal(g) + r)) == Some(if g > 18446744073709551615 then 18446744073709551615 else g)
    ensures r != [] && r[0] !in [9, 10, 11, 12, 13, 32] ==> ReadNumber(w + r) == Some(0)
  {
    hide Decimal, ValueOf, DigitRun, SkipSpace;
    var d := Decimal(g);
    Skipped(w, []);
    Skipped(w, d + r);
    Skipped(w, r);
    assert w + [] == w && IsDigit(d[0]) && d[0] == (d + r)[0];
    assert d <= d + r && (r != [] ==> (d + r)[|d|] == r[0]);
    MaximalRun(d, d + r);
    DecimalValue(g);
    MaximalRun([], r);
    NoDigit();
  }

  lemma NoDigit()
    ensures ValueOf([]) == 0
  {
  }

  lemma {:induction false} Skipped(w: bytes, s: bytes)
    requires forall i | 0 <= i < |w| :: w[i] in [9, 10, 11, 12, 13, 32]
    ensures s == [] || s[0] !in [9, 10, 11, 12, 13, 32] ==> SkipSpace(w + s) == s
  {
    if w == [] {
      assert w + s == s;
    } else {
      assert (w + s)[1..] == w[1..] + s && (w + s)[0] == w[0];
      Skipped(w[1..], s);
    }
  }

  predicate NoDigits(s: bytes) {
    forall i | 0 <= i < |s| :: !IsDigit(s[i])
  }

  /** The file holds `g` and nothing else that is a digit. */
  predicate HoldsGate(text: bytes, g: nat) {
    Decimal(g) <= text && NoDigits(text[|Decimal(g)|..])
  }

  /** A file that holds a gate reads as that gate. */
  lemma HeldGateIsRead(text: bytes, g: nat)
    requires HoldsGate(text, g) && g <= ULLONG_MAX
    ensures ReadNumber(text) == Some(g)
  {
    assert text == Decimal(g) + text[|Decimal(g)|..];
    assert SkipSpace(text) == text by { assert text[0] == Decimal(g)[0]; }
    if |Decimal(g)| < |text| { assert text[|Decimal(g)|] == text[|Decimal(g)|..][0]; }
    MaximalRun(Decimal(g), text);
    DecimalValue(g);
  }

  /** Gates only grow, so writing a later gate over an earlier one never leaves a digit behind. */
  lemma LaterGateOverwrites(text: bytes, g: nat, g': nat)
    requires HoldsGate(text, g) && g <= g'
    ensures HoldsGate(Overwritten(text, Decimal(g')), g') && Leftover(text, g') == []
  {
    DecimalLengthGrows(g, g');
    var k, s := |Decimal(g')|, Overwritten(text, Decimal(g'));
    forall i | 0 <= i < |s[k..]| ensures !IsDigit(s[k..][i]) {
      assert s[k..][i] == text[k + i] == text[|Decimal(g)|..][k + i - |Decimal(g)|];
    }
    if |text| > k { assert text[k] == text[|Decimal(g)|..][k - |Decimal(g)|]; }
  }

  /** A gate with fewer digits does not: 9 written over "10" reads back as 90. */
  lemma ShorterGateIsMisread()
    ensures Decimal(9) == [57] && Overwritten(Decimal(10), Decimal(9)) == [57, 48]
    ensures ReadNumber(Overwritten(Decimal(10), Decimal(9))) == Some(90)
  {
    assert Decimal(10) == [49, 48];
    var s: bytes := [57, 48];
    assert Overwritten(Decimal(10), Decimal(9)) == s;
    MaximalRun(s, s);
    assert s[..1] == [57] && s[..1][..0] == [];
    assert ValueOf(s[..1]) == 9;
  }
}
