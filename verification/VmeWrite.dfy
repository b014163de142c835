/** Writing a message to a VME module two bytes at a time, with retries (`VMECommunicator::WriteCycle`). */
module VmeWrite {
  import opened Bytes
  import opened Lvds
  import opened TripStream

  /** The first word of a message: the low byte first, a lone last byte with a zero above it. */
  function FirstWord(m: bytes): nat
    requires m != []
  {
    m[0] as int + 256 * (if |m| == 1 then 0 else m[1] as int)
  }

  function Words(m: bytes): (ws: seq<nat>)
    ensures |ws| == (|m| + 1) / 2
  {
    if m == [] then []
    else if |m| == 1 then [FirstWord(m)]
    else [FirstWord(m)] + Words(m[2..])
  }

  /** What the module makes of the words it accepted. */
  function Unpacked(ws: seq<nat>): bytes {
    if ws == [] then [] else [ws[0] % 256, ws[0] / 256 % 256] + Unpacked(ws[1..])
  }

  lemma {:induction false} WordAt(m: bytes, i: nat)
    requires 2 * i < |m|
    ensures Words(m)[i] == FirstWord(m[2 * i..])
  {
    if i > 0 {
      WordAt(m[2..], i - 1);
      assert m[2..][2 * (i - 1)..] == m[2 * i..];
    } else {
      assert m[0..] == m;
    }
  }

  /** Every word in numbers: two bytes of the message, the first below the second; a zero above a lone last byte. */
  lemma WordIs(m: bytes, i: nat)
    requires 2 * i < |m|
    ensures Words(m)[i] == m[2 * i] as int + 0x100 * (if 2 * i + 1 < |m| then m[2 * i + 1] as int else 0)
  {
    WordAt(m, i);
  }

  lemma FirstWordBytes(m: bytes)
    requires m != []
    ensures FirstWord(m) < 0x1_0000 && FirstWord(m) % 256 == m[0]
    ensures FirstWord(m) / 256 % 256 == if |m| == 1 then 0 else m[1]
  {
  }

  lemma {:induction false} WordsFit(m: bytes)
    ensures forall i | 0 <= i < |Words(m)| :: Words(m)[i] < 0x1_0000
  {
    hide Words, FirstWord;
    forall i | 0 <= i < |Words(m)| ensures Words(m)[i] < 0x1_0000 {
      WordAt(m, i);
      FirstWordBytes(m[2 * i..]);
    }
  }

  lemma WordsStep(m: bytes)
    requires |m| > 1
    ensures Words(m) == [FirstWord(m)] + Words(m[2..])
  {
  }

  lemma UnpackedStep(w: nat, ws: seq<nat>)
    ensures Unpacked([w] + ws) == [w % 256, w / 256 % 256] + Unpacked(ws)
  {
    assert ([w] + ws)[1..] == ws;
  }

  lemma OneWord(m: bytes)
    requires |m| > 1
    ensures Unpacked(Words(m)) == [m[0], m[1]] + Unpacked(Words(m[2..])) && m == [m[0], m[1]] + m[2..]
  {
    hide FirstWord, Words, Unpacked;
    FirstWordBytes(m);
    WordsStep(m);
    UnpackedStep(FirstWord(m), Words(m[2..]));
  }

  lemma LastWord(m: bytes)
    requires |m| <= 1
    ensures Unpacked(Words(m)) == m + if |m| == 1 then [0] else []
  {
    hide FirstWord;
    if |m| == 1 {
      FirstWordBytes(m);
      assert Words(m)[1..] == [];
    }
  }

  /** Packing loses nothing: a zero follows exactly the messages of odd length. */
  lemma {:induction false} UnpackedWords(m: bytes)
    ensures Unpacked(Words(m)) == m + if |m| % 2 == 1 then [0] else []
    ensures forall i | 0 <= i < |Words(m)| :: Words(m)[i] < 0x1_0000
  {
    hide Unpacked, Words;
    WordsFit(m);
    if |m| > 1 {
      UnpackedWords(m[2..]);
      OneWord(m);
    } else {
      LastWord(m);
    }
  }

  /** A TRiP programming message has even length, so it is never padded. */
  lemma TripMessageUnpadded(header: bytes, regs: seq<nat>, o: Order)
    requires |header| == HEADER_SIZE && |regs| == 14
    ensures Unpacked(Words(header + Encoded(regs, o, 14))) == header + Encoded(regs, o, 14)
  {
    hide *;
    EncodedSize(regs, o, 14);
    BufferSizes(o.read);
    UnpackedWords(header + Encoded(regs, o, 14));
    EvenTotals(o.read, |header|);
  }

  lemma EvenTotals(read: bool, n: nat)
    requires n == HEADER_SIZE
    ensures (n + if read then 643 else 749) % 2 == 0
  {
  }

  /** How many of the answers of the bus report a completed cycle. */
  function Completed(codes: seq<int>): (n: nat)
    ensures n <= |codes|
  {
    if codes == [] then 0 else (if codes[0] >= 0 then 1 else 0) + Completed(codes[1..])
  }

  /**
    The place of the answer that ends the tries for one word: the first that is not negative or on
    which the loop gives up. The code gives up on none; its comment excepts -1 and -4.
   */
  function EndOfTries(codes: seq<int>, givenUp: set<int>): (end: Option<nat>)
    ensures end.None? ==> forall i | 0 <= i < |codes| :: codes[i] < 0 && codes[i] !in givenUp
    ensures end.Some? ==>
              && end.value < |codes| && (codes[end.value] >= 0 || codes[end.value] in givenUp)
              && forall i | 0 <= i < end.value :: codes[i] < 0 && codes[i] !in givenUp
  {
    if codes == [] then None
    else if codes[0] >= 0 || codes[0] in givenUp then Some(0)
    else
      match EndOfTries(codes[1..], givenUp)
      case None => None
      case Some(k) => Some(k + 1)
  }

  const BUS_ERROR := -1
  const PARAMETER_ERROR := -4

  /** An answer the comment excepts comes before any that reports a completed cycle. */
  predicate FailsForGood(codes: seq<int>) {
    exists k | 0 <= k < |codes| ::
      codes[k] in {BUS_ERROR, PARAMETER_ERROR} && forall i | 0 <= i < k :: codes[i] < 0
  }

  /** Code and comment agree exactly when no bus or parameter error comes before a completed cycle. */
  lemma RetryIsIntendedIff(codes: seq<int>)
    ensures EndOfTries(codes, {}) == EndOfTries(codes, {BUS_ERROR, PARAMETER_ERROR}) <==> !FailsForGood(codes)
  {
    var coded, intended := EndOfTries(codes, {}), EndOfTries(codes, {BUS_ERROR, PARAMETER_ERROR});
    if FailsForGood(codes) {
      var k :| 0 <= k < |codes| && codes[k] in {BUS_ERROR, PARAMETER_ERROR} && forall i | 0 <= i < k :: codes[i] < 0;
      assert intended.Some? && intended.value <= k;
      assert coded.Some? ==> coded.value > k;
    } else if intended.Some? {
      assert codes[intended.value] >= 0;
      assert coded.Some? && coded.value == intended.value;
    }
  }

  /** The first answer that is not negative is where the code stops trying. */
  lemma TriesEndAt(codes: seq<int>, k: nat)
    requires k <= |codes| && forall i | 0 <= i < k :: codes[i] < 0
    ensures k < |codes| && codes[k] >= 0 ==> EndOfTries(codes, {}) == Some(k)
    ensures k == |codes| ==> EndOfTries(codes, {}) == None
  {
  }

  /** `codes` is what is left of the answers `all`. */
  predicate LeftOf(codes: seq<int>, all: seq<int>) {
    |codes| <= |all| && codes == all[|all| - |codes|..]
  }

  /** The last answer taken from `all` when `codes` is left. */
  function LastTaken(codes: seq<int>, all: seq<int>): int
    requires |codes| < |all|
  {
    all[|all| - |codes| - 1]
  }

  /** The first `k` words have been accepted, each once, and `error` answered the last of them. */
  predicate Transmitted(ws: seq<nat>, k: nat, before: seq<nat>, accepted: seq<nat>, all: seq<int>, codes: seq<int>,
                        error: int) {
    && k <= |ws| && accepted == before + ws[..k]
    && LeftOf(codes, all) && Completed(codes) == Completed(all) - k
    && error >= 0 && (k > 0 ==> |codes| < |all| && error == LastTaken(codes, all))
  }

  lemma TransmittedOneMore(ws: seq<nat>, k: nat, before: seq<nat>, accepted: seq<nat>, all: seq<int>,
                           codes: seq<int>, error: int, codes': seq<int>, error': int)
    requires Transmitted(ws, k, before, accepted, all, codes, error) && k < |ws|
    requires LeftOf(codes', codes) && |codes'| < |codes| && 0 <= error' == LastTaken(codes', codes)
    requires Completed(codes') == Completed(codes) - 1
    ensures Transmitted(ws, k + 1, before, accepted + [ws[k]], all, codes', error')
  {
    hide LeftOf, LastTaken, Completed;
    LeftOfLeft(codes', codes, all);
    assert before + ws[..k] + [ws[k]] == before + ws[..k + 1];
  }

  lemma LeftOfLeft(codes': seq<int>, codes: seq<int>, all: seq<int>)
    requires LeftOf(codes', codes) && LeftOf(codes, all) && |codes'| < |codes|
    ensures LeftOf(codes', all) && |codes'| < |all| && LastTaken(codes', all) == LastTaken(codes', codes)
  {
  }

  lemma TransmittedNone(ws: seq<nat>, accepted: seq<nat>, codes: seq<int>)
    ensures Transmitted(ws, 0, accepted, accepted, codes, codes, 0)
  {
  }

  /** When every answer left is negative, what has been accepted is all there will be. */
  lemma TransmittedPart(ws: seq<nat>, k: nat, before: seq<nat>, accepted: seq<nat>, all: seq<int>, codes: seq<int>,
                        error: int)
    requires Transmitted(ws, k, before, accepted, all, codes, error) && Completed(codes) == 0 && k < |ws|
    ensures Completed(all) == k < |ws| && accepted == before + ws[..Completed(all)]
  {
  }

  lemma TransmittedAll(ws: seq<nat>, before: seq<nat>, accepted: seq<nat>, all: seq<int>, codes: seq<int>, error: int)
    requires Transmitted(ws, |ws|, before, accepted, all, codes, error)
    ensures LeftOf(codes, all) && Completed(codes) == Completed(all) - |ws| && accepted == before + ws && error >= 0
    ensures ws != [] ==> |codes| < |all| && error == LastTaken(codes, all)
  {
    assert ws[..|ws|] == ws;
  }

  /** The word at `k`: the next two bytes, or a lone last byte. */
  method LoadWord(ml: nat, message: array<byte>, k: nat) returns (sendData: nat)
    requires k < ml <= message.Length && k % 2 == 0
    ensures k / 2 < |Words(message[..ml])| && sendData == Words(message[..ml])[k / 2]
  {
    sendData := message[k];
    if k + 1 == ml {
      sendData := sendData + 0;
    } else {
      sendData := sendData + message[k + 1] as int * 256;
    }
    WordAt(message[..ml], k / 2);
    assert message[..ml][k..][0] == message[k];
    assert k + 1 < ml ==> message[..ml][k..][1] == message[k + 1];
  }

  /** A VME module. A cycle answered with a negative code delivers nothing. */
  class Module {
    var codes: seq<int>
    var accepted: seq<nat>

    constructor (answers: seq<int>)
      ensures codes == answers && accepted == []
    {
      codes, accepted := answers, [];
    }

    /** `CAENVME_WriteCycle`. */
    method Cycle(word: nat) returns (code: int)
      requires codes != []
      modifies this
      ensures code == old(codes[0]) && codes == old(codes[1..])
      ensures accepted == old(accepted) + if code < 0 then [] else [word]
    {
      code := codes[0];
      codes := codes[1..];
      if code >= 0 { accepted := accepted + [word]; }
    }

    /** The retry loop for one word; no result when every answer there is has been negative. */
    method Retry(word: nat) returns (error: Option<int>)
      modifies this
      ensures LeftOf(codes, old(codes)) && (error.Some? <==> Completed(old(codes)) > 0)
      ensures error.None? ==> codes == [] && accepted == old(accepted)
      ensures error.Some? ==> accepted == old(accepted) + [word] && Completed(codes) == Completed(old(codes)) - 1
      ensures error.Some? ==> |codes| < |old(codes)| && 0 <= error.value == LastTaken(codes, old(codes))
      ensures EndOfTries(old(codes), {}) == if error.Some? then Some(|old(codes)| - |codes| - 1) else None
    {
      hide EndOfTries;
      error := None;
      ghost var tried := 0;
      while codes != [] && error.None?
        invariant LeftOf(codes, old(codes)) && |codes| == |old(codes)| - tried - (if error.None? then 0 else 1)
        invariant forall i | 0 <= i < tried :: old(codes)[i] < 0
        invariant error.None? ==> accepted == old(accepted) && Completed(codes) == Completed(old(codes))
        invariant error.Some? ==> accepted == old(accepted) + [word] && Completed(codes) == Completed(old(codes)) - 1
        invariant error.Some? ==> |codes| < |old(codes)| && 0 <= error.value == LastTaken(codes, old(codes))
        decreases |codes|
      {
        var code := Cycle(word);
        if !(code < 0 && (code != BUS_ERROR || code != PARAMETER_ERROR)) {
          error := Some(code);
        } else {
          tried := tried + 1;
        }
      }
      TriesEndAt(old(codes), tried);
    }

    /**
      `WriteCycle` for the first `ml` bytes of a message. When it returns, the module has accepted
      the words of the message in order, each once; as long as it has not, it has accepted a prefix.
     */
    method WriteCycle(ml: nat, message: array<byte>) returns (error: Option<int>)
      requires ml <= message.Length
      modifies this
      ensures LeftOf(codes, old(codes))
      ensures error.Some? <==> Completed(old(codes)) >= |Words(message[..ml])|
      ensures error.Some? ==> accepted == old(accepted) + Words(message[..ml])
      ensures error.Some? ==> error.value >= 0 && Completed(codes) == Completed(old(codes)) - |Words(message[..ml])|
      ensures error.Some? && ml > 0 ==> |codes| < |old(codes)| && error.value == LastTaken(codes, old(codes))
      ensures error.None? ==> codes == [] && Completed(old(codes)) < |Words(message[..ml])|
      ensures error.None? ==> accepted == old(accepted) + Words(message[..ml])[..Completed(old(codes))]
    {
      hide Words, Transmitted, LastTaken;
      ghost var ws := Words(message[..ml]);
      ghost var sent := 0;
      error := Some(0);
      TransmittedNone(ws, accepted, codes);
      var k := 0;
      while k < ml
        invariant k == 2 * sent && (k >= ml ==> sent == |ws|) && error.Some?
        invariant Transmitted(ws, sent, old(accepted), accepted, old(codes), codes, error.value)
        decreases ml - k
      {
        var sendData := LoadWord(ml, message, k);
        ghost var was, left, last := accepted, codes, error.value;
        error := Retry(sendData);
        if error.None? {
          TransmittedPart(ws, sent, old(accepted), was, old(codes), left, last);
          return;
        }
        TransmittedOneMore(ws, sent, old(accepted), was, old(codes), left, last, codes, error.value);
        sent, k := sent + 1, k + 2;
      }
      TransmittedAll(ws, old(accepted), accepted, old(codes), codes, error.value);
    }
  }
}
