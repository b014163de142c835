/** Blocks of frames read from a channel, and how `SequencerReadoutBlock` takes them apart. */
module ReadoutBlock {
  import opened Bytes
  import opened Lvds

  const SHORT := 0x1_0000
  const INCOMING_HEADER := 15

  /** A frame of at least `least` bytes that carries its own length. */
  predicate IsFrame(f: bytes, least: nat) {
    |f| >= 2 && |f| >= least && ReceivedLength(f) == |f|
  }

  predicate AllFrames(fs: seq<bytes>, least: nat) {
    forall k | 0 <= k < |fs| :: IsFrame(fs[k], least)
  }

  function Concat(fs: seq<bytes>): bytes {
    if fs == [] then [] else fs[0] + Concat(fs[1..])
  }

  /** Following the declared lengths ends exactly at the end of the block. */
  predicate WellFramed(data: bytes, least: nat) {
    data == [] || (
      |data| >= 2
      && var n := ReceivedLength(data); 0 < n && least <= n <= |data| && WellFramed(data[n..], least))
  }

  function Frames(data: bytes): (fs: seq<bytes>)
    requires WellFramed(data, 1)
  {
    if data == [] then [] else [data[..ReceivedLength(data)]] + Frames(data[ReceivedLength(data)..])
  }

  /** A block of one frame can be split exactly when the frame has the fifteen bytes of a header. */
  lemma OneFrameIff(f: bytes)
    requires |f| >= 2 && f[0] as int * 0x100 + f[1] as int == |f|
    ensures WellFramed(f, INCOMING_HEADER) <==> |f| >= 15
  {
    assert f[|f|..] == [];
  }

  lemma {:induction false} LongFramesAreFrames(data: bytes, least: nat)
    requires WellFramed(data, least) && least >= 1
    ensures WellFramed(data, 1)
  {
    if data != [] { LongFramesAreFrames(data[ReceivedLength(data)..], least); }
  }

  lemma {:induction false} FramesConcat(data: bytes, least: nat)
    requires WellFramed(data, least) && least >= 2
    ensures WellFramed(data, 1)
    ensures AllFrames(Frames(data), least) && Concat(Frames(data)) == data
  {
    hide IsFrame, ReceivedLength;
    LongFramesAreFrames(data, least);
    if data != [] {
      var n := ReceivedLength(data);
      FramesConcat(data[n..], least);
      FirstFrame(data, least);
      Consed(data[..n], Frames(data[n..]), least);
      assert data == data[..n] + data[n..];
    }
  }

  lemma FirstFrame(data: bytes, least: nat)
    requires |data| >= 2 && least <= ReceivedLength(data) <= |data| && ReceivedLength(data) >= 2
    ensures IsFrame(data[..ReceivedLength(data)], least)
  {
  }

  lemma Consed(f: bytes, fs: seq<bytes>, least: nat)
    requires IsFrame(f, least) && AllFrames(fs, least)
    ensures AllFrames([f] + fs, least) && Concat([f] + fs) == f + Concat(fs)
  {
    hide IsFrame;
    assert ([f] + fs)[1..] == fs;
  }

  /** Splitting inverts concatenation, whatever bytes the frames hold. */
  lemma {:induction false} SplitInvertsConcat(fs: seq<bytes>, least: nat)
    requires AllFrames(fs, least) && least >= 1
    ensures WellFramed(Concat(fs), least) && WellFramed(Concat(fs), 1)
    ensures Frames(Concat(fs)) == fs
  {
    if fs != [] {
      var data, n := Concat(fs), |fs[0]|;
      assert IsFrame(fs[0], least);
      assert AllFrames(fs[1..], least) by {
        forall k | 0 <= k < |fs[1..]| ensures IsFrame(fs[1..][k], least) { assert IsFrame(fs[k + 1], least); }
      }
      SplitInvertsConcat(fs[1..], least);
      assert data[..n] == fs[0] && data[n..] == Concat(fs[1..]);
      assert fs == [fs[0]] + fs[1..];
    }
  }

  /** The blocks that can be split are the concatenations of frames, and each is one in only one way. */
  lemma WellFramedIffConcat(data: bytes, least: nat)
    requires least >= 2
    ensures WellFramed(data, least) <==> exists fs :: AllFrames(fs, least) && Concat(fs) == data
    ensures forall fs, fs' | AllFrames(fs, least) && AllFrames(fs', least) && Concat(fs) == data == Concat(fs') ::
              fs == fs'
  {
    if WellFramed(data, least) {
      FramesConcat(data, least);
    }
    forall fs | AllFrames(fs, least) && Concat(fs) == data
      ensures WellFramed(data, least) && WellFramed(data, 1) && fs == Frames(data)
    {
      SplitInvertsConcat(fs, least);
    }
  }

  /** Where the splitting loop is: still running at a 16-bit index, done, or reading past the block. */
  datatype Progress = Running(index: nat) | Done | Fault

  /** At most `n` iterations of the splitting loop from `index` on. */
  function Iterate(data: bytes, index: nat, n: nat): Progress
    decreases n
  {
    if index >= |data| then Done
    else if n == 0 then Running(index)
    else if index + 1 >= |data| || index + ReceivedLength(data[index..]) > |data| then Fault
    else Iterate(data, (index + ReceivedLength(data[index..])) % SHORT, n - 1)
  }

  /** The declared lengths lead to a length of zero. */
  predicate LeadsToZero(data: bytes) {
    |data| >= 2
    && var n := ReceivedLength(data); n == 0 || (n <= |data| && LeadsToZero(data[n..]))
  }

  lemma {:induction false} IterateWellFramed(data: bytes, index: nat, n: nat)
    requires index <= |data| < SHORT && WellFramed(data[index..], 1)
    decreases |data| - index
    ensures Iterate(data, index, |data| - index + n) == Done
  {
    hide ReceivedLength;
    if index < |data| {
      var k := ReceivedLength(data[index..]);
      assert data[index..][k..] == data[index + k..];
      IterateWellFramed(data, index + k, n + k - 1);
    }
  }

  lemma {:induction false} IterateToZero(data: bytes, index: nat, n: nat)
    requires index <= |data| < SHORT && LeadsToZero(data[index..])
    decreases |data| - index
    ensures Iterate(data, index, n).Running?
  {
    hide ReceivedLength;
    var k := ReceivedLength(data[index..]);
    if k == 0 {
      StaysAtZero(data, index, n);
    } else if n > 0 {
      assert data[index..][k..] == data[index + k..];
      IterateToZero(data, index + k, n - 1);
    }
  }

  lemma {:induction false} IterateToFault(data: bytes, index: nat, n: nat)
    requires index <= |data| < SHORT && !WellFramed(data[index..], 1) && !LeadsToZero(data[index..])
    decreases |data| - index
    ensures Iterate(data, index, |data| - index + n) == Fault
  {
    hide ReceivedLength;
    if index + 1 < |data| {
      var k := ReceivedLength(data[index..]);
      if index + k <= |data| {
        assert data[index..][k..] == data[index + k..];
        IterateToFault(data, index + k, n + k - 1);
      }
    }
  }

  lemma {:induction false} StaysAtZero(data: bytes, index: nat, n: nat)
    requires index + 1 < |data| < SHORT && ReceivedLength(data[index..]) == 0
    ensures Iterate(data, index, n) == Running(index)
  {
    if n > 0 { StaysAtZero(data, index, n - 1); }
  }

  /** The loop ends inside the block exactly for the well-framed blocks; a length of zero keeps it running forever. */
  lemma LoopEndsIff(data: bytes)
    requires |data| < SHORT
    ensures (exists n :: Iterate(data, 0, n) == Done) <==> WellFramed(data, 1)
    ensures (forall n :: Iterate(data, 0, n).Running?) <==> LeadsToZero(data)
  {
    assert data[0..] == data;
    if WellFramed(data, 1) {
      IterateWellFramed(data, 0, 0);
    } else if LeadsToZero(data) {
      forall n ensures Iterate(data, 0, n).Running? { IterateToZero(data, 0, n); }
    } else {
      IterateToFault(data, 0, 0);
      forall n ensures Iterate(data, 0, n) != Done {
        if Iterate(data, 0, n) == Done {
          MoreIterations(data, 0, n, |data| + n);
          IterateToFault(data, 0, n);
        }
      }
    }
  }

  lemma {:induction false} MoreIterations(data: bytes, index: nat, n: nat, n': nat)
    requires n <= n' && Iterate(data, index, n) == Done
    decreases n
    ensures Iterate(data, index, n') == Done
  {
    if index < |data| {
      MoreIterations(data, (index + ReceivedLength(data[index..])) % SHORT, n - 1, n' - 1);
    }
  }

  /** A whole frame begins at the index, its header included. */
  predicate FrameAt(block: bytes, index: nat) {
    && index + 1 < |block|
    && var n := ReceivedLength(block[index..]); INCOMING_HEADER <= n && index + n <= |block|
  }

  /** The frames split off so far make up the block up to the index. */
  ghost predicate SplitUpTo(done: seq<bytes>, block: bytes, index: nat) {
    index <= |block| && AllFrames(done, INCOMING_HEADER) && Concat(done) == block[..index]
  }

  lemma SplitNone(block: bytes)
    ensures SplitUpTo([], block, 0)
  {
  }

  lemma {:induction false} ConcatAppend(fs: seq<bytes>, f: bytes)
    ensures Concat(fs + [f]) == Concat(fs) + f
  {
    if fs == [] {
      assert [] + [f] == [f] && [f][1..] == [];
    } else {
      ConcatAppend(fs[1..], f);
      assert (fs + [f])[1..] == fs[1..] + [f];
    }
  }

  lemma SplitOneMore(done: seq<bytes>, block: bytes, index: nat, length: nat)
    requires SplitUpTo(done, block, index) && FrameAt(block, index) && length == ReceivedLength(block[index..])
    ensures SplitUpTo(done + [block[index..index + length]], block, index + length)
  {
    hide Concat;
    ConcatAppend(done, block[index..index + length]);
    assert block[..index] + block[index..index + length] == block[..index + length];
  }

  lemma SplitDone(done: seq<bytes>, block: bytes)
    requires SplitUpTo(done, block, |block|)
    ensures WellFramed(block, INCOMING_HEADER) && WellFramed(block, 1) && Frames(block) == done
  {
    hide Concat, AllFrames, WellFramed, Frames;
    SplitInvertsConcat(done, INCOMING_HEADER);
    assert block[..|block|] == block;
  }

  lemma {:induction false} WellFramedBehind(fs: seq<bytes>, rest: bytes, least: nat)
    requires AllFrames(fs, least) && least >= 1
    ensures WellFramed(Concat(fs) + rest, least) <==> WellFramed(rest, least)
  {
    if fs == [] {
      assert Concat(fs) + rest == rest;
    } else {
      var data, more := Concat(fs) + rest, Concat(fs[1..]) + rest;
      assert IsFrame(fs[0], least);
      assert AllFrames(fs[1..], least) by {
        forall k | 0 <= k < |fs[1..]| ensures IsFrame(fs[1..][k], least) { assert IsFrame(fs[k + 1], least); }
      }
      WellFramedBehind(fs[1..], rest, least);
      assert data == fs[0] + more && data[|fs[0]|..] == more;
    }
  }

  /** Where no frame begins the block cannot be split. */
  lemma SplitBroken(done: seq<bytes>, block: bytes, index: nat)
    requires SplitUpTo(done, block, index) && index < |block| && !FrameAt(block, index)
    ensures !WellFramed(block, INCOMING_HEADER)
  {
    hide Concat, AllFrames;
    WellFramedBehind(done, block[index..], INCOMING_HEADER);
    assert block[..index] + block[index..] == block;
  }

  lemma PrefixSlice(s: bytes, n: nat, i: nat, j: nat)
    requires i <= j <= n <= |s|
    ensures s[..n][i..j] == s[i..j]
  {
  }

  lemma FrameAdvances(block: bytes, index: nat)
    requires FrameAt(block, index)
    ensures index < index + ReceivedLength(block[index..]) <= |block|
  {
  }

  /** The frames of the block up to the place where no frame begins have been appended. */
  ghost predicate SplitPart(frames: seq<bytes>, before: seq<bytes>, block: bytes) {
    exists done, index: nat ::
      SplitUpTo(done, block, index) && index < |block| && !FrameAt(block, index) && frames == before + done
  }

  class SequencerReadoutBlock {
    var data: array?<byte>
    var dataLength: nat
    var frames: seq<bytes>

    ghost predicate Valid()
      reads this
    {
      dataLength < SHORT && (data != null ==> dataLength <= data.Length)
    }

    /** The bytes still to be split. */
    ghost function Pending(): bytes
      requires Valid()
      reads this, data
    {
      if data == null then [] else data[..dataLength]
    }

    constructor ()
      ensures Valid() && data == null && dataLength == 0 && frames == []
    {
      data, dataLength, frames := null, 0, [];
    }

    method SetData(d: array?<byte>, length: nat)
      requires length < SHORT && (d != null ==> length <= d.Length)
      modifies this`data, this`dataLength
      ensures Valid() && data == d && dataLength == length
    {
      data, dataLength := d, length;
    }

    method ClearData()
      requires Valid()
      modifies this`data, this`dataLength
      ensures Valid() && Pending() == []
      ensures old(dataLength) > 0 && old(data) != null ==> data == null && dataLength == 0
    {
      if dataLength > 0 && data != null {
        data, dataLength := null, 0;
      }
    }

    /**
      Appends the frame that starts at `index` and returns the length it declares. When the frame would
      end outside the block, or its header outside the frame, nothing is appended.
     */
    method SplitOff(index: nat, ghost block: bytes) returns (inside: bool, length: nat)
      requires Valid() && data != null && Pending() == block && index < |block|
      modifies this`frames
      ensures inside <==> FrameAt(block, index)
      ensures inside ==> length == ReceivedLength(block[index..])
      ensures inside ==> frames == old(frames) + [block[index..index + length]]
      ensures !inside ==> frames == old(frames)
    {
      length := 0;
      if index + 1 == dataLength { return false, 0; }
      assert block[index..][0] == data[index] && block[index..][1] == data[1 + index];
      length := data[index] as int * 256 + data[1 + index];
      if index + length > dataLength || length < INCOMING_HEADER { return false, length; }
      var frameData := new byte[length];
      forall k | 0 <= k < length { frameData[k] := data[index + k]; }
      frames := frames + [frameData[..]];
      assert frameData[..] == block[index..index + length] by {
        ghost var all := data[..];
        assert block == all[..dataLength] && frameData[..] == all[index..index + length];
        PrefixSlice(all, dataLength, index, index + length);
      }
      inside := true;
    }

    /**
      `ProcessDataIntoFrames`. It stays inside the block exactly when the block can be split into frames
      with whole headers; otherwise it stops, here, at the frame that is broken.
     */
    method ProcessDataIntoFrames() returns (inside: bool)
      requires Valid()
      modifies this
      ensures Valid() && (inside <==> WellFramed(old(Pending()), INCOMING_HEADER))
      ensures inside ==> Pending() == [] && WellFramed(old(Pending()), 1)
      ensures inside ==> frames == old(frames) + Frames(old(Pending()))
      ensures !inside ==> data == old(data) && dataLength == old(dataLength)
      ensures !inside ==> SplitPart(frames, old(frames), old(Pending()))
    {
      hide SplitPart;
      ghost var block := Pending();
      if dataLength == 0 || data == null {
        assert block == [] && frames + [] == frames;
        return true;
      }
      inside := SplitAll(block);
      if inside { ClearData(); }
    }

    /** The splitting loop. The 16-bit index never wraps. */
    method SplitAll(ghost block: bytes) returns (inside: bool)
      requires Valid() && data != null && Pending() == block
      modifies this`frames
      ensures inside <==> WellFramed(block, INCOMING_HEADER)
      ensures inside ==> WellFramed(block, 1) && frames == old(frames) + Frames(block)
      ensures !inside ==> SplitPart(frames, old(frames), block)
    {
      hide WellFramed, Frames, ReceivedLength, FrameAt, Concat, AllFrames;
      var index := 0;
      ghost var done: seq<bytes> := [];
      SplitNone(block);
      while index < dataLength
        invariant index <= dataLength && SplitUpTo(done, block, index) && frames == old(frames) + done
        decreases dataLength - index
      {
        var length;
        inside, length := SplitOff(index, block);
        if !inside {
          SplitBroken(done, block, index);
          return;
        }
        SplitOneMore(done, block, index, length);
        FrameAdvances(block, index);
        done := done + [block[index..index + length]];
        index := (index + length) % SHORT;
      }
      SplitDone(done, block);
      inside := true;
    }

    /** The oldest frame, or none when the list is empty. */
    method PopOffFrame() returns (frame: Option<bytes>)
      modifies this`frames
      ensures old(frames) == [] ==> frame == None && frames == []
      ensures old(frames) != [] ==> frame == Some(old(frames)[0]) && frames == old(frames)[1..]
    {
      frame := None;
      if frames != [] {
        frame := Some(frames[0]);
        frames := frames[1..];
      }
    }

    method FrameCount() returns (n: nat)
      ensures n == |frames|
    {
      n := |frames|;
    }
  }

  /** The drain loop of `DissolveDataBlock`. */
  method Drain(block: SequencerReadoutBlock) returns (seen: seq<bytes>)
    modifies block`frames
    ensures seen == old(block.frames) && block.frames == []
  {
    seen := [];
    var count := block.FrameCount();
    while count > 0
      invariant count == |block.frames| && seen + block.frames == old(block.frames)
      decreases count
    {
      var frame := block.PopOffFrame();
      seen := seen + [frame.value];
      count := block.FrameCount();
    }
  }

  /** `DissolveDataBlock` sees the frames of a block that can be split, in order, and leaves the block empty. */
  method DissolveDataBlock(block: SequencerReadoutBlock) returns (inside: bool, seen: seq<bytes>)
    requires block.Valid() && block.frames == []
    modifies block
    ensures block.Valid() && (inside <==> WellFramed(old(block.Pending()), INCOMING_HEADER))
    ensures inside ==> block.Pending() == [] && block.frames == []
    ensures inside ==> AllFrames(seen, INCOMING_HEADER) && Concat(seen) == old(block.Pending())
  {
    hide WellFramed, Frames, Concat, AllFrames, SplitPart;
    seen := [];
    ghost var pending := block.Pending();
    inside := block.ProcessDataIntoFrames();
    if !inside { return; }
    FramesConcat(pending, INCOMING_HEADER);
    assert block.frames == Frames(pending);
    seen := Drain(block);
  }
}
