/** Bytes and byte strings. A C string is modelled by its bytes before the NUL. */
module Bytes {
  type byte = x: int | 0 <= x < 256
  type bytes = seq<byte>

  datatype Option<+T> = None | Some(value: T)

  /** No byte of `s` is the C string terminator. */
  predicate NulFree(s: bytes) {
    forall i | 0 <= i < |s| :: s[i] != 0
  }

  /** The C string at offset `at` of the memory `m` is `s`. */
  ghost predicate StringAt(m: bytes, at: nat, s: bytes) {
    at + |s| < |m| && m[at..at + |s|] == s && NulFree(s) && m[at + |s|] == 0
  }

  lemma StringBytes(m: bytes, at: nat, s: bytes)
    requires StringAt(m, at, s)
    ensures forall i | 0 <= i < |s| :: m[at + i] == s[i] != 0
  {
    forall i | 0 <= i < |s| ensures m[at + i] == s[i] {
      assert m[at..at + |s|][i] == m[at + i];
    }
  }

  lemma StringByte(m: bytes, at: nat, s: bytes, i: nat)
    requires StringAt(m, at, s) && i <= |s|
    ensures at + |s| < |m|
    ensures m[at + i] == (if i < |s| then s[i] else 0) && (m[at + i] == 0 <==> i == |s|)
  {
    StringBytes(m, at, s);
  }

  /** What a C program sees of the bytes `c` followed by a terminator. */
  function Visible(c: bytes): (v: bytes)
    ensures NulFree(v)
    ensures NulFree(c) ==> v == c
  {
    if c == [] || c[0] == 0 then []
    else
      assert NulFree(c) ==> NulFree(c[1..]);
      [c[0]] + Visible(c[1..])
  }

  lemma {:induction false} VisibleAt(m: bytes, at: nat, c: bytes)
    requires at + |c| < |m| && m[at..at + |c|] == c && m[at + |c|] == 0
    decreases c
    ensures StringAt(m, at, Visible(c)) && |Visible(c)| <= |c|
  {
    if c != [] {
      assert m[at] == m[at..at + |c|][0];
      assert m[at + 1..at + 1 + |c[1..]|] == m[at..at + |c|][1..];
      VisibleAt(m, at + 1, c[1..]);
    }
  }

  /** Bytes written over memory from an offset on. */
  datatype Patch = Patch(at: nat, w: bytes)

  /** The memory `m'` is `m` with the patch written over it. */
  ghost predicate Written(m': bytes, m: bytes, p: Patch) {
    match p
    case Patch(at, w) => at + |w| <= |m| && m' == m[..at] + w + m[at + |w|..]
  }

  /** How far a loop that rewrites a string in place has got: the next read, and what is written. */
  datatype Rewrite = Rewrite(read: nat, out: bytes)

  lemma WrittenNothing(m: bytes, at: nat)
    requires at <= |m|
    ensures Written(m, m, Patch(at, []))
  {
  }

  lemma WrittenNext(m': bytes, m: bytes, at: nat, w: bytes, b: byte)
    requires Written(m', m, Patch(at, w)) && at + |w| < |m|
    ensures |m'| == |m| && Written(m'[at + |w| := b], m, Patch(at, w + [b]))
  {
  }

  lemma WrittenString(m': bytes, m: bytes, at: nat, w: bytes)
    requires Written(m', m, Patch(at, w + [0])) && NulFree(w)
    ensures StringAt(m', at, w)
  {
    assert m'[at..at + |w|] == w;
  }

  lemma WrittenSame(m: bytes, at: nat, w: bytes)
    requires StringAt(m, at, w)
    ensures NulFree(w) && Written(m, m, Patch(at, w + [0]))
  {
    StringBytes(m, at, w);
  }

  lemma WrittenKeeps(m': bytes, m: bytes, at: nat, w: bytes, at': nat, s: bytes)
    requires Written(m', m, Patch(at, w)) && StringAt(m, at', s) && (at' + |s| < at || at + |w| <= at')
    ensures StringAt(m', at', s)
  {
    assert m'[at'..at' + |s|] == m[at'..at' + |s|];
  }

  /** Bytes not yet overwritten read as in the original string. */
  lemma ReadAhead(m': bytes, m: bytes, at: nat, s: bytes, out: bytes, j: nat)
    requires StringAt(m, at, s) && Written(m', m, Patch(at, out)) && |out| <= j <= |s|
    ensures at + |s| < |m| == |m'|
    ensures m'[at + j] == if j < |s| then s[j] else 0
    ensures m'[at + j] == 0 <==> j == |s|
  {
    StringByte(m, at, s, j);
  }
}
