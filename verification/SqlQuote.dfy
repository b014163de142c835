/**
  SQL quoting in the SQLite shell: `output_quoted_string`, `appendText` and `set_table_name`, with the
  sizes of the buffers they allocate.
 */
module SqlQuote {
  import opened Bytes
  import opened Quoting
  import opened Files

  const APOSTROPHE: byte := 39

  // ----- printing a literal -----

  lemma DoubledChunk(s: bytes, i: nat, q: byte)
    requires i <= |s| && q !in s[..i]
    ensures Doubled(s, q) == s[..i] + Doubled(s[i..], q)
  {
    DoubledAppend(s[..i], s[i..], q);
    DoubledWithout(s[..i], q);
    assert s[..i] + s[i..] == s;
  }

  /** The text still to come when the loop of `output_quoted_string` has reached position `p`. */
  ghost predicate StillToPrint(before: bytes, now: bytes, z: bytes, p: nat) {
    p <= |z| && now + Doubled(z[p..], APOSTROPHE) == before + Doubled(z, APOSTROPHE)
  }

  lemma PrintedChunk(before: bytes, now: bytes, z: bytes, p: nat, i: nat)
    requires StillToPrint(before, now, z, p) && i <= |z[p..]| && APOSTROPHE !in z[p..][..i]
    ensures p + i < |z| && z[p + i] == APOSTROPHE ==>
      StillToPrint(before, now + (z[p..][..i] + [APOSTROPHE, APOSTROPHE]), z, p + i + 1)
    ensures p + i == |z| ==> now + z[p..][..i] == before + Doubled(z, APOSTROPHE)
  {
    var rest := z[p..];
    DoubledChunk(rest, i, APOSTROPHE);
    assert rest[i..] == z[p + i..];
    if p + i < |z| {
      assert z[p + i..][1..] == z[p + i + 1..];
    }
  }

  /** `output_quoted_string`: text without apostrophes at once, other text chunk by chunk. */
  method OutputQuotedString(out: OutFile, z: bytes)
    modifies out
    ensures out.content == old(out.content) + Quoted(z, APOSTROPHE)
  {
    ghost var before := out.content + [APOSTROPHE];
    var nSingle := 0;
    for i := 0 to |z|
      invariant nSingle == 0 <==> APOSTROPHE !in z[..i]
    {
      if z[i] == APOSTROPHE { nSingle := nSingle + 1; }
    }
    assert z[..|z|] == z;
    if nSingle == 0 {
      DoubledWithout(z, APOSTROPHE);
      out.Puts([APOSTROPHE] + z + [APOSTROPHE]);
    } else {
      out.Putc(APOSTROPHE);
      PrintChunks(out, z);
      out.Putc(APOSTROPHE);
    }
  }

  method PrintChunks(out: OutFile, z: bytes)
    modifies out
    ensures out.content == old(out.content) + Doubled(z, APOSTROPHE)
  {
    hide StillToPrint, Doubled;
    var p := 0;
    ghost var before := out.content;
    assert StillToPrint(before, before, z, 0) by { PrintNothing(before, z); }
    while p < |z|
      invariant p <= |z| && StillToPrint(before, out.content, z, p)
    {
      var i := 0;
      while p + i < |z| && z[p + i] != APOSTROPHE
        invariant p + i <= |z| && APOSTROPHE !in z[p..][..i]
      {
        assert z[p..][..i + 1] == z[p..][..i] + [z[p + i]];
        i := i + 1;
      }
      PrintedChunk(before, out.content, z, p, i);
      assert z[p..][..i] == z[p..p + i];
      if i == 0 {
        assert z[p..p] + [APOSTROPHE, APOSTROPHE] == [APOSTROPHE, APOSTROPHE];
        out.Puts([APOSTROPHE, APOSTROPHE]);
        p := p + 1;
      } else if p + i < |z| {
        out.Puts(z[p..p + i] + [APOSTROPHE, APOSTROPHE]);
        p := p + i + 1;
      } else {
        out.Puts(z[p..]);
        assert z[p..] == z[p..p + i];
        return;
      }
    }
    PrintNothing(out.content, z);
  }

  lemma PrintNothing(before: bytes, z: bytes)
    ensures StillToPrint(before, before, z, 0)
    ensures forall b :: StillToPrint(b, before, z, |z|) ==> before == b + Doubled(z, APOSTROPHE)
  {
    assert z[0..] == z && z[|z|..] == [];
    assert before + [] == before;
  }

  // ----- building a string in memory -----

  /** The C string that a possibly null pointer stands for. */
  ghost predicate PointsTo(z: array?<byte>, s: bytes)
    reads z
  {
    if z == null then s == [] else StringAt(z[..], 0, s)
  }

  /** `strlen30`. */
  method Strlen(z: array<byte>, ghost s: bytes) returns (n: nat)
    requires StringAt(z[..], 0, s)
    ensures n == |s|
  {
    StringBytes(z[..], 0, s);
    n := 0;
    while z[n] != 0
      invariant n <= |s|
      decreases |s| - n
    {
      n := n + 1;
    }
  }

  /** `realloc` of a string, which also accepts NULL: room for `len` bytes, the old text in front. */
  method Grow(zIn: array?<byte>, len: nat, ghost s: bytes) returns (z: array<byte>)
    requires PointsTo(zIn, s) && |s| < len
    ensures fresh(z) && z.Length == len && z[..|s|] == s
  {
    if zIn == null {
      z := new byte[len];
    } else {
      var n := Strlen(zIn, s);
      z := Realloc(zIn, n, len);
      assert zIn[..][0..n] == zIn[..n];
    }
  }

  /** Write `s` with every `q` doubled, from `at` on. */
  method PutDoubled(z: array<byte>, at: nat, s: bytes, q: byte, ghost m: bytes, ghost start: nat, ghost w: bytes)
    returns (next: nat)
    requires Written(z[..], m, Patch(start, w)) && at == start + |w| && at + |Doubled(s, q)| <= |m|
    modifies z
    ensures next == at + |Doubled(s, q)| && Written(z[..], m, Patch(start, w + Doubled(s, q)))
  {
    hide Written, Doubled;
    next := at;
    ghost var w' := w;
    assert s[..0] == [];
    DoubledPrefix(s, 0, q);
    assert w + [] == w;
    for i := 0 to |s|
      invariant w' == w + Doubled(s[..i], q) && next == start + |w'|
      invariant Written(z[..], m, Patch(start, w'))
    {
      DoubledPrefix(s, i, q);
      PutNext(z, next, s[i], m, start, w');
      w', next := w' + [s[i]], next + 1;
      if s[i] == q {
        PutNext(z, next, q, m, start, w');
        w', next := w' + [q], next + 1;
      }
      assert w' == w + (Doubled(s[..i], q) + if s[i] == q then [s[i], q] else [s[i]]);
    }
    assert s[..|s|] == s;
  }

  lemma DoubledPrefix(s: bytes, i: nat, q: byte)
    requires i <= |s|
    ensures i == 0 ==> Doubled(s[..i], q) == []
    ensures i < |s| ==> Doubled(s[..i + 1], q) == Doubled(s[..i], q) + if s[i] == q then [s[i], q] else [s[i]]
    ensures i < |s| ==> |Doubled(s[..i + 1], q)| <= |Doubled(s, q)|
  {
    if i < |s| {
      assert s[..i + 1] == s[..i] + [s[i]] && [s[i]][1..] == [];
      DoubledAppend(s[..i], [s[i]], q);
      DoubledAppend(s[..i + 1], s[i + 1..], q);
      assert s == s[..i + 1] + s[i + 1..];
    }
  }

  /** A freshly filled block: the text `s`, then `w`, then the terminator, with no byte left over. */
  lemma Filled(m': bytes, m: bytes, s: bytes, w: bytes)
    requires Written(m', m, Patch(|s|, w + [0])) && |m| == |s| + |w| + 1 && m[..|s|] == s
    requires NulFree(s) && NulFree(w)
    ensures m' == s + w + [0] && StringAt(m', 0, s + w)
  {
    assert m[|m|..] == [];
    assert m'[0..0 + |s + w|] == s + w;
  }

  /** What `appendText` puts behind the text it is given. */
  function Appendix(zAppend: bytes, quote: byte): bytes {
    if quote == 0 then zAppend else Quoted(zAppend, quote)
  }

  lemma AppendixSize(zAppend: bytes, quote: byte)
    requires NulFree(zAppend)
    ensures |Appendix(zAppend, quote)| == |zAppend| + if quote == 0 then 0 else 2 + Count(zAppend, quote)
    ensures NulFree(Appendix(zAppend, quote))
    ensures if quote == 0 then Appendix(zAppend, quote) == zAppend
            else ReadQuoted(Appendix(zAppend, quote), quote) == Some(Literal(zAppend, []))
  {
    if quote != 0 { QuotedRoundTrip(zAppend, quote, []); }
    assert Quoted(zAppend, quote) + [] == Quoted(zAppend, quote);
    DoubledLength(zAppend, quote);
    DoubledNulFree(zAppend, quote);
  }

  method CountQuotes(s: bytes, q: byte) returns (n: nat)
    ensures n == Count(s, q)
  {
    n := 0;
    for i := 0 to |s|
      invariant n == Count(s[..i], q)
    {
      assert s[..i + 1][..i] == s[..i];
      if s[i] == q { n := n + 1; }
    }
    assert s[..|s|] == s;
  }

  /**
    `appendText`: the result is the old text followed by the possibly quoted new one, in a block whose
    every byte is written: the length counted beforehand is exact, as the code's own assertion says.
   */
  method AppendText(zIn: array?<byte>, zAppend: bytes, quote: byte, ghost s: bytes) returns (z: array<byte>)
    requires PointsTo(zIn, s) && NulFree(s) && NulFree(zAppend)
    ensures fresh(z) && z[..] == s + Appendix(zAppend, quote) + [0]
    ensures StringAt(z[..], 0, s + Appendix(zAppend, quote))
  {
    hide Written, Doubled, StringAt, NulFree, Count;
    var nIn := 0;
    if zIn != null { nIn := Strlen(zIn, s); }
    var len := |zAppend| + nIn + 1;
    if quote != 0 {
      var n := CountQuotes(zAppend, quote);
      len := len + 2 + n;
    }
    AppendixSize(zAppend, quote);
    z := Grow(zIn, len, s);
    ghost var m := z[..];
    WrittenNothing(m, nIn);
    var csr := nIn;
    if quote != 0 {
      PutNext(z, csr, quote, m, nIn, []);
      csr := PutDoubled(z, csr + 1, zAppend, quote, m, nIn, [] + [quote]);
      PutNext(z, csr, quote, m, nIn, [] + [quote] + Doubled(zAppend, quote));
      csr := csr + 1;
      assert [] + [quote] + Doubled(zAppend, quote) + [quote] == Appendix(zAppend, quote);
    } else {
      csr := PutAll(z, csr, zAppend, m, nIn);
    }
    PutNext(z, csr, 0, m, nIn, Appendix(zAppend, quote));
    assert csr + 1 == len;
    Filled(z[..], m, s, Appendix(zAppend, quote));
  }

  /** `memcpy` of a string. */
  method PutAll(z: array<byte>, at: nat, s: bytes, ghost m: bytes, ghost start: nat) returns (next: nat)
    requires Written(z[..], m, Patch(start, [])) && at == start && at + |s| <= |m|
    modifies z
    ensures next == at + |s| && Written(z[..], m, Patch(start, s))
  {
    hide Written;
    next := at;
    assert s[..0] == [];
    for i := 0 to |s|
      invariant next == at + i && Written(z[..], m, Patch(start, s[..i]))
    {
      PutNext(z, next, s[i], m, start, s[..i]);
      assert s[..i + 1] == s[..i] + [s[i]];
      next := next + 1;
    }
    assert s[..|s|] == s;
  }

  // ----- table names -----

  predicate IsAlpha(c: byte) {
    65 <= c <= 90 || 97 <= c <= 122
  }

  predicate IdentifierByte(c: byte) {
    IsAlpha(c) || 48 <= c <= 57 || c == 95
  }

  /** A name SQL reads as it stands. */
  predicate IsIdentifier(name: bytes) {
    name != [] && (IsAlpha(name[0]) || name[0] == 95) && forall i | 0 <= i < |name| :: IdentifierByte(name[i])
  }

  function TableName(name: bytes): bytes {
    if IsIdentifier(name) then name else Quoted(name, APOSTROPHE)
  }

  /** Exactly the names of ASCII letters, digits and underscores that do not begin with a digit stay unquoted. */
  lemma UnquotedIff(name: bytes)
    ensures TableName(name) == name <==>
              && name != [] && !(48 <= name[0] <= 57)
              && forall i | 0 <= i < |name| ::
                   65 <= name[i] <= 90 || 97 <= name[i] <= 122 || 48 <= name[i] <= 57 || name[i] == 95
    ensures TableName(name) == name || TableName(name) == Quoted(name, 39)
  {
    DoubledLength(name, 39);
    hide Doubled;
  }

  /** Reading a table name: a quoted literal, or the text itself. */
  function ReadTableName(text: bytes): Option<bytes> {
    if text != [] && text[0] == APOSTROPHE then
      match ReadQuoted(text, APOSTROPHE)
      case None => None
      case Some(l) => if l.rest == [] then Some(l.value) else None
    else if IsIdentifier(text) then Some(text) else None
  }

  /** Every name, the empty one and names full of apostrophes included, is read back from its form. */
  lemma TableNameRoundTrip(name: bytes)
    ensures ReadTableName(TableName(name)) == Some(name)
  {
    if !IsIdentifier(name) {
      QuotedRoundTrip(name, APOSTROPHE, []);
      assert Quoted(name, APOSTROPHE) + [] == Quoted(name, APOSTROPHE);
    }
  }

  /** The part of `callback_data` that `.mode insert` sets. */
  class CallbackData {
    var zDestTable: array?<byte>

    constructor ()
      ensures zDestTable == null
    {
      zDestTable := null;
    }

    /** `set_table_name`. The block holds the name's form and its terminator, and nothing else. */
    method SetTableName(zName: Option<bytes>)
      requires zName.Some? ==> NulFree(zName.value)
      modifies this
      ensures zName.None? ==> zDestTable == null
      ensures zName.Some? ==> zDestTable != null && fresh(zDestTable)
      ensures zName.Some? ==> zDestTable[..] == TableName(zName.value) + [0]
    {
      zDestTable := null;
      if zName == None { return; }
      var name := zName.value;
      var needQuote, n := MeasureName(name);
      TableNameSize(name);
      hide Written, Doubled, TableName, NulFree, Count;
      var z := new byte[n + 1];
      zDestTable := z;
      ghost var m, w: bytes := z[..], [];
      WrittenNothing(m, 0);
      n := 0;
      if needQuote {
        PutNext(z, n, APOSTROPHE, m, 0, w);
        w, n := w + [APOSTROPHE], n + 1;
      }
      n := PutDoubled(z, n, name, APOSTROPHE, m, 0, w);
      w := w + Doubled(name, APOSTROPHE);
      if needQuote {
        PutNext(z, n, APOSTROPHE, m, 0, w);
        w, n := w + [APOSTROPHE], n + 1;
      }
      TableNameParts(name);
      PutNext(z, n, 0, m, 0, w);
      Filled(z[..], m, [], w);
    }
  }

  /** The counting loop: are quotes needed, and how many bytes without the terminator? */
  method MeasureName(name: bytes) returns (needQuote: bool, n: nat)
    ensures needQuote <==> !IsIdentifier(name)
    ensures n == |name| + Count(name, APOSTROPHE) + if needQuote then 2 else 0
  {
    needQuote := name == [] || (!IsAlpha(name[0]) && name[0] != 95);
    n := 0;
    for i := 0 to |name|
      invariant n == i + Count(name[..i], APOSTROPHE)
      invariant needQuote <==>
        name == [] || (!IsAlpha(name[0]) && name[0] != 95) || exists k | 0 <= k < i :: !IdentifierByte(name[k])
    {
      assert name[..i + 1][..i] == name[..i];
      if !IdentifierByte(name[i]) {
        needQuote := true;
        if name[i] == APOSTROPHE { n := n + 1; }
      }
      n := n + 1;
    }
    assert name[..|name|] == name;
    if needQuote { n := n + 2; }
  }

  lemma TableNameSize(name: bytes)
    requires NulFree(name)
    ensures |TableName(name)| == |name| + Count(name, APOSTROPHE) + if IsIdentifier(name) then 0 else 2
    ensures |Doubled(name, APOSTROPHE)| == |name| + Count(name, APOSTROPHE)
    ensures NulFree(TableName(name)) && NulFree([])
  {
    DoubledLength(name, APOSTROPHE);
    DoubledNulFree(name, APOSTROPHE);
    TableNameParts(name);
  }

  lemma TableNameParts(name: bytes)
    ensures TableName(name) ==
      if IsIdentifier(name) then [] + Doubled(name, APOSTROPHE)
      else [] + [APOSTROPHE] + Doubled(name, APOSTROPHE) + [APOSTROPHE]
  {
    if IsIdentifier(name) {
      assert APOSTROPHE !in name;
      DoubledWithout(name, APOSTROPHE);
    }
  }
}
