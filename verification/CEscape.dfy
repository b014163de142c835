/**
  C-style escaping in the SQLite shell: `output_c_string` against `resolve_backslashes`, and the
  reader of quoted command arguments.
 */
module CEscape {
  import opened Bytes
  import opened Files

  const TAB: byte := 9
  const BACKSLASH: byte := 92

  // ----- printing -----

  /** Three octal digits, leading zeros included. */
  function Octal3(c: byte): bytes {
    [48 + c / 64, 48 + c / 8 % 8, 48 + c % 8]
  }

  /** How one byte is printed; `isPrint` stands for the C library's `isprint` in any locale. */
  function EscapeByte(c: byte, isPrint: byte -> bool): bytes {
    if c == BACKSLASH then [BACKSLASH, BACKSLASH]
    else if c == QUOTE then [BACKSLASH, QUOTE]
    else if c == TAB then [BACKSLASH, 't' as byte]
    else if c == LF then [BACKSLASH, 'n' as byte]
    else if c == CR then [BACKSLASH, 'r' as byte]
    else if !isPrint(c) then [BACKSLASH] + Octal3(c)
    else [c]
  }

  function EscapeBody(s: bytes, isPrint: byte -> bool): bytes {
    if s == [] then [] else EscapeByte(s[0], isPrint) + EscapeBody(s[1..], isPrint)
  }

  function CString(s: bytes, isPrint: byte -> bool): bytes {
    [QUOTE] + EscapeBody(s, isPrint) + [QUOTE]
  }

  method PutEscaped(out: OutFile, c: byte, isPrint: byte -> bool)
    modifies out
    ensures out.content == old(out.content) + EscapeByte(c, isPrint)
  {
    if c == BACKSLASH {
      out.Putc(c);
      out.Putc(c);
    } else if c == QUOTE {
      out.Putc(BACKSLASH);
      out.Putc(QUOTE);
    } else if c == TAB {
      out.Putc(BACKSLASH);
      out.Putc('t' as byte);
    } else if c == LF {
      out.Putc(BACKSLASH);
      out.Putc('n' as byte);
    } else if c == CR {
      out.Putc(BACKSLASH);
      out.Putc('r' as byte);
    } else if !isPrint(c) {
      out.Puts([BACKSLASH] + Octal3(c));
    } else {
      out.Putc(c);
    }
  }

  /** `output_c_string`. */
  method OutputCString(out: OutFile, z: bytes, isPrint: byte -> bool)
    modifies out
    ensures out.content == old(out.content) + CString(z, isPrint)
  {
    hide EscapeBody, EscapeByte, CString;
    out.Putc(QUOTE);
    ghost var before := out.content;
    CStringParts(z, isPrint);
    var i := 0;
    while i < |z|
      invariant i <= |z| && out.content == before + EscapeBody(z[..i], isPrint)
    {
      PutEscaped(out, z[i], isPrint);
      EscapeNext(z, i, isPrint);
      Associate(before, EscapeBody(z[..i], isPrint), EscapeByte(z[i], isPrint));
      i := i + 1;
    }
    out.Putc(QUOTE);
    assert z[..i] == z;
    Associate(old(out.content), [QUOTE], EscapeBody(z, isPrint));
    Associate(old(out.content), [QUOTE] + EscapeBody(z, isPrint), [QUOTE]);
  }

  lemma EscapeNext(z: bytes, i: nat, isPrint: byte -> bool)
    requires i < |z|
    ensures EscapeBody(z[..i + 1], isPrint) == EscapeBody(z[..i], isPrint) + EscapeByte(z[i], isPrint)
  {
    EscapeBodySnoc(z[..i], z[i], isPrint);
    assert z[..i + 1] == z[..i] + [z[i]];
  }

  lemma CStringParts(z: bytes, isPrint: byte -> bool)
    ensures EscapeBody(z[..0], isPrint) == [] && CString(z, isPrint) == [QUOTE] + EscapeBody(z, isPrint) + [QUOTE]
  {
  }

  lemma {:induction false} EscapeBodySnoc(s: bytes, c: byte, isPrint: byte -> bool)
    ensures EscapeBody(s + [c], isPrint) == EscapeBody(s, isPrint) + EscapeByte(c, isPrint)
  {
    hide EscapeByte;
    if s == [] {
      assert s + [c] == [c] && [c][1..] == [];
    } else {
      EscapeBodySnoc(s[1..], c, isPrint);
      assert (s + [c])[1..] == s[1..] + [c];
    }
  }

  // ----- resolving -----

  predicate OctalDigit(c: byte) {
    48 <= c <= 55
  }

  /** The value of three octal digits as a `char`: above 255 the ninth bit is lost. */
  function OctalValue(d2: int, d1: int, d0: int): byte {
    ((d2 - 48) * 64 + (d1 - 48) * 8 + (d0 - 48)) % 256
  }

  /** What the byte or escape at `i` stands for, and the position after it. */
  function Unescape(s: bytes, i: nat): (r: (byte, nat))
    requires i < |s| && (s[i] == BACKSLASH ==> i + 1 < |s|)
    ensures i < r.1 <= |s|
  {
    if s[i] != BACKSLASH then (s[i], i + 1)
    else
      var c := s[i + 1];
      if c == 'n' as byte then (LF, i + 2)
      else if c == 't' as byte then (TAB, i + 2)
      else if c == 'r' as byte then (CR, i + 2)
      else if !OctalDigit(c) then (c, i + 2)
      else if i + 2 < |s| && OctalDigit(s[i + 2]) then
        if i + 3 < |s| && OctalDigit(s[i + 3]) then
          (OctalValue(c, s[i + 2], s[i + 3]), i + 4)
        else (OctalValue(48, c, s[i + 2]), i + 3)
      else (OctalValue(48, 48, c), i + 2)
  }

  /** From `i` on no backslash is left without a character to escape. */
  predicate Complete(s: bytes, i: nat)
    decreases |s| - i
  {
    i < |s| ==> (s[i] == BACKSLASH ==> i + 1 < |s|) && Complete(s, Unescape(s, i).1)
  }

  function ResolveFrom(s: bytes, i: nat, out: bytes): bytes
    requires Complete(s, i)
    decreases |s| - i
  {
    if i >= |s| then out
    else var (c, next) := Unescape(s, i); ResolveFrom(s, next, out + [c])
  }

  function Resolve(s: bytes): bytes
    requires Complete(s, 0)
  {
    ResolveFrom(s, 0, [])
  }

  /** The string ends where the backslash at `i` needs a character. */
  predicate Dangling(s: bytes, i: nat)
    requires i < |s|
  {
    s[i] == BACKSLASH && i + 1 == |s|
  }

  /** The loop, at position `i` with `out` written, is on its way to the resolved string, if it gets there. */
  ghost predicate OnTrack(s: bytes, r: Rewrite) {
    match r
    case Rewrite(i, out) =>
      (Complete(s, i) <==> Complete(s, 0)) && (Complete(s, i) ==> ResolveFrom(s, i, out) == Resolve(s))
  }

  lemma Start(m: bytes, s: bytes)
    requires StringAt(m, 0, s)
    ensures OnTrack(s, Rewrite(0, [])) && Written(m, m, Patch(0, [])) && |s| < |m|
  {
    WrittenNothing(m, 0);
  }

  lemma Step(s: bytes, i: nat, out: bytes, c: byte)
    requires OnTrack(s, Rewrite(i, out)) && i < |s|
    ensures Dangling(s, i) ==> !Complete(s, 0)
    ensures !Dangling(s, i) && Unescape(s, i).0 == c ==> OnTrack(s, Rewrite(Unescape(s, i).1, out + [c]))
  {
  }

  lemma Stop(s: bytes, i: nat, out: bytes)
    requires OnTrack(s, Rewrite(i, out)) && i >= |s|
    ensures Complete(s, 0) && Resolve(s) == out
  {
  }

  /** The octal part of an escape: up to two more digits after the one at `i0`. */
  method ReadOctal(z: array<byte>, i0: nat, ghost m: bytes, ghost s: bytes, ghost out: bytes) returns (i: nat, c: byte)
    requires StringAt(m, 0, s) && Written(z[..], m, Patch(0, out)) && |out| < i0 < |s| < z.Length
    requires s[i0 - 1] == BACKSLASH && OctalDigit(s[i0])
    ensures (c, i + 1) == Unescape(s, i0 - 1)
  {
    hide StringAt, Written, Unescape, OctalValue;
    ReadAhead(z[..], m, 0, s, out, i0);
    i := i0;
    c := z[i] - 48;
    ReadAhead(z[..], m, 0, s, out, i + 1);
    OctalIs(s, i0 - 1);
    if 48 <= z[i + 1] <= 55 {
      i := i + 1;
      c := c * 8 + z[i] - 48;
      ReadAhead(z[..], m, 0, s, out, i + 1);
      if 48 <= z[i + 1] <= 55 {
        i := i + 1;
        c := (c * 8 + z[i] - 48) % 256;
      }
    }
  }

  /** One, two or three digits, and what they come to. */
  lemma OctalIs(s: bytes, i: nat)
    requires i + 1 < |s| && s[i] == 92 && 48 <= s[i + 1] <= 55
    ensures var c0 := s[i + 1] as int - 48;
            if i + 2 < |s| && 48 <= s[i + 2] <= 55 then
              var c1 := c0 * 8 + s[i + 2] as int - 48;
              if i + 3 < |s| && 48 <= s[i + 3] <= 55 then
                var c2: byte := (c1 * 8 + s[i + 3] as int - 48) % 256; Unescape(s, i) == (c2, i + 4)
              else
                0 <= c1 < 64 && var c: byte := c1; Unescape(s, i) == (c, i + 3)
            else
              var c: byte := c0; Unescape(s, i) == (c, i + 2)
  {
  }

  /**
    The reading half of one turn: `i` ends on the last byte of the escape, `c` is its value. When the
    byte after a backslash is the terminator, the next byte to be read is outside the string.
   */
  method ReadEscape(z: array<byte>, i0: nat, ghost m: bytes, ghost s: bytes, ghost out: bytes)
    returns (inside: bool, i: nat, c: byte)
    requires StringAt(m, 0, s) && Written(z[..], m, Patch(0, out)) && |out| <= i0 < |s| < z.Length
    ensures inside <==> !Dangling(s, i0)
    ensures inside ==> (c, i + 1) == Unescape(s, i0)
  {
    hide StringAt, Written, OctalValue;
    ReadAhead(z[..], m, 0, s, out, i0);
    inside, i := true, i0;
    c := z[i];
    if c == BACKSLASH {
      i := i + 1;
      ReadAhead(z[..], m, 0, s, out, i);
      c := z[i];
      if c == 0 {
        inside := false;
      } else if c == 'n' as byte {
        c := LF;
      } else if c == 't' as byte {
        c := TAB;
      } else if c == 'r' as byte {
        c := CR;
      } else if 48 <= c <= 55 {
        i, c := ReadOctal(z, i, m, s, out);
      }
    }
  }

  /**
    `resolve_backslashes`: rewrites the string in place, never writing past what it has read. Reading
    stays inside the string exactly when no backslash dangles at its end; where it would leave the
    string, this method stops.
   */
  method ResolveBackslashes(z: array<byte>, ghost s: bytes) returns (inside: bool)
    requires StringAt(z[..], 0, s)
    modifies z
    ensures inside <==> Complete(s, 0)
    ensures inside ==> |Resolve(s)| <= |s| && Written(z[..], old(z[..]), Patch(0, Resolve(s) + [0]))
  {
    hide *;
    ghost var m, out: bytes := z[..], [];
    var i, j := 0, 0;
    Start(m, s);
    StringByte(m, 0, s, 0);
    while z[i] != 0
      invariant |out| == j <= i <= |s| < z.Length && OnTrack(s, Rewrite(i, out))
      invariant Written(z[..], m, Patch(0, out))
      decreases |s| - i
    {
      var c;
      inside, i, c := ResolveNext(z, i, j, m, s, out);
      if !inside { return; }
      out := out + [c];
      i := i + 1;
      j := j + 1;
    }
    Terminate(z, i, j, m, s, out);
    inside := true;
  }

  /** `z[j] = 0` when the loop has come to the end of the string. */
  method Terminate(z: array<byte>, i: nat, j: nat, ghost m: bytes, ghost s: bytes, ghost out: bytes)
    requires StringAt(m, 0, s) && Written(z[..], m, Patch(0, out)) && |out| == j <= i <= |s| < z.Length
    requires OnTrack(s, Rewrite(i, out)) && z[i] == 0
    modifies z
    ensures Complete(s, 0) && |Resolve(s)| <= |s| && Written(z[..], m, Patch(0, Resolve(s) + [0]))
  {
    hide *;
    ReadAhead(z[..], m, 0, s, out, i);
    Stop(s, i, out);
    PutNext(z, j, 0, m, 0, out);
  }

  /** One turn: reads an escape or a byte and writes its value. */
  method ResolveNext(z: array<byte>, i0: nat, j: nat, ghost m: bytes, ghost s: bytes, ghost out: bytes)
    returns (inside: bool, i: nat, c: byte)
    requires StringAt(m, 0, s) && Written(z[..], m, Patch(0, out)) && |out| == j <= i0 <= |s|
    requires OnTrack(s, Rewrite(i0, out)) && i0 < z.Length && z[i0] != 0
    modifies z
    ensures if inside then i0 <= i < |s| && OnTrack(s, Rewrite(i + 1, out + [c])) else !Complete(s, 0)
    ensures inside ==> |s| < z.Length && Written(z[..], m, Patch(0, out + [c]))
  {
    hide StringAt, Written, OnTrack, Unescape, Complete;
    ReadAhead(z[..], m, 0, s, out, i0);
    inside, i, c := ReadEscape(z, i0, m, s, out);
    Step(s, i0, out, c);
    if !inside { return; }
    Advances(s, i0);
    PutNext(z, j, c, m, 0, out);
  }

  lemma Advances(s: bytes, i: nat)
    requires i < |s| && (s[i] == BACKSLASH ==> i + 1 < |s|)
    ensures i < Unescape(s, i).1 <= |s|
  {
    hide OctalValue;
  }

  // ----- the forms in numbers -----

  /** How every byte is printed. */
  lemma EscapesPrinted(c: byte, isPrint: byte -> bool)
    ensures EscapeByte(c, isPrint) ==
              if c == 92 || c == 34 then [92, c]
              else if c == 9 then [92, 116]
              else if c == 10 then [92, 110]
              else if c == 13 then [92, 114]
              else if isPrint(c) then [c]
              else [92, 48 + c / 64, 48 + c / 8 % 8, 48 + c % 8]
  {
  }

  /** How a byte or an escape without digits is read, in any text. */
  lemma EscapesRead(s: bytes, i: nat)
    requires i < |s| && (s[i] == 92 ==> i + 1 < |s|)
    ensures s[i] != 92 ==> Unescape(s, i) == (s[i], i + 1)
    ensures s[i] == 92 && s[i + 1] == 110 ==> Unescape(s, i) == (10, i + 2)
    ensures s[i] == 92 && s[i + 1] == 116 ==> Unescape(s, i) == (9, i + 2)
    ensures s[i] == 92 && s[i + 1] == 114 ==> Unescape(s, i) == (13, i + 2)
    ensures s[i] == 92 && s[i + 1] !in [110, 116, 114] && !(48 <= s[i + 1] <= 55) ==>
              Unescape(s, i) == (s[i + 1], i + 2)
  {
    hide OctalValue;
  }

  // ----- the round trip -----

  lemma IndexMiddle(a: bytes, e: bytes, r: bytes)
    ensures |a + (e + r)| == |a| + |e| + |r|
    ensures forall k | 0 <= k < |e| :: (a + (e + r))[|a| + k] == e[k]
  {
  }

  lemma OctalRoundTrip(c: byte)
    ensures OctalValue(48 + c / 64, 48 + c / 8 % 8, 48 + c % 8) == c
    ensures forall k | 0 <= k < 3 :: OctalDigit(Octal3(c)[k])
    ensures |Octal3(c)| == 3 && OctalValue(Octal3(c)[0], Octal3(c)[1], Octal3(c)[2]) == c
  {
    var d2, d1, d0 := c as int / 64, c as int / 8 % 8, c as int % 8;
    assert d2 < 4 && d1 < 8 && d0 < 8 && c as int == d2 * 64 + d1 * 8 + d0;
  }

  lemma UnescapeOctal(s: bytes, i: nat, d: bytes)
    requires |d| == 3 && OctalDigit(d[0]) && OctalDigit(d[1]) && OctalDigit(d[2])
    requires i + 3 < |s| && s[i] == BACKSLASH && s[i + 1] == d[0] && s[i + 2] == d[1] && s[i + 3] == d[2]
    ensures Unescape(s, i) == (OctalValue(d[0], d[1], d[2]), i + 4)
  {
  }

  /** `Unescape` sees only the text from `i` on, and of that only the escape it takes. */
  lemma UnescapeShape(s: bytes, i: nat, c: byte, isPrint: byte -> bool)
    requires var e := EscapeByte(c, isPrint); i + |e| <= |s| && forall k | 0 <= k < |e| :: s[i + k] == e[k]
    ensures i < |s| && (s[i] == BACKSLASH ==> i + 1 < |s|)
    ensures Unescape(s, i) == (c, i + |EscapeByte(c, isPrint)|)
  {
    hide OctalValue, Octal3;
    OctalRoundTrip(c);
    var e := EscapeByte(c, isPrint);
    assert s[i + 0] == e[0];
    if |e| == 4 {
      assert s[i + 1] == e[1] && s[i + 2] == e[2] && s[i + 3] == e[3];
      hide Unescape;
      UnescapeOctal(s, i, Octal3(c));
    } else if |e| == 2 {
      assert s[i + 1] == e[1];
    }
  }

  /** Reading what is printed for one byte gives that byte, whatever follows, digits included. */
  lemma UnescapeEscaped(a: bytes, c: byte, isPrint: byte -> bool, r: bytes)
    ensures var s := a + (EscapeByte(c, isPrint) + r);
      && |a| < |s| && (s[|a|] == BACKSLASH ==> |a| + 1 < |s|)
      && Unescape(s, |a|) == (c, |a| + |EscapeByte(c, isPrint)|)
  {
    hide EscapeByte, Unescape;
    IndexMiddle(a, EscapeByte(c, isPrint), r);
    UnescapeShape(a + (EscapeByte(c, isPrint) + r), |a|, c, isPrint);
  }

  lemma {:induction false} ResolveEscapedFrom(a: bytes, s: bytes, isPrint: byte -> bool, out: bytes)
    ensures Complete(a + EscapeBody(s, isPrint), |a|)
    ensures ResolveFrom(a + EscapeBody(s, isPrint), |a|, out) == out + s
    decreases s
  {
    hide EscapeByte, Unescape;
    if s != [] {
      var e, rest := EscapeByte(s[0], isPrint), EscapeBody(s[1..], isPrint);
      UnescapeEscaped(a, s[0], isPrint, rest);
      ResolveEscapedFrom(a + e, s[1..], isPrint, out + [s[0]]);
      Associate(a, e, rest);
      Associate(out, [s[0]], s[1..]);
    }
  }

  lemma Associate(a: bytes, b: bytes, c: bytes)
    ensures a + (b + c) == (a + b) + c
  {
  }

  /** The escape law: for every byte string and every notion of printable, resolving undoes printing. */
  lemma EscapeRoundTrip(s: bytes, isPrint: byte -> bool)
    ensures Complete(EscapeBody(s, isPrint), 0)
    ensures Resolve(EscapeBody(s, isPrint)) == s
  {
    ResolveEscapedFrom([], s, isPrint, []);
    assert [] + EscapeBody(s, isPrint) == EscapeBody(s, isPrint) && [] + s == s;
  }

  // ----- quoted command arguments -----

  /** The bytes before the first `q`, or all of them. */
  function UpTo(s: bytes, q: byte): bytes {
    if s == [] || s[0] == q then [] else [s[0]] + UpTo(s[1..], q)
  }

  /**
    The argument reader of `do_meta_command` on a line that starts with a double quote: the token ends
    at the NEXT double quote, escaped or not, and is then resolved. None: resolving runs off its end.
   */
  function ReadArgument(line: bytes): Option<bytes>
    requires line != []
  {
    var token := UpTo(line[1..], QUOTE);
    if Complete(token, 0) then Some(Resolve(token)) else None
  }

  lemma EscapeHasNoQuote(c: byte, isPrint: byte -> bool)
    requires c != QUOTE
    ensures QUOTE !in EscapeByte(c, isPrint)
  {
    OctalRoundTrip(c);
    hide OctalValue, Octal3;
  }

  /** An escaped quote ends the token on its backslash. */
  lemma CutAtQuote(isPrint: byte -> bool, rest: bytes)
    ensures UpTo(EscapeByte(QUOTE, isPrint) + rest, QUOTE) == [BACKSLASH]
  {
    var text := EscapeByte(QUOTE, isPrint) + rest;
    assert text[0] == BACKSLASH && text[1..][0] == QUOTE;
  }

  lemma EscapeBodyCons(c: byte, s: bytes, isPrint: byte -> bool, r: bytes)
    ensures EscapeBody([c] + s, isPrint) + r == EscapeByte(c, isPrint) + (EscapeBody(s, isPrint) + r)
    ensures EscapeBody([], isPrint) == []
  {
    hide EscapeByte;
    assert ([c] + s)[1..] == s;
  }

  lemma {:induction false} UpToEscaped(s: bytes, isPrint: byte -> bool, r: bytes)
    ensures QUOTE !in s ==> UpTo(EscapeBody(s, isPrint) + ([QUOTE] + r), QUOTE) == EscapeBody(s, isPrint)
    ensures QUOTE in s ==> exists p ::
      UpTo(EscapeBody(s, isPrint) + ([QUOTE] + r), QUOTE) == EscapeBody(p, isPrint) + [BACKSLASH]
  {
    if s == [] {
      assert EscapeBody(s, isPrint) + ([QUOTE] + r) == [QUOTE] + r;
    } else {
      hide EscapeByte, EscapeBody, UpTo;
      var c, more := s[0], s[1..];
      var rest := EscapeBody(more, isPrint) + ([QUOTE] + r);
      assert s == [c] + more;
      EscapeBodyCons(c, more, isPrint, [QUOTE] + r);
      if c == QUOTE {
        CutAtQuote(isPrint, rest);
        assert [] + [BACKSLASH] == [BACKSLASH];
      } else {
        EscapeHasNoQuote(c, isPrint);
        UpToPast(EscapeByte(c, isPrint), rest, QUOTE);
        UpToEscaped(more, isPrint, r);
        if QUOTE in s {
          var p :| UpTo(rest, QUOTE) == EscapeBody(p, isPrint) + [BACKSLASH];
          EscapeBodyCons(c, p, isPrint, [BACKSLASH]);
        } else {
          EscapeBodyCons(c, more, isPrint, []);
          assert EscapeBody(s, isPrint) + [] == EscapeBody(s, isPrint);
          assert EscapeBody(more, isPrint) + [] == EscapeBody(more, isPrint);
        }
      }
    }
  }

  lemma {:induction false} UpToPast(a: bytes, r: bytes, q: byte)
    requires q !in a
    ensures UpTo(a + r, q) == a + UpTo(r, q)
  {
    if a == [] {
      assert a + r == r;
    } else {
      assert a[0] in a && (a + r)[1..] == a[1..] + r;
      UpToPast(a[1..], r, q);
    }
  }

  lemma {:induction false} DanglingBackslash(a: bytes, p: bytes, isPrint: byte -> bool)
    ensures !Complete(a + (EscapeBody(p, isPrint) + [BACKSLASH]), |a|)
    decreases p
  {
    hide EscapeByte, Unescape;
    if p != [] {
      var e, rest := EscapeByte(p[0], isPrint), EscapeBody(p[1..], isPrint);
      UnescapeEscaped(a, p[0], isPrint, rest + [BACKSLASH]);
      DanglingBackslash(a + e, p[1..], isPrint);
      Associate(e, rest, [BACKSLASH]);
      Associate(a, e, rest + [BACKSLASH]);
    }
  }

  /**
    A setting printed by `.show` and typed back as a quoted argument: it comes back exactly when the
    value holds no double quote, because the argument reader does not honour the escaped one.
   */
  lemma ShownArgumentIff(s: bytes, isPrint: byte -> bool, r: bytes)
    ensures ReadArgument(CString(s, isPrint) + r) == Some(s) <==> QUOTE !in s
  {
    var line := CString(s, isPrint) + r;
    assert line[1..] == EscapeBody(s, isPrint) + ([QUOTE] + r);
    UpToEscaped(s, isPrint, r);
    EscapeRoundTrip(s, isPrint);
    if QUOTE in s {
      var p :| UpTo(line[1..], QUOTE) == EscapeBody(p, isPrint) + [BACKSLASH];
      DanglingBackslash([], p, isPrint);
      assert [] + (EscapeBody(p, isPrint) + [BACKSLASH]) == EscapeBody(p, isPrint) + [BACKSLASH];
    }
  }
}
