/** Quoting by doubling, shared by CSV fields and SQL literals. */
module Quoting {
  import opened Bytes

  /** `s` with every `q` written twice. */
  function Doubled(s: bytes, q: byte): bytes {
    if s == [] then [] else (if s[0] == q then [q, q] else [s[0]]) + Doubled(s[1..], q)
  }

  function Quoted(s: bytes, q: byte): bytes {
    [q] + (Doubled(s, q) + [q])
  }

  lemma DoubledHead(s: bytes, q: byte, r: bytes)
    requires s != []
    ensures Doubled(s, q) + r == (if s[0] == q then [q, q] else [s[0]]) + (Doubled(s[1..], q) + r)
  {
  }

  lemma {:induction false} DoubledAppend(s: bytes, t: bytes, q: byte)
    ensures Doubled(s + t, q) == Doubled(s, q) + Doubled(t, q)
  {
    if s == [] {
      assert s + t == t;
    } else {
      assert (s + t)[1..] == s[1..] + t;
      DoubledAppend(s[1..], t, q);
    }
  }

  lemma {:induction false} DoubledWithout(s: bytes, q: byte)
    requires q !in s
    ensures Doubled(s, q) == s
  {
    if s != [] {
      assert s[0] in s;
      DoubledWithout(s[1..], q);
    }
  }

  /** How many bytes of `s` are `q`. */
  function Count(s: bytes, q: byte): nat {
    if s == [] then 0 else Count(s[..|s| - 1], q) + if s[|s| - 1] == q then 1 else 0
  }

  lemma {:induction false} DoubledLength(s: bytes, q: byte)
    ensures |Doubled(s, q)| == |s| + Count(s, q)
  {
    if s != [] {
      var init, last := s[..|s| - 1], s[|s| - 1];
      DoubledLength(init, q);
      DoubledAppend(init, [last], q);
      assert s == init + [last] && Doubled([last][1..], q) == [];
    }
  }

  lemma {:induction false} DoubledNulFree(s: bytes, q: byte)
    requires NulFree(s)
    ensures NulFree(Doubled(s, q))
  {
    if s != [] {
      DoubledNulFree(s[1..], q);
    }
  }

  datatype Literal = Literal(value: bytes, rest: bytes)

  /**
    A reader of quoted text, as SQL defines it: from after the opening quote, a doubled quote stands
    for one, and a single quote ends the literal.
   */
  function ReadBody(s: bytes, q: byte): Option<Literal> {
    if s == [] then None
    else if s[0] != q then
      match ReadBody(s[1..], q)
      case None => None
      case Some(l) => Some(Literal([s[0]] + l.value, l.rest))
    else if |s| > 1 && s[1] == q then
      match ReadBody(s[2..], q)
      case None => None
      case Some(l) => Some(Literal([q] + l.value, l.rest))
    else Some(Literal([], s[1..]))
  }

  function ReadQuoted(s: bytes, q: byte): Option<Literal> {
    if s != [] && s[0] == q then ReadBody(s[1..], q) else None
  }

  lemma {:induction false} ReadBodyDoubled(s: bytes, q: byte, rest: bytes)
    requires rest == [] || rest[0] != q
    ensures ReadBody(Doubled(s, q) + ([q] + rest), q) == Some(Literal(s, rest))
  {
    if s == [] {
      assert Doubled(s, q) + ([q] + rest) == [q] + rest;
    } else {
      var r := Doubled(s[1..], q) + ([q] + rest);
      DoubledHead(s, q, [q] + rest);
      ReadBodyDoubled(s[1..], q, rest);
      if s[0] == q {
        assert ([q, q] + r)[2..] == r;
      } else {
        assert ([s[0]] + r)[1..] == r;
      }
      assert s == [s[0]] + s[1..];
    }
  }

  /** Quoting is undone exactly, in any text that does not go on with another quote. */
  lemma QuotedRoundTrip(s: bytes, q: byte, rest: bytes)
    requires rest == [] || rest[0] != q
    ensures ReadQuoted(Quoted(s, q) + rest, q) == Some(Literal(s, rest))
  {
    ReadBodyDoubled(s, q, rest);
    assert (Quoted(s, q) + rest)[1..] == Doubled(s, q) + ([q] + rest);
  }
}
