/** The C library's files and heap blocks, as far as the shell uses them. */
module Files {
  import opened Bytes

  const LF: byte := 10
  const CR: byte := 13
  const QUOTE: byte := 34

  /** A file open for writing. */
  class OutFile {
    var content: bytes

    constructor ()
      ensures content == []
    {
      content := [];
    }

    method Putc(c: byte)
      modifies this
      ensures content == old(content) + [c]
    {
      content := content + [c];
    }

    method Puts(s: bytes)
      modifies this
      ensures content == old(content) + s
    {
      content := content + s;
    }
  }

  /** A file open for reading. */
  class InFile {
    const content: bytes
    var pos: nat

    constructor (content: bytes)
      ensures this.content == content && pos == 0
    {
      this.content := content;
      pos := 0;
    }

    predicate Valid()
      reads this
    {
      pos <= |content|
    }

    function Rest(): bytes
      requires Valid()
      reads this
    {
      content[pos..]
    }

    /** The C library's `fgets`: at most `size` - 1 bytes, stopping after a line feed. */
    method Fgets(buf: array<byte>, at: nat, size: nat) returns (got: bool)
      requires Valid() && size >= 2 && at + size <= buf.Length
      modifies this`pos, buf
      ensures Valid() && buf[..at] == old(buf[..at])
      ensures got <==> old(pos) < |content|
      ensures !got ==> pos == old(pos) && buf[..] == old(buf[..])
      ensures got ==>
        && old(pos) < pos < old(pos) + size
        && LF !in content[old(pos)..pos - 1]
        && StringAt(buf[..], at, Visible(content[old(pos)..pos]))
        && (pos == old(pos) + size - 1 || pos == |content| || content[pos - 1] == LF)
    {
      hide Visible, StringAt;
      var start := pos;
      if pos == |content| { return false; }
      var n := 0;
      while n < size - 1 && pos < |content| && (n == 0 || content[pos - 1] != LF)
        invariant n <= size - 1 && pos == start + n <= |content|
        invariant LF !in content[start..start + (if n == 0 then 0 else n - 1)]
        invariant buf[..at] == old(buf[..at])
        invariant buf[at..at + n] == content[start..pos]
      {
        Append(buf, at, at + n, content[pos]);
        assert content[start..pos + 1] == content[start..pos] + [content[pos]];
        pos := pos + 1;
        n := n + 1;
      }
      buf[at + n] := 0;
      VisibleAt(buf[..], at, content[start..pos]);
      return true;
    }
  }

  /** Store the byte that follows the bytes already delivered from `lo` on. */
  method Append(buf: array<byte>, lo: nat, i: nat, b: byte)
    requires lo <= i < buf.Length
    modifies buf
    ensures buf[..lo] == old(buf[..lo]) && buf[lo..i + 1] == old(buf[lo..i]) + [b]
  {
    buf[i] := b;
  }

  /** `realloc`: the first bytes survive in a buffer of the new size. */
  method Realloc(a: array<byte>, keep: nat, size: nat) returns (b: array<byte>)
    requires keep <= a.Length && keep <= size
    ensures fresh(b) && b.Length == size && b[..keep] == a[..keep]
  {
    b := new byte[size];
    for i := 0 to keep
      invariant b[..i] == a[..i]
    {
      b[i] := a[i];
    }
  }

  /** `*p++ = b`, at the place where the part `w` already written ends. */
  method PutNext(z: array<byte>, i: nat, b: byte, ghost m: bytes, ghost at: nat, ghost w: bytes)
    requires Written(z[..], m, Patch(at, w)) && at + |w| < |m| && i == at + |w|
    modifies z
    ensures Written(z[..], m, Patch(at, w + [b]))
  {
    ghost var before := z[..];
    WrittenNext(before, m, at, w, b);
    z[i] := b;
    assert z[..] == before[i := b];
  }
}
