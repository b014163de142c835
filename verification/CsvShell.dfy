/**
  The loops of the SQLite shell that write and read CSV, over buffers updated in place, each proved
  against the functions of CsvFormat.
 */
module CsvShell {
  import opened Bytes
  import opened Quoting
  import opened Files
  import opened CsvFormat
  import opened CsvReader

  // ----- writing -----

  /** The loop that looks for a byte that forces quotes. */
  method FindSpecial(f: bytes, sep: bytes) returns (i: nat)
    ensures i == 0 <==> NeedsQuotes(f, sep)
  {
    hide Special, LooksLikeSeparator;
    i := 0;
    while i < |f|
      invariant i <= |f|
      invariant forall k | 0 <= k < i :: !Special(f[k]) && !LooksLikeSeparator(f, k, sep)
    {
      if Special(f[i]) || LooksLikeSeparator(f, i, sep) {
        return 0;
      }
      i := i + 1;
    }
  }

  /** The quoting loop: the bytes with every quote doubled. */
  method PutBody(out: OutFile, f: bytes)
    modifies out
    ensures out.content == old(out.content) + Doubled(f, QUOTE)
  {
    hide Doubled;
    ghost var before := out.content;
    var i := 0;
    DoubledTo(f, 0);
    while i < |f|
      invariant i <= |f| && out.content == before + Doubled(f[..i], QUOTE)
    {
      if f[i] == QUOTE { out.Putc(QUOTE); }
      out.Putc(f[i]);
      DoubledTo(f, i);
      assert before + Doubled(f[..i], QUOTE) + [QUOTE] + [QUOTE] == before + (Doubled(f[..i], QUOTE) + [QUOTE, QUOTE]);
      i := i + 1;
    }
    assert f[..i] == f;
  }

  lemma DoubledTo(f: bytes, i: nat)
    ensures Doubled(f[..0], QUOTE) == []
    ensures i < |f| ==> Doubled(f[..i + 1], QUOTE) == Doubled(f[..i], QUOTE) + Doubled([f[i]], QUOTE)
    ensures i < |f| ==> Doubled([f[i]], QUOTE) == (if f[i] == QUOTE then [QUOTE, QUOTE] else [f[i]])
  {
    if i < |f| {
      assert f[..i + 1] == f[..i] + [f[i]];
      DoubledAppend(f[..i], [f[i]], QUOTE);
      assert [f[i]][1..] == [];
    }
  }

  /** `output_csv`: one cell and, if asked for, the separator. */
  method OutputCsv(out: OutFile, z: Option<bytes>, nullValue: bytes, sep: bytes, bSep: bool)
    modifies out
    ensures out.content == old(out.content) + PrintCell(z, nullValue, sep) + (if bSep then sep else [])
    ensures z == None ==> out.content == old(out.content) + nullValue + (if bSep then sep else [])
  {
    hide NeedsQuotes, Doubled;
    match z {
      case None => out.Puts(nullValue);
      case Some(f) =>
        var i := FindSpecial(f, sep);
        if i == 0 {
          out.Putc(QUOTE);
          PutBody(out, f);
          out.Putc(QUOTE);
          assert out.content == old(out.content) + ([QUOTE] + Doubled(f, QUOTE) + [QUOTE]);
        } else {
          out.Puts(f);
        }
    }
    if bSep {
      out.Puts(sep);
    }
  }

  /** The cells of a line and its line feed. */
  method PutLine(out: OutFile, row: seq<Option<bytes>>, nullValue: bytes, sep: bytes)
    modifies out
    ensures out.content == old(out.content) + PrintCells(row, nullValue, sep) + [LF]
  {
    hide PrintCells, PrintCell;
    assert row[0..] == row;
    ghost var all := out.content + PrintCells(row, nullValue, sep);
    var i := 0;
    while i < |row|
      invariant i <= |row| && out.content + PrintCells(row[i..], nullValue, sep) == all
    {
      ghost var before := out.content;
      OutputCsv(out, row[i], nullValue, sep, i < |row| - 1);
      PrintedCell(before, out.content, row, i, nullValue, sep);
      i := i + 1;
    }
    NoCellsLeft(out.content, row, nullValue, sep);
    out.Putc(LF);
  }

  lemma PrintedCell(before: bytes, now: bytes, row: seq<Option<bytes>>, i: nat, nullValue: bytes, sep: bytes)
    requires i < |row| && now == before + PrintCell(row[i], nullValue, sep) + (if i < |row| - 1 then sep else [])
    ensures before + PrintCells(row[i..], nullValue, sep) == now + PrintCells(row[i + 1..], nullValue, sep)
  {
    hide PrintCell;
    assert row[i..][1..] == row[i + 1..] && row[i..][0] == row[i];
  }

  lemma NoCellsLeft(now: bytes, row: seq<Option<bytes>>, nullValue: bytes, sep: bytes)
    ensures now + PrintCells(row[|row|..], nullValue, sep) == now
  {
    assert row[|row|..] == [];
  }

  /**
    The CSV case of `shell_callback`, called once for each result row; `cnt` counts the calls. The first
    call prints the header if asked to.
   */
  method CallbackCsv(out: OutFile, columns: seq<Option<bytes>>, showHeader: bool, cnt: nat,
                     row: Option<seq<Option<bytes>>>, nullValue: bytes, sep: bytes) returns (cnt': nat)
    modifies out
    ensures cnt' == cnt + 1
    ensures out.content == old(out.content)
      + (if cnt == 0 && showHeader then PrintCells(Heading(columns), nullValue, sep) + [LF] else [])
      + (if row.Some? then PrintCells(row.value, nullValue, sep) + [LF] else [])
  {
    hide PrintCells;
    cnt' := cnt + 1;
    if cnt == 0 && showHeader {
      PutLine(out, Heading(columns), nullValue, sep);
    }
    match row
    case None =>
    case Some(cells) => PutLine(out, cells, nullValue, sep);
  }

  /** What is still to print when `i` rows have been printed. */
  function StillToPrint(columns: seq<Option<bytes>>, showHeader: bool, rows: seq<seq<Option<bytes>>>, i: nat,
                        nullValue: bytes, sep: bytes): bytes
    requires i <= |rows|
  {
    if i == 0 then PrintResult(columns, showHeader, rows, nullValue, sep) else PrintRecords(rows[i..], nullValue, sep)
  }

  /** A whole result printed in CSV mode. */
  method OutputResult(out: OutFile, columns: seq<Option<bytes>>, showHeader: bool, rows: seq<seq<Option<bytes>>>,
                      nullValue: bytes, sep: bytes)
    modifies out
    ensures out.content == old(out.content) + PrintResult(columns, showHeader, rows, nullValue, sep)
  {
    hide *;
    ghost var all := out.content + PrintResult(columns, showHeader, rows, nullValue, sep);
    PrintBounds(columns, showHeader, rows, nullValue, sep);
    var i, cnt := 0, 0;
    while i < |rows|
      invariant i == cnt <= |rows| && out.content + StillToPrint(columns, showHeader, rows, i, nullValue, sep) == all
    {
      ghost var before := out.content;
      cnt := CallbackCsv(out, columns, showHeader, cnt, Some(rows[i]), nullValue, sep);
      CalledBack(before, out.content, columns, showHeader, rows, i, nullValue, sep);
      i := i + 1;
    }
  }

  lemma PrintBounds(columns: seq<Option<bytes>>, showHeader: bool, rows: seq<seq<Option<bytes>>>, nullValue: bytes,
                    sep: bytes)
    ensures StillToPrint(columns, showHeader, rows, 0, nullValue, sep)
         == PrintResult(columns, showHeader, rows, nullValue, sep)
    ensures StillToPrint(columns, showHeader, rows, |rows|, nullValue, sep) == []
  {
    assert rows[|rows|..] == [];
  }

  /** One call of the callback. */
  lemma CalledBack(before: bytes, now: bytes, columns: seq<Option<bytes>>, showHeader: bool,
                   rows: seq<seq<Option<bytes>>>, i: nat, nullValue: bytes, sep: bytes)
    requires i < |rows|
    requires now == before
      + (if i == 0 && showHeader then PrintCells(Heading(columns), nullValue, sep) + [LF] else [])
      + (PrintCells(rows[i], nullValue, sep) + [LF])
    ensures before + StillToPrint(columns, showHeader, rows, i, nullValue, sep)
         == now + StillToPrint(columns, showHeader, rows, i + 1, nullValue, sep)
  {
    hide PrintCells, PrintRecords;
    assert i == 0 ==> rows[0..] == rows;
    if i == 0 && showHeader {
      var lines := [Heading(columns)] + rows;
      var heading := before + (PrintCells(lines[0], nullValue, sep) + [LF]);
      assert lines[0..] == lines && lines[1..] == rows && lines[2..] == rows[1..];
      PrintedLine(before, heading, lines, 0, nullValue, sep);
      PrintedLine(heading, now, lines, 1, nullValue, sep);
    } else {
      PrintedLine(before, now, rows, i, nullValue, sep);
    }
  }

  lemma PrintedLine(before: bytes, now: bytes, lines: seq<seq<Option<bytes>>>, i: nat, nullValue: bytes, sep: bytes)
    requires i < |lines| && now == before + (PrintCells(lines[i], nullValue, sep) + [LF])
    ensures before + PrintRecords(lines[i..], nullValue, sep) == now + PrintRecords(lines[i + 1..], nullValue, sep)
  {
    hide PrintCells;
    assert lines[i..][1..] == lines[i + 1..] && lines[i..][0] == lines[i];
  }

  // ----- reading lines -----

  /** Are we inside quotes after the bytes `c`? */
  function QuoteState(c: bytes, q: bool): bool {
    if c == [] then q else QuoteState(c[1..], q != (c[0] == QUOTE))
  }

  /** A chunk holds a line feed only as its last byte, so only there can the line end. */
  lemma {:induction false} ChunkLine(c: bytes, r: bytes, q: bool, csv: bool)
    requires c != [] && LF !in c[..|c| - 1]
    ensures LineEnd(c + r, q, csv) ==
      if c[|c| - 1] == LF && !(QuoteState(c, q) && csv) then |c| - 1
      else |c| + LineEnd(r, QuoteState(c, q), csv)
  {
    var q' := q != (c[0] == QUOTE);
    assert (c + r)[1..] == c[1..] + r;
    assert QuoteState(c, q) == QuoteState(c[1..], q');
    if |c| == 1 {
      assert c[1..] == [] && c[1..] + r == r;
      assert QuoteState(c, q) == q';
    } else {
      assert c[0] in c[..|c| - 1];
      assert c[1..][..|c| - 2] == c[..|c| - 1][1..];
      ChunkLine(c[1..], r, q', csv);
    }
  }

  /** The inner loop of `local_getline`: step over the bytes just read, tracking quotes. */
  method CountQuotes(zLine: array<byte>, n0: nat, q0: bool, ghost chunk: bytes) returns (n: nat, inQuote: bool)
    requires StringAt(zLine[..], n0, chunk)
    ensures n == n0 + |chunk| && inQuote == QuoteState(chunk, q0)
  {
    StringBytes(zLine[..], n0, chunk);
    n, inQuote := n0, q0;
    assert chunk[0..] == chunk;
    while zLine[n] != 0
      invariant n0 <= n <= n0 + |chunk|
      invariant QuoteState(chunk, q0) == QuoteState(chunk[n - n0..], inQuote)
      decreases n0 + |chunk| - n
    {
      assert zLine[n] == chunk[n - n0] && chunk[n - n0..][1..] == chunk[n + 1 - n0..];
      if zLine[n] == QUOTE { inQuote := !inQuote; }
      n := n + 1;
    }
  }

  /** The line under construction: for a NUL-free file, everything read since `start`. */
  ghost predicate Gathered(content: bytes, start: nat, pos: nat, acc: bytes, q: bool, csv: bool) {
    && NulFree(acc) && start <= pos <= |content|
    && (NulFree(content) ==>
      && acc == content[start..pos]
      && LineEnd(content[start..], false, csv) == |acc| + LineEnd(content[pos..], q, csv))
  }

  /** The test that ends a line: a line feed just read, not inside CSV quotes. */
  predicate AtLineEnd(acc: bytes, q: bool, csv: bool) {
    acc != [] && acc[|acc| - 1] == LF && (!q || !csv)
  }

  lemma GatherChunk(content: bytes, start: nat, pos: nat, pos': nat, acc: bytes, q: bool, csv: bool)
    requires Gathered(content, start, pos, acc, q, csv) && pos < pos' <= |content|
    requires LF !in content[pos..pos' - 1]
    ensures NulFree(acc + Visible(content[pos..pos']))
    ensures AtLineEnd(acc + Visible(content[pos..pos']), QuoteState(Visible(content[pos..pos']), q), csv) ==>
      acc + Visible(content[pos..pos']) != []
    ensures var chunk := Visible(content[pos..pos']); var acc', q' := acc + chunk, QuoteState(chunk, q);
      if AtLineEnd(acc', q', csv)
      then NulFree(content) ==> NextLine(content[start..], csv) == Line(StripCr(acc'[..|acc'| - 1]), content[pos'..])
      else Gathered(content, start, pos', acc', q', csv)
  {
    hide LineEnd, QuoteState, NextLine, StripCr, Visible;
    if NulFree(content) {
      VisibleIsAll(content, pos, pos');
      ConsecutiveSlices(content, start, pos, pos');
      StepOverChunk(content[start..], acc, content[pos..pos'], content[pos'..], q, csv);
    }
  }

  lemma StepOverChunk(s: bytes, acc: bytes, chunk: bytes, r: bytes, q: bool, csv: bool)
    requires s == (acc + chunk) + r && LineEnd(s, false, csv) == |acc| + LineEnd(chunk + r, q, csv)
    requires chunk != [] && LF !in chunk[..|chunk| - 1]
    ensures if AtLineEnd(acc + chunk, QuoteState(chunk, q), csv)
      then NextLine(s, csv) == Line(StripCr((acc + chunk)[..|acc + chunk| - 1]), r)
      else LineEnd(s, false, csv) == |acc + chunk| + LineEnd(r, QuoteState(chunk, q), csv)
  {
    hide LineEnd, QuoteState, NextLine, StripCr;
    ChunkLine(chunk, r, q, csv);
    if AtLineEnd(acc + chunk, QuoteState(chunk, q), csv) {
      LineEndsHere(s, acc + chunk, r, csv);
    }
  }

  lemma VisibleIsAll(content: bytes, i: nat, j: nat)
    requires NulFree(content) && i <= j <= |content|
    ensures Visible(content[i..j]) == content[i..j]
  {
  }

  lemma ConsecutiveSlices(s: bytes, i: nat, j: nat, k: nat)
    requires i <= j < k <= |s|
    ensures s[i..j] + s[j..k] == s[i..k] && s[j..k] + s[k..] == s[j..] && s[i..k] + s[k..] == s[i..]
    ensures s[j..k][..k - j - 1] == s[j..k - 1]
  {
  }

  lemma LineEndsHere(s: bytes, acc: bytes, r: bytes, csv: bool)
    requires acc != [] && s == acc + r && LineEnd(s, false, csv) == |acc| - 1
    ensures NextLine(s, csv) == Line(StripCr(acc[..|acc| - 1]), r)
  {
    assert s[..|acc| - 1] == acc[..|acc| - 1] && s[|acc|..] == r;
  }

  /** One `fgets` and the quote count over what it delivered. */
  method ReadChunk(f: InFile, zLine: array<byte>, n0: nat, q0: bool, ghost acc: bytes)
    returns (got: bool, n: nat, inQuote: bool, ghost chunk: bytes)
    requires f.Valid() && n0 + 2 <= zLine.Length && zLine[..n0] == acc
    modifies f`pos, zLine
    ensures f.Valid() && n < zLine.Length && n == n0 + |chunk| && zLine[..n] == acc + chunk
    ensures got <==> old(f.pos) < |f.content|
    ensures !got ==> f.pos == old(f.pos) && chunk == []
    ensures got ==> old(f.pos) < f.pos && LF !in f.content[old(f.pos)..f.pos - 1]
    ensures got ==> chunk == Visible(f.content[old(f.pos)..f.pos]) && inQuote == QuoteState(chunk, q0)
  {
    ghost var before := f.pos;
    n, inQuote, chunk := n0, q0, [];
    got := f.Fgets(zLine, n0, zLine.Length - n0);
    if got {
      chunk := Visible(f.content[before..f.pos]);
      n, inQuote := CountQuotes(zLine, n0, q0, chunk);
      assert zLine[..n] == zLine[..n0] + zLine[..][n0..n];
    }
  }

  method EndsLine(zLine: array<byte>, n: nat, inQuote: bool, csvFlag: bool, ghost acc: bytes) returns (done: bool)
    requires n < zLine.Length && zLine[..n] == acc
    ensures done <==> AtLineEnd(acc, inQuote, csvFlag)
  {
    done := n > 0 && zLine[n - 1] == LF && (!inQuote || !csvFlag);
  }

  /** Drop the line feed at the end of the line and a carriage return before it. */
  method TrimLine(zLine: array<byte>, n0: nat, ghost acc: bytes) returns (n: nat)
    requires n0 < zLine.Length && zLine[..n0] == acc && acc != [] && NulFree(acc)
    modifies zLine
    ensures n < zLine.Length && zLine[n] == 0 && zLine[..n] == StripCr(acc[..|acc| - 1])
    ensures NulFree(StripCr(acc[..|acc| - 1]))
  {
    assert forall i | 0 <= i < n0 :: zLine[i] == acc[i];
    n := n0 - 1;
    if n > 0 && zLine[n - 1] == CR { n := n - 1; }
    zLine[n] := 0;
  }

  /**
    `local_getline`: reads chunks into a growing buffer. The line does not depend on how the chunks
    fall: for a file without NUL bytes it is the one NextLine describes.
   */
  method LocalGetline(f: InFile, csvFlag: bool) returns (line: array?<byte>, ghost text: bytes)
    requires f.Valid()
    modifies f`pos
    ensures f.Valid()
    ensures line != null ==> fresh(line) && line.Length == |text| + 1 && StringAt(line[..], 0, text)
    ensures line != null ==> old(f.pos) < f.pos
    ensures NulFree(f.content) ==> (line == null <==> old(f.pos) == |f.content|)
    ensures NulFree(f.content) && line != null ==> NextLine(f.content[old(f.pos)..], csvFlag) == Line(text, f.Rest())
  {
    hide Gathered, StringAt, NulFree, NextLine, Visible, QuoteState, StripCr, AtLineEnd;
    var nLine := 100;
    var zLine := new byte[nLine];
    var n: nat, inQuote := 0, false;
    ghost var start := f.pos;
    text := [];
    GatherBounds(f.content, start, start, text, false, csvFlag);
    while true
      invariant f.Valid() && fresh(zLine) && zLine.Length == nLine && n < nLine
      invariant zLine[..n] == text
      invariant Gathered(f.content, start, f.pos, text, inQuote, csvFlag)
      invariant n > 0 ==> start < f.pos
      decreases |f.content| - f.pos
    {
      GatherBounds(f.content, start, f.pos, text, inQuote, csvFlag);
      if n + 100 > nLine {
        nLine := nLine * 2 + 100;
        zLine := Realloc(zLine, n, nLine);
      }
      ghost var before := f.pos;
      var got, n', inQuote', chunk := ReadChunk(f, zLine, n, inQuote, text);
      if !got {
        if n == 0 {
          return null, [];
        }
        zLine[n] := 0;
        break;
      }
      GatherChunk(f.content, start, before, f.pos, text, inQuote, csvFlag);
      n, inQuote, text := n', inQuote', text + chunk;
      var done := EndsLine(zLine, n, inQuote, csvFlag, text);
      if done {
        n := TrimLine(zLine, n, text);
        text := StripCr(text[..|text| - 1]);
        break;
      }
    }
    line := ShrinkLine(zLine, n, text);
  }

  /** The final `realloc` to the length of the line. */
  method ShrinkLine(zLine: array<byte>, n: nat, ghost text: bytes) returns (line: array<byte>)
    requires n < zLine.Length && zLine[n] == 0 && zLine[..n] == text && NulFree(text)
    ensures fresh(line) && line.Length == |text| + 1 && StringAt(line[..], 0, text)
  {
    line := Realloc(zLine, n + 1, n + 1);
    FreshString(line[..], zLine[..n + 1], text);
  }

  /** Nothing gathered yet is a good start; at the end of the file everything gathered is the line. */
  lemma GatherBounds(content: bytes, start: nat, pos: nat, acc: bytes, q: bool, csv: bool)
    requires start <= pos <= |content|
    ensures acc == [] && pos == start && !q ==> Gathered(content, start, pos, acc, q, csv)
    ensures Gathered(content, start, pos, acc, q, csv) ==> NulFree(acc)
    ensures Gathered(content, start, pos, acc, q, csv) && NulFree(content) ==> |acc| == pos - start
    ensures Gathered(content, start, pos, acc, q, csv) && NulFree(content) && start < pos == |content| ==>
      NextLine(content[start..], csv) == Line(acc, content[pos..])
  {
    if pos == start { assert content[start..pos] == []; }
    if pos == |content| { assert content[start..pos] == content[start..] && content[pos..] == []; }
  }

  lemma FreshString(m: bytes, m': bytes, s: bytes)
    requires m == m' && |m'| == |s| + 1 && m'[..|s|] == s && NulFree(s) && m'[|s|] == 0
    ensures StringAt(m, 0, s)
  {
  }

  // ----- splitting and dequoting in place -----

  /** `strncmp` of the string at `at` with a NUL-free separator. */
  method StartsWith(z: array<byte>, at: nat, sep: bytes, ghost s: bytes) returns (same: bool)
    requires NulFree(sep) && StringAt(z[..], at, s)
    ensures same <==> sep <= s
  {
    StringBytes(z[..], at, s);
    var j := 0;
    while j < |sep| && z[at + j] == sep[j]
      invariant j <= |sep| && j <= |s| && sep[..j] == s[..j]
    {
      j := j + 1;
    }
    if j < |sep| {
      assert j < |s| ==> s[j] != sep[j];
    }
    return j == |sep|;
  }

  /** The columns sit one after the other in the line, each ended by a NUL. */
  ghost predicate ColumnsAt(line: bytes, starts: seq<nat>, cols: seq<bytes>) {
    && |cols| <= |starts|
    && (forall m | 0 <= m < |cols| :: StringAt(line, starts[m], cols[m]))
    && (forall m, m' | 0 <= m < m' < |cols| :: starts[m] + |cols[m]| < starts[m'])
  }

  /** Position `at` of a half-split line: closed columns before, one open column, the rest untouched. */
  ghost predicate HalfSplit(line: bytes, s: bytes, starts: seq<nat>, done: seq<bytes>, at: nat) {
    && |starts| == |done| + 1 && starts[|done|] <= at <= |s| && |line| == |s| + 1
    && line[starts[|done|]..] == s[starts[|done|]..] + [0]
    && ColumnsAt(line, starts, done)
    && (forall m | 0 <= m < |done| :: starts[m] + |done[m]| < starts[|done|])
  }

  lemma HalfSplitBounds(line: bytes, s: bytes, starts: seq<nat>, done: seq<bytes>, at: nat)
    requires HalfSplit(line, s, starts, done, at)
    ensures |starts| == |done| + 1 && starts[|done|] <= at <= |s| == |line| - 1
  {
  }

  /** Writing a NUL at `at` closes the open column; the next one starts after the separator. */
  lemma CutColumn(line: bytes, s: bytes, starts: seq<nat>, done: seq<bytes>, at: nat, next: nat)
    requires HalfSplit(line, s, starts, done, at) && NulFree(s) && at < next <= |s|
    ensures HalfSplit(line[at := 0], s, starts + [next], done + [s[starts[|done|]..at]], next)
  {
    var start := starts[|done|];
    var line', starts', done' := line[at := 0], starts + [next], done + [s[start..at]];
    assert line'[start..at] == line[start..][..at - start] == s[start..at];
    assert line'[next..] == line[start..][next - start..] == s[next..] + [0];
    forall m | 0 <= m < |done'| ensures StringAt(line', starts'[m], done'[m]) && starts'[m] + |done'[m]| < next {
      if m < |done| {
        assert line'[starts[m]..starts[m] + |done[m]|] == line[starts[m]..starts[m] + |done[m]|];
      }
    }
  }

  lemma CloseLastColumn(line: bytes, s: bytes, starts: seq<nat>, done: seq<bytes>)
    requires HalfSplit(line, s, starts, done, |s|) && NulFree(s)
    ensures ColumnsAt(line, starts, done + [s[starts[|done|]..]])
  {
    var start := starts[|done|];
    assert line[start..|s|] == line[start..][..|s| - start] == s[start..];
    assert line[|s|] == line[start..][|s| - start];
  }

  /** One step of SplitFrom at position `at` of the line. */
  lemma SplitStep(s: bytes, at: nat, q: bool, start: nat, sep: bytes)
    requires sep != [] && start <= at < |s|
    ensures var q' := q != (s[at] == QUOTE);
      SplitFrom(s[at..], q, s[start..at], sep) ==
      if !q' && sep <= s[at..] then [s[start..at]] + SplitFrom(s[at + |sep|..], q', [], sep)
      else SplitFrom(s[at + 1..], q', s[start..at + 1], sep)
  {
    assert s[at..][1..] == s[at + 1..] && s[start..at] + [s[at]] == s[start..at + 1];
    if sep <= s[at..] {
      assert s[at..][|sep|..] == s[at + |sep|..];
    }
  }

  /** The invariant of the split loop while there is room for more columns. */
  ghost predicate Splitting(line: bytes, s: bytes, starts: seq<nat>, done: seq<bytes>, at: nat, q: bool, sep: bytes)
    requires sep != []
  {
    && NulFree(s) && HalfSplit(line, s, starts, done, at)
    && SplitFrom(s, false, [], sep) == done + SplitFrom(s[at..], q, s[starts[|done|]..at], sep)
  }

  lemma SplitMiss(line: bytes, s: bytes, starts: seq<nat>, done: seq<bytes>, at: nat, q: bool, sep: bytes)
    requires sep != [] && Splitting(line, s, starts, done, at, q, sep) && at < |s|
    ensures var q' := q != (s[at] == QUOTE);
      q' || !(sep <= s[at..]) ==> Splitting(line, s, starts, done, at + 1, q', sep)
  {
    SplitStep(s, at, q, starts[|done|], sep);
  }

  lemma SplitHit(line: bytes, s: bytes, starts: seq<nat>, done: seq<bytes>, at: nat, q: bool, sep: bytes)
    requires sep != [] && Splitting(line, s, starts, done, at, q, sep) && at < |s|
    requires q == (s[at] == QUOTE) && sep <= s[at..]
    ensures Splitting(line[at := 0], s, starts + [at + |sep|], done + [s[starts[|done|]..at]], at + |sep|, false, sep)
    ensures |SplitFrom(s, false, [], sep)| >= |done| + 2
  {
    hide SplitFrom, HalfSplit, NulFree;
    HalfSplitBounds(line, s, starts, done, at);
    SplitStep(s, at, q, starts[|done|], sep);
    CutColumn(line, s, starts, done, at, at + |sep|);
    assert s[at + |sep|..at + |sep|] == [];
    var col, more := s[starts[|done|]..at], SplitFrom(s[at + |sep|..], false, [], sep);
    assert done + ([col] + more) == (done + [col]) + more;
  }

  lemma SplitEnd(line: bytes, s: bytes, starts: seq<nat>, done: seq<bytes>, q: bool, sep: bytes)
    requires sep != [] && Splitting(line, s, starts, done, |s|, q, sep)
    ensures |SplitFrom(s, false, [], sep)| == |done| + 1 && ColumnsAt(line, starts, SplitFrom(s, false, [], sep))
  {
    CloseLastColumn(line, s, starts, done);
    assert s[|s|..] == [] && s[starts[|done|]..|s|] == s[starts[|done|]..];
  }

  /** From `at` on the line is still what was read. */
  ghost predicate Untouched(line: bytes, s: bytes, at: nat) {
    at <= |s| && |line| == |s| + 1 && NulFree(s) && line[at..] == s[at..] + [0]
  }

  lemma UntouchedAt(line: bytes, s: bytes, at: nat)
    requires Untouched(line, s, at)
    ensures StringAt(line, at, s[at..]) && (line[at] == 0 <==> at == |s|)
    ensures at < |s| ==> line[at] == s[at]
    ensures at < |s| ==> Untouched(line, s, at + 1) && Untouched(line[at := 0], s, at + 1)
    ensures forall k | at <= k <= |s| :: Untouched(line, s, k)
  {
    assert line[at..][..|s| - at] == s[at..];
    assert line[at] == line[at..][0] && line[|s|] == line[at..][|s| - at];
    forall k | at <= k <= |s| ensures Untouched(line, s, k) {
      assert line[k..] == line[at..][k - at..] == s[k..] + [0];
    }
    if at < |s| {
      assert line[at := 0][at + 1..] == line[at + 1..];
    }
  }

  /** Between two turns of the split loop, before position `at`, in column `i`. */
  ghost predicate SplitHere(line: bytes, s: bytes, starts: seq<nat>, done: seq<bytes>, i: nat, at: nat, q: bool,
                            sep: bytes)
    requires sep != [] && starts != []
  {
    && at <= |s| && Untouched(line, s, at)
    && if i + 1 < |starts| then |done| == i && starts[i] <= at && Splitting(line, s, starts[..i + 1], done, at, q, sep)
       else |SplitFrom(s, false, [], sep)| >= |starts|
  }

  /** The turn finds a separator: a NUL ends the column, the next one starts behind the separator. */
  method EndColumn(z: array<byte>, azCol: array<nat>, i0: nat, at0: nat, ghost q: bool, sep: bytes, ghost s: bytes,
                   ghost done: seq<bytes>) returns (i: nat, at: nat, ghost done': seq<bytes>)
    requires sep != [] && azCol.Length > 1 && at0 < |s| && z.Length == |s| + 1
    requires SplitHere(z[..], s, azCol[..], done, i0, at0, q, sep) && q == (s[at0] == QUOTE) && sep <= s[at0..]
    modifies z, azCol
    ensures at > at0 && SplitHere(z[..], s, azCol[..], done', i, at, false, sep)
  {
    hide HalfSplit, SplitFrom, ColumnsAt, Untouched, Splitting;
    ghost var line, starts := z[..], azCol[..];
    UntouchedAt(line, s, at0);
    done' := done;
    z[at0] := 0;
    assert z[..] == line[at0 := 0];
    if i0 + 1 < azCol.Length {
      SplitHit(line, s, starts[..i0 + 1], done, at0, q, sep);
      done' := done + [s[starts[i0]..at0]];
      UntouchedAt(line[at0 := 0], s, at0 + 1);
    }
    i, at := i0 + 1, at0;
    if i + 1 < azCol.Length {
      azCol[i] := at + |sep|;
      assert azCol[..][..i + 1] == starts[..i] + [at + |sep|];
      at := at + |sep| - 1;
    }
    at := at + 1;
  }

  /** What the loop sees at `at`, and the turn that finds no separator there. */
  lemma NoSeparatorHere(line: bytes, s: bytes, starts: seq<nat>, done: seq<bytes>, i: nat, at: nat, q: bool, sep: bytes)
    requires sep != [] && starts != [] && SplitHere(line, s, starts, done, i, at, q, sep)
    ensures |line| == |s| + 1 && at <= |s| && (line[at] == 0 <==> at == |s|)
    ensures at < |s| ==> line[at] == s[at] && StringAt(line, at, s[at..])
    ensures at < |s| ==>
              var q' := q != (s[at] == QUOTE);
              q' || !(sep <= s[at..]) ==> SplitHere(line, s, starts, done, i, at + 1, q', sep)
  {
    hide StringAt, HalfSplit, SplitFrom, Untouched, Splitting;
    UntouchedAt(line, s, at);
    UntouchedLength(line, s, at);
    if i + 1 < |starts| && at < |s| { SplitMiss(line, s, starts[..i + 1], done, at, q, sep); }
  }

  lemma UntouchedLength(line: bytes, s: bytes, at: nat)
    requires Untouched(line, s, at)
    ensures |line| == |s| + 1
  {
  }

  lemma SplitBegin(line: bytes, s: bytes, starts: seq<nat>, sep: bytes)
    requires |line| == |s| + 1 && StringAt(line, 0, s) && sep != [] && |starts| > 1 && starts[0] == 0
    ensures SplitHere(line, s, starts, [], 0, 0, false, sep)
  {
    hide SplitFrom;
    assert line[0..0 + |s|] == line[..|s|] == s;
    assert line[0..] == s[0..] + [0] && s[0..] == s && s[0..0] == [] && starts[..1] == [0];
  }

  /** At the end of the line the number of columns is known if there was room for them, and then the columns are. */
  lemma SplitFinish(line: bytes, s: bytes, starts: seq<nat>, done: seq<bytes>, i: nat, q: bool, sep: bytes)
    requires sep != [] && |starts| > 1 && SplitHere(line, s, starts, done, i, |s|, q, sep)
    ensures i + 2 == |starts| <==> |SplitFrom(s, false, [], sep)| + 1 == |starts|
    ensures i + 2 == |starts| ==> ColumnsAt(line, starts[..|starts| - 1], SplitFrom(s, false, [], sep))
  {
    hide HalfSplit, SplitFrom, ColumnsAt, Untouched, Splitting;
    if i + 1 < |starts| { SplitEnd(line, s, starts[..i + 1], done, q, sep); }
  }

  /**
    The split loop of `.import`: each separator outside quotes is overwritten by a NUL and the
    column starts are recorded. Once there are too many columns it only counts.
   */
  method SplitLine(z: array<byte>, ghost s: bytes, sep: bytes, nCol: nat) returns (azCol: array<nat>, found: nat)
    requires z.Length == |s| + 1 && StringAt(z[..], 0, s) && sep != [] && NulFree(sep) && nCol > 0
    modifies z
    ensures fresh(azCol) && azCol.Length == nCol + 1
    ensures found == nCol <==> |SplitFrom(s, false, [], sep)| == nCol
    ensures found == nCol ==> ColumnsAt(z[..], azCol[..nCol], SplitFrom(s, false, [], sep))
  {
    hide StringAt, NulFree, SplitFrom, ColumnsAt, SplitHere;
    azCol := new nat[nCol + 1];
    azCol[0] := 0;
    var i, at, inQuote := 0, 0, false;
    ghost var done: seq<bytes> := [];
    SplitBegin(z[..], s, azCol[..], sep);
    NoSeparatorHere(z[..], s, azCol[..], done, i, at, inQuote, sep);
    while z[at] != 0
      invariant at <= |s| && (z[at] == 0 <==> at == |s|)
      invariant SplitHere(z[..], s, azCol[..], done, i, at, inQuote, sep)
      decreases |s| - at
    {
      NoSeparatorHere(z[..], s, azCol[..], done, i, at, inQuote, sep);
      ghost var q := inQuote;
      if z[at] == QUOTE { inQuote := !inQuote; }
      var hit := false;
      if !inQuote && z[at] == sep[0] {
        hit := StartsWith(z, at, sep, s[at..]);
      }
      assert hit <==> !inQuote && sep <= s[at..];
      if hit {
        i, at, done := EndColumn(z, azCol, i, at, q, sep, s, done);
      } else {
        at := at + 1;
      }
      NoSeparatorHere(z[..], s, azCol[..], done, i, at, inQuote, sep);
    }
    found := i + 1;
    SplitFinish(z[..], s, azCol[..], done, i, inQuote, sep);
    assert azCol[..][..nCol] == azCol[..nCol];
  }

  /** The value of the dequote loop from position `j` of a column, `out` being written already. */
  function DequoteFrom(col: bytes, j: nat, out: bytes): bytes
    decreases |col| - j
  {
    if j >= |col| then out
    else if col[j] != QUOTE then DequoteFrom(col, j + 1, out + [col[j]])
    else if j + 1 == |col| then out
    else DequoteFrom(col, j + 2, out + [col[j + 1]])
  }

  lemma {:induction false} DequoteFromIsBody(col: bytes, j: nat, out: bytes)
    requires j <= |col|
    ensures DequoteFrom(col, j, out) == out + DequoteBody(col[j..])
    decreases |col| - j
  {
    if j < |col| {
      assert col[j..][1..] == col[j + 1..];
      if col[j] != QUOTE {
        DequoteFromIsBody(col, j + 1, out + [col[j]]);
      } else if j + 1 < |col| {
        assert col[j..][2..] == col[j + 2..];
        DequoteFromIsBody(col, j + 2, out + [col[j + 1]]);
      }
    }
  }

  /** The loop is on its way to the dequoted column. */
  ghost predicate OnTrack(col: bytes, r: Rewrite) {
    match r
    case Rewrite(j, out) => NulFree(out) && DequoteFrom(col, j, out) == Dequote(col)
  }

  /** Taking the byte `c` at `j`, or after the quote at `j` - 1, is a step of the loop. */
  lemma DequoteNext(col: bytes, j: nat, out: bytes, c: byte)
    requires j < |col| && col[j] == c && c != 0
    ensures c != QUOTE && OnTrack(col, Rewrite(j, out)) ==> OnTrack(col, Rewrite(j + 1, out + [c]))
    ensures j > 0 && col[j - 1] == QUOTE && OnTrack(col, Rewrite(j - 1, out)) ==>
      OnTrack(col, Rewrite(j + 1, out + [c]))
  {
  }

  lemma DequoteStop(col: bytes, j: nat, out: bytes)
    requires j == |col|
    ensures OnTrack(col, Rewrite(j, out)) ==> Dequote(col) == out && NulFree(out)
    ensures j > 0 && col[j - 1] == QUOTE && OnTrack(col, Rewrite(j - 1, out)) ==> Dequote(col) == out && NulFree(out)
  {
  }

  lemma DequoteStart(m: bytes, at: nat, col: bytes)
    requires StringAt(m, at, col)
    ensures col == [] || col[0] != QUOTE ==> Dequote(col) == col && Written(m, m, Patch(at, Dequote(col) + [0]))
    ensures col != [] && col[0] == QUOTE ==> OnTrack(col, Rewrite(1, []))
    ensures Written(m, m, Patch(at, [])) && at + |col| < |m| && NulFree(col)
  {
    WrittenSame(m, at, col);
    WrittenNothing(m, at);
    if col != [] && col[0] == QUOTE {
      DequoteFromIsBody(col, 1, []);
    }
  }

  /** The reading half of one turn of the dequote loop: a quote is skipped, the byte after it taken. */
  method NextDequoted(z: array<byte>, at: nat, j0: nat, ghost m: bytes, ghost col: bytes, ghost out: bytes)
    returns (j: nat, c: byte)
    requires StringAt(m, at, col) && Written(z[..], m, Patch(at, out)) && OnTrack(col, Rewrite(j0, out))
    requires |out| < j0 < |col|
    ensures j0 <= j <= |col| && at + |col| < z.Length
    ensures c == 0 <==> j == |col|
    ensures c != 0 ==> OnTrack(col, Rewrite(j + 1, out + [c]))
    ensures c == 0 ==> Dequote(col) == out && NulFree(out)
  {
    hide Written, StringAt, Dequote, DequoteFrom, NulFree, OnTrack;
    ReadAhead(z[..], m, at, col, out, j0);
    j := j0;
    if z[at + j] == QUOTE {
      j := j + 1;
      ReadAhead(z[..], m, at, col, out, j);
    }
    c := z[at + j];
    if c == 0 {
      DequoteStop(col, j, out);
    } else {
      DequoteNext(col, j, out, c);
    }
  }

  /** The dequote loop: reads ahead of where it writes, inside the same column. */
  method DequoteInPlace(z: array<byte>, at: nat, ghost col: bytes)
    requires StringAt(z[..], at, col)
    modifies z
    ensures NulFree(Dequote(col)) && |Dequote(col)| <= |col|
    ensures Written(z[..], old(z[..]), Patch(at, Dequote(col) + [0]))
  {
    hide Written, StringAt, Dequote, DequoteFrom, NulFree, OnTrack;
    ghost var m, out: bytes := z[..], [];
    DequoteStart(m, at, col);
    StringByte(m, at, col, 0);
    if z[at] == QUOTE {
      var j, k := 1, 0;
      while z[at + j] != 0
        invariant |out| == k < j <= |col| && OnTrack(col, Rewrite(j, out))
        invariant Written(z[..], m, Patch(at, out))
        decreases |col| - j
      {
        ReadAhead(z[..], m, at, col, out, j);
        var c;
        j, c := NextDequoted(z, at, j, m, col, out);
        if c == 0 {
          break;
        }
        PutNext(z, at + k, c, m, at, out);
        out := out + [c];
        k := k + 1;
        j := j + 1;
      }
      ReadAhead(z[..], m, at, col, out, j);
      DequoteStop(col, j, out);
      PutNext(z, at + k, 0, m, at, out);
    }
  }

  /** What `sqlite3_bind_text` takes: the string at `at` up to its NUL. */
  method ReadString(z: array<byte>, at: nat, ghost s: bytes) returns (r: bytes)
    requires StringAt(z[..], at, s)
    ensures r == s
  {
    StringBytes(z[..], at, s);
    r := [];
    while z[at + |r|] != 0
      invariant |r| <= |s| && r == s[..|r|]
      decreases |s| - |r|
    {
      r := r + [z[at + |r|]];
    }
  }

  lemma DequoteKeepsOthers(m': bytes, m: bytes, starts: seq<nat>, cols: seq<bytes>)
    requires cols != [] && ColumnsAt(m, starts, cols) && NulFree(Dequote(cols[0])) && |Dequote(cols[0])| <= |cols[0]|
    requires Written(m', m, Patch(starts[0], Dequote(cols[0]) + [0]))
    ensures StringAt(m', starts[0], Dequote(cols[0])) && ColumnsAt(m', starts[1..], cols[1..])
  {
    var w := Dequote(cols[0]);
    var starts', cols' := starts[1..], cols[1..];
    WrittenString(m', m, starts[0], w);
    forall k | 0 <= k < |cols'| ensures StringAt(m', starts'[k], cols'[k]) {
      WrittenKeeps(m', m, starts[0], w + [0], starts[k + 1], cols[k + 1]);
    }
  }

  /** Dequote every column of a split line and bind the strings. */
  method BindColumns(z: array<byte>, azCol: array<nat>, nCol: nat, ghost cols: seq<bytes>) returns (row: seq<bytes>)
    requires |cols| == nCol <= azCol.Length && ColumnsAt(z[..], azCol[..nCol], cols)
    modifies z
    ensures row == DequoteAll(cols)
  {
    hide StringAt, ColumnsAt, Written, Dequote, DequoteAll, NulFree;
    row := [];
    assert azCol[0..nCol] == azCol[..nCol] && cols[0..] == cols;
    for i := 0 to nCol
      invariant row == DequoteAll(cols)[..i]
      invariant ColumnsAt(z[..], azCol[i..nCol], cols[i..])
    {
      ghost var m, starts, rest := z[..], azCol[i..nCol], cols[i..];
      assert starts[0] == azCol[i] && starts[1..] == azCol[i + 1..nCol];
      assert rest[0] == cols[i] && rest[1..] == cols[i + 1..];
      FirstColumn(m, starts, rest);
      DequoteInPlace(z, azCol[i], cols[i]);
      DequoteKeepsOthers(z[..], m, starts, rest);
      var value := ReadString(z, azCol[i], Dequote(cols[i]));
      row := row + [value];
    }
  }

  lemma FirstColumn(m: bytes, starts: seq<nat>, cols: seq<bytes>)
    requires cols != [] && ColumnsAt(m, starts, cols)
    ensures starts != [] && StringAt(m, starts[0], cols[0])
  {
  }

  function Prepend(rows: seq<seq<bytes>>, rest: Option<seq<seq<bytes>>>): Option<seq<seq<bytes>>> {
    match rest
    case None => None
    case Some(more) => Some(rows + more)
  }

  /**
    The `.import` loop: the rows to commit, or None for an empty separator or a rollback.
    Insertion itself is assumed to succeed.
   */
  method ImportTable(f: InFile, sep: bytes, nCol: nat) returns (r: Option<seq<seq<bytes>>>)
    requires f.Valid() && NulFree(sep)
    modifies f`pos
    ensures sep == [] ==> r == None
    ensures sep != [] && nCol == 0 ==> r == Some([])
    ensures sep != [] && nCol > 0 && NulFree(f.content) ==> r == ReadTable(old(f.Rest()), sep, nCol)
  {
    if sep == [] { return None; }
    if nCol == 0 { return Some([]); }
    hide ReadTable, SplitFrom, DequoteAll, NulFree, StringAt, ColumnsAt;
    var rows: seq<seq<bytes>> := [];
    ghost var whole := ReadTable(f.Rest(), sep, nCol);
    PrependLaws(rows, whole, f.content, f.pos, sep, nCol);
    while true
      invariant f.Valid()
      invariant NulFree(f.content) ==> whole == Prepend(rows, ReadTable(f.Rest(), sep, nCol))
      decreases |f.content| - f.pos
    {
      ghost var before := f.pos;
      PrependLaws(rows, whole, f.content, f.pos, sep, nCol);
      var z, text := LocalGetline(f, true);
      if z == null {
        break;
      }
      ReadTableStep(f.content, before, f.pos, text, sep, nCol);
      ghost var cols := SplitFrom(text, false, [], sep);
      var azCol, found := SplitLine(z, text, sep, nCol);
      if found != nCol {
        return None;
      }
      var row := BindColumns(z, azCol, nCol, cols);
      PrependOne(rows, row, ReadTable(f.Rest(), sep, nCol));
      rows := rows + [row];
    }
    return Some(rows);
  }

  lemma PrependLaws(rows: seq<seq<bytes>>, whole: Option<seq<seq<bytes>>>, content: bytes, pos: nat, sep: bytes,
                    nCol: nat)
    requires sep != [] && pos <= |content|
    ensures rows == [] ==> Prepend(rows, whole) == whole
    ensures pos == |content| ==> Prepend(rows, ReadTable(content[pos..], sep, nCol)) == Some(rows)
  {
    if whole.Some? { assert [] + whole.value == whole.value; }
    assert rows + [] == rows;
  }

  lemma PrependOne(rows: seq<seq<bytes>>, row: seq<bytes>, rest: Option<seq<seq<bytes>>>)
    ensures Prepend(rows, Prepend([row], rest)) == Prepend(rows + [row], rest)
  {
    if rest.Some? { assert rows + ([row] + rest.value) == rows + [row] + rest.value; }
  }

  lemma ReadTableStep(content: bytes, pos: nat, pos': nat, text: bytes, sep: bytes, nCol: nat)
    requires sep != [] && pos < pos' <= |content|
    ensures NextLine(content[pos..], true) == Line(text, content[pos'..]) ==>
      var cols := SplitFrom(text, false, [], sep);
      ReadTable(content[pos..], sep, nCol) ==
        if |cols| != nCol then None else Prepend([DequoteAll(cols)], ReadTable(content[pos'..], sep, nCol))
  {
  }

  lemma {:induction false} PrintedRowNulFree(row: seq<bytes>, sep: bytes)
    requires NulFree(sep) && forall j | 0 <= j < |row| :: NulFree(row[j])
    ensures NulFree(PrintRow(row, sep))
  {
    if row != [] {
      DoubledNulFree(row[0], QUOTE);
      assert NulFree(PrintField(row[0], sep));
      PrintedRowNulFree(row[1..], sep);
    }
  }

  lemma {:induction false} PrintedTableNulFree(rows: seq<seq<bytes>>, sep: bytes)
    requires NulFree(sep) && forall i, j | 0 <= i < |rows| && 0 <= j < |rows[i]| :: NulFree(rows[i][j])
    ensures NulFree(PrintTable(rows, sep))
  {
    if rows != [] {
      PrintedRowNulFree(rows[0], sep);
      PrintedTableNulFree(rows[1..], sep);
    }
  }

  /** Print a table to a file, read the file back: the program-level form of the CSV law. */
  method PrintThenImport(columns: seq<Option<bytes>>, showHeader: bool, records: seq<seq<Option<bytes>>>,
                         nullValue: bytes, sep: bytes) returns (r: Option<seq<seq<bytes>>>)
    requires PlainSeparator(sep) && NulFree(sep) && NulFree(nullValue) && |columns| >= 1
    requires AllNullsBare(records, nullValue, sep)
    requires forall i | 0 <= i < |records| :: |records[i]| == |columns|
    requires forall j | 0 <= j < |columns| :: columns[j].Some? ==> NulFree(columns[j].value)
    requires forall i, j | 0 <= i < |records| && 0 <= j < |records[i]| ::
               records[i][j].Some? ==> NulFree(records[i][j].value)
    ensures var table := ResultTable(columns, showHeader, records, nullValue);
            r == Some(table) <==> AllSafe(table, sep)
  {
    hide PrintResult, AllSafe, PrintTable, ReadTable, AllNullsBare;
    ghost var table := ResultTable(columns, showHeader, records, nullValue);
    var out := new OutFile();
    OutputResult(out, columns, showHeader, records, nullValue, sep);
    ResultPrinted(columns, showHeader, records, nullValue, sep);
    assert out.content == PrintTable(table, sep);
    var f := new InFile(out.content);
    assert f.Rest() == f.content;
    TableRoundTripIff(table, sep, |columns|);
    PrintedTableNulFree(table, sep);
    r := ImportTable(f, sep, |columns|);
  }
}
