/**
  The CSV text format of the SQLite shell: what `output_csv` prints and what `.import` reads,
  as functions on byte strings, and the exact conditions under which reading undoes printing.
 */
module CsvFormat {
  import opened Bytes
  import opened Quoting
  import opened Files

  // ----- printing -----

  /** The bytes to which the table `needCsvQuote` gives a 1. */
  predicate Special(b: byte) {
    b <= 32 || b == QUOTE || b == 39 || b >= 127
  }

  /**
    The byte at `i` looks like a separator. For a separator of several bytes the code compares
    the START of the field, not the text at `i`, with the separator.
   */
  predicate LooksLikeSeparator(f: bytes, i: nat, sep: bytes)
    requires i < |f|
  {
    sep != [] && f[i] == sep[0] && (|sep| == 1 || sep <= f)
  }

  predicate NeedsQuotes(f: bytes, sep: bytes) {
    f == [] || exists i | 0 <= i < |f| :: Special(f[i]) || LooksLikeSeparator(f, i, sep)
  }

  function PrintField(f: bytes, sep: bytes): bytes {
    if NeedsQuotes(f, sep) then Quoted(f, QUOTE) else f
  }

  /** A NULL value prints as the configured null text, unquoted. */
  function PrintCell(cell: Option<bytes>, nullValue: bytes, sep: bytes): bytes {
    match cell
    case None => nullValue
    case Some(f) => PrintField(f, sep)
  }

  function PrintCells(row: seq<Option<bytes>>, nullValue: bytes, sep: bytes): bytes {
    if row == [] then []
    else if |row| == 1 then PrintCell(row[0], nullValue, sep)
    else PrintCell(row[0], nullValue, sep) + (sep + PrintCells(row[1..], nullValue, sep))
  }

  function PrintRecords(rows: seq<seq<Option<bytes>>>, nullValue: bytes, sep: bytes): bytes {
    if rows == [] then [] else PrintCells(rows[0], nullValue, sep) + ([LF] + PrintRecords(rows[1..], nullValue, sep))
  }

  /** A column without a name is headed by the empty string. */
  function Heading(columns: seq<Option<bytes>>): seq<Option<bytes>> {
    seq(|columns|, i requires 0 <= i < |columns| => if columns[i].Some? then columns[i] else Some([]))
  }

  /** A result as it is printed: with a header line if asked for and if there is any row. */
  function PrintResult(columns: seq<Option<bytes>>, showHeader: bool, rows: seq<seq<Option<bytes>>>, nullValue: bytes,
                       sep: bytes): bytes {
    PrintRecords(if showHeader && rows != [] then [Heading(columns)] + rows else rows, nullValue, sep)
  }

  // rows without NULL values

  function PrintRow(row: seq<bytes>, sep: bytes): bytes {
    if row == [] then []
    else if |row| == 1 then PrintField(row[0], sep)
    else PrintField(row[0], sep) + (sep + PrintRow(row[1..], sep))
  }

  function PrintTable(rows: seq<seq<bytes>>, sep: bytes): bytes {
    if rows == [] then [] else PrintRow(rows[0], sep) + ([LF] + PrintTable(rows[1..], sep))
  }

  // ----- reading -----

  /** Index of the line feed that ends the first line, or |s|; `q` says whether we are inside quotes. */
  function LineEnd(s: bytes, q: bool, csv: bool): (k: nat)
    ensures k <= |s|
  {
    if s == [] || (s[0] == LF && !(q && csv)) then 0
    else 1 + LineEnd(s[1..], q != (s[0] == QUOTE), csv)
  }

  function StripCr(s: bytes): bytes {
    if s != [] && s[|s| - 1] == CR then s[..|s| - 1] else s
  }

  datatype Line = Line(content: bytes, rest: bytes)

  /** The first line of `s` and what follows it. A line ended by the end of the file keeps its CR. */
  function NextLine(s: bytes, csv: bool): (l: Line)
    requires s != []
    ensures |l.rest| < |s|
  {
    var k := LineEnd(s, false, csv);
    if k < |s| then Line(StripCr(s[..k]), s[k + 1..]) else Line(s, [])
  }

  /** The columns of `s`, given the part `cur` of the current column already passed. */
  function SplitFrom(s: bytes, q: bool, cur: bytes, sep: bytes): (cols: seq<bytes>)
    requires sep != []
    ensures cols != []
  {
    if s == [] then [cur]
    else
      var q' := q != (s[0] == QUOTE);
      if !q' && sep <= s then [cur] + SplitFrom(s[|sep|..], q', [], sep)
      else SplitFrom(s[1..], q', cur + [s[0]], sep)
  }

  /** Undo doubling up to the closing quote: the byte after any quote is taken as it is. */
  function DequoteBody(s: bytes): bytes {
    if s == [] then []
    else if s[0] != QUOTE then [s[0]] + DequoteBody(s[1..])
    else if |s| == 1 then []
    else [s[1]] + DequoteBody(s[2..])
  }

  function Dequote(col: bytes): bytes {
    if col != [] && col[0] == QUOTE then DequoteBody(col[1..]) else col
  }

  function DequoteAll(cols: seq<bytes>): (r: seq<bytes>)
    ensures |r| == |cols|
    ensures forall i | 0 <= i < |r| :: r[i] == Dequote(cols[i])
  {
    seq(|cols|, i requires 0 <= i < |cols| => Dequote(cols[i]))
  }

  /** All rows of the file, or None once a line has the wrong number of columns. */
  function ReadTable(s: bytes, sep: bytes, nCol: nat): Option<seq<seq<bytes>>>
    requires sep != []
    decreases |s|
  {
    if s == [] then Some([])
    else
      var line := NextLine(s, true);
      var cols := SplitFrom(line.content, false, [], sep);
      if |cols| != nCol then None
      else match ReadTable(line.rest, sep, nCol)
        case None => None
        case Some(rows) => Some([DequoteAll(cols)] + rows)
  }

  // ----- conditions -----

  /** A separator the reader can see: not empty, and neither a quote nor a line feed inside. */
  predicate PlainSeparator(sep: bytes) {
    sep != [] && QUOTE !in sep && LF !in sep
  }

  /** The separator begins at `k` in `f` followed by `tail`. */
  predicate BreaksAt(f: bytes, tail: bytes, sep: bytes, k: nat)
    requires k < |f|
  {
    sep <= (f + tail)[k..]
  }

  predicate Unbroken(f: bytes, tail: bytes, sep: bytes) {
    forall k | 0 <= k < |f| :: !BreaksAt(f, tail, sep, k)
  }

  predicate FieldSafe(f: bytes, last: bool, sep: bytes) {
    NeedsQuotes(f, sep) || Unbroken(f, if last then [] else sep, sep)
  }

  predicate RowSafe(row: seq<bytes>, sep: bytes) {
    row == [] || (FieldSafe(row[0], |row| == 1, sep) && RowSafe(row[1..], sep))
  }

  predicate IsTable(rows: seq<seq<bytes>>, nCol: nat) {
    forall i | 0 <= i < |rows| :: |rows[i]| == nCol
  }

  ghost predicate RoundTrips(rows: seq<seq<bytes>>, sep: bytes, nCol: nat)
    requires sep != []
  {
    ReadTable(PrintTable(rows, sep), sep, nCol) == Some(rows)
  }

  // ----- one field -----

  lemma DequoteHead(b: byte, r: bytes)
    ensures DequoteBody((if b == QUOTE then [QUOTE, QUOTE] else [b]) + r) == [b] + DequoteBody(r)
  {
    if b == QUOTE {
      assert ([QUOTE, QUOTE] + r)[2..] == r;
    } else {
      assert ([b] + r)[1..] == r;
    }
  }

  lemma {:induction false} DequoteDoubled(f: bytes)
    ensures DequoteBody(Doubled(f, QUOTE) + [QUOTE]) == f
  {
    if f == [] {
      assert Doubled(f, QUOTE) + [QUOTE] == [QUOTE];
    } else {
      DoubledHead(f, QUOTE, [QUOTE]);
      hide DequoteBody, Doubled;
      DequoteHead(f[0], Doubled(f[1..], QUOTE) + [QUOTE]);
      DequoteDoubled(f[1..]);
    }
  }

  /** Dequoting a printed field gives the field back, whatever bytes it holds. */
  lemma DequotePrinted(f: bytes, sep: bytes)
    ensures PrintField(f, sep) != []
    ensures Dequote(PrintField(f, sep)) == f
  {
    if NeedsQuotes(f, sep) {
      DequoteDoubled(f);
      assert PrintField(f, sep)[1..] == Doubled(f, QUOTE) + [QUOTE];
    } else {
      assert !Special(f[0]);
    }
  }

  // ----- lines -----

  lemma {:induction false} LineEndPlain(u: bytes, r: bytes, q: bool, csv: bool)
    requires LF !in u && QUOTE !in u
    ensures LineEnd(u + r, q, csv) == |u| + LineEnd(r, q, csv)
  {
    if u == [] {
      assert u + r == r;
    } else {
      assert (u + r)[1..] == u[1..] + r;
      assert u[0] in u;
      LineEndPlain(u[1..], r, q, csv);
    }
  }

  lemma {:induction false} LineEndDoubled(f: bytes, r: bytes)
    ensures LineEnd(Doubled(f, QUOTE) + [QUOTE] + r, true, true) == |Doubled(f, QUOTE)| + 1 + LineEnd(r, false, true)
  {
    var s := Doubled(f, QUOTE) + [QUOTE] + r;
    if f == [] {
      assert s[1..] == r;
    } else {
      LineEndDoubled(f[1..], r);
      var s' := Doubled(f[1..], QUOTE) + [QUOTE] + r;
      if f[0] == QUOTE {
        assert s[1..][1..] == s';
        assert s[0] == QUOTE && s[1] == QUOTE && s[1..][0] == QUOTE;
      } else {
        assert s[1..] == s';
      }
    }
  }

  lemma LineEndField(f: bytes, sep: bytes, r: bytes)
    ensures LineEnd(PrintField(f, sep) + r, false, true) == |PrintField(f, sep)| + LineEnd(r, false, true)
  {
    if NeedsQuotes(f, sep) {
      var s := Doubled(f, QUOTE) + [QUOTE];
      LineEndDoubled(f, r);
      assert ([QUOTE] + s + r)[1..] == s + r;

    } else {
      hide LineEnd;
      LineEndPlain(f, r, false, true);
    }
  }

  lemma FieldEndsPlainly(f: bytes, sep: bytes)
    ensures PrintField(f, sep) != [] && PrintField(f, sep)[|PrintField(f, sep)| - 1] != CR
  {
  }

  /** Line feeds and carriage returns inside fields never end or shorten the printed line. */
  lemma {:induction false} PrintedRowIsOneLine(row: seq<bytes>, sep: bytes, r: bytes)
    requires row != [] && PlainSeparator(sep)
    ensures LineEnd(PrintRow(row, sep) + ([LF] + r), false, true) == |PrintRow(row, sep)|
    ensures PrintRow(row, sep) != [] && PrintRow(row, sep)[|PrintRow(row, sep)| - 1] != CR
  {
    hide NeedsQuotes, PrintField;
    var f := PrintField(row[0], sep);
    FieldEndsPlainly(row[0], sep);
    if |row| == 1 {
      LineEndField(row[0], sep, [LF] + r);
    } else {
      hide LineEnd;
      var more := PrintRow(row[1..], sep);
      PrintedRowIsOneLine(row[1..], sep, r);
      LineEndPlain(sep, more + ([LF] + r), false, true);
      LineEndField(row[0], sep, sep + (more + ([LF] + r)));
      Regroup(f, sep, more, [LF] + r);
    }
  }

  lemma Regroup(a: bytes, b: bytes, c: bytes, d: bytes)
    ensures (a + (b + c)) + d == a + (b + (c + d))
  {
  }

  lemma NextLineOfTable(row: seq<bytes>, sep: bytes, r: bytes)
    requires row != [] && PlainSeparator(sep)
    ensures NextLine(PrintRow(row, sep) + ([LF] + r), true) == Line(PrintRow(row, sep), r)
  {
    hide PrintRow, LineEnd;
    PrintedRowIsOneLine(row, sep, r);
    var line := PrintRow(row, sep);
    assert (line + ([LF] + r))[..|line|] == line;
    assert (line + ([LF] + r))[|line| + 1..] == r;
  }

  // ----- columns -----

  lemma {:induction false} SplitDoubled(f: bytes, r: bytes, cur: bytes, sep: bytes)
    requires PlainSeparator(sep)
    ensures SplitFrom(Doubled(f, QUOTE) + [QUOTE] + r, true, cur, sep)
         == SplitFrom(r, false, cur + Doubled(f, QUOTE) + [QUOTE], sep)
  {
    var s := Doubled(f, QUOTE) + [QUOTE] + r;
    if f == [] {
      assert s[1..] == r;
      assert cur + Doubled(f, QUOTE) + [QUOTE] == cur + [s[0]];
    } else {
      var s' := Doubled(f[1..], QUOTE) + [QUOTE] + r;
      if f[0] == QUOTE {
        SplitDoubled(f[1..], r, cur + [QUOTE] + [QUOTE], sep);
        assert s[0] == QUOTE && s[1] == QUOTE && s[1..][0] == QUOTE;
        assert s[1..][1..] == s';
        assert !(sep <= s);
        assert cur + [QUOTE] + [QUOTE] + Doubled(f[1..], QUOTE) + [QUOTE] == cur + Doubled(f, QUOTE) + [QUOTE];
      } else {
        SplitDoubled(f[1..], r, cur + [f[0]], sep);
        assert s[1..] == s';
        assert cur + [f[0]] + Doubled(f[1..], QUOTE) + [QUOTE] == cur + Doubled(f, QUOTE) + [QUOTE];
      }
    }
  }

  /** One step of the splitter outside quotes. */
  lemma SplitHead(f: bytes, r: bytes, cur: bytes, sep: bytes)
    requires sep != [] && f != [] && f[0] != QUOTE
    ensures SplitFrom(f + r, false, cur, sep) ==
      if BreaksAt(f, r, sep, 0) then [cur] + SplitFrom((f + r)[|sep|..], false, [], sep)
      else SplitFrom(f[1..] + r, false, cur + [f[0]], sep)
  {
    assert (f + r)[0..] == f + r && (f + r)[1..] == f[1..] + r;
  }

  lemma ShiftBreak(f: bytes, r: bytes, sep: bytes, k: nat)
    requires 0 < k < |f|
    ensures BreaksAt(f, r, sep, k) <==> BreaksAt(f[1..], r, sep, k - 1)
  {
    assert (f[1..] + r)[k - 1..] == (f + r)[k..];
  }

  lemma {:induction false} SplitPlain(f: bytes, r: bytes, cur: bytes, sep: bytes)
    requires PlainSeparator(sep) && QUOTE !in f && Unbroken(f, r, sep)
    ensures SplitFrom(f + r, false, cur, sep) == SplitFrom(r, false, cur + f, sep)
  {
    hide SplitFrom, BreaksAt;
    if f == [] {
      assert f + r == r && cur + f == cur;
    } else {
      SplitHead(f, r, cur, sep);
      forall k | 0 <= k < |f[1..]| ensures !BreaksAt(f[1..], r, sep, k) {
        ShiftBreak(f, r, sep, k + 1);
      }
      SplitPlain(f[1..], r, cur + [f[0]], sep);
      assert cur + [f[0]] + f[1..] == cur + f;
    }
  }

  /** A field with a separator inside it, printed without quotes, is cut short. */
  lemma {:induction false} SplitBroken(f: bytes, r: bytes, cur: bytes, sep: bytes) returns (n: nat)
    requires PlainSeparator(sep) && QUOTE !in f && !Unbroken(f, r, sep)
    ensures n < |f| && SplitFrom(f + r, false, cur, sep)[0] == cur + f[..n]
  {
    hide SplitFrom, BreaksAt;
    assert f[0] in f;
    SplitHead(f, r, cur, sep);
    if BreaksAt(f, r, sep, 0) {
      n := 0;
    } else {
      var k :| 0 <= k < |f| && BreaksAt(f, r, sep, k);
      ShiftBreak(f, r, sep, k);
      n := SplitBroken(f[1..], r, cur + [f[0]], sep);
      assert cur + [f[0]] + f[1..][..n] == cur + f[..n + 1];
      n := n + 1;
    }
  }

  lemma UnquotedHasNoSpecial(f: bytes, sep: bytes)
    requires !NeedsQuotes(f, sep)
    ensures f != [] && forall b | b in f :: !Special(b)
    ensures QUOTE !in f && LF !in f && CR !in f
  {
  }

  /** What follows a field is the end of the line or a separator. */
  ghost predicate Follows(r: bytes, last: bool, sep: bytes) {
    if last then r == [] else sep <= r
  }

  lemma BreakIsInTail(f: bytes, r: bytes, last: bool, sep: bytes, k: nat)
    requires Follows(r, last, sep) && k < |f|
    ensures BreaksAt(f, r, sep, k) <==> BreaksAt(f, if last then [] else sep, sep, k)
  {
    if !last {
      var a, b := (f + r)[k..], (f + sep)[k..];
      assert a[..|sep|] == b[..|sep|];
    }
  }

  /** A safe field is passed as one column. */
  lemma SplitField(f: bytes, r: bytes, last: bool, sep: bytes)
    requires PlainSeparator(sep) && FieldSafe(f, last, sep) && Follows(r, last, sep)
    ensures SplitFrom(PrintField(f, sep) + r, false, [], sep) == SplitFrom(r, false, PrintField(f, sep), sep)
  {
    if NeedsQuotes(f, sep) {
      var s := PrintField(f, sep) + r;
      SplitDoubled(f, r, [QUOTE], sep);
      assert s[1..] == Doubled(f, QUOTE) + [QUOTE] + r;
      assert s[0] == QUOTE && [] + [s[0]] == [QUOTE];
      assert [QUOTE] + Doubled(f, QUOTE) + [QUOTE] == PrintField(f, sep);
    } else {
      UnquotedHasNoSpecial(f, sep);
      forall k | 0 <= k < |f| ensures !BreaksAt(f, r, sep, k) {
        BreakIsInTail(f, r, last, sep, k);
      }
      SplitPlain(f, r, [], sep);
      assert [] + f == f;
    }
  }

  lemma SplitAtSeparator(r: bytes, cur: bytes, sep: bytes)
    requires PlainSeparator(sep)
    ensures SplitFrom(sep + r, false, cur, sep) == [cur] + SplitFrom(r, false, [], sep)
  {
    assert (sep + r)[|sep|..] == r;
    assert sep[0] in sep;
  }

  // ----- one row -----

  lemma ConsEquality<T>(x: T, xs: seq<T>, ys: seq<T>)
    requires ys != []
    ensures [x] + xs == ys <==> x == ys[0] && xs == ys[1..]
  {
    assert ([x] + xs)[1..] == xs;
    assert ys == [ys[0]] + ys[1..];
  }

  lemma DequoteAllCons(col: bytes, cols: seq<bytes>)
    ensures DequoteAll([col] + cols) == [Dequote(col)] + DequoteAll(cols)
  {
  }

  lemma SafeFieldRoundTrip(f: bytes, r: bytes, last: bool, sep: bytes)
    requires PlainSeparator(sep) && FieldSafe(f, last, sep)
    requires last ==> r == []
    ensures DequoteAll(SplitFrom(PrintField(f, sep) + (if last then [] else sep + r), false, [], sep))
         == [f] + (if last then [] else DequoteAll(SplitFrom(r, false, [], sep)))
  {
    DequotePrinted(f, sep);
    if last {
      SplitField(f, [], last, sep);
    } else {
      SplitField(f, sep + r, last, sep);
      SplitAtSeparator(r, PrintField(f, sep), sep);
      DequoteAllCons(PrintField(f, sep), SplitFrom(r, false, [], sep));
    }
  }

  lemma UnsafeFieldIsCut(f: bytes, r: bytes, last: bool, sep: bytes)
    requires PlainSeparator(sep) && !FieldSafe(f, last, sep) && Follows(r, last, sep)
    ensures DequoteAll(SplitFrom(PrintField(f, sep) + r, false, [], sep))[0] != f
  {
    UnquotedHasNoSpecial(f, sep);
    var k :| 0 <= k < |f| && BreaksAt(f, if last then [] else sep, sep, k);
    hide NeedsQuotes, BreaksAt, SplitFrom;
    BreakIsInTail(f, r, last, sep, k);
    var n := SplitBroken(f, r, [], sep);
    assert [] + f[..n] == f[..n];
  }

  /** Splitting and dequoting a printed row: exactly the safe rows come back. */
  lemma {:induction false} RowRoundTrip(row: seq<bytes>, sep: bytes)
    requires row != [] && PlainSeparator(sep)
    ensures DequoteAll(SplitFrom(PrintRow(row, sep), false, [], sep)) == row <==> RowSafe(row, sep)
  {
    var f, others := row[0], row[1..];
    if |row| == 1 {
      assert others == [] && RowSafe(others, sep);
      assert PrintField(f, sep) + [] == PrintField(f, sep);
      if FieldSafe(f, true, sep) {
        SafeFieldRoundTrip(f, [], true, sep);
      } else {
        UnsafeFieldIsCut(f, [], true, sep);
      }
    } else {
      var more := PrintRow(others, sep);
      if FieldSafe(f, false, sep) {
        SafeFieldRoundTrip(f, more, false, sep);
        RowRoundTrip(others, sep);
        ConsEquality(f, DequoteAll(SplitFrom(more, false, [], sep)), row);
      } else {
        UnsafeFieldIsCut(f, sep + more, false, sep);
      }
    }
  }

  // ----- whole files -----

  predicate AllSafe(rows: seq<seq<bytes>>, sep: bytes) {
    forall i | 0 <= i < |rows| :: RowSafe(rows[i], sep)
  }

  /**
    The CSV law, exactly: for every plain separator, of any length, and every table, the file the
    shell prints reads back as the same rows in the same order if and only if every row is safe.
   */
  lemma {:induction false} TableRoundTripIff(rows: seq<seq<bytes>>, sep: bytes, nCol: nat)
    requires PlainSeparator(sep) && nCol >= 1 && IsTable(rows, nCol)
    ensures RoundTrips(rows, sep, nCol) <==> AllSafe(rows, sep)
  {
    if rows == [] {
    } else {
      var row, others := rows[0], rows[1..];
      assert AllSafe(rows, sep) <==> RowSafe(row, sep) && AllSafe(others, sep) by {
        assert rows == [row] + others;
      }
      var rest := PrintTable(others, sep);
      NextLineOfTable(row, sep, rest);
      RowRoundTrip(row, sep);
      TableRoundTripIff(others, sep, nCol);
      var cols := SplitFrom(PrintRow(row, sep), false, [], sep);
      if |cols| != nCol {
        assert DequoteAll(cols) != row;
      } else if ReadTable(rest, sep, nCol).Some? {
        ConsEquality(DequoteAll(cols), ReadTable(rest, sep, nCol).value, rows);
      }
    }
  }

  // ----- which separators are safe for every table -----

  /** One byte, or several with one of them forcing quotes by itself. */
  predicate SafeSeparator(sep: bytes) {
    |sep| == 1 || exists i | 0 <= i < |sep| :: Special(sep[i])
  }

  /**
    A separator that begins at `k` in `f + sep` and reaches into the `sep` that follows repeats
    itself with period |f| - k, so its first special byte already lies in `f`.
   */
  lemma {:induction false} OverlapBringsSpecial(f: bytes, sep: bytes, k: nat, p: nat)
    requires k < |f| && p < |sep| && Special(sep[p]) && sep <= (f + sep)[k..]
    ensures exists b | b in f :: Special(b)
    decreases p
  {
    assert sep[p] == (f + sep)[k..][p] == (f + sep)[k + p];
    if k + p < |f| {
      assert f[k + p] in f;
    } else {
      OverlapBringsSpecial(f, sep, k, k + p - |f|);
    }
  }

  lemma BreakForcesQuotes(f: bytes, last: bool, sep: bytes, k: nat)
    requires PlainSeparator(sep) && SafeSeparator(sep) && k < |f|
    requires BreaksAt(f, if last then [] else sep, sep, k)
    ensures NeedsQuotes(f, sep)
  {
    var s := (f + if last then [] else sep)[k..];
    assert s[0] == f[k] == sep[0];
    if |sep| == 1 {
      assert LooksLikeSeparator(f, k, sep);
    } else {
      var p :| 0 <= p < |sep| && Special(sep[p]);
      if last {
        assert s[p] == f[k + p];
      } else {
        OverlapBringsSpecial(f, sep, k, p);
      }
    }
  }

  lemma SafeSeparatorFieldSafe(f: bytes, last: bool, sep: bytes)
    requires PlainSeparator(sep) && SafeSeparator(sep)
    ensures FieldSafe(f, last, sep)
  {
    if !Unbroken(f, if last then [] else sep, sep) {
      var k :| 0 <= k < |f| && BreaksAt(f, if last then [] else sep, sep, k);
      BreakForcesQuotes(f, last, sep, k);
    }
  }

  lemma {:induction false} SafeSeparatorRowSafe(row: seq<bytes>, sep: bytes)
    requires PlainSeparator(sep) && SafeSeparator(sep)
    ensures RowSafe(row, sep)
  {
    if row != [] {
      SafeSeparatorFieldSafe(row[0], |row| == 1, sep);
      SafeSeparatorRowSafe(row[1..], sep);
    }
  }

  /** The field 'x' (or 'y') followed by an unsafe separator: printed bare, read as two columns. */
  function BreakingField(sep: bytes): bytes
    requires sep != []
  {
    [if sep[0] == 120 then 121 else 120] + sep
  }

  lemma UnsafeSeparatorBreaks(sep: bytes)
    requires PlainSeparator(sep) && !SafeSeparator(sep)
    ensures !RoundTrips([[BreakingField(sep)]], sep, 1)
  {
    var f := BreakingField(sep);
    var row := [f];
    assert !NeedsQuotes(f, sep);
    assert BreaksAt(f, [], sep, 1) by { assert (f + [])[1..] == sep; }
    assert !Unbroken(f, [], sep);
    assert row[0] == f;
    assert !RowSafe(row, sep);
    TableRoundTripIff([row], sep, 1);
    assert [row][0] == row;
  }

  /**
    For a plain separator, every table of every width comes back unchanged if and only if the
    separator is a single byte or contains a byte that forces quotes.
   */
  lemma SeparatorSafeIff(sep: bytes)
    requires PlainSeparator(sep)
    ensures SafeSeparator(sep)
      <==> forall rows, nCol: nat | nCol >= 1 && IsTable(rows, nCol) :: RoundTrips(rows, sep, nCol)
  {
    if SafeSeparator(sep) {
      forall rows, nCol: nat | nCol >= 1 && IsTable(rows, nCol)
        ensures RoundTrips(rows, sep, nCol)
      {
        forall i | 0 <= i < |rows| ensures RowSafe(rows[i], sep) {
          SafeSeparatorRowSafe(rows[i], sep);
        }
        TableRoundTripIff(rows, sep, nCol);
      }
    } else {
      UnsafeSeparatorBreaks(sep);
      assert IsTable([[BreakingField(sep)]], 1);
    }
  }

  /**
    Of the one-byte separators exactly the quote and the line feed fail on some table. (A carriage
    return is fine: no printed line ends in one.)
   */
  lemma OneByteSeparatorIff(b: byte)
    requires b != 0
    ensures b != QUOTE && b != LF
      <==> forall rows, nCol: nat | nCol >= 1 && IsTable(rows, nCol) :: RoundTrips(rows, [b], nCol)
  {
    if b != QUOTE && b != LF {
      SeparatorSafeIff([b]);
    } else {
      var rows: seq<seq<bytes>> := [[[X], [X]]];
      assert IsTable(rows, 2);
      TwoCells(b);
      if b == LF {
        LineFeedCutsTheLine();
      } else {
        OneQuoteNeverCloses();
      }
      assert !RoundTrips(rows, [b], 2);
    }
  }

  const X: byte := 120

  /** A row of two one-letter cells, separated by any byte. */
  lemma TwoCells(b: byte)
    requires b != X
    ensures PrintTable([[[X], [X]]], [b]) == [X, b, X, LF]
  {
    var row: seq<bytes> := [[X], [X]];
    assert !NeedsQuotes([X], [b]);
    var last: seq<bytes> := [[X]];
    assert row[1..] == last && PrintRow(row[1..], [b]) == [X];
    assert PrintRow(row, [b]) == [X] + ([b] + [X]) == [X, b, X];
    assert PrintTable([row], [b]) == PrintRow(row, [b]) + ([LF] + PrintTable([row][1..], [b]));
  }

  lemma LineFeedCutsTheLine()
    ensures ReadTable([X, LF, X, LF], [LF], 2) == None
  {
    var s: bytes := [X, LF, X, LF];
    assert s[1..][0] == LF && LineEnd(s, false, true) == 1;
    assert s[..1] == [X] && NextLine(s, true).content == [X];
    assert [X][1..] == [] && [] + [X] == [X];
    assert SplitFrom([X], false, [], [LF]) == [[X]];
  }

  lemma OneQuoteNeverCloses()
    ensures ReadTable([X, QUOTE, X, LF], [QUOTE], 2) == None
  {
    var s: bytes := [X, QUOTE, X, LF];
    var a, b, c := s[1..], s[1..][1..], s[1..][1..][1..];
    assert a == [QUOTE, X, LF] && b == [X, LF] && c == [LF] && c[1..] == [];
    assert LineEnd(c, true, true) == 1 && LineEnd(b, true, true) == 2;
    assert LineEnd(a, false, true) == 3 && LineEnd(s, false, true) == 4;
    assert |SplitFrom(c, true, [] + [X] + [QUOTE] + [X], [QUOTE])| == 1;
    assert |SplitFrom(b, true, [] + [X] + [QUOTE], [QUOTE])| == 1;
    assert |SplitFrom(a, false, [] + [X], [QUOTE])| == 1;
  }
}
