/**
  What the CSV reader makes of text that nobody printed: where lines and columns end, what quotes mean,
  and files with carriage returns or lines of the wrong width.
 */
module CsvReader {
  import opened Bytes
  import opened Quoting
  import opened Files
  import opened CsvFormat

  /** Quotes toggle: after the bytes `s`, begun outside quotes, are we inside? */
  predicate InsideAfter(s: bytes) {
    Count(s, 34) % 2 == 1
  }

  // ----- lines -----

  /** No line feed of `u` ends a line: with the CSV flag each stands inside quotes, without it there is none. */
  predicate OneLine(u: bytes, csv: bool) {
    forall i | 0 <= i < |u| :: u[i] == 10 ==> csv && InsideAfter(u[..i])
  }

  lemma {:induction false} LineGoesOn(u: bytes, r: bytes, csv: bool)
    requires OneLine(u, csv)
    ensures LineEnd(u + r, false, csv) == |u| + LineEnd(r, InsideAfter(u), csv)
  {
    if u == [] {
      assert u + r == r;
    } else {
      var k := |u| - 1;
      var v, b := u[..k], u[k];
      assert OneLine(v, csv) by {
        forall i | 0 <= i < |v| && v[i] == 10 ensures csv && InsideAfter(v[..i]) {
          assert u[i] == 10 && u[..i] == v[..i];
        }
      }
      LineGoesOn(v, [b] + r, csv);
      assert v + ([b] + r) == u + r && ([b] + r)[1..] == r;
    }
  }

  lemma LineCut(u: bytes, w: bytes, r: bytes, csv: bool)
    requires OneLine(u, csv) && (csv ==> !InsideAfter(u)) && 10 !in w && 34 !in w
    ensures NextLine(u + w + [10] + r, csv) == Line(StripCr(u + w), r)
  {
    hide LineEnd;
    var s := u + w + [10] + r;
    LineGoesOn(u, w + ([10] + r), csv);
    LineEndPlain(w, [10] + r, InsideAfter(u), csv);
    LineFeedEnds(r, InsideAfter(u) && csv, csv);
    LineFeedEnds(r, InsideAfter(u), csv);
    assert s == u + (w + ([10] + r));
    assert s[..|u + w|] == u + w && s[|u + w| + 1..] == r;
  }

  lemma LineFeedEnds(r: bytes, q: bool, csv: bool)
    requires !(q && csv)
    ensures LineEnd([10] + r, q, csv) == 0
  {
  }

  /**
    A line ends at the first line feed outside quotes, or at the first of all without the CSV flag; it
    loses the line feed and one carriage return in front of it.
   */
  lemma FirstLine(u: bytes, r: bytes, csv: bool)
    requires OneLine(u, csv) && (csv ==> !InsideAfter(u))
    ensures NextLine(u + [13, 10] + r, csv) == Line(u, r)
    ensures u == [] || u[|u| - 1] != 13 ==> NextLine(u + [10] + r, csv) == Line(u, r)
  {
    hide NextLine;
    LineCut(u, [13], r, csv);
    LineCut(u, [], r, csv);
    assert u + [13] + [10] + r == u + [13, 10] + r;
    assert u + [] + [10] + r == u + [10] + r && u + [] == u;
    assert (u + [13])[..|u|] == u;
  }

  /** The last line needs no line feed, and without one it keeps its carriage return. */
  lemma LastLine(u: bytes, csv: bool)
    requires u != [] && OneLine(u, csv)
    ensures NextLine(u, csv) == Line(u, [])
  {
    LineGoesOn(u, [], csv);
    assert u + [] == u;
  }

  /** A table with a carriage return in front of every line feed that ends a row. */
  function CrlfTable(rows: seq<seq<bytes>>, sep: bytes): bytes {
    if rows == [] then [] else PrintRow(rows[0], sep) + ([13, 10] + CrlfTable(rows[1..], sep))
  }

  /** It imports as the same rows, under the same condition. */
  lemma {:induction false} CrlfRoundTripIff(rows: seq<seq<bytes>>, sep: bytes, nCol: nat)
    requires PlainSeparator(sep) && nCol >= 1 && IsTable(rows, nCol)
    ensures ReadTable(CrlfTable(rows, sep), sep, nCol) == Some(rows) <==> AllSafe(rows, sep)
  {
    CrlfImportsAlike(rows, sep, nCol);
    TableRoundTripIff(rows, sep, nCol);
  }

  lemma {:induction false} CrlfImportsAlike(rows: seq<seq<bytes>>, sep: bytes, nCol: nat)
    requires PlainSeparator(sep) && nCol >= 1 && IsTable(rows, nCol)
    ensures ReadTable(CrlfTable(rows, sep), sep, nCol) == ReadTable(PrintTable(rows, sep), sep, nCol)
  {
    if rows != [] {
      hide NextLine, PrintRow, SplitFrom;
      CrlfImportsAlike(rows[1..], sep, nCol);
      NextLineOfTable(rows[0], sep, PrintTable(rows[1..], sep));
      NextLineOfCrlf(rows[0], sep, CrlfTable(rows[1..], sep));
    }
  }

  lemma NextLineOfCrlf(row: seq<bytes>, sep: bytes, r: bytes)
    requires row != [] && PlainSeparator(sep)
    ensures NextLine(PrintRow(row, sep) + ([13, 10] + r), true) == Line(PrintRow(row, sep), r)
  {
    hide PrintRow, LineEnd;
    var line := PrintRow(row, sep);
    PrintedRowIsOneLine(row, sep, r);
    LineBeforeCr(line, r);
    var s := line + ([13, 10] + r);
    assert s[..|line| + 1] == line + [13] && s[|line| + 2..] == r;
    assert (line + [13])[..|line|] == line;
  }

  /** Where a line ends does not depend on what follows its line feed, nor on a carriage return in front. */
  lemma {:induction false} LineBeforeCr(line: bytes, r: bytes)
    requires LineEnd(line + ([10] + r), false, true) == |line|
    ensures LineEnd(line + ([13, 10] + r), false, true) == |line| + 1
  {
    LineBeforeCrFrom(line, r, false);
  }

  lemma {:induction false} LineBeforeCrFrom(line: bytes, r: bytes, q: bool)
    requires LineEnd(line + ([10] + r), q, true) == |line|
    ensures LineEnd(line + ([13, 10] + r), q, true) == |line| + 1
  {
    hide LineEnd;
    if line == [] {
      assert line + ([10] + r) == [10] + r && line + ([13, 10] + r) == [13, 10] + r;
      LineStep(13, [10] + r, q);
      assert [13] + ([10] + r) == [13, 10] + r;
    } else {
      Uncons(line, [10] + r);
      Uncons(line, [13, 10] + r);
      LineStep(line[0], line[1..] + ([10] + r), q);
      LineStep(line[0], line[1..] + ([13, 10] + r), q);
      LineBeforeCrFrom(line[1..], r, q != (line[0] == 34));
    }
  }

  lemma Uncons(a: bytes, t: bytes)
    requires a != []
    ensures a + t == [a[0]] + (a[1..] + t)
  {
  }

  lemma LineStep(b: byte, t: bytes, q: bool)
    ensures LineEnd([b] + t, q, true) == if b == 10 && !q then 0 else 1 + LineEnd(t, q != (b == 34), true)
  {
    assert ([b] + t)[1..] == t;
  }

  // ----- columns -----

  /** The columns with the separator between them. */
  function Join(cols: seq<bytes>, sep: bytes): bytes {
    if cols == [] then [] else if |cols| == 1 then cols[0] else cols[0] + sep + Join(cols[1..], sep)
  }

  lemma {:induction false} JoinFrom(s: bytes, q: bool, cur: bytes, sep: bytes)
    requires sep != []
    ensures Join(SplitFrom(s, q, cur, sep), sep) == cur + s
    decreases |s|
  {
    if s == [] {
      assert cur + s == cur;
    } else {
      var q' := q != (s[0] == 34);
      if !q' && sep <= s {
        JoinFrom(s[|sep|..], q', [], sep);
        var more := SplitFrom(s[|sep|..], q', [], sep);
        assert ([cur] + more)[1..] == more && s == sep + s[|sep|..];
        assert [] + s[|sep|..] == s[|sep|..] && cur + sep + s[|sep|..] == cur + s;
      } else {
        JoinFrom(s[1..], q', cur + [s[0]], sep);
        assert cur + [s[0]] + s[1..] == cur + s;
      }
    }
  }

  /** Nothing but separators is lost: the columns joined again are the line. */
  lemma ColumnsJoin(s: bytes, sep: bytes)
    requires sep != []
    ensures Join(SplitFrom(s, false, [], sep), sep) == s
  {
    JoinFrom(s, false, [], sep);
    assert [] + s == s;
  }

  /** In `a + t` no separator begins in `a` outside quotes. */
  predicate NoCut(a: bytes, t: bytes, sep: bytes) {
    forall i | 0 <= i < |a| :: InsideAfter(a[..i + 1]) || !(sep <= (a + t)[i..])
  }

  lemma {:induction false} ColumnGoesOn(a: bytes, t: bytes, sep: bytes)
    requires sep != [] && NoCut(a, t, sep)
    ensures SplitFrom(a + t, false, [], sep) == SplitFrom(t, InsideAfter(a), a, sep)
  {
    if a == [] {
      assert a + t == t;
    } else {
      var k := |a| - 1;
      var v, b := a[..k], a[k];
      assert v + ([b] + t) == a + t;
      assert NoCut(v, [b] + t, sep) by {
        forall i | 0 <= i < |v| ensures InsideAfter(v[..i + 1]) || !(sep <= (v + ([b] + t))[i..]) {
          assert a[..i + 1] == v[..i + 1];
        }
      }
      ColumnGoesOn(v, [b] + t, sep);
      assert ([b] + t)[1..] == t && (a + t)[k..] == [b] + t && a[..k + 1] == a && v + [b] == a;
    }
  }

  /** A column ends at the first separator that begins outside quotes, or at the end of the line. */
  lemma FirstColumn(a: bytes, r: bytes, sep: bytes)
    requires PlainSeparator(sep)
    ensures NoCut(a, sep + r, sep) && !InsideAfter(a) ==>
              SplitFrom(a + (sep + r), false, [], sep) == [a] + SplitFrom(r, false, [], sep)
    ensures NoCut(a, [], sep) ==> SplitFrom(a, false, [], sep) == [a]
  {
    if NoCut(a, sep + r, sep) && !InsideAfter(a) {
      ColumnGoesOn(a, sep + r, sep);
      assert sep[0] in sep && sep <= sep + r && (sep + r)[|sep|..] == r;
    }
    if NoCut(a, [], sep) {
      ColumnGoesOn(a, [], sep);
      assert a + [] == a;
    }
  }

  // ----- quotes -----

  /**
    A column that does not begin with a quote is taken as it is. In one that does, that quote goes, and
    of every further quote and the byte behind it only that byte stays, whatever it is.
   */
  lemma QuotesDropped(a: bytes, c: byte, r: bytes)
    requires 34 !in a
    ensures Dequote(a) == a
    ensures Dequote([34] + a) == a && Dequote([34] + a + [34]) == a
    ensures Dequote([34] + a + [34, c] + r) == a + [c] + DequoteBody(r)
    ensures Dequote([34] + r) == DequoteBody(r)
  {
    hide DequoteBody;
    BodyGoesOn(a, []);
    BodyGoesOn(a, [34]);
    BodyGoesOn(a, [34, c] + r);
    BodyEnds(c, r);
    assert a == [] || a[0] in a;
    assert ([34] + r)[1..] == r;
    assert ([34] + a)[1..] == a + [] == a && ([34] + a + [34])[1..] == a + [34];
    assert ([34] + a + [34, c] + r)[1..] == a + ([34, c] + r);
    assert a + ([c] + DequoteBody(r)) == a + [c] + DequoteBody(r);
  }

  lemma BodyEnds(c: byte, r: bytes)
    ensures DequoteBody([]) == [] == DequoteBody([34]) && DequoteBody([34, c] + r) == [c] + DequoteBody(r)
  {
    assert ([34, c] + r)[2..] == r;
  }

  lemma {:induction false} BodyGoesOn(a: bytes, r: bytes)
    requires 34 !in a
    ensures DequoteBody(a + r) == a + DequoteBody(r)
  {
    if a == [] {
      assert a + r == r && a + DequoteBody(r) == DequoteBody(r);
    } else {
      assert a[0] in a && (a + r)[1..] == a[1..] + r;
      BodyGoesOn(a[1..], r);
    }
  }

  // ----- files -----

  /** The import takes a file line by line; a line of the wrong width ends it without any row. */
  lemma ImportStep(u: bytes, r: bytes, sep: bytes, nCol: nat)
    requires sep != [] && OneLine(u, true) && !InsideAfter(u)
    ensures var cols := SplitFrom(u, false, [], sep); var rest := ReadTable(r, sep, nCol);
            ReadTable(u + [13, 10] + r, sep, nCol) ==
              (if |cols| != nCol || rest.None? then None else Some([DequoteAll(cols)] + rest.value))
  {
    hide NextLine, SplitFrom;
    FirstLine(u, r, true);
  }

  /** A printed table with a row of another width is not imported at all. */
  lemma {:induction false} RaggedTable(rows: seq<seq<bytes>>, sep: bytes, nCol: nat, k: nat)
    requires PlainSeparator(sep) && AllSafe(rows, sep) && k < |rows| && |rows[k]| != nCol
    requires forall i | 0 <= i < |rows| :: rows[i] != []
    ensures ReadTable(PrintTable(rows, sep), sep, nCol) == None
  {
    hide NextLine, PrintRow, SplitFrom, RowSafe;
    var others := rows[1..];
    NextLineOfTable(rows[0], sep, PrintTable(others, sep));
    RowRoundTrip(rows[0], sep);
    if |rows[0]| == nCol {
      forall i | 0 <= i < |others| ensures RowSafe(others[i], sep) { assert others[i] == rows[i + 1]; }
      RaggedTable(others, sep, nCol, k - 1);
    }
  }

  // ----- what is printed -----

  /** With a separator of one byte a field prints bare exactly when it is not empty and all of it is harmless. */
  lemma PrintedBareIff(f: bytes, b: byte)
    ensures PrintField(f, [b]) == f <==>
            f != [] && forall i | 0 <= i < |f| :: 33 <= f[i] <= 126 && f[i] != 34 && f[i] != 39 && f[i] != b
  {
    DoubledLength(f, 34);
    if f != [] && !NeedsQuotes(f, [b]) {
      forall i | 0 <= i < |f| ensures !Special(f[i]) && !LooksLikeSeparator(f, i, [b]) {}
    }
  }

  /** The text for a NULL in the place of every NULL. */
  function Texts(cells: seq<Option<bytes>>, text: bytes): (row: seq<bytes>)
    ensures |row| == |cells|
    ensures forall i | 0 <= i < |row| :: row[i] == if cells[i] == None then text else cells[i].value
  {
    seq(|cells|, i requires 0 <= i < |cells| => if cells[i] == None then text else cells[i].value)
  }

  function AllTexts(records: seq<seq<Option<bytes>>>, text: bytes): (rows: seq<seq<bytes>>)
    ensures |rows| == |records| && forall i | 0 <= i < |rows| :: rows[i] == Texts(records[i], text)
  {
    seq(|records|, i requires 0 <= i < |records| => Texts(records[i], text))
  }

  /** The null text needs no quotes, or there is no NULL. */
  predicate NullsBare(cells: seq<Option<bytes>>, nullValue: bytes, sep: bytes) {
    PrintField(nullValue, sep) == nullValue || forall i | 0 <= i < |cells| :: cells[i].Some?
  }

  predicate AllNullsBare(records: seq<seq<Option<bytes>>>, nullValue: bytes, sep: bytes) {
    forall i | 0 <= i < |records| :: NullsBare(records[i], nullValue, sep)
  }

  lemma {:induction false} NullsPrinted(cells: seq<Option<bytes>>, nullValue: bytes, sep: bytes)
    requires NullsBare(cells, nullValue, sep)
    ensures PrintCells(cells, nullValue, sep) == PrintRow(Texts(cells, nullValue), sep)
  {
    hide PrintField;
    if |cells| > 1 {
      NullsPrinted(cells[1..], nullValue, sep);
      assert Texts(cells, nullValue)[1..] == Texts(cells[1..], nullValue);
    }
  }

  lemma {:induction false} AllNullsPrinted(records: seq<seq<Option<bytes>>>, nullValue: bytes, sep: bytes)
    requires AllNullsBare(records, nullValue, sep)
    ensures PrintRecords(records, nullValue, sep) == PrintTable(AllTexts(records, nullValue), sep)
  {
    hide PrintField, PrintCells, PrintRow, NullsBare;
    if records != [] {
      NullsPrinted(records[0], nullValue, sep);
      AllNullsPrinted(records[1..], nullValue, sep);
      assert AllTexts(records, nullValue)[1..] == AllTexts(records[1..], nullValue);
    }
  }

  function WithHeader(columns: seq<bytes>, showHeader: bool, rows: seq<seq<bytes>>): seq<seq<bytes>> {
    if showHeader && rows != [] then [columns] + rows else rows
  }

  /** What a result stands for: a column without a name is headed by the empty string, a NULL is the null text. */
  function ResultTable(columns: seq<Option<bytes>>, showHeader: bool, records: seq<seq<Option<bytes>>>,
                       nullValue: bytes): seq<seq<bytes>> {
    WithHeader(Texts(columns, []), showHeader, AllTexts(records, nullValue))
  }

  /** A result prints as that table, the heading as one more row. */
  lemma ResultPrinted(columns: seq<Option<bytes>>, showHeader: bool, records: seq<seq<Option<bytes>>>, nullValue: bytes,
                      sep: bytes)
    requires AllNullsBare(records, nullValue, sep)
    ensures PrintResult(columns, showHeader, records, nullValue, sep)
         == PrintTable(ResultTable(columns, showHeader, records, nullValue), sep)
  {
    hide PrintField, PrintRecords, PrintTable;
    var lines := if showHeader && records != [] then [Heading(columns)] + records else records;
    AllNullsPrinted(lines, nullValue, sep);
    assert Texts(Heading(columns), nullValue) == Texts(columns, []);
    assert AllTexts(lines, nullValue) == ResultTable(columns, showHeader, records, nullValue);
  }
}
