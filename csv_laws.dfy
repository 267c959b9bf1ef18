/**
 * What `parseCSV`'s scan (App.jsx:25-40) guarantees about whole inputs: the
 * quoting round trip, the reading of quote-free text as lines split at commas,
 * and the behaviour of a quote that is never closed.
 */
module CsvLaws {
  import opened Csv
  import Text

  // ---------------------------------------------------------------------
  // Writing rows the way a spreadsheet exports them

  /** Every quote inside a field doubled. */
  function Escape(f: string): string
  {
    if f == [] then [] else (if f[0] == '"' then "\"\"" else [f[0]]) + Escape(f[1..])
  }

  function Quote(f: string): string
  {
    "\"" + Escape(f) + "\""
  }

  /** Quoted fields joined with commas. */
  function JoinQuoted(fs: seq<string>): string
    requires |fs| >= 1
    decreases |fs|
  {
    if |fs| == 1 then Quote(fs[0]) else Quote(fs[0]) + "," + JoinQuoted(fs[1..])
  }

  function EncodeRow(fs: seq<string>): string
    requires |fs| >= 1
  {
    JoinQuoted(fs) + "\n"
  }

  predicate NoEmptyRow(rows: seq<seq<string>>)
  {
    forall i :: 0 <= i < |rows| ==> |rows[i]| >= 1
  }

  function EncodeTable(rows: seq<seq<string>>): string
    requires NoEmptyRow(rows)
    decreases |rows|
  {
    if rows == [] then [] else EncodeRow(rows[0]) + EncodeTable(rows[1..])
  }

  // ---------------------------------------------------------------------
  // Quoting round trip

  /** Inside quotes, an escaped field and its closing quote read back as the field. */
  lemma {:induction false} EscapedFieldScan(f: string, rest: string, st: ScanState)
    requires st.inQuotes
    requires rest == [] || rest[0] != '"'
    ensures Scan(Escape(f) + "\"" + rest, st) == Scan(rest, st.(field := st.field + f, inQuotes := false))
    decreases |f|
  {
    if f == [] {
      ClosingQuote(rest, st);
      assert Escape(f) + "\"" + rest == "\"" + rest;
      assert st.field + f == st.field;
    } else {
      var tail := Escape(f[1..]) + "\"" + rest;
      EscapeCons(f, rest);
      FieldCons(st.field, f);
      if f[0] == '"' {
        ScanEscapedQuote(tail, st);
      } else {
        ScanQuotedChar(f[0], tail, st);
      }
      EscapedFieldScan(f[1..], rest, st.(field := st.field + [f[0]]));
    }
  }

  lemma ClosingQuote(rest: string, st: ScanState)
    requires st.inQuotes && (rest == [] || rest[0] != '"')
    ensures Scan("\"" + rest, st) == Scan(rest, st.(inQuotes := false))
  {
    assert ("\"" + rest)[1..] == rest;
  }

  lemma EscapeCons(f: string, rest: string)
    requires f != []
    ensures Escape(f) + "\"" + rest
      == (if f[0] == '"' then "\"\"" else [f[0]]) + (Escape(f[1..]) + "\"" + rest)
  {
  }

  lemma FieldCons(x: string, f: string)
    requires f != []
    ensures x + [f[0]] + f[1..] == x + f
  {
    assert [f[0]] + f[1..] == f;
  }

  lemma ScanEscapedQuote(t: string, st: ScanState)
    requires st.inQuotes
    ensures Scan("\"\"" + t, st) == Scan(t, st.(field := st.field + ['"']))
  {
    var s := "\"\"" + t;
    assert s[0] == '"' && s[1] == '"' && s[2..] == t;
  }

  lemma ScanQuotedChar(c: char, t: string, st: ScanState)
    requires st.inQuotes && c != '"'
    ensures Scan([c] + t, st) == Scan(t, st.(field := st.field + [c]))
  {
    assert ([c] + t)[1..] == t;
  }

  /** A quoted field read outside quotes becomes the pending field. */
  lemma QuotedFieldScan(f: string, tail: string, r: seq<string>, rows: seq<seq<string>>)
    requires tail == [] || tail[0] != '"'
    ensures Scan(Quote(f) + tail, ScanState("", r, rows, false)) == Scan(tail, ScanState(f, r, rows, false))
  {
    var body := Escape(f) + "\"" + tail;
    var s := Quote(f) + tail;
    assert s == "\"" + body;
    assert s[0] == '"' && s[1..] == body;
    var open := ScanState("", r, rows, true);
    assert Scan(s, ScanState("", r, rows, false)) == Scan(body, open);
    EscapedFieldScan(f, tail, open);
    assert open.(field := "" + f, inQuotes := false) == ScanState(f, r, rows, false);
  }

  /** One encoded row, read at the start of a row, appends exactly that row. */
  lemma {:induction false} EncodedRowScan(fs: seq<string>, rest: string, r: seq<string>, rows: seq<seq<string>>)
    requires |fs| >= 1
    ensures Scan(JoinQuoted(fs) + "\n" + rest, ScanState("", r, rows, false))
         == Scan(rest, ScanState("", [], rows + [r + fs], false))
    decreases |fs|
  {
    var closed := ScanState(fs[0], r, rows, false);
    if |fs| == 1 {
      var tail := "\n" + rest;
      assert JoinQuoted(fs) + "\n" + rest == Quote(fs[0]) + tail;
      QuotedFieldScan(fs[0], tail, r, rows);
      assert Scan(tail, closed) == Scan(rest, ScanState("", [], rows + [r + [fs[0]]], false)) by {
        assert tail[0] == '\n' && tail[1..] == rest;
      }
      assert [fs[0]] == fs;
    } else {
      var more := JoinQuoted(fs[1..]) + "\n" + rest;
      var tail := "," + more;
      assert JoinQuoted(fs) + "\n" + rest == Quote(fs[0]) + tail;
      QuotedFieldScan(fs[0], tail, r, rows);
      assert Scan(tail, closed) == Scan(more, ScanState("", r + [fs[0]], rows, false)) by {
        assert tail[0] == ',' && tail[1..] == more;
      }
      EncodedRowScan(fs[1..], rest, r + [fs[0]], rows);
      assert r + [fs[0]] + fs[1..] == r + fs;
    }
  }

  lemma {:induction false} EncodedTableScan(table: seq<seq<string>>, rest: string, rows: seq<seq<string>>)
    requires NoEmptyRow(table)
    ensures Scan(EncodeTable(table) + rest, ScanState("", [], rows, false))
         == Scan(rest, ScanState("", [], rows + table, false))
    decreases |table|
  {
    if table == [] {
      assert EncodeTable(table) + rest == rest;
      assert rows + table == rows;
    } else {
      var more := EncodeTable(table[1..]) + rest;
      EncodeTableCons(table, rest);
      EncodedRowScan(table[0], more, [], rows);
      NoEmptyRowTail(table);
      FirstRow(rows, table);
      EncodedTableScan(table[1..], rest, rows + [[] + table[0]]);
    }
  }

  lemma EncodeTableCons(table: seq<seq<string>>, rest: string)
    requires NoEmptyRow(table) && table != []
    ensures NoEmptyRow(table[1..])
    ensures EncodeTable(table) + rest == JoinQuoted(table[0]) + "\n" + (EncodeTable(table[1..]) + rest)
  {
    NoEmptyRowTail(table);
  }

  lemma NoEmptyRowTail(table: seq<seq<string>>)
    requires NoEmptyRow(table) && table != []
    ensures NoEmptyRow(table[1..])
  {
    forall i | 0 <= i < |table[1..]| ensures |table[1..][i]| >= 1 {
      assert table[1..][i] == table[i + 1];
    }
  }

  lemma FirstRow(rows: seq<seq<string>>, table: seq<seq<string>>)
    requires table != []
    ensures rows + [[] + table[0]] + table[1..] == rows + table
  {
    assert [] + table[0] == table[0];
    assert [table[0]] + table[1..] == table;
  }

  /**
   * Fields quoted with their inner quotes doubled, joined by commas and ended by
   * a newline, read back as exactly that one row, whatever commas, quotes,
   * carriage returns or newlines the fields hold.
   */
  lemma QuotedRowRoundTrip(fs: seq<string>)
    requires |fs| >= 1
    ensures Rows(EncodeRow(fs)) == [fs]
  {
    var none: seq<string> := [];
    var noRows: seq<seq<string>> := [];
    EncodedRowScan(fs, [], none, noRows);
    assert EncodeRow(fs) == JoinQuoted(fs) + "\n" + [];
    assert none + fs == fs;
    assert noRows + [fs] == [fs];
  }

  /** The same for a whole table of such rows. */
  lemma QuotedTableRoundTrip(table: seq<seq<string>>)
    requires NoEmptyRow(table)
    ensures Rows(EncodeTable(table)) == table
  {
    EncodedTableScan(table, [], []);
    assert EncodeTable(table) + [] == EncodeTable(table);
    assert [] + table == table;
  }

  // ---------------------------------------------------------------------
  // A quote that is never closed

  lemma {:induction false} UnclosedQuoteScan(s: string, st: ScanState)
    requires '"' !in s && st.inQuotes
    ensures Scan(s, st) == st.(field := st.field + s)
    decreases |s|
  {
    if s == [] {
      assert st.field + s == st.field;
    } else {
      UnclosedQuoteScan(s[1..], st.(field := st.field + [s[0]]));
      assert st.field + [s[0]] + s[1..] == st.field + s;
    }
  }

  /**
   * After complete rows, a quote that is never closed puts all the remaining
   * input, commas and newlines included, into one last field, without error.
   */
  lemma UnclosedQuoteTakesRest(table: seq<seq<string>>, s: string)
    requires NoEmptyRow(table) && '"' !in s
    ensures Rows(EncodeTable(table) + "\"" + s) == if s == [] then table else table + [[s]]
  {
    var noRows: seq<seq<string>> := [];
    var rest := "\"" + s;
    assert EncodeTable(table) + "\"" + s == EncodeTable(table) + rest;
    assert noRows + table == table;
    EncodedTableScan(table, rest, noRows);
    OpenQuoteScan(s, table);
    var none: seq<string> := [];
    assert none + [s] == [s];
  }

  lemma OpenQuoteScan(s: string, rows: seq<seq<string>>)
    requires '"' !in s
    ensures Scan("\"" + s, ScanState("", [], rows, false)) == ScanState(s, [], rows, true)
  {
    var rest := "\"" + s;
    assert rest[0] == '"' && rest[1..] == s;
    var open := ScanState("", [], rows, true);
    UnclosedQuoteScan(s, open);
    assert "" + s == s;
  }

  // ---------------------------------------------------------------------
  // Quote-free text: lines split at commas

  /** `s.split(d)`: the pieces between separators; one piece when there is none. */
  function SplitOn(s: string, d: char): (r: seq<string>)
    ensures |r| >= 1
    decreases |s|
  {
    if s == [] then [""]
    else if s[0] == d then [""] + SplitOn(s[1..], d)
    else
      var t := SplitOn(s[1..], d);
      [[s[0]] + t[0]] + t[1..]
  }

  /** The text's lines: split at newlines, with no empty line for a final newline. */
  function Lines(s: string): seq<string>
  {
    if s == [] then []
    else
      var ls := SplitOn(s, '\n');
      if s[|s| - 1] == '\n' then ls[..|ls| - 1] else ls
  }

  function FieldsOfLines(ls: seq<string>): seq<seq<string>>
  {
    seq(|ls|, i requires 0 <= i < |ls| => SplitOn(ls[i], ','))
  }

  function RemoveCR(s: string): (r: string)
    ensures '\r' !in r && forall c :: c in r ==> c in s
    decreases |s|
  {
    if s == [] then []
    else if s[0] == '\r' then RemoveCR(s[1..])
    else [s[0]] + RemoveCR(s[1..])
  }

  lemma {:induction false} SplitOnNoSeparator(s: string, d: char)
    requires d !in s
    ensures SplitOn(s, d) == [s]
    decreases |s|
  {
    if s != [] {
      assert s[0] != d && d !in s[1..];
      SplitOnNoSeparator(s[1..], d);
      assert [s[0]] + s[1..] == s;
    }
  }

  lemma {:induction false} SplitOnAfterSeparator(f: string, d: char, t: string)
    requires d !in f
    ensures SplitOn(f + [d] + t, d) == [f] + SplitOn(t, d)
    decreases |f|
  {
    var s := f + [d] + t;
    if f == [] {
      assert s == [d] + t && s[1..] == t;
    } else {
      assert s[0] == f[0] && s[1..] == f[1..] + [d] + t;
      SplitOnAfterSeparator(f[1..], d, t);
      assert [f[0]] + f[1..] == f;
    }
  }

  lemma SplitOnNonEmpty(s: string, d: char)
    requires s != []
    ensures SplitOn(s, d) != [""]
  {
    if s[0] == d {
      assert |SplitOn(s, d)| >= 2;
    } else {
      assert SplitOn(s, d)[0] != "";
    }
  }

  lemma LinesCons(a: string, b: string)
    requires '\n' !in a
    ensures Lines(a + "\n" + b) == [a] + Lines(b)
  {
    var s := a + "\n" + b;
    SplitOnAfterSeparator(a, '\n', b);
    assert s == a + ['\n'] + b;
    var ls := SplitOn(s, '\n');
    assert ls == [a] + SplitOn(b, '\n');
    if b == [] {
      assert s[|s| - 1] == '\n';
      assert ls[..|ls| - 1] == [a];
    } else {
      assert s[|s| - 1] == b[|b| - 1];
      var lb := SplitOn(b, '\n');
      if b[|b| - 1] == '\n' {
        assert ls[..|ls| - 1] == [a] + lb[..|lb| - 1];
      }
    }
  }

  /** Scanning a quote-free line piece outside quotes splits it at its commas. */
  lemma {:induction false} LineScan(l: string, rest: string, f: string, r: seq<string>, rows: seq<seq<string>>)
    requires '"' !in l && '\n' !in l && '\r' !in l && ',' !in f
    ensures var cells := SplitOn(f + l, ',');
      Scan(l + rest, ScanState(f, r, rows, false))
        == Scan(rest, ScanState(cells[|cells| - 1], r + cells[..|cells| - 1], rows, false))
    decreases |l|, 1
  {
    if l == [] {
      SplitOnNoSeparator(f, ',');
      assert f + l == f && l + rest == rest;
      assert r + [] == r;
    } else if l[0] == ',' {
      LineScanComma(l, rest, f, r, rows);
    } else {
      LineScanPlain(l, rest, f, r, rows);
    }
  }

  lemma {:induction false} LineScanComma(l: string, rest: string, f: string, r: seq<string>, rows: seq<seq<string>>)
    requires '"' !in l && '\n' !in l && '\r' !in l && ',' !in f
    requires l != [] && l[0] == ','
    ensures var cells := SplitOn(f + l, ',');
      Scan(l + rest, ScanState(f, r, rows, false))
        == Scan(rest, ScanState(cells[|cells| - 1], r + cells[..|cells| - 1], rows, false))
    decreases |l|, 0
  {
    var t := l[1..];
    ScanCommaAt(l, rest, ScanState(f, r, rows, false));
    LineScan(t, rest, "", r + [f], rows);
    assert "" + t == t;
    CommaCells(f, l, r);
  }

  lemma {:induction false} LineScanPlain(l: string, rest: string, f: string, r: seq<string>, rows: seq<seq<string>>)
    requires '"' !in l && '\n' !in l && '\r' !in l && ',' !in f
    requires l != [] && l[0] != ','
    ensures var cells := SplitOn(f + l, ',');
      Scan(l + rest, ScanState(f, r, rows, false))
        == Scan(rest, ScanState(cells[|cells| - 1], r + cells[..|cells| - 1], rows, false))
    decreases |l|, 0
  {
    var c, t := l[0], l[1..];
    assert l + rest == [c] + (t + rest);
    ScanPlain(c, t + rest, ScanState(f, r, rows, false));
    LineScan(t, rest, f + [c], r, rows);
    assert f + [c] + t == f + l;
  }

  lemma ScanCommaAt(l: string, rest: string, st: ScanState)
    requires !st.inQuotes && l != [] && l[0] == ','
    ensures Scan(l + rest, st) == Scan(l[1..] + rest, st.(field := "", row := st.row + [st.field]))
  {
    assert (l + rest)[0] == ',' && (l + rest)[1..] == l[1..] + rest;
  }

  lemma ScanPlain(c: char, t: string, st: ScanState)
    requires !st.inQuotes && c != '"' && c != ',' && c != '\n' && c != '\r'
    ensures Scan([c] + t, st) == Scan(t, st.(field := st.field + [c]))
  {
    assert ([c] + t)[1..] == t;
  }

  /** The cells of `f` followed by `,t`: `f`, then the cells of `t`. */
  lemma CommaCells(f: string, l: string, r: seq<string>)
    requires ',' !in f && l != [] && l[0] == ','
    ensures var tail, cells := SplitOn(l[1..], ','), SplitOn(f + l, ',');
      cells[|cells| - 1] == tail[|tail| - 1] && r + [f] + tail[..|tail| - 1] == r + cells[..|cells| - 1]
  {
    var t := l[1..];
    assert f + l == f + [','] + t;
    SplitOnAfterSeparator(f, ',', t);
    var tail := SplitOn(t, ',');
    var cells := [f] + tail;
    assert cells[..|cells| - 1] == [f] + tail[..|tail| - 1];
  }

  /** A last line without a newline is emitted as one row. */
  lemma LastLineRow(s: string, rows: seq<seq<string>>)
    requires s != [] && '"' !in s && '\r' !in s && '\n' !in s
    ensures Finish(Scan(s, ScanState("", [], rows, false))) == rows + FieldsOfLines(Lines(s))
  {
    LineScanFresh(s, [], rows);
    assert s + [] == s;
    SplitOnNonEmpty(s, ',');
    FinishLine(SplitOn(s, ','), rows);
    LinesOfOne(s);
  }

  /** A line ended by a newline is emitted as one row, and the scan goes on afresh. */
  lemma LineThenRest(a: string, b: string, rows: seq<seq<string>>)
    requires '"' !in a && '\r' !in a && '\n' !in a
    ensures Scan(a + "\n" + b, ScanState("", [], rows, false))
         == Scan(b, ScanState("", [], rows + [SplitOn(a, ',')], false))
  {
    var cells := SplitOn(a, ',');
    LineScanFresh(a, "\n" + b, rows);
    assert a + "\n" + b == a + ("\n" + b);
    NewlineStep(b, ScanState(cells[|cells| - 1], cells[..|cells| - 1], rows, false));
    SplitLast(cells);
  }

  /** A quote-free line piece read at the start of a row. */
  lemma LineScanFresh(l: string, rest: string, rows: seq<seq<string>>)
    requires '"' !in l && '\n' !in l && '\r' !in l
    ensures var cells := SplitOn(l, ',');
      Scan(l + rest, ScanState("", [], rows, false))
        == Scan(rest, ScanState(cells[|cells| - 1], cells[..|cells| - 1], rows, false))
  {
    var none: seq<string> := [];
    var cells := SplitOn(l, ',');
    assert SplitOn("" + l, ',') == cells by {
      assert "" + l == l;
    }
    var init := cells[..|cells| - 1];
    assert none + init == init;
    LineScan(l, rest, "", none, rows);
  }

  lemma NewlineStep(b: string, st: ScanState)
    requires !st.inQuotes
    ensures Scan("\n" + b, st) == Scan(b, ScanState("", [], st.rows + [st.row + [st.field]], false))
  {
    assert ("\n" + b)[0] == '\n' && ("\n" + b)[1..] == b;
  }

  lemma SplitLast(cells: seq<string>)
    requires |cells| >= 1
    ensures cells[..|cells| - 1] + [cells[|cells| - 1]] == cells
  {
  }

  /** At the end of the input, the pending cells of a non-empty line are emitted. */
  lemma FinishLine(cells: seq<string>, rows: seq<seq<string>>)
    requires |cells| >= 1 && cells != [""]
    ensures Finish(ScanState(cells[|cells| - 1], cells[..|cells| - 1], rows, false)) == rows + [cells]
  {
    SplitLast(cells);
  }

  lemma LinesOfOne(s: string)
    requires s != [] && '\n' !in s
    ensures FieldsOfLines(Lines(s)) == [SplitOn(s, ',')]
  {
    SplitOnNoSeparator(s, '\n');
    assert Lines(s) == [s];
  }

  lemma {:induction false} RowsFrom(s: string, rows: seq<seq<string>>)
    requires '"' !in s && '\r' !in s
    ensures Finish(Scan(s, ScanState("", [], rows, false))) == rows + FieldsOfLines(Lines(s))
    decreases |s|
  {
    if s == [] {
      assert FieldsOfLines([]) == [];
    } else if '\n' !in s {
      LastLineRow(s, rows);
    } else {
      var k := Text.IndexOf(s, '\n');
      var a, b := s[..k], s[k + 1..];
      SplitAtNewline(s, k);
      var row := SplitOn(a, ',');
      LineThenRest(a, b, rows);
      RowsFrom(b, rows + [row]);
      LinesCons(a, b);
      FieldsOfLinesCons(a, Lines(b));
      RowsAssoc(rows, row, FieldsOfLines(Lines(b)));
    }
  }

  lemma RowsAssoc(rows: seq<seq<string>>, row: seq<string>, more: seq<seq<string>>)
    ensures rows + [row] + more == rows + ([row] + more)
  {
  }

  /** Cutting quote-free, CR-free text at its first newline. */
  lemma SplitAtNewline(s: string, k: nat)
    requires '"' !in s && '\r' !in s
    requires k < |s| && s[k] == '\n' && '\n' !in s[..k]
    ensures s == s[..k] + "\n" + s[k + 1..]
    ensures '"' !in s[..k] && '\r' !in s[..k] && '\n' !in s[..k]
    ensures '"' !in s[k + 1..] && '\r' !in s[k + 1..]
  {
    assert forall c :: c in s[..k] ==> c in s;
    assert forall c :: c in s[k + 1..] ==> c in s;
  }

  lemma FieldsOfLinesCons(l: string, ls: seq<string>)
    ensures FieldsOfLines([l] + ls) == [SplitOn(l, ',')] + FieldsOfLines(ls)
  {
  }

  lemma {:induction false} DropCR(s: string, st: ScanState)
    requires '"' !in s && !st.inQuotes
    ensures Scan(s, st) == Scan(RemoveCR(s), st)
    decreases |s|
  {
    if s != [] {
      var t := RemoveCR(s[1..]);
      if s[0] == '\r' {
        DropCR(s[1..], st);
      } else {
        var next := if s[0] == ',' then st.(field := "", row := st.row + [st.field])
          else if s[0] == '\n' then ScanState("", [], st.rows + [st.row + [st.field]], false)
          else st.(field := st.field + [s[0]]);
        assert Scan(s, st) == Scan(s[1..], next);
        DropCR(s[1..], next);
        assert ([s[0]] + t)[0] == s[0] && ([s[0]] + t)[1..] == t;
      }
    }
  }

  /**
   * Text without quotes reads as its lines (carriage returns removed, split at
   * newlines, no empty row for a final newline, a last unterminated line kept),
   * each split at commas.
   */
  lemma QuoteFreeRows(text: string)
    requires '"' !in text
    ensures Rows(text) == FieldsOfLines(Lines(RemoveCR(text)))
  {
    DropCR(text, Start);
    var t := RemoveCR(text);
    RowsFrom(t, []);
    assert [] + FieldsOfLines(Lines(t)) == FieldsOfLines(Lines(t));
  }
}
