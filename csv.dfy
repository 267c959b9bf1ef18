/**
 * `parseCSV` (App.jsx:22-43): a single forward scan that splits the catalog
 * feed into rows of fields, followed by the step that turns the first row into
 * header keys and every later non-blank row into a key-to-value record.
 *
 * The scan is specified by `Scan`, a function that consumes the remaining input
 * one step at a time from an explicit scanner state; `ParseCsv` is the loop
 * itself and is proved to compute `Records(Rows(text))`.
 *
 * The source compares characters with the literals '\\n' and '\\r' (a backslash
 * doubled), which read literally are two-character strings no character ever
 * equals. This model follows the evident intent, a newline and a carriage
 * return, as the handling of CRLF line endings and the footer's advice to
 * publish a spreadsheet as CSV both require.
 */
module Csv {
  import Text

  /** A data row keyed by header name. */
  type Record = map<string, string>

  /** The scanner's variables: `field`, `row`, `rows` and `inQuotes`. */
  datatype ScanState = ScanState(field: string, row: seq<string>, rows: seq<seq<string>>, inQuotes: bool)

  const Start := ScanState("", [], [], false)

  /**
   * The scan of the remaining input `s` from state `st`. Inside quotes a quote
   * either starts an escaped `""` or ends the quoted part; outside quotes a quote
   * opens one, a comma ends the field, a newline ends the field and the row, and
   * a carriage return is dropped. Every other character is kept. Rows are only
   * ever appended to.
   */
  function Scan(s: string, st: ScanState): (r: ScanState)
    ensures st.rows <= r.rows
    decreases |s|
  {
    if s == [] then st
    else if st.inQuotes then
      if s[0] == '"' then
        if |s| > 1 && s[1] == '"' then Scan(s[2..], st.(field := st.field + ['"']))
        else Scan(s[1..], st.(inQuotes := false))
      else Scan(s[1..], st.(field := st.field + [s[0]]))
    else if s[0] == '"' then Scan(s[1..], st.(inQuotes := true))
    else if s[0] == ',' then Scan(s[1..], st.(field := "", row := st.row + [st.field]))
    else if s[0] == '\n' then Scan(s[1..], ScanState("", [], st.rows + [st.row + [st.field]], false))
    else if s[0] == '\r' then Scan(s[1..], st)
    else Scan(s[1..], st.(field := st.field + [s[0]]))
  }

  /** At the end of the input a pending field or row is emitted. */
  function Finish(st: ScanState): seq<seq<string>>
  {
    if |st.field| > 0 || |st.row| > 0 then st.rows + [st.row + [st.field]] else st.rows
  }

  /** The rows the scan produces for the whole text. */
  function Rows(text: string): seq<seq<string>>
  {
    Finish(Scan(text, Start))
  }

  /**
   * Header cells become trimmed, lower-cased keys: each key is in lower case and
   * has no white space at either end.
   */
  function HeaderKeys(cells: seq<string>): (keys: seq<string>)
    ensures |keys| == |cells|
    ensures forall i :: 0 <= i < |cells| ==> keys[i] == Text.Lower(Text.Trim(cells[i]))
    ensures forall i, j :: 0 <= i < |cells| && 0 <= j < |keys[i]| ==> !Text.IsCapital(keys[i][j])
    ensures forall i :: 0 <= i < |cells| ==> keys[i] == [] || (!Text.IsSpace(keys[i][0]) && !Text.IsSpace(keys[i][|keys[i]| - 1]))
  {
    seq(|cells|, i requires 0 <= i < |cells| => Text.Lower(Text.Trim(cells[i])))
  }

  /** A header cell with white space around a piece reads as the lower-cased piece. */
  lemma HeaderKeyOfPadded(cells: seq<string>, i: nat, a: string, m: string, b: string)
    requires i < |cells| && cells[i] == a + m + b
    requires Text.AllSpace(a) && Text.AllSpace(b)
    requires m == [] || (!Text.IsSpace(m[0]) && !Text.IsSpace(m[|m| - 1]))
    ensures HeaderKeys(cells)[i] == Text.Lower(m)
  {
    Text.TrimOfPadded(a, m, b);
  }

  /** A row is dropped unless some cell, trimmed, is non-empty; checked cell by cell. */
  predicate IsBlankRow(cells: seq<string>)
    decreases |cells|
  {
    cells == [] || (Text.Trim(cells[0]) == "" && IsBlankRow(cells[1..]))
  }

  /** A row is blank exactly when no cell has anything but white space. */
  lemma {:induction false} IsBlankRowIff(cells: seq<string>)
    ensures IsBlankRow(cells) <==> forall i :: 0 <= i < |cells| ==> Text.Trim(cells[i]) == ""
    decreases |cells|
  {
    if cells != [] {
      var tail := cells[1..];
      IsBlankRowIff(tail);
      assert forall i :: 0 < i < |cells| ==> cells[i] == tail[i - 1];
    }
  }

  /** The trimmed cell at index `i`, or "" when the row is shorter (App.jsx:42). */
  function Cell(cells: seq<string>, i: nat): string
  {
    if i < |cells| then Text.Trim(cells[i]) else ""
  }

  /** Index `j` holds the last occurrence of its key in `keys`. */
  predicate LastOccurrence(keys: seq<string>, j: nat)
  {
    j < |keys| && forall j' :: j < j' < |keys| ==> keys[j'] != keys[j]
  }

  /**
   * `Object.fromEntries` of the pairs (keys[i], values[i]): entries are added
   * from left to right, so a repeated key keeps the value of its last occurrence.
   */
  function FromEntries<V>(keys: seq<string>, values: seq<V>): map<string, V>
    requires |keys| == |values|
    decreases |keys|
  {
    if keys == [] then map[]
    else
      var n := |keys| - 1;
      FromEntries(keys[..n], values[..n])[keys[n] := values[n]]
  }

  /** The record has exactly the header's keys. */
  lemma {:induction false} FromEntriesKeys<V>(keys: seq<string>, values: seq<V>)
    requires |keys| == |values|
    ensures FromEntries(keys, values).Keys == set k | k in keys
    decreases |keys|
  {
    if keys != [] {
      var n := |keys| - 1;
      FromEntriesKeys(keys[..n], values[..n]);
      assert forall k :: k in keys <==> k in keys[..n] || k == keys[n];
    }
  }

  /** The key at index `j`, if no later key repeats it, maps to the value at index `j`. */
  lemma {:induction false} FromEntriesValue<V>(keys: seq<string>, values: seq<V>, j: nat)
    requires |keys| == |values| && LastOccurrence(keys, j)
    ensures keys[j] in FromEntries(keys, values) && FromEntries(keys, values)[keys[j]] == values[j]
    decreases |keys|
  {
    var n := |keys| - 1;
    if j < n {
      var front := keys[..n];
      assert keys[n] != keys[j];
      assert LastOccurrence(front, j) by {
        forall j' | j < j' < |front| ensures front[j'] != front[j] {
          assert front[j'] == keys[j'] && front[j] == keys[j];
        }
      }
      FromEntriesValue(front, values[..n], j);
    }
  }

  /**
   * The record of one data row: each header key maps to the trimmed cell at its
   * index, "" past the end of the row; cells beyond the header are ignored.
   */
  function BuildRecord(keys: seq<string>, cells: seq<string>): Record
  {
    FromEntries(keys, seq(|keys|, i requires 0 <= i < |keys| => Cell(cells, i)))
  }

  /** A record has exactly the header's keys, however long its row. */
  lemma BuildRecordKeys(keys: seq<string>, cells: seq<string>)
    ensures BuildRecord(keys, cells).Keys == set k | k in keys
  {
    FromEntriesKeys(keys, seq(|keys|, i requires 0 <= i < |keys| => Cell(cells, i)));
  }

  lemma BuildRecordValue(keys: seq<string>, cells: seq<string>, j: nat)
    requires LastOccurrence(keys, j)
    ensures keys[j] in BuildRecord(keys, cells) && BuildRecord(keys, cells)[keys[j]] == Cell(cells, j)
  {
    FromEntriesValue(keys, seq(|keys|, i requires 0 <= i < |keys| => Cell(cells, i)), j);
  }

  /**
   * The records of the data rows: blank rows are dropped, the others become
   * records in order.
   */
  function DataRecords(keys: seq<string>, rows: seq<seq<string>>): (r: seq<Record>)
    ensures |r| <= |rows|
    decreases |rows|
  {
    if rows == [] then []
    else
      var rest := DataRecords(keys, rows[1..]);
      if IsBlankRow(rows[0]) then rest else [BuildRecord(keys, rows[0])] + rest
  }

  /** Every record has the header's keys. */
  lemma {:induction false} DataRecordsKeys(keys: seq<string>, rows: seq<seq<string>>, i: nat)
    requires i < |DataRecords(keys, rows)|
    ensures DataRecords(keys, rows)[i].Keys == set k | k in keys
    decreases |rows|
  {
    DataRecordsCons(keys, rows);
    var rest := DataRecords(keys, rows[1..]);
    if IsBlankRow(rows[0]) {
      DataRecordsKeys(keys, rows[1..], i);
    } else if i == 0 {
      BuildRecordKeys(keys, rows[0]);
    } else {
      DataRecordsKeys(keys, rows[1..], i - 1);
      assert DataRecords(keys, rows)[i] == rest[i - 1];
    }
  }

  /** One step of record building. */
  lemma DataRecordsCons(keys: seq<string>, rows: seq<seq<string>>)
    requires rows != []
    ensures DataRecords(keys, rows)
      == if IsBlankRow(rows[0]) then DataRecords(keys, rows[1..])
         else [BuildRecord(keys, rows[0])] + DataRecords(keys, rows[1..])
  {
  }

  /** `parseCSV`'s result for already tokenized rows: the first row is the header. */
  function Records(rows: seq<seq<string>>): (r: seq<Record>)
    ensures rows == [] ==> r == []
    ensures rows != [] ==> |r| <= |rows| - 1
  {
    if rows == [] then [] else DataRecords(HeaderKeys(rows[0]), rows[1..])
  }

  /** When no data row is blank, the k-th record is built from the k-th data row. */
  lemma DataRecordsOfNonBlank(keys: seq<string>, rows: seq<seq<string>>)
    requires forall i :: 0 <= i < |rows| ==> !IsBlankRow(rows[i])
    ensures |DataRecords(keys, rows)| == |rows|
    ensures forall i :: 0 <= i < |rows| ==> DataRecords(keys, rows)[i] == BuildRecord(keys, rows[i])
  {
    NonBlankLength(keys, rows);
    forall i | 0 <= i < |rows| ensures DataRecords(keys, rows)[i] == BuildRecord(keys, rows[i]) {
      NonBlankAt(keys, rows, i);
    }
  }

  lemma {:induction false} NonBlankLength(keys: seq<string>, rows: seq<seq<string>>)
    requires forall i :: 0 <= i < |rows| ==> !IsBlankRow(rows[i])
    ensures |DataRecords(keys, rows)| == |rows|
    decreases |rows|
  {
    if rows != [] {
      var tail := rows[1..];
      assert !IsBlankRow(rows[0]);
      DataRecordsCons(keys, rows);
      assert forall i :: 0 <= i < |tail| ==> !IsBlankRow(tail[i]) by {
        forall i | 0 <= i < |tail| ensures !IsBlankRow(tail[i]) {
          assert tail[i] == rows[i + 1];
        }
      }
      NonBlankLength(keys, tail);
    }
  }

  lemma {:induction false} NonBlankAt(keys: seq<string>, rows: seq<seq<string>>, i: nat)
    requires forall i :: 0 <= i < |rows| ==> !IsBlankRow(rows[i])
    requires i < |rows|
    ensures i < |DataRecords(keys, rows)| && DataRecords(keys, rows)[i] == BuildRecord(keys, rows[i])
    decreases |rows|
  {
    var tail := rows[1..];
    assert !IsBlankRow(rows[0]);
    DataRecordsCons(keys, rows);
    NonBlankLength(keys, rows);
    if i > 0 {
      assert forall j :: 0 <= j < |tail| ==> !IsBlankRow(tail[j]) by {
        forall j | 0 <= j < |tail| ensures !IsBlankRow(tail[j]) {
          assert tail[j] == rows[j + 1];
        }
      }
      NonBlankAt(keys, tail, i - 1);
    }
  }

  /** Record building distributes over concatenation of the data rows. */
  lemma {:induction false} DataRecordsAppend(keys: seq<string>, a: seq<seq<string>>, b: seq<seq<string>>)
    ensures DataRecords(keys, a + b) == DataRecords(keys, a) + DataRecords(keys, b)
    decreases |a|
  {
    if a == [] {
      assert a + b == b;
    } else {
      assert (a + b)[0] == a[0] && (a + b)[1..] == a[1..] + b;
      DataRecordsAppend(keys, a[1..], b);
    }
  }

  /** A blank data row contributes no record, wherever it stands. */
  lemma BlankRowDropped(keys: seq<string>, rows: seq<seq<string>>, i: nat)
    requires i < |rows| && IsBlankRow(rows[i])
    ensures DataRecords(keys, rows) == DataRecords(keys, rows[..i] + rows[i + 1..])
  {
    assert rows == rows[..i] + ([rows[i]] + rows[i + 1..]);
    DataRecordsAppend(keys, rows[..i], [rows[i]] + rows[i + 1..]);
    DataRecordsAppend(keys, rows[..i], rows[i + 1..]);
    assert DataRecords(keys, [rows[i]] + rows[i + 1..]) == DataRecords(keys, rows[i + 1..]) by {
      assert ([rows[i]] + rows[i + 1..])[1..] == rows[i + 1..];
    }
  }

  /** Every data row yields a record exactly when no data row is blank. */
  lemma AllRowsKept(keys: seq<string>, rows: seq<seq<string>>)
    ensures |DataRecords(keys, rows)| == |rows| <==> forall i :: 0 <= i < |rows| ==> !IsBlankRow(rows[i])
  {
    if forall i :: 0 <= i < |rows| ==> !IsBlankRow(rows[i]) {
      DataRecordsOfNonBlank(keys, rows);
    } else {
      var i :| 0 <= i < |rows| && IsBlankRow(rows[i]);
      BlankRowDropped(keys, rows, i);
    }
  }

  /**
   * `parseCSV` itself: the scanning loop over index `i`, the final flush, then
   * `rows.shift()` for the header and the mapping of the remaining rows.
   */
  method ParseCsv(text: string) returns (records: seq<Record>)
    ensures records == Records(Rows(text))
  {
    var rows: seq<seq<string>> := [];
    var i := 0;
    var field: string := "";
    var row: seq<string> := [];
    var inQuotes := false;
    assert text[0..] == text;
    while i < |text|
      invariant 0 <= i <= |text|
      invariant Scan(text[i..], ScanState(field, row, rows, inQuotes)) == Scan(text, Start)
    {
      var c := text[i];
      assert text[i..][0] == c && text[i..][1..] == text[i + 1..];
      if inQuotes {
        if c == '"' {
          if i + 1 < |text| && text[i + 1] == '"' {
            assert text[i..][1] == '"' && text[i..][2..] == text[i + 2..];
            field := field + ['"'];
            i := i + 2;
            continue;
          }
          inQuotes := false;
          i := i + 1;
          continue;
        } else {
          field := field + [c];
          i := i + 1;
          continue;
        }
      } else {
        if c == '"' {
          inQuotes := true;
          i := i + 1;
          continue;
        }
        if c == ',' {
          row := row + [field];
          field := "";
          i := i + 1;
          continue;
        }
        if c == '\n' {
          row := row + [field];
          rows := rows + [row];
          row := [];
          field := "";
          i := i + 1;
          continue;
        }
        if c == '\r' {
          i := i + 1;
          continue;
        }
        field := field + [c];
        i := i + 1;
      }
    }
    assert text[i..] == [];
    if |field| > 0 || |row| > 0 {
      row := row + [field];
      rows := rows + [row];
    }
    assert rows == Rows(text);
    var keys: seq<string> := [];
    if |rows| > 0 {
      keys := HeaderKeys(rows[0]);
      rows := rows[1..];
    }
    records := DataRecords(keys, rows);
  }
}
