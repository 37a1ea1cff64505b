/** Reading one employee data file: the text is cut into a header line and
    data rows (`read_csv`), and every row as wide as the header becomes a
    record keyed by the normalised column names (`parse_csv_to_dicts`). */
module Csv {
  import opened Wrappers
  import opened Strings
  import opened Numbers

  /** A record cell: a number in the numeric columns, the raw text elsewhere. */
  datatype Value = Num(n: real) | Str(s: string)

  /** An employee record: column name to cell. */
  type Record = map<string, Value>

  /** The header line and the non-empty data lines, each cut at every ','. */
  datatype Table = Table(headers: seq<string>, rows: seq<seq<string>>)

  /** Column spellings that all mean the hourly rate. */
  predicate IsRateAlias(h: string) {
    h == "hourly_rate" || h == "rate" || h == "salary"
  }

  /** Columns whose cells are read as numbers. */
  predicate IsNumericField(k: string) {
    k == "hours_worked" || k == "hourly_rate"
  }

  /** The canonical name of a column. */
  function NormalizeHeader(h: string): (r: string)
    ensures r == "hourly_rate" <==> IsRateAlias(h)
    ensures !IsRateAlias(h) ==> r == h
  {
    if IsRateAlias(h) then "hourly_rate" else h
  }

  /** Normalising an already normalised name changes nothing. */
  lemma NormalizeIdempotent(h: string)
    ensures NormalizeHeader(NormalizeHeader(h)) == NormalizeHeader(h)
  {
  }

  function NormalizeHeaders(hs: seq<string>): (keys: seq<string>)
    ensures |keys| == |hs|
    ensures forall i :: 0 <= i < |hs| ==> keys[i] == NormalizeHeader(hs[i])
  {
    seq(|hs|, i requires 0 <= i < |hs| => NormalizeHeader(hs[i]))
  }

  /** The data rows: every non-empty line after the header, cut at ','. */
  function DataRows(lines: seq<string>): (rows: seq<seq<string>>)
    ensures |rows| <= |lines|
    ensures rows == [] <==> forall i :: 0 <= i < |lines| ==> lines[i] == ""
  {
    if |lines| == 0 then []
    else (if lines[0] == "" then [] else [Split(lines[0], ',')]) + DataRows(lines[1..])
  }

  /** `read_csv` on the file's text. */
  function ReadTable(content: string): (t: Table)
    ensures |t.headers| >= 1
  {
    var lines := Split(Strip(content), '\n');
    // `if not content`: a split always has a piece, so this is never taken
    if |lines| == 0 then Table([], [])
    else Table(Split(lines[0], ','), DataRows(lines[1..]))
  }

  /** The cell stored for `raw` under column `key`: numeric columns hold
      the number read, or 0 when it does not read; others hold the text. */
  function Cell(key: string, raw: string): (v: Value)
    ensures IsNumericField(key) ==> v.Num?
    ensures IsNumericField(key) && ParseFloat(raw).Some? ==> v.n == ParseFloat(raw).value
    ensures IsNumericField(key) && ParseFloat(raw).None? ==> v.n == 0.0
    ensures !IsNumericField(key) ==> v == Str(raw)
  {
    if IsNumericField(key) then Num(ParseFloat(raw).GetOr(0.0)) else Str(raw)
  }

  /** No later position repeats the key at position `i`. */
  predicate IsLastOccurrence(keys: seq<string>, i: int)
    requires 0 <= i < |keys|
  {
    forall j :: i < j < |keys| ==> keys[j] != keys[i]
  }

  /** The record of one row, filled left to right. */
  function BuildRecord(keys: seq<string>, row: seq<string>): (rec: Record)
    requires |keys| == |row|
    ensures forall k :: k in rec <==> k in keys
  {
    if |keys| == 0 then map[]
    else
      var n := |keys| - 1;
      assert keys == keys[..n] + [keys[n]];
      BuildRecord(keys[..n], row[..n])[keys[n] := Cell(keys[n], row[n])]
  }

  /** Each key of a record holds the cell of the LAST column with that
      name: of two columns normalised to the same name, the later wins. */
  lemma BuildRecordCells(keys: seq<string>, row: seq<string>)
    requires |keys| == |row|
    ensures forall i :: 0 <= i < |keys| && IsLastOccurrence(keys, i) ==>
              BuildRecord(keys, row)[keys[i]] == Cell(keys[i], row[i])
  {
    forall i | 0 <= i < |keys| && IsLastOccurrence(keys, i)
      ensures BuildRecord(keys, row)[keys[i]] == Cell(keys[i], row[i])
    {
      BuildRecordCell(keys, row, i);
    }
  }

  lemma {:induction false} BuildRecordCell(keys: seq<string>, row: seq<string>, i: nat)
    requires |keys| == |row| && i < |keys| && IsLastOccurrence(keys, i)
    ensures keys[i] in BuildRecord(keys, row)
    ensures BuildRecord(keys, row)[keys[i]] == Cell(keys[i], row[i])
  {
    var n := |keys| - 1;
    assert BuildRecord(keys, row) == BuildRecord(keys[..n], row[..n])[keys[n] := Cell(keys[n], row[n])];
    if i < n {
      assert keys[i] != keys[n];
      assert keys[..n][i] == keys[i] && row[..n][i] == row[i];
      assert IsLastOccurrence(keys[..n], i);
      BuildRecordCell(keys[..n], row[..n], i);
    }
  }

  /** The cells of a record agree with the types of their columns. */
  predicate WellFormed(rec: Record) {
    forall k :: k in rec ==> (rec[k].Num? <==> IsNumericField(k))
  }

  lemma {:induction false} BuildRecordWellFormed(keys: seq<string>, row: seq<string>)
    requires |keys| == |row|
    ensures WellFormed(BuildRecord(keys, row))
  {
    if |keys| > 0 {
      var n := |keys| - 1;
      BuildRecordWellFormed(keys[..n], row[..n]);
    }
  }

  /** The records of the rows exactly as wide as the header, in order. */
  function RowsToRecords(keys: seq<string>, rows: seq<seq<string>>): (recs: seq<Record>)
    ensures |recs| <= |rows|
  {
    if |rows| == 0 then []
    else
      (if |rows[0]| == |keys| then [BuildRecord(keys, rows[0])] else [])
      + RowsToRecords(keys, rows[1..])
  }

  /** The record-building half of `parse_csv_to_dicts`. */
  function ToRecords(t: Table): seq<Record> {
    if |t.headers| == 0 || |t.rows| == 0 then []
    else RowsToRecords(NormalizeHeaders(t.headers), t.rows)
  }

  /** `parse_csv_to_dicts` on the file's text. */
  function ParseRecords(content: string): seq<Record> {
    ToRecords(ReadTable(content))
  }

  /** The lines of the stripped text; the first is the header line. */
  function Lines(content: string): (lines: seq<string>)
    ensures |lines| >= 1
  {
    Split(Strip(content), '\n')
  }

  /** The record keys a file's header line yields. */
  function Keys(content: string): seq<string> {
    NormalizeHeaders(Split(Lines(content)[0], ','))
  }

  /** A data line yields a record: it is non-empty and has as many
      comma-separated fields as there are columns. */
  predicate Accepted(line: string, width: nat) {
    line != "" && |Split(line, ',')| == width
  }

  /** The accepted lines, in file order. */
  function AcceptedLines(lines: seq<string>, width: nat): (acc: seq<string>)
    ensures |acc| <= |lines|
    ensures forall k :: 0 <= k < |acc| ==> Accepted(acc[k], width)
  {
    if |lines| == 0 then []
    else (if Accepted(lines[0], width) then [lines[0]] else []) + AcceptedLines(lines[1..], width)
  }

  /** The record of each accepted line, in order. */
  function RecordsOf(keys: seq<string>, acc: seq<string>): (recs: seq<Record>)
    requires forall k :: 0 <= k < |acc| ==> Accepted(acc[k], |keys|)
    ensures |recs| == |acc|
  {
    if |acc| == 0 then []
    else
      assert Accepted(acc[0], |keys|);
      [BuildRecord(keys, Split(acc[0], ','))] + RecordsOf(keys, acc[1..])
  }

  lemma {:induction false} RecordsOfAt(keys: seq<string>, acc: seq<string>, k: nat)
    requires forall k :: 0 <= k < |acc| ==> Accepted(acc[k], |keys|)
    requires k < |acc|
    ensures |Split(acc[k], ',')| == |keys|
    ensures RecordsOf(keys, acc)[k] == BuildRecord(keys, Split(acc[k], ','))
  {
    assert Accepted(acc[k], |keys|);
    if k > 0 {
      RecordsOfAt(keys, acc[1..], k - 1);
    }
  }

  lemma RowsToRecordsCons(keys: seq<string>, row: seq<string>, rows: seq<seq<string>>)
    ensures RowsToRecords(keys, [row] + rows) ==
      (if |row| == |keys| then [BuildRecord(keys, row)] else []) + RowsToRecords(keys, rows)
  {
    assert ([row] + rows)[1..] == rows;
  }

  lemma {:induction false} RowsToRecordsByLine(keys: seq<string>, lines: seq<string>)
    ensures RowsToRecords(keys, DataRows(lines)) == RecordsOf(keys, AcceptedLines(lines, |keys|))
  {
    if |lines| > 0 {
      var rest := lines[1..];
      RowsToRecordsByLine(keys, rest);
      if lines[0] == "" {
        assert DataRows(lines) == DataRows(rest);
        assert AcceptedLines(lines, |keys|) == AcceptedLines(rest, |keys|);
      } else {
        var row := Split(lines[0], ',');
        assert DataRows(lines) == [row] + DataRows(rest);
        RowsToRecordsCons(keys, row, DataRows(rest));
        if Accepted(lines[0], |keys|) {
          var acc := AcceptedLines(lines, |keys|);
          assert acc == [lines[0]] + AcceptedLines(rest, |keys|);
          assert acc[1..] == AcceptedLines(rest, |keys|);
        } else {
          assert AcceptedLines(lines, |keys|) == AcceptedLines(rest, |keys|);
        }
      }
    }
  }

  /** Exactly one record for each accepted data line, in file order; every
      other line (blank, too narrow, too wide) yields nothing. */
  lemma ParseRecordsByLine(content: string)
    ensures var acc := AcceptedLines(Lines(content)[1..], |Keys(content)|);
      var recs := ParseRecords(content);
      && |recs| == |acc|
      && forall k :: 0 <= k < |acc| ==>
           (|Split(acc[k], ',')| == |Keys(content)| &&
            recs[k] == BuildRecord(Keys(content), Split(acc[k], ',')))
  {
    var lines := Lines(content);
    var t := ReadTable(content);
    var acc := AcceptedLines(lines[1..], |Keys(content)|);
    RowsToRecordsByLine(Keys(content), lines[1..]);
    if |t.rows| == 0 {
      AcceptedNone(lines[1..], |Keys(content)|);
    }
    forall k | 0 <= k < |acc|
      ensures |Split(acc[k], ',')| == |Keys(content)|
      ensures ParseRecords(content)[k] == BuildRecord(Keys(content), Split(acc[k], ','))
    {
      RecordsOfAt(Keys(content), acc, k);
    }
  }

  lemma {:induction false} AcceptedNone(lines: seq<string>, width: nat)
    requires forall i :: 0 <= i < |lines| ==> lines[i] == ""
    ensures AcceptedLines(lines, width) == []
  {
    if |lines| > 0 {
      AcceptedNone(lines[1..], width);
    }
  }

  /** Text with at most a header line (in particular empty or blank text)
      yields no records. */
  lemma ParseRecordsHeaderOnly(content: string)
    requires '\n' !in Strip(content)
    ensures ParseRecords(content) == []
  {
    SplitNoSep(Strip(content), '\n');
  }

  /** Empty or blank text reads as a single empty header and no rows. */
  lemma ReadTableBlank(content: string)
    requires AllSpace(content)
    ensures ReadTable(content) == Table([""], [])
    ensures ParseRecords(content) == []
  {
    assert Strip(content) == "";
    assert Split("", '\n') == [""];
  }

  /** Every record of a file has the columns of its header line as keys,
      never a rate alias other than the canonical one, and cells of the
      right kind. */
  lemma {:induction false} ParseRecordsShape(content: string)
    ensures forall rec :: rec in ParseRecords(content) ==>
      && WellFormed(rec)
      && (forall k :: k in rec <==> k in Keys(content))
      && "rate" !in rec && "salary" !in rec
  {
    var keys := Keys(content);
    var lines := Lines(content);
    ParseRecordsByLine(content);
    var acc := AcceptedLines(lines[1..], |keys|);
    var recs := ParseRecords(content);
    assert "rate" !in keys && "salary" !in keys by {
      assert forall i :: 0 <= i < |keys| ==> keys[i] != "rate" && keys[i] != "salary";
    }
    forall rec | rec in recs
      ensures WellFormed(rec) && (forall k :: k in rec <==> k in keys)
    {
      var k :| 0 <= k < |recs| && recs[k] == rec;
      BuildRecordWellFormed(keys, Split(acc[k], ','));
    }
  }

  /** No text cell of `rec` holds `c`. */
  predicate CellsAvoid(rec: Record, c: char) {
    forall k :: k in rec && rec[k].Str? ==> c !in rec[k].s
  }

  lemma {:induction false} BuildRecordAvoids(keys: seq<string>, row: seq<string>, c: char)
    requires |keys| == |row|
    requires forall i :: 0 <= i < |row| ==> c !in row[i]
    ensures CellsAvoid(BuildRecord(keys, row), c)
  {
    if |keys| > 0 {
      var n := |keys| - 1;
      BuildRecordAvoids(keys[..n], row[..n], c);
    }
  }

  lemma {:induction false} AcceptedFrom(lines: seq<string>, width: nat)
    ensures forall k :: 0 <= k < |AcceptedLines(lines, width)| ==> AcceptedLines(lines, width)[k] in lines
  {
    if |lines| > 0 {
      AcceptedFrom(lines[1..], width);
      var acc := AcceptedLines(lines, width);
      var rest := AcceptedLines(lines[1..], width);
      forall k | 0 <= k < |acc| ensures acc[k] in lines {
        if Accepted(lines[0], width) && k > 0 {
          assert acc[k] == rest[k - 1];
        } else if !Accepted(lines[0], width) {
          assert acc[k] == rest[k];
        }
      }
    }
  }

  /** A cell never spans lines: no text cell of a parsed record holds a
      line break. */
  lemma ParseRecordsBreakless(content: string)
    ensures forall rec :: rec in ParseRecords(content) ==> CellsAvoid(rec, '\n')
  {
    var keys := Keys(content);
    var lines := Lines(content);
    ParseRecordsByLine(content);
    var acc := AcceptedLines(lines[1..], |keys|);
    var recs := ParseRecords(content);
    AcceptedFrom(lines[1..], |keys|);
    forall rec | rec in recs ensures CellsAvoid(rec, '\n') {
      var k :| 0 <= k < |recs| && recs[k] == rec;
      assert acc[k] in lines;
      var j :| 0 <= j < |lines| && lines[j] == acc[k];
      SplitAvoids(acc[k], ',', '\n');
      BuildRecordAvoids(keys, Split(acc[k], ','), '\n');
    }
  }
}
