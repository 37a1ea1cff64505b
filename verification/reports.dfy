/** The program around the report: the registry of report kinds
    (`get_report_generator`), reading and merging every input file, and
    `main`'s outcome — exit code and printed text. A file is given by its
    path and, when it exists, its text. */
module Reports {
  import opened Wrappers
  import opened Strings
  import opened Csv
  import opened Payout
  import opened PayoutProperties
  import opened Render

  /** The report kinds the registry knows. */
  datatype Generator = PayoutGenerator

  /** `report_generators`: report name to generator. */
  const Generators: map<string, Generator> := map["payout" := PayoutGenerator]

  /** `get_report_generator(report_type)`: the registered generator, or the
      `ValueError` message for an unknown name. */
  function GetReportGenerator(reportType: string): (r: Result<Generator, string>)
    ensures r.Success? <==> reportType in Generators
    ensures r.Success? ==> r.value == Generators[reportType]
    ensures r.Failure? ==> r.error == "Unknown report type: " + reportType
  {
    if reportType !in Generators then Failure("Unknown report type: " + reportType)
    else Success(Generators[reportType])
  }

  /** Only "payout" is a report type, and it selects the payout report. */
  lemma GetReportGeneratorPayout(reportType: string)
    ensures GetReportGenerator(reportType).Success? <==> reportType == "payout"
    ensures reportType == "payout" ==> GetReportGenerator(reportType) == Success(PayoutGenerator)
  {
  }

  /** Running a generator on the merged records. */
  function RunGenerator(g: Generator, rs: seq<Record>): string
    requires forall i :: 0 <= i < |rs| ==> WellFormed(rs[i])
  {
    match g
    case PayoutGenerator => GeneratePayoutReport(rs)
  }

  /** `f` applied to every element, in order. */
  function MapSeq<A, B>(f: A -> B, xs: seq<A>): (ys: seq<B>)
    ensures |ys| == |xs|
    ensures forall i :: 0 <= i < |xs| ==> ys[i] == f(xs[i])
  {
    if |xs| == 0 then [] else [f(xs[0])] + MapSeq(f, xs[1..])
  }

  lemma {:induction false} MapSeqAppend<A, B>(f: A -> B, a: seq<A>, b: seq<A>)
    ensures MapSeq(f, a + b) == MapSeq(f, a) + MapSeq(f, b)
  {
    if |a| > 0 {
      MapSeqAppend(f, a[1..], b);
      assert (a + b)[1..] == a[1..] + b;
      assert (a + b)[0] == a[0];
    } else {
      assert a + b == b;
    }
  }

  /** The records of every file, one list per file, in the order given. */
  function ParseAll(contents: seq<string>): (batches: seq<seq<Record>>)
    ensures |batches| == |contents|
    ensures forall f :: 0 <= f < |contents| ==> batches[f] == ParseRecords(contents[f])
  {
    MapSeq(ParseRecords, contents)
  }

  /** The lists appended one after the other (`all_employees.extend`). */
  function Flatten(batches: seq<seq<Record>>): seq<Record> {
    if |batches| == 0 then [] else Flatten(batches[..|batches| - 1]) + batches[|batches| - 1]
  }

  /** The records of all files, file by file in the order given. */
  function MergeRecords(contents: seq<string>): seq<Record> {
    Flatten(ParseAll(contents))
  }

  /** Flattening two runs of lists is flattening each and concatenating. */
  lemma {:induction false} FlattenAppend(a: seq<seq<Record>>, b: seq<seq<Record>>)
    ensures Flatten(a + b) == Flatten(a) + Flatten(b)
  {
    if |b| > 0 {
      var n := |b| - 1;
      FlattenAppend(a, b[..n]);
      assert (a + b)[..|a| + n] == a + b[..n];
    } else {
      assert a + b == a;
    }
  }

  /** Every element of a flattened list comes from one of the lists, and
      every element of every list is kept. */
  lemma {:induction false} FlattenMembers(batches: seq<seq<Record>>)
    ensures forall rec :: rec in Flatten(batches) <==>
      exists f :: 0 <= f < |batches| && rec in batches[f]
  {
    if |batches| > 0 {
      var n := |batches| - 1;
      FlattenMembers(batches[..n]);
      forall rec ensures rec in Flatten(batches) <==> exists f :: 0 <= f < |batches| && rec in batches[f] {
        if rec in Flatten(batches[..n]) {
          var f :| 0 <= f < n && rec in batches[..n][f];
          assert batches[..n][f] == batches[f];
        }
        if exists f :: 0 <= f < |batches| && rec in batches[f] {
          var f :| 0 <= f < |batches| && rec in batches[f];
          if f < n {
            assert batches[..n][f] == batches[f];
          }
        }
      }
    }
  }

  /** Merging two batches of files is merging each and concatenating. */
  lemma MergeRecordsAppend(a: seq<string>, b: seq<string>)
    ensures MergeRecords(a + b) == MergeRecords(a) + MergeRecords(b)
  {
    MapSeqAppend(ParseRecords, a, b);
    FlattenAppend(ParseAll(a), ParseAll(b));
  }

  /** A record is merged exactly when it is a record of one of the files. */
  lemma MergeRecordsMembers(contents: seq<string>)
    ensures forall rec :: rec in MergeRecords(contents) <==>
      exists f :: 0 <= f < |contents| && rec in ParseRecords(contents[f])
  {
    FlattenMembers(ParseAll(contents));
  }

  /** Merged records have the parser's shape and no line break in a cell. */
  lemma MergeRecordsClean(contents: seq<string>)
    ensures var rs := MergeRecords(contents);
      forall i :: 0 <= i < |rs| ==> WellFormed(rs[i]) && CellsAvoid(rs[i], '\n')
  {
    var rs := MergeRecords(contents);
    MergeRecordsMembers(contents);
    forall i | 0 <= i < |rs| ensures WellFormed(rs[i]) && CellsAvoid(rs[i], '\n') {
      assert rs[i] in rs;
      var f :| 0 <= f < |contents| && rs[i] in ParseRecords(contents[f]);
      ParseRecordsShape(contents[f]);
      ParseRecordsBreakless(contents[f]);
    }
  }

  /** The number of records in all lists. */
  function Size(batches: seq<seq<Record>>): nat {
    if |batches| == 0 then 0 else Size(batches[..|batches| - 1]) + |batches[|batches| - 1]|
  }

  lemma {:induction false} FlattenSize(batches: seq<seq<Record>>)
    ensures |Flatten(batches)| == Size(batches)
  {
    if |batches| > 0 {
      FlattenSize(batches[..|batches| - 1]);
    }
  }

  /** An input file: its path and, when it is an existing file, its text. */
  datatype InputFile = InputFile(path: string, content: Option<string>)

  /** What `main` leaves behind: its return value and everything printed. */
  datatype Outcome = Outcome(exitCode: int, output: string)

  /** Index of the first missing file, if any. */
  function FirstMissing(files: seq<InputFile>): (r: Option<nat>)
    ensures r.Some? ==> (r.value < |files| && files[r.value].content.None?
                         && forall j :: 0 <= j < r.value ==> files[j].content.Some?)
    ensures r.None? ==> forall j :: 0 <= j < |files| ==> files[j].content.Some?
  {
    if |files| == 0 then None
    else if files[0].content.None? then Some(0)
    else
      var rest := FirstMissing(files[1..]);
      if rest.None? then None else Some(rest.value + 1)
  }

  function Contents(files: seq<InputFile>): (cs: seq<string>)
    requires forall j :: 0 <= j < |files| ==> files[j].content.Some?
    ensures |cs| == |files|
    ensures forall j :: 0 <= j < |files| ==> cs[j] == files[j].content.value
  {
    seq(|files|, j requires 0 <= j < |files| => files[j].content.value)
  }

  /** `main()` after argument parsing: stop at the first missing file,
      otherwise merge all records and print the requested report, or the
      error for an unknown report type. `print` adds a line break. */
  function Main(files: seq<InputFile>, reportType: string): (o: Outcome)
    ensures o.exitCode == 0 || o.exitCode == 1
    ensures |o.output| > 0 && o.output[|o.output| - 1] == '\n'
  {
    var missing := FirstMissing(files);
    if missing.Some? then
      Outcome(1, "Error: File not found: " + files[missing.value].path + "\n")
    else
      var rs := MergeRecords(Contents(files));
      var generator := GetReportGenerator(reportType);
      if generator.Failure? then Outcome(1, "Error: " + generator.error + "\n")
      else
        MergeRecordsClean(Contents(files));
        Outcome(0, RunGenerator(generator.value, rs) + "\n")
  }

  /** A missing file stops the program before anything is read, naming the
      first missing file, whatever the report type. */
  lemma MainMissingFile(files: seq<InputFile>, reportType: string, k: nat)
    requires k < |files| && files[k].content.None?
    requires forall j :: 0 <= j < k ==> files[j].content.Some?
    ensures Main(files, reportType) == Outcome(1, "Error: File not found: " + files[k].path + "\n")
  {
    var m := FirstMissing(files);
    assert m.Some?;
    assert !(k < m.value) && !(m.value < k);
  }

  lemma UnknownReportText(reportType: string)
    ensures "Error: " + ("Unknown report type: " + reportType) + "\n"
         == "Error: Unknown report type: " + reportType + "\n"
  {
    assert "Error: " + "Unknown report type: " == "Error: Unknown report type: ";
  }

  /** With every file present, an unknown report type fails with its
      message and exit code 1. */
  lemma MainUnknownReport(files: seq<InputFile>, reportType: string)
    requires forall j :: 0 <= j < |files| ==> files[j].content.Some?
    requires reportType != "payout"
    ensures Main(files, reportType) == Outcome(1, "Error: Unknown report type: " + reportType + "\n")
  {
    assert FirstMissing(files).None?;
    assert GetReportGenerator(reportType) == Failure("Unknown report type: " + reportType);
    UnknownReportText(reportType);
  }

  /** With every file present and "payout" requested, the program prints
      the payout report on the records of all files, in file order, and
      exits with 0. */
  lemma MainPayout(files: seq<InputFile>)
    requires forall j :: 0 <= j < |files| ==> files[j].content.Some?
    ensures var rs := MergeRecords(Contents(files));
      && (forall i :: 0 <= i < |rs| ==> WellFormed(rs[i]))
      && Main(files, "payout") == Outcome(0, GeneratePayoutReport(rs) + "\n")
  {
    assert FirstMissing(files).None?;
    assert GetReportGenerator("payout") == Success(PayoutGenerator);
    MergeRecordsClean(Contents(files));
  }

  /** No data lines in any file: the program prints only the sentinel. */
  lemma MainNoData(files: seq<InputFile>)
    requires forall j :: 0 <= j < |files| ==> files[j].content.Some?
    requires Size(ParseAll(Contents(files))) == 0
    ensures Main(files, "payout") == Outcome(0, "No data available for report.\n")
  {
    var rs := MergeRecords(Contents(files));
    FlattenSize(ParseAll(Contents(files)));
    assert rs == [];
    MainPayout(files);
    GeneratePayoutReportEmpty();
    NoDataText();
  }

  lemma NoDataText()
    ensures "No data available for report." + "\n" == "No data available for report.\n"
  {
  }

  /** With data, the printed payout report has 4 + 2·D + N rows before the
      closing line break, N being the merged records and D their departments. */
  lemma MainPayoutRows(files: seq<InputFile>)
    requires forall j :: 0 <= j < |files| ==> files[j].content.Some?
    requires Size(ParseAll(Contents(files))) > 0
    ensures var rs := MergeRecords(Contents(files));
      var out := Main(files, "payout").output;
      |Split(out[..|out| - 1], '\n')| == 4 + 2 * |DeptSet(rs)| + |rs|
  {
    var rs := MergeRecords(Contents(files));
    var out := Main(files, "payout").output;
    FlattenSize(ParseAll(Contents(files)));
    MergeRecordsClean(Contents(files));
    MainPayout(files);
    assert out[..|out| - 1] == GeneratePayoutReport(rs);
    PrintedReportRows(rs);
  }
}
