/** The text of the payout report: each report line formatted as
    `generate_payout_report` formats it, the lines joined with '\n'. */
module Render {
  import opened Strings
  import opened Numbers
  import opened Csv
  import opened Payout
  import opened PayoutProperties

  const NoDataText := "No data available for report."

  /** The text of one report line. Numbers are shown with `.0f` in fields
      of width 8 or 9 (wider when the number needs it); the total-hours
      line starts with a line break, leaving an empty row above it. */
  function RenderLine(line: Line): string {
    match line
    case NoData => NoDataText
    case Header =>
      PadRight("name", 30) + " " + PadLeft("hours", 8) + " " + PadLeft("rate", 8) + " " + PadLeft("payout", 10)
    case Dept(name) => name
    case Employee(name, hours, rate, payout) =>
      "-------------- " + PadRight(name, 20) + " " + PadLeft(Fixed0(hours), 8) + " "
      + PadLeft(Fixed0(rate), 8) + " $" + PadLeft(Fixed0(payout), 9)
    case Subtotal(hours, payout) =>
      PadRight(" ", 45) + " " + PadLeft(Fixed0(hours), 8) + " " + PadRight(" ", 8) + " $" + PadLeft(Fixed0(payout), 8)
    case TotalHours(hours) => "\nTotal hours: " + Fixed0(hours)
    case TotalPayout(payout) => "Total payout: $" + Fixed0(payout)
  }

  function RenderLines(lines: seq<Line>): (texts: seq<string>)
    ensures |texts| == |lines|
    ensures forall i :: 0 <= i < |lines| ==> texts[i] == RenderLine(lines[i])
  {
    seq(|lines|, i requires 0 <= i < |lines| => RenderLine(lines[i]))
  }

  /** `"\n".join(report_lines)`. */
  function Text(lines: seq<Line>): string {
    Join(RenderLines(lines), '\n')
  }

  /** `generate_payout_report(employees_data)`. */
  function GeneratePayoutReport(rs: seq<Record>): string
    requires forall i :: 0 <= i < |rs| ==> WellFormed(rs[i])
  {
    Text(PayoutReport(rs))
  }

  /** No records: the report is the sentinel sentence alone. */
  lemma GeneratePayoutReportEmpty()
    ensures GeneratePayoutReport([]) == "No data available for report."
  {
    assert PayoutReport([]) == [NoData];
    assert RenderLines([NoData]) == [NoDataText];
  }

  /** Appending a digit to a positive number appends it to its rendering. */
  lemma NatToStringSnoc(n: nat, d: nat)
    requires 1 <= n && d < 10
    ensures NatToString(10 * n + d) == NatToString(n) + [DigitChar(d)]
  {
    assert (10 * n + d) / 10 == n && (10 * n + d) % 10 == d;
  }

  lemma Digits160()
    ensures NatToString(160) == "160"
  {
    NatToStringSnoc(1, 6);
    NatToStringSnoc(16, 0);
    assert DigitChar(1) == '1' && DigitChar(6) == '6' && DigitChar(0) == '0';
  }

  lemma Digits8000()
    ensures NatToString(8000) == "8000"
  {
    NatToStringSnoc(8, 0);
    NatToStringSnoc(80, 0);
    NatToStringSnoc(800, 0);
    assert DigitChar(8) == '8' && DigitChar(0) == '0';
  }

  lemma ExampleAmounts()
    ensures Fixed0(160.0) == "160" && Fixed0(50.0) == "50" && Fixed0(8000.0) == "8000"
  {
    Fixed0Integral(160);
    Fixed0Integral(50);
    Fixed0Integral(8000);
    Digits160();
    Digits8000();
    NatToStringSnoc(5, 0);
    assert DigitChar(5) == '5' && DigitChar(0) == '0';
  }

  lemma ExampleFields()
    ensures PadRight("John Doe", 20) == "John Doe            "
    ensures PadLeft("160", 8) == "     160"
    ensures PadLeft("50", 8) == "      50"
    ensures PadLeft("8000", 9) == "     8000"
  {
    assert Spaces(12) == "            ";
    assert Spaces(6) == "      ";
    assert Spaces(5) == "     ";
  }

  /** John's row of the project's own example: the name at column 15,
      hours and rate right-aligned in width 8, and the payout right-aligned
      in width 9 after the '$', so the row shows "$     8000". */
  lemma ExampleEmployeeRow()
    ensures var text := RenderLine(Employee("John Doe", 160.0, 50.0, 8000.0));
      && |text| == 64
      && text[15..35] == "John Doe            "
      && text[36..44] == "     160"
      && text[45..53] == "      50"
      && text[53..55] == " $"
      && text[55..64] == "     8000"
  {
    ExampleRowText();
    EmployeeRowSlices("John Doe            ", "     160", "      50", "     8000");
  }

  lemma ExampleRowText()
    ensures RenderLine(Employee("John Doe", 160.0, 50.0, 8000.0))
         == "-------------- " + "John Doe            " + " " + "     160" + " " + "      50" + " $" + "     8000"
  {
    ExampleAmounts();
    ExampleFields();
    EmployeeRowText("John Doe", 160.0, 50.0, 8000.0, "John Doe            ", "     160", "      50", "     8000");
  }

  /** An employee row is its four formatted fields between fixed separators. */
  lemma EmployeeRowText(name: string, hours: real, rate: real, payout: real,
                        n: string, h: string, r: string, p: string)
    requires PadRight(name, 20) == n && PadLeft(Fixed0(hours), 8) == h
    requires PadLeft(Fixed0(rate), 8) == r && PadLeft(Fixed0(payout), 9) == p
    ensures RenderLine(Employee(name, hours, rate, payout))
         == "-------------- " + n + " " + h + " " + r + " $" + p
  {
  }

  /** A printed number field reads back, through `float`, as the amount it
      shows up to the half unit lost in rounding. */
  predicate ReadsBack(field: string, x: real) {
    ParseFloat(field).Some? && -0.5 <= ParseFloat(field).value - x <= 0.5
  }

  /** A `.0f` number right-aligned in a field of any width reads back. */
  lemma PaddedNumberReadsBack(x: real, w: nat)
    ensures ReadsBack(PadLeft(Fixed0(x), w), x)
  {
    var t := Fixed0(x);
    assert ParseFloat(PadLeft(t, w)) == ParseDecimal(t) by {
      Fixed0Shape(x);
      TrimPadLeft(t, w);
    }
    assert ParseFloat(t) == ParseDecimal(t) by {
      Fixed0Shape(x);
      TrimUnchanged(t);
    }
    Fixed0RoundTrip(x);
  }

  lemma EmployeeRowSlices(n: string, h: string, r: string, p: string)
    requires |n| == 20 && |h| == 8 && |r| == 8 && |p| == 9
    ensures var text := "-------------- " + n + " " + h + " " + r + " $" + p;
      && |text| == 64 && text[..15] == "-------------- " && text[15..35] == n
      && text[36..44] == h && text[45..53] == r && text[53..55] == " $" && text[55..64] == p
  {
  }

  /** An employee row whose fields fit their widths: 64 characters, the
      name left-aligned at column 15, and the `.0f` hours, rate and payout
      right-aligned in fixed columns, where they read back as the line's
      amounts. */
  lemma EmployeeRowLayout(name: string, hours: real, rate: real, payout: real)
    requires |name| <= 20 && |Fixed0(hours)| <= 8 && |Fixed0(rate)| <= 8 && |Fixed0(payout)| <= 9
    ensures var text := RenderLine(Employee(name, hours, rate, payout));
      && |text| == 64
      && text[..15] == "-------------- "
      && text[15..15 + |name|] == name
      && (forall i :: 15 + |name| <= i < 35 ==> text[i] == ' ')
      && text[36..44] == PadLeft(Fixed0(hours), 8) && ReadsBack(text[36..44], hours)
      && text[45..53] == PadLeft(Fixed0(rate), 8) && ReadsBack(text[45..53], rate)
      && text[53..55] == " $"
      && text[55..64] == PadLeft(Fixed0(payout), 9) && ReadsBack(text[55..64], payout)
  {
    var text := RenderLine(Employee(name, hours, rate, payout));
    var n := PadRight(name, 20);
    var h := PadLeft(Fixed0(hours), 8);
    var r := PadLeft(Fixed0(rate), 8);
    var p := PadLeft(Fixed0(payout), 9);
    EmployeeRowSlices(n, h, r, p);
    assert text[15..35] == n;
    assert text[15..15 + |name|] == n[..|name|];
    assert forall i :: 15 + |name| <= i < 35 ==> text[i] == n[i - 15];
    PaddedNumberReadsBack(hours, 8);
    PaddedNumberReadsBack(rate, 8);
    PaddedNumberReadsBack(payout, 9);
  }

  lemma SubtotalRowSlices(h: string, p: string)
    requires |h| == 8 && |p| == 8
    ensures var text := PadRight(" ", 45) + " " + h + " " + PadRight(" ", 8) + " $" + p;
      && |text| == 73 && (forall i :: 0 <= i < 46 ==> text[i] == ' ')
      && text[46..54] == h && (forall i :: 54 <= i < 63 ==> text[i] == ' ')
      && text[63..65] == " $" && text[65..73] == p
  {
  }

  /** A department subtotal row whose amounts fit their widths: 73
      characters, blank up to column 46, the `.0f` hours right-aligned in
      columns 46-53 and the payout right-aligned after " $" in columns
      65-72, both reading back. */
  lemma SubtotalRowLayout(hours: real, payout: real)
    requires |Fixed0(hours)| <= 8 && |Fixed0(payout)| <= 8
    ensures var text := RenderLine(Subtotal(hours, payout));
      && |text| == 73
      && (forall i :: 0 <= i < 46 ==> text[i] == ' ')
      && text[46..54] == PadLeft(Fixed0(hours), 8) && ReadsBack(text[46..54], hours)
      && (forall i :: 54 <= i < 63 ==> text[i] == ' ')
      && text[63..65] == " $"
      && text[65..73] == PadLeft(Fixed0(payout), 8) && ReadsBack(text[65..73], payout)
  {
    SubtotalRowSlices(PadLeft(Fixed0(hours), 8), PadLeft(Fixed0(payout), 8));
    PaddedNumberReadsBack(hours, 8);
    PaddedNumberReadsBack(payout, 8);
  }

  /** The closing rows: an empty row, "Total hours: " and the hours, then
      "Total payout: $" and the payout; both amounts read back. */
  lemma TotalRowsLayout(hours: real, payout: real)
    ensures var th := RenderLine(TotalHours(hours));
      && |th| >= 15 && th[0] == '\n' && th[1..14] == "Total hours: "
      && th[14..] == Fixed0(hours) && ReadsBack(th[14..], hours)
    ensures var tp := RenderLine(TotalPayout(payout));
      && |tp| >= 16 && tp[..15] == "Total payout: $"
      && tp[15..] == Fixed0(payout) && ReadsBack(tp[15..], payout)
  {
    var th := RenderLine(TotalHours(hours));
    var tp := RenderLine(TotalPayout(payout));
    Fixed0Shape(hours);
    Fixed0Shape(payout);
    assert th[14..] == Fixed0(hours);
    assert tp[15..] == Fixed0(payout);
    PaddedNumberReadsBack(hours, 0);
    PaddedNumberReadsBack(payout, 0);
  }

  // ---------------------------------------------------------------------
  // The printed rows

  /** The rows one report line prints as: the total-hours line prints an
      empty row and then its text. */
  function RowsOf(line: Line): (rows: seq<string>)
    ensures |rows| >= 1
  {
    if line.TotalHours? then ["", "Total hours: " + Fixed0(line.hours)] else [RenderLine(line)]
  }

  /** The rows a list of report lines prints as, in order. */
  function Rows(lines: seq<Line>): (rows: seq<string>)
    ensures |rows| >= |lines|
  {
    if |lines| == 0 then [] else RowsOf(lines[0]) + Rows(lines[1..])
  }

  /** Number of total-hours lines. */
  function CountTotalHours(lines: seq<Line>): nat {
    if |lines| == 0 then 0 else (if lines[0].TotalHours? then 1 else 0) + CountTotalHours(lines[1..])
  }

  lemma {:induction false} RowsAppend(a: seq<Line>, b: seq<Line>)
    ensures Rows(a + b) == Rows(a) + Rows(b)
    ensures CountTotalHours(a + b) == CountTotalHours(a) + CountTotalHours(b)
  {
    if |a| == 0 {
      assert a + b == b;
    } else {
      var ab := a + b;
      assert ab[0] == a[0] && ab[1..] == a[1..] + b;
      RowsAppend(a[1..], b);
      assert Rows(ab) == RowsOf(a[0]) + Rows(a[1..] + b);
      assert CountTotalHours(ab) == (if a[0].TotalHours? then 1 else 0) + CountTotalHours(a[1..] + b);
    }
  }

  /** One row per line, plus one for each total-hours line. */
  lemma {:induction false} RowsCount(lines: seq<Line>)
    ensures |Rows(lines)| == |lines| + CountTotalHours(lines)
  {
    if |lines| > 0 {
      RowsCount(lines[1..]);
    }
  }

  /** Joining a line's rows gives back its text. */
  lemma RowsOfJoin(line: Line)
    ensures Join(RowsOf(line), '\n') == RenderLine(line)
  {
    if line.TotalHours? {
      var rest := "Total hours: " + Fixed0(line.hours);
      assert ["", rest][1..] == [rest];
      assert RenderLine(line) == "" + ['\n'] + rest;
    }
  }

  /** The report text is its rows joined with line breaks. */
  lemma {:induction false} TextRows(lines: seq<Line>)
    ensures Text(lines) == Join(Rows(lines), '\n')
  {
    if |lines| > 1 {
      TextRows(lines[1..]);
      RowsOfJoin(lines[0]);
      JoinAppend(RowsOf(lines[0]), Rows(lines[1..]), '\n');
      assert RenderLines(lines)[1..] == RenderLines(lines[1..]);
    } else if |lines| == 1 {
      RowsOfJoin(lines[0]);
      assert Rows(lines) == RowsOf(lines[0]) + [];
    }
  }

  /** The names a line shows hold no line break. */
  predicate Breakless(line: Line) {
    && (line.Dept? ==> '\n' !in line.name)
    && (line.Employee? ==> '\n' !in line.name)
  }

  lemma Fixed0Breakless(x: real)
    ensures '\n' !in Fixed0(x)
  {
    Fixed0Shape(x);
  }

  lemma HeaderBreakless()
    ensures '\n' !in RenderLine(Header)
  {
    PadKeeps("name", 30, '\n');
    PadKeeps("hours", 8, '\n');
    PadKeeps("rate", 8, '\n');
    PadKeeps("payout", 10, '\n');
  }

  /** A number padded to any width holds no line break. */
  lemma PaddedNumberBreakless(x: real, w: nat)
    ensures '\n' !in PadLeft(Fixed0(x), w)
  {
    Fixed0Breakless(x);
    PadKeeps(Fixed0(x), w, '\n');
  }

  lemma EmployeeBreakless(name: string, hours: real, rate: real, payout: real)
    requires '\n' !in name
    ensures '\n' !in RenderLine(Employee(name, hours, rate, payout))
  {
    PadKeeps(name, 20, '\n');
    PaddedNumberBreakless(hours, 8);
    PaddedNumberBreakless(rate, 8);
    PaddedNumberBreakless(payout, 9);
  }

  lemma SubtotalBreakless(hours: real, payout: real)
    ensures '\n' !in RenderLine(Subtotal(hours, payout))
  {
    PadKeeps(" ", 45, '\n');
    PadKeeps(" ", 8, '\n');
    PaddedNumberBreakless(hours, 8);
    PaddedNumberBreakless(payout, 8);
  }

  lemma RowsOfBreakless(line: Line)
    requires Breakless(line)
    ensures forall k :: 0 <= k < |RowsOf(line)| ==> '\n' !in RowsOf(line)[k]
  {
    match line
    case NoData =>
    case Header => HeaderBreakless();
    case Dept(_) =>
    case Employee(name, hours, rate, payout) => EmployeeBreakless(name, hours, rate, payout);
    case Subtotal(hours, payout) => SubtotalBreakless(hours, payout);
    case TotalHours(hours) => Fixed0Breakless(hours);
    case TotalPayout(payout) => Fixed0Breakless(payout);
  }

  lemma {:induction false} RowsBreakless(lines: seq<Line>)
    requires forall i :: 0 <= i < |lines| ==> Breakless(lines[i])
    ensures forall k :: 0 <= k < |Rows(lines)| ==> '\n' !in Rows(lines)[k]
  {
    if |lines| > 0 {
      RowsOfBreakless(lines[0]);
      RowsBreakless(lines[1..]);
      var head := RowsOf(lines[0]);
      var rest := Rows(lines[1..]);
      forall k | 0 <= k < |Rows(lines)| ensures '\n' !in Rows(lines)[k] {
        if k < |head| {
          assert Rows(lines)[k] == head[k];
        } else {
          assert Rows(lines)[k] == rest[k - |head|];
        }
      }
    }
  }

  /** Cutting the printed text at its line breaks gives exactly the rows,
      as long as no name shown holds a line break. */
  lemma PrintedRows(lines: seq<Line>)
    requires |lines| >= 1
    requires forall i :: 0 <= i < |lines| ==> Breakless(lines[i])
    ensures Split(Text(lines), '\n') == Rows(lines)
  {
    TextRows(lines);
    RowsBreakless(lines);
    SplitJoin(Rows(lines), '\n');
  }

  // ---------------------------------------------------------------------
  // The printed report

  lemma TextOrAvoids(rec: Record, key: string)
    requires CellsAvoid(rec, '\n')
    ensures '\n' !in TextOr(rec, key)
  {
  }

  lemma SectionBreakless(g: Group)
    requires '\n' !in g.dept
    requires forall m :: m in g.members ==> CellsAvoid(m, '\n')
    ensures forall k :: 0 <= k < |Section(g)| ==> Breakless(Section(g)[k]) && !Section(g)[k].TotalHours?
  {
    var emp := EmployeeLines(g.members);
    forall k | 0 <= k < |Section(g)|
      ensures Breakless(Section(g)[k]) && !Section(g)[k].TotalHours?
    {
      if 1 <= k <= |emp| {
        assert Section(g)[k] == emp[k - 1];
        TextOrAvoids(g.members[k - 1], "name");
      }
    }
  }

  lemma {:induction false} SectionsBreakless(gs: seq<Group>)
    requires forall j :: 0 <= j < |gs| ==> '\n' !in gs[j].dept
    requires forall j, m :: 0 <= j < |gs| && m in gs[j].members ==> CellsAvoid(m, '\n')
    ensures forall k :: 0 <= k < |Sections(gs)| ==> Breakless(Sections(gs)[k]) && !Sections(gs)[k].TotalHours?
  {
    if |gs| > 0 {
      SectionBreakless(gs[0]);
      SectionsBreakless(gs[1..]);
      var head := Section(gs[0]);
      var rest := Sections(gs[1..]);
      forall k | 0 <= k < |Sections(gs)|
        ensures Breakless(Sections(gs)[k]) && !Sections(gs)[k].TotalHours?
      {
        if k < |head| {
          assert Sections(gs)[k] == head[k];
        } else {
          assert Sections(gs)[k] == rest[k - |head|];
        }
      }
    }
  }

  lemma {:induction false} NoTotalHours(lines: seq<Line>)
    requires forall k :: 0 <= k < |lines| ==> !lines[k].TotalHours?
    ensures CountTotalHours(lines) == 0
  {
    if |lines| > 0 {
      NoTotalHours(lines[1..]);
    }
  }

  /** The departments and members of the report's groups carry no line
      break when the records' text cells carry none. */
  lemma GroupsBreakless(rs: seq<Record>)
    requires forall i :: 0 <= i < |rs| ==> WellFormed(rs[i]) && CellsAvoid(rs[i], '\n')
    ensures var gs := ReportGroups(rs);
      && (forall j :: 0 <= j < |gs| ==> '\n' !in gs[j].dept)
      && (forall j, m :: 0 <= j < |gs| && m in gs[j].members ==> CellsAvoid(m, '\n'))
  {
    var gs := ReportGroups(rs);
    GroupByDeptReport(rs);
    forall j | 0 <= j < |gs| ensures '\n' !in gs[j].dept {
      assert gs[j].dept in Depts(gs);
      assert gs[j].dept in DeptSet(rs);
      var i :| 0 <= i < |rs| && DeptOf(rs[i]) == gs[j].dept;
      TextOrAvoids(rs[i], "department");
    }
    forall j, m | 0 <= j < |gs| && m in gs[j].members ensures CellsAvoid(m, '\n') {
      assert m in Filter(rs, gs[j].dept);
    }
  }

  /** The lines of a report body show no line break and one of them is the
      total-hours line. */
  lemma BodyBreakless(gs: seq<Group>)
    requires forall j :: 0 <= j < |gs| ==> '\n' !in gs[j].dept
    requires forall j, m :: 0 <= j < |gs| && m in gs[j].members ==> CellsAvoid(m, '\n')
    ensures forall k :: 0 <= k < |ReportBody(gs)| ==> Breakless(ReportBody(gs)[k])
    ensures CountTotalHours(ReportBody(gs)) == 1
  {
    var secs := Sections(gs);
    var tail := [TotalHours(GroupsTotal(gs, Hours)), TotalPayout(GroupsTotal(gs, Pay))];
    var lines := ReportBody(gs);
    assert lines == [Header] + secs + tail;
    SectionsBreakless(gs);
    forall k | 0 <= k < |lines| ensures Breakless(lines[k]) {
      if 1 <= k <= |secs| {
        assert lines[k] == secs[k - 1];
      }
    }
    NoTotalHours(secs);
    RowsAppend([Header] + secs, tail);
    RowsAppend([Header], secs);
    assert CountTotalHours(tail) == 1 by {
      assert tail[1..] == [tail[1]];
    }
  }

  /** For records whose text cells hold no line break, the report's lines
      show no line break of their own and exactly one is a total-hours line. */
  lemma ReportLinesBreakless(rs: seq<Record>)
    requires forall i :: 0 <= i < |rs| ==> WellFormed(rs[i]) && CellsAvoid(rs[i], '\n')
    requires |rs| > 0
    ensures forall k :: 0 <= k < |PayoutReport(rs)| ==> Breakless(PayoutReport(rs)[k])
    ensures CountTotalHours(PayoutReport(rs)) == 1
  {
    var gs := ReportGroups(rs);
    assert PayoutReport(rs) == ReportBody(gs);
    GroupsBreakless(rs);
    BodyBreakless(gs);
  }

  /** The printed report on records read from files has 4 + 2·D + N rows
      for N records in D departments: the header, a name row and a
      subtotal row per department, a row per employee, an empty row and
      the two total rows. */
  lemma PrintedReportRows(rs: seq<Record>)
    requires forall i :: 0 <= i < |rs| ==> WellFormed(rs[i]) && CellsAvoid(rs[i], '\n')
    requires |rs| > 0
    ensures |Split(GeneratePayoutReport(rs), '\n')| == 4 + 2 * |DeptSet(rs)| + |rs|
  {
    var lines := PayoutReport(rs);
    ReportLinesBreakless(rs);
    PayoutReportLength(rs);
    PrintedRows(lines);
    RowsCount(lines);
  }
}
