/** What the payout report promises, stated against reference readings of
    its lines and proved for every list of records. */
module PayoutProperties {
  import opened Strings
  import opened Csv
  import opened Payout

  /** The amount a subtotal line carries for a measure. */
  function SubtotalAmount(line: Line, m: Measure): real {
    if !line.Subtotal? then 0.0
    else match m
      case Hours => line.hours
      case Pay => line.payout
  }

  /** Sum of a measure over the subtotal lines. */
  function SubtotalSum(lines: seq<Line>, m: Measure): real {
    if |lines| == 0 then 0.0 else SubtotalAmount(lines[0], m) + SubtotalSum(lines[1..], m)
  }

  /** The department names, in the order their lines appear. */
  function DeptNames(lines: seq<Line>): seq<string> {
    if |lines| == 0 then []
    else (if lines[0].Dept? then [lines[0].name] else []) + DeptNames(lines[1..])
  }

  /** Reference reading of the report body: for each department of `ds`
      in turn, its name, its employees in arrival order and its subtotal. */
  function SectionsFor(rs: seq<Record>, ds: seq<string>): seq<Line> {
    if |ds| == 0 then [] else Section(Group(ds[0], Filter(rs, ds[0]))) + SectionsFor(rs, ds[1..])
  }

  lemma {:induction false} SubtotalSumAppend(a: seq<Line>, b: seq<Line>, m: Measure)
    ensures SubtotalSum(a + b, m) == SubtotalSum(a, m) + SubtotalSum(b, m)
  {
    if |a| > 0 {
      SubtotalSumAppend(a[1..], b, m);
      assert (a + b)[1..] == a[1..] + b;
    } else {
      assert a + b == b;
    }
  }

  lemma {:induction false} DeptNamesAppend(a: seq<Line>, b: seq<Line>)
    ensures DeptNames(a + b) == DeptNames(a) + DeptNames(b)
  {
    if |a| > 0 {
      DeptNamesAppend(a[1..], b);
      assert (a + b)[1..] == a[1..] + b;
    } else {
      assert a + b == b;
    }
  }

  lemma {:induction false} EmployeeLinesPlain(rs: seq<Record>, m: Measure)
    ensures SubtotalSum(EmployeeLines(rs), m) == 0.0
    ensures DeptNames(EmployeeLines(rs)) == []
  {
    if |rs| > 0 {
      EmployeeLinesPlain(rs[1..], m);
      assert EmployeeLines(rs)[1..] == EmployeeLines(rs[1..]);
    }
  }

  lemma SectionFacts(g: Group, m: Measure)
    ensures SubtotalSum(Section(g), m) == Total(g.members, m)
    ensures DeptNames(Section(g)) == [g.dept]
    ensures |Section(g)| == |g.members| + 2
  {
    var emp := EmployeeLines(g.members);
    var sub := [Subtotal(Total(g.members, Hours), Total(g.members, Pay))];
    EmployeeLinesPlain(g.members, m);
    SubtotalSumAppend([Dept(g.dept)] + emp, sub, m);
    SubtotalSumAppend([Dept(g.dept)], emp, m);
    DeptNamesAppend([Dept(g.dept)] + emp, sub);
    DeptNamesAppend([Dept(g.dept)], emp);
    match m
    case Hours =>
    case Pay =>
  }

  /** The body of the report read section by section: subtotals add up to
      the group totals, department lines list the groups' departments,
      and the body has two lines per department plus one per record. */
  lemma {:induction false} SectionsFacts(gs: seq<Group>, m: Measure)
    ensures SubtotalSum(Sections(gs), m) == GroupsTotal(gs, m)
    ensures DeptNames(Sections(gs)) == Depts(gs)
    ensures |Sections(gs)| == 2 * |gs| + GroupsSize(gs)
  {
    if |gs| > 0 {
      SectionsFacts(gs[1..], m);
      SectionFacts(gs[0], m);
      SubtotalSumAppend(Section(gs[0]), Sections(gs[1..]), m);
      DeptNamesAppend(Section(gs[0]), Sections(gs[1..]));
      assert Depts(gs) == [gs[0].dept] + Depts(gs[1..]);
    }
  }

  lemma {:induction false} SectionsByDept(rs: seq<Record>, gs: seq<Group>)
    requires forall j :: 0 <= j < |gs| ==> gs[j].members == Filter(rs, gs[j].dept)
    ensures Sections(gs) == SectionsFor(rs, Depts(gs))
  {
    if |gs| > 0 {
      SectionsByDept(rs, gs[1..]);
      assert Depts(gs)[1..] == Depts(gs[1..]);
      assert gs[0] == Group(gs[0].dept, Filter(rs, gs[0].dept));
    }
  }

  /** Two strictly ascending lists of the same strings are equal. */
  lemma {:induction false} AscendingUnique(a: seq<string>, b: seq<string>)
    requires Ascending(a) && Ascending(b)
    requires forall d :: d in a <==> d in b
    ensures a == b
  {
    AscendingDistinct(a);
    AscendingDistinct(b);
    DistinctCard(a);
    DistinctCard(b);
    assert (set d | d in a) == (set d | d in b);
    if |a| > 0 {
      assert a[0] in b && b[0] in a;
      var i :| 0 <= i < |a| && a[i] == b[0];
      var j :| 0 <= j < |b| && b[j] == a[0];
      assert a[0] == b[0] || Less(a[0], b[0]);
      assert a[0] == b[0] || Less(b[0], a[0]);
      if Less(a[0], b[0]) {
        LessAsymmetric(a[0], b[0]);
      }
      AscendingTail(a);
      AscendingTail(b);
      forall d ensures d in a[1..] <==> d in b[1..] {
        DistinctTail(a);
        DistinctTail(b);
        assert d in a <==> d == a[0] || d in a[1..];
        assert d in b <==> d == b[0] || d in b[1..];
      }
      AscendingUnique(a[1..], b[1..]);
      assert a == [a[0]] + a[1..] && b == [b[0]] + b[1..];
    }
  }

  /** A list of distinct strings has as many elements as its set. */
  lemma {:induction false} DistinctCard(ds: seq<string>)
    requires Distinct(ds)
    ensures |set d | d in ds| == |ds|
  {
    if |ds| > 0 {
      DistinctTail(ds);
      DistinctCard(ds[1..]);
      assert (set d | d in ds) == (set d | d in ds[1..]) + {ds[0]};
    }
  }

  lemma ReportTotals(rs: seq<Record>, m: Measure)
    ensures GroupsTotal(ReportGroups(rs), m) == Total(rs, m)
    ensures GroupsSize(ReportGroups(rs)) == |rs|
  {
    GroupByDeptTotal(rs, m);
    SortGroupsTotal(GroupByDept(rs), m);
  }

  /** The report, stated without grouping: a header, then for every
      department in ascending order its name, its employees in arrival
      order and its subtotal, then the total hours and total payout of all
      records. */
  lemma PayoutReportSpec(rs: seq<Record>, ds: seq<string>)
    requires forall i :: 0 <= i < |rs| ==> WellFormed(rs[i])
    requires |rs| > 0
    requires Ascending(ds) && forall d :: d in ds <==> d in DeptSet(rs)
    ensures PayoutReport(rs) ==
      [Header] + SectionsFor(rs, ds) + [TotalHours(Total(rs, Hours)), TotalPayout(Total(rs, Pay))]
  {
    var gs := ReportGroups(rs);
    assert PayoutReport(rs) == ReportBody(gs);
    GroupByDeptReport(rs);
    AscendingUnique(Depts(gs), ds);
    SectionsByDept(rs, gs);
    ReportTotals(rs, Hours);
    ReportTotals(rs, Pay);
  }

  /** The body of a report: its length, where the sections sit, and its
      two closing lines. */
  lemma BodyShape(gs: seq<Group>)
    ensures var lines := ReportBody(gs);
      && |lines| == 3 + 2 * |gs| + GroupsSize(gs)
      && (forall k :: 0 <= k < |Sections(gs)| ==> lines[k + 1] == Sections(gs)[k])
      && lines[|lines| - 2] == TotalHours(GroupsTotal(gs, Hours))
      && lines[|lines| - 1] == TotalPayout(GroupsTotal(gs, Pay))
  {
    SectionsFacts(gs, Hours);
  }

  /** The subtotal lines of a report body add up to the grand totals, and
      its department lines name the groups in order. */
  lemma BodySums(gs: seq<Group>, m: Measure)
    ensures SubtotalSum(ReportBody(gs), m) == GroupsTotal(gs, m)
    ensures DeptNames(ReportBody(gs)) == Depts(gs)
  {
    var tail := [TotalHours(GroupsTotal(gs, Hours)), TotalPayout(GroupsTotal(gs, Pay))];
    assert ReportBody(gs) == [Header] + Sections(gs) + tail;
    assert tail == [tail[0]] + [tail[1]];
    SectionsFacts(gs, m);
    SubtotalSumAppend([Header] + Sections(gs), tail, m);
    SubtotalSumAppend([Header], Sections(gs), m);
    SubtotalSumAppend([tail[0]], [tail[1]], m);
    DeptNamesAppend([Header] + Sections(gs), tail);
    DeptNamesAppend([Header], Sections(gs));
    DeptNamesAppend([tail[0]], [tail[1]]);
  }

  /** One header, two lines per department, one per employee and the two
      total lines: 3 + 2·D + N lines. */
  lemma PayoutReportLength(rs: seq<Record>)
    requires forall i :: 0 <= i < |rs| ==> WellFormed(rs[i])
    requires |rs| > 0
    ensures |PayoutReport(rs)| == 3 + 2 * |DeptSet(rs)| + |rs|
    ensures PayoutReport(rs)[0] == Header
  {
    var gs := ReportGroups(rs);
    assert PayoutReport(rs) == ReportBody(gs);
    BodyShape(gs);
    ReportTotals(rs, Hours);
    GroupByDeptReport(rs);
    AscendingDistinct(Depts(gs));
    DistinctCard(Depts(gs));
    assert (set d | d in Depts(gs)) == DeptSet(rs);
  }

  /** The grand totals are the sums of the department subtotals and also
      the sums over all records of hours and of hours × rate. */
  lemma PayoutReportTotals(rs: seq<Record>)
    requires forall i :: 0 <= i < |rs| ==> WellFormed(rs[i])
    requires |rs| > 0
    ensures var r := PayoutReport(rs);
      && |r| >= 2
      && r[|r| - 2] == TotalHours(Total(rs, Hours))
      && r[|r| - 1] == TotalPayout(Total(rs, Pay))
      && Total(rs, Hours) == SubtotalSum(r, Hours)
      && Total(rs, Pay) == SubtotalSum(r, Pay)
  {
    var gs := ReportGroups(rs);
    assert PayoutReport(rs) == ReportBody(gs);
    BodyShape(gs);
    BodySums(gs, Hours);
    BodySums(gs, Pay);
    ReportTotals(rs, Hours);
    ReportTotals(rs, Pay);
  }

  /** Department lines appear once per department of the records, in
      strictly ascending order, whatever order the records came in. */
  lemma PayoutReportDepartments(rs: seq<Record>)
    requires forall i :: 0 <= i < |rs| ==> WellFormed(rs[i])
    requires |rs| > 0
    ensures Ascending(DeptNames(PayoutReport(rs)))
    ensures forall d :: d in DeptNames(PayoutReport(rs)) <==> d in DeptSet(rs)
  {
    var gs := ReportGroups(rs);
    assert PayoutReport(rs) == ReportBody(gs);
    BodySums(gs, Hours);
    GroupByDeptReport(rs);
  }

  /** Every record lands in the group of its own department and in no
      other, and there is a group for every department. */
  lemma ReportGroupsPartition(rs: seq<Record>, i: nat)
    requires i < |rs|
    ensures var gs := ReportGroups(rs);
      && (exists j :: 0 <= j < |gs| && gs[j].dept == DeptOf(rs[i]))
      && forall j :: 0 <= j < |gs| ==> (rs[i] in gs[j].members <==> gs[j].dept == DeptOf(rs[i]))
  {
    var gs := ReportGroups(rs);
    GroupByDeptReport(rs);
    assert DeptOf(rs[i]) in DeptSet(rs);
    assert DeptOf(rs[i]) in Depts(gs);
  }

  /** An employee line shows a payout equal to its hours times its rate. */
  predicate PayoutConsistent(line: Line) {
    line.Employee? ==> line.payout == line.hours * line.rate
  }

  lemma SectionConsistent(g: Group)
    ensures forall k :: 0 <= k < |Section(g)| ==> PayoutConsistent(Section(g)[k])
  {
    var emp := EmployeeLines(g.members);
    forall k | 0 <= k < |Section(g)| ensures PayoutConsistent(Section(g)[k]) {
      if 1 <= k <= |emp| {
        assert Section(g)[k] == emp[k - 1];
      }
    }
  }

  lemma {:induction false} SectionsConsistent(gs: seq<Group>)
    ensures forall k :: 0 <= k < |Sections(gs)| ==> PayoutConsistent(Sections(gs)[k])
  {
    if |gs| > 0 {
      SectionConsistent(gs[0]);
      SectionsConsistent(gs[1..]);
      var head := Section(gs[0]);
      var rest := Sections(gs[1..]);
      forall k | 0 <= k < |Sections(gs)| ensures PayoutConsistent(Sections(gs)[k]) {
        if k >= |head| {
          assert Sections(gs)[k] == rest[k - |head|];
        } else {
          assert Sections(gs)[k] == head[k];
        }
      }
    }
  }

  /** Every employee line of the report shows payout = hours × rate. */
  lemma PayoutReportEmployees(rs: seq<Record>)
    requires forall i :: 0 <= i < |rs| ==> WellFormed(rs[i])
    ensures forall k :: 0 <= k < |PayoutReport(rs)| ==> PayoutConsistent(PayoutReport(rs)[k])
  {
    if |rs| > 0 {
      var gs := ReportGroups(rs);
      var r := PayoutReport(rs);
      assert r == ReportBody(gs);
      BodyShape(gs);
      SectionsConsistent(gs);
      SectionsFacts(gs, Hours);
      forall k | 0 <= k < |r| ensures PayoutConsistent(r[k]) {
        if 1 <= k <= |Sections(gs)| {
          assert r[k] == Sections(gs)[k - 1];
        }
      }
    }
  }

  // ---------------------------------------------------------------------
  // The three employees of the project's own report example

  function Employee3(name: string, dept: string, hours: real, rate: real): Record {
    map["name" := Str(name), "department" := Str(dept),
        "hours_worked" := Num(hours), "hourly_rate" := Num(rate)]
  }

  lemma Employee3Facts(name: string, dept: string, hours: real, rate: real)
    ensures var rec := Employee3(name, dept, hours, rate);
      && WellFormed(rec)
      && TextOr(rec, "name") == name && DeptOf(rec) == dept
      && HoursOf(rec) == hours && RateOf(rec) == rate
  {
    var rec := Employee3(name, dept, hours, rate);
    assert "name" != "department" && "name" != "hours_worked" && "name" != "hourly_rate";
    assert "department" != "hours_worked" && "department" != "hourly_rate";
    assert "hours_worked" != "hourly_rate";
  }

  function ExampleStaff(): seq<Record> {
    [ Employee3("John Doe", "IT", 160.0, 50.0),
      Employee3("Jane Smith", "IT", 150.0, 60.0),
      Employee3("Bob Brown", "HR", 170.0, 40.0) ]
  }

  lemma TotalOfOne(a: Record, m: Measure)
    ensures Total([a], m) == Amount(a, m)
  {
    assert [a][..0] == [];
  }

  lemma TotalOfTwo(a: Record, b: Record, m: Measure)
    ensures Total([a, b], m) == Amount(a, m) + Amount(b, m)
  {
    TotalOfOne(a, m);
    assert [a, b][..1] == [a];
  }

  lemma TotalOfThree(a: Record, b: Record, c: Record, m: Measure)
    ensures Total([a, b, c], m) == Amount(a, m) + Amount(b, m) + Amount(c, m)
  {
    TotalOfTwo(a, b, m);
    assert [a, b, c][..2] == [a, b];
  }

  lemma FilterSnoc(rs: seq<Record>, rec: Record, d: string)
    ensures Filter(rs + [rec], d) == Filter(rs, d) + (if DeptOf(rec) == d then [rec] else [])
  {
    assert (rs + [rec])[..|rs|] == rs;
  }

  lemma FilterOfThree(a: Record, b: Record, c: Record, d: string)
    ensures Filter([a, b, c], d) ==
      (if DeptOf(a) == d then [a] else []) + (if DeptOf(b) == d then [b] else [])
      + (if DeptOf(c) == d then [c] else [])
  {
    FilterSnoc([], a, d);
    FilterSnoc([a], b, d);
    FilterSnoc([a, b], c, d);
    assert [] + [a] == [a] && [a] + [b] == [a, b] && [a, b] + [c] == [a, b, c];
  }

  lemma SectionsForTwo(rs: seq<Record>, d: string, e: string)
    ensures SectionsFor(rs, [d, e]) == Section(Group(d, Filter(rs, d))) + Section(Group(e, Filter(rs, e)))
  {
    assert [d, e][1..] == [e] && [e][1..] == [];
    var s := Section(Group(e, Filter(rs, e)));
    assert SectionsFor(rs, [e]) == s + [] == s;
  }

  lemma SectionOfOne(d: string, a: Record)
    ensures Section(Group(d, [a])) == [Dept(d), EmployeeLine(a), Subtotal(Amount(a, Hours), Amount(a, Pay))]
  {
    TotalOfOne(a, Hours);
    TotalOfOne(a, Pay);
  }

  lemma SectionOfTwo(d: string, a: Record, b: Record)
    ensures Section(Group(d, [a, b])) ==
      [ Dept(d), EmployeeLine(a), EmployeeLine(b),
        Subtotal(Amount(a, Hours) + Amount(b, Hours), Amount(a, Pay) + Amount(b, Pay)) ]
  {
    TotalOfTwo(a, b, Hours);
    TotalOfTwo(a, b, Pay);
  }

  lemma ReportOfTwoSections(rep: seq<Line>, x: seq<Line>, y: seq<Line>, u: Line, v: Line)
    requires |x| == 3 && |y| == 4
    requires rep == [Header] + (x + y) + [u, v]
    ensures rep == [Header, x[0], x[1], x[2], y[0], y[1], y[2], y[3], u, v]
  {
  }

  lemma ThreeRecordsDepts(a: Record, b: Record, c: Record, d: string, e: string)
    requires DeptOf(a) == e && DeptOf(b) == e && DeptOf(c) == d && Less(d, e)
    ensures Ascending([d, e])
    ensures forall z :: z in [d, e] <==> z in DeptSet([a, b, c])
  {
    var rs := [a, b, c];
    assert DeptOf(rs[2]) == d && DeptOf(rs[0]) == e;
  }

  lemma ThreeRecordsSections(a: Record, b: Record, c: Record, d: string, e: string)
    requires DeptOf(a) == e && DeptOf(b) == e && DeptOf(c) == d && d != e
    ensures SectionsFor([a, b, c], [d, e]) == Section(Group(d, [c])) + Section(Group(e, [a, b]))
  {
    var rs := [a, b, c];
    assert Filter(rs, d) == [c] by {
      FilterOfThree(a, b, c, d);
    }
    assert Filter(rs, e) == [a, b] by {
      FilterOfThree(a, b, c, e);
      assert [a] + [b] + [] == [a, b];
    }
    SectionsForTwo(rs, d, e);
  }

  /** Two employees of one department and one of an earlier department: the
      earlier department's section comes first, each section holds its
      employees in input order, and the totals run over all three. */
  lemma TwoDepartmentsReport(a: Record, b: Record, c: Record, d: string, e: string)
    requires WellFormed(a) && WellFormed(b) && WellFormed(c)
    requires DeptOf(a) == e && DeptOf(b) == e && DeptOf(c) == d && Less(d, e)
    ensures PayoutReport([a, b, c]) ==
      [Header] + (Section(Group(d, [c])) + Section(Group(e, [a, b])))
      + [TotalHours(Total([a, b, c], Hours)), TotalPayout(Total([a, b, c], Pay))]
  {
    LessIrreflexive(d);
    ThreeRecordsDepts(a, b, c, d, e);
    PayoutReportSpec([a, b, c], [d, e]);
    ThreeRecordsSections(a, b, c, d, e);
  }

  lemma ExampleHR()
    ensures Section(Group("HR", [ExampleStaff()[2]])) ==
      [Dept("HR"), Employee("Bob Brown", 170.0, 40.0, 6800.0), Subtotal(170.0, 6800.0)]
  {
    Employee3Facts("Bob Brown", "HR", 170.0, 40.0);
    SectionOfOne("HR", ExampleStaff()[2]);
  }

  lemma ExampleIT()
    ensures Section(Group("IT", [ExampleStaff()[0], ExampleStaff()[1]])) ==
      [ Dept("IT"), Employee("John Doe", 160.0, 50.0, 8000.0),
        Employee("Jane Smith", 150.0, 60.0, 9000.0), Subtotal(310.0, 17000.0) ]
  {
    Employee3Facts("John Doe", "IT", 160.0, 50.0);
    Employee3Facts("Jane Smith", "IT", 150.0, 60.0);
    SectionOfTwo("IT", ExampleStaff()[0], ExampleStaff()[1]);
  }

  lemma ExampleTotals()
    ensures Total(ExampleStaff(), Hours) == 480.0
    ensures Total(ExampleStaff(), Pay) == 23800.0
  {
    var rs := ExampleStaff();
    Employee3Facts("John Doe", "IT", 160.0, 50.0);
    Employee3Facts("Jane Smith", "IT", 150.0, 60.0);
    Employee3Facts("Bob Brown", "HR", 170.0, 40.0);
    TotalOfThree(rs[0], rs[1], rs[2], Hours);
    TotalOfThree(rs[0], rs[1], rs[2], Pay);
    assert rs == [rs[0], rs[1], rs[2]];
  }

  /** HR comes before IT; John, Jane and Bob are paid 8000, 9000 and 6800;
      the totals are 480 hours and 23800. */
  lemma ExampleReport()
    ensures forall i :: 0 <= i < |ExampleStaff()| ==> WellFormed(ExampleStaff()[i])
    ensures PayoutReport(ExampleStaff()) ==
      [ Header,
        Dept("HR"), Employee("Bob Brown", 170.0, 40.0, 6800.0), Subtotal(170.0, 6800.0),
        Dept("IT"), Employee("John Doe", 160.0, 50.0, 8000.0),
        Employee("Jane Smith", 150.0, 60.0, 9000.0), Subtotal(310.0, 17000.0),
        TotalHours(480.0), TotalPayout(23800.0) ]
  {
    var rs := ExampleStaff();
    var john, jane, bob := rs[0], rs[1], rs[2];
    Employee3Facts("John Doe", "IT", 160.0, 50.0);
    Employee3Facts("Jane Smith", "IT", 150.0, 60.0);
    Employee3Facts("Bob Brown", "HR", 170.0, 40.0);
    assert Less("HR", "IT");
    assert rs == [john, jane, bob];
    TwoDepartmentsReport(john, jane, bob, "HR", "IT");
    ExampleHR();
    ExampleIT();
    ExampleTotals();
    ReportOfTwoSections(PayoutReport(rs), Section(Group("HR", [bob])), Section(Group("IT", [john, jane])),
      TotalHours(480.0), TotalPayout(23800.0));
  }
}
