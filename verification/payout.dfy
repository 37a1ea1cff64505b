/** `generate_payout_report`: records are grouped by department (arrival
    order kept inside a group), departments are listed in ascending order,
    every employee gets a line with hours, rate and payout = hours * rate,
    every department a subtotal, and the report ends with the grand totals.
    Lines are kept as values; `Render` turns them into text. */
module Payout {
  import opened Strings
  import opened Csv

  /** One line of the report. */
  datatype Line =
    | NoData                                  // "No data available for report."
    | Header                                  // the column titles
    | Dept(name: string)                      // a department's name
    | Employee(name: string, hours: real, rate: real, payout: real)
    | Subtotal(hours: real, payout: real)     // a department's totals
    | TotalHours(hours: real)
    | TotalPayout(payout: real)

  /** A department and its records, in arrival order. */
  datatype Group = Group(dept: string, members: seq<Record>)

  /** The two amounts the report adds up. */
  datatype Measure = Hours | Pay

  /** `employee.get(key, "Unknown")` for a text column. */
  function TextOr(rec: Record, key: string): string {
    if key in rec && rec[key].Str? then rec[key].s else "Unknown"
  }

  /** `employee.get(key, 0)` for a numeric column. */
  function NumberOr(rec: Record, key: string): real {
    if key in rec && rec[key].Num? then rec[key].n else 0.0
  }

  function DeptOf(rec: Record): string {
    TextOr(rec, "department")
  }

  function HoursOf(rec: Record): real {
    NumberOr(rec, "hours_worked")
  }

  function RateOf(rec: Record): real {
    NumberOr(rec, "hourly_rate")
  }

  function Amount(rec: Record, m: Measure): real {
    match m
    case Hours => HoursOf(rec)
    case Pay => HoursOf(rec) * RateOf(rec)
  }

  /** Sum of a measure over records. */
  function Total(rs: seq<Record>, m: Measure): real {
    if |rs| == 0 then 0.0 else Total(rs[..|rs| - 1], m) + Amount(rs[|rs| - 1], m)
  }

  /** The records of department `d`, in arrival order. */
  function Filter(rs: seq<Record>, d: string): (f: seq<Record>)
    ensures |f| <= |rs|
    ensures forall r :: r in f <==> r in rs && DeptOf(r) == d
  {
    if |rs| == 0 then []
    else
      var last := rs[|rs| - 1];
      assert rs == rs[..|rs| - 1] + [last];
      Filter(rs[..|rs| - 1], d) + (if DeptOf(last) == d then [last] else [])
  }

  /** The departments occurring in the records. */
  function DeptSet(rs: seq<Record>): set<string> {
    set i | 0 <= i < |rs| :: DeptOf(rs[i])
  }

  // ---------------------------------------------------------------------
  // Grouping (the `departments` dictionary, in key insertion order)

  function Depts(gs: seq<Group>): (ds: seq<string>)
    ensures |ds| == |gs|
    ensures forall j :: 0 <= j < |gs| ==> ds[j] == gs[j].dept
  {
    seq(|gs|, j requires 0 <= j < |gs| => gs[j].dept)
  }

  lemma DeptsCons(g: Group, gs: seq<Group>)
    ensures Depts([g] + gs) == [g.dept] + Depts(gs)
  {
    assert forall j :: 0 < j <= |gs| ==> ([g] + gs)[j] == gs[j - 1];
  }

  lemma DeptsTail(gs: seq<Group>)
    requires |gs| > 0
    ensures Depts(gs) == [gs[0].dept] + Depts(gs[1..])
  {
    assert gs == [gs[0]] + gs[1..];
    DeptsCons(gs[0], gs[1..]);
  }

  predicate Distinct(ds: seq<string>) {
    forall i, j :: 0 <= i < j < |ds| ==> ds[i] != ds[j]
  }

  /** The members filed under `d`, or none. */
  function MembersOf(gs: seq<Group>, d: string): seq<Record> {
    if |gs| == 0 then []
    else if gs[0].dept == d then gs[0].members
    else MembersOf(gs[1..], d)
  }

  /** File one record: append it to its department's group, opening a new
      group at the end when the department is new. */
  function AddToGroups(gs: seq<Group>, rec: Record): (r: seq<Group>)
    ensures |r| == |gs| || |r| == |gs| + 1
  {
    if |gs| == 0 then [Group(DeptOf(rec), [rec])]
    else if gs[0].dept == DeptOf(rec) then [Group(gs[0].dept, gs[0].members + [rec])] + gs[1..]
    else [gs[0]] + AddToGroups(gs[1..], rec)
  }

  /** The groups built by filing the records one by one. */
  function GroupByDept(rs: seq<Record>): seq<Group> {
    if |rs| == 0 then [] else AddToGroups(GroupByDept(rs[..|rs| - 1]), rs[|rs| - 1])
  }

  lemma {:induction false} AddToGroupsFacts(gs: seq<Group>, rec: Record)
    requires Distinct(Depts(gs))
    ensures var r := AddToGroups(gs, rec);
      && Depts(r) == (if DeptOf(rec) in Depts(gs) then Depts(gs) else Depts(gs) + [DeptOf(rec)])
      && Distinct(Depts(r))
      && forall d :: MembersOf(r, d) == MembersOf(gs, d) + (if d == DeptOf(rec) then [rec] else [])
  {
    var r := AddToGroups(gs, rec);
    if |gs| == 0 {
      assert Depts(r) == [DeptOf(rec)];
    } else if gs[0].dept == DeptOf(rec) {
      assert Depts(r) == Depts(gs) by {
        DeptsTail(gs);
        DeptsTail(r);
        assert r[1..] == gs[1..];
      }
      forall d ensures MembersOf(r, d) == MembersOf(gs, d) + (if d == DeptOf(rec) then [rec] else []) {
        if d != gs[0].dept {
          assert r[1..] == gs[1..];
        }
      }
    } else {
      var t := AddToGroups(gs[1..], rec);
      DeptsTail(gs);
      DistinctTail(Depts(gs));
      AddToGroupsFacts(gs[1..], rec);
      assert r == [gs[0]] + t;
      DeptsCons(gs[0], t);
      DistinctCons(gs[0].dept, Depts(t));
      forall d ensures MembersOf(r, d) == MembersOf(gs, d) + (if d == DeptOf(rec) then [rec] else []) {
        assert r[1..] == t;
      }
    }
  }

  lemma DistinctTail(ds: seq<string>)
    requires |ds| > 0 && Distinct(ds)
    ensures Distinct(ds[1..]) && ds[0] !in ds[1..]
  {
    assert forall i :: 0 <= i < |ds| - 1 ==> ds[1..][i] == ds[i + 1];
  }

  lemma DistinctCons(x: string, ds: seq<string>)
    requires Distinct(ds) && x !in ds
    ensures Distinct([x] + ds)
  {
    assert forall i :: 0 < i < |ds| + 1 ==> ([x] + ds)[i] == ds[i - 1];
  }

  /** Grouping keeps one group per department that occurs, no department
      twice, each holding exactly that department's records in arrival
      order. */
  lemma {:induction false} GroupByDeptFacts(rs: seq<Record>)
    ensures var gs := GroupByDept(rs);
      && Distinct(Depts(gs))
      && (forall d :: d in Depts(gs) <==> d in DeptSet(rs))
      && (forall d :: MembersOf(gs, d) == Filter(rs, d))
  {
    if |rs| > 0 {
      var n := |rs| - 1;
      var prev := GroupByDept(rs[..n]);
      GroupByDeptFacts(rs[..n]);
      var gs := GroupByDept(rs);
      assert gs == AddToGroups(prev, rs[n]);
      AddToGroupsFacts(prev, rs[n]);
      forall d ensures d in Depts(gs) <==> d in DeptSet(rs) {
        DeptSetSnoc(rs);
      }
      forall d ensures MembersOf(gs, d) == Filter(rs, d) {
        assert Filter(rs, d) == Filter(rs[..n], d) + (if DeptOf(rs[n]) == d then [rs[n]] else []);
      }
    }
  }

  lemma DeptSetSnoc(rs: seq<Record>)
    requires |rs| > 0
    ensures DeptSet(rs) == DeptSet(rs[..|rs| - 1]) + {DeptOf(rs[|rs| - 1])}
  {
    var n := |rs| - 1;
    assert forall i :: 0 <= i < n ==> rs[..n][i] == rs[i];
  }

  /** In groups with distinct departments, a group's members are the ones
      filed under its department. */
  lemma {:induction false} MembersOfAt(gs: seq<Group>, j: nat)
    requires Distinct(Depts(gs)) && j < |gs|
    ensures MembersOf(gs, gs[j].dept) == gs[j].members
  {
    if j > 0 {
      assert Depts(gs)[0] != Depts(gs)[j];
      assert Depts(gs[1..]) == Depts(gs)[1..];
      MembersOfAt(gs[1..], j - 1);
    }
  }

  // ---------------------------------------------------------------------
  // Sorting the groups by department (`sorted(departments.items())`)

  predicate Ascending(ds: seq<string>) {
    forall i, j :: 0 <= i < j < |ds| ==> Less(ds[i], ds[j])
  }

  function Insert(g: Group, sorted: seq<Group>): (r: seq<Group>)
    ensures |r| == |sorted| + 1
  {
    if |sorted| == 0 then [g]
    else if Less(g.dept, sorted[0].dept) then [g] + sorted
    else [sorted[0]] + Insert(g, sorted[1..])
  }

  function SortGroups(gs: seq<Group>): (r: seq<Group>)
    ensures |r| == |gs|
  {
    if |gs| == 0 then [] else Insert(gs[0], SortGroups(gs[1..]))
  }

  lemma {:induction false} InsertDepts(g: Group, s: seq<Group>)
    ensures forall d :: d in Depts(Insert(g, s)) <==> d == g.dept || d in Depts(s)
  {
    var r := Insert(g, s);
    if |s| == 0 {
      assert Depts(r) == [g.dept];
    } else if Less(g.dept, s[0].dept) {
      DeptsCons(g, s);
    } else {
      var t := Insert(g, s[1..]);
      InsertDepts(g, s[1..]);
      DeptsTail(s);
      DeptsCons(s[0], t);
    }
  }

  lemma {:induction false} InsertMembers(g: Group, s: seq<Group>)
    requires g.dept !in Depts(s)
    ensures forall d :: MembersOf(Insert(g, s), d) == if d == g.dept then g.members else MembersOf(s, d)
  {
    if |s| > 0 && !Less(g.dept, s[0].dept) {
      assert Depts(s) == [s[0].dept] + Depts(s[1..]);
      InsertMembers(g, s[1..]);
      assert Insert(g, s)[1..] == Insert(g, s[1..]);
    }
  }

  lemma AscendingTail(ds: seq<string>)
    requires |ds| > 0 && Ascending(ds)
    ensures Ascending(ds[1..])
  {
    assert forall i :: 0 <= i < |ds| - 1 ==> ds[1..][i] == ds[i + 1];
  }

  /** A name below every name of an ascending list can head it. */
  lemma AscendingCons(x: string, ds: seq<string>)
    requires Ascending(ds) && forall j :: 0 <= j < |ds| ==> Less(x, ds[j])
    ensures Ascending([x] + ds)
  {
    forall i, j | 0 <= i < j < |ds| + 1 ensures Less(([x] + ds)[i], ([x] + ds)[j]) {
      if i > 0 {
        assert ([x] + ds)[i] == ds[i - 1];
      }
      assert ([x] + ds)[j] == ds[j - 1];
    }
  }

  lemma {:induction false} InsertAscending(g: Group, s: seq<Group>)
    requires Ascending(Depts(s)) && g.dept !in Depts(s)
    ensures Ascending(Depts(Insert(g, s)))
  {
    if |s| == 0 {
      assert Depts(Insert(g, s)) == [g.dept];
    } else if Less(g.dept, s[0].dept) {
      DeptsCons(g, s);
      forall j | 0 <= j < |s| ensures Less(g.dept, Depts(s)[j]) {
        if j > 0 {
          LessTransitive(g.dept, s[0].dept, s[j].dept);
        }
      }
      AscendingCons(g.dept, Depts(s));
    } else {
      var t := Insert(g, s[1..]);
      DeptsTail(s);
      LessTotal(g.dept, s[0].dept);
      AscendingTail(Depts(s));
      InsertAscending(g, s[1..]);
      InsertDepts(g, s[1..]);
      DeptsCons(s[0], t);
      forall j | 0 <= j < |t| ensures Less(s[0].dept, Depts(t)[j]) {
        assert Depts(t)[j] in Depts(t);
        if Depts(t)[j] != g.dept {
          var k :| 0 <= k < |s| - 1 && Depts(s[1..])[k] == Depts(t)[j];
          assert Depts(s)[k + 1] == Depts(t)[j];
        }
      }
      AscendingCons(s[0].dept, Depts(t));
    }
  }

  /** Sorting lists the same departments in strictly ascending order and
      keeps every department's members. */
  lemma {:induction false} SortGroupsFacts(gs: seq<Group>)
    requires Distinct(Depts(gs))
    ensures var r := SortGroups(gs);
      && Ascending(Depts(r))
      && (forall d :: d in Depts(r) <==> d in Depts(gs))
      && (forall d :: MembersOf(r, d) == MembersOf(gs, d))
  {
    if |gs| > 0 {
      assert Depts(gs) == [gs[0].dept] + Depts(gs[1..]);
      assert Distinct(Depts(gs[1..])) by {
        assert forall i :: 0 <= i < |gs| - 1 ==> Depts(gs[1..])[i] == Depts(gs)[i + 1];
      }
      SortGroupsFacts(gs[1..]);
      assert gs[0].dept !in Depts(gs[1..]) by {
        assert forall i :: 0 <= i < |gs| - 1 ==> Depts(gs[1..])[i] == Depts(gs)[i + 1];
      }
      InsertDepts(gs[0], SortGroups(gs[1..]));
      InsertMembers(gs[0], SortGroups(gs[1..]));
      InsertAscending(gs[0], SortGroups(gs[1..]));
    }
  }

  /** The groups in report order. */
  function ReportGroups(rs: seq<Record>): seq<Group> {
    SortGroups(GroupByDept(rs))
  }

  lemma {:induction false} GroupByDeptReport(rs: seq<Record>)
    ensures var gs := ReportGroups(rs);
      && Ascending(Depts(gs))
      && (forall d :: d in Depts(gs) <==> d in DeptSet(rs))
      && (forall j :: 0 <= j < |gs| ==> gs[j].members == Filter(rs, gs[j].dept))
  {
    var gs0 := GroupByDept(rs);
    var gs := ReportGroups(rs);
    GroupByDeptFacts(rs);
    SortGroupsFacts(gs0);
    AscendingDistinct(Depts(gs));
    forall j | 0 <= j < |gs| ensures gs[j].members == Filter(rs, gs[j].dept) {
      MembersOfAt(gs, j);
    }
  }

  lemma AscendingDistinct(ds: seq<string>)
    requires Ascending(ds)
    ensures Distinct(ds)
  {
    forall i, j | 0 <= i < j < |ds| ensures ds[i] != ds[j] {
      if ds[i] == ds[j] {
        LessIrreflexive(ds[i]);
      }
    }
  }

  // ---------------------------------------------------------------------
  // Totals over groups

  /** A measure summed group by group. */
  function GroupsTotal(gs: seq<Group>, m: Measure): real {
    if |gs| == 0 then 0.0 else Total(gs[0].members, m) + GroupsTotal(gs[1..], m)
  }

  /** The number of records in all groups. */
  function GroupsSize(gs: seq<Group>): nat {
    if |gs| == 0 then 0 else |gs[0].members| + GroupsSize(gs[1..])
  }

  lemma TotalSnoc(rs: seq<Record>, rec: Record, m: Measure)
    ensures Total(rs + [rec], m) == Total(rs, m) + Amount(rec, m)
  {
    assert (rs + [rec])[..|rs|] == rs;
  }

  lemma {:induction false} AddToGroupsTotal(gs: seq<Group>, rec: Record, m: Measure)
    ensures GroupsTotal(AddToGroups(gs, rec), m) == GroupsTotal(gs, m) + Amount(rec, m)
    ensures GroupsSize(AddToGroups(gs, rec)) == GroupsSize(gs) + 1
  {
    var r := AddToGroups(gs, rec);
    if |gs| == 0 {
      TotalSnoc([], rec, m);
      assert [] + [rec] == [rec];
    } else if gs[0].dept == DeptOf(rec) {
      TotalSnoc(gs[0].members, rec, m);
      assert r[1..] == gs[1..];
    } else {
      AddToGroupsTotal(gs[1..], rec, m);
      assert r[1..] == AddToGroups(gs[1..], rec);
    }
  }

  /** Summing group by group is summing record by record. */
  lemma {:induction false} GroupByDeptTotal(rs: seq<Record>, m: Measure)
    ensures GroupsTotal(GroupByDept(rs), m) == Total(rs, m)
    ensures GroupsSize(GroupByDept(rs)) == |rs|
  {
    if |rs| > 0 {
      var n := |rs| - 1;
      GroupByDeptTotal(rs[..n], m);
      AddToGroupsTotal(GroupByDept(rs[..n]), rs[n], m);
    }
  }

  lemma {:induction false} InsertTotal(g: Group, s: seq<Group>, m: Measure)
    ensures GroupsTotal(Insert(g, s), m) == Total(g.members, m) + GroupsTotal(s, m)
    ensures GroupsSize(Insert(g, s)) == |g.members| + GroupsSize(s)
  {
    var r := Insert(g, s);
    if |s| == 0 {
      assert r[1..] == [];
    } else if Less(g.dept, s[0].dept) {
      assert r[1..] == s;
    } else {
      InsertTotal(g, s[1..], m);
      assert r[1..] == Insert(g, s[1..]);
    }
  }

  lemma {:induction false} SortGroupsTotal(gs: seq<Group>, m: Measure)
    ensures GroupsTotal(SortGroups(gs), m) == GroupsTotal(gs, m)
    ensures GroupsSize(SortGroups(gs)) == GroupsSize(gs)
  {
    if |gs| > 0 {
      SortGroupsTotal(gs[1..], m);
      InsertTotal(gs[0], SortGroups(gs[1..]), m);
    }
  }

  // ---------------------------------------------------------------------
  // The report lines

  function EmployeeLine(rec: Record): Line {
    Employee(TextOr(rec, "name"), HoursOf(rec), RateOf(rec), HoursOf(rec) * RateOf(rec))
  }

  function EmployeeLines(rs: seq<Record>): (lines: seq<Line>)
    ensures |lines| == |rs|
    ensures forall i :: 0 <= i < |rs| ==> lines[i] == EmployeeLine(rs[i])
  {
    seq(|rs|, i requires 0 <= i < |rs| => EmployeeLine(rs[i]))
  }

  /** A department's block: its name, its employees, its subtotal. */
  function Section(g: Group): seq<Line> {
    [Dept(g.dept)] + EmployeeLines(g.members)
    + [Subtotal(Total(g.members, Hours), Total(g.members, Pay))]
  }

  function Sections(gs: seq<Group>): seq<Line> {
    if |gs| == 0 then [] else Section(gs[0]) + Sections(gs[1..])
  }

  /** The report on groups: the column titles, a section per group, and
      the grand totals accumulated group by group. */
  function ReportBody(gs: seq<Group>): (lines: seq<Line>)
    ensures |lines| >= 3 && lines[0] == Header
  {
    [Header] + Sections(gs) + [TotalHours(GroupsTotal(gs, Hours)), TotalPayout(GroupsTotal(gs, Pay))]
  }

  /** The report on a list of records: the sentinel when there are none. */
  function PayoutReport(rs: seq<Record>): (lines: seq<Line>)
    requires forall i :: 0 <= i < |rs| ==> WellFormed(rs[i])
    ensures lines == [NoData] <==> |rs| == 0
  {
    if |rs| == 0 then [NoData] else ReportBody(ReportGroups(rs))
  }
}
