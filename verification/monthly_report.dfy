/** `GetMonthlyReport`: per employee and per calendar month, the pay for the
    hours logged in that month under all of the employee's contracts. */
module MonthlyReport {
  import opened Results
  import opened Calendar
  import opened Contracts
  import opened EmployeeInfo
  import opened CompanyService

  /** `EmployeeMonthlyReport`: one row of the report. */
  datatype EmployeeMonthlyReport = EmployeeMonthlyReport(employeeId: int, year: int, month: int, salary: real)

  /** The pay for `minutes` of work at an hourly rate: the exact length in
      hours times the rate. */
  function MinutesPay(minutes: nat, rate: real): real {
    (minutes as real) * rate / 60.0
  }

  /** The pay for one work log at an hourly rate. */
  function LogPay(w: WorkLog, rate: real): real {
    MinutesPay(w.duration, rate)
  }

  /** Pay at `rate` for the logs dated in month `ym`. */
  function LogsPay(logs: seq<WorkLog>, rate: real, ym: YearMonth): real {
    if |logs| == 0 then 0.0
    else
      var w := logs[|logs| - 1];
      LogsPay(logs[..|logs| - 1], rate, ym) + (if YearMonthOfDay(w.date) == ym then LogPay(w, rate) else 0.0)
  }

  /** An employee's pay for month `ym`: over every contract, the logs dated in
      that month at that contract's rate. */
  function ContractsPay(cs: seq<EmployeeContract>, ym: YearMonth): real {
    if |cs| == 0 then 0.0
    else
      var c := cs[|cs| - 1];
      ContractsPay(cs[..|cs| - 1], ym) + LogsPay(c.worklogs, c.hourlySalary, ym)
  }

  /** The report row for an employee and a month. */
  function RowFor(e: EmployeeInformation, ym: YearMonth): EmployeeMonthlyReport {
    EmployeeMonthlyReport(e.id, ym.year, ym.month, ContractsPay(e.contracts, ym))
  }

  /** The rows `rowOf(e)` of the employees `e`, in order, whose salary is not
      zero. */
  function PaidRows(emps: seq<EmployeeInformation>, rowOf: EmployeeInformation -> EmployeeMonthlyReport)
    : seq<EmployeeMonthlyReport>
  {
    if |emps| == 0 then []
    else
      var row := rowOf(emps[|emps| - 1]);
      PaidRows(emps[..|emps| - 1], rowOf) + (if row.salary != 0.0 then [row] else [])
  }

  /** The row of each employee for month `ym`. */
  function RowsFor(ym: YearMonth): EmployeeInformation -> EmployeeMonthlyReport {
    e => RowFor(e, ym)
  }

  /** The rows of one month: every employee in order whose pay is not zero. */
  function MonthRows(emps: seq<EmployeeInformation>, ym: YearMonth): seq<EmployeeMonthlyReport> {
    PaidRows(emps, RowsFor(ym))
  }

  /** The rows `rowsOf(m)` of every month index `m` in `[lo, hi)`, one month
      after another. */
  function Flatten(lo: int, hi: int, rowsOf: int -> seq<EmployeeMonthlyReport>): seq<EmployeeMonthlyReport>
    decreases hi - lo
  {
    if hi <= lo then [] else Flatten(lo, hi - 1, rowsOf) + rowsOf(hi - 1)
  }

  /** The rows of each month, by month index. */
  function RowsByMonth(emps: seq<EmployeeInformation>): int -> seq<EmployeeMonthlyReport> {
    m => MonthRows(emps, YearMonthAt(m))
  }

  /** The rows of the months with index in `[lo, hi)`, month after month. */
  function ReportRows(lo: int, hi: int, emps: seq<EmployeeInformation>): seq<EmployeeMonthlyReport> {
    Flatten(lo, hi, RowsByMonth(emps))
  }

  /** One more month appends that month's rows. */
  lemma ReportRowsNext(lo: int, hi: int, emps: seq<EmployeeInformation>)
    requires lo <= hi
    ensures ReportRows(lo, hi + 1, emps) == ReportRows(lo, hi, emps) + MonthRows(emps, YearMonthAt(hi))
  {
  }

  /** The `foreach` over employees for one month: a row for each employee,
      in insertion order, whose pay that month is not zero. */
  method RowsOfMonth(emps: seq<EmployeeInformation>, ym: YearMonth)
    returns (rows: seq<EmployeeMonthlyReport>)
    ensures rows == MonthRows(emps, ym)
  {
    rows := [];
    var i := 0;
    while i < |emps|
      invariant 0 <= i <= |emps|
      invariant rows == MonthRows(emps[..i], ym)
    {
      var employee := emps[i];
      var salary := ContractsPay(employee.contracts, ym);
      assert emps[..i + 1][..i] == emps[..i];
      if salary != 0.0 {
        rows := rows + [EmployeeMonthlyReport(employee.id, ym.year, ym.month, salary)];
      }
      i := i + 1;
    }
    assert emps[..i] == emps;
  }

  /** `GetMonthlyReport`, with the source's two nested do-while loops over
      years and months. It fails unless the start is before the end;
      otherwise it reports every month from the start's month through the
      end's month, both included. */
  method GetMonthlyReport(c: Company, periodStartDate: Instant, periodEndDate: Instant)
    returns (r: Result<seq<EmployeeMonthlyReport>>)
    ensures r.Err? <==> periodEndDate <= periodStartDate
    ensures r.Err? ==> r.error == InvalidPeriod
    ensures r.Ok? ==>
      r.value == ReportRows(MonthIndex(YearMonthOf(periodStartDate)),
                            MonthIndex(YearMonthOf(periodEndDate)) + 1, c.employees)
  {
    if periodStartDate >= periodEndDate {
      return Err(InvalidPeriod);
    }
    var first := YearMonthOf(periodStartDate);
    var last := YearMonthOf(periodEndDate);
    YearMonthOfMonotone(periodStartDate, periodEndDate);
    var reports := Months(c.employees, first, last);
    return Ok(reports);
  }

  /** The two do-while loops of `GetMonthlyReport`, from month `first` to
      month `last`. */
  method Months(emps: seq<EmployeeInformation>, first: YearMonth, last: YearMonth)
    returns (reports: seq<EmployeeMonthlyReport>)
    requires 1 <= first.month <= 12 && 1 <= last.month <= 12
    requires MonthIndex(first) <= MonthIndex(last)
    ensures reports == ReportRows(MonthIndex(first), MonthIndex(last) + 1, emps)
  {
    ghost var lo := MonthIndex(first);
    reports := [];
    var currentYear := first.year;
    var currentMonth := first.month;
    while true
      invariant first.year <= currentYear <= last.year
      invariant currentMonth == (if currentYear == first.year then first.month else 1)
      invariant reports == ReportRows(lo, MonthIndex(YearMonth(currentYear, currentMonth)), emps)
      decreases last.year - currentYear
    {
      var currentEndMonth := if currentYear == last.year then last.month else 12;
      while true
        invariant 1 <= currentMonth <= currentEndMonth <= 12
        invariant lo <= MonthIndex(YearMonth(currentYear, currentMonth))
        invariant reports == ReportRows(lo, MonthIndex(YearMonth(currentYear, currentMonth)), emps)
        decreases currentEndMonth - currentMonth
      {
        var ym := YearMonth(currentYear, currentMonth);
        var rows := RowsOfMonth(emps, ym);
        YearMonthAtIndex(ym);
        ReportRowsNext(lo, MonthIndex(ym), emps);
        reports := reports + rows;
        var more := currentMonth < currentEndMonth;
        currentMonth := currentMonth + 1;
        if !more {
          break;
        }
      }
      currentMonth := 1;
      var moreYears := currentYear < last.year;
      currentYear := currentYear + 1;
      if !moreYears {
        break;
      }
    }
  }

  // ---------------------------------------------------------------------
  // What the report contains, and in which order
  // ---------------------------------------------------------------------

  /** The month index of a row. */
  function RowMonth(x: EmployeeMonthlyReport): int {
    MonthIndex(YearMonth(x.year, x.month))
  }

  /** The positions below `n` of the employees whose row has a salary, in
      increasing order. */
  function PaidPositions(emps: seq<EmployeeInformation>, rowOf: EmployeeInformation -> EmployeeMonthlyReport, n: nat)
    : (ps: seq<nat>)
    requires n <= |emps|
    ensures forall k :: 0 <= k < |ps| ==> ps[k] < n && rowOf(emps[ps[k]]).salary != 0.0
    ensures forall k, l :: 0 <= k < l < |ps| ==> ps[k] < ps[l]
    ensures forall j :: 0 <= j < n && rowOf(emps[j]).salary != 0.0 ==> j in ps
  {
    if n == 0 then []
    else PaidPositions(emps, rowOf, n - 1) + (if rowOf(emps[n - 1]).salary != 0.0 then [n - 1] else [])
  }

  /** The rows kept are, in insertion order, those of the employees whose
      row has a salary. */
  lemma {:induction false} PaidRowsInInsertionOrder(emps: seq<EmployeeInformation>, rowOf: EmployeeInformation -> EmployeeMonthlyReport, n: nat)
    requires n <= |emps|
    ensures var ps := PaidPositions(emps, rowOf, n);
      && |PaidRows(emps[..n], rowOf)| == |ps|
      && forall k :: 0 <= k < |ps| ==> PaidRows(emps[..n], rowOf)[k] == rowOf(emps[ps[k]])
  {
    if n > 0 {
      PaidRowsInInsertionOrder(emps, rowOf, n - 1);
      var row := rowOf(emps[n - 1]);
      var extra := if row.salary != 0.0 then [row] else [];
      var rows := PaidRows(emps[..n - 1], rowOf);
      assert emps[..n][..n - 1] == emps[..n - 1];
      assert PaidRows(emps[..n], rowOf) == rows + extra;
      assert forall k :: 0 <= k < |rows| ==> (rows + extra)[k] == rows[k];
    }
  }

  /** The rows of one month are, in insertion order, those of the employees
      paid something that month. */
  lemma MonthRowsInInsertionOrder(emps: seq<EmployeeInformation>, ym: YearMonth)
    ensures var ps := PaidPositions(emps, RowsFor(ym), |emps|);
      && |MonthRows(emps, ym)| == |ps|
      && forall k :: 0 <= k < |ps| ==> MonthRows(emps, ym)[k] == RowFor(emps[ps[k]], ym)
  {
    PaidRowsInInsertionOrder(emps, RowsFor(ym), |emps|);
    assert emps[..|emps|] == emps;
  }

  /** A row is kept exactly when it is the row of some employee and its
      salary is not zero. */
  lemma {:induction false} PaidRowsMembers(emps: seq<EmployeeInformation>, rowOf: EmployeeInformation -> EmployeeMonthlyReport)
    ensures forall x :: x in PaidRows(emps, rowOf) <==>
      exists j :: 0 <= j < |emps| && x == rowOf(emps[j]) && x.salary != 0.0
    decreases |emps|
  {
    if |emps| > 0 {
      var n := |emps|;
      var front := emps[..n - 1];
      PaidRowsMembers(front, rowOf);
      forall x
        ensures x in PaidRows(emps, rowOf) <==>
          exists j :: 0 <= j < n && x == rowOf(emps[j]) && x.salary != 0.0
      {
        if x in PaidRows(front, rowOf) {
          var j :| 0 <= j < n - 1 && x == rowOf(front[j]) && x.salary != 0.0;
          assert front[j] == emps[j];
        }
        if exists j :: 0 <= j < n && x == rowOf(emps[j]) && x.salary != 0.0 {
          var j :| 0 <= j < n && x == rowOf(emps[j]) && x.salary != 0.0;
          if j < n - 1 {
            assert front[j] == emps[j];
          }
        }
      }
    }
  }

  /** A row is in a month's rows exactly when it is the row of some employee
      paid something that month. */
  lemma MonthRowsMembers(emps: seq<EmployeeInformation>, ym: YearMonth)
    ensures forall x :: x in MonthRows(emps, ym) <==>
      exists j :: 0 <= j < |emps| && x == RowFor(emps[j], ym) && x.salary != 0.0
  {
    PaidRowsMembers(emps, RowsFor(ym));
    forall x
      ensures x in MonthRows(emps, ym) <==>
        exists j :: 0 <= j < |emps| && x == RowFor(emps[j], ym) && x.salary != 0.0
    {
      if x in MonthRows(emps, ym) {
        var j :| 0 <= j < |emps| && x == RowsFor(ym)(emps[j]) && x.salary != 0.0;
        assert x == RowFor(emps[j], ym);
      }
      if exists j :: 0 <= j < |emps| && x == RowFor(emps[j], ym) && x.salary != 0.0 {
        var j :| 0 <= j < |emps| && x == RowFor(emps[j], ym) && x.salary != 0.0;
        assert x == RowsFor(ym)(emps[j]);
      }
    }
  }

  /** Rows kept from rows all dated `(year, month)` are dated so too. */
  lemma {:induction false} PaidRowsDated(emps: seq<EmployeeInformation>, rowOf: EmployeeInformation -> EmployeeMonthlyReport, year: int, month: int)
    requires forall j :: 0 <= j < |emps| ==> rowOf(emps[j]).year == year && rowOf(emps[j]).month == month
    ensures forall a :: 0 <= a < |PaidRows(emps, rowOf)| ==>
      PaidRows(emps, rowOf)[a].year == year && PaidRows(emps, rowOf)[a].month == month
    decreases |emps|
  {
    if |emps| > 0 {
      var front := emps[..|emps| - 1];
      assert forall j :: 0 <= j < |front| ==> front[j] == emps[j];
      PaidRowsDated(front, rowOf, year, month);
      var row := rowOf(emps[|emps| - 1]);
      var rows := PaidRows(front, rowOf) + (if row.salary != 0.0 then [row] else []);
      assert PaidRows(emps, rowOf) == rows;
      assert forall a :: 0 <= a < |PaidRows(front, rowOf)| ==> rows[a] == PaidRows(front, rowOf)[a];
    }
  }

  /** Every row of a month's rows is dated in that month. */
  lemma MonthRowsDated(emps: seq<EmployeeInformation>, ym: YearMonth)
    ensures forall a :: 0 <= a < |MonthRows(emps, ym)| ==>
      MonthRows(emps, ym)[a].year == ym.year && MonthRows(emps, ym)[a].month == ym.month
  {
    PaidRowsDated(emps, RowsFor(ym), ym.year, ym.month);
  }

  /** A row is in a month-by-month concatenation exactly when it is among
      the rows of one of its months. */
  lemma {:induction false} FlattenMembers(lo: int, hi: int, rowsOf: int -> seq<EmployeeMonthlyReport>)
    ensures forall x :: x in Flatten(lo, hi, rowsOf) <==> exists m :: lo <= m < hi && x in rowsOf(m)
    decreases hi - lo
  {
    if lo < hi {
      FlattenMembers(lo, hi - 1, rowsOf);
      var front, month := Flatten(lo, hi - 1, rowsOf), rowsOf(hi - 1);
      assert Flatten(lo, hi, rowsOf) == front + month;
      forall x
        ensures x in Flatten(lo, hi, rowsOf) <==> exists m :: lo <= m < hi && x in rowsOf(m)
      {
        if x in front {
          var m :| lo <= m < hi - 1 && x in rowsOf(m);
          assert lo <= m < hi && x in rowsOf(m);
        } else if x in month {
          assert lo <= hi - 1 < hi && x in rowsOf(hi - 1);
        }
        if exists m :: lo <= m < hi && x in rowsOf(m) {
          var m :| lo <= m < hi && x in rowsOf(m);
          if m < hi - 1 {
            assert x in front;
          }
        }
      }
    }
  }

  /** A row is in the report of months `[lo, hi)` exactly when it is among
      the rows of one of those months. */
  lemma ReportRowsMembers(lo: int, hi: int, emps: seq<EmployeeInformation>)
    ensures forall x :: x in ReportRows(lo, hi, emps) <==>
      exists m :: lo <= m < hi && x in RowsByMonth(emps)(m)
  {
    FlattenMembers(lo, hi, RowsByMonth(emps));
  }

  /** Rows dated in the months `[lo, hi)`, whose months never go back. */
  predicate Chronological(rows: seq<EmployeeMonthlyReport>, lo: int, hi: int) {
    && (forall a :: 0 <= a < |rows| ==> lo <= RowMonth(rows[a]) < hi)
    && (forall a, b :: 0 <= a < b < |rows| ==> RowMonth(rows[a]) <= RowMonth(rows[b]))
  }

  /** Concatenating, month after month, rows each dated in its own month
      gives rows in chronological order. */
  lemma {:induction false} FlattenChronological(lo: int, hi: int, rowsOf: int -> seq<EmployeeMonthlyReport>)
    requires forall m, a :: lo <= m < hi && 0 <= a < |rowsOf(m)| ==> RowMonth(rowsOf(m)[a]) == m
    ensures Chronological(Flatten(lo, hi, rowsOf), lo, hi)
    decreases hi - lo
  {
    if lo < hi {
      FlattenChronological(lo, hi - 1, rowsOf);
      var front, month := Flatten(lo, hi - 1, rowsOf), rowsOf(hi - 1);
      var rows := front + month;
      assert Flatten(lo, hi, rowsOf) == rows;
      assert forall a :: |front| <= a < |rows| ==> rows[a] == month[a - |front|];
      assert forall a :: 0 <= a < |front| ==> rows[a] == front[a];
    }
  }

  /** The report runs month after month: every row is dated in `[lo, hi)`
      and the months of its rows never go back. */
  lemma ReportRowsChronological(lo: int, hi: int, emps: seq<EmployeeInformation>)
    ensures Chronological(ReportRows(lo, hi, emps), lo, hi)
  {
    var rowsOf := RowsByMonth(emps);
    forall m, a | lo <= m < hi && 0 <= a < |rowsOf(m)|
      ensures RowMonth(rowsOf(m)[a]) == m
    {
      var ym := YearMonthAt(m);
      MonthRowsDated(emps, ym);
      assert YearMonth(rowsOf(m)[a].year, rowsOf(m)[a].month) == ym;
    }
    FlattenChronological(lo, hi, rowsOf);
  }
}
