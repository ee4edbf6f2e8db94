/** Properties of the company service that relate several operations or
    several calls: the invariants every operation keeps, what the
    `Employees` view shows after each operation, how reported hours reach
    the monthly pay, and what any sequence of calls preserves. */
module ServiceProperties {
  import opened Results
  import opened Calendar
  import opened Contracts
  import opened EmployeeInfo
  import opened CompanyService
  import opened MonthlyReport

  // ---------------------------------------------------------------------
  // The invariant `Valid` is kept by every operation
  // ---------------------------------------------------------------------

  /** Replacing one aggregate by one with the same id and valid contracts keeps `Valid`. */
  lemma ValidAfterUpdate(c: Company, i: nat, e': EmployeeInformation)
    requires Valid(c) && i < |c.employees|
    requires e'.id == c.employees[i].id && ContractsValid(e'.contracts)
    ensures Valid(Company(c.employees[i := e']))
  {
    var c' := Company(c.employees[i := e']);
    assert forall j :: 0 <= j < |c.employees| ==> c'.employees[j].id == c.employees[j].id;
  }

  /** Appending an aggregate with a new id and valid contracts keeps `Valid`. */
  lemma ValidAfterAppend(c: Company, e: EmployeeInformation)
    requires Valid(c) && ContractsValid(e.contracts)
    requires forall j :: 0 <= j < |c.employees| ==> c.employees[j].id != e.id
    ensures Valid(Company(c.employees + [e]))
  {
    var c' := Company(c.employees + [e]);
    assert forall j :: 0 <= j < |c.employees| ==> c'.employees[j] == c.employees[j];
  }

  /** Closing the latest contract at or after its start, then appending a
      contract that starts no earlier, keeps a contract list valid. */
  lemma {:induction false} SupersedeKeepsContractsValid(cs: seq<EmployeeContract>, closed: EmployeeContract, next: EmployeeContract)
    requires ContractsValid(cs)
    requires closed.IsClosed() && closed.startDate == cs[|cs| - 1].startDate
    requires closed.startDate <= closed.endDate.value
    requires cs[|cs| - 1].startDate <= next.startDate && !next.IsClosed()
    ensures ContractsValid(cs[..|cs| - 1] + [closed, next])
  {
    var n := |cs|;
    var cs' := cs[..n - 1] + [closed, next];
    assert forall k :: 0 <= k < n - 1 ==> cs'[k] == cs[k];
    assert cs'[n - 1] == closed && cs'[n] == next;
    forall j, k | 0 <= j <= k < |cs'|
      ensures cs'[j].startDate <= cs'[k].startDate
    {
      if k < n - 1 {
        assert cs[j].startDate <= cs[k].startDate;
      } else if j < n - 1 {
        assert cs[j].startDate <= cs[n - 1].startDate;
      }
    }
    assert forall k :: 0 <= k < |cs'| - 1 ==> cs'[k].IsClosed();
    forall k | 0 <= k < |cs'| && cs'[k].IsClosed()
      ensures cs'[k].startDate <= cs'[k].endDate.value
    {
      if k < n - 1 {
        assert cs'[k] == cs[k];
      }
    }
  }

  /** Contract lists with the same periods are valid alike: work logs play no part. */
  lemma ContractsValidIgnoresWorklogs(cs: seq<EmployeeContract>, cs': seq<EmployeeContract>)
    requires ContractsValid(cs) && |cs'| == |cs|
    requires forall j :: 0 <= j < |cs| ==> cs'[j].startDate == cs[j].startDate && cs'[j].endDate == cs[j].endDate
    ensures ContractsValid(cs')
  {
    assert forall j, k :: 0 <= j <= k < |cs| ==> cs[j].startDate <= cs[k].startDate;
  }

  /** Ids stay unique (a new aggregate is made only when `FirstOrDefault`
      finds none) and the contract list of the employee concerned stays
      valid: the superseded contract is closed at the new start, which is
      not before its own start, and the new contract starts last. */
  lemma AddEmployeePreservesValid(c: Company, employee: Employee, contractStartDate: Instant)
    requires Valid(c)
    ensures AddEmployee(c, employee, contractStartDate).Ok? ==> Valid(AddEmployee(c, employee, contractStartDate).value)
  {
    var r := AddEmployee(c, employee, contractStartDate);
    match FindEmployee(c.employees, employee.id)
    case None =>
      var hired := NewEmployeeInformation(employee.id, employee.fullName,
                                          NewContract(employee.hourlySalary, contractStartDate));
      ValidAfterAppend(c, hired);
    case Some(i) =>
      var e := c.employees[i];
      var last := LastContract(e);
      if r.Ok? && r.value != c {
        var closed := if last.IsClosed() then last else End(last, contractStartDate);
        var next := NewContract(employee.hourlySalary, contractStartDate);
        var cs' := e.contracts[..|e.contracts| - 1] + [closed, next];
        assert r.value == Company(c.employees[i := e.(contracts := cs')]);
        SupersedeKeepsContractsValid(e.contracts, closed, next);
        ValidAfterUpdate(c, i, e.(contracts := cs'));
      }
  }

  /** The closed contract ends strictly after its start. */
  lemma RemoveEmployeePreservesValid(c: Company, employeeId: int, contractEndDate: Instant)
    requires Valid(c)
    ensures RemoveEmployee(c, employeeId, contractEndDate).Ok? ==> Valid(RemoveEmployee(c, employeeId, contractEndDate).value)
  {
    var r := RemoveEmployee(c, employeeId, contractEndDate);
    if r.Ok? {
      var i := FindEmployee(c.employees, employeeId).value;
      var e := c.employees[i];
      var n := |e.contracts|;
      var cs' := e.contracts[n - 1 := End(e.contracts[n - 1], contractEndDate)];
      assert r.value == Company(c.employees[i := e.(contracts := cs')]);
      assert forall k :: 0 <= k < n - 1 ==> cs'[k] == e.contracts[k];
      assert ContractsValid(cs');
      ValidAfterUpdate(c, i, e.(contracts := cs'));
    }
  }

  /** Only work logs change, and `ContractsValid` does not look at them. */
  lemma ReportHoursPreservesValid(c: Company, employeeId: int, dateAndTime: Instant, hours: int, minutes: int)
    requires Valid(c)
    ensures ReportHours(c, employeeId, dateAndTime, hours, minutes).Ok? ==>
              Valid(ReportHours(c, employeeId, dateAndTime, hours, minutes).value)
  {
    var r := ReportHours(c, employeeId, dateAndTime, hours, minutes);
    if r.Ok? {
      var i := FindEmployee(c.employees, employeeId).value;
      var e := c.employees[i];
      var logs := SplitAtMidnight(dateAndTime, hours * 60 + minutes).value;
      var k := FindContractAt(e.contracts, dateAndTime).value;
      var ck := e.contracts[k];
      var cs' := e.contracts[k := ck.(worklogs := ck.worklogs + logs)];
      assert r.value == Company(c.employees[i := e.(contracts := cs')]);
      assert ContractsValid(cs') by {
        assert ContractsValid(e.contracts);
        ContractsValidIgnoresWorklogs(e.contracts, cs');
      }
      ValidAfterUpdate(c, i, e.(contracts := cs'));
    }
  }

  // ---------------------------------------------------------------------
  // What the `Employees` view shows
  // ---------------------------------------------------------------------

  /** After a successful `AddEmployee` the employee is listed, with the rate
      just given and the name stored on the first add. */
  lemma AddEmployeeListsEmployee(c: Company, employee: Employee, contractStartDate: Instant)
    requires Valid(c)
    ensures var r := AddEmployee(c, employee, contractStartDate);
      r.Ok? ==>
        var f := FindEmployee(c.employees, employee.id);
        var name := if f.Some? then c.employees[f.value].fullName else employee.fullName;
        Employee(employee.id, name, employee.hourlySalary) in Employees(r.value.employees)
  {
    var r := AddEmployee(c, employee, contractStartDate);
    if r.Ok? {
      var emps' := r.value.employees;
      match FindEmployee(c.employees, employee.id)
      case None =>
        var k := |c.employees|;
        assert IsActive(emps'[k]) && Project(emps'[k]) == Employee(employee.id, employee.fullName, employee.hourlySalary);
      case Some(i) =>
        assert IsActive(emps'[i]) && Project(emps'[i]) == Employee(employee.id, c.employees[i].fullName, employee.hourlySalary);
    }
  }

  /** After a successful `RemoveEmployee` the view is the old view without
      that id; everyone else stays listed. */
  lemma RemoveEmployeeUnlistsEmployee(c: Company, employeeId: int, contractEndDate: Instant)
    requires Valid(c)
    ensures var r := RemoveEmployee(c, employeeId, contractEndDate);
      r.Ok? ==>
        forall x :: x in Employees(r.value.employees) <==> x in Employees(c.employees) && x.id != employeeId
  {
    var r := RemoveEmployee(c, employeeId, contractEndDate);
    if r.Ok? {
      var i := FindEmployee(c.employees, employeeId).value;
      var emps, emps' := c.employees, r.value.employees;
      forall x
        ensures x in Employees(emps') <==> x in Employees(emps) && x.id != employeeId
      {
        if x in Employees(emps') {
          var j :| 0 <= j < |emps'| && IsActive(emps'[j]) && x == Project(emps'[j]);
          assert j != i && emps'[j] == emps[j];
        }
        if x in Employees(emps) && x.id != employeeId {
          var j :| 0 <= j < |emps| && IsActive(emps[j]) && x == Project(emps[j]);
          assert j != i && emps'[j] == emps[j];
        }
      }
    }
  }

  /** Reporting hours never changes who is listed. */
  lemma ReportHoursKeepsEmployees(c: Company, employeeId: int, dateAndTime: Instant, hours: int, minutes: int)
    requires HasContracts(c)
    ensures var r := ReportHours(c, employeeId, dateAndTime, hours, minutes);
      r.Ok? ==> Employees(r.value.employees) == Employees(c.employees)
  {
    var r := ReportHours(c, employeeId, dateAndTime, hours, minutes);
    if r.Ok? {
      var i := FindEmployee(c.employees, employeeId).value;
      var e := c.employees[i];
      var logs := SplitAtMidnight(dateAndTime, hours * 60 + minutes).value;
      var k := FindContractAt(e.contracts, dateAndTime).value;
      var ck := e.contracts[k];
      var e' := e.(contracts := e.contracts[k := ck.(worklogs := ck.worklogs + logs)]);
      assert r.value == Company(c.employees[i := e']);
      assert LastContract(e').endDate == LastContract(e).endDate;
      assert LastContract(e').hourlySalary == LastContract(e).hourlySalary;
      SameViewSameEmployees(c.employees, c.employees[i := e']);
    }
  }

  /** Two company states whose aggregates show the same view list the same employees. */
  lemma {:induction false} SameViewSameEmployees(a: seq<EmployeeInformation>, b: seq<EmployeeInformation>)
    requires |a| == |b|
    requires forall j :: 0 <= j < |a| ==> |a[j].contracts| > 0 && |b[j].contracts| > 0
    requires forall j :: 0 <= j < |a| ==> IsActive(a[j]) == IsActive(b[j]) && Project(a[j]) == Project(b[j])
    ensures Employees(a) == Employees(b)
    decreases |a|
  {
    if |a| > 0 {
      SameViewSameEmployees(a[1..], b[1..]);
    }
  }

  /** The positions, from `from` on, of the active employees, in increasing order. */
  function ActivePositions(emps: seq<EmployeeInformation>, from: nat): (ps: seq<nat>)
    requires forall i :: 0 <= i < |emps| ==> |emps[i].contracts| > 0
    requires from <= |emps|
    ensures forall k :: 0 <= k < |ps| ==> from <= ps[k] < |emps| && IsActive(emps[ps[k]])
    ensures forall k, l :: 0 <= k < l < |ps| ==> ps[k] < ps[l]
    ensures forall i :: from <= i < |emps| && IsActive(emps[i]) ==> i in ps
    decreases |emps| - from
  {
    if from == |emps| then []
    else (if IsActive(emps[from]) then [from] else []) + ActivePositions(emps, from + 1)
  }

  /** `Employees` lists the active employees in insertion order: its k-th
      entry is the projection of the k-th active aggregate. */
  lemma {:induction false} EmployeesInInsertionOrder(emps: seq<EmployeeInformation>, from: nat)
    requires forall i :: 0 <= i < |emps| ==> |emps[i].contracts| > 0
    requires from <= |emps|
    ensures var ps := ActivePositions(emps, from);
      && |Employees(emps[from..])| == |ps|
      && forall k :: 0 <= k < |ps| ==> Employees(emps[from..])[k] == Project(emps[ps[k]])
    decreases |emps| - from
  {
    if from < |emps| {
      EmployeesInInsertionOrder(emps, from + 1);
      assert emps[from..][1..] == emps[from + 1..];
    }
  }

  // ---------------------------------------------------------------------
  // Contract selection at a supersession instant
  // ---------------------------------------------------------------------

  /** When a new rate supersedes an open contract at `s`, both contracts
      cover `s` (they meet there), and the lookup of `ReportHours` gives it
      to the newer one. */
  lemma SupersessionInstantGoesToNewContract(c: Company, employee: Employee, s: Instant)
    requires HasContracts(c)
    requires FindEmployee(c.employees, employee.id).Some?
    requires var e := c.employees[FindEmployee(c.employees, employee.id).value];
             !LastContract(e).IsClosed() && LastContract(e).hourlySalary != employee.hourlySalary
    requires AddEmployee(c, employee, s).Ok?
    ensures var i := FindEmployee(c.employees, employee.id).value;
      var cs' := AddEmployee(c, employee, s).value.employees[i].contracts;
      && Covers(cs'[|cs'| - 2], s)
      && FindContractAt(cs', s) == Some(|cs'| - 1)
  {
  }

  /** The contract lookup uses the reported instant for both halves of a
      midnight split: work reported at 23:30 on the last day of a contract
      that ends at 23:59 puts its after-midnight half, dated the next day,
      into that ended contract. */
  lemma SplitHalfDatedAfterContractEnd()
    ensures var c := Company([EmployeeInformation(1, "", [EmployeeContract(0, Some(1439), 20.0, [])])]);
      var r := ReportHours(c, 1, 1410, 1, 0);
      && r.Ok?
      && r.value.employees[0].contracts[0].worklogs == [WorkLog(0, 30), WorkLog(1, 30)]
      && r.value.employees[0].contracts[0].endDate == Some(1439)
  {
    var c := Company([EmployeeInformation(1, "", [EmployeeContract(0, Some(1439), 20.0, [])])]);
    assert FindEmployee(c.employees, 1) == Some(0);
    assert SplitAtMidnight(1410, 60) == Ok([WorkLog(0, 30), WorkLog(1, 30)]);
    assert FindContractAt(c.employees[0].contracts, 1410) == Some(0);
  }

  // ---------------------------------------------------------------------
  // Reported hours and monthly pay
  // ---------------------------------------------------------------------

  lemma {:induction false} LogsPayAppend(a: seq<WorkLog>, b: seq<WorkLog>, rate: real, ym: YearMonth)
    ensures LogsPay(a + b, rate, ym) == LogsPay(a, rate, ym) + LogsPay(b, rate, ym)
    decreases |b|
  {
    if |b| == 0 {
      assert a + b == a;
    } else {
      assert (a + b)[..|a + b| - 1] == a + b[..|b| - 1];
      LogsPayAppend(a, b[..|b| - 1], rate, ym);
    }
  }

  /** Changing one contract's logs changes the month's pay by exactly the
      difference for that contract. */
  lemma {:induction false} ContractsPayUpdate(cs: seq<EmployeeContract>, k: nat, c': EmployeeContract, ym: YearMonth)
    requires k < |cs|
    ensures ContractsPay(cs[k := c'], ym)
         == ContractsPay(cs, ym) - LogsPay(cs[k].worklogs, cs[k].hourlySalary, ym) + LogsPay(c'.worklogs, c'.hourlySalary, ym)
    decreases |cs|
  {
    var n := |cs|;
    var cs' := cs[k := c'];
    var last := cs[n - 1];
    assert ContractsPay(cs, ym) == ContractsPay(cs[..n - 1], ym) + LogsPay(last.worklogs, last.hourlySalary, ym);
    if k < n - 1 {
      assert cs'[n - 1] == last;
      assert cs'[..n - 1] == cs[..n - 1][k := c'];
      ContractsPayUpdate(cs[..n - 1], k, c', ym);
      assert ContractsPay(cs', ym) == ContractsPay(cs[..n - 1][k := c'], ym) + LogsPay(last.worklogs, last.hourlySalary, ym);
    } else {
      assert cs'[..n - 1] == cs[..n - 1];
      assert ContractsPay(cs', ym) == ContractsPay(cs[..n - 1], ym) + LogsPay(c'.worklogs, c'.hourlySalary, ym);
    }
  }

  /** A successful `ReportHours` adds to every month's pay of that employee
      exactly the pay of the new entries dated in that month, at the rate of
      the contract that received them; no other employee's pay changes. */
  lemma ReportHoursAddsPay(c: Company, employeeId: int, dateAndTime: Instant, hours: int, minutes: int, ym: YearMonth)
    requires HasContracts(c)
    requires ReportHours(c, employeeId, dateAndTime, hours, minutes).Ok?
    ensures var c' := ReportHours(c, employeeId, dateAndTime, hours, minutes).value;
      var i := FindEmployee(c.employees, employeeId).value;
      var cs := c.employees[i].contracts;
      var k := FindContractAt(cs, dateAndTime).value;
      var logs := SplitAtMidnight(dateAndTime, hours * 60 + minutes).value;
      && ContractsPay(c'.employees[i].contracts, ym) == ContractsPay(cs, ym) + LogsPay(logs, cs[k].hourlySalary, ym)
      && forall j :: 0 <= j < |c.employees| && j != i ==> RowFor(c'.employees[j], ym) == RowFor(c.employees[j], ym)
  {
    var c' := ReportHours(c, employeeId, dateAndTime, hours, minutes).value;
    var i := FindEmployee(c.employees, employeeId).value;
    var cs := c.employees[i].contracts;
    var k := FindContractAt(cs, dateAndTime).value;
    var logs := SplitAtMidnight(dateAndTime, hours * 60 + minutes).value;
    var ck' := cs[k].(worklogs := cs[k].worklogs + logs);
    assert c' == Company(c.employees[i := c.employees[i].(contracts := cs[k := ck'])]);
    ContractsPayUpdate(cs, k, ck', ym);
    LogsPayAppend(cs[k].worklogs, logs, cs[k].hourlySalary, ym);
  }

  /** A successful `ReportHours` adds exactly the reported duration to the
      minutes logged under the receiving contract, whether or not the work
      was split at midnight. */
  lemma ReportHoursAddsMinutes(c: Company, employeeId: int, dateAndTime: Instant, hours: int, minutes: int)
    requires HasContracts(c)
    requires ReportHours(c, employeeId, dateAndTime, hours, minutes).Ok?
    ensures var c' := ReportHours(c, employeeId, dateAndTime, hours, minutes).value;
      var i := FindEmployee(c.employees, employeeId).value;
      var cs := c.employees[i].contracts;
      var k := FindContractAt(cs, dateAndTime).value;
      TotalMinutes(c'.employees[i].contracts[k].worklogs) == TotalMinutes(cs[k].worklogs) + hours * 60 + minutes
  {
    var c' := ReportHours(c, employeeId, dateAndTime, hours, minutes).value;
    var i := FindEmployee(c.employees, employeeId).value;
    var cs := c.employees[i].contracts;
    var k := FindContractAt(cs, dateAndTime).value;
    var logs := SplitAtMidnight(dateAndTime, hours * 60 + minutes).value;
    var ck' := cs[k].(worklogs := cs[k].worklogs + logs);
    assert c' == Company(c.employees[i := c.employees[i].(contracts := cs[k := ck'])]);
    TotalMinutesAppend(cs[k].worklogs, logs);
  }

  /** Paying two pieces of work at one rate is paying their total. */
  lemma LogPayAdds(a: WorkLog, b: WorkLog, rate: real)
    ensures LogPay(a, rate) + LogPay(b, rate) == MinutesPay(a.duration + b.duration, rate)
  {
    assert (a.duration as real) * rate + (b.duration as real) * rate
        == ((a.duration as real) + (b.duration as real)) * rate;
  }

  /** The pay of two entries, month by month. */
  lemma LogsPayOfPair(a: WorkLog, b: WorkLog, rate: real, ym: YearMonth)
    ensures LogsPay([a, b], rate, ym)
         == (if YearMonthOfDay(a.date) == ym then LogPay(a, rate) else 0.0)
          + (if YearMonthOfDay(b.date) == ym then LogPay(b, rate) else 0.0)
  {
    assert [a, b][..1] == [a] && [a][..0] == [];
    assert LogsPay([a], rate, ym) == (if YearMonthOfDay(a.date) == ym then LogPay(a, rate) else 0.0);
  }

  /** Two entries are paid, over the month or two they fall in, their
      total duration at the rate. */
  lemma PairPaysWhole(a: WorkLog, b: WorkLog, rate: real)
    ensures var ym1, ym2 := YearMonthOfDay(a.date), YearMonthOfDay(b.date);
      LogsPay([a, b], rate, ym1) + (if ym2 != ym1 then LogsPay([a, b], rate, ym2) else 0.0)
        == MinutesPay(a.duration + b.duration, rate)
  {
    LogPayAdds(a, b, rate);
    LogsPayOfPair(a, b, rate, YearMonthOfDay(a.date));
    LogsPayOfPair(a, b, rate, YearMonthOfDay(b.date));
  }

  /** One or two entries are paid, over the months of the first and the last
      entry, their total minutes at the rate. */
  lemma ShortLogsPayTotal(logs: seq<WorkLog>, rate: real)
    requires 1 <= |logs| <= 2
    ensures var ym1 := YearMonthOfDay(logs[0].date);
      var ym2 := YearMonthOfDay(logs[|logs| - 1].date);
      LogsPay(logs, rate, ym1) + (if ym2 != ym1 then LogsPay(logs, rate, ym2) else 0.0)
        == MinutesPay(TotalMinutes(logs), rate)
  {
    if |logs| == 2 {
      assert logs == [logs[0], logs[1]];
      assert TotalMinutes(logs) == logs[0].duration + logs[1].duration by {
        assert logs[..1] == [logs[0]] && logs[..1][..0] == [];
        assert TotalMinutes(logs[..1]) == logs[0].duration;
      }
      PairPaysWhole(logs[0], logs[1], rate);
    } else {
      assert logs[..0] == [];
    }
  }

  /** The entries of one report are paid, over the months they fall in, the
      full reported duration at the contract's rate: splitting at midnight
      loses nothing. */
  lemma SplitPaysWholeDuration(t: Instant, duration: nat, rate: real)
    requires SplitAtMidnight(t, duration).Ok?
    ensures var logs := SplitAtMidnight(t, duration).value;
      var ym1 := YearMonthOfDay(logs[0].date);
      var ym2 := YearMonthOfDay(logs[|logs| - 1].date);
      LogsPay(logs, rate, ym1) + (if ym2 != ym1 then LogsPay(logs, rate, ym2) else 0.0)
        == MinutesPay(duration, rate)
  {
    ShortLogsPayTotal(SplitAtMidnight(t, duration).value, rate);
  }

  // ---------------------------------------------------------------------
  // Any sequence of calls
  // ---------------------------------------------------------------------

  /** A call on the service. */
  datatype Command =
    | Add(employee: Employee, contractStartDate: Instant)
    | Remove(employeeId: int, contractEndDate: Instant)
    | Report(employeeId: int, dateAndTime: Instant, hours: int, minutes: int)

  /** The company after one call: a call that raises leaves it unchanged. */
  function Apply(c: Company, cmd: Command): (c': Company)
    requires HasContracts(c)
    ensures HasContracts(c') && Evolves(c, c')
  {
    var r := match cmd
      case Add(employee, start) => AddEmployee(c, employee, start)
      case Remove(id, end) => RemoveEmployee(c, id, end)
      case Report(id, t, h, m) => ReportHours(c, id, t, h, m);
    if r.Ok? then r.value
    else
      assert Evolves(c, c) by {
        assert forall i :: 0 <= i < |c.employees| ==> EmployeeEvolves(c.employees[i], c.employees[i]);
      }
      c
  }

  /** The company after a sequence of calls. */
  function Run(c: Company, cmds: seq<Command>): Company
    requires HasContracts(c)
    decreases |cmds|
  {
    if |cmds| == 0 then c else Run(Apply(c, cmds[0]), cmds[1..])
  }

  lemma EvolvesTransitive(a: Company, b: Company, c: Company)
    requires Evolves(a, b) && Evolves(b, c)
    ensures Evolves(a, c)
  {
    forall i | 0 <= i < |a.employees|
      ensures EmployeeEvolves(a.employees[i], c.employees[i])
    {
      var ea, eb, ec := a.employees[i], b.employees[i], c.employees[i];
      forall k | 0 <= k < |ea.contracts|
        ensures ContractEvolves(ea.contracts[k], ec.contracts[k])
      {
        ContractEvolvesTransitive(ea.contracts[k], eb.contracts[k], ec.contracts[k]);
      }
    }
  }

  /** Every state reached by any sequence of calls keeps the invariant, and
      keeps everything earlier states recorded: ids, names, contract starts
      and rates, set end dates and logged work. */
  lemma {:induction false} RunPreservesValid(c: Company, cmds: seq<Command>)
    requires Valid(c)
    ensures Valid(Run(c, cmds)) && Evolves(c, Run(c, cmds))
    decreases |cmds|
  {
    if |cmds| == 0 {
      assert forall i :: 0 <= i < |c.employees| ==> EmployeeEvolves(c.employees[i], c.employees[i]);
    } else {
      var c1 := Apply(c, cmds[0]);
      match cmds[0] {
        case Add(employee, start) => AddEmployeePreservesValid(c, employee, start);
        case Remove(id, end) => RemoveEmployeePreservesValid(c, id, end);
        case Report(id, t, h, m) => ReportHoursPreservesValid(c, id, t, h, m);
      }
      RunPreservesValid(c1, cmds[1..]);
      EvolvesTransitive(c, c1, Run(c1, cmds[1..]));
    }
  }

  /** The states the service can reach from its empty start are valid. */
  lemma ReachableStatesAreValid(cmds: seq<Command>)
    ensures Valid(Run(Company([]), cmds))
  {
    RunPreservesValid(Company([]), cmds);
  }
}
