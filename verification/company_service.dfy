/** `CompanyService`: the in-memory store of one company's employees, their
    contracts and their reported hours. Each state-changing operation is a
    function from the current company to the next one, or to the error the
    source raises; an error leaves the company as it was. */
module CompanyService {
  import opened Results
  import opened Calendar
  import opened Contracts
  import opened EmployeeInfo

  /** The service's state: `_employees`, in insertion order. */
  datatype Company = Company(employees: seq<EmployeeInformation>)

  /** Every employee has at least one contract, so `Contracts.Last()` is
      defined; the operations rely on it. */
  predicate HasContracts(c: Company) {
    forall i :: 0 <= i < |c.employees| ==> |c.employees[i].contracts| > 0
  }

  predicate UniqueIds(c: Company) {
    forall i, j :: 0 <= i < j < |c.employees| ==> c.employees[i].id != c.employees[j].id
  }

  /** The invariant the service keeps: ids are unique and every employee's
      contract list satisfies `ContractsValid`. */
  predicate Valid(c: Company) {
    && UniqueIds(c)
    && forall i :: 0 <= i < |c.employees| ==> ContractsValid(c.employees[i].contracts)
  }

  /** `c2` is a later state of `c1` in which nothing recorded in `c1` is lost
      or rewritten: employees are only appended and each existing one only
      evolves (`EmployeeEvolves`). */
  predicate Evolves(c1: Company, c2: Company) {
    && |c1.employees| <= |c2.employees|
    && forall i :: 0 <= i < |c1.employees| ==> EmployeeEvolves(c1.employees[i], c2.employees[i])
  }

  /** `GetEmployeeById`: `FirstOrDefault` by id, as a position. */
  function FindEmployee(emps: seq<EmployeeInformation>, id: int): (r: Option<nat>)
    ensures r.Some? ==> r.value < |emps| && emps[r.value].id == id
    ensures r.Some? ==> forall j :: 0 <= j < r.value ==> emps[j].id != id
    ensures r.None? <==> forall j :: 0 <= j < |emps| ==> emps[j].id != id
  {
    if |emps| == 0 then None
    else if emps[0].id == id then Some(0)
    else match FindEmployee(emps[1..], id)
      case None => None
      case Some(k) => Some(k + 1)
  }

  /** The `Employees` getter: the employees whose latest contract is open,
      each with that contract's rate, in insertion order. */
  function Employees(emps: seq<EmployeeInformation>): (r: seq<Employee>)
    requires forall i :: 0 <= i < |emps| ==> |emps[i].contracts| > 0
    ensures |r| <= |emps|
    ensures forall x :: x in r <==> exists i :: 0 <= i < |emps| && IsActive(emps[i]) && x == Project(emps[i])
  {
    if |emps| == 0 then []
    else
      var rest := Employees(emps[1..]);
      assert forall i :: 1 <= i < |emps| ==> emps[i] == emps[1..][i - 1];
      (if IsActive(emps[0]) then [Project(emps[0])] else []) + rest
  }

  /** `AddEmployee`: a new id gets a new aggregate with one open contract; a
      known id may not start a contract before its latest one; an open
      latest contract with the same rate makes the call a no-op; otherwise
      an open latest contract is closed at the new start and a new open
      contract is appended. The stored name is never updated. */
  function AddEmployee(c: Company, employee: Employee, contractStartDate: Instant): (r: Result<Company>)
    requires HasContracts(c)
    ensures r.Ok? ==> HasContracts(r.value) && Evolves(c, r.value)
    ensures r.Err? ==> r.error == InvalidStartDate
    ensures FindEmployee(c.employees, employee.id).None? ==>
      && r.Ok?
      && |r.value.employees| == |c.employees| + 1
      && r.value.employees[..|c.employees|] == c.employees
      && r.value.employees[|c.employees|]
         == NewEmployeeInformation(employee.id, employee.fullName, NewContract(employee.hourlySalary, contractStartDate))
    ensures var f := FindEmployee(c.employees, employee.id);
      f.Some? ==>
        var e := c.employees[f.value];
        var last := LastContract(e);
        && (r.Err? <==> contractStartDate < last.startDate)
        && (r.Ok? && !last.IsClosed() && last.hourlySalary == employee.hourlySalary ==> r.value == c)
        && (r.Ok? && (last.IsClosed() || last.hourlySalary != employee.hourlySalary) ==>
              var e' := r.value.employees[f.value];
              && |r.value.employees| == |c.employees|
              && (forall j :: 0 <= j < |c.employees| && j != f.value ==> r.value.employees[j] == c.employees[j])
              && |e'.contracts| == |e.contracts| + 1
              && e'.contracts[|e.contracts| - 1].endDate
                 == (if last.IsClosed() then last.endDate else Some(contractStartDate))
              && LastContract(e') == NewContract(employee.hourlySalary, contractStartDate)
              && e' == e.(contracts := e.contracts[..|e.contracts| - 1]
                          + [if last.IsClosed() then last else End(last, contractStartDate),
                             NewContract(employee.hourlySalary, contractStartDate)]))
  {
    match FindEmployee(c.employees, employee.id)
    case None =>
      var hired := NewEmployeeInformation(employee.id, employee.fullName,
                                          NewContract(employee.hourlySalary, contractStartDate));
      Ok(Company(c.employees + [hired]))
    case Some(i) =>
      var e := c.employees[i];
      var last := LastContract(e);
      if last.startDate > contractStartDate then Err(InvalidStartDate)
      else if !last.IsClosed() && last.hourlySalary == employee.hourlySalary then Ok(c)
      else
        var closed := if last.IsClosed() then last else End(last, contractStartDate);
        var n := |e.contracts|;
        var contracts := e.contracts[..n - 1] + [closed, NewContract(employee.hourlySalary, contractStartDate)];
        assert forall k :: 0 <= k < n - 1 ==> contracts[k] == e.contracts[k];
        Ok(Company(c.employees[i := e.(contracts := contracts)]))
  }

  /** `RemoveEmployee`: closes the latest contract of a known, active
      employee at a date strictly after that contract's start. */
  function RemoveEmployee(c: Company, employeeId: int, contractEndDate: Instant): (r: Result<Company>)
    requires HasContracts(c)
    ensures r.Ok? ==> HasContracts(r.value) && Evolves(c, r.value)
    ensures FindEmployee(c.employees, employeeId).None? ==> r == Err(UnknownEmployee)
    ensures var f := FindEmployee(c.employees, employeeId);
      f.Some? ==>
        var e := c.employees[f.value];
        var last := LastContract(e);
        && (last.IsClosed() ==> r == Err(AlreadyRemoved))
        && (!last.IsClosed() && contractEndDate <= last.startDate ==> r == Err(EndNotAfterStart))
        && (!last.IsClosed() && last.startDate < contractEndDate ==>
              && r.Ok?
              && |r.value.employees| == |c.employees|
              && (forall j :: 0 <= j < |c.employees| && j != f.value ==> r.value.employees[j] == c.employees[j])
              && var e' := r.value.employees[f.value];
              && e'.contracts[..|e.contracts| - 1] == e.contracts[..|e.contracts| - 1]
              && |e'.contracts| == |e.contracts|
              && LastContract(e').endDate == Some(contractEndDate)
              && !IsActive(e')
              && e' == e.(contracts := e.contracts[|e.contracts| - 1 := End(last, contractEndDate)]))
  {
    match FindEmployee(c.employees, employeeId)
    case None => Err(UnknownEmployee)
    case Some(i) =>
      var e := c.employees[i];
      var last := LastContract(e);
      if last.IsClosed() then Err(AlreadyRemoved)
      else if last.startDate >= contractEndDate then Err(EndNotAfterStart)
      else
        var n := |e.contracts|;
        Ok(Company(c.employees[i := e.(contracts := e.contracts[n - 1 := End(last, contractEndDate)])]))
  }

  /** The duration checks of `ReportHours`, in the source's order. The
      accepted durations are exactly 0 to 480 minutes. */
  function ReportedMinutes(hours: int, minutes: int): (r: Result<nat>)
    ensures r.Ok? <==> 0 <= hours && 0 <= minutes <= 59 && hours * 60 + minutes <= 480
    ensures r.Ok? ==> r.value == hours * 60 + minutes
    ensures hours < 0 ==> r == Err(InvalidHours)
    ensures 0 <= hours && (minutes < 0 || 59 < minutes) ==> r == Err(InvalidMinutes)
    ensures 0 <= hours && 0 <= minutes <= 59 && 480 < hours * 60 + minutes ==> r == Err(Overtime)
  {
    if hours < 0 then Err(InvalidHours)
    else if minutes < 0 || minutes > 59 then Err(InvalidMinutes)
    else if (hours == 8 && minutes != 0) || hours > 8 then Err(Overtime)
    else Ok(hours * 60 + minutes)
  }

  /** The work logs `ReportHours` builds for `duration` minutes from `t`:
      one entry on `t`'s day, or, when the work runs past midnight, one
      entry up to midnight and one on the next day for the rest. The next
      day does not exist after 9999-12-31. */
  function SplitAtMidnight(t: Instant, duration: nat): (r: Result<seq<WorkLog>>)
    ensures r.Err? <==> MinuteOfDay(t) + duration > MinutesPerDay && DayOf(t) == DaysInRange - 1
    ensures r.Err? ==> r.error == DateOutOfRange
    ensures r.Ok? ==>
      var logs := r.value;
      && TotalMinutes(logs) == duration
      && 1 <= |logs| <= 2
      && logs[0].date == DayOf(t)
      && (|logs| == 2 <==> MinuteOfDay(t) + duration > MinutesPerDay)
      && (|logs| == 2 ==>
            && MinuteOfDay(t) + logs[0].duration == MinutesPerDay
            && logs[1].date == DayOf(t) + 1
            && 0 < logs[0].duration && 0 < logs[1].duration)
  {
    var startMinute := MinuteOfDay(t);
    if startMinute + duration > MinutesPerDay then
      var firstDay := MinutesPerDay - startMinute;
      if DayOf(t) + 1 >= DaysInRange then Err(DateOutOfRange)
      else
        var logs := [WorkLog(DayOf(t), firstDay), WorkLog(DayOf(t) + 1, duration - firstDay)];
        assert logs[..1] == [logs[0]] && logs[..1][..0] == [];
        assert TotalMinutes(logs[..1]) == firstDay;
        Ok(logs)
    else
      var logs := [WorkLog(DayOf(t), duration)];
      assert logs[..0] == [];
      Ok(logs)
  }

  /** `Contracts.LastOrDefault(c => c covers t)`, as a position: the last
      contract in force at `t`. */
  function FindContractAt(cs: seq<EmployeeContract>, t: Instant): (r: Option<nat>)
    ensures r.Some? ==> r.value < |cs| && Covers(cs[r.value], t)
    ensures r.Some? ==> forall k :: r.value < k < |cs| ==> !Covers(cs[k], t)
    ensures r.None? <==> forall k :: 0 <= k < |cs| ==> !Covers(cs[k], t)
  {
    if |cs| == 0 then None
    else if Covers(cs[|cs| - 1], t) then Some(|cs| - 1)
    else FindContractAt(cs[..|cs| - 1], t)
  }

  /** Replacing a contract by one that covers the same instants (as adding a
      work log does) does not change which contract the lookup finds. */
  lemma {:induction false} FindContractAtSameCoverage(cs: seq<EmployeeContract>, k: nat, c': EmployeeContract, t: Instant)
    requires k < |cs|
    requires Covers(c', t) == Covers(cs[k], t)
    ensures FindContractAt(cs[k := c'], t) == FindContractAt(cs, t)
    decreases |cs|
  {
    var cs' := cs[k := c'];
    var n := |cs|;
    if k < n - 1 && !Covers(cs[n - 1], t) {
      assert cs'[..n - 1] == cs[..n - 1][k := c'];
      FindContractAtSameCoverage(cs[..n - 1], k, c', t);
    } else if k == n - 1 && !Covers(cs[n - 1], t) {
      assert cs'[..n - 1] == cs[..n - 1];
    }
  }

  /** The `foreach` of `ReportHours`: each entry in turn is added to the
      last contract covering `t`, the reported instant (not the entry's own
      date). Since adding an entry never changes which contract covers `t`,
      every entry lands in the same contract, and the loop can only fail
      on its first entry, before anything was added. */
  function RecordWorklogs(cs: seq<EmployeeContract>, logs: seq<WorkLog>, t: Instant)
    : (r: Result<seq<EmployeeContract>>)
    ensures r.Err? <==> |logs| > 0 && FindContractAt(cs, t).None?
    ensures r.Err? ==> r.error == NoContractAt
    ensures |logs| == 0 ==> r == Ok(cs)
    ensures r.Ok? && |logs| > 0 ==>
      var k := FindContractAt(cs, t).value;
      r.value == cs[k := cs[k].(worklogs := cs[k].worklogs + logs)]
    decreases |logs|
  {
    if |logs| == 0 then Ok(cs)
    else match FindContractAt(cs, t)
      case None => Err(NoContractAt)
      case Some(k) =>
        var cs' := cs[k := AddWorklog(cs[k], logs[0])];
        FindContractAtSameCoverage(cs, k, cs'[k], t);
        var r := RecordWorklogs(cs', logs[1..], t);
        assert cs[k].worklogs + [logs[0]] + logs[1..] == cs[k].worklogs + logs;
        assert |logs| == 1 ==> cs'[k].worklogs == cs[k].worklogs + logs;
        r
  }

  /** `ReportHours`: validates the employee and the duration, splits the
      work at midnight when needed, and appends every resulting entry to the
      latest contract in force at the reported instant. */
  function ReportHours(c: Company, employeeId: int, dateAndTime: Instant, hours: int, minutes: int)
    : (r: Result<Company>)
    requires HasContracts(c)
    ensures r.Ok? ==> HasContracts(r.value) && Evolves(c, r.value)
    ensures FindEmployee(c.employees, employeeId).None? ==> r == Err(UnknownEmployee)
    ensures var f := FindEmployee(c.employees, employeeId);
      f.Some? ==>
        var d := ReportedMinutes(hours, minutes);
        && (d.Err? ==> r == Err(d.error))
        && (d.Ok? && SplitAtMidnight(dateAndTime, d.value).Err? ==> r == Err(DateOutOfRange))
        && (d.Ok? && SplitAtMidnight(dateAndTime, d.value).Ok? ==>
              var e := c.employees[f.value];
              var logs := SplitAtMidnight(dateAndTime, d.value).value;
              var k := FindContractAt(e.contracts, dateAndTime);
              && (k.None? ==> r == Err(NoContractAt))
              && (k.Some? ==>
                    var ck := e.contracts[k.value];
                    r == Ok(Company(c.employees[f.value := e.(contracts :=
                           e.contracts[k.value := ck.(worklogs := ck.worklogs + logs)])]))))
  {
    match FindEmployee(c.employees, employeeId)
    case None => Err(UnknownEmployee)
    case Some(i) =>
      match ReportedMinutes(hours, minutes)
      case Err(err) => Err(err)
      case Ok(duration) =>
        match SplitAtMidnight(dateAndTime, duration)
        case Err(err) => Err(err)
        case Ok(logs) =>
          var e := c.employees[i];
          match RecordWorklogs(e.contracts, logs, dateAndTime)
          case Err(err) => Err(err)
          case Ok(cs) => Ok(Company(c.employees[i := e.(contracts := cs)]))
  }
}
