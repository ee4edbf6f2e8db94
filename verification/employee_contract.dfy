/** `EmployeeContract`: one salary agreement of one employee. Its start and
    hourly rate are fixed when it is made, its end date is set by `End`,
    and the service appends work logs to it. */
module Contracts {
  import opened Results
  import opened Calendar

  /** One entry of `Worklogs`: the day the work is logged on (the source keeps
      that day's midnight) and the time worked, in whole minutes. */
  datatype WorkLog = WorkLog(date: Day, duration: nat)

  datatype EmployeeContract = EmployeeContract(
    startDate: Instant,
    endDate: Option<Instant>,
    hourlySalary: real,
    worklogs: seq<WorkLog>)
  {
    /** `EndDate.HasValue`. */
    predicate IsClosed() {
      endDate.Some?
    }
  }

  /** The contract is in force at `t`: its start is inclusive, its end
      (when set) is inclusive, and an open contract has no upper bound. */
  predicate Covers(c: EmployeeContract, t: Instant) {
    c.startDate <= t && (c.endDate.None? || c.endDate.value >= t)
  }

  /** Total minutes of a sequence of work logs. */
  function TotalMinutes(logs: seq<WorkLog>): nat {
    if |logs| == 0 then 0 else TotalMinutes(logs[..|logs| - 1]) + logs[|logs| - 1].duration
  }

  /** The constructor: an open contract with no work logged yet, in force
      from its start onwards. */
  function NewContract(hourlySalary: real, startDate: Instant): (c: EmployeeContract)
    ensures !c.IsClosed() && c.startDate == startDate && c.hourlySalary == hourlySalary
    ensures TotalMinutes(c.worklogs) == 0 && |c.worklogs| == 0
    ensures forall t: Instant :: Covers(c, t) <==> startDate <= t
  {
    EmployeeContract(startDate, None, hourlySalary, [])
  }

  /** A contract `b` is a later version of contract `a`: start and rate
      never change (their setters are private and used only by the
      constructor), an end date once set stays, and work logs only grow. */
  predicate ContractEvolves(a: EmployeeContract, b: EmployeeContract) {
    && a.startDate == b.startDate
    && a.hourlySalary == b.hourlySalary
    && (a.IsClosed() ==> b.endDate == a.endDate)
    && a.worklogs <= b.worklogs
  }

  /** `End(endDate)`: sets the end date and nothing else. It does not check
      that the contract was open; the service only calls it on an open one. */
  function End(c: EmployeeContract, endDate: Instant): (r: EmployeeContract)
    ensures r.IsClosed() && r.endDate.value == endDate
    ensures r.startDate == c.startDate && r.hourlySalary == c.hourlySalary && r.worklogs == c.worklogs
    ensures !c.IsClosed() ==> ContractEvolves(c, r)
    ensures forall t: Instant :: Covers(r, t) <==> c.startDate <= t <= endDate
  {
    c.(endDate := Some(endDate))
  }

  /** `End` itself does not refuse to close a contract twice: the later
      date simply replaces the earlier one. */
  lemma EndTwiceKeepsLastDate(c: EmployeeContract, first: Instant, second: Instant)
    ensures End(End(c, first), second) == End(c, second)
  {
  }

  /** `Worklogs.Add(w)`: appends one entry; the contract's period and terms
      do not change, so neither does which instants it covers. */
  function AddWorklog(c: EmployeeContract, w: WorkLog): (r: EmployeeContract)
    ensures ContractEvolves(c, r) && r.endDate == c.endDate
    ensures |r.worklogs| == |c.worklogs| + 1 && r.worklogs[|c.worklogs|] == w
    ensures TotalMinutes(r.worklogs) == TotalMinutes(c.worklogs) + w.duration
    ensures forall t: Instant :: Covers(r, t) <==> Covers(c, t)
  {
    var r := c.(worklogs := c.worklogs + [w]);
    assert r.worklogs[..|r.worklogs| - 1] == c.worklogs;
    r
  }

  /** Appending several entries in turn adds up their minutes. */
  lemma {:induction false} TotalMinutesAppend(a: seq<WorkLog>, b: seq<WorkLog>)
    ensures TotalMinutes(a + b) == TotalMinutes(a) + TotalMinutes(b)
    decreases |b|
  {
    if |b| == 0 {
      assert a + b == a;
    } else {
      var b' := b[..|b| - 1];
      assert (a + b)[..|a + b| - 1] == a + b';
      TotalMinutesAppend(a, b');
    }
  }

  /** `ContractEvolves` is a preorder. */
  lemma ContractEvolvesTransitive(a: EmployeeContract, b: EmployeeContract, c: EmployeeContract)
    requires ContractEvolves(a, b) && ContractEvolves(b, c)
    ensures ContractEvolves(a, c)
  {
  }
}
