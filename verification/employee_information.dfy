/** `EmployeeInformation`, the service's private aggregate for one employee,
    and `Employee`, the public view of an active employee. */
module EmployeeInfo {
  import opened Contracts

  /** The public `Employee`: id, full name and the current hourly rate. */
  datatype Employee = Employee(id: int, fullName: string, hourlySalary: real)

  /** `EmployeeInformation`: id and name fixed at construction, and the
      employee's contracts in the order they were made. */
  datatype EmployeeInformation = EmployeeInformation(
    id: int,
    fullName: string,
    contracts: seq<EmployeeContract>)

  /** `Contracts.Last()`. */
  function LastContract(e: EmployeeInformation): EmployeeContract
    requires |e.contracts| > 0
  {
    e.contracts[|e.contracts| - 1]
  }

  /** The employee currently works for the company: the latest contract is open. */
  predicate IsActive(e: EmployeeInformation)
    requires |e.contracts| > 0
  {
    !LastContract(e).IsClosed()
  }

  /** The `Employee` shown for an aggregate: its rate is the latest contract's. */
  function Project(e: EmployeeInformation): Employee
    requires |e.contracts| > 0
  {
    Employee(e.id, e.fullName, LastContract(e).hourlySalary)
  }

  /** The constructor: the contract list holds exactly the first contract. */
  function NewEmployeeInformation(id: int, fullName: string, firstContract: EmployeeContract)
    : (e: EmployeeInformation)
    ensures |e.contracts| == 1 && LastContract(e) == firstContract
    ensures !firstContract.IsClosed() ==> IsActive(e) && Project(e) == Employee(id, fullName, firstContract.hourlySalary)
    ensures e.id == id && e.fullName == fullName
  {
    EmployeeInformation(id, fullName, [firstContract])
  }

  /** The structural invariants of one employee's contract list: it is never
      empty, only the last contract may be open, start dates never decrease,
      and a closed contract does not end before it starts. Contracts may
      overlap: a new contract is only compared with the latest one's start. */
  predicate ContractsValid(cs: seq<EmployeeContract>) {
    && |cs| > 0
    && (forall k :: 0 <= k < |cs| - 1 ==> cs[k].IsClosed())
    && (forall j, k :: 0 <= j <= k < |cs| ==> cs[j].startDate <= cs[k].startDate)
    && (forall k :: 0 <= k < |cs| && cs[k].IsClosed() ==> cs[k].startDate <= cs[k].endDate.value)
  }

  /** `e2` is a later version of `e1`: same id and name, contracts only
      appended, and each existing contract only evolved. */
  predicate EmployeeEvolves(e1: EmployeeInformation, e2: EmployeeInformation) {
    && e1.id == e2.id
    && e1.fullName == e2.fullName
    && |e1.contracts| <= |e2.contracts|
    && forall k :: 0 <= k < |e1.contracts| ==> ContractEvolves(e1.contracts[k], e2.contracts[k])
  }
}
