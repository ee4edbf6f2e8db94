# EmployeeSalary: the company service, modelled in Dafny

This project models the in-memory salary service of the EmployeeSalary
repository: `CompanyService` and the two records it owns,
`EmployeeContract` and `EmployeeInformation`.

A company keeps its employees in insertion order. Each employee has a list
of contracts. A contract has a start, an optional end, an hourly rate and
the work logged under it. The service supports four operations:

- `AddEmployee` hires an employee, or supersedes their latest contract with a new rate.
- `RemoveEmployee` closes the latest contract.
- `ReportHours` checks a duration, splits it at midnight when needed, and appends it to the last contract in force at the reported instant.
- `GetMonthlyReport` sums, per employee and per month, the pay for the work logged in that month.

The model is functional. The state is an immutable `Company` value, and
each operation returns either the next state or the error the source
raises; an error always leaves the state unchanged.

Modules and files:

- `results.dfy` (`Results`): `Option`, `Result` and the error cases, one per exception the service throws.
- `calendar.dfy` (`Calendar`): a `DateTime` reduced to whole minutes since 0001-01-01 00:00, bounded by the last minute of 9999-12-31. The exact proleptic Gregorian conversion from day numbers to dates (and back) gives the `Year` and `Month` the report needs.
- `employee_contract.dfy` (`Contracts`): `EmployeeContract`, its constructor, `End`, and appending a work log.
- `employee_information.dfy` (`EmployeeInfo`): `EmployeeInformation`, the public `Employee` view, and the per-employee invariant `ContractsValid`.
- `company_service.dfy` (`CompanyService`): the state, its invariant `Valid`, the "later state" relation `Evolves`, and the operations.
- `monthly_report.dfy` (`MonthlyReport`): `GetMonthlyReport` as a method with the source's two nested do-while loops, and a declarative definition it is proved equal to.
- `service_properties.dfy` (`ServiceProperties`): properties across operations and across calls.

Main properties:

- **Invariant.** Every operation keeps `Valid`: ids are unique, every contract list is non-empty, only the last contract is open, start dates never decrease, and a closed contract does not end before it starts. The same holds for every state any sequence of calls reaches from the empty company.
- **Nothing is lost.** Ids and names never change. A contract's start and rate never change. An end date, once set, stays. Work logs only grow.
- **Overlap is allowed.** Contracts may overlap, because a new start is compared only with the latest contract's start. No non-overlap claim is made.
- **ReportHours.** A failing `ReportHours` appends nothing: every entry is looked up with the same reported instant, so a lookup can only fail on the first entry (`RecordWorklogs`). It fails before changing anything, or appends every piece of the split work to one contract: the last one in force at the reported instant.

## Model

| member | source | states |
|---|---|---|
| CompanyService.FindEmployee | EmployeeSalary/Services/CompanyService.cs:169 | `GetEmployeeById` is `FirstOrDefault` by id: it returns the first position carrying the id, and finds nothing exactly when no employee carries it |
| CompanyService.Employees | EmployeeSalary/Services/CompanyService.cs:18-24 | an `Employee` is listed exactly when some employee's latest contract is open and the listed value is that employee's id, name and latest rate; no more entries than employees |
| ServiceProperties.EmployeesInInsertionOrder | EmployeeSalary/Services/CompanyService.cs:18-24 | the k-th listed employee is the projection of the k-th employee (in insertion order) whose latest contract is open, and there are exactly as many entries as such employees |
| CompanyService.AddEmployee | EmployeeSalary/Services/CompanyService.cs:27-51 | an unknown id appends exactly one employee whose only contract is open, from the given start at the given rate, leaving the others in place; for a known id: fails (with no change) exactly when the start is before the latest contract's start, an equal start being allowed; is a no-op when the latest contract is open with the same rate; otherwise the employee's record becomes exactly its earlier contracts, then the latest one (ended at the new start if it was open, unchanged if closed), then the new open contract, with the stored name kept and nobody else changed; every success only evolves the state |
| ServiceProperties.AddEmployeePreservesValid | EmployeeSalary/Services/CompanyService.cs:29-49 | a successful add keeps ids unique (a record is only created when the lookup finds none) and keeps the contract list valid: the superseded contract ends at a start not before its own, and the new one starts last |
| ServiceProperties.AddEmployeeListsEmployee | EmployeeSalary/Services/CompanyService.cs:37-49 | after a successful add the employee is listed with the new rate and with the name stored on the first add, not the name just given |
| CompanyService.RemoveEmployee | EmployeeSalary/Services/CompanyService.cs:53-73 | fails with the matching error and no change for an unknown id, an already closed latest contract, or an end not after that contract's start; otherwise the employee's record changes only in its latest contract, which is `End`ed at the given date (its logs, start and rate untouched), nobody else changes, and the employee is no longer active |
| ServiceProperties.RemoveEmployeePreservesValid | EmployeeSalary/Services/CompanyService.cs:67-72 | a successful remove keeps `Valid`: the closed contract ends strictly after it starts |
| ServiceProperties.RemoveEmployeeUnlistsEmployee | EmployeeSalary/Services/CompanyService.cs:53-73 | after a successful remove the listed employees are exactly the earlier ones minus that id |
| CompanyService.ReportedMinutes | EmployeeSalary/Services/CompanyService.cs:84-97 | the duration checks in the source's order, each with its error; a duration is accepted exactly when hours ≥ 0, minutes are in 0..59 and the total is at most 480 minutes |
| CompanyService.SplitAtMidnight | EmployeeSalary/Services/CompanyService.cs:99-111 | work crossing midnight becomes two positive entries, one on the reported day up to midnight and one on the next day, else one entry on the reported day; the entries always add up to the reported minutes; the split fails exactly when it would need a day after 9999-12-31 |
| CompanyService.FindContractAt | EmployeeSalary/Services/CompanyService.cs:115 | `LastOrDefault`: the contract found is in force at the instant (start inclusive, end inclusive, open end unbounded) and no later one is; nothing is found exactly when no contract is in force |
| CompanyService.FindContractAtSameCoverage | EmployeeSalary/Services/CompanyService.cs:113-122 | replacing a contract by one in force at the same instants, as appending a log does, does not change which contract the lookup finds |
| CompanyService.RecordWorklogs | EmployeeSalary/Services/CompanyService.cs:113-123 | the `foreach` over the entries fails exactly when there is an entry and no contract is in force at the reported instant; otherwise all entries are appended, in order, to the last contract in force at that instant and no other contract changes |
| CompanyService.ReportHours | EmployeeSalary/Services/CompanyService.cs:75-124 | each failure (unknown id, a rejected duration, no next day, no contract in force) leaves the state unchanged; on success only the last contract in force at the reported instant changes, by appending the split entries, and the state only evolves |
| ServiceProperties.ReportHoursPreservesValid | EmployeeSalary/Services/CompanyService.cs:113-122 | reporting hours keeps `Valid`, since only work logs change |
| ServiceProperties.ReportHoursKeepsEmployees | EmployeeSalary/Services/CompanyService.cs:18-24 | reporting hours never changes who is listed or at which rate |
| ServiceProperties.SupersessionInstantGoesToNewContract | EmployeeSalary/Services/CompanyService.cs:37-45 | when a new rate supersedes an open contract at s, both the closed and the new contract are in force at s, and the lookup picks the newer one |
| ServiceProperties.SplitHalfDatedAfterContractEnd | EmployeeSalary/Services/CompanyService.cs:113-122 | the lookup uses the reported instant for both halves: an hour reported at 23:30 on the last day of a contract ending at 23:59 puts its second half, dated the next day, into that ended contract |
| ServiceProperties.ReportHoursAddsPay | EmployeeSalary/Services/CompanyService.cs:152-157 | a successful report adds to that employee's pay for every month exactly the pay of the new entries dated in that month, at the receiving contract's rate; every other employee's row is unchanged |
| ServiceProperties.ReportHoursAddsMinutes | EmployeeSalary/Services/CompanyService.cs:99-122 | a successful report adds exactly `hours * 60 + minutes` to the minutes logged under the receiving contract, split or not |
| ServiceProperties.SplitPaysWholeDuration | EmployeeSalary/Services/CompanyService.cs:102-111 | over the month or two its entries fall in, a split report is paid exactly the reported minutes at the rate: splitting loses nothing |
| Contracts.NewContract | EmployeeSalary/Models/EmployeeContract.cs:5-10 | the constructor makes an open contract with the given start and rate and no work logged; it is in force at exactly the instants from its start on |
| Contracts.End | EmployeeSalary/Models/EmployeeContract.cs:17-20 | `End` sets the end date to its argument and leaves start, rate and logs untouched; after it the contract is in force exactly from its start to that date |
| Contracts.EndTwiceKeepsLastDate | EmployeeSalary/Models/EmployeeContract.cs:17-20 | `End` itself does not forbid closing twice: the second date replaces the first |
| Contracts.AddWorklog | EmployeeSalary/Services/CompanyService.cs:122 | appending a log adds one entry at the end, adds its minutes to the total, keeps start, rate and end, and so keeps the instants the contract is in force |
| Contracts.TotalMinutesAppend | EmployeeSalary/Services/CompanyService.cs:113-122 | the minutes of logs appended in turn add up |
| Contracts.ContractEvolvesTransitive | EmployeeSalary/Models/EmployeeContract.cs:12-15 | "start and rate fixed, a set end kept, logs only appended" composes over any number of steps |
| EmployeeInfo.NewEmployeeInformation | EmployeeSalary/Models/EmployeeInformation.cs:5-10 | the constructor stores id and name and a contract list of exactly the first contract; with an open first contract the employee is active and shown at that rate |
| ServiceProperties.RunPreservesValid | EmployeeSalary/Services/CompanyService.cs:27-124 | any sequence of add, remove and report calls keeps `Valid`; ids, names, contract starts and rates, set end dates and logged work of the first state all survive in the last |
| ServiceProperties.ReachableStatesAreValid | EmployeeSalary/Services/CompanyService.cs:10-14 | every state reachable from the empty company is valid |
| ServiceProperties.Apply | EmployeeSalary/Services/CompanyService.cs:27-124 | one call: a failed call leaves the company unchanged, and a successful one only evolves it |
| MonthlyReport.GetMonthlyReport | EmployeeSalary/Services/CompanyService.cs:126-167 | fails exactly when the start is not before the end; otherwise the result is the declarative report of every month from the start's month through the end's month, both included (whose contents and order the `ReportRows` lemmas below state) |
| MonthlyReport.Months | EmployeeSalary/Services/CompanyService.cs:135-164 | the two nested do-while loops, with their post-increment tests, visit every month from the first through the last exactly once, in order |
| MonthlyReport.RowsOfMonth | EmployeeSalary/Services/CompanyService.cs:142-161 | the loop over employees for one month gives that month's declarative rows |
| MonthlyReport.MonthRowsMembers | EmployeeSalary/Services/CompanyService.cs:142-160 | a row is in a month's rows exactly when it is some employee's row for that month and its salary is not zero |
| MonthlyReport.MonthRowsInInsertionOrder | EmployeeSalary/Services/CompanyService.cs:142-160 | a month's rows follow the employees' insertion order: the k-th row belongs to the k-th employee paid something that month |
| MonthlyReport.PaidRowsInInsertionOrder | EmployeeSalary/Services/CompanyService.cs:142-160 | the filter over employees keeps, in insertion order, exactly the rows with a salary, one per such employee |
| MonthlyReport.MonthRowsDated | EmployeeSalary/Services/CompanyService.cs:144-150 | every row of a month carries that month's year and month |
| MonthlyReport.FlattenMembers | EmployeeSalary/Services/CompanyService.cs:135-164 | the rows gathered month after month are exactly the rows of the months visited |
| MonthlyReport.FlattenChronological | EmployeeSalary/Services/CompanyService.cs:135-164 | gathering, month after month, rows each dated in their own month gives rows whose months never go back |
| MonthlyReport.ReportRowsMembers | EmployeeSalary/Services/CompanyService.cs:135-164 | a row is in the report exactly when it is among the rows of one of the months covered |
| MonthlyReport.ReportRowsChronological | EmployeeSalary/Services/CompanyService.cs:135-164 | every row of the report lies in the covered months, and the months of its rows never go back |
| ServiceProperties.LogsPayAppend | EmployeeSalary/Services/CompanyService.cs:154-157 | a month's pay for logs appended in turn is the sum of the pay for each part |
| ServiceProperties.ContractsPayUpdate | EmployeeSalary/Services/CompanyService.cs:152-158 | changing one contract changes an employee's monthly pay by exactly that contract's difference |
| Calendar.DaysBeforeNextYear | EmployeeSalary/Services/CompanyService.cs:155 | the closed-form count of days before a year grows by exactly that year's length (366 in a Gregorian leap year, else 365) |
| Calendar.DayOf | EmployeeSalary/Services/CompanyService.cs:105 | `dateAndTime.Date`: the instant lies within the 1440 minutes of the day returned |
| Calendar.MinuteOfDay | EmployeeSalary/Services/CompanyService.cs:102 | `Hour * 60 + Minute` lies in 0..1439 and, with the day, gives back the instant |
| Calendar.CivilFromDays | EmployeeSalary/Services/CompanyService.cs:155 | the date of a day number is a valid Gregorian date whose day number is that number |
| Calendar.CivilFromDaysOfDaysFromCivil | EmployeeSalary/Services/CompanyService.cs:155 | conversely every valid date maps back to itself, so dates and day numbers correspond one to one |
| Calendar.DaysFromCivilIncreasing | EmployeeSalary/Services/CompanyService.cs:155 | later dates have larger day numbers |
| Calendar.LastDayIsDecember31Of9999 | EmployeeSalary/Services/CompanyService.cs:106 | the last day an instant can fall on is 9999-12-31, the last day a `DateTime` holds, so the day after it does not exist |
| Calendar.YearMonthOfDay | EmployeeSalary/Services/CompanyService.cs:155 | the `Year` and `Month` of a day: a month in 1..12 whose days contain that day |
| Calendar.YearMonthOfMonotone | EmployeeSalary/Services/CompanyService.cs:135-139 | a later instant never falls in an earlier month, so the start's month is not after the end's month |
| Calendar.YearMonthAt | EmployeeSalary/Services/CompanyService.cs:162-164 | the month with a given index: its month is in 1..12 and its index is the one given |
| Calendar.YearMonthAtIndex | EmployeeSalary/Services/CompanyService.cs:162-164 | month indices and (year, month) pairs correspond one to one, so stepping the index steps through the months, from December to January of the next year |

## Left out

- Seconds and fractions of a minute: an instant is a whole minute. The source also drops the seconds of the reported time when it computes the split.
- `DateTime.Now` and the tests that depend on it: there is no clock in the model.
- The `(decimal)w.Duration.TotalHours` conversion goes through a `double`. The model pays exactly minutes × rate / 60 in `real` arithmetic, without that floating-point rounding.
- `decimal` rates are modelled as unbounded `real`, with no overflow.
- The company `Name`, the constructor's bookkeeping, exception message texts and the `ToArray` copies carry no behaviour. An error is modelled as a `CompanyError` value; a day after 9999-12-31 becomes `DateOutOfRange` in place of the framework's exception.
- `ICompany` is only an interface. `Employee` is a plain record, modelled as a datatype.
- `GetMonthlyReport` never changes the company. This holds by construction, since the method receives an immutable value and returns only the rows.
- MonthlyReport.Months: its requires (month numbers in 1..12 and the first month not after the last) are what `GetMonthlyReport` establishes before calling it. The source's loops run inline there.
- Contracts.End: the ensures give `ContractEvolves` only for an open contract. The service never ends a closed one, as `RunPreservesValid` shows.
