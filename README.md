# Employee write path of the netApi employees/offices backend

This project models the employee half of a small CRUD backend in which
employees are assigned to offices and every office has a MaxOccupancy.
It has two parts:

- `EmployeeRepository` is the Employees table. It is modelled as a class that
  holds a map from Id to row and a counter that hands out new Ids, standing in for the identity column.
  Each SQL statement becomes a method whose contract states its effect on the
  map.
- `EmployeesController` holds the HTTP handlers. A create or update runs a fixed
  chain of checks and the first failing check decides the status code:
  LastName without a space (422), BirthDate inside the window (422), office
  exists (404), office not full (409). An update first checks that the
  employee exists (404), and a full office blocks it only when the update
  moves the employee into that office. Delete checks existence (404) and
  answers 204.

The checks also exist as pure decisions, `CheckCreate` and `CheckUpdate`.
The create and update handlers' `ensures` tie their answer and the table afterwards to those
decisions. The lemmas prove the properties of the decisions: the order of the
checks, the inclusive date window, when a 409 happens, and that every accepted
write keeps each office at or below its MaxOccupancy (`WithinCapacity`) and
every employee in an existing office (`OfficesExist`), provided this held
before. A rejected write leaves the repository untouched (`unchanged`).

Modelling choices:

- Dates are day numbers. The two limits, today minus 75 years and today minus
  18 years, are constants given to the controller's constructor, with
  `dateMinLimit <= dateMaxLimit`.
- The office table is read-only. It is a constant map from office Id to
  MaxOccupancy held by the controller, standing in for the office lookup.
- The name rule tests only for the space character, as the code does
  (`Contains(" ")`). Other whitespace such as a tab passes, although the
  comment at Controllers/EmployeesController.cs:56 speaks of "white space".
- The repository's UPDATE on an Id with no row changes nothing, as SQL
  `UPDATE ... WHERE Id = @Id` does. The handler never issues it for a missing
  Id.
- `SELECT * FROM Employees` has no ORDER BY, so the list of employees is
  modelled as a set.
- New Ids are the model's choice: a counter, given to the constructor above every Id in use, that rises by one
  per insert stands in for `SCOPE_IDENTITY()`. The proved facts rely only on
  the new Id being unused and larger than every Id before it.

Files: `Models.dfy` (records), `Repositories.dfy` (the table and its count
lemmas), `Controllers.dfy` (decisions, invariants, handlers).

## Model

| member | source | states |
|---|---|---|
| `Repositories.Count` | Repositories/EmployeeRepository.cs:47 | reference definition of `COUNT(*) ... WHERE OfficeId = @Id`: the number of rows whose OfficeId is the office, never more than the number of rows |
| `Repositories.CountZeroIff` | Repositories/EmployeeRepository.cs:45-52 | the office count is 0 if and only if no row names that office |
| `Repositories.CountInsert` | Repositories/EmployeeRepository.cs:56-80 | inserting a row under an unused Id raises its office's count by exactly one and leaves every other office's count unchanged |
| `Repositories.CountRemove` | Repositories/EmployeeRepository.cs:100-107 | deleting an existing row lowers its office's count by exactly one and leaves every other office's count unchanged |
| `Repositories.CountReplace` | Repositories/EmployeeRepository.cs:84-97 | replacing a row takes one from the old office's count and adds one to the new office's count; if both are the same office, its count is unchanged |
| `Repositories.Replaced` | Repositories/EmployeeRepository.cs:84-97 | UPDATE keeps the set of Ids, puts the payload's four fields under the same Id, leaves every other row alone, and does nothing when the Id is absent |
| `Repositories.EmployeeRepository.constructor` | Repositories/EmployeeRepository.cs:18-21 | a repository attached to the existing table, whatever rows it holds (each under its own Id, the counter above every Id), with its invariant established |
| `Repositories.EmployeeRepository.GetEmployees` | Repositories/EmployeeRepository.cs:24-32 | returns exactly the stored rows: a record is in the result if and only if it is the row stored under its own Id |
| `Repositories.EmployeeRepository.GetEmployee` | Repositories/EmployeeRepository.cs:35-43 | returns the row stored under that Id, or nothing (null) if and only if there is no such row |
| `Repositories.EmployeeRepository.GetEmployeeCountForOffice` | Repositories/EmployeeRepository.cs:45-53 | returns the number of rows whose OfficeId is the given office; the result is 0 if and only if there is no such row |
| `Repositories.EmployeeRepository.CreateEmployee` | Repositories/EmployeeRepository.cs:56-81 | stores the payload under an Id that is new and larger than every existing Id, echoes back a record carrying that Id and exactly the four payload fields (lines 71-78), and changes no other row |
| `Repositories.EmployeeRepository.UpdateEmployee` | Repositories/EmployeeRepository.cs:84-97 | the table afterwards is `Replaced` of the old table, so all four fields are replaced, the Id is kept and no other row changes |
| `Repositories.EmployeeRepository.DeleteEmployee` | Repositories/EmployeeRepository.cs:100-107 | removes only the row with that Id; the call does nothing when there is no such row |
| `Repositories.CreateThenGet` | Repositories/EmployeeRepository.cs:35-81 | round trip: reading back the Id that create returned yields the created record, whose fields are those of the payload |
| `Controllers.StatusCode` | Controllers/EmployeesController.cs:41-128 | every rejection is a 4xx code (404, 409 or 422) and every other answer a 2xx code (200, 201 or 204) |
| `Controllers.CheckCreate` | Controllers/EmployeesController.cs:57-69 | reference definition of the create checks in source order; a create is accepted if and only if the LastName has no space, the BirthDate is in the window, the office exists and its count is below MaxOccupancy |
| `Controllers.CheckUpdate` | Controllers/EmployeesController.cs:88-105 | reference definition of the update checks in source order; an update is accepted if and only if the employee exists, the name and date pass, the office exists, and either its count is below MaxOccupancy or the employee already belongs to it |
| `Controllers.SpacedLastNameRejected` | Controllers/EmployeesController.cs:57 | a LastName containing a space is answered with 422 whatever the other fields are; on update (line 93) this holds once the employee is known to exist |
| `Controllers.BirthDateRule` | Controllers/EmployeesController.cs:60-61 | once the name passes, create and update (lines 96-97) refuse for the date if and only if BirthDate is outside `[dateMinLimit, dateMaxLimit]` |
| `Controllers.BirthDateBoundaries` | Controllers/EmployeesController.cs:60 | both bounds of the window are accepted, and one day before the lower bound or after the upper bound is refused |
| `Controllers.CreateDecisionOrder` | Controllers/EmployeesController.cs:56-72 | for each create outcome, the exact condition: name (422), then date (422), then office existence (404), then capacity (409); create never answers "employee not found" |
| `Controllers.UpdateDecisionOrder` | Controllers/EmployeesController.cs:87-107 | update answers 404 for the employee if and only if the Id is absent; this check comes before name, date, office and capacity, and capacity refuses only a move into a full office |
| `Controllers.UpdateSameOfficeNeverFull` | Controllers/EmployeesController.cs:103-105 | an update that keeps the employee's office is never a 409 |
| `Controllers.OfficeFullReportsCounts` | Controllers/EmployeesController.cs:67-69 | a 409 carries the office's current count and its MaxOccupancy, with the count at least the maximum |
| `Controllers.CreateAcceptedFits` | Controllers/EmployeesController.cs:67-72 | after an accepted create, the office's count is one more than the count that was checked and at most MaxOccupancy |
| `Controllers.CreateFillsLastSeat` | Controllers/EmployeesController.cs:67-72 | with a count of MaxOccupancy - 1, a valid create is accepted and the office's count becomes exactly MaxOccupancy |
| `Controllers.CreatePreservesInvariants` | Controllers/EmployeesController.cs:63-73 | an accepted create keeps every office within capacity and every employee in an existing office, if both held before |
| `Controllers.UpdatePreservesInvariants` | Controllers/EmployeesController.cs:99-108 | an accepted update keeps every office within capacity and every employee in an existing office, if both held before |
| `Controllers.DeletePreservesInvariants` | Controllers/EmployeesController.cs:123-128 | a delete keeps every office within capacity and every employee in an existing office |
| `Controllers.FullOfficeExample` | Controllers/EmployeesController.cs:66-69 | office 1 with MaxOccupancy 2 that already holds two employees: a create there is a 409 reporting 2/2 |
| `Controllers.EmployeesController.constructor` | Controllers/EmployeesController.cs:9-16 | the controller keeps the repository, the office lookup and the two date limits it is given, and starts out valid when the repository is |
| `Controllers.EmployeesController.Get` | Controllers/EmployeesController.cs:20-31 | answers 200 with exactly the stored rows |
| `Controllers.EmployeesController.GetEmployee` | Controllers/EmployeesController.cs:35-48 | answers 404 if and only if no row has that Id; otherwise answers 200 with that row |
| `Controllers.EmployeesController.CreateEmployee` | Controllers/EmployeesController.cs:52-79 | a rejected create answers the first failing check's code and leaves the repository unchanged; an accepted one answers 201 with the echoed record under a new Id, adds exactly that row and advances the Id counter; capacity and office references are preserved |
| `Controllers.EmployeesController.UpdateEmployee` | Controllers/EmployeesController.cs:83-114 | a rejected update answers the first failing check's code and leaves the repository unchanged; an accepted one answers 204 and replaces exactly that row's four fields; capacity and office references are preserved |
| `Controllers.EmployeesController.DeleteEmployee` | Controllers/EmployeesController.cs:118-134 | for a missing Id it answers 404 and changes nothing; otherwise it answers 204 and removes exactly that row; afterwards the Id is absent |
| `Controllers.DeleteTwice` | Controllers/EmployeesController.cs:118-134 | deleting the same Id twice: the first call answers 204 if the row existed (404 otherwise), and the second always answers 404 |

## Left out

- The `catch (Exception) → 500` blocks of every handler: storage failures (connection errors, SQL errors) are not modelled, so no handler answers 500 here.
- SQL text, Dapper calls, `DapperContext.CreateConnection` and connection disposal: only the effect each statement has on the table is modelled.
- `async`/`Task`: every call is synchronous. Concurrency is out of scope too. The count-then-insert check is not atomic, so two concurrent requests could overfill an office; a sequential model cannot show that race.
- Calendar arithmetic: `DateTime.Today.AddYears(-75)` and `AddYears(-18)` on leap days are not modelled, and neither is the time of day inside a `DateTime`. The limits are given as day numbers.
- Message texts (the date-window text and the "count/max" text). Only status codes are modelled, plus the two integers of the 409 message.
- Null payload fields and null-dereference paths (for example a null LastName).
- Repositories.EmployeeRepository.CreateEmployee: models new Ids as consecutive values of a counter. A real identity column can skip values, so this is an idealisation; no lemma relies on more than the new Id being unused and larger than every earlier Id.
- 32-bit `int` widths of Id, OfficeId, counts and MaxOccupancy. The model uses unbounded integers, so identity-column overflow is not modelled.
- `OfficesController`, `OfficeRepository` and the startup wiring in `Program.cs` are not part of this model. The office lookup is the controller's read-only map.
- The Location header of the 201 answer: the model keeps the created record, which carries the Id that the route would point to.
