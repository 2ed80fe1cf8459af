/**
 The employee endpoints. A write runs a fixed chain of checks, the first
 failing one decides the response, and only a write that passes every check
 reaches the repository. `CheckCreate` and `CheckUpdate` are that chain as pure
 decisions; `EmployeesController` runs it against a live repository.
 */
module Controllers {
  import opened Models
  import opened Repositories

  /** Why a request was turned away. */
  datatype Rejection =
    | BadLastName                                 // 422
    | BadBirthDate                                // 422
    | NoSuchEmployee                              // 404
    | NoSuchOffice                                // 404
    | OfficeFull(count: nat, maxOccupancy: int)   // 409, with the "count/max" pair of its message

  datatype Verdict = Accept | Reject(why: Rejection)

  /** What a handler answers. */
  datatype Response =
    | Ok(employee: Employee)
    | OkList(employees: set<Employee>)
    | CreatedAt(employee: Employee)
    | NoContent
    | Rejected(why: Rejection)

  /** The HTTP status of an answer: every rejection is a client error, every other answer a success. */
  function StatusCode(r: Response): (c: int)
    ensures r.Rejected? <==> 400 <= c < 500
    ensures !r.Rejected? <==> 200 <= c < 300
  {
    match r
    case Ok(_) => 200
    case OkList(_) => 200
    case CreatedAt(_) => 201
    case NoContent => 204
    case Rejected(why) =>
      match why
      case BadLastName => 422
      case BadBirthDate => 422
      case NoSuchEmployee => 404
      case NoSuchOffice => 404
      case OfficeFull(_, _) => 409
  }

  /** The name rule tests for a literal space only. */
  predicate LastNameValid(lastName: string)
  {
    ' ' !in lastName
  }

  /** Both bounds of the eligibility window are inclusive. */
  predicate BirthDateInWindow(birthDate: int, dateMinLimit: int, dateMaxLimit: int)
  {
    !(birthDate < dateMinLimit || dateMaxLimit < birthDate)
  }

  /** The create checks, in the order the handler runs them. */
  function CheckCreate(dto: EmployeeDto, dateMinLimit: int, dateMaxLimit: int,
                       offices: Offices, rows: map<int, Employee>): (v: Verdict)
    ensures v.Accept? <==>
      && LastNameValid(dto.lastName)
      && BirthDateInWindow(dto.birthDate, dateMinLimit, dateMaxLimit)
      && dto.officeId in offices
      && Count(rows, dto.officeId) < offices[dto.officeId]
  {
    if !LastNameValid(dto.lastName) then Reject(BadLastName)
    else if !BirthDateInWindow(dto.birthDate, dateMinLimit, dateMaxLimit) then Reject(BadBirthDate)
    else if dto.officeId !in offices then Reject(NoSuchOffice)
    else if Count(rows, dto.officeId) >= offices[dto.officeId] then
      Reject(OfficeFull(Count(rows, dto.officeId), offices[dto.officeId]))
    else Accept
  }

  /**
   The update checks: the employee must exist, then the create checks follow,
   except that a full office only blocks a move into it.
   */
  function CheckUpdate(id: int, dto: EmployeeDto, dateMinLimit: int, dateMaxLimit: int,
                       offices: Offices, rows: map<int, Employee>): (v: Verdict)
    ensures v.Accept? <==>
      && id in rows
      && LastNameValid(dto.lastName)
      && BirthDateInWindow(dto.birthDate, dateMinLimit, dateMaxLimit)
      && dto.officeId in offices
      && (Count(rows, dto.officeId) < offices[dto.officeId] || rows[id].officeId == dto.officeId)
  {
    if id !in rows then Reject(NoSuchEmployee)
    else if !LastNameValid(dto.lastName) then Reject(BadLastName)
    else if !BirthDateInWindow(dto.birthDate, dateMinLimit, dateMaxLimit) then Reject(BadBirthDate)
    else if dto.officeId !in offices then Reject(NoSuchOffice)
    else if Count(rows, dto.officeId) >= offices[dto.officeId] && rows[id].officeId != dto.officeId then
      Reject(OfficeFull(Count(rows, dto.officeId), offices[dto.officeId]))
    else Accept
  }

  /** No office holds more employees than its MaxOccupancy. */
  ghost predicate WithinCapacity(rows: map<int, Employee>, offices: Offices)
  {
    forall o :: o in offices ==> Count(rows, o) <= offices[o]
  }

  /** Every employee refers to an office that exists. */
  ghost predicate OfficesExist(rows: map<int, Employee>, offices: Offices)
  {
    forall id :: id in rows ==> rows[id].officeId in offices
  }

  // ---------------------------------------------------------------------------
  // The rules one by one
  // ---------------------------------------------------------------------------

  /** A LastName with a space is refused whatever the other fields hold; on update once the employee is known. */
  lemma SpacedLastNameRejected(id: int, dto: EmployeeDto, dateMinLimit: int, dateMaxLimit: int,
                               offices: Offices, rows: map<int, Employee>)
    requires ' ' in dto.lastName
    ensures CheckCreate(dto, dateMinLimit, dateMaxLimit, offices, rows) == Reject(BadLastName)
    ensures id in rows ==> CheckUpdate(id, dto, dateMinLimit, dateMaxLimit, offices, rows) == Reject(BadLastName)
  {
  }

  /** Once the name passes, the date check fails exactly when the BirthDate lies outside [min, max]. */
  lemma BirthDateRule(id: int, dto: EmployeeDto, dateMinLimit: int, dateMaxLimit: int,
                      offices: Offices, rows: map<int, Employee>)
    requires LastNameValid(dto.lastName)
    ensures (CheckCreate(dto, dateMinLimit, dateMaxLimit, offices, rows) == Reject(BadBirthDate)
             <==> !(dateMinLimit <= dto.birthDate <= dateMaxLimit))
    ensures id in rows ==>
      (CheckUpdate(id, dto, dateMinLimit, dateMaxLimit, offices, rows) == Reject(BadBirthDate)
       <==> !(dateMinLimit <= dto.birthDate <= dateMaxLimit))
  {
  }

  /** Both ends of the window are accepted and the day beyond either end is not. */
  lemma BirthDateBoundaries(dateMinLimit: int, dateMaxLimit: int)
    requires dateMinLimit <= dateMaxLimit
    ensures BirthDateInWindow(dateMinLimit, dateMinLimit, dateMaxLimit)
    ensures BirthDateInWindow(dateMaxLimit, dateMinLimit, dateMaxLimit)
    ensures !BirthDateInWindow(dateMinLimit - 1, dateMinLimit, dateMaxLimit)
    ensures !BirthDateInWindow(dateMaxLimit + 1, dateMinLimit, dateMaxLimit)
  {
  }

  /** The create outcome is decided by the first failing check: name, date, office, capacity. */
  lemma CreateDecisionOrder(dto: EmployeeDto, dateMinLimit: int, dateMaxLimit: int,
                            offices: Offices, rows: map<int, Employee>)
    ensures var v := CheckCreate(dto, dateMinLimit, dateMaxLimit, offices, rows);
      && (v == Reject(BadLastName) <==> ' ' in dto.lastName)
      && (v == Reject(BadBirthDate) <==>
            ' ' !in dto.lastName && !(dateMinLimit <= dto.birthDate <= dateMaxLimit))
      && (v == Reject(NoSuchOffice) <==>
            ' ' !in dto.lastName && dateMinLimit <= dto.birthDate <= dateMaxLimit && dto.officeId !in offices)
      && (v.Reject? && v.why.OfficeFull? <==>
            ' ' !in dto.lastName && dateMinLimit <= dto.birthDate <= dateMaxLimit && dto.officeId in offices
            && Count(rows, dto.officeId) >= offices[dto.officeId])
      && (v.Reject? ==> v.why != NoSuchEmployee)
  {
  }

  /** The update outcome: a missing employee is reported before any of the create checks. */
  lemma UpdateDecisionOrder(id: int, dto: EmployeeDto, dateMinLimit: int, dateMaxLimit: int,
                            offices: Offices, rows: map<int, Employee>)
    ensures var v := CheckUpdate(id, dto, dateMinLimit, dateMaxLimit, offices, rows);
      && (v == Reject(NoSuchEmployee) <==> id !in rows)
      && (v == Reject(BadLastName) <==> id in rows && ' ' in dto.lastName)
      && (v == Reject(BadBirthDate) <==>
            id in rows && ' ' !in dto.lastName && !(dateMinLimit <= dto.birthDate <= dateMaxLimit))
      && (v == Reject(NoSuchOffice) <==>
            id in rows && ' ' !in dto.lastName && dateMinLimit <= dto.birthDate <= dateMaxLimit
            && dto.officeId !in offices)
      && (v.Reject? && v.why.OfficeFull? <==>
            id in rows && ' ' !in dto.lastName && dateMinLimit <= dto.birthDate <= dateMaxLimit
            && dto.officeId in offices && Count(rows, dto.officeId) >= offices[dto.officeId]
            && rows[id].officeId != dto.officeId)
  {
  }

  /** An update that keeps the employee in the same office is never refused for capacity. */
  lemma UpdateSameOfficeNeverFull(id: int, dto: EmployeeDto, dateMinLimit: int, dateMaxLimit: int,
                                  offices: Offices, rows: map<int, Employee>)
    requires id in rows && rows[id].officeId == dto.officeId
    ensures var v := CheckUpdate(id, dto, dateMinLimit, dateMaxLimit, offices, rows);
      !(v.Reject? && v.why.OfficeFull?)
  {
  }

  /** The 409 answer carries the current count and the office's MaxOccupancy. */
  lemma OfficeFullReportsCounts(id: int, dto: EmployeeDto, dateMinLimit: int, dateMaxLimit: int,
                                offices: Offices, rows: map<int, Employee>)
    ensures var v := CheckCreate(dto, dateMinLimit, dateMaxLimit, offices, rows);
      v.Reject? && v.why.OfficeFull? ==>
        dto.officeId in offices && v.why == OfficeFull(Count(rows, dto.officeId), offices[dto.officeId])
        && v.why.count >= v.why.maxOccupancy
    ensures var v := CheckUpdate(id, dto, dateMinLimit, dateMaxLimit, offices, rows);
      v.Reject? && v.why.OfficeFull? ==>
        dto.officeId in offices && v.why == OfficeFull(Count(rows, dto.officeId), offices[dto.officeId])
        && v.why.count >= v.why.maxOccupancy
  {
  }

  // ---------------------------------------------------------------------------
  // Accepted writes keep the capacity invariant
  // ---------------------------------------------------------------------------

  /** An accepted create leaves its office at or below MaxOccupancy, one above the count it was checked against. */
  lemma CreateAcceptedFits(dto: EmployeeDto, dateMinLimit: int, dateMaxLimit: int,
                           offices: Offices, rows: map<int, Employee>, newId: int)
    requires newId !in rows
    requires CheckCreate(dto, dateMinLimit, dateMaxLimit, offices, rows) == Accept
    ensures dto.officeId in offices
    ensures Count(rows[newId := ToEmployee(newId, dto)], dto.officeId) == Count(rows, dto.officeId) + 1
    ensures Count(rows[newId := ToEmployee(newId, dto)], dto.officeId) <= offices[dto.officeId]
  {
    CountInsert(rows, newId, ToEmployee(newId, dto), dto.officeId);
  }

  /** With one seat left the create is accepted and fills the office exactly. */
  lemma CreateFillsLastSeat(dto: EmployeeDto, dateMinLimit: int, dateMaxLimit: int,
                            offices: Offices, rows: map<int, Employee>, newId: int)
    requires LastNameValid(dto.lastName) && dateMinLimit <= dto.birthDate <= dateMaxLimit
    requires dto.officeId in offices && Count(rows, dto.officeId) == offices[dto.officeId] - 1
    requires newId !in rows
    ensures CheckCreate(dto, dateMinLimit, dateMaxLimit, offices, rows) == Accept
    ensures Count(rows[newId := ToEmployee(newId, dto)], dto.officeId) == offices[dto.officeId]
  {
    CountInsert(rows, newId, ToEmployee(newId, dto), dto.officeId);
  }

  /** An accepted create keeps every office within capacity and every employee in an existing office. */
  lemma CreatePreservesInvariants(dto: EmployeeDto, dateMinLimit: int, dateMaxLimit: int,
                                  offices: Offices, rows: map<int, Employee>, newId: int)
    requires newId !in rows
    requires CheckCreate(dto, dateMinLimit, dateMaxLimit, offices, rows) == Accept
    ensures WithinCapacity(rows, offices) ==> WithinCapacity(rows[newId := ToEmployee(newId, dto)], offices)
    ensures OfficesExist(rows, offices) ==> OfficesExist(rows[newId := ToEmployee(newId, dto)], offices)
  {
    var e := ToEmployee(newId, dto);
    if WithinCapacity(rows, offices) {
      forall o | o in offices
        ensures Count(rows[newId := e], o) <= offices[o]
      {
        CountInsert(rows, newId, e, o);
      }
    }
  }

  /** An accepted update keeps every office within capacity and every employee in an existing office. */
  lemma UpdatePreservesInvariants(id: int, dto: EmployeeDto, dateMinLimit: int, dateMaxLimit: int,
                                  offices: Offices, rows: map<int, Employee>)
    requires CheckUpdate(id, dto, dateMinLimit, dateMaxLimit, offices, rows) == Accept
    ensures WithinCapacity(rows, offices) ==> WithinCapacity(Replaced(rows, id, dto), offices)
    ensures OfficesExist(rows, offices) ==> OfficesExist(Replaced(rows, id, dto), offices)
  {
    var e := ToEmployee(id, dto);
    assert Replaced(rows, id, dto) == rows[id := e];
    if WithinCapacity(rows, offices) {
      forall o | o in offices
        ensures Count(rows[id := e], o) <= offices[o]
      {
        CountReplace(rows, id, e, o);
      }
    }
  }

  /** Removing a row never raises a count, so a delete keeps both invariants. */
  lemma DeletePreservesInvariants(id: int, offices: Offices, rows: map<int, Employee>)
    ensures WithinCapacity(rows, offices) ==> WithinCapacity(rows - {id}, offices)
    ensures OfficesExist(rows, offices) ==> OfficesExist(rows - {id}, offices)
  {
    if id !in rows {
      assert rows - {id} == rows;
    } else if WithinCapacity(rows, offices) {
      forall o | o in offices
        ensures Count(rows - {id}, o) <= offices[o]
      {
        CountRemove(rows, id, o);
      }
    }
  }

  /** Office 1 seats two and holds two: a third create there is a 409 reporting 2/2. */
  lemma FullOfficeExample(dto: EmployeeDto, dateMinLimit: int, dateMaxLimit: int)
    requires LastNameValid(dto.lastName) && dateMinLimit <= dto.birthDate <= dateMaxLimit
    requires dto.officeId == 1
    ensures var rows := map[7 := Employee(7, "Ann", "Berg", 0, 1), 9 := Employee(9, "Bo", "Lund", 0, 1)];
      && CheckCreate(dto, dateMinLimit, dateMaxLimit, map[1 := 2], rows) == Reject(OfficeFull(2, 2))
      && StatusCode(Rejected(OfficeFull(2, 2))) == 409
  {
    var rows := map[7 := Employee(7, "Ann", "Berg", 0, 1), 9 := Employee(9, "Bo", "Lund", 0, 1)];
    assert OfficeRows(rows, 1) == {7, 9};
  }

  // ---------------------------------------------------------------------------
  // The handlers
  // ---------------------------------------------------------------------------

  class EmployeesController {
    const employeeRepo: EmployeeRepository
    /** The office lookup: office Id to MaxOccupancy. */
    const offices: Offices
    /** The oldest and the youngest admissible BirthDate, as day numbers. */
    const dateMinLimit: int
    const dateMaxLimit: int

    ghost predicate Valid()
      reads this, employeeRepo
    {
      employeeRepo.Valid() && dateMinLimit <= dateMaxLimit
    }

    constructor (employeeRepo: EmployeeRepository, offices: Offices, dateMinLimit: int, dateMaxLimit: int)
      requires employeeRepo.Valid()
      requires dateMinLimit <= dateMaxLimit
      ensures Valid()
      ensures this.employeeRepo == employeeRepo && this.offices == offices
      ensures this.dateMinLimit == dateMinLimit && this.dateMaxLimit == dateMaxLimit
    {
      this.employeeRepo := employeeRepo;
      this.offices := offices;
      this.dateMinLimit := dateMinLimit;
      this.dateMaxLimit := dateMaxLimit;
    }

    /** GET /employees: every stored row. */
    method Get() returns (r: Response)
      requires Valid()
      ensures r.OkList? && StatusCode(r) == 200
      ensures forall e :: e in r.employees <==> e.id in employeeRepo.rows && employeeRepo.rows[e.id] == e
    {
      var employees := employeeRepo.GetEmployees();
      r := OkList(employees);
    }

    /** GET /employees/{id}: the row, or 404 when there is none. */
    method GetEmployee(id: int) returns (r: Response)
      requires Valid()
      ensures StatusCode(r) == 404 <==> id !in employeeRepo.rows
      ensures id !in employeeRepo.rows ==> r == Rejected(NoSuchEmployee)
      ensures id in employeeRepo.rows ==> r == Ok(employeeRepo.rows[id]) && r.employee.id == id
    {
      var employee := employeeRepo.GetEmployee(id);
      if employee.None? {
        return Rejected(NoSuchEmployee);
      }
      r := Ok(employee.value);
    }

    /** POST /employees. */
    method CreateEmployee(dto: EmployeeDto) returns (r: Response)
      requires Valid()
      modifies employeeRepo
      ensures Valid()
      ensures CheckCreate(dto, dateMinLimit, dateMaxLimit, offices, old(employeeRepo.rows)).Reject? ==>
        && r == Rejected(CheckCreate(dto, dateMinLimit, dateMaxLimit, offices, old(employeeRepo.rows)).why)
        && unchanged(employeeRepo)
      ensures CheckCreate(dto, dateMinLimit, dateMaxLimit, offices, old(employeeRepo.rows)).Accept? ==>
        && r.CreatedAt? && StatusCode(r) == 201
        && r.employee.id !in old(employeeRepo.rows)
        && SameFields(r.employee, dto)
        && employeeRepo.rows == old(employeeRepo.rows)[r.employee.id := r.employee]
        && employeeRepo.nextId == old(employeeRepo.nextId) + 1
      ensures WithinCapacity(old(employeeRepo.rows), offices) ==> WithinCapacity(employeeRepo.rows, offices)
      ensures OfficesExist(old(employeeRepo.rows), offices) ==> OfficesExist(employeeRepo.rows, offices)
    {
      if ' ' in dto.lastName {
        return Rejected(BadLastName);
      }
      if dto.birthDate < dateMinLimit || dateMaxLimit < dto.birthDate {
        return Rejected(BadBirthDate);
      }
      if dto.officeId !in offices {
        return Rejected(NoSuchOffice);
      }
      var maxOccupancy := offices[dto.officeId];
      var employeesAmount := employeeRepo.GetEmployeeCountForOffice(dto.officeId);
      if employeesAmount >= maxOccupancy {
        return Rejected(OfficeFull(employeesAmount, maxOccupancy));
      }
      ghost var before := employeeRepo.rows;
      var created := employeeRepo.CreateEmployee(dto);
      CreatePreservesInvariants(dto, dateMinLimit, dateMaxLimit, offices, before, created.id);
      r := CreatedAt(created);
    }

    /** PUT /employees/{id}: full replace of the four fields. */
    method UpdateEmployee(id: int, dto: EmployeeDto) returns (r: Response)
      requires Valid()
      modifies employeeRepo
      ensures Valid()
      ensures CheckUpdate(id, dto, dateMinLimit, dateMaxLimit, offices, old(employeeRepo.rows)).Reject? ==>
        && r == Rejected(CheckUpdate(id, dto, dateMinLimit, dateMaxLimit, offices, old(employeeRepo.rows)).why)
        && unchanged(employeeRepo)
      ensures CheckUpdate(id, dto, dateMinLimit, dateMaxLimit, offices, old(employeeRepo.rows)).Accept? ==>
        && r == NoContent
        && employeeRepo.rows == old(employeeRepo.rows)[id := ToEmployee(id, dto)]
        && employeeRepo.nextId == old(employeeRepo.nextId)
      ensures WithinCapacity(old(employeeRepo.rows), offices) ==> WithinCapacity(employeeRepo.rows, offices)
      ensures OfficesExist(old(employeeRepo.rows), offices) ==> OfficesExist(employeeRepo.rows, offices)
    {
      var dbEmployee := employeeRepo.GetEmployee(id);
      if dbEmployee.None? {
        return Rejected(NoSuchEmployee);
      }
      if ' ' in dto.lastName {
        return Rejected(BadLastName);
      }
      if dto.birthDate < dateMinLimit || dateMaxLimit < dto.birthDate {
        return Rejected(BadBirthDate);
      }
      if dto.officeId !in offices {
        return Rejected(NoSuchOffice);
      }
      var maxOccupancy := offices[dto.officeId];
      var employeesAmount := employeeRepo.GetEmployeeCountForOffice(dto.officeId);
      if employeesAmount >= maxOccupancy && dbEmployee.value.officeId != dto.officeId {
        return Rejected(OfficeFull(employeesAmount, maxOccupancy));
      }
      UpdatePreservesInvariants(id, dto, dateMinLimit, dateMaxLimit, offices, employeeRepo.rows);
      employeeRepo.UpdateEmployee(id, dto);
      r := NoContent;
    }

    /** DELETE /employees/{id}. */
    method DeleteEmployee(id: int) returns (r: Response)
      requires Valid()
      modifies employeeRepo
      ensures Valid()
      ensures id !in employeeRepo.rows
      ensures id !in old(employeeRepo.rows) ==> r == Rejected(NoSuchEmployee) && unchanged(employeeRepo)
      ensures id in old(employeeRepo.rows) ==>
        && r == NoContent
        && employeeRepo.rows == old(employeeRepo.rows) - {id}
        && employeeRepo.nextId == old(employeeRepo.nextId)
      ensures WithinCapacity(old(employeeRepo.rows), offices) ==> WithinCapacity(employeeRepo.rows, offices)
      ensures OfficesExist(old(employeeRepo.rows), offices) ==> OfficesExist(employeeRepo.rows, offices)
    {
      var dbEmployee := employeeRepo.GetEmployee(id);
      if dbEmployee.None? {
        return Rejected(NoSuchEmployee);
      }
      DeletePreservesInvariants(id, offices, employeeRepo.rows);
      employeeRepo.DeleteEmployee(id);
      r := NoContent;
    }
  }

  /** Deleting the same Id twice: whatever the first answer, the second is a 404. */
  method DeleteTwice(c: EmployeesController, id: int) returns (first: Response, second: Response)
    requires c.Valid()
    modifies c.employeeRepo
    ensures StatusCode(first) == (if id in old(c.employeeRepo.rows) then 204 else 404)
    ensures second == Rejected(NoSuchEmployee) && StatusCode(second) == 404
  {
    first := c.DeleteEmployee(id);
    second := c.DeleteEmployee(id);
  }
}
