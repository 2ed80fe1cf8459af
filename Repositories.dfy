/**
 The Employees table as the data-access layer sees it: a map from Id to row and
 a counter, standing in for the identity column, that hands out fresh Ids. Each SQL statement of the
 repository becomes one method whose contract is its effect on that map.
 */
module Repositories {
  import opened Models

  /** The Ids of the rows assigned to office `officeId`. */
  function OfficeRows(rows: map<int, Employee>, officeId: int): set<int>
  {
    set id | id in rows && rows[id].officeId == officeId
  }

  /** `SELECT COUNT(*) FROM Employees WHERE OfficeId = officeId`. */
  function Count(rows: map<int, Employee>, officeId: int): (n: nat)
    ensures n <= |rows|
  {
    var inOffice := OfficeRows(rows, officeId);
    assert rows.Keys == inOffice + (rows.Keys - inOffice);
    assert inOffice * (rows.Keys - inOffice) == {};
    |inOffice|
  }

  /** The count is zero exactly when no row names that office. */
  lemma CountZeroIff(rows: map<int, Employee>, officeId: int)
    ensures Count(rows, officeId) == 0 <==> forall id :: id in rows ==> rows[id].officeId != officeId
  {
    if exists id :: id in rows && rows[id].officeId == officeId {
      var id :| id in rows && rows[id].officeId == officeId;
      assert id in OfficeRows(rows, officeId);
    } else {
      assert OfficeRows(rows, officeId) == {};
    }
  }

  /** Inserting a row under a fresh Id adds one to its office's count and leaves every other count alone. */
  lemma CountInsert(rows: map<int, Employee>, id: int, e: Employee, officeId: int)
    requires id !in rows
    ensures Count(rows[id := e], officeId) == Count(rows, officeId) + (if e.officeId == officeId then 1 else 0)
  {
    var before := OfficeRows(rows, officeId);
    var after := OfficeRows(rows[id := e], officeId);
    assert id !in before;
    if e.officeId == officeId {
      assert after == before + {id};
    } else {
      assert after == before;
    }
  }

  /** Removing an existing row takes one off its office's count and leaves every other count alone. */
  lemma CountRemove(rows: map<int, Employee>, id: int, officeId: int)
    requires id in rows
    ensures Count(rows - {id}, officeId) == Count(rows, officeId) - (if rows[id].officeId == officeId then 1 else 0)
  {
    var before := OfficeRows(rows, officeId);
    var after := OfficeRows(rows - {id}, officeId);
    if rows[id].officeId == officeId {
      assert before == after + {id};
    } else {
      assert after == before;
    }
  }

  /** Replacing an existing row moves one unit of count from its old office to its new one. */
  lemma CountReplace(rows: map<int, Employee>, id: int, e: Employee, officeId: int)
    requires id in rows
    ensures Count(rows[id := e], officeId)
         == Count(rows, officeId)
            - (if rows[id].officeId == officeId then 1 else 0)
            + (if e.officeId == officeId then 1 else 0)
  {
    var rest := rows - {id};
    assert rows[id := e] == rest[id := e];
    CountRemove(rows, id, officeId);
    CountInsert(rest, id, e, officeId);
  }

  /** The table after `UPDATE Employees SET ... WHERE Id = id`: nothing happens when no row matches. */
  function Replaced(rows: map<int, Employee>, id: int, dto: EmployeeDto): (r: map<int, Employee>)
    ensures r.Keys == rows.Keys
    ensures id in rows ==> r[id] == ToEmployee(id, dto)
    ensures forall k :: k in rows && k != id ==> r[k] == rows[k]
  {
    if id in rows then rows[id := ToEmployee(id, dto)] else rows
  }

  class EmployeeRepository {
    /** The Employees table, keyed by Id. */
    var rows: map<int, Employee>
    /**
     The model's stand-in for the identity column: each insert takes this value
     and raises it by one. Only freshness and growth are relied on.
     */
    var nextId: int

    /** Every row is stored under its own Id, and every Id is below the identity counter. */
    ghost predicate Valid()
      reads this
    {
      forall id :: id in rows ==> rows[id].id == id && id < nextId
    }

    /**
     A repository attached to the Employees table as it stands: any rows, each
     stored under its own Id, with the counter above every Id in use.
     */
    constructor (rows0: map<int, Employee>, nextId0: int)
      requires forall id :: id in rows0 ==> rows0[id].id == id && id < nextId0
      ensures Valid()
      ensures rows == rows0 && nextId == nextId0
    {
      rows := rows0;
      nextId := nextId0;
    }

    /** `SELECT * FROM Employees`: every row, each once. */
    method GetEmployees() returns (employees: set<Employee>)
      requires Valid()
      ensures forall e :: e in employees <==> e.id in rows && rows[e.id] == e
    {
      employees := set id | id in rows :: rows[id];
      forall e | e in employees
        ensures e.id in rows && rows[e.id] == e
      {
        var id :| id in rows && rows[id] == e;
      }
    }

    /** `SELECT * FROM Employees WHERE Id = id`: the row, or nothing (a C# null). */
    method GetEmployee(id: int) returns (employee: Option<Employee>)
      ensures employee.None? <==> id !in rows
      ensures employee.Some? ==> employee.value == rows[id]
    {
      if id in rows {
        employee := Some(rows[id]);
      } else {
        employee := None;
      }
    }

    /** The number of rows assigned to `officeId`, zero when there are none. */
    method GetEmployeeCountForOffice(officeId: int) returns (n: nat)
      ensures n == Count(rows, officeId)
      ensures n == 0 <==> forall id :: id in rows ==> rows[id].officeId != officeId
    {
      n := Count(rows, officeId);
      CountZeroIff(rows, officeId);
    }

    /**
     `INSERT ... SELECT SCOPE_IDENTITY()`: stores the payload under a fresh Id and
     echoes the stored record back. The Id taken is the model's counter value.
     */
    method CreateEmployee(dto: EmployeeDto) returns (created: Employee)
      requires Valid()
      modifies this
      ensures Valid()
      ensures created.id !in old(rows)
      ensures forall id :: id in old(rows) ==> id < created.id
      ensures SameFields(created, dto)
      ensures rows == old(rows)[created.id := created]
      ensures created.id == old(nextId) && nextId == old(nextId) + 1
    {
      var id := nextId;
      created := ToEmployee(id, dto);
      rows := rows[id := created];
      nextId := nextId + 1;
    }

    /** `UPDATE Employees SET <all four fields> WHERE Id = id`. */
    method UpdateEmployee(id: int, dto: EmployeeDto)
      requires Valid()
      modifies this
      ensures Valid()
      ensures rows == Replaced(old(rows), id, dto)
      ensures nextId == old(nextId)
    {
      if id in rows {
        rows := rows[id := ToEmployee(id, dto)];
      }
    }

    /** `DELETE FROM Employees WHERE Id = id`: removes that row, if any. */
    method DeleteEmployee(id: int)
      requires Valid()
      modifies this
      ensures Valid()
      ensures rows == old(rows) - {id}
      ensures nextId == old(nextId)
    {
      rows := rows - {id};
    }
  }

  /** Creating an employee and then reading it back by the returned Id yields the same record. */
  method CreateThenGet(repo: EmployeeRepository, dto: EmployeeDto) returns (created: Employee, fetched: Option<Employee>)
    requires repo.Valid()
    modifies repo
    ensures repo.Valid()
    ensures fetched == Some(created) && SameFields(created, dto)
  {
    created := repo.CreateEmployee(dto);
    fetched := repo.GetEmployee(created.id);
  }
}
