/**
 The records the employee endpoints exchange: the write payload (`EmployeeDto`),
 the stored row (`Employee`) and the office table seen as a map from office Id
 to its maximum occupancy. Dates are day numbers.
 */
module Models {

  datatype Option<+T> = None | Some(value: T)

  /** The fields a client sends on create and on full-replace update. */
  datatype EmployeeDto = EmployeeDto(
    firstName: string,
    lastName: string,
    birthDate: int,
    officeId: int)

  /** A row of the Employees table: the payload plus the server-assigned Id. */
  datatype Employee = Employee(
    id: int,
    firstName: string,
    lastName: string,
    birthDate: int,
    officeId: int)

  /** The Offices table, read-only here: office Id to MaxOccupancy. */
  type Offices = map<int, int>

  /** The record built from a payload once the store has chosen its Id. */
  function ToEmployee(id: int, dto: EmployeeDto): Employee
  {
    Employee(id, dto.firstName, dto.lastName, dto.birthDate, dto.officeId)
  }

  /** The four mutable fields of `e` are those of `dto`. */
  predicate SameFields(e: Employee, dto: EmployeeDto)
  {
    && e.firstName == dto.firstName
    && e.lastName == dto.lastName
    && e.birthDate == dto.birthDate
    && e.officeId == dto.officeId
  }
}
