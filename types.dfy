/** The data shapes shared by the stores and services: users, login responses, employees and time entries. */
module Types {
  import opened Wrappers

  /** The `type` tag of a user or employee record. */
  datatype Role = Master | Default

  /** The `status` flag, which the API sends as 0 or 1. */
  type StatusFlag = x: int | 0 <= x <= 1

  /** A user record as the API returns it. */
  datatype User = User(
    id: int,
    fullName: string,
    phone: string,
    email: string,
    department: string,
    position: string,
    role: Role,
    status: StatusFlag,
    createdAt: string,
    updatedAt: string)

  /** The body of a successful login. */
  datatype LoginResponse = LoginResponse(user: User, token: string)

  /** An employee record; it has the same shape as a user. */
  datatype Employee = Employee(
    id: int,
    fullName: string,
    phone: string,
    email: string,
    department: string,
    position: string,
    role: Role,
    status: StatusFlag,
    createdAt: string,
    updatedAt: string)

  /**
   * One recorded work interval. `date` is an ISO `YYYY-MM-DD` string and the times are `HH:MM`
   * strings; `durationHours` is an exact real rather than a floating-point number.
   */
  datatype TimeEntry = TimeEntry(
    id: int,
    date: string,
    startTime: string,
    endTime: string,
    description: string,
    durationHours: real,
    entryType: Option<string>,
    lunchStartTime: Option<string>,
    lunchEndTime: Option<string>)
}
