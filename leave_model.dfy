/** The LeaveApplication schema: the shape of a stored record, its two enums, which
    fields are required or optional, the trim setters and the defaults. A record only
    comes into being through `Instantiate`, which is what `new LeaveApplication({...})`
    followed by schema validation at `save()` does. */
module LeaveModel {
  import opened Wrappers
  import opened Text
  import opened Calendar

  datatype LeaveType = Annual | Sick | Maternity | Paternity | Unpaid | Other

  datatype Status = Pending | Approved | Rejected

  function LeaveTypeName(t: LeaveType): string {
    match t
    case Annual => "Annual"
    case Sick => "Sick"
    case Maternity => "Maternity"
    case Paternity => "Paternity"
    case Unpaid => "Unpaid"
    case Other => "Other"
  }

  /** The `enum` validator of `leaveType`: exactly the six names are accepted. */
  function ParseLeaveType(s: string): (r: Option<LeaveType>)
    ensures forall t :: r == Some(t) <==> s == LeaveTypeName(t)
  {
    if s == "Annual" then Some(Annual)
    else if s == "Sick" then Some(Sick)
    else if s == "Maternity" then Some(Maternity)
    else if s == "Paternity" then Some(Paternity)
    else if s == "Unpaid" then Some(Unpaid)
    else if s == "Other" then Some(Other)
    else None
  }

  function StatusName(s: Status): string {
    match s
    case Pending => "Pending"
    case Approved => "Approved"
    case Rejected => "Rejected"
  }

  /** The `enum` validator of `status`, and equally the controller's list of valid statuses. */
  function ParseStatus(s: string): (r: Option<Status>)
    ensures forall st :: r == Some(st) <==> s == StatusName(st)
  {
    if s == "Pending" then Some(Pending)
    else if s == "Approved" then Some(Approved)
    else if s == "Rejected" then Some(Rejected)
    else None
  }

  /** A stored leave application. */
  datatype LeaveApplication = LeaveApplication(
    employeeId: string,
    employeeName: string,
    department: string,
    leaveType: LeaveType,
    startDate: Day,
    endDate: Day,
    workingDays: nat,
    reason: string,
    contactDuringLeave: Option<string>,
    status: Status,
    appliedDate: Day,
    reviewedBy: Option<string>,
    reviewDate: Option<Day>,
    comments: Option<string>)

  /** The values handed to the schema's constructor; `None` is a field left undefined. */
  datatype LeaveFields = LeaveFields(
    employeeId: Option<string>,
    employeeName: Option<string>,
    department: Option<string>,
    leaveType: Option<string>,
    startDate: Option<Day>,
    endDate: Option<Day>,
    workingDays: nat,
    reason: Option<string>,
    contactDuringLeave: Option<string>,
    status: Option<string>,
    appliedDate: Option<Day>)

  predicate TrimmedOption(x: Option<string>) {
    x.Some? ==> Trimmed(x.value)
  }

  /** What the schema guarantees of every stored record: the required strings are
      non-empty, and every string field is trimmed. The enums hold by construction. */
  predicate SchemaValid(a: LeaveApplication) {
    && a.employeeId != "" && Trimmed(a.employeeId)
    && a.employeeName != "" && Trimmed(a.employeeName)
    && a.department != "" && Trimmed(a.department)
    && a.reason != "" && Trimmed(a.reason)
    && TrimmedOption(a.contactDuringLeave)
    && TrimmedOption(a.reviewedBy)
    && TrimmedOption(a.comments)
  }

  /** The enum value of a trimmed `leaveType`, when it names one. */
  function LeaveTypeOf(x: Option<string>): Option<LeaveType> {
    match SetTrimmed(x)
    case None => None
    case Some(s) => ParseLeaveType(s)
  }

  /** The status a record is created with: the `default: 'Pending'` when none is given. */
  function StatusOf(x: Option<string>): Option<Status> {
    match x
    case None => Some(Pending)
    case Some(s) => ParseStatus(s)
  }

  /** True when the fields pass validation once the setters have run; `required` on a
      string fails on undefined and on the empty string, as `Present` does. */
  predicate Validates(f: LeaveFields) {
    && Present(SetTrimmed(f.employeeId))
    && Present(SetTrimmed(f.employeeName))
    && Present(SetTrimmed(f.department))
    && LeaveTypeOf(f.leaveType).Some?
    && f.startDate.Some?
    && f.endDate.Some?
    && Present(SetTrimmed(f.reason))
    && StatusOf(f.status).Some?
  }

  /** Construct and validate a record: trim setters on every string, the status default
      `Pending` and the appliedDate default `now`; `None` when a required field is missing
      (after trimming) or an enum is violated. The optional fields stay undefined unless
      given; review fields always start undefined. */
  function Instantiate(f: LeaveFields, now: Day): (r: Option<LeaveApplication>)
    ensures r.Some? <==> Validates(f)
    ensures r.Some? ==> SchemaValid(r.value)
    ensures r.Some? ==> && Some(r.value.employeeId) == SetTrimmed(f.employeeId)
                        && Some(r.value.employeeName) == SetTrimmed(f.employeeName)
                        && Some(r.value.department) == SetTrimmed(f.department)
                        && Some(r.value.reason) == SetTrimmed(f.reason)
                        && r.value.contactDuringLeave == SetTrimmed(f.contactDuringLeave)
                        && Some(r.value.startDate) == f.startDate
                        && Some(r.value.endDate) == f.endDate
                        && r.value.workingDays == f.workingDays
                        && LeaveTypeName(r.value.leaveType) == SetTrimmed(f.leaveType).value
                        && (f.status.None? ==> r.value.status == Pending)
                        && (f.status.Some? ==> StatusName(r.value.status) == f.status.value)
                        && r.value.appliedDate == (if f.appliedDate.Some? then f.appliedDate.value else now)
                        && r.value.reviewedBy.None? && r.value.reviewDate.None? && r.value.comments.None?
  {
    if !Validates(f) then None
    else
      Some(LeaveApplication(
        employeeId := SetTrimmed(f.employeeId).value,
        employeeName := SetTrimmed(f.employeeName).value,
        department := SetTrimmed(f.department).value,
        leaveType := LeaveTypeOf(f.leaveType).value,
        startDate := f.startDate.value,
        endDate := f.endDate.value,
        workingDays := f.workingDays,
        reason := SetTrimmed(f.reason).value,
        contactDuringLeave := SetTrimmed(f.contactDuringLeave),
        status := StatusOf(f.status).value,
        appliedDate := if f.appliedDate.Some? then f.appliedDate.value else now,
        reviewedBy := None,
        reviewDate := None,
        comments := None))
  }
}
