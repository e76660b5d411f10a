/** The leave-application controllers that read or change one record: create (with the
    working-day count), get by id, update of the status, and delete. Each handler's outcome
    is first stated as a function of the store and the request; the `LeaveStore` class then
    carries the store and its methods are proved to produce exactly those outcomes. */
module LeaveControllers {
  import opened Wrappers
  import opened Text
  import opened Http
  import opened Calendar
  import opened LeaveModel

  const MsgMissingFields := "Please provide all required fields"
  const MsgEndBeforeStart := "End date cannot be before start date"
  const MsgSubmitFailed := "Error submitting leave application"
  const MsgNotFound := "Leave application not found"
  const MsgInvalidStatus := "Invalid status value. Must be Approved, Rejected, or Pending"
  const MsgCannotDeleteReviewed := "Cannot delete applications that have been reviewed"

  /** The statuses updateLeaveStatus accepts, exactly as spelled. */
  const ValidStatuses := ["Approved", "Rejected", "Pending"]

  /** The body of POST /apply; `None` is an absent field, dates are day numbers. */
  datatype LeaveRequest = LeaveRequest(
    employeeId: Option<string>,
    employeeName: Option<string>,
    department: Option<string>,
    leaveType: Option<string>,
    startDate: Option<Day>,
    endDate: Option<Day>,
    reason: Option<string>,
    contactDuringLeave: Option<string>)

  /** The controller's own presence check: five fields only, tested before any trimming. */
  predicate RequiredPresent(req: LeaveRequest) {
    && Present(req.employeeId)
    && Present(req.employeeName)
    && Present(req.leaveType)
    && req.startDate.Some?
    && req.endDate.Some?
  }

  /** A stored record as the controllers keep it: valid for the schema, with a date range
      in order and the working days that range holds. */
  predicate Consistent(a: LeaveApplication) {
    && SchemaValid(a)
    && a.startDate <= a.endDate
    && a.workingDays == WorkingDays(a.startDate, a.endDate)
  }

  /** The loop that counts working days: walk every day from start to end inclusive and
      count those that are not a Saturday or a Sunday. */
  method CountWorkingDays(start: Day, end: Day) returns (workingDays: nat)
    ensures workingDays == WorkingDays(start, end)
  {
    workingDays := 0;
    var currentDate := start;
    while currentDate <= end
      invariant start <= currentDate
      invariant start <= end ==> currentDate <= end + 1
      invariant start > end ==> currentDate == start
      invariant workingDays == WorkingDays(start, currentDate - 1)
      decreases end - currentDate
    {
      var dayOfWeek := Weekday(currentDate);
      if dayOfWeek != Sunday && dayOfWeek != Saturday {
        workingDays := workingDays + 1;
      }
      currentDate := currentDate + 1;
    }
  }

  /** What createLeaveApplication hands to the schema. */
  function FieldsOf(req: LeaveRequest, workingDays: nat, now: Day): LeaveFields {
    LeaveFields(
      employeeId := req.employeeId,
      employeeName := req.employeeName,
      department := req.department,
      leaveType := req.leaveType,
      startDate := req.startDate,
      endDate := req.endDate,
      workingDays := workingDays,
      reason := req.reason,
      contactDuringLeave := req.contactDuringLeave,
      status := Some("Pending"),
      appliedDate := Some(now))
  }

  /** The outcome of createLeaveApplication at time `now`. A missing field or a reversed
      range is a 400 with nothing stored; department, reason and the leaveType enum are
      only checked by the schema at save time, so their failure is a 500; otherwise the
      new record is Pending, applied for `now`, and holds the working days of its range. */
  function CreateResult(req: LeaveRequest, now: Day): (r: Response<LeaveApplication>)
    ensures !RequiredPresent(req) ==> r == BadRequest(MsgMissingFields)
    ensures RequiredPresent(req) && req.startDate.value > req.endDate.value ==> r == BadRequest(MsgEndBeforeStart)
    ensures r.BadRequest? <==> !RequiredPresent(req) || req.startDate.value > req.endDate.value
    ensures r.Created? <==> && RequiredPresent(req) && req.startDate.value <= req.endDate.value
                            && Validates(FieldsOf(req, WorkingDays(req.startDate.value, req.endDate.value), now))
    ensures RequiredPresent(req) && req.startDate.value <= req.endDate.value
            ==> r.Created? || r == ServerError(MsgSubmitFailed)
    ensures RequiredPresent(req) && (!Present(SetTrimmed(req.department)) || !Present(SetTrimmed(req.reason)))
            ==> !r.Created?
    ensures r.Created? ==>
              && Consistent(r.value)
              && r.value.status == Pending
              && r.value.appliedDate == now
              && r.value.startDate == req.startDate.value
              && r.value.endDate == req.endDate.value
              && r.value.workingDays == WorkingDays(req.startDate.value, req.endDate.value)
              && r.value.employeeId == Trim(req.employeeId.value)
              && r.value.employeeName == Trim(req.employeeName.value)
              && r.value.department == Trim(req.department.value)
              && r.value.reason == Trim(req.reason.value)
              && LeaveTypeName(r.value.leaveType) == Trim(req.leaveType.value)
              && r.value.contactDuringLeave == SetTrimmed(req.contactDuringLeave)
              && r.value.reviewedBy.None? && r.value.reviewDate.None? && r.value.comments.None?
  {
    if !RequiredPresent(req) then BadRequest(MsgMissingFields)
    else if req.startDate.value > req.endDate.value then BadRequest(MsgEndBeforeStart)
    else
      match Instantiate(FieldsOf(req, WorkingDays(req.startDate.value, req.endDate.value), now), now)
      case None => ServerError(MsgSubmitFailed)
      case Some(a) => Created(a)
  }

  /** A leave of a single day is accepted, and counts 1 working day on a weekday and 0 on
      a weekend. */
  lemma SameDayAccepted(req: LeaveRequest, now: Day)
    requires RequiredPresent(req) && req.startDate == req.endDate
    requires Validates(FieldsOf(req, 0, now))
    ensures CreateResult(req, now).Created?
    ensures CreateResult(req, now).value.workingDays == if IsWorkingDay(req.startDate.value) then 1 else 0
  {
    SingleDay(req.startDate.value);
  }

  /** getLeaveApplication: the record under `id`, or 404. */
  function GetResult(applications: map<Id, LeaveApplication>, id: Id): (r: Response<LeaveApplication>)
    ensures r.Ok? <==> id in applications
    ensures r.Ok? ==> r.value == applications[id]
    ensures !r.Ok? ==> r == NotFound(MsgNotFound)
  {
    if id in applications then Ok(applications[id]) else NotFound(MsgNotFound)
  }

  /** The record after a review: the four review fields overwritten, the rest kept. */
  function Reviewed(a: LeaveApplication, status: Status, reviewedBy: Option<string>,
                    comments: Option<string>, now: Day): (r: LeaveApplication)
    ensures r.status == status && r.reviewedBy == SetTrimmed(reviewedBy)
            && r.reviewDate == Some(now) && r.comments == SetTrimmed(comments)
    ensures r.(status := a.status, reviewedBy := a.reviewedBy, reviewDate := a.reviewDate, comments := a.comments) == a
  {
    a.(status := status, reviewedBy := SetTrimmed(reviewedBy), reviewDate := Some(now),
       comments := SetTrimmed(comments))
  }

  /** The outcome of updateLeaveStatus. The status is checked before the lookup, so an
      invalid status is a 400 whatever the id; then an unknown id is a 404; otherwise
      status, reviewedBy, reviewDate (= now) and comments are overwritten whatever the
      record's prior status was, and no other field changes. */
  function UpdateStatusResult(applications: map<Id, LeaveApplication>, id: Id, status: Option<string>,
                              reviewedBy: Option<string>, comments: Option<string>, now: Day)
    : (r: Response<LeaveApplication>)
    ensures status.None? || status.value !in ValidStatuses ==> r == BadRequest(MsgInvalidStatus)
    ensures status.Some? && status.value in ValidStatuses && id !in applications ==> r == NotFound(MsgNotFound)
    ensures r.Ok? <==> status.Some? && status.value in ValidStatuses && id in applications
    ensures r.Ok? ==>
              && StatusName(r.value.status) == status.value
              && r.value.reviewedBy == SetTrimmed(reviewedBy)
              && r.value.reviewDate == Some(now)
              && r.value.comments == SetTrimmed(comments)
              && r.value == applications[id].(status := r.value.status, reviewedBy := r.value.reviewedBy,
                                                reviewDate := r.value.reviewDate, comments := r.value.comments)
  {
    if status.None? || status.value !in ValidStatuses then BadRequest(MsgInvalidStatus)
    else if id !in applications then NotFound(MsgNotFound)
    else Ok(Reviewed(applications[id], ParseStatus(status.value).value, reviewedBy, comments, now))
  }

  /** The outcome of deleteLeaveApplication: 404 for an unknown id, 400 for a record that
      is no longer Pending, success otherwise. */
  function DeleteResult(applications: map<Id, LeaveApplication>, id: Id): (r: Response<()>)
    ensures id !in applications ==> r == NotFound(MsgNotFound)
    ensures id in applications && applications[id].status != Pending ==> r == BadRequest(MsgCannotDeleteReviewed)
    ensures r.Ok? <==> id in applications && applications[id].status == Pending
  {
    if id !in applications then NotFound(MsgNotFound)
    else if applications[id].status != Pending then BadRequest(MsgCannotDeleteReviewed)
    else Ok(())
  }

  /** The store after a delete: the record is removed exactly when the delete succeeds. */
  function AfterDelete(applications: map<Id, LeaveApplication>, id: Id): map<Id, LeaveApplication> {
    if DeleteResult(applications, id).Ok? then applications - {id} else applications
  }

  /** A successful delete removes exactly that id: a later get on it is a 404 and every
      other record is still there, unchanged. */
  lemma DeletedIsGone(applications: map<Id, LeaveApplication>, id: Id)
    requires DeleteResult(applications, id).Ok?
    ensures GetResult(AfterDelete(applications, id), id) == NotFound(MsgNotFound)
    ensures forall other :: other != id ==> GetResult(AfterDelete(applications, id), other) == GetResult(applications, other)
  {
  }

  /** Once a record has been approved or rejected it can no longer be deleted. */
  lemma ReviewedCannotBeDeleted(applications: map<Id, LeaveApplication>, id: Id, status: string,
                                reviewedBy: Option<string>, comments: Option<string>, now: Day)
    requires status == "Approved" || status == "Rejected"
    requires UpdateStatusResult(applications, id, Some(status), reviewedBy, comments, now).Ok?
    ensures var r := UpdateStatusResult(applications, id, Some(status), reviewedBy, comments, now);
            DeleteResult(applications[id := r.value], id) == BadRequest(MsgCannotDeleteReviewed)
  {
  }

  /** The update does not look at the prior status: a reviewed record can be reviewed
      again, and in particular set back to Pending, after which it is deletable again. */
  lemma ReReviewIsAllowed(applications: map<Id, LeaveApplication>, id: Id,
                          reviewedBy: Option<string>, comments: Option<string>, now: Day)
    requires id in applications
    ensures var r := UpdateStatusResult(applications, id, Some("Pending"), reviewedBy, comments, now);
            r.Ok? && r.value.status == Pending && DeleteResult(applications[id := r.value], id).Ok?
  {
  }

  /** A review keeps a record consistent: it touches neither the dates nor the working days. */
  lemma ReviewKeepsConsistent(a: LeaveApplication, status: Status, reviewedBy: Option<string>,
                              comments: Option<string>, now: Day)
    requires Consistent(a)
    ensures Consistent(Reviewed(a, status, reviewedBy, comments, now))
  {
  }

  /** The collection of leave applications, keyed by id. `nextId` stands in for
      ObjectId generation: every stored id is below it. */
  class LeaveStore {
    var applications: map<Id, LeaveApplication>
    var nextId: Id

    ghost predicate Valid()
      reads this
    {
      forall id :: id in applications ==> id < nextId && Consistent(applications[id])
    }

    constructor ()
      ensures Valid() && applications == map[]
    {
      applications := map[];
      nextId := 0;
    }

    /** createLeaveApplication: on success exactly one record is added, under a fresh id;
        on any failure the store is unchanged. */
    method CreateLeaveApplication(req: LeaveRequest, now: Day) returns (r: Response<LeaveApplication>, id: Id)
      requires Valid()
      modifies this
      ensures Valid()
      ensures r == CreateResult(req, now)
      ensures r.Created? ==> id == old(nextId) && id !in old(applications)
                             && applications == old(applications)[id := r.value]
      ensures !r.Created? ==> applications == old(applications)
      ensures nextId == old(nextId) + (if r.Created? then 1 else 0)
    {
      id := nextId;
      if !RequiredPresent(req) {
        r := BadRequest(MsgMissingFields);
        return;
      }
      var start, end := req.startDate.value, req.endDate.value;
      if start > end {
        r := BadRequest(MsgEndBeforeStart);
        return;
      }
      var workingDays := CountWorkingDays(start, end);
      var application := Instantiate(FieldsOf(req, workingDays, now), now);
      if application.None? {
        r := ServerError(MsgSubmitFailed);
        return;
      }
      r := Created(application.value);
      id := Store(application.value);
    }

    /** `save()` of a new record: it is stored under the next fresh id. */
    method Store(a: LeaveApplication) returns (id: Id)
      requires Valid() && Consistent(a)
      modifies this
      ensures Valid()
      ensures id == old(nextId) && id !in old(applications)
      ensures applications == old(applications)[id := a] && nextId == old(nextId) + 1
    {
      id := nextId;
      applications := applications[id := a];
      nextId := nextId + 1;
    }

    /** updateLeaveStatus: the record under `id` is overwritten with the reviewed one when
        the update succeeds; no other record changes, and nothing changes on failure. */
    method UpdateLeaveStatus(id: Id, status: Option<string>, reviewedBy: Option<string>,
                             comments: Option<string>, now: Day) returns (r: Response<LeaveApplication>)
      requires Valid()
      modifies this
      ensures Valid() && nextId == old(nextId)
      ensures r == UpdateStatusResult(old(applications), id, status, reviewedBy, comments, now)
      ensures applications == if r.Ok? then old(applications)[id := r.value] else old(applications)
    {
      if status.None? || status.value !in ValidStatuses {
        r := BadRequest(MsgInvalidStatus);
        return;
      }
      if id !in applications {
        r := NotFound(MsgNotFound);
        return;
      }
      var application := applications[id];
      ReviewKeepsConsistent(application, ParseStatus(status.value).value, reviewedBy, comments, now);
      application := application.(status := ParseStatus(status.value).value);
      application := application.(reviewedBy := SetTrimmed(reviewedBy));
      application := application.(reviewDate := Some(now));
      application := application.(comments := SetTrimmed(comments));
      applications := applications[id := application];
      r := Ok(application);
    }

    /** deleteLeaveApplication: removes exactly `id` when the delete succeeds. */
    method DeleteLeaveApplication(id: Id) returns (r: Response<()>)
      requires Valid()
      modifies this
      ensures Valid() && nextId == old(nextId)
      ensures r == DeleteResult(old(applications), id)
      ensures applications == AfterDelete(old(applications), id)
    {
      if id !in applications {
        r := NotFound(MsgNotFound);
        return;
      }
      if applications[id].status != Pending {
        r := BadRequest(MsgCannotDeleteReviewed);
        return;
      }
      applications := applications - {id};
      r := Ok(());
    }
  }
}
