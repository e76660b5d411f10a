/** The read-only leave controllers: the two listings, sorted by appliedDate with the most
    recent first, and the dashboard statistics. They are folds over the store, written as
    functions of the map of applications.

    Query values are cast the way the store casts them: `find` and `countDocuments` run the
    schema's trim setter over an `employeeId` filter (`CastQuery`), while an `aggregate`
    pipeline's `$match` takes the value as given. */
module LeaveQueries {
  import opened Wrappers
  import opened Text
  import opened Calendar
  import opened LeaveModel

  type Entry = (Id, LeaveApplication)

  /** The cast the store applies to an `employeeId` query value. */
  function CastQuery(employeeId: string): string {
    Trim(employeeId)
  }

  lemma CastKeepsTrimmed(employeeId: string)
    ensures Trimmed(employeeId) ==> CastQuery(employeeId) == employeeId
  {
    if Trimmed(employeeId) {
      TrimFixesTrimmed(employeeId);
    }
  }

  /** `a` is listed before `b`: the later appliedDate first, equal dates by ascending id. */
  predicate Precedes(a: Entry, b: Entry) {
    a.1.appliedDate > b.1.appliedDate || (a.1.appliedDate == b.1.appliedDate && a.0 <= b.0)
  }

  /** The listing order: appliedDate never increases along the sequence. */
  predicate SortedByAppliedDateDesc(r: seq<Entry>) {
    forall i, j :: 0 <= i < j < |r| ==> r[i].1.appliedDate >= r[j].1.appliedDate
  }

  /** Every entry of `r` is the record stored under its id, and no id appears twice. */
  predicate EntriesOf(r: seq<Entry>, m: map<Id, LeaveApplication>) {
    && (forall i :: 0 <= i < |r| ==> r[i].0 in m && m[r[i].0] == r[i].1)
    && (forall i, j :: 0 <= i < j < |r| ==> r[i].0 != r[j].0)
  }

  predicate IsNewest(m: map<Id, LeaveApplication>, k: Id) {
    k in m && forall j :: j in m ==> Precedes((k, m[k]), (j, m[j]))
  }

  lemma {:induction false} NewestExists(m: map<Id, LeaveApplication>)
    requires m != map[]
    ensures exists k :: IsNewest(m, k)
    decreases |m|
  {
    var x :| x in m;
    if m.Keys == {x} {
      assert IsNewest(m, x);
    } else {
      var rest := m - {x};
      assert |rest| < |m| && x !in rest && rest != map[] by {
        var y :| y in m.Keys && y != x;
        assert y in rest;
      }
      NewestExists(rest);
      var k :| IsNewest(rest, k);
      assert forall j :: j in rest ==> rest[j] == m[j];
      if Precedes((k, m[k]), (x, m[x])) {
        forall j | j in m ensures Precedes((k, m[k]), (j, m[j])) {
          if j != x {
            assert j in rest && Precedes((k, rest[k]), (j, rest[j]));
          }
        }
        assert IsNewest(m, k);
      } else {
        forall j | j in m ensures Precedes((x, m[x]), (j, m[j])) {
          if j != x {
            assert j in rest && Precedes((k, rest[k]), (j, rest[j]));
          }
        }
        assert IsNewest(m, x);
      }
    }
  }

  /** The entry that comes first in the listing. */
  function Newest(m: map<Id, LeaveApplication>): (k: Id)
    requires m != map[]
    ensures IsNewest(m, k)
  {
    NewestExists(m);
    var k :| IsNewest(m, k);
    k
  }

  /** Putting the newest entry of `m` in front of a listing of the rest keeps the
      listing in order. */
  lemma ConsSorted(m: map<Id, LeaveApplication>, k: Id, tail: seq<Entry>)
    requires IsNewest(m, k)
    requires EntriesOf(tail, m - {k}) && SortedByAppliedDateDesc(tail)
    ensures SortedByAppliedDateDesc([(k, m[k])] + tail)
  {
    var r := [(k, m[k])] + tail;
    forall i, j | 0 <= i < j < |r| ensures r[i].1.appliedDate >= r[j].1.appliedDate {
      assert r[j] == tail[j - 1];
      if i == 0 {
        var id := tail[j - 1].0;
        assert id in m - {k} && (m - {k})[id] == tail[j - 1].1;
        assert Precedes((k, m[k]), (id, m[id]));
      } else {
        assert r[i] == tail[i - 1];
      }
    }
  }

  /** ... lists every entry of `m` once ... */
  lemma ConsEntries(m: map<Id, LeaveApplication>, k: Id, tail: seq<Entry>)
    requires k in m
    requires EntriesOf(tail, m - {k})
    ensures EntriesOf([(k, m[k])] + tail, m)
  {
    var r := [(k, m[k])] + tail;
    forall i | 0 <= i < |r| ensures r[i].0 in m && m[r[i].0] == r[i].1 {
      if i > 0 {
        assert r[i] == tail[i - 1] && tail[i - 1].0 in m - {k};
      }
    }
    forall i, j | 0 <= i < j < |r| ensures r[i].0 != r[j].0 {
      assert r[j] == tail[j - 1] && tail[j - 1].0 in m - {k};
      if i > 0 {
        assert r[i] == tail[i - 1];
      }
    }
  }

  /** ... and leaves none out. */
  lemma ConsCovers(m: map<Id, LeaveApplication>, k: Id, tail: seq<Entry>)
    requires k in m
    requires forall j :: j in m - {k} ==> (j, (m - {k})[j]) in tail
    ensures forall j :: j in m ==> (j, m[j]) in [(k, m[k])] + tail
  {
    forall j | j in m ensures (j, m[j]) in [(k, m[k])] + tail {
      if j != k {
        assert j in m - {k} && (m - {k})[j] == m[j];
      }
    }
  }

  /** All of `m`, most recently applied first: `.sort({ appliedDate: -1 })`. */
  function Ordered(m: map<Id, LeaveApplication>): (r: seq<Entry>)
    ensures |r| == |m|
    ensures EntriesOf(r, m)
    ensures forall k :: k in m ==> (k, m[k]) in r
    ensures SortedByAppliedDateDesc(r)
    decreases |m|
  {
    if m == map[] then []
    else
      var k := Newest(m);
      var rest := m - {k};
      assert |rest| == |m| - 1;
      var tail := Ordered(rest);
      ConsSorted(m, k, tail);
      ConsEntries(m, k, tail);
      ConsCovers(m, k, tail);
      [(k, m[k])] + tail
  }

  /** The records an optional `employeeId` filter selects; `None` selects everything. */
  function Selected(applications: map<Id, LeaveApplication>, filter: Option<string>): (s: map<Id, LeaveApplication>)
    ensures forall id :: id in s <==> id in applications && (filter.None? || applications[id].employeeId == filter.value)
    ensures forall id :: id in s ==> s[id] == applications[id]
  {
    map id | id in applications && (filter.None? || applications[id].employeeId == filter.value) :: applications[id]
  }

  /** getAllLeaveApplications: every record, most recent first. */
  function GetAllLeaveApplications(applications: map<Id, LeaveApplication>): (r: seq<Entry>)
    ensures |r| == |applications|
    ensures EntriesOf(r, applications)
    ensures forall id :: id in applications ==> (id, applications[id]) in r
    ensures SortedByAppliedDateDesc(r)
  {
    Ordered(applications)
  }

  /** getEmployeeLeaves: exactly the records of that employee, most recent first. */
  function GetEmployeeLeaves(applications: map<Id, LeaveApplication>, employeeId: string): (r: seq<Entry>)
    ensures forall i :: 0 <= i < |r| ==> r[i].0 in applications && applications[r[i].0] == r[i].1
                                         && r[i].1.employeeId == CastQuery(employeeId)
    ensures forall i, j :: 0 <= i < j < |r| ==> r[i].0 != r[j].0
    ensures forall id :: id in applications && applications[id].employeeId == CastQuery(employeeId)
                         ==> (id, applications[id]) in r
    ensures SortedByAppliedDateDesc(r)
  {
    Ordered(Selected(applications, Some(CastQuery(employeeId))))
  }

  // Statistics

  datatype Statistics = Statistics(
    total: nat,
    approved: nat,
    rejected: nat,
    pending: nat,
    thisMonthLeaves: nat,
    leaveTypeDistribution: map<LeaveType, nat>)

  const AllLeaveTypes: set<LeaveType> := {Annual, Sick, Maternity, Paternity, Unpaid, Other}

  function WithStatus(m: map<Id, LeaveApplication>, status: Status): set<Id> {
    set id | id in m && m[id].status == status
  }

  function OfType(m: map<Id, LeaveApplication>, t: LeaveType): set<Id> {
    set id | id in m && m[id].leaveType == t
  }

  function AppliedWithin(m: map<Id, LeaveApplication>, from: Day, until: Day): set<Id> {
    set id | id in m && from <= m[id].appliedDate < until
  }

  /** The `$group` by leaveType: one count per type that occurs, none for absent types. */
  function Distribution(m: map<Id, LeaveApplication>): (d: map<LeaveType, nat>)
    ensures forall t :: t in d ==> d[t] == |OfType(m, t)| && d[t] > 0
    ensures forall t :: t !in d ==> |OfType(m, t)| == 0
  {
    map t | t in AllLeaveTypes && |OfType(m, t)| > 0 :: |OfType(m, t)|
  }

  function CountOf(d: map<LeaveType, nat>, t: LeaveType): nat {
    if t in d then d[t] else 0
  }

  /** The sum of the counts of a distribution. */
  function DistributionTotal(d: map<LeaveType, nat>): nat {
    CountOf(d, Annual) + CountOf(d, Sick) + CountOf(d, Maternity) + CountOf(d, Paternity)
    + CountOf(d, Unpaid) + CountOf(d, Other)
  }

  lemma DisjointUnionSize<T>(a: set<T>, b: set<T>)
    requires a !! b
    ensures |a + b| == |a| + |b|
  {
  }

  lemma SubsetSize<T>(a: set<T>, b: set<T>)
    requires a <= b
    ensures |a| <= |b|
  {
    assert b == a + (b - a);
    DisjointUnionSize(a, b - a);
  }

  /** Every record has exactly one of the three statuses. */
  lemma {:induction false} StatusesPartition(m: map<Id, LeaveApplication>)
    ensures |WithStatus(m, Approved)| + |WithStatus(m, Rejected)| + |WithStatus(m, Pending)| == |m|
  {
    var a, r, p := WithStatus(m, Approved), WithStatus(m, Rejected), WithStatus(m, Pending);
    assert m.Keys == a + r + p;
    DisjointUnionSize(a, r);
    DisjointUnionSize(a + r, p);
  }

  /** Removing one record takes it out of the set of its own type only. */
  lemma OfTypeRemove(m: map<Id, LeaveApplication>, x: Id, t: LeaveType)
    requires x in m
    ensures |OfType(m, t)| == |OfType(m - {x}, t)| + (if m[x].leaveType == t then 1 else 0)
  {
    if m[x].leaveType == t {
      assert OfType(m, t) == OfType(m - {x}, t) + {x};
    } else {
      assert OfType(m, t) == OfType(m - {x}, t);
    }
  }

  /** Every record has exactly one of the six leave types. */
  lemma {:induction false} TypeSetsPartition(m: map<Id, LeaveApplication>)
    ensures |OfType(m, Annual)| + |OfType(m, Sick)| + |OfType(m, Maternity)| + |OfType(m, Paternity)|
            + |OfType(m, Unpaid)| + |OfType(m, Other)| == |m|
    decreases |m|
  {
    if m == map[] {
      forall t ensures OfType(m, t) == {} {
      }
    } else {
      var x :| x in m;
      var rest := m - {x};
      assert |rest| == |m| - 1;
      TypeSetsPartition(rest);
      OfTypeRemove(m, x, Annual);
      OfTypeRemove(m, x, Sick);
      OfTypeRemove(m, x, Maternity);
      OfTypeRemove(m, x, Paternity);
      OfTypeRemove(m, x, Unpaid);
      OfTypeRemove(m, x, Other);
    }
  }

  /** The distribution's counts add up to the number of records. */
  lemma {:induction false} TypesPartition(m: map<Id, LeaveApplication>)
    ensures DistributionTotal(Distribution(m)) == |m|
  {
    var d := Distribution(m);
    assert forall t :: CountOf(d, t) == |OfType(m, t)|;
    TypeSetsPartition(m);
  }

  /** The statistics, with the filter used by the counts and the filter used by the
      aggregation given separately. The status counts partition the total, the month's
      count is part of it, and when both filters agree the distribution partitions it too. */
  function Tally(applications: map<Id, LeaveApplication>, countFilter: Option<string>,
                 matchFilter: Option<string>, year: int, month: int): (s: Statistics)
    requires 0 <= month < 12
    ensures s.approved + s.rejected + s.pending == s.total
    ensures s.thisMonthLeaves <= s.total
    ensures s.total == |Selected(applications, countFilter)|
    ensures s.approved == |WithStatus(Selected(applications, countFilter), Approved)|
    ensures s.rejected == |WithStatus(Selected(applications, countFilter), Rejected)|
    ensures s.pending == |WithStatus(Selected(applications, countFilter), Pending)|
    ensures s.thisMonthLeaves
            == |AppliedWithin(Selected(applications, countFilter), MonthStart(year, month), MonthStart(year, month + 1))|
    ensures s.leaveTypeDistribution == Distribution(Selected(applications, matchFilter))
    ensures countFilter == matchFilter ==> DistributionTotal(s.leaveTypeDistribution) == s.total
  {
    var selected := Selected(applications, countFilter);
    var thisMonth := AppliedWithin(selected, MonthStart(year, month), MonthStart(year, month + 1));
    StatusesPartition(selected);
    SubsetSize(thisMonth, selected.Keys);
    TypesPartition(selected);
    Statistics(
      total := |selected|,
      approved := |WithStatus(selected, Approved)|,
      rejected := |WithStatus(selected, Rejected)|,
      pending := |WithStatus(selected, Pending)|,
      thisMonthLeaves := |thisMonth|,
      leaveTypeDistribution := Distribution(Selected(applications, matchFilter)))
  }

  /** getLeaveStatistics as written, for the clock's current `year` and `month` (0..11):
      the counts use the cast `employeeId` filter, the `$match` of the aggregation the raw
      one. An empty query value means no filter. */
  function GetLeaveStatistics(applications: map<Id, LeaveApplication>, employeeId: Option<string>,
                              year: int, month: int): (s: Statistics)
    requires 0 <= month < 12
    ensures s.approved + s.rejected + s.pending == s.total
    ensures s.thisMonthLeaves <= s.total
    ensures employeeId.None? || employeeId.value == "" ==> s.total == |applications|
    ensures var counted := if Present(employeeId) then Selected(applications, Some(CastQuery(employeeId.value)))
                           else applications;
            && s.total == |counted|
            && s.approved == |WithStatus(counted, Approved)|
            && s.rejected == |WithStatus(counted, Rejected)|
            && s.pending == |WithStatus(counted, Pending)|
            && s.thisMonthLeaves == |AppliedWithin(counted, MonthStart(year, month), MonthStart(year, month + 1))|
    ensures s.leaveTypeDistribution
            == Distribution(if Present(employeeId) then Selected(applications, employeeId) else applications)
    ensures Present(employeeId) && Trimmed(employeeId.value)
            ==> DistributionTotal(s.leaveTypeDistribution) == s.total
  {
    if Present(employeeId) then
      CastKeepsTrimmed(employeeId.value);
      Tally(applications, Some(CastQuery(employeeId.value)), Some(employeeId.value), year, month)
    else
      assert Selected(applications, None) == applications;
      Tally(applications, None, None, year, month)
  }

  /** getLeaveStatistics with the aggregation filtered like the counts, so the distribution
      always adds up to the total. */
  function GetLeaveStatisticsCast(applications: map<Id, LeaveApplication>, employeeId: Option<string>,
                                  year: int, month: int): (s: Statistics)
    requires 0 <= month < 12
    ensures s.approved + s.rejected + s.pending == s.total
    ensures s.thisMonthLeaves <= s.total
    ensures var counted := if Present(employeeId) then Selected(applications, Some(CastQuery(employeeId.value)))
                           else applications;
            && s.total == |counted|
            && s.approved == |WithStatus(counted, Approved)|
            && s.rejected == |WithStatus(counted, Rejected)|
            && s.pending == |WithStatus(counted, Pending)|
            && s.thisMonthLeaves == |AppliedWithin(counted, MonthStart(year, month), MonthStart(year, month + 1))|
            && s.leaveTypeDistribution == Distribution(counted)
    ensures DistributionTotal(s.leaveTypeDistribution) == s.total
  {
    assert Selected(applications, None) == applications;
    var filter := if Present(employeeId) then Some(CastQuery(employeeId.value)) else None;
    Tally(applications, filter, filter, year, month)
  }

  /** The records counted as "this month" are exactly those applied for on one of the
      `DaysInMonth(year, month)` days from the first of the current month on. */
  lemma ThisMonthIsTheCalendarMonth(applications: map<Id, LeaveApplication>, year: int, month: int)
    requires 0 <= month < 12
    ensures AppliedWithin(applications, MonthStart(year, month), MonthStart(year, month + 1))
            == set id | id in applications && MonthStart(year, month) <= applications[id].appliedDate
                                              < MonthStart(year, month) + DaysInMonth(year, month)
  {
    MonthWindow(year, month);
  }

  /** Statistics filtered by an employee are the statistics of that employee's records alone:
      no record of anybody else is counted anywhere. */
  lemma FilterIsUniform(applications: map<Id, LeaveApplication>, employeeId: string, year: int, month: int)
    requires 0 <= month < 12
    requires employeeId != "" && Trimmed(employeeId)
    ensures GetLeaveStatistics(applications, Some(employeeId), year, month)
            == GetLeaveStatistics(Selected(applications, Some(employeeId)), None, year, month)
  {
    CastKeepsTrimmed(employeeId);
    var only := Selected(applications, Some(employeeId));
    assert Selected(only, None) == only;
    assert Selected(applications, Some(employeeId)) == only;
  }
  /** A filter over one record keeps it exactly when its `employeeId` is the filter value. */
  lemma SelectedSingleton(id: Id, a: LeaveApplication, e: string)
    ensures Selected(map[id := a], Some(e)) == if a.employeeId == e then map[id := a] else map[]
  {
    var m := map[id := a];
    if a.employeeId == e {
      assert Selected(m, Some(e)).Keys == m.Keys;
    } else {
      assert Selected(m, Some(e)).Keys == {};
    }
  }

  /** The distribution of no records is empty. */
  lemma DistributionOfNone()
    ensures Distribution(map[]) == map[]
  {
    var e: map<Id, LeaveApplication> := map[];
    assert forall t :: OfType(e, t) == {};
  }

  /** The distribution of one record counts its type once. */
  lemma DistributionSingleton(id: Id, a: LeaveApplication)
    ensures Distribution(map[id := a]) == map[a.leaveType := 1]
  {
    var m := map[id := a];
    assert OfType(m, a.leaveType) == {id};
    forall t | t != a.leaveType ensures OfType(m, t) == {} {
      assert id !in OfType(m, t);
    }
  }

  /** The cast drops a leading space, so a padded query value finds the unpadded id. */
  lemma PaddedQueryCasts(e: string)
    requires Trimmed(e)
    ensures CastQuery([' '] + e) == e
  {
    TrimSkipsLeadingSpace(' ', e);
    TrimFixesTrimmed(e);
  }

  /** As written, a query value with a leading space counts the employee's records but
      leaves them out of the distribution: for a single stored record and its own
      `employeeId` with one space in front, the total is 1 and the distribution is empty. */
  lemma PaddedQuerySplitsStatistics(id: Id, a: LeaveApplication, year: int, month: int)
    requires 0 <= month < 12
    requires SchemaValid(a)
    ensures var s := GetLeaveStatistics(map[id := a], Some([' '] + a.employeeId), year, month);
            s.total == 1 && DistributionTotal(s.leaveTypeDistribution) == 0
  {
    PaddedQueryCasts(a.employeeId);
    SelectedSingleton(id, a, a.employeeId);
    SelectedSingleton(id, a, [' '] + a.employeeId);
    DistributionOfNone();
  }

  /** With the aggregation cast like the counts, the same query counts the record once in
      the distribution as well. */
  lemma PaddedQueryCastStatistics(id: Id, a: LeaveApplication, year: int, month: int)
    requires 0 <= month < 12
    requires SchemaValid(a)
    ensures var s := GetLeaveStatisticsCast(map[id := a], Some([' '] + a.employeeId), year, month);
            s.total == 1 && s.leaveTypeDistribution == map[a.leaveType := 1]
  {
    PaddedQueryCasts(a.employeeId);
    SelectedSingleton(id, a, a.employeeId);
    DistributionSingleton(id, a);
  }
}
