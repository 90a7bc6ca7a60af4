/** The record store and its queries. The store keeps the contents of the
    employee, shift, assignment and configuration files; each query is the
    linear scan the store runs over a collection it has just loaded, so the
    loaded collection is the query's parameter. */
module Persistence {
  import opened Common
  import opened Records

  /** The four files of the store. Reading a file yields the field;
      saving a collection replaces it whole. */
  class Store {
    var employees: seq<Employee>
    var shifts: seq<Shift>
    var assignments: seq<Assignment>
    var config: Config

    constructor (employees: seq<Employee>, shifts: seq<Shift>, assignments: seq<Assignment>, config: Config)
      ensures this.employees == employees && this.shifts == shifts
      ensures this.assignments == assignments && this.config == config
    {
      this.employees := employees;
      this.shifts := shifts;
      this.assignments := assignments;
      this.config := config;
    }

    /** `saveEmployees`: the employee file now holds exactly `employees`. */
    method SaveEmployees(employees: seq<Employee>)
      modifies this`employees
      ensures this.employees == employees
    {
      this.employees := employees;
    }

    /** `saveAssignments`: the assignment file now holds exactly `assignments`. */
    method SaveAssignments(assignments: seq<Assignment>)
      modifies this`assignments
      ensures this.assignments == assignments
    {
      this.assignments := assignments;
    }
  }

  // ---------------------------------------------------------------------
  // Point lookups
  // ---------------------------------------------------------------------

  /** The position of the first employee with the given id, or the length
      of the list when there is none. */
  function FirstEmployeeIndex(employees: seq<Employee>, employeeId: string): (k: nat)
    ensures k <= |employees|
    ensures k < |employees| ==> employees[k].employeeId == employeeId
    ensures forall j | 0 <= j < k :: employees[j].employeeId != employeeId
  {
    if |employees| == 0 then 0
    else if employees[0].employeeId == employeeId then 0
    else 1 + FirstEmployeeIndex(employees[1..], employeeId)
  }

  /** The first employee with the given id, `None` for `null`. */
  function FirstEmployee(employees: seq<Employee>, employeeId: string): (r: Option<Employee>)
    ensures r.None? <==> forall i | 0 <= i < |employees| :: employees[i].employeeId != employeeId
    ensures r.Some? ==> r.value in employees && r.value.employeeId == employeeId
  {
    var k := FirstEmployeeIndex(employees, employeeId);
    if k < |employees| then Some(employees[k]) else None
  }

  /** `findEmployee`: scans the employees in order and returns the first one
      whose id equals `employeeId`, or `None`. */
  method FindEmployee(employees: seq<Employee>, employeeId: string) returns (r: Option<Employee>)
    ensures r == FirstEmployee(employees, employeeId)
  {
    for i := 0 to |employees|
      invariant forall j | 0 <= j < i :: employees[j].employeeId != employeeId
    {
      if employees[i].employeeId == employeeId {
        return Some(employees[i]);
      }
    }
    return None;
  }

  /** The position of the first shift with the given id, or the length of
      the list when there is none. */
  function FirstShiftIndex(shifts: seq<Shift>, shiftId: string): (k: nat)
    ensures k <= |shifts|
    ensures k < |shifts| ==> shifts[k].shiftId == shiftId
    ensures forall j | 0 <= j < k :: shifts[j].shiftId != shiftId
  {
    if |shifts| == 0 then 0
    else if shifts[0].shiftId == shiftId then 0
    else 1 + FirstShiftIndex(shifts[1..], shiftId)
  }

  /** The first shift with the given id, `None` for `null`. */
  function FirstShift(shifts: seq<Shift>, shiftId: string): (r: Option<Shift>)
    ensures r.None? <==> forall i | 0 <= i < |shifts| :: shifts[i].shiftId != shiftId
    ensures r.Some? ==> r.value in shifts && r.value.shiftId == shiftId
  {
    var k := FirstShiftIndex(shifts, shiftId);
    if k < |shifts| then Some(shifts[k]) else None
  }

  /** `findShift`: scans the shifts in order and returns the first one whose
      id equals `shiftId`, or `None`. */
  method FindShift(shifts: seq<Shift>, shiftId: string) returns (r: Option<Shift>)
    ensures r == FirstShift(shifts, shiftId)
  {
    for i := 0 to |shifts|
      invariant forall j | 0 <= j < i :: shifts[j].shiftId != shiftId
    {
      if shifts[i].shiftId == shiftId {
        return Some(shifts[i]);
      }
    }
    return None;
  }

  // ---------------------------------------------------------------------
  // Filters
  // ---------------------------------------------------------------------

  /** The assignments of one employee, in the order they are stored. */
  function AssignmentsOf(assignments: seq<Assignment>, employeeId: string): (r: seq<Assignment>)
    ensures |r| <= |assignments|
    ensures forall a :: a in r <==> a in assignments && a.employeeId == employeeId
  {
    if |assignments| == 0 then []
    else
      var last := assignments[|assignments| - 1];
      var front := assignments[..|assignments| - 1];
      assert assignments == front + [last];
      AssignmentsOf(front, employeeId) + (if last.employeeId == employeeId then [last] else [])
  }

  /** The filter keeps the stored order: filtering a concatenation is
      concatenating the filtered parts. */
  lemma {:induction false} AssignmentsOfAppend(xs: seq<Assignment>, ys: seq<Assignment>, employeeId: string)
    ensures AssignmentsOf(xs + ys, employeeId) == AssignmentsOf(xs, employeeId) + AssignmentsOf(ys, employeeId)
  {
    if |ys| > 0 {
      var front := ys[..|ys| - 1];
      assert (xs + ys)[..|xs + ys| - 1] == xs + front;
      AssignmentsOfAppend(xs, front, employeeId);
    } else {
      assert xs + ys == xs;
    }
  }

  /** One more assignment in the scan is kept exactly when its employee
      matches. */
  lemma AssignmentsOfStep(assignments: seq<Assignment>, i: nat, employeeId: string)
    requires i < |assignments|
    ensures AssignmentsOf(assignments[..i + 1], employeeId) ==
            AssignmentsOf(assignments[..i], employeeId) +
            (if assignments[i].employeeId == employeeId then [assignments[i]] else [])
  {
    assert assignments[..i + 1][..i] == assignments[..i];
  }

  /** `getAssignmentsByEmployee`: pushes, in order, every assignment whose
      employee id equals `employeeId`. */
  method GetAssignmentsByEmployee(assignments: seq<Assignment>, employeeId: string) returns (results: seq<Assignment>)
    ensures results == AssignmentsOf(assignments, employeeId)
  {
    results := [];
    for i := 0 to |assignments|
      invariant results == AssignmentsOf(assignments[..i], employeeId)
    {
      assert assignments[..i + 1][..i] == assignments[..i];
      if assignments[i].employeeId == employeeId {
        results := results + [assignments[i]];
      }
    }
    assert assignments[..|assignments|] == assignments;
  }

  /** The shifts with the given id on the given date, in catalog order. */
  function ShiftsWithIdOn(shifts: seq<Shift>, shiftId: string, date: string): (r: seq<Shift>)
    ensures forall s :: s in r <==> s in shifts && s.shiftId == shiftId && s.date == date
  {
    if |shifts| == 0 then []
    else
      var last := shifts[|shifts| - 1];
      var front := shifts[..|shifts| - 1];
      assert shifts == front + [last];
      ShiftsWithIdOn(front, shiftId, date) +
        (if last.shiftId == shiftId && last.date == date then [last] else [])
  }

  /** For each assignment of the employee, in order, the shifts it names that
      fall on the date. */
  function ShiftsOnDate(assignments: seq<Assignment>, shifts: seq<Shift>, employeeId: string, date: string): (r: seq<Shift>)
  {
    if |assignments| == 0 then []
    else
      var last := assignments[|assignments| - 1];
      ShiftsOnDate(assignments[..|assignments| - 1], shifts, employeeId, date) +
        (if last.employeeId == employeeId then ShiftsWithIdOn(shifts, last.shiftId, date) else [])
  }

  /** A shift is in the employee's list for a date exactly when it is in the
      catalog, falls on that date, and the employee is assigned to its id. */
  lemma {:induction false} ShiftsOnDateMembers(assignments: seq<Assignment>, shifts: seq<Shift>,
                                               employeeId: string, date: string, s: Shift)
    ensures s in ShiftsOnDate(assignments, shifts, employeeId, date) <==>
            s in shifts && s.date == date && Assignment(employeeId, s.shiftId) in assignments
  {
    if |assignments| > 0 {
      var front := assignments[..|assignments| - 1];
      ShiftsOnDateMembers(front, shifts, employeeId, date, s);
      assert assignments == front + [assignments[|assignments| - 1]];
    }
  }

  /** Adding an assignment at the end adds its shifts on the date at the end. */
  lemma ShiftsOnDateAppend(assignments: seq<Assignment>, a: Assignment, shifts: seq<Shift>,
                           employeeId: string, date: string)
    ensures ShiftsOnDate(assignments + [a], shifts, employeeId, date) ==
            ShiftsOnDate(assignments, shifts, employeeId, date) +
            (if a.employeeId == employeeId then ShiftsWithIdOn(shifts, a.shiftId, date) else [])
  {
    assert (assignments + [a])[..|assignments|] == assignments;
  }

  /** The inner scan of `getAssignmentsByEmployeeAndDate`: pushes, in
      catalog order, every shift with the id on the date. */
  method ScanShiftsWithIdOn(shifts: seq<Shift>, shiftId: string, date: string) returns (found: seq<Shift>)
    ensures found == ShiftsWithIdOn(shifts, shiftId, date)
  {
    found := [];
    for j := 0 to |shifts|
      invariant found == ShiftsWithIdOn(shifts[..j], shiftId, date)
    {
      assert shifts[..j + 1][..j] == shifts[..j];
      if shifts[j].shiftId == shiftId && shifts[j].date == date {
        found := found + [shifts[j]];
      }
    }
    assert shifts[..|shifts|] == shifts;
  }

  /** `getAssignmentsByEmployeeAndDate`: for each assignment of the employee,
      in order, pushes every shift with that id on the date. */
  method GetAssignmentsByEmployeeAndDate(assignments: seq<Assignment>, shifts: seq<Shift>,
                                         employeeId: string, date: string) returns (results: seq<Shift>)
    ensures results == ShiftsOnDate(assignments, shifts, employeeId, date)
  {
    results := [];
    for i := 0 to |assignments|
      invariant results == ShiftsOnDate(assignments[..i], shifts, employeeId, date)
    {
      assert assignments[..i + 1] == assignments[..i] + [assignments[i]];
      ShiftsOnDateAppend(assignments[..i], assignments[i], shifts, employeeId, date);
      if assignments[i].employeeId == employeeId {
        var onDate := ScanShiftsWithIdOn(shifts, assignments[i].shiftId, date);
        results := results + onDate;
      }
    }
    assert assignments[..|assignments|] == assignments;
  }

  /** `assignmentExists`: true exactly when some assignment has both ids. */
  method AssignmentExists(assignments: seq<Assignment>, employeeId: string, shiftId: string) returns (b: bool)
    ensures b <==> exists i | 0 <= i < |assignments| ::
                     assignments[i].employeeId == employeeId && assignments[i].shiftId == shiftId
    ensures b <==> Assignment(employeeId, shiftId) in assignments
  {
    for i := 0 to |assignments|
      invariant forall j | 0 <= j < i :: assignments[j] != Assignment(employeeId, shiftId)
    {
      if assignments[i].employeeId == employeeId && assignments[i].shiftId == shiftId {
        return true;
      }
    }
    return false;
  }

  // ---------------------------------------------------------------------
  // Store invariants
  // ---------------------------------------------------------------------

  /** No two assignments pair the same employee with the same shift. */
  ghost predicate NoDuplicatePairs(assignments: seq<Assignment>) {
    forall i, j | 0 <= i < j < |assignments| :: assignments[i] != assignments[j]
  }

  /** Every assignment names an existing employee and an existing shift. */
  ghost predicate ReferencesExist(employees: seq<Employee>, shifts: seq<Shift>, assignments: seq<Assignment>) {
    forall a | a in assignments ::
      FirstEmployee(employees, a.employeeId).Some? && FirstShift(shifts, a.shiftId).Some?
  }

  /** The catalog keeps shift ids unique. */
  ghost predicate UniqueShiftIds(shifts: seq<Shift>) {
    forall i, j | 0 <= i < j < |shifts| :: shifts[i].shiftId != shifts[j].shiftId
  }

  /** No shift with the id gives no shift with the id on any date. */
  lemma {:induction false} ShiftsWithIdOnAbsent(shifts: seq<Shift>, shiftId: string, date: string)
    requires forall i | 0 <= i < |shifts| :: shifts[i].shiftId != shiftId
    ensures ShiftsWithIdOn(shifts, shiftId, date) == []
  {
    if |shifts| > 0 {
      ShiftsWithIdOnAbsent(shifts[..|shifts| - 1], shiftId, date);
    }
  }

  /** With unique ids, the shifts with a catalog shift's id on a date are
      that shift alone when it falls on the date, and none otherwise. */
  lemma {:induction false} ShiftsWithIdOnUnique(shifts: seq<Shift>, shift: Shift, date: string)
    requires UniqueShiftIds(shifts) && shift in shifts
    ensures ShiftsWithIdOn(shifts, shift.shiftId, date) == if shift.date == date then [shift] else []
  {
    var n := |shifts|;
    var last := shifts[n - 1];
    var front := shifts[..n - 1];
    assert shifts == front + [last];
    if last.shiftId == shift.shiftId {
      var k :| 0 <= k < n && shifts[k] == shift;
      assert k == n - 1;
      ShiftsWithIdOnAbsent(front, shift.shiftId, date);
    } else {
      assert shift in front;
      ShiftsWithIdOnUnique(front, shift, date);
    }
  }
}
