/** The older monolithic command-line version of the same rules: its id
    generator, its assignment command (no trimming and no hour limit) and its
    schedule view. */
module Server {
  import opened Common
  import opened Text
  import opened Records
  import opened Persistence
  import opened Schedule
  import Business

  // ---------------------------------------------------------------------
  // Employee ids
  // ---------------------------------------------------------------------

  /** The number `parseInt(id.slice(1))` reads: every character after the
      first, whatever the first is, with no radix, so a `0x` suffix reads as
      hexadecimal. `None` stands for `NaN`. */
  function IdNumber(id: string): (r: Option<int>)
    ensures |id| <= 1 ==> r.None?
  {
    ParseInt(if |id| == 0 then [] else id[1..], Unspecified)
  }

  /** The largest id number among the employees, and 0 when none is larger;
      `NaN > max` is false, so unreadable ids are skipped. */
  function MaxIdNumber(employees: seq<Employee>): nat {
    MaxNumber(employees, (e: Employee) => IdNumber(e.employeeId))
  }

  /** `getNextEmployeeId`: `E` followed by one more than the largest id
      number, left-padded with `0` to at least three characters. */
  method GetNextEmployeeId(employees: seq<Employee>) returns (id: string)
    ensures id == NextId(MaxIdNumber(employees))
    ensures forall i | 0 <= i < |employees| :: employees[i].employeeId != id
  {
    var max := 0;
    for i := 0 to |employees|
      invariant max == MaxIdNumber(employees[..i])
    {
      MaxNumberStep(employees, (e: Employee) => IdNumber(e.employeeId), i);
      var num := IdNumber(employees[i].employeeId);
      if num.Some? && num.value > max {
        max := num.value;
      }
    }
    assert employees[..|employees|] == employees;
    assert max == MaxIdNumber(employees);
    var nextNum := NatToString(max + 1);
    nextNum := PadWithZeros(nextNum);
    id := "E" + nextNum;
    assert id == NextId(max);
    NextIdIsFresh(employees);
  }

  /** The next id reads back as the successor of the largest id number. */
  lemma NextIdNumber(n: nat)
    ensures IdNumber(NextId(n)) == Some(n + 1)
  {
    ParsePaddedNumber(n + 1, Unspecified);
    assert NextId(n)[1..] == ZeroPad3(NatToString(n + 1));
  }

  /** So the next id differs from every id in use. */
  lemma NextIdIsFresh(employees: seq<Employee>)
    ensures forall i | 0 <= i < |employees| :: employees[i].employeeId != NextId(MaxIdNumber(employees))
  {
    NextIdNumber(MaxIdNumber(employees));
    MaxNumberIsMaximum(employees, (e: Employee) => IdNumber(e.employeeId));
  }

  /** With no id whose suffix reads as a number above 0, in particular
      with no employee, the next id is `E001`. */
  lemma FirstIdWithoutNumbers(employees: seq<Employee>)
    requires forall i | 0 <= i < |employees| ::
               IdNumber(employees[i].employeeId).None? || IdNumber(employees[i].employeeId).value <= 0
    ensures NextId(MaxIdNumber(employees)) == "E001"
  {
    NoPositiveNumber(employees, (e: Employee) => IdNumber(e.employeeId));
    FirstId();
  }

  // ---------------------------------------------------------------------
  // Assignment command
  // ---------------------------------------------------------------------

  /** The message printed and the assignment collection afterwards. */
  datatype Outcome = Outcome(message: string, assignments: seq<Assignment>)

  /** What `assignEmployeeToShift` does with the ids as typed: an empty id is
      refused first; then an unknown employee, an unknown shift and an
      existing pair, in that order; only then is the pair appended. */
  function Assign(employees: seq<Employee>, shifts: seq<Shift>, assignments: seq<Assignment>,
                  employeeId: string, shiftId: string): (r: Outcome)
    ensures employeeId == "" || shiftId == "" ==>
              r == Outcome("Employee ID and Shift ID required", assignments)
    ensures r.message == "Shift Recorded" <==>
              employeeId != "" && shiftId != "" &&
              (exists i | 0 <= i < |employees| :: employees[i].employeeId == employeeId) &&
              (exists i | 0 <= i < |shifts| :: shifts[i].shiftId == shiftId) &&
              Assignment(employeeId, shiftId) !in assignments
    ensures r.assignments ==
              if r.message == "Shift Recorded" then assignments + [Assignment(employeeId, shiftId)]
              else assignments
    ensures employeeId != "" && shiftId != "" &&
            (forall i | 0 <= i < |employees| :: employees[i].employeeId != employeeId) ==>
              r.message == "Employee does not exist"
    ensures employeeId != "" && shiftId != "" &&
            (exists i | 0 <= i < |employees| :: employees[i].employeeId == employeeId) &&
            (forall i | 0 <= i < |shifts| :: shifts[i].shiftId != shiftId) ==>
              r.message == "Shift does not exist"
    ensures employeeId != "" && shiftId != "" &&
            (exists i | 0 <= i < |employees| :: employees[i].employeeId == employeeId) &&
            (exists i | 0 <= i < |shifts| :: shifts[i].shiftId == shiftId) &&
            Assignment(employeeId, shiftId) in assignments ==>
              r.message == "Assignment already exists"
  {
    if employeeId == "" || shiftId == "" then
      Outcome("Employee ID and Shift ID required", assignments)
    else if FirstEmployee(employees, employeeId).None? then
      Outcome("Employee does not exist", assignments)
    else if FirstShift(shifts, shiftId).None? then
      Outcome("Shift does not exist", assignments)
    else if Assignment(employeeId, shiftId) in assignments then
      Outcome("Assignment already exists", assignments)
    else
      Outcome("Shift Recorded", assignments + [Assignment(employeeId, shiftId)])
  }

  /** A command keeps two of the store's invariants: no duplicate pair, and
      every assignment naming an existing employee and shift. */
  lemma AssignPreservesInvariants(employees: seq<Employee>, shifts: seq<Shift>, assignments: seq<Assignment>,
                                  employeeId: string, shiftId: string)
    requires NoDuplicatePairs(assignments) && ReferencesExist(employees, shifts, assignments)
    ensures var after := Assign(employees, shifts, assignments, employeeId, shiftId).assignments;
            NoDuplicatePairs(after) && ReferencesExist(employees, shifts, after)
  {
    var after := Assign(employees, shifts, assignments, employeeId, shiftId).assignments;
    if after != assignments {
      forall i, j | 0 <= i < j < |after| ensures after[i] != after[j] {
        if j == |assignments| {
          assert after[i] in assignments;
        } else {
          assert after[i] == assignments[i] && after[j] == assignments[j];
        }
      }
    }
  }

  /** On ids that are non-empty and already trimmed, and a shift the hour
      limit allows, the older command decides exactly as the engine does. */
  lemma AgreesWithEngine(employees: seq<Employee>, shifts: seq<Shift>, assignments: seq<Assignment>,
                         config: Config, employeeId: string, shiftId: string)
    requires employeeId != "" && shiftId != "" && Trim(employeeId) == employeeId && Trim(shiftId) == shiftId
    requires Business.HourLimitVerdict(config, shifts, assignments, employeeId, shiftId).Allowed?
    ensures var engine := Business.Assign(employees, shifts, assignments, config, employeeId, shiftId);
            Assign(employees, shifts, assignments, employeeId, shiftId) ==
              Outcome(engine.result.message, engine.assignments)
  {
  }

  /** `assignEmployeeToShift`: refuses an empty id, sets the
      `employeeExists` and `shiftExists` flags by full scans, stops at an
      existing pair, and otherwise saves the collection with the pair
      appended. */
  method AssignEmployeeToShift(store: Store, employeeId: string, shiftId: string) returns (message: string)
    modifies store`assignments
    ensures var r := Assign(old(store.employees), old(store.shifts), old(store.assignments), employeeId, shiftId);
            message == r.message && store.assignments == r.assignments
    ensures old(NoDuplicatePairs(store.assignments) && ReferencesExist(store.employees, store.shifts, store.assignments)) ==>
              NoDuplicatePairs(store.assignments) && ReferencesExist(old(store.employees), old(store.shifts), store.assignments)
  {
    if employeeId == "" || shiftId == "" {
      return "Employee ID and Shift ID required";
    }
    var employees := store.employees;
    var shifts := store.shifts;
    var assignments := store.assignments;

    var employeeExists := false;
    for i := 0 to |employees|
      invariant employeeExists <==> exists j | 0 <= j < i :: employees[j].employeeId == employeeId
    {
      if employees[i].employeeId == employeeId {
        employeeExists := true;
      }
    }
    if !employeeExists {
      return "Employee does not exist";
    }

    var shiftExists := false;
    for i := 0 to |shifts|
      invariant shiftExists <==> exists j | 0 <= j < i :: shifts[j].shiftId == shiftId
    {
      if shifts[i].shiftId == shiftId {
        shiftExists := true;
      }
    }
    if !shiftExists {
      return "Shift does not exist";
    }

    for i := 0 to |assignments|
      invariant forall j | 0 <= j < i :: assignments[j] != Assignment(employeeId, shiftId)
    {
      if assignments[i].employeeId == employeeId && assignments[i].shiftId == shiftId {
        return "Assignment already exists";
      }
    }

    store.SaveAssignments(assignments + [Assignment(employeeId, shiftId)]);
    if NoDuplicatePairs(assignments) && ReferencesExist(employees, shifts, assignments) {
      AssignPreservesInvariants(employees, shifts, assignments, employeeId, shiftId);
    }
    return "Shift Recorded";
  }


  // ---------------------------------------------------------------------
  // Schedule view
  // ---------------------------------------------------------------------

  /** The join of `viewEmployeeSchedule`: for each assignment of the
      employee, in order, push every shift whose id it names. */
  method JoinEmployeeShifts(assignments: seq<Assignment>, shifts: seq<Shift>, employeeId: string)
    returns (results: seq<Shift>)
    ensures results == ShiftsOf(AssignmentsOf(assignments, employeeId), shifts)
  {
    results := [];
    for i := 0 to |assignments|
      invariant results == ShiftsOf(AssignmentsOf(assignments[..i], employeeId), shifts)
    {
      var a := assignments[i];
      ghost var before := AssignmentsOf(assignments[..i], employeeId);
      ghost var after := AssignmentsOf(assignments[..i + 1], employeeId);
      AssignmentsOfStep(assignments, i, employeeId);
      if a.employeeId == employeeId {
        var named := ScanShiftsWithId(shifts, a.shiftId);
        assert after == before + [a];
        ShiftsOfAppend(before, a, shifts);
        results := results + named;
      } else {
        assert after == before;
      }
    }
    assert assignments[..|assignments|] == assignments;
  }

  /** `viewEmployeeSchedule`: `None` when the id is empty (the
      "Employee ID required" message); otherwise the employee's shifts,
      bubble-sorted in place by `date + startTime`, a permutation of the
      join in order. */
  method ViewEmployeeSchedule(assignments: seq<Assignment>, shifts: seq<Shift>, employeeId: string)
    returns (r: Option<seq<Shift>>)
    ensures r.None? <==> employeeId == ""
    ensures r.Some? ==> SortedByStart(r.value)
    ensures r.Some? ==> multiset(r.value) == multiset(ShiftsOf(AssignmentsOf(assignments, employeeId), shifts))
  {
    if employeeId == "" {
      return None;
    }
    var joined := JoinEmployeeShifts(assignments, shifts, employeeId);
    var results := new Shift[|joined|](i requires 0 <= i < |joined| => joined[i]);
    assert results[..] == joined;
    BubbleSortByStart(results);
    return Some(results[..]);
  }
}
