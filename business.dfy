/** The assignment validation and scheduling engine: shift durations, the
    daily hour limit, the ordered checks that decide whether an employee may
    take a shift, the employee's sorted schedule, and the next employee id. */
module Business {
  import opened Common
  import opened Text
  import opened Records
  import opened Persistence
  import opened Schedule

  // ---------------------------------------------------------------------
  // Duration calculator
  // ---------------------------------------------------------------------

  /** `computeShiftDuration`: the minutes from start to end, in hours. Equal
      times give 0; an end before the start gives a negative value, not an
      error. */
  function ComputeShiftDuration(startTime: Clock, endTime: Clock): (hours: real)
    ensures hours * 60.0 == (Minutes(endTime) - Minutes(startTime)) as real
    ensures hours == 0.0 <==> startTime == endTime
    ensures hours < 0.0 <==> Minutes(endTime) < Minutes(startTime)
  {
    (Minutes(endTime) - Minutes(startTime)) as real / 60.0
  }

  /** The duration of a shift's own start and end. */
  function ShiftHours(s: Shift): real {
    ComputeShiftDuration(s.startTime, s.endTime)
  }

  // ---------------------------------------------------------------------
  // Hours already booked on a date
  // ---------------------------------------------------------------------

  /** The total duration of a list of shifts. */
  function SumHours(shifts: seq<Shift>): real {
    if |shifts| == 0 then 0.0
    else SumHours(shifts[..|shifts| - 1]) + ShiftHours(shifts[|shifts| - 1])
  }

  lemma {:induction false} SumHoursAppend(xs: seq<Shift>, ys: seq<Shift>)
    ensures SumHours(xs + ys) == SumHours(xs) + SumHours(ys)
  {
    if |ys| == 0 {
      assert xs + ys == xs;
    } else {
      assert (xs + ys)[..|xs + ys| - 1] == xs + ys[..|ys| - 1];
      SumHoursAppend(xs, ys[..|ys| - 1]);
    }
  }

  /** The hours an employee already has on a date: the durations of the
      shifts the employee's assignments name on that date, added up. */
  function HoursOnDate(assignments: seq<Assignment>, shifts: seq<Shift>, employeeId: string, date: string): real {
    SumHours(ShiftsOnDate(assignments, shifts, employeeId, date))
  }

  /** `getEmployeeHoursForDate`: loads the employee's shifts on the date and
      adds up their durations. */
  method GetEmployeeHoursForDate(assignments: seq<Assignment>, shifts: seq<Shift>,
                                 employeeId: string, date: string) returns (totalHours: real)
    ensures totalHours == HoursOnDate(assignments, shifts, employeeId, date)
  {
    var onDate := GetAssignmentsByEmployeeAndDate(assignments, shifts, employeeId, date);
    totalHours := 0.0;
    for i := 0 to |onDate|
      invariant totalHours == SumHours(onDate[..i])
    {
      assert onDate[..i + 1][..i] == onDate[..i];
      totalHours := totalHours + ComputeShiftDuration(onDate[i].startTime, onDate[i].endTime);
    }
    assert onDate[..|onDate|] == onDate;
  }

  /** With unique shift ids, appending an assignment adds that shift's
      duration to its employee's total on its date and to no other total. */
  lemma HoursOnDateAppend(assignments: seq<Assignment>, a: Assignment, shifts: seq<Shift>,
                          shift: Shift, employeeId: string, date: string)
    requires UniqueShiftIds(shifts) && shift in shifts && shift.shiftId == a.shiftId
    ensures HoursOnDate(assignments + [a], shifts, employeeId, date) ==
            HoursOnDate(assignments, shifts, employeeId, date) +
            (if a.employeeId == employeeId && shift.date == date then ShiftHours(shift) else 0.0)
  {
    ShiftsOnDateAppend(assignments, a, shifts, employeeId, date);
    ShiftsWithIdOnUnique(shifts, shift, date);
    SumHoursAppend(ShiftsOnDate(assignments, shifts, employeeId, date),
                   if a.employeeId == employeeId then ShiftsWithIdOn(shifts, a.shiftId, date) else []);
    var one: seq<Shift> := [shift];
    assert one[..0] == [];
  }

  // ---------------------------------------------------------------------
  // Hour-limit policy
  // ---------------------------------------------------------------------

  /** The daily limit in force: the configured value when it is a number
      above zero, and 9 otherwise. */
  function EffectiveLimit(config: Config): (limit: int)
    ensures limit > 0
    ensures config.maxDailyHours.Some? && config.maxDailyHours.value > 0 ==>
              limit == config.maxDailyHours.value
    ensures config.maxDailyHours.None? || config.maxDailyHours.value <= 0 ==> limit == 9
  {
    match config.maxDailyHours
    case Some(v) => if v <= 0 then 9 else v
    case None => 9
  }

  /** The verdict of `checkHourLimit`. */
  datatype HourCheck = Allowed | Denied(reason: string)

  /** The reason given when a shift would take the employee over the limit. */
  function LimitMessage(limit: nat): string {
    "Assignment would exceed daily limit of " + NatToString(limit) + " hours"
  }

  /** What `checkHourLimit` decides: an unknown shift is refused with
      "Shift does not exist"; otherwise the shift is allowed exactly when the
      hours already booked on its date plus its own duration do not exceed
      the limit, so reaching the limit exactly is allowed. */
  function HourLimitVerdict(config: Config, shifts: seq<Shift>, assignments: seq<Assignment>,
                            employeeId: string, shiftId: string): (r: HourCheck)
    ensures FirstShift(shifts, shiftId).None? ==> r == Denied("Shift does not exist")
    ensures FirstShift(shifts, shiftId).Some? ==>
              var shift := FirstShift(shifts, shiftId).value;
              var total := HoursOnDate(assignments, shifts, employeeId, shift.date) + ShiftHours(shift);
              (r == Allowed <==> total <= EffectiveLimit(config) as real) &&
              (r != Allowed ==> r == Denied(LimitMessage(EffectiveLimit(config))))
  {
    var limit := EffectiveLimit(config);
    match FirstShift(shifts, shiftId)
    case None => Denied("Shift does not exist")
    case Some(shift) =>
      if HoursOnDate(assignments, shifts, employeeId, shift.date) + ShiftHours(shift) > limit as real
      then Denied(LimitMessage(limit))
      else Allowed
  }

  /** `checkHourLimit`: reads the limit, looks the shift up, and compares
      the employee's hours on the shift's date plus the shift's duration
      with the limit. */
  method CheckHourLimit(config: Config, shifts: seq<Shift>, assignments: seq<Assignment>,
                        employeeId: string, shiftId: string) returns (r: HourCheck)
    ensures r == HourLimitVerdict(config, shifts, assignments, employeeId, shiftId)
  {
    var maxDailyHours := EffectiveLimit(config);
    var shift := FindShift(shifts, shiftId);
    if shift.None? {
      return Denied("Shift does not exist");
    }
    var shiftHours := ComputeShiftDuration(shift.value.startTime, shift.value.endTime);
    var currentHours := GetEmployeeHoursForDate(assignments, shifts, employeeId, shift.value.date);
    if currentHours + shiftHours > maxDailyHours as real {
      return Denied(LimitMessage(maxDailyHours));
    }
    return Allowed;
  }

  // ---------------------------------------------------------------------
  // Assignment engine
  // ---------------------------------------------------------------------

  datatype AssignResult = AssignResult(success: bool, message: string)

  /** A decision together with the assignment collection after it. */
  datatype AssignStep = AssignStep(result: AssignResult, assignments: seq<Assignment>)

  /** What `assignEmployeeToShift` decides, on trimmed ids, checking in this
      order and stopping at the first failure: the employee exists, the
      shift exists, the pair is not yet assigned, the hour limit allows it.
      Only when all pass is the one pair appended; a failure leaves the
      collection as it was. */
  function Assign(employees: seq<Employee>, shifts: seq<Shift>, assignments: seq<Assignment>,
                  config: Config, employeeId: string, shiftId: string): (r: AssignStep)
    ensures r.result.success <==>
              FirstEmployee(employees, Trim(employeeId)).Some? &&
              FirstShift(shifts, Trim(shiftId)).Some? &&
              Assignment(Trim(employeeId), Trim(shiftId)) !in assignments &&
              HourLimitVerdict(config, shifts, assignments, Trim(employeeId), Trim(shiftId)).Allowed?
    ensures r.assignments ==
              if r.result.success then assignments + [Assignment(Trim(employeeId), Trim(shiftId))]
              else assignments
    ensures r.result.success ==> r.result.message == "Shift Recorded"
    ensures FirstEmployee(employees, Trim(employeeId)).None? ==>
              r.result.message == "Employee does not exist"
    ensures FirstEmployee(employees, Trim(employeeId)).Some? &&
            FirstShift(shifts, Trim(shiftId)).None? ==>
              r.result.message == "Shift does not exist"
    ensures FirstEmployee(employees, Trim(employeeId)).Some? &&
            FirstShift(shifts, Trim(shiftId)).Some? &&
            Assignment(Trim(employeeId), Trim(shiftId)) in assignments ==>
              r.result.message == "Assignment already exists"
    ensures FirstEmployee(employees, Trim(employeeId)).Some? &&
            FirstShift(shifts, Trim(shiftId)).Some? &&
            Assignment(Trim(employeeId), Trim(shiftId)) !in assignments &&
            !HourLimitVerdict(config, shifts, assignments, Trim(employeeId), Trim(shiftId)).Allowed? ==>
              r.result.message == "Cannot assign: " + LimitMessage(EffectiveLimit(config))
  {
    var empId := Trim(employeeId);
    var shId := Trim(shiftId);
    if FirstEmployee(employees, empId).None? then
      AssignStep(AssignResult(false, "Employee does not exist"), assignments)
    else if FirstShift(shifts, shId).None? then
      AssignStep(AssignResult(false, "Shift does not exist"), assignments)
    else if Assignment(empId, shId) in assignments then
      AssignStep(AssignResult(false, "Assignment already exists"), assignments)
    else
      match HourLimitVerdict(config, shifts, assignments, empId, shId)
      case Denied(reason) => AssignStep(AssignResult(false, "Cannot assign: " + reason), assignments)
      case Allowed => AssignStep(AssignResult(true, "Shift Recorded"), assignments + [Assignment(empId, shId)])
  }

  /** For every employee and date, the hours booked stay within the limit. */
  ghost predicate WithinDailyLimit(assignments: seq<Assignment>, shifts: seq<Shift>, limit: int) {
    forall employeeId: string, date: string ::
      HoursOnDate(assignments, shifts, employeeId, date) <= limit as real
  }

  /** The three invariants of the store: no duplicate pair, no day over the
      effective limit, no assignment naming a missing employee or shift. */
  ghost predicate StoreInvariant(employees: seq<Employee>, shifts: seq<Shift>,
                                 assignments: seq<Assignment>, config: Config) {
    NoDuplicatePairs(assignments) &&
    WithinDailyLimit(assignments, shifts, EffectiveLimit(config)) &&
    ReferencesExist(employees, shifts, assignments)
  }

  /** Every decision of the engine keeps the store's invariants, given a
      catalog with unique shift ids. */
  lemma AssignPreservesInvariant(employees: seq<Employee>, shifts: seq<Shift>, assignments: seq<Assignment>,
                                 config: Config, employeeId: string, shiftId: string)
    requires UniqueShiftIds(shifts)
    requires StoreInvariant(employees, shifts, assignments, config)
    ensures StoreInvariant(employees, shifts, Assign(employees, shifts, assignments, config, employeeId, shiftId).assignments, config)
  {
    var step := Assign(employees, shifts, assignments, config, employeeId, shiftId);
    if step.result.success {
      var a := Assignment(Trim(employeeId), Trim(shiftId));
      var shift := FirstShift(shifts, a.shiftId).value;
      var limit := EffectiveLimit(config);
      var after := step.assignments;
      assert after == assignments + [a];
      forall i, j | 0 <= i < j < |after| ensures after[i] != after[j] {
        if j == |assignments| {
          assert after[i] in assignments;
        } else {
          assert after[i] == assignments[i] && after[j] == assignments[j];
        }
      }
      forall e: string, d: string ensures HoursOnDate(after, shifts, e, d) <= limit as real {
        HoursOnDateAppend(assignments, a, shifts, shift, e, d);
      }
    }
  }

  /** Assigning the same pair twice: the second attempt is refused with
      "Assignment already exists" and the pair is stored exactly once. */
  lemma AssignTwiceRejectsDuplicate(employees: seq<Employee>, shifts: seq<Shift>, assignments: seq<Assignment>,
                                    config: Config, employeeId: string, shiftId: string)
    requires Assign(employees, shifts, assignments, config, employeeId, shiftId).result.success
    ensures var after := Assign(employees, shifts, assignments, config, employeeId, shiftId).assignments;
            Assign(employees, shifts, after, config, employeeId, shiftId) ==
              AssignStep(AssignResult(false, "Assignment already exists"), after) &&
            multiset(after)[Assignment(Trim(employeeId), Trim(shiftId))] == 1
  {
    var a := Assignment(Trim(employeeId), Trim(shiftId));
    assert multiset(assignments)[a] == 0;
  }

  /** The checks of `assignEmployeeToShift`, in order, through the store's
      queries: the first that fails returns its message; when all pass the
      pair is appended to the collection. */
  method DecideAssignment(employees: seq<Employee>, shifts: seq<Shift>, assignments: seq<Assignment>,
                          config: Config, employeeId: string, shiftId: string) returns (step: AssignStep)
    ensures step == Assign(employees, shifts, assignments, config, employeeId, shiftId)
  {
    var empId := Trim(employeeId);
    var shId := Trim(shiftId);
    var employee := FindEmployee(employees, empId);
    if employee.None? {
      return AssignStep(AssignResult(false, "Employee does not exist"), assignments);
    }
    var shift := FindShift(shifts, shId);
    if shift.None? {
      return AssignStep(AssignResult(false, "Shift does not exist"), assignments);
    }
    var duplicate := AssignmentExists(assignments, empId, shId);
    if duplicate {
      return AssignStep(AssignResult(false, "Assignment already exists"), assignments);
    }
    var hourCheck := CheckHourLimit(config, shifts, assignments, empId, shId);
    if hourCheck.Denied? {
      return AssignStep(AssignResult(false, "Cannot assign: " + hourCheck.reason), assignments);
    }
    return AssignStep(AssignResult(true, "Shift Recorded"), assignments + [Assignment(empId, shId)]);
  }

  /** `assignEmployeeToShift`: decides on the trimmed ids and saves the
      collection only when every check passes; the store's invariants are
      kept. */
  method AssignEmployeeToShift(store: Store, employeeId: string, shiftId: string) returns (result: AssignResult)
    modifies store`assignments
    ensures var step := Assign(old(store.employees), old(store.shifts), old(store.assignments), old(store.config),
                               employeeId, shiftId);
            result == step.result && store.assignments == step.assignments
    ensures old(UniqueShiftIds(store.shifts) && StoreInvariant(store.employees, store.shifts, store.assignments, store.config)) ==>
              StoreInvariant(old(store.employees), old(store.shifts), store.assignments, old(store.config))
  {
    var employees, shifts, assignments, config := store.employees, store.shifts, store.assignments, store.config;
    var step := DecideAssignment(employees, shifts, assignments, config, employeeId, shiftId);
    if step.result.success {
      store.SaveAssignments(step.assignments);
    }
    if UniqueShiftIds(shifts) && StoreInvariant(employees, shifts, assignments, config) {
      AssignPreservesInvariant(employees, shifts, assignments, config, employeeId, shiftId);
    }
    result := step.result;
  }

  // ---------------------------------------------------------------------
  // Schedule projector
  // ---------------------------------------------------------------------

  /** The join of `getEmployeeSchedule`: for each assignment, in order, push
      every shift whose id it names. */
  method JoinShifts(assignments: seq<Assignment>, shifts: seq<Shift>) returns (schedule: seq<Shift>)
    ensures schedule == ShiftsOf(assignments, shifts)
  {
    schedule := [];
    for i := 0 to |assignments|
      invariant schedule == ShiftsOf(assignments[..i], shifts)
    {
      var named := ScanShiftsWithId(shifts, assignments[i].shiftId);
      assert assignments[..i + 1] == assignments[..i] + [assignments[i]];
      ShiftsOfAppend(assignments[..i], assignments[i], shifts);
      schedule := schedule + named;
    }
    assert assignments[..|assignments|] == assignments;
  }

  /** `getEmployeeSchedule`: the shifts named by the employee's assignments
      (an assignment whose shift is missing is dropped), bubble-sorted by
      `date + startTime`. The result is a permutation of the join, in
      order, and empty when the employee has no assignment. */
  method GetEmployeeSchedule(assignments: seq<Assignment>, shifts: seq<Shift>, employeeId: string)
    returns (schedule: seq<Shift>)
    ensures SortedByStart(schedule)
    ensures multiset(schedule) == multiset(ShiftsOf(AssignmentsOf(assignments, Trim(employeeId)), shifts))
    ensures AssignmentsOf(assignments, Trim(employeeId)) == [] ==> schedule == []
  {
    var empId := Trim(employeeId);
    var mine := GetAssignmentsByEmployee(assignments, empId);
    var joined := JoinShifts(mine, shifts);
    var a := new Shift[|joined|](i requires 0 <= i < |joined| => joined[i]);
    assert a[..] == joined;
    BubbleSortByStart(a);
    schedule := a[..];
    if mine == [] {
      assert |multiset(schedule)| == 0;
    }
  }

  /** A shift is on the employee's schedule exactly when it is in the
      catalog and one of the employee's assignments names it. */
  lemma ScheduleMembers(assignments: seq<Assignment>, shifts: seq<Shift>, employeeId: string, s: Shift)
    ensures s in ShiftsOf(AssignmentsOf(assignments, employeeId), shifts) <==>
            s in shifts && Assignment(employeeId, s.shiftId) in assignments
  {
    var mine := AssignmentsOf(assignments, employeeId);
    ShiftsOfMembers(mine, shifts, s);
    if Assignment(employeeId, s.shiftId) in assignments {
      assert Assignment(employeeId, s.shiftId) in mine;
    }
  }

  // ---------------------------------------------------------------------
  // Employee ids
  // ---------------------------------------------------------------------

  /** The number of an id that starts with `E`, is longer than one
      character, and has a suffix `parseInt(_, 10)` reads; `None` otherwise. */
  function IdNumber(id: string): (r: Option<int>)
    ensures r.Some? ==> |id| > 1 && id[0] == 'E'
  {
    if |id| > 1 && id[0] == 'E' then ParseInt(id[1..], Ten) else None
  }

  /** The largest id number among the employees, and 0 when none is larger. */
  function MaxIdNumber(employees: seq<Employee>): nat {
    MaxNumber(employees, (e: Employee) => IdNumber(e.employeeId))
  }

  /** `generateNextEmployeeId`: `E` followed by one more than the largest id
      number, zero-padded to at least three digits. The id is new, and its
      own number is that successor. */
  method GenerateNextEmployeeId(employees: seq<Employee>) returns (id: string)
    ensures id == NextId(MaxIdNumber(employees))
    ensures forall i | 0 <= i < |employees| :: employees[i].employeeId != id
  {
    var maxNum := 0;
    for i := 0 to |employees|
      invariant maxNum == MaxIdNumber(employees[..i])
    {
      MaxNumberStep(employees, (e: Employee) => IdNumber(e.employeeId), i);
      var current := employees[i].employeeId;
      if |current| > 1 && current[0] == 'E' {
        var num := ParseInt(current[1..], Ten);
        if num.Some? && num.value > maxNum {
          maxNum := num.value;
        }
      }
    }
    assert employees[..|employees|] == employees;
    assert maxNum == MaxIdNumber(employees);
    var nextNum := NatToString(maxNum + 1);
    nextNum := PadWithZeros(nextNum);
    id := "E" + nextNum;
    assert id == NextId(maxNum);
    NextIdIsFresh(employees);
  }

  /** The next id reads back as the successor of the largest id number. */
  lemma NextIdNumber(n: nat)
    ensures IdNumber(NextId(n)) == Some(n + 1)
  {
    ParsePaddedNumber(n + 1, Ten);
    assert NextId(n)[1..] == ZeroPad3(NatToString(n + 1));
  }

  /** So the next id differs from every id in use. */
  lemma NextIdIsFresh(employees: seq<Employee>)
    ensures forall i | 0 <= i < |employees| :: employees[i].employeeId != NextId(MaxIdNumber(employees))
  {
    NextIdNumber(MaxIdNumber(employees));
    MaxNumberIsMaximum(employees, (e: Employee) => IdNumber(e.employeeId));
  }

  /** With no id of the form `E<number>` above 0, in particular with no
      employee, the next id is `E001`. */
  lemma FirstIdWithoutNumbers(employees: seq<Employee>)
    requires forall i | 0 <= i < |employees| ::
               IdNumber(employees[i].employeeId).None? || IdNumber(employees[i].employeeId).value <= 0
    ensures NextId(MaxIdNumber(employees)) == "E001"
  {
    NoPositiveNumber(employees, (e: Employee) => IdNumber(e.employeeId));
    FirstId();
  }

  /** `createEmployee`: saves the employee list with one new employee
      appended, under the next id, with trimmed name and phone. */
  method CreateEmployee(store: Store, name: string, phone: string) returns (employee: Employee)
    modifies store`employees
    ensures store.employees == old(store.employees) + [employee]
    ensures employee == Employee(NextId(MaxIdNumber(old(store.employees))),
                                 Trim(name), Trim(phone))
    ensures forall i | 0 <= i < |old(store.employees)| :: old(store.employees)[i].employeeId != employee.employeeId
  {
    var employees := store.employees;
    var employeeId := GenerateNextEmployeeId(store.employees);
    employee := Employee(employeeId, Trim(name), Trim(phone));
    store.SaveEmployees(employees + [employee]);
  }

  // ---------------------------------------------------------------------
  // Worked scenarios
  // ---------------------------------------------------------------------

  /** 09:00 to 17:30 is 8.5 hours; equal times are 0 hours. */
  lemma DurationExamples()
    ensures ComputeShiftDuration(Clock(9, 0), Clock(17, 30)) == 8.5
    ensures ComputeShiftDuration(Clock(13, 0), Clock(13, 0)) == 0.0
  {
  }

  /** With a limit of 8 and a 6-hour shift already booked on a date, a
      further shift that day is refused with the limit named when it is
      longer than 2 hours and allowed otherwise, since 6 + 2 is not above 8. */
  lemma HourLimitExample(employeeId: string, booked: Shift, candidate: Shift)
    requires booked.shiftId != candidate.shiftId && booked.date == candidate.date
    requires ShiftHours(booked) == 6.0
    ensures HourLimitVerdict(Config(Some(8)), [booked, candidate], [Assignment(employeeId, booked.shiftId)],
                             employeeId, candidate.shiftId) ==
            if ShiftHours(candidate) > 2.0 then Denied(LimitMessage(8)) else Allowed
  {
    var shifts := [booked, candidate];
    assert shifts[1..] == [candidate];
    assert FirstShiftIndex(shifts[1..], candidate.shiftId) == 0;
    assert FirstShiftIndex(shifts, candidate.shiftId) == 1;
    OneBookedShift(employeeId, booked, candidate);
  }

  /** One assignment to the first of two shifts with distinct ids books
      exactly that shift's hours on its date. */
  lemma OneBookedShift(employeeId: string, booked: Shift, other: Shift)
    requires booked.shiftId != other.shiftId
    ensures HoursOnDate([Assignment(employeeId, booked.shiftId)], [booked, other], employeeId, booked.date) ==
            ShiftHours(booked)
  {
    var shifts := [booked, other];
    var assignments := [Assignment(employeeId, booked.shiftId)];
    assert UniqueShiftIds(shifts);
    ShiftsWithIdOnUnique(shifts, booked, booked.date);
    assert assignments[..0] == [];
    assert ShiftsOnDate(assignments, shifts, employeeId, booked.date) == [booked];
    assert [booked][..0] == [];
    assert SumHours([booked]) == SumHours([]) + ShiftHours(booked);
  }

  /** Why the hour invariant needs unique shift ids: with two catalog shifts
      sharing an id on one date, of 4 and 6 hours, the check sees only the
      first (within a limit of 9) and lets the assignment through, but the
      day's total then counts both (10 hours). */
  lemma DuplicateShiftIdExceedsLimit(employee: Employee, first: Shift, second: Shift)
    requires Trim(employee.employeeId) == employee.employeeId && Trim(first.shiftId) == first.shiftId
    requires second.shiftId == first.shiftId && second.date == first.date
    requires ShiftHours(first) == 4.0 && ShiftHours(second) == 6.0
    ensures var step := Assign([employee], [first, second], [], Config(Some(9)), employee.employeeId, first.shiftId);
            step.result.success &&
            step.assignments == [Assignment(employee.employeeId, first.shiftId)] &&
            HoursOnDate(step.assignments, [first, second], employee.employeeId, first.date) == 10.0 &&
            !WithinDailyLimit(step.assignments, [first, second], EffectiveLimit(Config(Some(9))))
  {
    var shifts := [first, second];
    var e := employee.employeeId;
    assert FirstEmployeeIndex([employee], e) == 0;
    assert FirstShiftIndex(shifts, first.shiftId) == 0;
    assert HourLimitVerdict(Config(Some(9)), shifts, [], e, first.shiftId) == Allowed;
    var a := Assignment(e, first.shiftId);
    BothShiftsCounted(a, first, second);
  }

  /** One assignment naming an id two shifts on its date share books the
      hours of both. */
  lemma BothShiftsCounted(a: Assignment, first: Shift, second: Shift)
    requires second.shiftId == first.shiftId && second.date == first.date && a.shiftId == first.shiftId
    ensures HoursOnDate([a], [first, second], a.employeeId, first.date) == ShiftHours(first) + ShiftHours(second)
  {
    var shifts := [first, second];
    assert shifts[..1] == [first] && [first][..0] == [];
    assert ShiftsWithIdOn([first], a.shiftId, first.date) == [first];
    assert ShiftsWithIdOn(shifts, a.shiftId, first.date) == [first] + [second];
    assert [a][..0] == [];
    assert ShiftsOnDate([a], shifts, a.employeeId, first.date) == [first, second];
    assert [first, second][..1] == [first];
    assert SumHours([first]) == SumHours([]) + ShiftHours(first);
  }

  /** The reason names the limit: for 8 it reads
      "Assignment would exceed daily limit of 8 hours". */
  lemma LimitMessageExample()
    ensures LimitMessage(8) == "Assignment would exceed daily limit of 8 hours"
  {
    assert NatToString(8) == "8";
  }
}
