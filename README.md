# Shift assignment and scheduling: a verified model

The repository is a small staff-rostering tool. Employees, shifts, assignments
of employees to shifts, and a configuration with a daily hour limit live in
JSON files. Its engine (`business.js`) does four things:

- It works out how long a shift lasts.
- It totals the hours an employee already works on a date.
- It decides, through an ordered series of checks, whether an employee may
  take a shift. When every check passes it appends the assignment.
- It builds an employee's schedule, bubble-sorted by date and start time.

The engine also hands out employee ids of the form `E001`. The store
(`Persistence.js`) answers the engine's queries by linear scans. The older
command-line program (`server.js`) holds its own versions of the id
generator, the assignment command and the schedule view.

The Dafny modules follow that structure:

- `Common`: the `Option` type.
- `Text`: the JavaScript string built-ins the code relies on. These are
  `trim`, `parseInt` (radix 10 or none), `String(n)` for a natural number,
  the `'0' + s` padding loop and `<` on strings.
- `Records`: employees, shifts (with `HH:MM` times), assignments and the
  configuration. It also holds the maximum-number scan and the id format
  that both id generators share.
- `Persistence`: the `Store` class and the store's queries. Each query is a
  `method` with the source's loop. Most are proved equal to a specification
  function; `AssignmentExists` is proved equivalent to membership of the pair
  in the collection.
- `Schedule`: the join of assignments to shifts and the in-place bubble sort
  on an `array`, proved sorted and a permutation.
- `Business`: the engine.
- `Server`: the older program.

Several operations save a collection: assigning, creating an employee, and
the older assignment command. These are methods on a `Store` object whose
`seq` fields stand for the files. A read-only operation takes the collection
it loads as a parameter.

Some modelling choices:

- A time of day is `Clock(hour < 24, minute < 60)`. Its stored text is
  `ClockText`, the zero-padded `HH:MM`, and `ParseClock` reads it back.
- Durations are exact `real` hours, that is minutes / 60.
- The configured limit is an optional integer. `None` stands for a missing
  value or one that `Number(...)` turns into `NaN`.

The engine's hour-limit invariant needs shift ids that are unique in the
catalog (`UniqueShiftIds`). The hour check looks at the first shift with the
id, but the per-date total counts every shift with that id. So with a
duplicated id, a total can exceed the limit although each check passed.
`Business.DuplicateShiftIdExceedsLimit` exhibits such a catalog, and
`Business.AssignPreservesInvariant` therefore requires unique ids. The rule
that the assignments must not repeat a pair, and that they must name
existing records, holds without it.

The older program differs from the engine in four ways, and the model keeps
each difference:

- It does not trim the ids.
- It refuses an empty id before loading anything.
- It has no hour-limit check.
- Its id generator reads `parseInt(id.slice(1))` with no radix and no check
  of the leading `E`. So a suffix starting `0x` is read as hexadecimal.

`Server.AgreesWithEngine` states when the two versions decide alike.

## Model

| member | source | states |
|---|---|---|
| Text.TrimStart | business.js:138 | the result is a suffix of the input; everything dropped is whitespace; it does not start with whitespace |
| Text.TrimEnd | business.js:138 | the result is a prefix of the input; everything dropped is whitespace; it does not end with whitespace |
| Text.Trim | business.js:138-139 | the result is no longer than the input and has no whitespace at either end |
| Text.TrimInfix | business.js:138-139 | the trimmed id is the infix of the input at some offset, and every character outside it is whitespace |
| Text.TrimEndWithin | business.js:138-139 | trimming the end of a suffix keeps an infix of the whole string and drops only whitespace |
| Text.TrimOfTrimmed | business.js:138-139 | a string with no whitespace at either end is its own trim |
| Text.TrimIdempotent | business.js:169 | trimming an already trimmed id changes nothing |
| Text.DigitValue | business.js:43 | a hexadecimal digit has a value below 16, and a decimal digit one below 10 |
| Text.DigitChar | business.js:50 | the character written for a value below 10 is a decimal digit with that value |
| Text.DigitsValue | business.js:43 | the number a digit string writes, most significant digit first; `NatToStringValue`, `LeadingZerosValue` and `ParseIntOfDigits` relate it to `String(n)`, padding and `parseInt` |
| Text.NatToString | business.js:50 | `String(n)` is a non-empty string of decimal digits with no leading zero unless it is "0" |
| Text.NatToStringValue | business.js:50 | the digits of `String(n)` read back as `n` |
| Text.Zeros | business.js:51-53 | `k` characters, each '0' |
| Text.LeadingZerosValue | business.js:51-53 | putting zeros in front of a digit string keeps it a digit string with the same value |
| Text.ZerosValue | business.js:51-53 | a string of zeros reads as 0 |
| Text.ZeroPad3 | business.js:51-53 | the padded string has length 3 when the input is shorter, and its own length otherwise |
| Text.PadWithZeros | business.js:50-53 | the loop yields `ZeroPad3` of the digits: the digits unchanged at the end, only '0' in front |
| Text.DigitRun | business.js:43 | the longest leading run of digits of the radix, stopping at the first non-digit |
| Text.ParseDigits | business.js:43 | no value (`NaN`) exactly when the text is empty or does not start with a digit |
| Text.ParseInt | business.js:43 | `parseInt` on its integer path: blank text is `NaN`; `ParseDigits` fixes when a value exists, and `ParseIntOfDigits` and `ParsePaddedNumber` fix the value on digit strings and padded ids |
| Text.ParseIntOfDigits | business.js:43 | under either radix mode, `parseInt` of a non-empty decimal digit string is the number it writes |
| Text.ParsePaddedNumber | business.js:50-55 | the zero-padded `String(n)` is at least three decimal digits and parses back to `n` |
| Text.LexLess | business.js:185-186 | string `<`; the five lemmas below prove it a strict total order that compares equal-width fields one after another |
| Text.LexLessIrreflexive | business.js:184-187 | no string compares `<` to itself |
| Text.LexLessAsymmetric | business.js:184-187 | `a < b` and `b < a` never both hold |
| Text.LexLessTransitive | business.js:184-187 | `<` on strings is transitive |
| Text.LexLessTotal | business.js:184-187 | two strings are equal or one compares below the other |
| Text.LexLessConcat | business.js:184-187 | when `p` and `q` have equal length, `p + x < q + y` holds iff `p < q`, or `p == q` and `x < y` |
| Records.Minutes | business.js:20-21 | minutes since midnight, `hour * 60 + minute`, are below 1440 |
| Records.ClockText | business.js:12-18 | the stored text of a time has five characters |
| Records.ParseClock | business.js:12-18 | reads strict `HH:MM` text into a time; `ParseClockText` and `ClockTextOfParse` prove it the inverse of `ClockText` |
| Records.ParseClockText | business.js:12-18 | reading the `HH:MM` text of a time gives back that time |
| Records.ClockTextOfParse | business.js:12-18 | text that reads as a time is exactly that time's `HH:MM` text |
| Records.DigitRoundTrip | business.js:13 | a decimal digit is the character written for its own value |
| Records.TwoDigitOrder | business.js:184-187 | two-digit zero-padded numbers compare as strings exactly as they compare as numbers |
| Records.ClockTextOrder | business.js:184-187 | the `HH:MM` texts of two times compare as strings exactly as the times compare in minutes |
| Records.MaxNumber | business.js:40-48 | the running maximum of `num > maxNum`, starting at 0; `MaxNumberStep` and `MaxNumberIsMaximum` state it |
| Records.MaxNumberStep | business.js:44-46 | one more employee raises the running maximum to its number exactly when that is larger |
| Records.MaxNumberIsMaximum | business.js:40-48 | the scan's maximum bounds every number read, and it is 0 or one of the numbers read |
| Records.NoPositiveNumber | business.js:38 | when no number read is above 0, the maximum stays at its initial 0 |
| Records.NextId | business.js:55 | the generated id starts with 'E' and has at least four characters |
| Records.FirstId | business.js:50-55 | with maximum 0 the id is `E001` |
| Persistence.Store.SaveEmployees | Persistence.js:36-38 | the employee collection becomes exactly the given list |
| Persistence.Store.SaveAssignments | Persistence.js:136-138 | the assignment collection becomes exactly the given list |
| Persistence.FirstEmployeeIndex | Persistence.js:23-27 | the index of the first employee whose id matches; every earlier employee has another id; the length when none matches |
| Persistence.FirstEmployee | Persistence.js:20-30 | `None` (null) iff no employee has the id; otherwise a stored employee with that id |
| Persistence.FindEmployee | Persistence.js:20-30 | the scan returns the first employee with the id, or `None` |
| Persistence.FirstShiftIndex | Persistence.js:57-61 | the index of the first shift whose id matches; every earlier shift has another id; the length when none matches |
| Persistence.FirstShift | Persistence.js:54-64 | `None` (null) iff no shift has the id; otherwise a catalog shift with that id |
| Persistence.FindShift | Persistence.js:54-64 | the scan returns the first shift with the id, or `None` |
| Persistence.AssignmentsOf | Persistence.js:78-89 | no longer than the input; it holds exactly the stored assignments of the employee |
| Persistence.AssignmentsOfAppend | Persistence.js:82-86 | the filter keeps order: filtering a concatenation concatenates the filtered parts |
| Persistence.AssignmentsOfStep | Persistence.js:83-85 | one more assignment in the scan is kept iff its employee id matches |
| Persistence.GetAssignmentsByEmployee | Persistence.js:78-89 | the loop's result equals the order-preserving filter `AssignmentsOf` |
| Persistence.ShiftsWithIdOn | Persistence.js:104-108 | exactly the catalog shifts with the id on the date |
| Persistence.ShiftsOnDate | Persistence.js:96-113 | the reference result of the by-date query; `ShiftsOnDateMembers` and `ShiftsOnDateAppend` state its contents and order |
| Persistence.ShiftsOnDateMembers | Persistence.js:96-113 | a shift is in the result iff it is in the catalog, on the date, and the employee is assigned its id |
| Persistence.ShiftsOnDateAppend | Persistence.js:101-110 | one more assignment adds, at the end, its shifts on the date, and only when it is the employee's |
| Persistence.ScanShiftsWithIdOn | Persistence.js:104-108 | the inner loop pushes exactly `ShiftsWithIdOn`, in catalog order |
| Persistence.GetAssignmentsByEmployeeAndDate | Persistence.js:96-113 | the nested loops yield, in assignment order, the shifts each of the employee's assignments names on the date |
| Persistence.AssignmentExists | Persistence.js:120-130 | true iff some assignment has both ids, that is iff the pair is stored |
| Persistence.ShiftsWithIdOnAbsent | Persistence.js:104-108 | with no shift of that id, nothing is found on any date |
| Persistence.ShiftsWithIdOnUnique | Persistence.js:104-108 | with unique ids, a catalog shift's id finds that shift alone on its own date and nothing on others |
| Schedule.StartsAfter | business.js:184-187 | the swap test `date + startTime > date + startTime`; `StartKeyOrder` and the three lemmas below state its order |
| Schedule.StartKeyOrder | business.js:184-187 | for dates of equal width, the key `date + startTime` orders by date, then by start time on the clock |
| Schedule.NotAfterReflexive | business.js:184-187 | no shift starts after itself under the swap test |
| Schedule.NotAfterTransitive | business.js:184-187 | "does not start after" is transitive |
| Schedule.SwappedNotAfter | business.js:184-190 | after a swap of an out-of-order pair, the pair is in order |
| Schedule.Swap | business.js:188-190 | exchanges exactly the two cells through a temporary and keeps the multiset |
| Schedule.PassStart | business.js:183 | the inner loop's invariant holds at `j = 0` |
| Schedule.PassSwapStep | business.js:184-191 | swapping an out-of-order neighbour pair moves the invariant one cell on |
| Schedule.PassKeepStep | business.js:184-191 | leaving an ordered neighbour pair moves the invariant one cell on |
| Schedule.PassDone | business.js:183-192 | at the end of a pass, the sorted and partitioned suffix has grown by one cell |
| Schedule.BubblePass | business.js:183-192 | one pass brings the latest-starting shift of the unsorted prefix to its end, keeping the multiset |
| Schedule.BubbleSortByStart | business.js:182-193 | the array is sorted by `date + startTime` and is a permutation of its old contents |
| Schedule.ShiftsWithId | business.js:175-179 | exactly the catalog shifts whose id matches |
| Schedule.ScanShiftsWithId | business.js:175-179 | the inner loop pushes exactly `ShiftsWithId`, in catalog order |
| Schedule.ShiftsOf | business.js:174-180 | the reference join, assignment by assignment in order; `ShiftsOfMembers` and `ShiftsOfAppend` state its contents and order |
| Schedule.ShiftsOfMembers | business.js:174-180 | a shift is in the join iff it is in the catalog and some assignment names its id |
| Schedule.ShiftsOfAppend | business.js:174-180 | one more assignment appends its shifts at the end of the join |
| Business.ComputeShiftDuration | business.js:11-24 | hours times 60 is end minutes minus start minutes; 0 iff the times are equal; negative iff the end is before the start |
| Business.SumHours | business.js:96-100 | the total duration of a list of shifts, added in order; `SumHoursAppend` splits it over concatenation |
| Business.SumHoursAppend | business.js:98-100 | the total of two lists of shifts is the sum of their totals |
| Business.GetEmployeeHoursForDate | business.js:94-103 | the loop's total equals `HoursOnDate`, the durations of the employee's shifts on the date added up |
| Business.HoursOnDateAppend | business.js:94-103 | with unique ids, a new assignment adds its shift's hours to its own employee and date and to no other total |
| Business.EffectiveLimit | business.js:109-114 | the limit is positive: the configured value when it is a number above 0, and 9 otherwise |
| Business.LimitMessage | business.js:127 | the refusal reason naming the limit; `LimitMessageExample` pins its text for 8 |
| Business.HourLimitVerdict | business.js:116-131 | an unknown shift is refused with "Shift does not exist"; otherwise allowed iff booked plus new hours do not exceed the limit, else refused with the limit message |
| Business.CheckHourLimit | business.js:108-132 | the method's answer is `HourLimitVerdict` |
| Business.Assign | business.js:137-163 | on trimmed ids: success iff all four checks pass; each failure gives its own message, checked in order; one trimmed pair appended only on success; failures change nothing |
| Business.AssignPreservesInvariant | business.js:149-162 | with unique shift ids: no duplicate pair, per-date hours within the limit, and valid references all survive any call |
| Business.AssignTwiceRejectsDuplicate | business.js:149-151 | after a success, the same call is refused with "Assignment already exists" and the pair is stored exactly once |
| Business.DecideAssignment | business.js:137-156 | the ordered checks through the store's queries compute `Assign` |
| Business.AssignEmployeeToShift | business.js:137-163 | the result and the new assignment collection are those of `Assign` on the old store; the store invariant is kept |
| Business.JoinShifts | business.js:174-180 | the nested loops yield the join `ShiftsOf` |
| Business.GetEmployeeSchedule | business.js:168-196 | sorted by `date + startTime`; a permutation of the join of the trimmed id's assignments; empty when it has none |
| Business.ScheduleMembers | business.js:168-180 | a shift is on the schedule iff it is in the catalog and the employee is assigned its id; missing shifts drop out |
| Business.IdNumber | business.js:42-44 | only an id longer than one character starting with 'E' has a number, read by `parseInt(_, 10)`; `NextIdNumber` reads the generated id back |
| Business.GenerateNextEmployeeId | business.js:36-56 | the id is `NextId` of the largest `E`-prefixed decimal id number, and no employee has it |
| Business.NextIdNumber | business.js:42-44 | the generated id reads back, by the same rule, as the successor of the maximum |
| Business.NextIdIsFresh | business.js:36-56 | the generated id differs from every existing id |
| Business.FirstIdWithoutNumbers | business.js:36-56 | with no `E`-prefixed id above 0, including with no employee, the id is `E001` |
| Business.CreateEmployee | business.js:61-75 | the employee list gains exactly one record at the end, with the next id and trimmed name and phone |
| Business.DurationExamples | business.js:11-24 | 09:00 to 17:30 lasts 8.5 hours; equal times last 0 hours |
| Business.HourLimitExample | business.js:124-131 | with limit 8 and 6 booked hours, a shift on that day is refused with the limit message iff it is longer than 2 hours |
| Business.OneBookedShift | business.js:94-103 | one assignment to a shift books exactly that shift's hours on its date |
| Business.DuplicateShiftIdExceedsLimit | business.js:116-131 | with two shifts of 4 and 6 hours sharing an id on one date and a limit of 9, `Assign` succeeds, yet the day then totals 10 hours and the daily-limit invariant fails |
| Business.BothShiftsCounted | Persistence.js:104-108 | an assignment naming an id that two shifts on its date share books the hours of both |
| Business.LimitMessageExample | business.js:127 | the reason for limit 8 reads "Assignment would exceed daily limit of 8 hours" |
| Server.IdNumber | server.js:95 | `parseInt(id.slice(1))` with no radix: an id of one character or none has no number; `NextIdNumber` reads the generated id back |
| Server.GetNextEmployeeId | server.js:91-104 | the id is `NextId` of the largest `parseInt(id.slice(1))`, and no employee has it |
| Server.NextIdNumber | server.js:95 | the generated id's suffix parses back as the successor of the maximum |
| Server.NextIdIsFresh | server.js:94-103 | the generated id differs from every existing id |
| Server.FirstIdWithoutNumbers | server.js:92-103 | with no id suffix above 0, including with no employee, the id is `E001` |
| Server.Assign | server.js:137-181 | empty ids refused first; "Shift Recorded" iff both ids exist and the pair is new; pair appended only then; ordered failure messages |
| Server.AssignPreservesInvariants | server.js:150-178 | no duplicate pair and valid references survive any call |
| Server.AgreesWithEngine | server.js:150-178 | on trimmed non-empty ids that the hour limit allows, the older command decides exactly as the engine |
| Server.AssignEmployeeToShift | server.js:137-181 | the printed message and the saved collection are those of `Assign` on the old store; both invariants are kept |
| Server.JoinEmployeeShifts | server.js:199-207 | the filtered nested loops yield the join of the employee's assignments |
| Server.ViewEmployeeSchedule | server.js:186-219 | `None` iff the id is empty; otherwise a sorted permutation of the employee's join |

## Left out

- File I/O. Reading and writing the JSON files, and JSON parsing and printing, are not modelled. The store's collections are `seq` fields or parameters.
- `async`/`await` sequencing and concurrency. In particular the lost update between two interleaved load-then-save commands is not modelled.
- `presentation.js`. It is the prompt and console menu and the column padding for display.
- User-interface commands of `server.js`: `showAllEmployees`, `addNewEmployee`, the `application` menu loop, the CSV printing of `viewEmployeeSchedule`, and the `console.log` output. The messages the older assignment command prints are its result.
- `prompt` returning `null`. An id the user typed is a string, so `null` and the empty string are the one case `""`.
- `getEmployeeList`: it returns the loaded list unchanged, so there is nothing to state.
- `validateEmployeeExists` and `validateShiftExists`: these are `FirstEmployee(...).Some?` and `FirstShift(...).Some?` inside `Business.Assign`.
- `String(employeeId || '')` and `String(x).trim()` on values that are not strings. Ids, names and phones are strings in the model.
- Business.ComputeShiftDuration: works on well-formed `HH:MM` times within a day. The lenient parsing of malformed text (`split`/`parseInt` on other shapes, giving `NaN` hours) is not modelled. A shift past midnight simply comes out negative, as in the source.
- Floating point. Hours are exact reals, so rounding in sums of fractional hours is not captured.
- Business.EffectiveLimit: a configured limit is an integer or missing/`NaN`. Fractional limits, and the `Number(...)` conversion of strings, are not modelled.
- Server.IdNumber: ids are sequences of code points. `id.slice(1)` and `length` on UTF-16 code units are not modelled, so an id starting with an astral character such as U+1F600 loses the whole character here, while the source slices inside its surrogate pair. business.js is unaffected, because its `id[0] === 'E'` test comes first.
- Text.LexLess: compares Dafny characters. JavaScript compares UTF-16 code units, which order astral characters differently.
- Business.GenerateNextEmployeeId: id numbers are exact integers. The source adds 1 to a double, so from 2^53 on `maxNum + 1` can round back to the maximum and hand out an existing id (one employee `E9007199254740992` gets that same id again), and from 10^21 on `String` writes exponent notation such as `1e+21`. So the freshness proved for the model carries over to the source only while the largest id number stays below 2^53.
- Business.NextIdIsFresh: holds for exact id numbers; in the source it fails from 2^53 on, as said for `Business.GenerateNextEmployeeId`.
- Server.GetNextEmployeeId: id numbers are exact integers; from 2^53 on the source's double `max + 1` can return an existing id, and from 10^21 on `String` writes exponent notation.
- Server.NextIdIsFresh: holds for exact id numbers; in the source it fails from 2^53 on, as said for `Server.GetNextEmployeeId`.
- Text.NatToString: writes every natural number in plain decimal digits; JavaScript's `String` switches to exponent notation from 10^21 on.
- Text.ParseInt: exact integers. Precision loss on very long digit strings is not modelled. Its radix covers only the two uses in the code: 10, and none.
- Business.AssignPreservesInvariant: requires unique shift ids in the catalog, for the reason given above.
