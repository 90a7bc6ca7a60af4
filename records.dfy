/** The records kept in the store: employees, shifts, assignments and the
    configuration, with the `HH:MM` time of day a shift starts and ends. */
module Records {
  import opened Common
  import opened Text

  type Hour = h: nat | h < 24
  type Minute = m: nat | m < 60

  /** A 24-hour time of day, written `HH:MM` in the shift records. */
  datatype Clock = Clock(hour: Hour, minute: Minute)

  /** Minutes since midnight: `hour * 60 + minute`. */
  function Minutes(c: Clock): (m: nat)
    ensures m < 24 * 60
  {
    c.hour * 60 + c.minute
  }

  /** The `HH:MM` text of a time of day, both fields zero-padded. */
  function ClockText(c: Clock): (t: string)
    ensures |t| == 5
  {
    [DigitChar(c.hour / 10), DigitChar(c.hour % 10), ':',
     DigitChar(c.minute / 10), DigitChar(c.minute % 10)]
  }

  /** Reads `HH:MM` text: two decimal digits, a colon, two decimal digits,
      with an hour below 24 and a minute below 60; anything else is `None`. */
  function ParseClock(t: string): (r: Option<Clock>)
  {
    if |t| == 5 && IsDecimalDigit(t[0]) && IsDecimalDigit(t[1]) && t[2] == ':' &&
       IsDecimalDigit(t[3]) && IsDecimalDigit(t[4])
    then
      var h := 10 * DigitValue(t[0]) + DigitValue(t[1]);
      var m := 10 * DigitValue(t[3]) + DigitValue(t[4]);
      if h < 24 && m < 60 then Some(Clock(h, m)) else None
    else None
  }

  /** Reading back the text of a time gives the time. */
  lemma ParseClockText(c: Clock)
    ensures ParseClock(ClockText(c)) == Some(c)
  {
    var t := ClockText(c);
    assert DigitValue(t[0]) == c.hour / 10 && DigitValue(t[1]) == c.hour % 10;
    assert DigitValue(t[3]) == c.minute / 10 && DigitValue(t[4]) == c.minute % 10;
  }

  /** Text that reads as a time is exactly that time's text. */
  lemma ClockTextOfParse(t: string)
    requires ParseClock(t).Some?
    ensures ClockText(ParseClock(t).value) == t
  {
    var c := ParseClock(t).value;
    DigitRoundTrip(t[0]);
    DigitRoundTrip(t[1]);
    DigitRoundTrip(t[3]);
    DigitRoundTrip(t[4]);
    assert c.hour / 10 == DigitValue(t[0]) && c.hour % 10 == DigitValue(t[1]);
    assert c.minute / 10 == DigitValue(t[3]) && c.minute % 10 == DigitValue(t[4]);
  }

  lemma DigitRoundTrip(c: char)
    requires IsDecimalDigit(c)
    ensures DigitChar(DigitValue(c)) == c
  {
  }

  /** Two digits `x / 10`, `x % 10` compared as characters, most significant
      first, order numbers below 100 as numbers. */
  lemma TwoDigitOrder(x: nat, y: nat)
    requires x < 100 && y < 100
    ensures LexLess([DigitChar(x / 10), DigitChar(x % 10)], [DigitChar(y / 10), DigitChar(y % 10)])
            <==> x < y
  {
    var a := [DigitChar(x / 10), DigitChar(x % 10)];
    var b := [DigitChar(y / 10), DigitChar(y % 10)];
    assert a[1..] == [DigitChar(x % 10)] && b[1..] == [DigitChar(y % 10)];
    assert a[1..][1..] == [] && b[1..][1..] == [];
    assert DigitChar(x / 10) < DigitChar(y / 10) <==> x / 10 < y / 10;
    assert DigitChar(x % 10) < DigitChar(y % 10) <==> x % 10 < y % 10;
    assert DigitChar(x / 10) == DigitChar(y / 10) <==> x / 10 == y / 10;
    assert x == 10 * (x / 10) + x % 10 && y == 10 * (y / 10) + y % 10;
    assert x < y <==> x / 10 < y / 10 || (x / 10 == y / 10 && x % 10 < y % 10);
    assert LexLess(a[1..], b[1..]) <==> DigitChar(x % 10) < DigitChar(y % 10);
  }

  /** Comparing the `HH:MM` texts of two times as strings orders them as the
      clock does. */
  lemma {:induction false} ClockTextOrder(a: Clock, b: Clock)
    ensures LexLess(ClockText(a), ClockText(b)) <==> Minutes(a) < Minutes(b)
  {
    var ha := [DigitChar(a.hour / 10), DigitChar(a.hour % 10)];
    var hb := [DigitChar(b.hour / 10), DigitChar(b.hour % 10)];
    var ma := [DigitChar(a.minute / 10), DigitChar(a.minute % 10)];
    var mb := [DigitChar(b.minute / 10), DigitChar(b.minute % 10)];
    assert ClockText(a) == ha + ([':'] + ma);
    assert ClockText(b) == hb + ([':'] + mb);
    LexLessConcat(ha, hb, [':'] + ma, [':'] + mb);
    LexLessConcat([':'], [':'], ma, mb);
    LexLessIrreflexive([':']);
    TwoDigitOrder(a.hour, b.hour);
    TwoDigitOrder(a.minute, b.minute);
    if ha == hb {
      assert a.hour / 10 == b.hour / 10 && a.hour % 10 == b.hour % 10;
    }
    if a.hour == b.hour { assert ha == hb; }
  }

  datatype Employee = Employee(employeeId: string, name: string, phone: string)

  /** A shift of the external catalog; its times are stored as `HH:MM` text,
      the text `ClockText` writes. */
  datatype Shift = Shift(shiftId: string, date: string, startTime: Clock, endTime: Clock)

  /** The largest number among the employees, for a way `number` of reading
      a number from an employee, and 0 when none is larger. */
  function MaxNumber(employees: seq<Employee>, number: Employee -> Option<int>): nat {
    if |employees| == 0 then 0
    else
      var m := MaxNumber(employees[..|employees| - 1], number);
      var n := number(employees[|employees| - 1]);
      if n.Some? && n.value > m then n.value else m
  }

  /** The maximum bounds every number read, and it is 0 or one of them. */
  lemma {:induction false} MaxNumberIsMaximum(employees: seq<Employee>, number: Employee -> Option<int>)
    ensures forall i | 0 <= i < |employees| ::
              number(employees[i]).Some? ==> number(employees[i]).value <= MaxNumber(employees, number)
    ensures MaxNumber(employees, number) == 0 ||
            exists i | 0 <= i < |employees| :: number(employees[i]) == Some(MaxNumber(employees, number))
  {
    if |employees| > 0 {
      var front := employees[..|employees| - 1];
      MaxNumberIsMaximum(front, number);
      assert forall i | 0 <= i < |front| :: front[i] == employees[i];
    }
  }

  /** One more employee in the scan raises the maximum to its number when
      that is larger, and leaves it otherwise. */
  lemma MaxNumberStep(employees: seq<Employee>, number: Employee -> Option<int>, i: nat)
    requires i < |employees|
    ensures var n := number(employees[i]);
            MaxNumber(employees[..i + 1], number) ==
              if n.Some? && n.value > MaxNumber(employees[..i], number) then n.value else MaxNumber(employees[..i], number)
  {
    assert employees[..i + 1][..i] == employees[..i];
  }

  /** When no employee reads as a number above 0, the maximum is 0. */
  lemma NoPositiveNumber(employees: seq<Employee>, number: Employee -> Option<int>)
    requires forall i | 0 <= i < |employees| :: number(employees[i]).None? || number(employees[i]).value <= 0
    ensures MaxNumber(employees, number) == 0
  {
    MaxNumberIsMaximum(employees, number);
  }

  /** The id that follows the largest id number `n`: `E` and `n + 1`,
      zero-padded to at least three digits. */
  function NextId(n: nat): (id: string)
    ensures |id| >= 4 && id[0] == 'E'
  {
    "E" + ZeroPad3(NatToString(n + 1))
  }

  /** With no id number above 0, in particular with no employee, the id
      handed out is `E001`. */
  lemma FirstId()
    ensures NextId(0) == "E001"
  {
    assert NatToString(1) == "1";
  }

  datatype Assignment = Assignment(employeeId: string, shiftId: string)

  /** The configuration object. `maxDailyHours` is `None` when the key is
      missing or `Number(...)` of it is `NaN`. */
  datatype Config = Config(maxDailyHours: Option<int>)
}
