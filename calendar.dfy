/**
 * Date (Date.cpp) and MyTime (MyTime.cpp): small objects whose setters
 * check a range, then assign one field.  A setter that throws
 * std::invalid_argument returns Fail(InvalidArgument) and changes nothing.
 */
module Calendar {
  import opened Results

  /** The value a Date holds, as copied into a weather record. */
  datatype CalendarDate = CalendarDate(day: int, month: int, year: int)

  /** The value a MyTime holds, as copied into a weather record. */
  datatype ClockTime = ClockTime(hour: int, minute: int)

  predicate ValidDay(d: int) { 1 <= d <= 31 }
  predicate ValidMonth(m: int) { 1 <= m <= 12 }
  predicate ValidHour(h: int) { 0 <= h <= 23 }
  predicate ValidMinute(m: int) { 0 <= m <= 59 }

  class Date {
    var day: int
    var month: int
    var year: int

    /** Date(): the deliberately invalid date -1/-1/-2000. */
    constructor ()
      ensures day == -1 && month == -1 && year == -2000
    {
      day, month, year := -1, -1, -2000;
    }

    /** The three getters together. */
    function Value(): CalendarDate
      reads this
    {
      CalendarDate(day, month, year)
    }

    /** SetDay(d): throws unless 1 <= d <= 31; no check against the month. */
    method SetDay(d: int) returns (r: Outcome)
      modifies this
      ensures r == if ValidDay(d) then Pass else Fail(InvalidArgument)
      ensures day == (if r.Pass? then d else old(day))
      ensures month == old(month) && year == old(year)
    {
      if d < 1 || d > 31 {
        return Fail(InvalidArgument);
      }
      day := d;
      return Pass;
    }

    /** SetMonth(m): throws unless 1 <= m <= 12. */
    method SetMonth(m: int) returns (r: Outcome)
      modifies this
      ensures r == if ValidMonth(m) then Pass else Fail(InvalidArgument)
      ensures month == (if r.Pass? then m else old(month))
      ensures day == old(day) && year == old(year)
    {
      if m < 1 || m > 12 {
        return Fail(InvalidArgument);
      }
      month := m;
      return Pass;
    }

    /** SetYear(y): any int is accepted. */
    method SetYear(y: int)
      modifies this
      ensures year == y
      ensures day == old(day) && month == old(month)
    {
      year := y;
    }
  }

  /** Day and month are checked separately, so 31 February is accepted. */
  method ThirtyFirstOfFebruary() returns (r: Outcome, d: CalendarDate)
    ensures r == Pass && d == CalendarDate(31, 2, -2000)
  {
    var date := new Date();
    var r1 := date.SetDay(31);
    var r2 := date.SetMonth(2);
    r := if r1.Pass? && r2.Pass? then Pass else Fail(InvalidArgument);
    d := date.Value();
  }

  class MyTime {
    var hour: int
    var minute: int

    /** The class invariant: a time of day between 0:00 and 23:59. */
    ghost predicate Valid()
      reads this
    {
      ValidHour(hour) && ValidMinute(minute)
    }

    /** MyTime(): 0:00. */
    constructor ()
      ensures Valid() && hour == 0 && minute == 0
    {
      hour, minute := 0, 0;
    }

    /** The two getters together. */
    function Value(): ClockTime
      reads this
    {
      ClockTime(hour, minute)
    }

    /** SetHour(h): throws unless 0 <= h <= 23. */
    method SetHour(h: int) returns (r: Outcome)
      requires Valid()
      modifies this
      ensures Valid()
      ensures r == if ValidHour(h) then Pass else Fail(InvalidArgument)
      ensures hour == (if r.Pass? then h else old(hour))
      ensures minute == old(minute)
    {
      if h < 0 || h > 23 {
        return Fail(InvalidArgument);
      }
      hour := h;
      return Pass;
    }

    /** SetMinute(m): throws unless 0 <= m <= 59. */
    method SetMinute(m: int) returns (r: Outcome)
      requires Valid()
      modifies this
      ensures Valid()
      ensures r == if ValidMinute(m) then Pass else Fail(InvalidArgument)
      ensures minute == (if r.Pass? then m else old(minute))
      ensures hour == old(hour)
    {
      if m < 0 || m > 59 {
        return Fail(InvalidArgument);
      }
      minute := m;
      return Pass;
    }
  }
}
