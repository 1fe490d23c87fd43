/**
 * FileHandler.cpp: reading the CSV header into a column map, turning one
 * CSV line into a WeatherEntry, and filing it under its "YYYY-MM" key in
 * both the ordered log map and the BST of keys; plus the dd/mm/yyyy and
 * hh:mm text forms of dates and times.
 */
module FileHandler {
  import opened Results
  import opened StdText
  import opened StreamScan
  import opened Calendar
  import opened Weather
  import opened LogMaps
  import opened SearchTrees
  import opened Vectors
  import opened DataUtils

  // ---- printDate / printTime ----

  /** printDate: day and month padded to two places, then the year, separated by '/'. */
  function FormatDate(d: CalendarDate): string
  {
    ZeroPadded(d.day) + "/" + ZeroPadded(d.month) + "/" + IntToString(d.year)
  }

  /** printTime: hour and minute padded to two places, separated by ':'. */
  function FormatTime(t: ClockTime): string
  {
    ZeroPadded(t.hour) + ":" + ZeroPadded(t.minute)
  }

  // ---- parseDate / parseTime ----

  /** The variables `day, slash, month, year` of parseDate after the extractions. */
  datatype DateTokens = DateTokens(day: int, slash: char, month: int, year: int)

  /** The variables `hour, colon, minute` of parseTime after the extractions. */
  datatype TimeTokens = TimeTokens(hour: int, colon: char, minute: int)

  /**
   * `ss >> day >> slash >> month >> slash >> year`: one `slash` variable
   * takes both separators, so only the second survives.  `junk` holds the
   * indeterminate values the variables start with.
   */
  function ScanDate(text: string, junk: DateTokens): DateTokens
  {
    var day := ExtractInt(Stream(text, true), junk.day);
    var sep1 := ExtractChar(day.stream, junk.slash);
    var month := ExtractInt(sep1.stream, junk.month);
    var sep2 := ExtractChar(month.stream, sep1.value);
    var year := ExtractInt(sep2.stream, junk.year);
    DateTokens(day.value, sep2.value, month.value, year.value)
  }

  /** `ss >> hour >> colon >> minute`, starting from the indeterminate values `junk`. */
  function ScanTime(text: string, junk: TimeTokens): TimeTokens
  {
    var hour := ExtractInt(Stream(text, true), junk.hour);
    var colon := ExtractChar(hour.stream, junk.colon);
    var minute := ExtractInt(colon.stream, junk.minute);
    TimeTokens(hour.value, colon.value, minute.value)
  }

  /** The outcome of parseDate once the extractions are done. */
  function DateOf(t: DateTokens): (r: Result<CalendarDate>)
    ensures r.Ok? ==> ValidDay(r.value.day) && ValidMonth(r.value.month)
  {
    if t.slash != '/' then Err(RuntimeError)
    else if !ValidDay(t.day) || !ValidMonth(t.month) then Err(InvalidArgument)
    else Ok(CalendarDate(t.day, t.month, t.year))
  }

  /** The outcome of parseTime once the extractions are done. */
  function TimeOf(t: TimeTokens): (r: Result<ClockTime>)
    ensures r.Ok? ==> ValidHour(r.value.hour) && ValidMinute(r.value.minute)
  {
    if t.colon != ':' then Err(RuntimeError)
    else if !ValidHour(t.hour) || !ValidMinute(t.minute) then Err(InvalidArgument)
    else Ok(ClockTime(t.hour, t.minute))
  }

  /**
   * parseDate: throws runtime_error unless the last separator read is '/',
   * then builds a Date through its checked setters (invalid_argument for a
   * day outside 1..31 or a month outside 1..12; any year).
   */
  method ParseDate(dateStr: string, junk: DateTokens) returns (r: Result<CalendarDate>)
    ensures r == DateOf(ScanDate(dateStr, junk))
    ensures r.Err? ==> r.error == (if ScanDate(dateStr, junk).slash != '/' then RuntimeError else InvalidArgument)
  {
    var tokens := ScanDate(dateStr, junk);
    if tokens.slash != '/' {
      return Err(RuntimeError);
    }
    var d := new Date();
    var outcome := d.SetDay(tokens.day);
    if outcome.Fail? {
      return Err(outcome.error);
    }
    outcome := d.SetMonth(tokens.month);
    if outcome.Fail? {
      return Err(outcome.error);
    }
    d.SetYear(tokens.year);
    return Ok(d.Value());
  }

  /**
   * parseTime: throws runtime_error unless the separator read is ':', then
   * builds a MyTime through its checked setters.
   */
  method ParseTime(timeStr: string, junk: TimeTokens) returns (r: Result<ClockTime>)
    ensures r == TimeOf(ScanTime(timeStr, junk))
    ensures r.Err? ==> r.error == (if ScanTime(timeStr, junk).colon != ':' then RuntimeError else InvalidArgument)
  {
    var tokens := ScanTime(timeStr, junk);
    if tokens.colon != ':' {
      return Err(RuntimeError);
    }
    var t := new MyTime();
    var outcome := t.SetHour(tokens.hour);
    if outcome.Fail? {
      return Err(outcome.error);
    }
    outcome := t.SetMinute(tokens.minute);
    if outcome.Fail? {
      return Err(outcome.error);
    }
    return Ok(t.Value());
  }

  /**
   * The first separator is never looked at: the printed form of a date with
   * any other visible non-digit in place of the first '/' (as in
   * "15-07/2025") still reads as that date.
   */
  lemma FirstSeparatorUnchecked(d: CalendarDate, sep: char, junk: DateTokens)
    requires ValidDay(d.day) && ValidMonth(d.month) && IntMin <= d.year <= IntMax
    requires !IsSpace(sep) && !IsDigit(sep)
    ensures ScanDate(ZeroPadded(d.day) + [sep] + ZeroPadded(d.month) + "/" + IntToString(d.year), junk)
      == DateTokens(d.day, '/', d.month, d.year)
    ensures DateOf(ScanDate(ZeroPadded(d.day) + [sep] + ZeroPadded(d.month) + "/" + IntToString(d.year), junk)) == Ok(d)
  {
    var yy := IntToString(d.year);
    ZeroPaddedTwoDigits(d.day);
    ZeroPaddedTwoDigits(d.month);
    ExtractPrinted(d.year, [], junk.year);
    assert yy + [] == yy;
    ScanDateFields(ZeroPadded(d.day), sep, ZeroPadded(d.month), yy, junk, d.year);
    DateTextRegroup(ZeroPadded(d.day), sep, ZeroPadded(d.month), yy);
  }

  /** The printed date regrouped from the right, the way the extractions consume it. */
  lemma DateTextRegroup(dd: string, sep: char, mm: string, yy: string)
    ensures dd + [sep] + mm + "/" + yy == dd + ([sep] + (mm + (['/'] + yy)))
  {
    assert [sep] + (mm + (['/'] + yy)) == [sep] + mm + "/" + yy;
  }

  /**
   * Two-digit day and month fields, any separator that is neither blank nor
   * a digit, a '/', and a year field the int extraction reads as `year`.
   */
  lemma ScanDateFields(dd: string, sep: char, mm: string, yy: string, junk: DateTokens, year: int)
    requires |dd| == 2 && AllDigits(dd) && |mm| == 2 && AllDigits(mm)
    requires !IsSpace(sep) && !IsDigit(sep)
    requires ExtractInt(Stream(yy, true), junk.year).value == year
    ensures ScanDate(dd + ([sep] + (mm + (['/'] + yy))), junk) == DateTokens(DigitsValue(dd), '/', DigitsValue(mm), year)
  {
    var afterSep1 := mm + (['/'] + yy);
    var text := dd + ([sep] + afterSep1);
    DigitsThenSeparator(dd, sep, afterSep1, junk.day, junk.slash);
    DigitsThenSeparator(mm, '/', yy, junk.month, sep);
    ScanDateOfSteps(text, junk, Stream([sep] + afterSep1, true), Stream(afterSep1, true), Stream(['/'] + yy, true),
                    Stream(yy, true), DigitsValue(dd), sep, DigitsValue(mm), year);
  }

  /** ScanDate read off its five extractions, one at a time. */
  lemma ScanDateOfSteps(text: string, junk: DateTokens, s1: Stream, s2: Stream, s3: Stream, s4: Stream,
                        day: int, sep: char, month: int, year: int)
    requires ExtractInt(Stream(text, true), junk.day) == Extracted(s1, day)
    requires ExtractChar(s1, junk.slash) == Extracted(s2, sep)
    requires ExtractInt(s2, junk.month) == Extracted(s3, month)
    requires ExtractChar(s3, sep) == Extracted(s4, '/')
    requires ExtractInt(s4, junk.year).value == year
    ensures ScanDate(text, junk) == DateTokens(day, '/', month, year)
  {
  }

  /** Two digits and a separator: the int takes the digits, the char takes the separator. */
  lemma DigitsThenSeparator(ds: string, sep: char, rest: string, priorInt: int, priorChar: char)
    requires |ds| == 2 && AllDigits(ds) && !IsSpace(sep) && !IsDigit(sep)
    ensures ExtractInt(Stream(ds + ([sep] + rest), true), priorInt) == Extracted(Stream([sep] + rest, true), DigitsValue(ds))
    ensures ExtractChar(Stream([sep] + rest, true), priorChar) == Extracted(Stream(rest, true), sep)
  {
    assert ds[..1][..0] == [];
    assert DigitsValue(ds[..1]) <= 9;
    ExtractDigits(ds, [sep] + rest, priorInt);
    ExtractCharAt(sep, rest, priorChar);
  }

  /** Parsing what printDate writes gives the date back, whatever the variables held before. */
  lemma PrintedDateParses(d: CalendarDate, junk: DateTokens)
    requires ValidDay(d.day) && ValidMonth(d.month) && IntMin <= d.year <= IntMax
    ensures ScanDate(FormatDate(d), junk) == DateTokens(d.day, '/', d.month, d.year)
    ensures DateOf(ScanDate(FormatDate(d), junk)) == Ok(d)
  {
    FirstSeparatorUnchecked(d, '/', junk);
    assert FormatDate(d) == ZeroPadded(d.day) + ['/'] + ZeroPadded(d.month) + "/" + IntToString(d.year);
  }

  /** Parsing what printTime writes gives the time back. */
  lemma PrintedTimeParses(t: ClockTime, junk: TimeTokens)
    requires ValidHour(t.hour) && ValidMinute(t.minute)
    ensures ScanTime(FormatTime(t), junk) == TimeTokens(t.hour, ':', t.minute)
    ensures TimeOf(ScanTime(FormatTime(t), junk)) == Ok(t)
  {
    var hh, mm := ZeroPadded(t.hour), ZeroPadded(t.minute);
    ZeroPaddedTwoDigits(t.hour);
    ZeroPaddedTwoDigits(t.minute);
    var afterHour := ":" + mm;
    assert FormatTime(t) == hh + afterHour;
    var hour := ExtractInt(Stream(FormatTime(t), true), junk.hour);
    ExtractDigits(hh, afterHour, junk.hour);
    assert hour == Extracted(Stream(afterHour, true), t.hour);
    var colon := ExtractChar(hour.stream, junk.colon);
    ExtractCharAt(':', mm, junk.colon);
    assert colon == Extracted(Stream(mm, true), ':');
    var minute := ExtractInt(colon.stream, junk.minute);
    ExtractDigits(mm, [], junk.minute);
    assert mm + [] == mm;
    assert minute.value == t.minute;
  }

  /**
   * With no year in the text the extraction of the year never happens and
   * the year keeps whatever its variable held: "15/07" is accepted.
   */
  lemma MissingYearKeepsItsValue(day: int, month: int, junk: DateTokens)
    requires ValidDay(day) && ValidMonth(month)
    ensures DateOf(ScanDate(ZeroPadded(day) + "/" + ZeroPadded(month), junk)) == Ok(CalendarDate(day, month, junk.year))
  {
    var dd, mm := ZeroPadded(day), ZeroPadded(month);
    ZeroPaddedTwoDigits(day);
    ZeroPaddedTwoDigits(month);
    var afterDay := "/" + mm;
    var text := dd + afterDay;
    assert ZeroPadded(day) + "/" + ZeroPadded(month) == text;
    var first := ExtractInt(Stream(text, true), junk.day);
    ExtractDigits(dd, afterDay, junk.day);
    assert first == Extracted(Stream(afterDay, true), day);
    var sep1 := ExtractChar(first.stream, junk.slash);
    ExtractCharAt('/', mm, junk.slash);
    assert sep1 == Extracted(Stream(mm, true), '/');
    var second := ExtractInt(sep1.stream, junk.month);
    ExtractDigits(mm, [], junk.month);
    assert mm + [] == mm;
    assert second == Extracted(Stream([], false), month);
    var sep2 := ExtractChar(second.stream, sep1.value);
    assert sep2 == Extracted(Stream([], false), '/');
    var third := ExtractInt(sep2.stream, junk.year);
    assert ScanDate(text, junk) == DateTokens(first.value, sep2.value, second.value, third.value);
    assert third.value == junk.year;
  }

  // ---- buildColumnMap ----

  /**
   * buildColumnMap: each comma-separated header cell maps to its position;
   * a name that occurs twice keeps its last position.
   */
  method BuildColumnMap(header: string) returns (colMap: map<string, int>)
    ensures forall name :: name in colMap <==> name in Split(header, ',')
    ensures forall name :: name in colMap ==> LastAt(Split(header, ','), |Split(header, ',')|, name, colMap[name])
  {
    ghost var cells := Split(header, ',');
    colMap := map[];
    var rest := header;
    var idx := 0;
    while rest != []
      invariant 0 <= idx <= |cells| && Split(rest, ',') == cells[idx..]
      invariant ColumnsUpTo(cells, idx, colMap)
      decreases |rest|
    {
      var col := Before(rest, ',');
      ColumnLoopStep(cells, idx, rest, colMap);
      rest := After(rest, ',');
      colMap := colMap[col := idx];
      idx := idx + 1;
    }
    ColumnsComplete(cells, idx, colMap);
  }

  /** One turn of buildColumnMap's loop keeps its invariant. */
  lemma ColumnLoopStep(cells: seq<string>, idx: int, rest: string, colMap: map<string, int>)
    requires 0 <= idx <= |cells| && rest != [] && Split(rest, ',') == cells[idx..]
    requires ColumnsUpTo(cells, idx, colMap)
    ensures idx < |cells| && Split(After(rest, ','), ',') == cells[idx + 1..]
    ensures ColumnsUpTo(cells, idx + 1, colMap[Before(rest, ',') := idx])
  {
    NextCell(cells, idx, rest);
    ColumnStep(cells, idx, colMap);
  }

  /** Once the header is used up, every cell has been mapped. */
  lemma ColumnsComplete(cells: seq<string>, idx: int, colMap: map<string, int>)
    requires 0 <= idx <= |cells| && Split([], ',') == cells[idx..]
    requires ColumnsUpTo(cells, idx, colMap)
    ensures forall name :: name in colMap <==> name in cells
    ensures forall name :: name in colMap ==> LastAt(cells, |cells|, name, colMap[name])
  {
    assert cells[..idx] == cells;
  }

  /** While header text remains, the next getline reads the cell at position idx. */
  lemma NextCell(cells: seq<string>, idx: int, rest: string)
    requires 0 <= idx <= |cells| && rest != [] && Split(rest, ',') == cells[idx..]
    ensures idx < |cells| && cells[idx] == Before(rest, ',') && cells[idx + 1..] == Split(After(rest, ','), ',')
  {
    SplitStep(rest, ',');
  }

  /** colMap as the loop leaves it after the first `end` cells. */
  ghost predicate ColumnsUpTo(cells: seq<string>, end: int, colMap: map<string, int>)
    requires 0 <= end <= |cells|
  {
    (forall name :: name in colMap <==> name in cells[..end]) &&
    (forall name :: name in colMap ==> LastAt(cells, end, name, colMap[name]))
  }

  /** One more header cell: its name now maps to its position. */
  lemma ColumnStep(cells: seq<string>, idx: int, colMap: map<string, int>)
    requires 0 <= idx < |cells| && ColumnsUpTo(cells, idx, colMap)
    ensures ColumnsUpTo(cells, idx + 1, colMap[cells[idx] := idx])
  {
    var next := colMap[cells[idx] := idx];
    assert cells[..idx + 1] == cells[..idx] + [cells[idx]];
    forall name | name in next
      ensures LastAt(cells, idx + 1, name, next[name])
    {
      if name != cells[idx] {
        assert LastAt(cells, idx, name, colMap[name]);
      }
    }
  }

  /** Position i holds `name`, and no later position before `end` does. */
  ghost predicate LastAt(cells: seq<string>, end: int, name: string, i: int)
  {
    0 <= i < end <= |cells| && cells[i] == name && forall j :: i < j < end ==> cells[j] != name
  }

  // ---- processCSVLine ----

  /**
   * What the model takes from outside: std::stof on a non-empty cell (a
   * reading, NaN for the text "nan", or the exception it throws), and the
   * indeterminate initial values of parseDate's and parseTime's variables.
   */
  datatype Externals = Externals(stof: string -> Result<Reading>, dateJunk: DateTokens, timeJunk: TimeTokens)

  /** `fields[colMap.at(name)]`: out_of_range for an unknown column or an index past the row. */
  function CellAt(fields: seq<string>, colMap: map<string, int>, name: string): (r: Result<string>)
    ensures r.Ok? <==> name in colMap && 0 <= colMap[name] < |fields|
    ensures r.Ok? ==> r.value == fields[colMap[name]]
    ensures r.Err? ==> r.error == OutOfRange
  {
    if name !in colMap || colMap[name] < 0 || colMap[name] >= |fields| then Err(OutOfRange)
    else Ok(fields[colMap[name]])
  }

  /** `cell.empty() ? NAN : std::stof(cell)`. */
  function ReadingOf(cell: string, stof: string -> Result<Reading>): Result<Reading>
  {
    if cell == [] then Ok(None) else stof(cell)
  }

  /** The reading in column `name`, or the exception reading it throws. */
  function ReadingAt(fields: seq<string>, colMap: map<string, int>, name: string, stof: string -> Result<Reading>): Result<Reading>
  {
    match CellAt(fields, colMap, name)
    case Err(e) => Err(e)
    case Ok(cell) => ReadingOf(cell, stof)
  }

  /** getline(dts, datePart, ' '): the text before the first space. */
  function DatePart(dateTime: string): string { Before(dateTime, ' ') }

  /** The following getline(dts, timePart): the rest of the line after that space. */
  function TimePart(dateTime: string): string { Before(After(dateTime, ' '), '\n') }

  /**
   * The record a row of cells yields, or None when any step of the `try`
   * block throws and the line is skipped.
   */
  function ParseRecord(fields: seq<string>, colMap: map<string, int>, ext: Externals): (r: Option<WeatherEntry>)
    ensures r.Some? ==> ValidDay(r.value.date.day) && ValidMonth(r.value.date.month)
    ensures r.Some? ==> ValidHour(r.value.time.hour) && ValidMinute(r.value.time.minute)
    ensures r.Some? ==> forall name :: name in ["WAST", "S", "T", "SR"] ==> name in colMap && 0 <= colMap[name] < |fields|
  {
    match CellAt(fields, colMap, "WAST")
    case Err(_) => None
    case Ok(dateTime) =>
      match DateOf(ScanDate(DatePart(dateTime), ext.dateJunk))
      case Err(_) => None
      case Ok(date) =>
        match TimeOf(ScanTime(TimePart(dateTime), ext.timeJunk))
        case Err(_) => None
        case Ok(time) =>
          match ReadingAt(fields, colMap, "S", ext.stof)
          case Err(_) => None
          case Ok(wind) =>
            match ReadingAt(fields, colMap, "T", ext.stof)
            case Err(_) => None
            case Ok(temp) =>
              match ReadingAt(fields, colMap, "SR", ext.stof)
              case Err(_) => None
              case Ok(solar) => Some(WeatherEntry(date, time, wind, temp, solar))
  }

  /** The "YYYY-MM" key a record is filed under. */
  function EntryKey(w: WeatherEntry): string
  {
    YearMonthKey(w.date.year, w.date.month)
  }

  /** An empty reading cell is a missing reading, not a skipped line. */
  lemma EmptyCellIsMissing(fields: seq<string>, colMap: map<string, int>, name: string, stof: string -> Result<Reading>)
    requires CellAt(fields, colMap, name) == Ok("")
    ensures ReadingAt(fields, colMap, name, stof) == Ok(None)
  {
  }

  /**
   * A row whose "WAST" cell is a printed date and time, separated by one
   * space, and whose reading cells all convert, yields exactly that record.
   */
  lemma WellFormedRowAccepted(fields: seq<string>, colMap: map<string, int>, ext: Externals,
                              d: CalendarDate, t: ClockTime, wind: Reading, temp: Reading, solar: Reading)
    requires ValidDay(d.day) && ValidMonth(d.month) && IntMin <= d.year <= IntMax
    requires ValidHour(t.hour) && ValidMinute(t.minute)
    requires CellAt(fields, colMap, "WAST") == Ok(FormatDate(d) + " " + FormatTime(t))
    requires ReadingAt(fields, colMap, "S", ext.stof) == Ok(wind)
    requires ReadingAt(fields, colMap, "T", ext.stof) == Ok(temp)
    requires ReadingAt(fields, colMap, "SR", ext.stof) == Ok(solar)
    ensures ParseRecord(fields, colMap, ext) == Some(WeatherEntry(d, t, wind, temp, solar))
  {
    var date, time := FormatDate(d), FormatTime(t);
    PrintedDateHasNoSpace(d);
    PrintedTimeHasNoNewline(t);
    DateTimeParts(date, time);
    PrintedDateParses(d, ext.dateJunk);
    PrintedTimeParses(t, ext.timeJunk);
  }

  /** printDate writes no space, so the date part of the cell ends where it does. */
  lemma PrintedDateHasNoSpace(d: CalendarDate)
    ensures ' ' !in FormatDate(d)
  {
    var date := FormatDate(d);
    PrintedChars(d.day);
    PrintedChars(d.month);
    PrintedChars(d.year);
    assert date == ZeroPadded(d.day) + "/" + ZeroPadded(d.month) + "/" + IntToString(d.year);
    forall i | 0 <= i < |date|
      ensures date[i] != ' '
    {
      var a, b := |ZeroPadded(d.day)|, |ZeroPadded(d.month)|;
      if i < a {
        assert date[i] == ZeroPadded(d.day)[i];
      } else if i == a {
      } else if i < a + 1 + b {
        assert date[i] == ZeroPadded(d.month)[i - a - 1];
      } else if i == a + 1 + b {
      } else {
        assert date[i] == IntToString(d.year)[i - a - b - 2];
      }
    }
  }

  /** printTime writes no line break, so the time part is the whole rest of the cell. */
  lemma PrintedTimeHasNoNewline(t: ClockTime)
    ensures '\n' !in FormatTime(t)
  {
    var time := FormatTime(t);
    PrintedChars(t.hour);
    PrintedChars(t.minute);
    forall i | 0 <= i < |time|
      ensures time[i] != '\n'
    {
      var a := |ZeroPadded(t.hour)|;
      if i < a {
        assert time[i] == ZeroPadded(t.hour)[i];
      } else if i > a {
        assert time[i] == ZeroPadded(t.minute)[i - a - 1];
      }
    }
  }

  /** A cell "date time" with no space in the date and no line break in the time splits back into the two. */
  lemma DateTimeParts(date: string, time: string)
    requires ' ' !in date && '\n' !in time
    ensures DatePart(date + " " + time) == date && TimePart(date + " " + time) == time
  {
    SplitAtFirst(date, ' ', time);
    assert date + " " + time == date + [' '] + time;
    BeforeWithoutDelimiter(time, '\n');
  }

  /** `fields[colMap.at(name)]` on the Vector of cells. */
  method ReadCell(fields: Vector<string>, colMap: map<string, int>, name: string) returns (r: Result<string>)
    requires fields.Valid()
    ensures r == CellAt(fields.Elements(), colMap, name)
  {
    if name !in colMap {
      return Err(OutOfRange);
    }
    r := fields.Get(colMap[name]);
  }

  /** `cell.empty() ? NAN : std::stof(cell)` for the cell in column `name`. */
  method ReadReading(fields: Vector<string>, colMap: map<string, int>, name: string, stof: string -> Result<Reading>)
    returns (r: Result<Reading>)
    requires fields.Valid()
    ensures r == ReadingAt(fields.Elements(), colMap, name, stof)
  {
    var cell := ReadCell(fields, colMap, name);
    if cell.Err? {
      return Err(cell.error);
    }
    if cell.value == [] {
      return Ok(None);
    }
    r := stof(cell.value);
  }

  /** The cell-splitting loop of processCSVLine: `getline(ss, cell, ',')` pushed into a Vector. */
  method SplitCells(line: string) returns (fields: Vector<string>)
    ensures fresh(fields) && fresh(fields.data) && fields.Valid()
    ensures fields.Elements() == Split(line, ',')
  {
    fields := new Vector<string>(1);
    var rest := line;
    while rest != []
      invariant fields.Valid() && fresh(fields) && fresh(fields.data)
      invariant fields.Elements() + Split(rest, ',') == Split(line, ',')
      decreases |rest|
    {
      SplitResume(fields.Elements(), rest, line, ',');
      fields.PushBack(Before(rest, ','));
      rest := After(rest, ',');
    }
  }

  /** The parsing part of processCSVLine's `try` block: the record, or None where it throws. */
  method BuildRecord(fields: Vector<string>, colMap: map<string, int>, ext: Externals) returns (r: Option<WeatherEntry>)
    requires fields.Valid()
    ensures r == ParseRecord(fields.Elements(), colMap, ext)
  {
    var dateTime := ReadCell(fields, colMap, "WAST");
    if dateTime.Err? {
      return None;
    }
    var date := ParseDate(DatePart(dateTime.value), ext.dateJunk);
    if date.Err? {
      return None;
    }
    var time := ParseTime(TimePart(dateTime.value), ext.timeJunk);
    if time.Err? {
      return None;
    }
    var wind := ReadReading(fields, colMap, "S", ext.stof);
    if wind.Err? {
      return None;
    }
    var temp := ReadReading(fields, colMap, "T", ext.stof);
    if temp.Err? {
      return None;
    }
    var solar := ReadReading(fields, colMap, "SR", ext.stof);
    if solar.Err? {
      return None;
    }
    return Some(WeatherEntry(date.value, time.value, wind.value, temp.value, solar.value));
  }

  /**
   * processCSVLine: split the line at commas into a Vector of cells, build
   * the record, append it to the log under its key and add the key to the
   * tree when it is new; any exception skips the line and changes nothing.
   * Returns the new log map (the source updates it through a reference).
   */
  method ProcessCsvLine(line: string, colMap: map<string, int>, tree: BST, dataMap: LogMap, ext: Externals)
    returns (newMap: LogMap)
    requires tree.Valid() && Ordered(dataMap)
    modifies tree
    ensures tree.Valid() && Ordered(newMap)
    ensures ParseRecord(Split(line, ','), colMap, ext).None? ==> newMap == dataMap && tree.root == old(tree.root)
    ensures ParseRecord(Split(line, ','), colMap, ext).Some? ==>
      var w := ParseRecord(Split(line, ','), colMap, ext).value;
      newMap == AppendRecord(dataMap, EntryKey(w), w) && tree.root == InsertNode(old(tree.root), EntryKey(w)) &&
      Keys(tree.root) == old(Keys(tree.root)) + {EntryKey(w)} &&
      (EntryKey(w) in old(Keys(tree.root)) ==> tree.root == old(tree.root))
    ensures old(Keys(tree.root)) == KeySet(dataMap) ==> Keys(tree.root) == KeySet(newMap)
    ensures NoEmptyLog(dataMap) ==> NoEmptyLog(newMap)
  {
    var fields := SplitCells(line);
    var record := BuildRecord(fields, colMap, ext);
    if record.None? {
      return dataMap;
    }
    var w := record.value;
    var key := YearMonthKey(w.date.year, w.date.month);
    AppendKeepsOrder(dataMap, key, w);
    if NoEmptyLog(dataMap) {
      AppendKeepsLogsNonEmpty(dataMap, key, w);
    }
    newMap := AppendRecord(dataMap, key, w);
    FileKey(tree, key);
  }

  /** `if (!dateTree.search(key)) dateTree.insert(key);`: the same tree as inserting the key outright. */
  method FileKey(tree: BST, key: string)
    requires tree.Valid()
    modifies tree
    ensures tree.Valid() && tree.root == InsertNode(old(tree.root), key)
    ensures Keys(tree.root) == old(Keys(tree.root)) + {key}
    ensures key in old(Keys(tree.root)) ==> tree.root == old(tree.root)
  {
    var found := tree.Search(key);
    if !found {
      tree.Insert(key);
    } else {
      SearchFindsKeys(tree.root, key);
      InsertFoundUnchanged(tree.root, key);
    }
  }
}
