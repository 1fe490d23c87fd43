/**
 * DataUtils.cpp: looking up the records of one month, and pulling the
 * readings of one kind out of a run of records into a Vector.
 */
module DataUtils {
  import opened Results
  import opened StdText
  import opened Weather
  import opened LogMaps
  import opened Vectors

  /** The "YYYY-MM" grouping key: the year, a dash, the month padded to two places. */
  function YearMonthKey(year: int, month: int): string
  {
    IntToString(year) + "-" + ZeroPadded(month)
  }

  /** For a four-digit year and a month below 100 the key is exactly "YYYY-MM". */
  lemma KeyLayout(year: int, month: int)
    requires 1000 <= year <= 9999 && 0 <= month <= 99
    ensures |YearMonthKey(year, month)| == 7 && YearMonthKey(year, month)[4] == '-'
    ensures YearMonthKey(year, month)[..4] == IntToString(year)
    ensures YearMonthKey(year, month)[5..] == ZeroPadded(month)
    ensures AllDigits(YearMonthKey(year, month)[5..7])
  {
    FourDigitLength(year);
    ZeroPaddedTwoDigits(month);
    var key := YearMonthKey(year, month);
    assert key[5..7] == key[5..] == ZeroPadded(month);
  }

  /** Distinct (year, month) pairs get distinct keys. */
  lemma KeyInjective(year1: int, month1: int, year2: int, month2: int)
    requires 0 <= month1 <= 99 && 0 <= month2 <= 99
    requires YearMonthKey(year1, month1) == YearMonthKey(year2, month2)
    ensures year1 == year2 && month1 == month2
  {
    ZeroPaddedTwoDigits(month1);
    ZeroPaddedTwoDigits(month2);
    var k1, k2 := YearMonthKey(year1, month1), YearMonthKey(year2, month2);
    assert k1[|k1| - 2..] == ZeroPadded(month1);
    assert k2[|k2| - 2..] == ZeroPadded(month2);
    assert k1[..|k1| - 3] == IntToString(year1);
    assert k2[..|k2| - 3] == IntToString(year2);
    IntToStringInjective(year1, year2);
  }

  /** `std::stoi(key.substr(5, 2))`: the month a key names, or the exception it raises. */
  function MonthOfKey(key: string): Result<int>
  {
    match Substr(key, 5, 2)
    case Err(e) => Err(e)
    case Ok(piece) => Stoi(piece)
  }

  /** A key with two digits at positions 5 and 6 names the month they spell. */
  lemma MonthOfTwoDigitKey(key: string)
    requires |key| >= 7 && AllDigits(key[5..7])
    ensures MonthOfKey(key) == Ok(DigitsValue(key[5..7]))
  {
    assert Substr(key, 5, 2) == Ok(key[5..7]);
    StoiTwoDigits(key[5..7]);
  }

  /** Reading the month back out of a key gives the month it was built from. */
  lemma KeyMonthRoundTrip(year: int, month: int)
    requires 1000 <= year <= 9999 && 0 <= month <= 99
    ensures MonthOfKey(YearMonthKey(year, month)) == Ok(month)
  {
    var key := YearMonthKey(year, month);
    KeyLayout(year, month);
    assert key[5..7] == ZeroPadded(month);
    ZeroPaddedTwoDigits(month);
    MonthOfTwoDigitKey(key);
  }

  /** getRecordsByYearMonth: the log stored under the year's and month's key, or an empty log. */
  function RecordsByYearMonth(m: LogMap, year: int, month: int): (log: seq<WeatherEntry>)
    ensures YearMonthKey(year, month) !in KeySet(m) ==> log == []
    ensures forall i :: 0 <= i < |m| && m[i].key == YearMonthKey(year, month) && Ordered(m) ==> log == m[i].log
  {
    var key := YearMonthKey(year, month);
    KeySetMembers(m, key);
    match Find(m, key)
    case None => []
    case Some(log) =>
      assert forall i :: 0 <= i < |m| && m[i].key == key && Ordered(m) ==> Find(m, key) == Some(m[i].log) by {
        forall i | 0 <= i < |m| && m[i].key == key && Ordered(m) {
          FindBound(m, i);
        }
      }
      log
  }

  /**
   * The loop of getRecordsByMonth with the month of a key read by
   * `monthOf`: walking the keys in order, the log of the first key whose
   * month is `month`; an empty log when none is; the exception of the
   * first key whose month cannot be read.
   */
  function FirstOfMonth(m: LogMap, month: int, monthOf: string -> Result<int>): Result<seq<WeatherEntry>>
  {
    if m == [] then Ok([])
    else
      match monthOf(m[0].key)
      case Err(e) => Err(e)
      case Ok(found) => if found == month then Ok(m[0].log) else FirstOfMonth(m[1..], month, monthOf)
  }

  /** getRecordsByMonth: the month of a key is `std::stoi(key.substr(5, 2))`. */
  function RecordsByMonth(m: LogMap, month: int): Result<seq<WeatherEntry>>
  {
    FirstOfMonth(m, month, MonthOfKey)
  }

  /**
   * The walk stops at position i: every earlier key names another month;
   * at i either the key names `month` and its log is the answer, or reading
   * the month fails and that is the answer; i == |m| means the empty log.
   */
  lemma {:induction false} FirstOfMonthStops(m: LogMap, month: int, monthOf: string -> Result<int>) returns (i: int)
    ensures 0 <= i <= |m|
    ensures forall j :: 0 <= j < i ==> monthOf(m[j].key).Ok? && monthOf(m[j].key).value != month
    ensures i == |m| ==> FirstOfMonth(m, month, monthOf) == Ok([])
    ensures i < |m| && monthOf(m[i].key).Ok? ==>
      monthOf(m[i].key).value == month && FirstOfMonth(m, month, monthOf) == Ok(m[i].log)
    ensures i < |m| && monthOf(m[i].key).Err? ==> FirstOfMonth(m, month, monthOf) == Err(monthOf(m[i].key).error)
  {
    if m == [] {
      i := 0;
    } else if monthOf(m[0].key).Err? || monthOf(m[0].key).value == month {
      i := 0;
    } else {
      var tail := m[1..];
      var rest := FirstOfMonthStops(tail, month, monthOf);
      i := rest + 1;
      forall j | 0 < j < i
        ensures m[j] == tail[j - 1]
      {
      }
    }
  }

  /** FirstOfMonthStops for the month reading getRecordsByMonth uses. */
  lemma RecordsByMonthStops(m: LogMap, month: int) returns (i: int)
    ensures 0 <= i <= |m|
    ensures forall j :: 0 <= j < i ==> MonthOfKey(m[j].key).Ok? && MonthOfKey(m[j].key).value != month
    ensures i == |m| ==> RecordsByMonth(m, month) == Ok([])
    ensures i < |m| && MonthOfKey(m[i].key).Ok? ==>
      MonthOfKey(m[i].key).value == month && RecordsByMonth(m, month) == Ok(m[i].log)
    ensures i < |m| && MonthOfKey(m[i].key).Err? ==> RecordsByMonth(m, month) == Err(MonthOfKey(m[i].key).error)
  {
    i := FirstOfMonthStops(m, month, MonthOfKey);
  }

  /** Keys carrying two month digits never make the walk fail. */
  lemma {:induction false} RecordsByMonthSucceeds(m: LogMap, month: int)
    requires forall j :: 0 <= j < |m| ==> |m[j].key| >= 7 && AllDigits(m[j].key[5..7])
    ensures RecordsByMonth(m, month).Ok?
  {
    if m != [] {
      MonthOfTwoDigitKey(m[0].key);
      RecordsByMonthSucceeds(m[1..], month);
    }
  }

  /** Only the first year's log is returned: the same month of a later year is not merged in. */
  lemma RecordsByMonthFirstYearOnly(year1: int, year2: int, month: int, first: seq<WeatherEntry>, second: seq<WeatherEntry>)
    requires 1000 <= year1 <= 9999 && 0 <= month <= 99
    ensures RecordsByMonth([Binding(YearMonthKey(year1, month), first), Binding(YearMonthKey(year2, month), second)], month) == Ok(first)
  {
    KeyMonthRoundTrip(year1, month);
  }

  /** extractWindSpeeds: every record's wind speed, in order, NaN included. */
  method ExtractWindSpeeds(records: seq<WeatherEntry>) returns (wind: Vector<Reading>)
    ensures fresh(wind) && fresh(wind.data) && wind.Valid()
    ensures |wind.Elements()| == |records|
    ensures forall i :: 0 <= i < |records| ==> wind.Elements()[i] == records[i].windSpeed
  {
    wind := new Vector<Reading>(1);
    var i := 0;
    while i < |records|
      invariant 0 <= i <= |records|
      invariant fresh(wind) && fresh(wind.data) && wind.Valid()
      invariant |wind.Elements()| == i
      invariant forall j :: 0 <= j < i ==> wind.Elements()[j] == records[j].windSpeed
    {
      wind.PushBack(records[i].windSpeed);
      i := i + 1;
    }
  }

  /** extractTemperatures: every record's temperature, in order, NaN included. */
  method ExtractTemperatures(records: seq<WeatherEntry>) returns (temp: Vector<Reading>)
    ensures fresh(temp) && fresh(temp.data) && temp.Valid()
    ensures |temp.Elements()| == |records|
    ensures forall i :: 0 <= i < |records| ==> temp.Elements()[i] == records[i].temperature
  {
    temp := new Vector<Reading>(1);
    var i := 0;
    while i < |records|
      invariant 0 <= i <= |records|
      invariant fresh(temp) && fresh(temp.data) && temp.Valid()
      invariant |temp.Elements()| == i
      invariant forall j :: 0 <= j < i ==> temp.Elements()[j] == records[j].temperature
    {
      temp.PushBack(records[i].temperature);
      i := i + 1;
    }
  }

  /** extractSolarRadiation: the solar readings that are present and at least 100, in record order. */
  method ExtractSolarRadiation(records: seq<WeatherEntry>) returns (solar: Vector<Reading>)
    ensures fresh(solar) && fresh(solar.data) && solar.Valid()
    ensures solar.Elements() == Select(records, HasSolar, SolarOf)
    ensures forall x :: x in solar.Elements() ==> SolarCounts(x)
    ensures |solar.Elements()| <= |records|
  {
    solar := new Vector<Reading>(1);
    var i := 0;
    while i < |records|
      invariant 0 <= i <= |records|
      invariant fresh(solar) && fresh(solar.data) && solar.Valid()
      invariant solar.Elements() == Select(records[..i], HasSolar, SolarOf)
    {
      SelectStep(records, i, HasSolar, SolarOf);
      var sr := records[i].solarRadiation;
      if sr.Some? && sr.value >= 100.0 {
        solar.PushBack(sr);
      }
      i := i + 1;
    }
    assert records[..i] == records;
    SolarSelectionCounts(records);
    SelectionsPair(records, HasSolar, SolarOf, SolarOf);
  }

  /** The readings 50, 150, NaN and 100 keep 150 and 100. */
  lemma SolarSelectionExample(at: WeatherEntry)
    ensures Select([at.(solarRadiation := Some(50.0)), at.(solarRadiation := Some(150.0)),
                    at.(solarRadiation := None), at.(solarRadiation := Some(100.0))], HasSolar, SolarOf)
      == [Some(150.0), Some(100.0)]
  {
    var records := [at.(solarRadiation := Some(50.0)), at.(solarRadiation := Some(150.0)),
                    at.(solarRadiation := None), at.(solarRadiation := Some(100.0))];
    assert records[..0] == [];
    SelectStep(records, 0, HasSolar, SolarOf);
    SelectStep(records, 1, HasSolar, SolarOf);
    SelectStep(records, 2, HasSolar, SolarOf);
    SelectStep(records, 3, HasSolar, SolarOf);
    assert records[..4] == records;
  }
}
