/**
 * WeatherEntry (WeatherEntry.h): one CSV row — a date, a time and three
 * float readings, where NaN marks a missing reading (here: None).
 * Also the selection of readings from a run of records, which the
 * extract* helpers and the correlation menu perform with loops.
 */
module Weather {
  import opened Results
  import opened Calendar

  /** A float reading; None stands for NaN. */
  type Reading = Option<real>

  datatype WeatherEntry = WeatherEntry(
    date: CalendarDate,
    time: ClockTime,
    windSpeed: Reading,
    temperature: Reading,
    solarRadiation: Reading)

  function WindOf(e: WeatherEntry): Reading { e.windSpeed }
  function TemperatureOf(e: WeatherEntry): Reading { e.temperature }
  function SolarOf(e: WeatherEntry): Reading { e.solarRadiation }

  /** `!isnan(r) && r >= 100`: a solar reading the program counts. */
  predicate SolarCounts(r: Reading) { r.Some? && r.value >= 100.0 }

  predicate HasSolar(e: WeatherEntry) { SolarCounts(e.solarRadiation) }
  predicate HasWindAndTemperature(e: WeatherEntry) { e.windSpeed.Some? && e.temperature.Some? }
  predicate HasWindAndSolar(e: WeatherEntry) { e.windSpeed.Some? && SolarCounts(e.solarRadiation) }
  predicate HasTemperatureAndSolar(e: WeatherEntry) { e.temperature.Some? && SolarCounts(e.solarRadiation) }

  /** The field of each record that passes `keep`, in record order. */
  function Select(records: seq<WeatherEntry>, keep: WeatherEntry -> bool, field: WeatherEntry -> Reading): seq<Reading>
  {
    if records == [] then []
    else
      var last := records[|records| - 1];
      Select(records[..|records| - 1], keep, field) + if keep(last) then [field(last)] else []
  }

  /** The positions of the records that pass `keep`, in record order. */
  function Picked(records: seq<WeatherEntry>, keep: WeatherEntry -> bool): seq<int>
  {
    if records == [] then []
    else
      var n := |records| - 1;
      Picked(records[..n], keep) + if keep(records[n]) then [n] else []
  }

  /** Picked lists exactly the positions of the passing records, in ascending order. */
  lemma PickedIsAscendingAndExact(records: seq<WeatherEntry>, keep: WeatherEntry -> bool)
    ensures forall j :: 0 <= j < |Picked(records, keep)| ==> 0 <= Picked(records, keep)[j] < |records|
    ensures forall j, j' :: 0 <= j < j' < |Picked(records, keep)| ==> Picked(records, keep)[j] < Picked(records, keep)[j']
    ensures forall i :: 0 <= i < |records| ==> (keep(records[i]) <==> i in Picked(records, keep))
  {
    PickedInRange(records, keep);
    PickedAscending(records, keep);
    PickedExact(records, keep);
  }

  /** Every kept position is a position of `records`. */
  lemma {:induction false} PickedInRange(records: seq<WeatherEntry>, keep: WeatherEntry -> bool)
    ensures forall j :: 0 <= j < |Picked(records, keep)| ==> 0 <= Picked(records, keep)[j] < |records|
  {
    if records != [] {
      var n := |records| - 1;
      PickedInRange(records[..n], keep);
    }
  }

  /** The kept positions strictly ascend. */
  lemma {:induction false} PickedAscending(records: seq<WeatherEntry>, keep: WeatherEntry -> bool)
    ensures forall j, j' :: 0 <= j < j' < |Picked(records, keep)| ==> Picked(records, keep)[j] < Picked(records, keep)[j']
  {
    if records != [] {
      var n := |records| - 1;
      PickedInRange(records[..n], keep);
      PickedAscending(records[..n], keep);
    }
  }

  /** A position is kept exactly when its record passes `keep`. */
  lemma {:induction false} PickedExact(records: seq<WeatherEntry>, keep: WeatherEntry -> bool)
    ensures forall i :: 0 <= i < |records| ==> (keep(records[i]) <==> i in Picked(records, keep))
  {
    if records != [] {
      var n := |records| - 1;
      var front := records[..n];
      PickedInRange(front, keep);
      PickedExact(front, keep);
      var prev := Picked(front, keep);
      var extra: seq<int> := if keep(records[n]) then [n] else [];
      assert Picked(records, keep) == prev + extra;
      assert n !in prev;
      forall i | 0 <= i < |records|
        ensures keep(records[i]) <==> i in Picked(records, keep)
      {
        assert i in prev + extra <==> i in prev || i in extra;
        if i < n {
          assert records[i] == front[i];
          assert i in prev <==> keep(front[i]);
        }
      }
    }
  }

  /** Selected value j is the field of the j-th passing record. */
  lemma {:induction false} SelectFollowsPicked(records: seq<WeatherEntry>, keep: WeatherEntry -> bool, field: WeatherEntry -> Reading)
    ensures |Select(records, keep, field)| == |Picked(records, keep)|
    ensures forall j :: 0 <= j < |Picked(records, keep)| ==>
      0 <= Picked(records, keep)[j] < |records| && Select(records, keep, field)[j] == field(records[Picked(records, keep)[j]])
  {
    PickedIsAscendingAndExact(records, keep);
    if records != [] {
      var n := |records| - 1;
      SelectFollowsPicked(records[..n], keep, field);
      PickedIsAscendingAndExact(records[..n], keep);
    }
  }

  /**
   * Two selections with the same filter have equal length and pair up
   * record by record: entry j of both comes from the same record.
   */
  lemma SelectionsPair(records: seq<WeatherEntry>, keep: WeatherEntry -> bool, f: WeatherEntry -> Reading, g: WeatherEntry -> Reading)
    ensures |Select(records, keep, f)| == |Select(records, keep, g)| == |Picked(records, keep)| <= |records|
    ensures forall j :: 0 <= j < |Select(records, keep, f)| ==>
      var i := Picked(records, keep)[j];
      0 <= i < |records| && keep(records[i]) && Select(records, keep, f)[j] == f(records[i]) && Select(records, keep, g)[j] == g(records[i])
  {
    SelectFollowsPicked(records, keep, f);
    SelectFollowsPicked(records, keep, g);
    PickedIsAscendingAndExact(records, keep);
    PickedLength(records, keep);
  }

  lemma {:induction false} PickedLength(records: seq<WeatherEntry>, keep: WeatherEntry -> bool)
    ensures |Picked(records, keep)| <= |records|
  {
    if records != [] {
      PickedLength(records[..|records| - 1], keep);
    }
  }

  /** Selecting over one more record appends that record's field when it passes. */
  lemma SelectStep(records: seq<WeatherEntry>, i: int, keep: WeatherEntry -> bool, field: WeatherEntry -> Reading)
    requires 0 <= i < |records|
    ensures Select(records[..i + 1], keep, field) ==
      Select(records[..i], keep, field) + if keep(records[i]) then [field(records[i])] else []
  {
    assert records[..i + 1][..i] == records[..i];
  }

  /** Every kept solar reading is present and at least 100. */
  lemma {:induction false} SolarSelectionCounts(records: seq<WeatherEntry>)
    ensures forall x :: x in Select(records, HasSolar, SolarOf) ==> SolarCounts(x)
  {
    if records != [] {
      SolarSelectionCounts(records[..|records| - 1]);
    }
  }
}
