/**
 * Menu.cpp: month names, the "is there any data" test, the pairwise
 * deletion that prepares the three correlations, and the choice of the
 * months written by the "write all stats" option.
 */
module Menu {
  import opened Weather
  import opened LogMaps
  import opened Vectors
  import opened DataUtils

  const MonthNames: seq<string> := ["January", "February", "March", "April", "May", "June",
    "July", "August", "September", "October", "November", "December"]

  /** monthName: the English name of months 1..12, "Invalid" for any other number. */
  function MonthName(month: int): (name: string)
    ensures name == "Invalid" <==> !(1 <= month <= 12)
    ensures 1 <= month <= 12 ==> name == MonthNames[month - 1]
  {
    if 1 <= month <= 12 then MonthNames[month - 1] else "Invalid"
  }

  /** Different months have different names. */
  lemma MonthNamesDistinct(m1: int, m2: int)
    requires 1 <= m1 <= 12 && 1 <= m2 <= 12 && m1 != m2
    ensures MonthName(m1) != MonthName(m2)
  {
    assert forall i, j :: 0 <= i < j < 12 ==> MonthNames[i] != MonthNames[j];
  }

  /** The value hasData returns (its "No Data" message is output): whether there is any record. */
  function HasData(records: seq<WeatherEntry>): (r: bool)
    ensures r <==> |records| > 0
  {
    |records| != 0
  }

  /**
   * In a map built by appending records, hasData on the log looked up for
   * a year and month is true exactly when some record was filed under that
   * year's and month's key.
   */
  lemma HasDataExactlyForFiledKeys(m: LogMap, year: int, month: int)
    requires Ordered(m) && NoEmptyLog(m)
    ensures HasData(RecordsByYearMonth(m, year, month)) <==> YearMonthKey(year, month) in KeySet(m)
  {
    var key := YearMonthKey(year, month);
    KeySetMembers(m, key);
    if key in KeySet(m) {
      var i :| 0 <= i < |m| && m[i].key == key;
      assert RecordsByYearMonth(m, year, month) == m[i].log;
    }
  }

  /** The six column vectors are distinct objects over distinct arrays. */
  ghost predicate Separate(a: Vector<Reading>, b: Vector<Reading>, c: Vector<Reading>,
                           d: Vector<Reading>, e: Vector<Reading>, f: Vector<Reading>)
    reads a, b, c, d, e, f
  {
    a.data != b.data && a.data != c.data && a.data != d.data && a.data != e.data && a.data != f.data &&
    b.data != c.data && b.data != d.data && b.data != e.data && b.data != f.data &&
    c.data != d.data && c.data != e.data && c.data != f.data &&
    d.data != e.data && d.data != f.data &&
    e.data != f.data &&
    a != b && a != c && a != d && a != e && a != f &&
    b != c && b != d && b != e && b != f &&
    c != d && c != e && c != f &&
    d != e && d != f &&
    e != f
  }

  /**
   * The pairwise deletion of showCorrelations: each pair of vectors gets
   * the two readings of every record where both are present (a solar
   * reading also has to be at least 100), in record order, so each pair
   * has equal length and lines up record by record.
   */
  method PairwiseDeletion(data: seq<WeatherEntry>)
    returns (st1: Vector<Reading>, st2: Vector<Reading>, sr1: Vector<Reading>,
             sr2: Vector<Reading>, tr1: Vector<Reading>, tr2: Vector<Reading>)
    ensures st1.Valid() && st2.Valid() && sr1.Valid() && sr2.Valid() && tr1.Valid() && tr2.Valid()
    ensures st1.Elements() == Select(data, HasWindAndTemperature, WindOf)
    ensures st2.Elements() == Select(data, HasWindAndTemperature, TemperatureOf)
    ensures sr1.Elements() == Select(data, HasWindAndSolar, WindOf)
    ensures sr2.Elements() == Select(data, HasWindAndSolar, SolarOf)
    ensures tr1.Elements() == Select(data, HasTemperatureAndSolar, TemperatureOf)
    ensures tr2.Elements() == Select(data, HasTemperatureAndSolar, SolarOf)
    ensures |st1.Elements()| == |st2.Elements()| && |sr1.Elements()| == |sr2.Elements()| && |tr1.Elements()| == |tr2.Elements()|
  {
    st1, st2, sr1, sr2, tr1, tr2 := NewColumns();
    var i := 0;
    while i < |data|
      invariant 0 <= i <= |data|
      invariant st1.Valid() && st2.Valid() && sr1.Valid() && sr2.Valid() && tr1.Valid() && tr2.Valid()
      invariant Separate(st1, st2, sr1, sr2, tr1, tr2)
      invariant fresh(st1) && fresh(st2) && fresh(sr1) && fresh(sr2) && fresh(tr1) && fresh(tr2)
      invariant fresh(st1.data) && fresh(st2.data) && fresh(sr1.data) && fresh(sr2.data) && fresh(tr1.data) && fresh(tr2.data)
      invariant st1.Elements() == Select(data[..i], HasWindAndTemperature, WindOf)
      invariant st2.Elements() == Select(data[..i], HasWindAndTemperature, TemperatureOf)
      invariant sr1.Elements() == Select(data[..i], HasWindAndSolar, WindOf)
      invariant sr2.Elements() == Select(data[..i], HasWindAndSolar, SolarOf)
      invariant tr1.Elements() == Select(data[..i], HasTemperatureAndSolar, TemperatureOf)
      invariant tr2.Elements() == Select(data[..i], HasTemperatureAndSolar, SolarOf)
    {
      PairStep(data[i], st1, st2, sr1, sr2, tr1, tr2);
      PairSelectionsStep(data, i);
      i := i + 1;
    }
    assert data[..i] == data;
    PairSelectionsMatch(data);
  }

  /** The six empty vectors `Vector<float> s_t1, s_t2, s_r1, s_r2, t_r1, t_r2;` */
  method NewColumns()
    returns (st1: Vector<Reading>, st2: Vector<Reading>, sr1: Vector<Reading>,
             sr2: Vector<Reading>, tr1: Vector<Reading>, tr2: Vector<Reading>)
    ensures st1.Valid() && st2.Valid() && sr1.Valid() && sr2.Valid() && tr1.Valid() && tr2.Valid()
    ensures Separate(st1, st2, sr1, sr2, tr1, tr2)
    ensures fresh(st1) && fresh(st2) && fresh(sr1) && fresh(sr2) && fresh(tr1) && fresh(tr2)
    ensures fresh(st1.data) && fresh(st2.data) && fresh(sr1.data) && fresh(sr2.data) && fresh(tr1.data) && fresh(tr2.data)
    ensures st1.Elements() == st2.Elements() == sr1.Elements() == sr2.Elements() == tr1.Elements() == tr2.Elements() == []
  {
    st1 := new Vector<Reading>(1);
    st2 := new Vector<Reading>(1);
    sr1 := new Vector<Reading>(1);
    sr2 := new Vector<Reading>(1);
    tr1 := new Vector<Reading>(1);
    tr2 := new Vector<Reading>(1);
  }

  /** Extending the records by one extends each of the six selections by that record's part. */
  lemma PairSelectionsStep(data: seq<WeatherEntry>, i: int)
    requires 0 <= i < |data|
    ensures Select(data[..i + 1], HasWindAndTemperature, WindOf) ==
      Select(data[..i], HasWindAndTemperature, WindOf) + if HasWindAndTemperature(data[i]) then [WindOf(data[i])] else []
    ensures Select(data[..i + 1], HasWindAndTemperature, TemperatureOf) ==
      Select(data[..i], HasWindAndTemperature, TemperatureOf) + if HasWindAndTemperature(data[i]) then [TemperatureOf(data[i])] else []
    ensures Select(data[..i + 1], HasWindAndSolar, WindOf) ==
      Select(data[..i], HasWindAndSolar, WindOf) + if HasWindAndSolar(data[i]) then [WindOf(data[i])] else []
    ensures Select(data[..i + 1], HasWindAndSolar, SolarOf) ==
      Select(data[..i], HasWindAndSolar, SolarOf) + if HasWindAndSolar(data[i]) then [SolarOf(data[i])] else []
    ensures Select(data[..i + 1], HasTemperatureAndSolar, TemperatureOf) ==
      Select(data[..i], HasTemperatureAndSolar, TemperatureOf) + if HasTemperatureAndSolar(data[i]) then [TemperatureOf(data[i])] else []
    ensures Select(data[..i + 1], HasTemperatureAndSolar, SolarOf) ==
      Select(data[..i], HasTemperatureAndSolar, SolarOf) + if HasTemperatureAndSolar(data[i]) then [SolarOf(data[i])] else []
  {
    SelectStep(data, i, HasWindAndTemperature, WindOf);
    SelectStep(data, i, HasWindAndTemperature, TemperatureOf);
    SelectStep(data, i, HasWindAndSolar, WindOf);
    SelectStep(data, i, HasWindAndSolar, SolarOf);
    SelectStep(data, i, HasTemperatureAndSolar, TemperatureOf);
    SelectStep(data, i, HasTemperatureAndSolar, SolarOf);
  }

  /** The two columns of each pair have the same length. */
  lemma PairSelectionsMatch(data: seq<WeatherEntry>)
    ensures |Select(data, HasWindAndTemperature, WindOf)| == |Select(data, HasWindAndTemperature, TemperatureOf)|
    ensures |Select(data, HasWindAndSolar, WindOf)| == |Select(data, HasWindAndSolar, SolarOf)|
    ensures |Select(data, HasTemperatureAndSolar, TemperatureOf)| == |Select(data, HasTemperatureAndSolar, SolarOf)|
  {
    SelectionsPair(data, HasWindAndTemperature, WindOf, TemperatureOf);
    SelectionsPair(data, HasWindAndSolar, WindOf, SolarOf);
    SelectionsPair(data, HasTemperatureAndSolar, TemperatureOf, SolarOf);
  }

  /** One iteration of the pairwise-deletion loop, for the record `w`. */
  method PairStep(w: WeatherEntry, st1: Vector<Reading>, st2: Vector<Reading>, sr1: Vector<Reading>,
                  sr2: Vector<Reading>, tr1: Vector<Reading>, tr2: Vector<Reading>)
    requires st1.Valid() && st2.Valid() && sr1.Valid() && sr2.Valid() && tr1.Valid() && tr2.Valid()
    requires Separate(st1, st2, sr1, sr2, tr1, tr2)
    modifies st1, st1.data, st2, st2.data, sr1, sr1.data, sr2, sr2.data, tr1, tr1.data, tr2, tr2.data
    ensures st1.Valid() && st2.Valid() && sr1.Valid() && sr2.Valid() && tr1.Valid() && tr2.Valid()
    ensures Separate(st1, st2, sr1, sr2, tr1, tr2)
    ensures (st1.data == old(st1.data) || fresh(st1.data)) && (st2.data == old(st2.data) || fresh(st2.data))
    ensures (sr1.data == old(sr1.data) || fresh(sr1.data)) && (sr2.data == old(sr2.data) || fresh(sr2.data))
    ensures (tr1.data == old(tr1.data) || fresh(tr1.data)) && (tr2.data == old(tr2.data) || fresh(tr2.data))
    ensures st1.Elements() == old(st1.Elements()) + if HasWindAndTemperature(w) then [WindOf(w)] else []
    ensures st2.Elements() == old(st2.Elements()) + if HasWindAndTemperature(w) then [TemperatureOf(w)] else []
    ensures sr1.Elements() == old(sr1.Elements()) + if HasWindAndSolar(w) then [WindOf(w)] else []
    ensures sr2.Elements() == old(sr2.Elements()) + if HasWindAndSolar(w) then [SolarOf(w)] else []
    ensures tr1.Elements() == old(tr1.Elements()) + if HasTemperatureAndSolar(w) then [TemperatureOf(w)] else []
    ensures tr2.Elements() == old(tr2.Elements()) + if HasTemperatureAndSolar(w) then [SolarOf(w)] else []
  {
    PushPairIf(HasWindAndTemperature(w), st1, st2, WindOf(w), TemperatureOf(w));
    SolarPairsStep(w, sr1, sr2, tr1, tr2);
  }

  /** The two solar pairs of one pairwise-deletion iteration. */
  method SolarPairsStep(w: WeatherEntry, sr1: Vector<Reading>, sr2: Vector<Reading>, tr1: Vector<Reading>, tr2: Vector<Reading>)
    requires sr1.Valid() && sr2.Valid() && tr1.Valid() && tr2.Valid()
    requires sr1.data != sr2.data && sr1.data != tr1.data && sr1.data != tr2.data
    requires sr2.data != tr1.data && sr2.data != tr2.data && tr1.data != tr2.data
    requires sr1 != sr2 && sr1 != tr1 && sr1 != tr2 && sr2 != tr1 && sr2 != tr2 && tr1 != tr2
    modifies sr1, sr1.data, sr2, sr2.data, tr1, tr1.data, tr2, tr2.data
    ensures sr1.Valid() && sr2.Valid() && tr1.Valid() && tr2.Valid()
    ensures sr1.data != sr2.data && sr1.data != tr1.data && sr1.data != tr2.data
    ensures sr2.data != tr1.data && sr2.data != tr2.data && tr1.data != tr2.data
    ensures (sr1.data == old(sr1.data) || fresh(sr1.data)) && (sr2.data == old(sr2.data) || fresh(sr2.data))
    ensures (tr1.data == old(tr1.data) || fresh(tr1.data)) && (tr2.data == old(tr2.data) || fresh(tr2.data))
    ensures sr1.Elements() == old(sr1.Elements()) + if HasWindAndSolar(w) then [WindOf(w)] else []
    ensures sr2.Elements() == old(sr2.Elements()) + if HasWindAndSolar(w) then [SolarOf(w)] else []
    ensures tr1.Elements() == old(tr1.Elements()) + if HasTemperatureAndSolar(w) then [TemperatureOf(w)] else []
    ensures tr2.Elements() == old(tr2.Elements()) + if HasTemperatureAndSolar(w) then [SolarOf(w)] else []
  {
    PushPairIf(HasWindAndSolar(w), sr1, sr2, WindOf(w), SolarOf(w));
    PushPairIf(HasTemperatureAndSolar(w), tr1, tr2, TemperatureOf(w), SolarOf(w));
  }

  /** `if (keep) { a.pushBack(x); b.pushBack(y); }` */
  method PushPairIf(keep: bool, a: Vector<Reading>, b: Vector<Reading>, x: Reading, y: Reading)
    requires a.Valid() && b.Valid() && a.data != b.data
    modifies a, a.data, b, b.data
    ensures a.Valid() && b.Valid() && a.data != b.data
    ensures a.data == old(a.data) || fresh(a.data)
    ensures b.data == old(b.data) || fresh(b.data)
    ensures a.Elements() == old(a.Elements()) + if keep then [x] else []
    ensures b.Elements() == old(b.Elements()) + if keep then [y] else []
  {
    if keep {
      a.PushBack(x);
      b.PushBack(y);
    }
  }

  /**
   * The month loop of writeAllStats: the months 1..12, in order, whose log
   * for `year` is not empty (each gets a statistics line); `noData` says
   * whether "No Data" is written instead.
   */
  method MonthsWithData(m: LogMap, year: int) returns (months: seq<int>, noData: bool)
    ensures forall x :: x in months <==> 1 <= x <= 12 && RecordsByYearMonth(m, year, x) != []
    ensures forall i, j :: 0 <= i < j < |months| ==> months[i] < months[j]
    ensures noData <==> months == []
    ensures Ordered(m) && NoEmptyLog(m) ==> forall x :: x in months <==> 1 <= x <= 12 && YearMonthKey(year, x) in KeySet(m)
  {
    months := [];
    var any := false;
    var month := 1;
    while month <= 12
      invariant 1 <= month <= 13
      invariant forall x :: x in months <==> 1 <= x < month && RecordsByYearMonth(m, year, x) != []
      invariant forall i, j :: 0 <= i < j < |months| ==> months[i] < months[j]
      invariant forall i :: 0 <= i < |months| ==> months[i] < month
      invariant any <==> months != []
    {
      var log := RecordsByYearMonth(m, year, month);
      if |log| > 0 {
        ghost var before := months;
        months := months + [month];
        assert forall x :: x in months <==> x in before || x == month;
        any := true;
      }
      month := month + 1;
    }
    noData := !any;
    if Ordered(m) && NoEmptyLog(m) {
      forall x | 1 <= x <= 12
        ensures x in months <==> YearMonthKey(year, x) in KeySet(m)
      {
        HasDataExactlyForFiledKeys(m, year, x);
      }
    }
  }
}
