/**
 * The ordered dictionary `std::map<std::string, Vector<WeatherEntry>>`
 * that groups records by their "YYYY-MM" key: a sequence of bindings kept
 * in ascending key order, one binding per key.
 */
module LogMaps {
  import opened Results
  import opened StringOrder
  import opened Weather

  datatype Binding = Binding(key: string, log: seq<WeatherEntry>)

  type LogMap = seq<Binding>

  /** Keys strictly ascend, so each key is bound once and iteration is in key order. */
  ghost predicate Ordered(m: LogMap)
  {
    forall i, j :: 0 <= i < j < |m| ==> Less(m[i].key, m[j].key)
  }

  function KeySet(m: LogMap): set<string>
  {
    if m == [] then {} else {m[0].key} + KeySet(m[1..])
  }

  lemma {:induction false} KeySetMembers(m: LogMap, k: string)
    ensures k in KeySet(m) <==> exists i :: 0 <= i < |m| && m[i].key == k
  {
    if m != [] {
      KeySetMembers(m[1..], k);
      if k in KeySet(m[1..]) {
        var i :| 0 <= i < |m[1..]| && m[1..][i].key == k;
        assert m[i + 1].key == k;
      }
      if k != m[0].key && exists i :: 0 <= i < |m| && m[i].key == k {
        var i :| 0 <= i < |m| && m[i].key == k;
        assert m[1..][i - 1].key == k;
      }
    }
  }

  /** `map.find(key)`: the log bound to `k`, or None when `k` is unbound. */
  function Find(m: LogMap, k: string): (r: Option<seq<WeatherEntry>>)
    ensures r.None? <==> k !in KeySet(m)
    ensures r.Some? ==> exists i :: 0 <= i < |m| && m[i] == Binding(k, r.value)
  {
    if m == [] then None
    else if m[0].key == k then Some(m[0].log)
    else
      var r := Find(m[1..], k);
      assert r.Some? ==> exists i :: 0 <= i < |m| && m[i] == Binding(k, r.value) by {
        if r.Some? {
          var i :| 0 <= i < |m[1..]| && m[1..][i] == Binding(k, r.value);
          assert m[i + 1] == Binding(k, r.value);
        }
      }
      r
  }

  /** `map[key]` read as a value: the bound log, or an empty one. */
  function LogAt(m: LogMap, k: string): seq<WeatherEntry>
  {
    match Find(m, k)
    case None => []
    case Some(log) => log
  }

  /** In an ordered map, Find of a bound key yields that binding's log. */
  lemma {:induction false} FindBound(m: LogMap, i: int)
    requires Ordered(m) && 0 <= i < |m|
    ensures Find(m, m[i].key) == Some(m[i].log)
  {
    if i > 0 {
      assert Less(m[0].key, m[i].key);
      LessIrreflexive(m[i].key);
      FindBound(m[1..], i - 1);
    }
  }

  /** `dataMap[key].pushBack(w)`: append to the key's log, binding a new log in key order when absent. */
  function AppendRecord(m: LogMap, k: string, w: WeatherEntry): LogMap
  {
    if m == [] then [Binding(k, [w])]
    else if m[0].key == k then [Binding(k, m[0].log + [w])] + m[1..]
    else if Less(k, m[0].key) then [Binding(k, [w])] + m
    else [m[0]] + AppendRecord(m[1..], k, w)
  }

  lemma OrderedCons(b: Binding, t: LogMap)
    requires Ordered(t)
    requires forall j :: 0 <= j < |t| ==> Less(b.key, t[j].key)
    ensures Ordered([b] + t)
  {
    var m := [b] + t;
    forall i, j | 0 <= i < j < |m|
      ensures Less(m[i].key, m[j].key)
    {
      if i > 0 {
        assert m[i] == t[i - 1] && m[j] == t[j - 1];
      }
    }
  }

  /** A key below the first key of an ordered map is below every key. */
  lemma BelowAll(m: LogMap, k: string)
    requires Ordered(m) && m != [] && Less(k, m[0].key)
    ensures forall j :: 0 <= j < |m| ==> Less(k, m[j].key)
  {
    forall j | 0 < j < |m|
      ensures Less(k, m[j].key)
    {
      LessTransitive(k, m[0].key, m[j].key);
    }
  }

  /** Appending keeps every key bound once and in order. */
  lemma {:induction false} AppendKeepsOrder(m: LogMap, k: string, w: WeatherEntry)
    requires Ordered(m)
    ensures Ordered(AppendRecord(m, k, w))
    ensures KeySet(AppendRecord(m, k, w)) == KeySet(m) + {k}
  {
    if m == [] {
    } else if m[0].key == k {
      assert AppendRecord(m, k, w)[1..] == m[1..];
      OrderedCons(Binding(k, m[0].log + [w]), m[1..]);
    } else if Less(k, m[0].key) {
      BelowAll(m, k);
      OrderedCons(Binding(k, [w]), m);
      assert AppendRecord(m, k, w)[1..] == m;
    } else {
      LessTotal(k, m[0].key);
      var t := AppendRecord(m[1..], k, w);
      AppendKeepsOrder(m[1..], k, w);
      forall j | 0 <= j < |t|
        ensures Less(m[0].key, t[j].key)
      {
        KeySetMembers(t, t[j].key);
        KeySetMembers(m[1..], t[j].key);
        if t[j].key != k {
          var i :| 0 <= i < |m[1..]| && m[1..][i].key == t[j].key;
          assert m[i + 1].key == t[j].key;
        }
      }
      OrderedCons(m[0], t);
      assert AppendRecord(m, k, w)[1..] == t;
    }
  }

  /** Every bound log holds at least one record: the map only ever grows by appending. */
  ghost predicate NoEmptyLog(m: LogMap)
  {
    forall i :: 0 <= i < |m| ==> m[i].log != []
  }

  /** Appending a record leaves no bound log empty. */
  lemma {:induction false} AppendKeepsLogsNonEmpty(m: LogMap, k: string, w: WeatherEntry)
    requires NoEmptyLog(m)
    ensures NoEmptyLog(AppendRecord(m, k, w))
  {
    if m != [] && m[0].key != k && !Less(k, m[0].key) {
      AppendKeepsLogsNonEmpty(m[1..], k, w);
      var t := AppendRecord(m[1..], k, w);
      assert AppendRecord(m, k, w) == [m[0]] + t;
      forall i | 0 < i < |[m[0]] + t|
        ensures ([m[0]] + t)[i].log != []
      {
        assert ([m[0]] + t)[i] == t[i - 1];
      }
    } else if m != [] && m[0].key == k {
      var r := AppendRecord(m, k, w);
      forall i | 0 < i < |r|
        ensures r[i].log != []
      {
        assert r[i] == m[i];
      }
    } else if m != [] {
      var r := AppendRecord(m, k, w);
      forall i | 0 < i < |r|
        ensures r[i].log != []
      {
        assert r[i] == m[i - 1];
      }
    }
  }

  /** After appending, `k` maps to its old log plus `w`; every other key keeps its log. */
  lemma {:induction false} AppendFind(m: LogMap, k: string, w: WeatherEntry, other: string)
    requires Ordered(m)
    ensures Find(AppendRecord(m, k, w), k) == Some(LogAt(m, k) + [w])
    ensures other != k ==> Find(AppendRecord(m, k, w), other) == Find(m, other)
  {
    if m == [] {
      assert LogAt(m, k) + [w] == [w];
    } else if m[0].key == k {
    } else if Less(k, m[0].key) {
      BelowAll(m, k);
      KeySetMembers(m, k);
      LessIrreflexive(k);
      assert LogAt(m, k) + [w] == [w];
      var appended := AppendRecord(m, k, w);
      assert appended[0] == Binding(k, [w]);
      assert Find(appended, k) == Some([w]);
    } else {
      AppendFind(m[1..], k, w, other);
    }
  }
}
