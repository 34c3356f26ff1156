/**
 * The two read-only statements of the store: the point lookup of a sensor
 * by hardware address, and the latest reading of every sensor ordered by
 * name.
 */
module Queries {
  import opened Wrappers
  import opened Records

  /**
   * `SELECT id FROM sensor WHERE mac_address = $1`, fetched as an optional
   * single row: the id of a matching row. SQL fixes no order without
   * `ORDER BY`; the model takes the first match in table order, and its
   * contract holds for any matching row.
   */
  function LookupByAddress(sensors: seq<SensorRow>, macAddress: string): (r: Option<int>)
    ensures r.None? <==> forall i :: 0 <= i < |sensors| ==> sensors[i].macAddress != macAddress
    ensures r.Some? ==> exists i :: 0 <= i < |sensors| && sensors[i].macAddress == macAddress && sensors[i].id == r.value
  {
    if sensors == [] then None
    else if sensors[0].macAddress == macAddress then Some(sensors[0].id)
    else
      var r := LookupByAddress(sensors[1..], macAddress);
      assert forall i :: 1 <= i < |sensors| ==> sensors[i] == sensors[1..][i - 1];
      r
  }

  /** Looking up in a table with one more row: earlier rows win, then the new row. */
  lemma {:induction false} LookupAfterAppend(sensors: seq<SensorRow>, row: SensorRow, macAddress: string)
    ensures LookupByAddress(sensors + [row], macAddress) ==
      if LookupByAddress(sensors, macAddress).Some? then LookupByAddress(sensors, macAddress)
      else if row.macAddress == macAddress then Some(row.id)
      else None
  {
    if sensors != [] {
      assert (sensors + [row])[1..] == sensors[1..] + [row];
      LookupAfterAppend(sensors[1..], row, macAddress);
    }
  }

  /** When addresses are unique, the lookup finds the one row that has the address. */
  lemma LookupFindsTheRow(sensors: seq<SensorRow>, i: int)
    requires UniqueAddresses(sensors) && 0 <= i < |sensors|
    ensures LookupByAddress(sensors, sensors[i].macAddress) == Some(sensors[i].id)
  {
    var r := LookupByAddress(sensors, sensors[i].macAddress);
    var j :| 0 <= j < |sensors| && sensors[j].macAddress == sensors[i].macAddress && sensors[j].id == r.value;
    assert j == i;
  }

  /**
   * `SELECT max(d.reading_time) FROM sensor_data d WHERE d.sensor_id = $1`:
   * NULL (None) when the sensor has no reading.
   */
  function MaxReadingTime(readings: seq<ReadingRow>, sensorId: int): (r: Option<Timestamp>)
    ensures r.None? <==> forall i :: 0 <= i < |readings| ==> readings[i].sensorId != sensorId
    ensures r.Some? ==>
      exists i :: 0 <= i < |readings| && readings[i].sensorId == sensorId && readings[i].value.readingTime == r.value
    ensures r.Some? ==>
      forall i :: 0 <= i < |readings| && readings[i].sensorId == sensorId ==> readings[i].value.readingTime <= r.value
  {
    if readings == [] then None
    else
      var rest := MaxReadingTime(readings[1..], sensorId);
      assert forall i :: 1 <= i < |readings| ==> readings[i] == readings[1..][i - 1];
      var t := readings[0].value.readingTime;
      if readings[0].sensorId != sensorId then rest
      else match rest
        case None => Some(t)
        case Some(m) => Some(if m < t then t else m)
  }

  /** The WHERE clause: the reading was taken at its sensor's latest reading time. */
  predicate IsLatest(all: seq<ReadingRow>, v: ReadingRow)
  {
    MaxReadingTime(all, v.sensorId) == Some(v.value.readingTime)
  }

  function JoinRow(s: SensorRow, v: ReadingRow): SensorWithValue
  {
    SensorWithValue(s.id, s.name, s.macAddress, v.value)
  }

  /** The positions of the readings the join and the WHERE clause keep for sensor `s` as the row `x`. */
  function MatchIndices(s: SensorRow, readings: seq<ReadingRow>, all: seq<ReadingRow>, x: SensorWithValue): set<int>
  {
    set j | 0 <= j < |readings| && readings[j].sensorId == s.id && IsLatest(all, readings[j]) && JoinRow(s, readings[j]) == x
  }

  /**
   * The rows the join and the WHERE clause keep for sensor `s`, from
   * `readings` in table order: one row per kept reading, so a row occurs
   * as often as there are kept readings that give it.
   */
  function LatestFor(s: SensorRow, readings: seq<ReadingRow>, all: seq<ReadingRow>): (r: seq<SensorWithValue>)
    ensures forall x :: x in r <==>
      exists v :: v in readings && v.sensorId == s.id && IsLatest(all, v) && x == JoinRow(s, v)
  {
    if readings == [] then []
    else
      var n := |readings| - 1;
      var v := readings[n];
      var init := readings[..n];
      var rest := LatestFor(s, init, all);
      assert readings == init + [v];
      assert forall w :: w in readings <==> w == v || w in init;
      if v.sensorId == s.id && IsLatest(all, v) then rest + [JoinRow(s, v)] else rest
  }

  /** Each row occurs in `LatestFor` once per kept reading that gives it. */
  lemma {:induction false} LatestForCount(s: SensorRow, readings: seq<ReadingRow>, all: seq<ReadingRow>, x: SensorWithValue)
    ensures multiset(LatestFor(s, readings, all))[x] == |MatchIndices(s, readings, all, x)|
  {
    if readings != [] {
      var n := |readings| - 1;
      LatestForCount(s, readings[..n], all, x);
      MatchIndicesStep(s, readings, all, x);
    }
  }

  /** The positions kept in a table with one more reading: those kept before, and perhaps the new last one. */
  lemma MatchIndicesStep(s: SensorRow, readings: seq<ReadingRow>, all: seq<ReadingRow>, x: SensorWithValue)
    requires readings != []
    ensures var n := |readings| - 1;
      var v := readings[n];
      && n !in MatchIndices(s, readings[..n], all, x)
      && MatchIndices(s, readings, all, x) == MatchIndices(s, readings[..n], all, x) +
           (if v.sensorId == s.id && IsLatest(all, v) && JoinRow(s, v) == x then {n} else {})
  {
  }

  /** The (sensor, reading) position pairs that the join and the WHERE clause turn into the row `x`. */
  function JoinMatches(sensors: seq<SensorRow>, readings: seq<ReadingRow>, x: SensorWithValue): set<(int, int)>
  {
    set i, j | 0 <= i < |sensors| && 0 <= j < |readings| && readings[j].sensorId == sensors[i].id
      && IsLatest(readings, readings[j]) && JoinRow(sensors[i], readings[j]) == x :: (i, j)
  }

  /**
   * `FROM sensor s JOIN sensor_data v ON (s.id = v.sensor_id) WHERE ...`,
   * before ordering: one row per matching (sensor, reading) pair.
   */
  function Joined(sensors: seq<SensorRow>, readings: seq<ReadingRow>): (r: seq<SensorWithValue>)
    ensures forall x :: x in r <==>
      exists s, v :: s in sensors && v in readings && v.sensorId == s.id && IsLatest(readings, v) && x == JoinRow(s, v)
  {
    if sensors == [] then []
    else
      var n := |sensors| - 1;
      var init := sensors[..n];
      var rest := Joined(init, readings);
      assert sensors == init + [sensors[n]];
      assert forall s :: s in sensors <==> s == sensors[n] || s in init;
      rest + LatestFor(sensors[n], readings, readings)
  }

  /** Each row occurs in the join once per (sensor, reading) pair that gives it. */
  lemma {:induction false} JoinedCount(sensors: seq<SensorRow>, readings: seq<ReadingRow>, x: SensorWithValue)
    ensures multiset(Joined(sensors, readings))[x] == |JoinMatches(sensors, readings, x)|
  {
    if sensors != [] {
      var n := |sensors| - 1;
      JoinedCount(sensors[..n], readings, x);
      LatestForCount(sensors[n], readings, readings, x);
      JoinMatchesStep(sensors, readings, x);
    }
  }

  /** The pairs kept with one more sensor: those kept before, and the new sensor's kept readings. */
  lemma JoinMatchesStep(sensors: seq<SensorRow>, readings: seq<ReadingRow>, x: SensorWithValue)
    requires sensors != []
    ensures var n := |sensors| - 1;
      |JoinMatches(sensors, readings, x)| ==
        |JoinMatches(sensors[..n], readings, x)| + |MatchIndices(sensors[n], readings, readings, x)|
  {
    var n := |sensors| - 1;
    var before := JoinMatches(sensors[..n], readings, x);
    var js := MatchIndices(sensors[n], readings, readings, x);
    var added := set j | j in js :: (n, j);
    var all := JoinMatches(sensors, readings, x);
    forall p | p in all
      ensures p in before + added
    {
      if p.0 < n {
        assert sensors[..n][p.0] == sensors[p.0];
      } else {
        assert p.1 in js;
      }
    }
    forall p | p in before + added
      ensures p in all
    {
      if p in before {
        assert sensors[..n][p.0] == sensors[p.0];
      }
    }
    assert all == before + added;
    assert forall p :: p in before ==> p.0 < n;
    assert before * added == {};
    PairImageCount(n, js, |readings|);
  }

  /**
   * Pairing every position below `bound` with one fixed first component
   * neither merges nor adds any.
   */
  lemma {:induction false} PairImageCount(k: int, js: set<int>, bound: nat)
    requires forall j :: j in js ==> 0 <= j < bound
    ensures |set j | j in js :: (k, j)| == |js|
    decreases bound
  {
    if bound > 0 {
      var m := bound - 1;
      var rest := js - {m};
      PairImageCount(k, rest, m);
      if m in js {
        assert (set j | j in js :: (k, j)) == (set j | j in rest :: (k, j)) + {(k, m)};
        assert js == rest + {m};
      } else {
        assert (set j | j in js :: (k, j)) == (set j | j in rest :: (k, j));
        assert js == rest;
      }
    } else {
      assert forall j :: j !in js;
      assert js == {};
      assert (set j | j in js :: (k, j)) == {};
    }
  }

  /**
   * The BINARY collation SQLite compares names with: byte by byte on the
   * UTF-8 text, which is the order of code points, a prefix first.
   */
  predicate NameLe(a: string, b: string)
  {
    a == [] || (b != [] && (a[0] < b[0] || (a[0] == b[0] && NameLe(a[1..], b[1..]))))
  }

  lemma {:induction false} NameLeTotal(a: string, b: string)
    ensures NameLe(a, b) || NameLe(b, a)
  {
    if a != [] && b != [] && a[0] == b[0] {
      NameLeTotal(a[1..], b[1..]);
    }
  }

  lemma {:induction false} NameLeTransitive(a: string, b: string, c: string)
    requires NameLe(a, b) && NameLe(b, c)
    ensures NameLe(a, c)
  {
    if a != [] && a[0] == b[0] && b[0] == c[0] {
      NameLeTransitive(a[1..], b[1..], c[1..]);
    }
  }

  /** `ORDER BY s.name`, ascending. */
  predicate SortedByName(xs: seq<SensorWithValue>)
  {
    forall i, j :: 0 <= i < j < |xs| ==> NameLe(xs[i].name, xs[j].name)
  }

  /** Puts `x` in front of the first row whose name does not sort before it. */
  function InsertByName(x: SensorWithValue, xs: seq<SensorWithValue>): (r: seq<SensorWithValue>)
    requires SortedByName(xs)
    ensures SortedByName(r)
    ensures multiset(r) == multiset(xs) + multiset{x}
  {
    if xs == [] then [x]
    else if NameLe(x.name, xs[0].name) then
      assert forall j :: 0 <= j < |xs| ==> NameLe(x.name, xs[j].name) by {
        forall j | 0 <= j < |xs| ensures NameLe(x.name, xs[j].name) {
          if j > 0 { NameLeTransitive(x.name, xs[0].name, xs[j].name); }
        }
      }
      [x] + xs
    else
      var rest := InsertByName(x, xs[1..]);
      assert xs == [xs[0]] + xs[1..];
      NameLeTotal(x.name, xs[0].name);
      assert forall y :: y in rest ==> NameLe(xs[0].name, y.name) by {
        forall y | y in rest ensures NameLe(xs[0].name, y.name) {
          assert y in multiset(rest);
          if y != x {
            assert y in multiset(xs[1..]);
            var k :| 0 <= k < |xs[1..]| && xs[1..][k] == y;
            assert xs[k + 1] == y;
          }
        }
      }
      [xs[0]] + rest
  }

  /** An insertion sort by name; rows whose names are equal keep their join order. */
  function SortByName(xs: seq<SensorWithValue>): (r: seq<SensorWithValue>)
    ensures SortedByName(r)
    ensures multiset(r) == multiset(xs)
  {
    if xs == [] then []
    else
      assert xs == [xs[0]] + xs[1..];
      InsertByName(xs[0], SortByName(xs[1..]))
  }

  /**
   * `get_sensors_with_last_value`: for every sensor, each of its readings
   * taken at that sensor's latest reading time, joined with the sensor and
   * ordered by name.
   */
  function LastValues(sensors: seq<SensorRow>, readings: seq<ReadingRow>): (r: seq<SensorWithValue>)
    ensures SortedByName(r)
    ensures multiset(r) == multiset(Joined(sensors, readings))
    ensures forall x :: x in r <==>
      exists s, v :: s in sensors && v in readings && v.sensorId == s.id && IsLatest(readings, v) && x == JoinRow(s, v)
  {
    var j := Joined(sensors, readings);
    var r := SortByName(j);
    SameMembers(r, j);
    r
  }

  /**
   * The overview holds each row once per (sensor, reading) pair that gives
   * it: readings tied at a sensor's latest time each contribute a row, even
   * when their measurements are equal.
   */
  lemma LastValuesCount(sensors: seq<SensorRow>, readings: seq<ReadingRow>, x: SensorWithValue)
    ensures multiset(LastValues(sensors, readings))[x] == |JoinMatches(sensors, readings, x)|
  {
    JoinedCount(sensors, readings, x);
  }

  /** Two sequences with the same multiset hold the same elements. */
  lemma SameMembers(a: seq<SensorWithValue>, b: seq<SensorWithValue>)
    requires multiset(a) == multiset(b)
    ensures forall x :: x in a <==> x in b
  {
    forall x ensures x in a <==> x in b {
      assert x in a <==> x in multiset(a);
      assert x in b <==> x in multiset(b);
    }
  }

  /**
   * Every row of the result comes from one of that sensor's readings, and
   * no reading of the sensor is later than the one the row carries.
   */
  lemma LatestRowCarriesMax(sensors: seq<SensorRow>, readings: seq<ReadingRow>, x: SensorWithValue)
    requires x in LastValues(sensors, readings)
    ensures exists v :: v in readings && v.sensorId == x.id && v.value == x.value
    ensures forall v :: v in readings && v.sensorId == x.id ==> v.value.readingTime <= x.value.readingTime
    ensures MaxReadingTime(readings, x.id) == Some(x.value.readingTime)
  {
    var s, v :| s in sensors && v in readings && v.sensorId == s.id && IsLatest(readings, v) && x == JoinRow(s, v);
    forall w | w in readings && w.sensorId == x.id
      ensures w.value.readingTime <= x.value.readingTime
    {
      var i :| 0 <= i < |readings| && readings[i] == w;
    }
  }

  /** Inner join: a sensor with no reading is not listed. */
  lemma SensorWithoutReadingsAbsent(sensors: seq<SensorRow>, readings: seq<ReadingRow>, s: SensorRow)
    requires forall v :: v in readings ==> v.sensorId != s.id
    ensures forall x :: x in LastValues(sensors, readings) ==> x.id != s.id
  {
    forall x | x in LastValues(sensors, readings)
      ensures x.id != s.id
    {
      LatestRowCarriesMax(sensors, readings, x);
    }
  }

  /**
   * A reading taken at its sensor's latest time is listed, joined with that
   * sensor: so every reading tied at the maximum appears.
   */
  lemma TiedReadingAppears(sensors: seq<SensorRow>, readings: seq<ReadingRow>, s: SensorRow, v: ReadingRow)
    requires s in sensors && v in readings && v.sensorId == s.id
    requires forall w :: w in readings && w.sensorId == s.id ==> w.value.readingTime <= v.value.readingTime
    ensures JoinRow(s, v) in LastValues(sensors, readings)
  {
    ReadingAtMaxIsLatest(readings, v);
    LatestIsListed(sensors, readings, s, v);
  }

  /** A reading no other reading of its sensor is later than passes the WHERE clause. */
  lemma ReadingAtMaxIsLatest(readings: seq<ReadingRow>, v: ReadingRow)
    requires v in readings
    requires forall w :: w in readings && w.sensorId == v.sensorId ==> w.value.readingTime <= v.value.readingTime
    ensures IsLatest(readings, v)
  {
    var i :| 0 <= i < |readings| && readings[i] == v;
    var m := MaxReadingTime(readings, v.sensorId);
    assert m.Some? && readings[i].value.readingTime <= m.value;
    var k :| 0 <= k < |readings| && readings[k].sensorId == v.sensorId && readings[k].value.readingTime == m.value;
    var w := readings[k];
    assert w in readings && w.sensorId == v.sensorId;
    assert w.value.readingTime <= v.value.readingTime;
    assert m == Some(v.value.readingTime);
  }

  lemma LatestIsListed(sensors: seq<SensorRow>, readings: seq<ReadingRow>, s: SensorRow, v: ReadingRow)
    requires s in sensors && v in readings && v.sensorId == s.id && IsLatest(readings, v)
    ensures JoinRow(s, v) in LastValues(sensors, readings)
  {
    var x := JoinRow(s, v);
    assert exists s', v' :: s' in sensors && v' in readings && v'.sensorId == s'.id && IsLatest(readings, v') && x == JoinRow(s', v');
  }

  /** Every sensor with at least one reading is listed, with its latest reading time. */
  lemma SensorWithReadingsAppears(sensors: seq<SensorRow>, readings: seq<ReadingRow>, s: SensorRow)
    requires s in sensors
    requires exists v :: v in readings && v.sensorId == s.id
    ensures exists x :: (x in LastValues(sensors, readings) && x.id == s.id && x.name == s.name &&
      x.macAddress == s.macAddress && Some(x.value.readingTime) == MaxReadingTime(readings, s.id))
  {
    var m := MaxReadingTime(readings, s.id);
    var w :| w in readings && w.sensorId == s.id;
    var k :| 0 <= k < |readings| && readings[k].sensorId == s.id && readings[k].value.readingTime == m.value;
    var v := readings[k];
    forall u | u in readings && u.sensorId == s.id
      ensures u.value.readingTime <= v.value.readingTime
    {
      var i :| 0 <= i < |readings| && readings[i] == u;
    }
    TiedReadingAppears(sensors, readings, s, v);
  }
}
