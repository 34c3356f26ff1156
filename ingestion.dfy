/**
 * The `/co2-ampel` handler: stamp the request with the floored server
 * time, resolve the hardware address to a sensor id (creating the sensor on
 * first contact), then append the reading. Every storage call is unwrapped,
 * so a failing call aborts the request instead of answering "done".
 */
module Ingestion {
  import opened Wrappers
  import opened Records
  import opened Queries
  import opened Clock
  import opened Db

  /** The decoded query parameters `id`, `c`, `t`, `h` and `l`. */
  datatype Params = Params(id: string, co2: F32, temperature: F32, humidity: F32, lumen: F32)

  /** Which steps the connection fails: acquiring it, and each of the three statements. */
  datatype Faults = Faults(connection: bool, findSensor: bool, insertSensor: bool, insertValue: bool)

  const NoFaults: Faults := Faults(false, false, false, false)

  /** The handler either answers "done" or panics in one of its `unwrap` calls. */
  datatype Reply = Done | Aborted

  /** The reading the handler stores: the request's measurements, taken at `now`. */
  function ValueOf(p: Params, now: Timestamp): SensorValue
  {
    SensorValue(p.co2, p.temperature, p.humidity, p.lumen, now)
  }

  /** The id the handler resolves an address to: the existing sensor's, else the one a new row gets. */
  function ResolvedId(t: Tables, macAddress: string): int
  {
    match LookupByAddress(t.sensors, macAddress)
    case Some(id) => id
    case None => t.nextSensorId
  }

  /** The last step of the handler: append the reading for the resolved sensor. */
  function Append(t: Tables, sensorId: int, p: Params, now: Timestamp, f: Faults): (res: (Tables, Reply))
    requires t.Valid()
    ensures res.0.Valid() && res.0.sensors == t.sensors
    ensures res.1 == Done ==> res.0.readings == t.readings + [ReadingRow(t.nextReadingId, sensorId, ValueOf(p, now))]
    ensures res.1 == Aborted ==> res.0 == t
  {
    if f.insertValue then (t, Aborted) else (t.WithReading(sensorId, ValueOf(p, now)), Done)
  }

  /** The effect of one request on the tables, and the handler's reply. */
  function Ingest(t: Tables, p: Params, now: Timestamp, f: Faults): (res: (Tables, Reply))
    requires t.Valid()
    ensures res.0.Valid()
    ensures t.sensors <= res.0.sensors && t.readings <= res.0.readings
  {
    if f.connection || f.findSensor then (t, Aborted)
    else match LookupByAddress(t.sensors, p.id)
      case Some(id) => Append(t, id, p, now, f)
      case None =>
        if f.insertSensor then (t, Aborted)
        else Append(t.WithSensor(p.id, now), t.nextSensorId, p, now, f)
  }

  /** `receive_sensor_values`, with the wall-clock reading `clockNanos` as an input. */
  method ReceiveSensorValues(db: Database, p: Params, clockNanos: int, f: Faults) returns (reply: Reply)
    requires db.Valid()
    modifies db
    ensures db.Valid()
    ensures (db.State(), reply) == Ingest(old(db.State()), p, CurrentTimeMillis(clockNanos), f)
  {
    var now := CurrentTimeMillis(clockNanos);
    if f.connection {
      return Aborted;
    }
    var found := db.FindSensorId(p.id, f.findSensor);
    if found.Err? {
      return Aborted;
    }
    var sensorId: int;
    match found.value {
      case Some(id) =>
        sensorId := id;
      case None =>
        var created := db.InsertSensor(p.id, now, f.insertSensor);
        if created.Err? {
          return Aborted;
        }
        sensorId := created.value;
    }
    var appended := db.InsertSensorValue(sensorId, ValueOf(p, now), f.insertValue);
    if appended.Err? {
      return Aborted;
    }
    return Done;
  }

  /** Every reading belongs to a sensor row. */
  predicate ReadingsReferenceSensors(t: Tables)
  {
    forall v :: v in t.readings ==> v.sensorId in SensorIds(t.sensors)
  }

  /** What sequential ingestion keeps true of the store. */
  predicate Consistent(t: Tables)
  {
    && t.Valid()
    && UniqueAddresses(t.sensors)
    && NamesAreAddresses(t.sensors)
    && ReadingsReferenceSensors(t)
  }

  lemma EmptyIsConsistent()
    ensures Consistent(Empty)
  {
  }

  /** A known address reuses its sensor: no sensor row is created. */
  lemma IngestReusesKnownSensor(t: Tables, p: Params, now: Timestamp, f: Faults, id: int)
    requires t.Valid() && LookupByAddress(t.sensors, p.id) == Some(id)
    ensures Ingest(t, p, now, f).0.sensors == t.sensors
    ensures Ingest(t, p, now, f).0.nextSensorId == t.nextSensorId
    ensures Ingest(t, p, now, f).1 == Done ==> Ingest(t, p, now, f).0.readings[|t.readings|].sensorId == id
  {
  }

  /**
   * A sensor row is added only when the lookup found none, and then it is
   * exactly one row, named after the address and first seen at `now`.
   */
  lemma IngestCreatesOnlyUnknownSensor(t: Tables, p: Params, now: Timestamp, f: Faults)
    requires t.Valid()
    ensures var t' := Ingest(t, p, now, f).0;
      t'.sensors != t.sensors ==>
        && LookupByAddress(t.sensors, p.id) == None
        && t'.sensors == t.sensors + [SensorRow(t.nextSensorId, p.id, p.id, now)]
    ensures |Ingest(t, p, now, f).0.sensors| <= |t.sensors| + 1
  {
  }

  /**
   * A request answered "done" added exactly one reading, for the resolved
   * sensor, taken at `now`; any other reply added none.
   */
  lemma IngestAppendsOneReading(t: Tables, p: Params, now: Timestamp, f: Faults)
    requires t.Valid()
    ensures var (t', reply) := Ingest(t, p, now, f);
      reply == Done ==>
        && t'.readings == t.readings + [ReadingRow(t.nextReadingId, ResolvedId(t, p.id), ValueOf(p, now))]
        && LookupByAddress(t'.sensors, p.id) == Some(ResolvedId(t, p.id))
    ensures var (t', reply) := Ingest(t, p, now, f);
      reply == Aborted ==> t'.readings == t.readings
  {
    var (t', reply) := Ingest(t, p, now, f);
    if reply == Done && LookupByAddress(t.sensors, p.id) == None {
      LookupAfterAppend(t.sensors, SensorRow(t.nextSensorId, p.id, p.id, now), p.id);
    }
  }

  /** "done" is answered exactly when no step the request reached failed. */
  lemma IngestDoneIffNoFault(t: Tables, p: Params, now: Timestamp, f: Faults)
    requires t.Valid()
    ensures Ingest(t, p, now, f).1 == Done <==>
      && !f.connection && !f.findSensor
      && (LookupByAddress(t.sensors, p.id) == None ==> !f.insertSensor)
      && !f.insertValue
  {
  }

  /** A failed append does not undo the sensor created just before it. */
  lemma NoRollbackAfterCreate(t: Tables, p: Params, now: Timestamp)
    requires t.Valid() && LookupByAddress(t.sensors, p.id) == None
    ensures var (t', reply) := Ingest(t, p, now, Faults(false, false, false, true));
      && reply == Aborted
      && t'.sensors == t.sensors + [SensorRow(t.nextSensorId, p.id, p.id, now)]
      && t'.readings == t.readings
  {
  }

  /** One request keeps addresses unique, names equal to addresses and every reading attached to a sensor. */
  lemma IngestKeepsConsistent(t: Tables, p: Params, now: Timestamp, f: Faults)
    requires Consistent(t)
    ensures Consistent(Ingest(t, p, now, f).0)
  {
    var (t', reply) := Ingest(t, p, now, f);
    IngestCreatesOnlyUnknownSensor(t, p, now, f);
    IngestAppendsOneReading(t, p, now, f);
    if t'.sensors != t.sensors {
      var row := SensorRow(t.nextSensorId, p.id, p.id, now);
      AddingNewAddressKeepsUnique(t.sensors, row);
      assert SensorIds(t.sensors) <= SensorIds(t'.sensors);
    }
    if reply == Done {
      ResolvedIdIsListed(t', p.id, ResolvedId(t, p.id));
      ReadingForListedSensorKeepsReferences(t, t', t'.readings[|t.readings|]);
    }
  }

  lemma AddingNewAddressKeepsUnique(sensors: seq<SensorRow>, row: SensorRow)
    requires UniqueAddresses(sensors)
    requires forall i :: 0 <= i < |sensors| ==> sensors[i].macAddress != row.macAddress
    ensures UniqueAddresses(sensors + [row])
  {
  }

  lemma ResolvedIdIsListed(t: Tables, macAddress: string, id: int)
    requires LookupByAddress(t.sensors, macAddress) == Some(id)
    ensures id in SensorIds(t.sensors)
  {
    var i :| 0 <= i < |t.sensors| && t.sensors[i].macAddress == macAddress && t.sensors[i].id == id;
    assert t.sensors[i] in t.sensors;
  }

  lemma ReadingForListedSensorKeepsReferences(t: Tables, t': Tables, v: ReadingRow)
    requires ReadingsReferenceSensors(t)
    requires SensorIds(t.sensors) <= SensorIds(t'.sensors)
    requires t'.readings == t.readings + [v] && v.sensorId in SensorIds(t'.sensors)
    ensures ReadingsReferenceSensors(t')
  {
  }

  /** A request without faults for a known address appends one reading for that sensor. */
  lemma IngestKnownWithoutFaults(t: Tables, p: Params, now: Timestamp, id: int)
    requires t.Valid() && LookupByAddress(t.sensors, p.id) == Some(id)
    ensures var (t', reply) := Ingest(t, p, now, NoFaults);
      && reply == Done && t'.sensors == t.sensors
      && t'.readings == t.readings + [ReadingRow(t.nextReadingId, id, ValueOf(p, now))]
      && t'.nextReadingId == t.nextReadingId + 1
  {
  }

  /** A request without faults for an unknown address creates the sensor, then appends one reading for it. */
  lemma IngestUnknownWithoutFaults(t: Tables, p: Params, now: Timestamp)
    requires t.Valid() && LookupByAddress(t.sensors, p.id) == None
    ensures var (t', reply) := Ingest(t, p, now, NoFaults);
      && reply == Done && t'.sensors == t.sensors + [SensorRow(t.nextSensorId, p.id, p.id, now)]
      && t'.readings == t.readings + [ReadingRow(t.nextReadingId, t.nextSensorId, ValueOf(p, now))]
      && t'.nextReadingId == t.nextReadingId + 1
      && LookupByAddress(t'.sensors, p.id) == Some(t.nextSensorId)
  {
    LookupAfterAppend(t.sensors, SensorRow(t.nextSensorId, p.id, p.id, now), p.id);
  }

  /**
   * Two requests for the same address, one after the other, store both
   * readings under one sensor, whose `first_seen` is the first request's
   * time when that request created it, and never the second's.
   */
  lemma IngestTwiceSameSensor(t: Tables, p1: Params, p2: Params, now1: Timestamp, now2: Timestamp)
    requires t.Valid() && p1.id == p2.id
    ensures var first := Ingest(t, p1, now1, NoFaults);
      var second := Ingest(first.0, p2, now2, NoFaults);
      && first.1 == Done && second.1 == Done
      && second.0.sensors == first.0.sensors
      && |second.0.readings| == |t.readings| + 2
      && second.0.readings[|t.readings|] == ReadingRow(t.nextReadingId, ResolvedId(t, p1.id), ValueOf(p1, now1))
      && second.0.readings[|t.readings| + 1] == ReadingRow(t.nextReadingId + 1, ResolvedId(t, p1.id), ValueOf(p2, now2))
      && (LookupByAddress(t.sensors, p1.id) == None ==>
            second.0.sensors == t.sensors + [SensorRow(t.nextSensorId, p1.id, p1.id, now1)])
  {
    var id := ResolvedId(t, p1.id);
    var t1 := Ingest(t, p1, now1, NoFaults).0;
    if LookupByAddress(t.sensors, p1.id) == None {
      IngestUnknownWithoutFaults(t, p1, now1);
    } else {
      IngestKnownWithoutFaults(t, p1, now1, id);
    }
    IngestKnownWithoutFaults(t1, p2, now2, id);
  }

  /** One request to the handler: its parameters, its server time and the faults it meets. */
  datatype Request = Request(params: Params, now: Timestamp, faults: Faults)

  /** Requests handled one after the other. */
  function IngestAll(t: Tables, requests: seq<Request>): (t': Tables)
    requires t.Valid()
    ensures t'.Valid()
    decreases |requests|
  {
    if requests == [] then t
    else
      var r := requests[0];
      IngestAll(Ingest(t, r.params, r.now, r.faults).0, requests[1..])
  }

  function RequestedAddresses(requests: seq<Request>): set<string>
  {
    set r | r in requests :: r.params.id
  }

  /**
   * Under sequential ingestion the store stays consistent, sensor rows are
   * never altered or removed (so `first_seen` never moves), and every new
   * sensor is for an address some request named.
   */
  lemma {:induction false} IngestAllKeepsSensors(t: Tables, requests: seq<Request>)
    requires Consistent(t)
    ensures Consistent(IngestAll(t, requests))
    ensures t.sensors <= IngestAll(t, requests).sensors
    ensures Addresses(IngestAll(t, requests).sensors) <= Addresses(t.sensors) + RequestedAddresses(requests)
    decreases |requests|
  {
    if requests != [] {
      var r := requests[0];
      var t1 := Ingest(t, r.params, r.now, r.faults).0;
      IngestKeepsConsistent(t, r.params, r.now, r.faults);
      IngestCreatesOnlyUnknownSensor(t, r.params, r.now, r.faults);
      IngestAllKeepsSensors(t1, requests[1..]);
      var t2 := IngestAll(t1, requests[1..]);
      assert IngestAll(t, requests) == t2;
      assert Addresses(t1.sensors) <= Addresses(t.sensors) + {r.params.id};
      RequestedAddressesStep(requests);
      assert Addresses(t2.sensors) <= Addresses(t1.sensors) + RequestedAddresses(requests[1..]);
    }
  }

  lemma RequestedAddressesStep(requests: seq<Request>)
    requires requests != []
    ensures RequestedAddresses(requests) == {requests[0].params.id} + RequestedAddresses(requests[1..])
  {
    assert forall q :: q in requests <==> q == requests[0] || q in requests[1..];
  }

  /** Starting from an empty store, there are never more sensors than distinct addresses ingested. */
  lemma SensorCountBounded(requests: seq<Request>)
    ensures |IngestAll(Empty, requests).sensors| <= |RequestedAddresses(requests)|
  {
    var t := IngestAll(Empty, requests);
    IngestAllKeepsSensors(Empty, requests);
    UniqueAddressesCount(t.sensors);
    assert Addresses(Empty.sensors) == {};
    SubsetCardinality(Addresses(t.sensors), RequestedAddresses(requests));
  }

  lemma {:induction false} SubsetCardinality(a: set<string>, b: set<string>)
    requires a <= b
    ensures |a| <= |b|
    decreases |a|
  {
    if a != {} {
      var x :| x in a;
      SubsetCardinality(a - {x}, b - {x});
    }
  }

  /**
   * Two readings from a new address, the second later: one sensor, named
   * after the address and first seen at the first time, and the overview
   * lists it once, with the later reading.
   */
  lemma TwoReadingsFromNewSensor(p1: Params, p2: Params, now1: Timestamp, now2: Timestamp)
    requires p1.id == p2.id && now1 < now2
    ensures var t1 := Ingest(Empty, p1, now1, NoFaults).0;
      var t2 := Ingest(t1, p2, now2, NoFaults).0;
      && t2.sensors == [SensorRow(1, p1.id, p1.id, now1)]
      && LastValues(t2.sensors, t2.readings) == [SensorWithValue(1, p1.id, p1.id, ValueOf(p2, now2))]
  {
    var t1 := Ingest(Empty, p1, now1, NoFaults).0;
    var t2 := Ingest(t1, p2, now2, NoFaults).0;
    EmptyIsConsistent();
    IngestTwiceSameSensor(Empty, p1, p2, now1, now2);
    var s := SensorRow(1, p1.id, p1.id, now1);
    var v1 := ReadingRow(1, 1, ValueOf(p1, now1));
    var v2 := ReadingRow(2, 1, ValueOf(p2, now2));
    assert t2.sensors == [s] && t2.readings == [v1, v2];
    assert MaxReadingTime([v2], 1) == Some(now2);
    assert MaxReadingTime(t2.readings, 1) == Some(now2);
    assert !IsLatest(t2.readings, v1) && IsLatest(t2.readings, v2);
    assert LatestFor(s, [v2], t2.readings) == [JoinRow(s, v2)];
    assert LatestFor(s, t2.readings, t2.readings) == [JoinRow(s, v2)];
    assert Joined(t2.sensors, t2.readings) == [JoinRow(s, v2)];
  }
}
