/**
 * The rows of the two tables the store works on (`sensor` and
 * `sensor_data`), the record shapes its queries return, and the whole
 * store as one value.
 */
module Records {

  /** An instant as the program holds it: nanoseconds since the Unix epoch. */
  type Timestamp = int

  /** A 32-bit float measurement, kept as its bit pattern: nothing computes with it. */
  type F32 = bv32

  /** Any failure the connection reports for a statement. */
  datatype StorageError = IoError

  /** A row of `sensor`. */
  datatype SensorRow = SensorRow(id: int, macAddress: string, name: string, firstSeen: Timestamp)

  /** `SensorValue`: the measurements of one reading and when it was taken. */
  datatype SensorValue = SensorValue(co2: F32, temperature: F32, humidity: F32, lumen: F32, readingTime: Timestamp)

  /** A row of `sensor_data`. */
  datatype ReadingRow = ReadingRow(id: int, sensorId: int, value: SensorValue)

  /** `SensorWithValue`: a sensor joined with one of its readings. */
  datatype SensorWithValue = SensorWithValue(id: int, name: string, macAddress: string, value: SensorValue)

  /**
   * The rowid SQLite gives the next row: one more than the largest rowid in
   * the table (here the last, since rowids ascend), or 1 for an empty table.
   */
  function NextRowId(lastId: int, isEmpty: bool): int
  {
    if isEmpty then 1 else lastId + 1
  }

  predicate SensorIdsAscending(sensors: seq<SensorRow>)
  {
    && (forall i, j :: 0 <= i < j < |sensors| ==> sensors[i].id < sensors[j].id)
    && (sensors != [] ==> sensors[0].id >= 1)
  }

  predicate ReadingIdsAscending(readings: seq<ReadingRow>)
  {
    && (forall i, j :: 0 <= i < j < |readings| ==> readings[i].id < readings[j].id)
    && (readings != [] ==> readings[0].id >= 1)
  }

  function SensorIds(sensors: seq<SensorRow>): set<int>
  {
    set s | s in sensors :: s.id
  }

  function Addresses(sensors: seq<SensorRow>): set<string>
  {
    set s | s in sensors :: s.macAddress
  }

  /** No two sensor rows share a hardware address. */
  predicate UniqueAddresses(sensors: seq<SensorRow>)
  {
    forall i, j :: 0 <= i < j < |sensors| ==> sensors[i].macAddress != sensors[j].macAddress
  }

  /** Every sensor still carries the name it was created with: its own address. */
  predicate NamesAreAddresses(sensors: seq<SensorRow>)
  {
    forall s :: s in sensors ==> s.name == s.macAddress
  }

  /** Both tables in insertion order, with the rowid each will give its next row. */
  datatype Tables = Tables(sensors: seq<SensorRow>, readings: seq<ReadingRow>, nextSensorId: int, nextReadingId: int)
  {
    /** Rows are only ever appended, so rowids ascend and the next one follows the last. */
    predicate Valid()
    {
      && SensorIdsAscending(sensors)
      && ReadingIdsAscending(readings)
      && nextSensorId == NextRowId(if sensors == [] then 0 else sensors[|sensors| - 1].id, sensors == [])
      && nextReadingId == NextRowId(if readings == [] then 0 else readings[|readings| - 1].id, readings == [])
    }

    /** `INSERT INTO sensor (mac_address, name, first_seen) VALUES ($1, $1, $2)`. */
    function WithSensor(macAddress: string, firstSeen: Timestamp): (t: Tables)
      requires Valid()
      ensures t.Valid()
      ensures |t.sensors| == |sensors| + 1 && t.sensors[..|sensors|] == sensors
      ensures var added := t.sensors[|sensors|];
        && added.id == nextSensorId
        && added.id !in SensorIds(sensors)
        && added.macAddress == macAddress && added.name == macAddress
        && added.firstSeen == firstSeen
      ensures t.readings == readings && t.nextReadingId == nextReadingId
    {
      NextIdIsFresh(this);
      Tables(sensors + [SensorRow(nextSensorId, macAddress, macAddress, firstSeen)], readings, nextSensorId + 1, nextReadingId)
    }

    /** `INSERT INTO sensor_data (sensor_id, co2, temperature, humidity, lumen, reading_time) VALUES (...)`. */
    function WithReading(sensorId: int, value: SensorValue): (t: Tables)
      requires Valid()
      ensures t.Valid()
      ensures |t.readings| == |readings| + 1 && t.readings[..|readings|] == readings
      ensures var added := t.readings[|readings|];
        && added.id == nextReadingId
        && (forall v :: v in readings ==> v.id < added.id)
        && added.sensorId == sensorId && added.value == value
      ensures t.sensors == sensors && t.nextSensorId == nextSensorId
    {
      Tables(sensors, readings + [ReadingRow(nextReadingId, sensorId, value)], nextSensorId, nextReadingId + 1)
    }
  }

  /** A freshly migrated database: both tables empty. */
  const Empty: Tables := Tables([], [], 1, 1)

  /** The next sensor rowid exceeds every rowid in use, so it names no existing sensor. */
  lemma NextIdIsFresh(t: Tables)
    requires t.Valid()
    ensures forall s :: s in t.sensors ==> s.id < t.nextSensorId
    ensures t.nextSensorId !in SensorIds(t.sensors)
  {
    forall s | s in t.sensors
      ensures s.id < t.nextSensorId
    {
      var i :| 0 <= i < |t.sensors| && t.sensors[i] == s;
      if i < |t.sensors| - 1 {
        assert t.sensors[i].id < t.sensors[|t.sensors| - 1].id;
      }
    }
  }

  /** With unique addresses there are exactly as many sensors as addresses. */
  lemma {:induction false} UniqueAddressesCount(sensors: seq<SensorRow>)
    requires UniqueAddresses(sensors)
    ensures |Addresses(sensors)| == |sensors|
  {
    if sensors != [] {
      var n := |sensors| - 1;
      var init := sensors[..n];
      assert UniqueAddresses(init);
      UniqueAddressesCount(init);
      assert sensors == init + [sensors[n]];
      assert Addresses(sensors) == Addresses(init) + {sensors[n].macAddress};
      assert sensors[n].macAddress !in Addresses(init);
    }
  }
}
