/**
 * The store as the program uses it through one connection: the two tables
 * live in a `Database` object whose insert statements append rows in place.
 * Whether the connection fails a statement is an input (`ioError`); a failed
 * statement leaves both tables as they were.
 */
module Db {
  import opened Wrappers
  import opened Records
  import opened Queries

  class Database {
    var sensors: seq<SensorRow>
    var readings: seq<ReadingRow>
    var nextSensorId: int
    var nextReadingId: int

    /** Both tables as one value. */
    function State(): Tables
      reads this
    {
      Tables(sensors, readings, nextSensorId, nextReadingId)
    }

    predicate Valid()
      reads this
    {
      State().Valid()
    }

    /** A freshly migrated database. */
    constructor ()
      ensures Valid() && State() == Empty
    {
      sensors, readings := [], [];
      nextSensorId, nextReadingId := 1, 1;
    }

    /** `find_sensor_id`: the id of the sensor with this address, if any. */
    method FindSensorId(macAddress: string, ioError: bool) returns (r: Result<Option<int>, StorageError>)
      ensures ioError <==> r.Err?
      ensures r.Ok? ==> r.value == LookupByAddress(sensors, macAddress)
    {
      if ioError {
        return Err(IoError);
      }
      r := Ok(LookupByAddress(sensors, macAddress));
    }

    /** `insert_sensor`: adds a sensor named after its address and returns its new rowid. */
    method InsertSensor(macAddress: string, firstSeen: Timestamp, ioError: bool) returns (r: Result<int, StorageError>)
      requires Valid()
      modifies this
      ensures Valid()
      ensures ioError <==> r.Err?
      ensures r.Err? ==> State() == old(State())
      ensures r.Ok? ==> r.value == old(nextSensorId) && State() == old(State()).WithSensor(macAddress, firstSeen)
    {
      if ioError {
        return Err(IoError);
      }
      var t := State().WithSensor(macAddress, firstSeen);
      r := Ok(nextSensorId);
      sensors, nextSensorId := t.sensors, t.nextSensorId;
    }

    /** `insert_sensor_value`: adds one reading for `sensorId` and returns its new rowid. */
    method InsertSensorValue(sensorId: int, value: SensorValue, ioError: bool) returns (r: Result<int, StorageError>)
      requires Valid()
      modifies this
      ensures Valid()
      ensures ioError <==> r.Err?
      ensures r.Err? ==> State() == old(State())
      ensures r.Ok? ==> r.value == old(nextReadingId) && State() == old(State()).WithReading(sensorId, value)
    {
      if ioError {
        return Err(IoError);
      }
      var t := State().WithReading(sensorId, value);
      r := Ok(nextReadingId);
      readings, nextReadingId := t.readings, t.nextReadingId;
    }

    /** `get_sensors_with_last_value`: the latest reading of every sensor, ordered by name. */
    method GetSensorsWithLastValue(ioError: bool) returns (r: Result<seq<SensorWithValue>, StorageError>)
      ensures ioError <==> r.Err?
      ensures r.Ok? ==> r.value == LastValues(sensors, readings)
    {
      if ioError {
        return Err(IoError);
      }
      r := Ok(LastValues(sensors, readings));
    }
  }
}
