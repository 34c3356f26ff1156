# co2ampel sensor store, modelled in Dafny

This project models the storage core of the CO2 dashboard (co2ampel, Rust
version). Sensors report CO2, temperature, humidity and light readings over
HTTP, identified by a hardware address. The server keeps two SQLite tables:

- `sensor`: one row per device, with `id`, `mac_address`, `name` and `first_seen`;
- `sensor_data`: one row per reading, with `sensor_id`, the four measurements and `reading_time`.

The model covers four parts:

- the four statements in `rust/src/db.rs`: look a sensor up by address, insert a sensor, insert a reading, and list the latest reading of every sensor ordered by name;
- the ingestion handler `receive_sensor_values` in `rust/src/main.rs`: look the address up, create the sensor if absent, then append the reading stamped with the same server time;
- the floor-to-millisecond rounding of that server time (`current_time_millis`);
- what sequential ingestion keeps true of the store.

Modules, one file each:

- `wrappers.dfy` (`Wrappers`): `Option` and `Result`.
- `clock.dfy` (`Clock`): `current_time_millis` as a pure function on integer nanoseconds.
- `records.dfy` (`Records`): the rows, the record shapes `SensorValue` and `SensorWithValue`, and both tables as one value `Tables`. It also defines the two inserts as functions on that value and SQLite's rowid rule (one more than the largest rowid, which is the last one since rowids ascend; 1 for an empty table).
- `queries.dfy` (`Queries`): the two read-only statements as functions on the tables. The lookup is a search by address. The latest-value query is an inner join, filtered on each sensor's maximum `reading_time`, then sorted by name.
- `db.dfy` (`Db`): class `Database`. Its fields are the two tables as sequences plus the next rowid of each table. The insert methods append in place (`modifies this`). The two query methods have no `modifies` clause, so they cannot change the store.
- `ingestion.dfy` (`Ingestion`): the handler as a method over a `Database`, proved against the specification function `Ingest`, and lemmas about one request, two requests and any sequence of requests.

Inputs the program takes from the outside are parameters. The wall-clock reading is an integer number of nanoseconds. Whether the connection fails a given statement is a boolean; a failed statement changes nothing. The handler calls `unwrap()` on every storage result, so a failure makes it panic instead of answering "done"; the model shows this as the reply `Aborted`.

## Model

| member | source | states |
|---|---|---|
| Clock.CurrentTimeMillis | rust/src/main.rs:97-105 | the rounded instant is a whole millisecond, not after the input and less than one millisecond before it (floor mode, negative instants included) |
| Clock.FloorIsGreatestWholeMilli | rust/src/main.rs:99-103 | the result is the greatest whole millisecond not after the input |
| Clock.FloorIsIdempotent | rust/src/main.rs:99-103 | rounding twice gives the same as rounding once |
| Clock.FloorIsMonotone | rust/src/main.rs:99-103 | a later instant never rounds to an earlier millisecond |
| Clock.FloorStaysInRange | rust/src/main.rs:104 | rounding cannot leave a range whose lower end is a whole millisecond; given that jiff's smallest representable instant is a whole millisecond (it is a whole second), this is why the handler treats a rounding failure as impossible |
| Records.Tables.WithSensor | rust/src/db.rs:56-66 | adds exactly one sensor row; its name is its address, its `first_seen` is the given time, and its id is new; all existing sensor rows and the readings are unchanged; rowids stay ascending |
| Records.Tables.WithReading | rust/src/db.rs:75-89 | adds exactly one reading row with the given sensor id and value and a new rowid larger than every existing one; existing readings and the sensor table are unchanged |
| Records.NextIdIsFresh | rust/src/db.rs:64-66 | the rowid the next sensor gets is larger than every id in use, so no existing sensor has it |
| Records.UniqueAddressesCount | rust/src/db.rs:58-59 | when no two rows share an address, the table has exactly as many rows as addresses |
| Queries.LookupByAddress | rust/src/db.rs:38-47 | returns `Some` exactly when a row with that address exists, and then the id of such a row; otherwise `None` |
| Queries.LookupFindsTheRow | rust/src/db.rs:38-47 | when addresses are unique, the lookup returns the id of the one row with the address |
| Queries.LookupAfterAppend | rust/src/db.rs:38-47 | after one row is appended, the lookup still finds an earlier row first; otherwise it finds the new row when the address matches |
| Queries.MaxReadingTime | rust/src/db.rs:100 | the subquery `max(reading_time)` is NULL exactly when the sensor has no reading; otherwise it is attained by one of the sensor's readings and no reading of the sensor is later, in integer time order |
| Queries.LatestFor | rust/src/db.rs:97-100 | for one sensor, the join keeps exactly the readings of that sensor taken at its maximum reading time (how often each row occurs: `Queries.LatestForCount`) |
| Queries.Joined | rust/src/db.rs:96-100 | a row is in the join exactly when it pairs a sensor with one of its readings taken at that sensor's maximum time |
| Queries.LatestForCount | rust/src/db.rs:97-100 | each row occurs in one sensor's part of the join exactly as often as there are readings of that sensor at its maximum time that produce it |
| Queries.JoinedCount | rust/src/db.rs:96-100 | each row occurs in the join exactly as often as there are (sensor, reading) pairs, reading at that sensor's maximum time, that produce it |
| Queries.NameLeTotal | rust/src/db.rs:101 | any two names are comparable under the byte-wise collation |
| Queries.NameLeTransitive | rust/src/db.rs:101 | the byte-wise collation is transitive |
| Queries.InsertByName | rust/src/db.rs:101 | inserting a row into a list sorted by name keeps it sorted and adds exactly that row |
| Queries.SortByName | rust/src/db.rs:101 | the result is sorted by name ascending and is a permutation of the input |
| Queries.LastValues | rust/src/db.rs:93-106 | the result is sorted by name, is a permutation of the join, and holds exactly the sensor/reading pairs whose reading is at the sensor's maximum time |
| Queries.LastValuesCount | rust/src/db.rs:93-106 | each row of the overview occurs exactly as often as there are matching (sensor, reading) pairs, so readings tied at the maximum give one row each even when their payloads are equal |
| Queries.SameMembers | rust/src/db.rs:101 | ordering the rows neither adds nor drops any |
| Queries.LatestRowCarriesMax | rust/src/db.rs:100 | every listed row carries one of its sensor's readings, and no reading of that sensor is later, in integer time order |
| Queries.SensorWithoutReadingsAbsent | rust/src/db.rs:98-99 | inner join: a sensor with no readings is never listed |
| Queries.TiedReadingAppears | rust/src/db.rs:99-100 | every reading taken at its sensor's latest time is listed, so readings tied at the maximum all appear |
| Queries.ReadingAtMaxIsLatest | rust/src/db.rs:100 | a reading that no other reading of its sensor is later than passes the WHERE clause |
| Queries.LatestIsListed | rust/src/db.rs:97-100 | a reading that passes the WHERE clause for an existing sensor appears in the result, joined with that sensor |
| Queries.SensorWithReadingsAppears | rust/src/db.rs:98-100 | every sensor with at least one reading is listed at least once, with its own id, name and address and its maximum reading time |
| Db.Database.constructor | rust/src/db.rs:22-26 | a freshly migrated database has both tables empty |
| Db.Database.FindSensorId | rust/src/db.rs:34-49 | fails exactly when the connection fails; otherwise returns the lookup on the current sensor table; has no `modifies` clause, so the store is unchanged |
| Db.Database.InsertSensor | rust/src/db.rs:51-68 | on success returns the old next rowid and the tables become `WithSensor` of the old tables; on failure the store is unchanged; the store stays valid |
| Db.Database.InsertSensorValue | rust/src/db.rs:70-91 | on success returns the old next reading rowid and the tables become `WithReading` of the old tables; on failure the store is unchanged |
| Db.Database.GetSensorsWithLastValue | rust/src/db.rs:93-106 | fails exactly when the connection fails; otherwise returns `LastValues` of the current tables; has no `modifies` clause, so the store is unchanged |
| Ingestion.Append | rust/src/main.rs:77-86 | appending never touches the sensor table; a successful append adds exactly the reading row with the next rowid, the given sensor id and the request's values at the given time; an aborted append leaves the tables unchanged |
| Ingestion.Ingest | rust/src/main.rs:62-89 | one request keeps the tables valid and never alters or removes existing rows of either table |
| Ingestion.ReceiveSensorValues | rust/src/main.rs:62-89 | the handler, run on a `Database`, leaves it in the state `Ingest` gives for the millisecond-floored clock reading, and answers as `Ingest` says |
| Ingestion.IngestReusesKnownSensor | rust/src/main.rs:69-71 | when the lookup finds the address, no sensor row is created and the new reading goes to that sensor's id |
| Ingestion.IngestCreatesOnlyUnknownSensor | rust/src/main.rs:69-76 | a sensor row is added only when the lookup found none; then it is exactly one row, named after the address, first seen at the request's time |
| Ingestion.IngestAppendsOneReading | rust/src/main.rs:77-86 | a request answered "done" added exactly one reading, for the resolved sensor, taken at the same time a new sensor gets as `first_seen`; other replies added none |
| Ingestion.IngestDoneIffNoFault | rust/src/main.rs:68-88 | "done" is answered exactly when no step the request reached failed |
| Ingestion.NoRollbackAfterCreate | rust/src/main.rs:72-86 | when the append fails after the sensor was created, the new sensor row stays, no reading is added, and the reply is not "done" |
| Ingestion.IngestKeepsConsistent | rust/src/main.rs:69-86 | one request keeps addresses unique, every name equal to its address and every reading attached to an existing sensor |
| Ingestion.IngestKnownWithoutFaults | rust/src/main.rs:69-71 | a request without faults for a known address answers "done", leaves the sensor table alone and appends exactly one reading for that sensor |
| Ingestion.IngestUnknownWithoutFaults | rust/src/main.rs:72-86 | a request without faults for an unknown address creates exactly one sensor named after it and first seen at the request's time, appends one reading for the new id, and afterwards the lookup finds that id |
| Ingestion.IngestTwiceSameSensor | rust/src/main.rs:69-86 | two requests for the same address, one after the other, both store readings under the same sensor id; a sensor the first created keeps the first request's time as `first_seen` |
| Ingestion.IngestAll | rust/src/main.rs:62-89 | handling requests one after another keeps the tables valid |
| Ingestion.IngestAllKeepsSensors | rust/src/main.rs:69-76 | under sequential ingestion the store stays consistent; existing sensor rows are never changed, so `first_seen` never moves; every new sensor is for a requested address |
| Ingestion.SensorCountBounded | rust/src/main.rs:69-76 | from an empty store, there are never more sensor rows than distinct addresses ingested |
| Ingestion.TwoReadingsFromNewSensor | rust/src/main.rs:67-86 | two readings from a new address, the second later, give one sensor named after the address and first seen at the first time; the overview lists it once, with the reading that is later in integer time order |

## Left out

- Connection pool setup, migrations and connection acquisition (`rust/src/db.rs:13-31`) are I/O. The `Database` constructor stands for a freshly migrated, empty database. A failed connection acquisition in the handler is one of the fault inputs.
- The router, listener, tracing, environment loading and the HTML page of `index` (`rust/src/main.rs:14-46`, `91-95`) are plumbing and presentation. What a client receives after a handler panic is not modelled beyond "not done".
- `Timestamp::now()` is an input: the handler takes the clock reading in nanoseconds as a parameter.
- jiff's bounds on representable instants are not modelled. `Clock.FloorStaysInRange` shows that rounding stays within any range whose lower end is a whole millisecond; that rounding cannot fail in the program rests on jiff's smallest instant being a whole millisecond (it is a whole second).
- Timestamps are stored as text and formatted and parsed by jiff. The model keeps them as integers and compares them as integers in `max(reading_time)`. It does not claim that the stored text sorts chronologically.
- Queries.MaxReadingTime: "maximum" and "later" are the model's integer order, not SQLite's text order. jiff prints `2024-01-01T00:00:45Z` for a whole second and `2024-01-01T00:00:45.5Z` half a second later; `Z` (0x5A) sorts after `.` (0x2E), so SQLite's `max()` picks the earlier instant.
- Queries.LatestRowCarriesMax: holds in integer time order only; with the two texts above, the program lists the reading at 45 s, not the one at 45.5 s.
- Ingestion.TwoReadingsFromNewSensor: "the later reading" is later in integer time order; when the first reading falls on a whole second and the second half a second after it, the program lists the first reading instead.
- The four measurements are 32-bit floats. The model keeps each as the bit pattern the handler parsed, and nothing in the model computes with them. This does not claim that the store gives back every pattern unchanged; the two lines below name the exceptions.
- Ingestion.IngestUnknownWithoutFaults: a NaN measurement is not modelled. `f32::from_str` accepts `NaN`, sqlx binds each value as a double, and SQLite stores a NaN double as NULL. If the column is NOT NULL the insert fails and the handler panics; otherwise the overview cannot return the NaN. The model stores the bit pattern and answers "done". The same holds for `Ingestion.IngestKnownWithoutFaults`, `Ingestion.IngestDoneIffNoFault` and `Ingestion.TwoReadingsFromNewSensor`.
- Db.Database.GetSensorsWithLastValue: a negative-zero measurement is read back as positive zero. This is not modelled. `f32::from_str` accepts `-0` and `-0.0`, and sqlx binds each value as a double. The columns are `Float` in `rust/src/schema.rs:16-19`, that is, REAL affinity. Section 3 ("Type Affinity") of SQLite's "Datatypes In SQLite" says such a column may store a floating-point value with no fractional part as an integer and convert it back to floating point on reading, so the sign of -0.0 is lost. The model keeps the pattern `0x80000000`, so `Queries.LastValues`, `Ingestion.TwoReadingsFromNewSensor`, `Ingestion.IngestUnknownWithoutFaults` and `Ingestion.IngestKnownWithoutFaults` return -0.0 where the program returns 0.0.
- The database schema is not shown in the source, so the model has no UNIQUE constraint on `mac_address` and no foreign key on `sensor_id`. The store accepts any insert. Unique addresses and readings that point at existing sensors are proved as consequences of sequential ingestion (`Ingestion.IngestKeepsConsistent`), not enforced by the store.
- Concurrency: two first requests for the same address racing each other, and any retry on a duplicate, are not modelled. The handler has no retry, and only sequential execution is modelled.
- Rowids are unbounded integers. SQLite's switch to random rowids once the largest rowid reaches 2^63-1 is not modelled.
- `Queries.LastValues` fixes one order among rows whose names are equal (a stable insertion sort); SQLite leaves that order unspecified, so only sortedness and the set of rows (with multiplicity) are claimed.
- Tie-break at the maximum time: the query lists every reading tied at a sensor's maximum `reading_time`, and the model does the same; no single reading is picked.
- Range, history and per-sensor detail queries do not exist in these source files and are not modelled. `rust/src/schema.rs` only supplies the field lists of the two row types.
