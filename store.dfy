/**
 * The shared database of the services (tables `driver_locations`,
 * `ride_requests`, `stations` and `trips`), modelled as in-memory tables.
 *
 * A table is a sequence of rows in storage order, so that a query's result
 * keeps its order and "the first row of the result" has a meaning.  The
 * generic functions below are the three kinds of statement the services send:
 * a filtered SELECT (`Filter`), a SELECT that must return exactly one row
 * (`Single`) and an UPDATE ... WHERE (`UpdateWhere`).
 */
module Store {

  datatype Option<T> = None | Some(value: T)

  datatype Result<T> = Ok(value: T) | Err

  type DriverId = string
  type RiderId = string
  type StationId = string

  /** Ids that the database generates for `ride_requests` and `trips` rows. */
  type RowId = nat

  /** A timestamp written by the services (ISO text); never inspected. */
  datatype Timestamp = Timestamp(iso: string)

  // Status values stored in the tables.
  const AVAILABLE: string := "available"
  const BUSY: string := "busy"
  const OFFLINE: string := "offline"
  const MATCHED: string := "matched"
  const COMPLETED: string := "completed"
  const SCHEDULED: string := "scheduled"
  const ACTIVE: string := "active"

  /** A row of `driver_locations`. */
  datatype DriverRow = DriverRow(driverId: DriverId, x: real, y: real, status: string, lastUpdated: Timestamp)

  /** A row of `stations` (static reference data). */
  datatype StationRow = StationRow(id: StationId, name: string, x: real, y: real)

  /** The columns a service writes when it inserts into `ride_requests`. */
  datatype RideData = RideData(
    riderId: RiderId,
    pickupStationId: StationId,
    matchedDriverId: DriverId,
    status: string,
    destination: Option<string>,
    arrivalTime: Option<string>)

  /** A row of `ride_requests`: the inserted columns plus the generated id. */
  datatype RideRow = RideRow(id: RowId, data: RideData)

  /** A row of `trips`. */
  datatype TripRow = TripRow(
    id: RowId,
    rideRequestId: RowId,
    driverId: DriverId,
    riderId: RiderId,
    status: string,
    pickupTime: Option<Timestamp>,
    dropoffTime: Option<Timestamp>)

  /** SELECT ... WHERE p: the rows satisfying p, in table order. */
  function Filter<T>(s: seq<T>, p: T -> bool): (r: seq<T>)
    ensures |r| <= |s|
    ensures forall i :: 0 <= i < |r| ==> r[i] in s && p(r[i])
    ensures forall i :: 0 <= i < |s| && p(s[i]) ==> s[i] in r
  {
    if s == [] then []
    else (if p(s[0]) then [s[0]] else []) + Filter(s[1..], p)
  }

  /** The index of the first row satisfying p, or |s| when there is none. */
  function IndexOfFirst<T>(s: seq<T>, p: T -> bool): (k: nat)
    ensures k <= |s|
    ensures k < |s| ==> p(s[k])
    ensures forall j :: 0 <= j < k ==> !p(s[j])
  {
    if s == [] then 0
    else if p(s[0]) then 0
    else 1 + IndexOfFirst(s[1..], p)
  }

  /** The first row of a SELECT's result is the first satisfying row of the table. */
  lemma {:induction false} FilterHead<T>(s: seq<T>, p: T -> bool)
    ensures Filter(s, p) == [] <==> IndexOfFirst(s, p) == |s|
    ensures Filter(s, p) != [] ==> Filter(s, p)[0] == s[IndexOfFirst(s, p)]
  {
    if s != [] && !p(s[0]) {
      FilterHead(s[1..], p);
    }
  }

  /** Inserting a row extends a SELECT's result by that row exactly when it qualifies. */
  lemma {:induction false} FilterAppend<T>(s: seq<T>, x: T, p: T -> bool)
    ensures Filter(s + [x], p) == Filter(s, p) + (if p(x) then [x] else [])
  {
    if s == [] {
      assert s + [x] == [x];
    } else {
      assert (s + [x])[0] == s[0];
      assert (s + [x])[1..] == s[1..] + [x];
      FilterAppend(s[1..], x, p);
    }
  }

  /** When exactly one row qualifies, the SELECT returns exactly that row. */
  lemma {:induction false} FilterSingleton<T>(s: seq<T>, p: T -> bool, k: nat)
    requires k < |s| && p(s[k])
    requires forall j :: 0 <= j < |s| && j != k ==> !p(s[j])
    ensures Filter(s, p) == [s[k]]
  {
    if k == 0 {
      FilterNone(s[1..], p);
    } else {
      FilterSingleton(s[1..], p, k - 1);
    }
  }

  /** When no row qualifies, the SELECT returns nothing. */
  lemma {:induction false} FilterNone<T>(s: seq<T>, p: T -> bool)
    requires forall j :: 0 <= j < |s| ==> !p(s[j])
    ensures Filter(s, p) == []
  {
    if s != [] {
      FilterNone(s[1..], p);
    }
  }

  /** UPDATE ... SET f WHERE p: every satisfying row is rewritten, the others are kept. */
  function UpdateWhere<T>(s: seq<T>, p: T -> bool, f: T -> T): (r: seq<T>)
    ensures |r| == |s|
    ensures forall i :: 0 <= i < |s| ==> r[i] == if p(s[i]) then f(s[i]) else s[i]
  {
    seq(|s|, i requires 0 <= i < |s| => if p(s[i]) then f(s[i]) else s[i])
  }

  /** An UPDATE whose WHERE matches nothing leaves the table as it was. */
  lemma UpdateNothing<T>(s: seq<T>, p: T -> bool, f: T -> T)
    requires forall i :: 0 <= i < |s| ==> !p(s[i])
    ensures UpdateWhere(s, p, f) == s
  {
  }

  /** A query ending in `.single()`: the one row, or a failure when there are zero or several. */
  function Single<T>(rows: seq<T>): (r: Option<T>)
    ensures r.Some? <==> |rows| == 1
    ensures r.Some? ==> r.value == rows[0]
  {
    if |rows| == 1 then Some(rows[0]) else None
  }

  /** `driver_id` is the primary key of `driver_locations`. */
  ghost predicate UniqueDriverIds(rows: seq<DriverRow>) {
    forall i, j :: 0 <= i < |rows| && 0 <= j < |rows| && rows[i].driverId == rows[j].driverId ==> i == j
  }

  /** UPDATE driver_locations SET status WHERE driver_id = id. */
  function WithDriverStatus(rows: seq<DriverRow>, id: DriverId, status: string): (r: seq<DriverRow>)
    ensures |r| == |rows|
    ensures forall i :: 0 <= i < |rows| ==>
      r[i] == if rows[i].driverId == id then rows[i].(status := status) else rows[i]
  {
    UpdateWhere(rows, (d: DriverRow) => d.driverId == id, (d: DriverRow) => d.(status := status))
  }

  /** A status update only touches the status column, so the primary key stays unique. */
  lemma WithDriverStatusKeepsKeys(rows: seq<DriverRow>, id: DriverId, status: string)
    requires UniqueDriverIds(rows)
    ensures UniqueDriverIds(WithDriverStatus(rows, id, status))
  {
    var r := WithDriverStatus(rows, id, status);
    assert forall i :: 0 <= i < |rows| ==> r[i].driverId == rows[i].driverId;
  }

  /** The condition `id = station id` of the station lookups. */
  function StationWithId(id: StationId): StationRow -> bool {
    (s: StationRow) => s.id == id
  }

  /** Trip ids are unique (the database generates them). */
  ghost predicate UniqueTripIds(trips: seq<TripRow>) {
    forall i, j :: 0 <= i < j < |trips| ==> trips[i].id != trips[j].id
  }

  /** The tables of the shared database, with the serial counters that generate row ids. */
  class Database {
    var drivers: seq<DriverRow>
    var rides: seq<RideRow>
    var stations: seq<StationRow>
    var trips: seq<TripRow>
    var nextRideId: RowId
    var nextTripId: RowId

    /** Primary keys: unique driver ids, and generated ids that are unique and below their counter. */
    ghost predicate Valid()
      reads this
    {
      && UniqueDriverIds(drivers)
      && (forall i :: 0 <= i < |rides| ==> rides[i].id < nextRideId)
      && (forall i, j :: 0 <= i < j < |rides| ==> rides[i].id != rides[j].id)
      && (forall i :: 0 <= i < |trips| ==> trips[i].id < nextTripId)
      && UniqueTripIds(trips)
    }

    /** An empty database over a given station directory. */
    constructor (stationDirectory: seq<StationRow>)
      ensures Valid()
      ensures drivers == [] && rides == [] && trips == [] && stations == stationDirectory
    {
      drivers, rides, trips := [], [], [];
      stations := stationDirectory;
      nextRideId, nextTripId := 0, 0;
    }
  }
}
