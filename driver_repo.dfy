/**
 * The table operations of the driver service (driver-service/repo.py): the
 * location upsert, the offline update, the assigned-ride query with its
 * station lookup, the ride-completion writes and the location read.
 */
module DriverRepo {
  import opened Store

  /** The condition `driver_id = id`. */
  function DriverWithId(id: DriverId): DriverRow -> bool {
    (d: DriverRow) => d.driverId == id
  }

  /** The row stored for a driver id (the first one: with a unique key, the only one). */
  function LookupDriver(rows: seq<DriverRow>, id: DriverId): (r: Option<DriverRow>)
    ensures r.None? <==> forall i :: 0 <= i < |rows| ==> rows[i].driverId != id
    ensures r.Some? ==> r.value in rows && r.value.driverId == id
  {
    var k := IndexOfFirst(rows, DriverWithId(id));
    if k < |rows| then Some(rows[k]) else None
  }

  /** With a unique key, looking up a row's id finds that row. */
  lemma LookupUnique(rows: seq<DriverRow>, k: nat)
    requires UniqueDriverIds(rows) && k < |rows|
    ensures LookupDriver(rows, rows[k].driverId) == Some(rows[k])
  {
    var j := IndexOfFirst(rows, DriverWithId(rows[k].driverId));
    assert j <= k;
  }

  /** The upsert of update_driver_location_db: replace the row with that id, or append one. */
  function UpsertDriver(rows: seq<DriverRow>, row: DriverRow): seq<DriverRow> {
    if LookupDriver(rows, row.driverId).Some? then
      UpdateWhere(rows, DriverWithId(row.driverId), (d: DriverRow) => row)
    else
      rows + [row]
  }

  /**
   * After the upsert the driver's row is exactly the new one, every other
   * driver's row is unchanged, and the key stays unique.
   */
  lemma UpsertDriverEffect(rows: seq<DriverRow>, row: DriverRow)
    requires UniqueDriverIds(rows)
    ensures UniqueDriverIds(UpsertDriver(rows, row))
    ensures LookupDriver(UpsertDriver(rows, row), row.driverId) == Some(row)
    ensures forall id :: id != row.driverId ==> LookupDriver(UpsertDriver(rows, row), id) == LookupDriver(rows, id)
  {
    var after := UpsertDriver(rows, row);
    assert |after| >= |rows|;
    assert forall i :: 0 <= i < |rows| ==> after[i].driverId == rows[i].driverId;
    if LookupDriver(rows, row.driverId).None? {
      assert after[|rows|] == row;
    }
    assert UniqueDriverIds(after);
    var k :| 0 <= k < |after| && after[k] == row;
    LookupUnique(after, k);
    forall id | id != row.driverId
      ensures LookupDriver(after, id) == LookupDriver(rows, id)
    {
      if LookupDriver(rows, id).Some? {
        var j :| 0 <= j < |rows| && rows[j] == LookupDriver(rows, id).value;
        LookupUnique(rows, j);
        assert after[j] == rows[j];
        LookupUnique(after, j);
      }
    }
  }

  /** update_driver_location_db: replaces or creates the driver's row with the given columns. */
  method UpdateDriverLocationDb(db: Database, id: DriverId, x: real, y: real, status: string, now: Timestamp)
    requires db.Valid()
    modifies db`drivers
    ensures db.Valid()
    ensures db.drivers == UpsertDriver(old(db.drivers), DriverRow(id, x, y, status, now))
    ensures LookupDriver(db.drivers, id) == Some(DriverRow(id, x, y, status, now))
  {
    UpsertDriverEffect(db.drivers, DriverRow(id, x, y, status, now));
    db.drivers := UpsertDriver(db.drivers, DriverRow(id, x, y, status, now));
  }

  /**
   * The offline update touches only the status of that driver's row, and
   * changes nothing for an unknown id.
   */
  lemma SetOfflineEffect(rows: seq<DriverRow>, id: DriverId)
    requires UniqueDriverIds(rows)
    ensures LookupDriver(rows, id).None? ==> WithDriverStatus(rows, id, OFFLINE) == rows
    ensures LookupDriver(rows, id).Some? ==>
      LookupDriver(WithDriverStatus(rows, id, OFFLINE), id) == Some(LookupDriver(rows, id).value.(status := OFFLINE))
    ensures forall other :: other != id ==>
      LookupDriver(WithDriverStatus(rows, id, OFFLINE), other) == LookupDriver(rows, other)
  {
    var after := WithDriverStatus(rows, id, OFFLINE);
    WithDriverStatusKeepsKeys(rows, id, OFFLINE);
    forall k | 0 <= k < |rows|
      ensures LookupDriver(after, rows[k].driverId) == Some(after[k])
      ensures LookupDriver(rows, rows[k].driverId) == Some(rows[k])
    {
      LookupUnique(rows, k);
      LookupUnique(after, k);
    }
    if LookupDriver(rows, id).None? {
      assert forall i :: 0 <= i < |rows| ==> after[i] == rows[i];
    }
    forall other | other != id && LookupDriver(rows, other).None?
      ensures LookupDriver(after, other).None?
    {
      assert forall i :: 0 <= i < |rows| ==> after[i].driverId == rows[i].driverId;
    }
  }

  /** set_driver_offline_db: sets that driver's status to `offline`. */
  method SetDriverOfflineDb(db: Database, id: DriverId)
    requires db.Valid()
    modifies db`drivers
    ensures db.Valid()
    ensures db.drivers == WithDriverStatus(old(db.drivers), id, OFFLINE)
  {
    WithDriverStatusKeepsKeys(db.drivers, id, OFFLINE);
    db.drivers := WithDriverStatus(db.drivers, id, OFFLINE);
  }

  /** The station columns the assigned-ride query attaches: name and coordinates. */
  datatype StationInfo = StationInfo(name: string, x: real, y: real)

  /** The ride returned to a polling driver, with `stations` attached when the station was found. */
  datatype AssignedRide = AssignedRide(ride: RideRow, stations: Option<StationInfo>)

  /** The condition of the assigned-ride query: a `matched` ride of this driver. */
  function AssignedTo(driverId: DriverId): RideRow -> bool {
    (ride: RideRow) => ride.data.matchedDriverId == driverId && ride.data.status == MATCHED
  }

  /**
   * get_assigned_ride_db: None when the driver has no `matched` ride;
   * otherwise the first such ride in table order, with the first station of
   * its pickup id attached, if the ride names one and the lookup finds it.
   */
  function GetAssignedRideDb(rides: seq<RideRow>, stations: seq<StationRow>, driverId: DriverId): (r: Option<AssignedRide>)
    ensures r.None? <==>
      forall i :: 0 <= i < |rides| ==> !(rides[i].data.matchedDriverId == driverId && rides[i].data.status == MATCHED)
    ensures r.Some? ==>
      var k := IndexOfFirst(rides, AssignedTo(driverId));
      && k < |rides| && r.value.ride == rides[k]
      && r.value.ride.data.matchedDriverId == driverId && r.value.ride.data.status == MATCHED
    ensures r.Some? ==>
      var sid := r.value.ride.data.pickupStationId;
      var j := IndexOfFirst(stations, StationWithId(sid));
      r.value.stations == if sid != "" && j < |stations| then Some(StationInfo(stations[j].name, stations[j].x, stations[j].y)) else None
  {
    var matched := Filter(rides, AssignedTo(driverId));
    FilterHead(rides, AssignedTo(driverId));
    if matched == [] then
      None
    else
      var ride := matched[0];
      var sid := ride.data.pickupStationId;
      if sid == "" then
        Some(AssignedRide(ride, None))
      else
        var found := Filter(stations, StationWithId(sid));
        FilterHead(stations, StationWithId(sid));
        if found == [] then
          Some(AssignedRide(ride, None))
        else
          Some(AssignedRide(ride, Some(StationInfo(found[0].name, found[0].x, found[0].y))))
  }

  /** UPDATE ride_requests SET status = 'completed' WHERE id = rideId. */
  function CompletedRides(rides: seq<RideRow>, rideId: RowId): seq<RideRow> {
    UpdateWhere(rides, (r: RideRow) => r.id == rideId, (r: RideRow) => r.(data := r.data.(status := COMPLETED)))
  }

  /** UPDATE driver_locations SET status = 'available', x, y WHERE driver_id = driverId. */
  function FreedDrivers(drivers: seq<DriverRow>, driverId: DriverId, x: real, y: real): seq<DriverRow> {
    UpdateWhere(drivers, DriverWithId(driverId), (d: DriverRow) => d.(status := AVAILABLE, x := x, y := y))
  }

  /** After completion the ride is never again the one returned to a polling driver. */
  lemma CompletedRideNotAssigned(rides: seq<RideRow>, stations: seq<StationRow>, rideId: RowId, driverId: DriverId)
    ensures var r := GetAssignedRideDb(CompletedRides(rides, rideId), stations, driverId);
      r.Some? ==> r.value.ride.id != rideId
  {
    var after := CompletedRides(rides, rideId);
    assert forall i :: 0 <= i < |after| && after[i].id == rideId ==> after[i].data.status == COMPLETED;
  }

  /** The driver's row after completion is available at the final position; other rows are unchanged. */
  lemma FreedDriverEffect(rows: seq<DriverRow>, driverId: DriverId, x: real, y: real)
    requires UniqueDriverIds(rows)
    ensures UniqueDriverIds(FreedDrivers(rows, driverId, x, y))
    ensures LookupDriver(rows, driverId).Some? ==>
      LookupDriver(FreedDrivers(rows, driverId, x, y), driverId) ==
      Some(LookupDriver(rows, driverId).value.(status := AVAILABLE, x := x, y := y))
    ensures forall other :: other != driverId ==>
      LookupDriver(FreedDrivers(rows, driverId, x, y), other) == LookupDriver(rows, other)
  {
    var after := FreedDrivers(rows, driverId, x, y);
    assert forall i :: 0 <= i < |rows| ==> after[i].driverId == rows[i].driverId;
    assert UniqueDriverIds(after);
    forall k | 0 <= k < |rows|
      ensures LookupDriver(after, rows[k].driverId) == Some(after[k])
      ensures LookupDriver(rows, rows[k].driverId) == Some(rows[k])
    {
      LookupUnique(rows, k);
      LookupUnique(after, k);
    }
  }

  /**
   * complete_ride_transaction: the ride becomes `completed`, then the
   * driver becomes `available` at the final coordinates.
   */
  method CompleteRideTransaction(db: Database, rideId: RowId, driverId: DriverId, finalX: real, finalY: real)
    requires db.Valid()
    modifies db`rides, db`drivers
    ensures db.Valid()
    ensures db.rides == CompletedRides(old(db.rides), rideId)
    ensures db.drivers == FreedDrivers(old(db.drivers), driverId, finalX, finalY)
    ensures forall d :: GetAssignedRideDb(db.rides, db.stations, d).Some? ==>
      GetAssignedRideDb(db.rides, db.stations, d).value.ride.id != rideId
  {
    db.rides := CompletedRides(db.rides, rideId);
    FreedDriverEffect(db.drivers, driverId, finalX, finalY);
    db.drivers := FreedDrivers(db.drivers, driverId, finalX, finalY);
    forall d ensures GetAssignedRideDb(db.rides, db.stations, d).Some? ==>
      GetAssignedRideDb(db.rides, db.stations, d).value.ride.id != rideId
    {
      CompletedRideNotAssigned(old(db.rides), db.stations, rideId, d);
    }
  }

  /** fetch_driver_location, a `.single()` query: the driver's row, or a failure (None) unless exactly one row matches. */
  function FetchDriverLocation(rows: seq<DriverRow>, id: DriverId): (r: Option<DriverRow>)
    ensures r.Some? ==> r.value in rows && r.value.driverId == id
    ensures LookupDriver(rows, id).None? ==> r.None?
  {
    Single(Filter(rows, DriverWithId(id)))
  }

  /** With a unique key, the `.single()` read succeeds exactly when the driver has a row, and returns it. */
  lemma FetchIsLookup(rows: seq<DriverRow>, id: DriverId)
    ensures UniqueDriverIds(rows) ==> FetchDriverLocation(rows, id) == LookupDriver(rows, id)
  {
    if UniqueDriverIds(rows) && LookupDriver(rows, id).Some? {
      var k :| 0 <= k < |rows| && rows[k] == LookupDriver(rows, id).value;
      LookupUnique(rows, k);
      FilterSingleton(rows, DriverWithId(id), k);
    }
  }
}
