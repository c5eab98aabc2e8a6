/**
 * The table queries of the matching service (matching-service/repo.py):
 * three reads, modelled as functions of the tables, and two writes, modelled
 * as methods on the shared database.
 */
module MatchingRepo {
  import opened Store

  /** The condition of `get_active_ride`: a ride of this rider whose status is `matched`. */
  function ActiveRideOf(rider: RiderId): RideRow -> bool {
    (ride: RideRow) => ride.data.riderId == rider && ride.data.status == MATCHED
  }

  /** get_active_ride: exactly the rider's rides whose status is `matched`, in table order. */
  function ActiveRides(rides: seq<RideRow>, rider: RiderId): (r: seq<RideRow>)
    ensures forall i :: 0 <= i < |r| ==> r[i] in rides && r[i].data.riderId == rider && r[i].data.status == MATCHED
    ensures forall i :: 0 <= i < |rides| && rides[i].data.riderId == rider && rides[i].data.status == MATCHED ==>
      rides[i] in r
  {
    Filter(rides, ActiveRideOf(rider))
  }

  /** Inserting a ride adds it to the rider's active rides exactly when it is a `matched` ride of that rider. */
  lemma ActiveRidesAfterInsert(rides: seq<RideRow>, row: RideRow, rider: RiderId)
    ensures ActiveRides(rides + [row], rider) ==
      ActiveRides(rides, rider) + (if row.data.riderId == rider && row.data.status == MATCHED then [row] else [])
  {
    FilterAppend(rides, row, ActiveRideOf(rider));
  }

  /** Row k is the one and only station with this id. */
  ghost predicate OnlyStationAt(stations: seq<StationRow>, id: StationId, k: int) {
    0 <= k < |stations| && stations[k].id == id &&
    forall j :: 0 <= j < |stations| && j != k ==> stations[j].id != id
  }

  /**
   * get_station_by_id, a `.single()` query: the station with that id; a
   * missing id (and a duplicated one) makes the query fail, modelled as None.
   */
  function StationById(stations: seq<StationRow>, id: StationId): (r: Option<StationRow>)
    ensures r.Some? ==> r.value in stations && r.value.id == id
    ensures (forall i :: 0 <= i < |stations| ==> stations[i].id != id) ==> r.None?
    ensures forall k :: OnlyStationAt(stations, id, k) ==> r == Some(stations[k])
  {
    var found := Filter(stations, StationWithId(id));
    assert forall k :: OnlyStationAt(stations, id, k) ==> found == [stations[k]] by {
      forall k | OnlyStationAt(stations, id, k) ensures found == [stations[k]] {
        FilterSingleton(stations, StationWithId(id), k);
      }
    }
    Single(found)
  }

  /** The condition of `get_available_drivers`. */
  predicate IsAvailable(d: DriverRow) {
    d.status == AVAILABLE
  }

  /** get_available_drivers: exactly the drivers whose status is `available`, in table order. */
  function AvailableDrivers(drivers: seq<DriverRow>): (r: seq<DriverRow>)
    ensures forall i :: 0 <= i < |r| ==> r[i] in drivers && r[i].status == AVAILABLE
    ensures forall i :: 0 <= i < |drivers| && drivers[i].status == AVAILABLE ==> drivers[i] in r
  {
    Filter(drivers, IsAvailable)
  }

  /**
   * After `set_driver_busy(id)` the available drivers are the ones that were
   * available before, except those with that id: a later request cannot
   * select the driver again, and no other driver's availability changes.
   */
  lemma AvailableAfterSetBusy(drivers: seq<DriverRow>, id: DriverId)
    ensures forall d :: d in AvailableDrivers(WithDriverStatus(drivers, id, BUSY)) <==>
      d in AvailableDrivers(drivers) && d.driverId != id
  {
    var after := WithDriverStatus(drivers, id, BUSY);
    forall d
      ensures d in AvailableDrivers(after) <==> d in AvailableDrivers(drivers) && d.driverId != id
    {
      if d in AvailableDrivers(after) {
        var i :| 0 <= i < |after| && after[i] == d;
        assert drivers[i].driverId != id;
        assert drivers[i] == d;
      }
      if d in AvailableDrivers(drivers) && d.driverId != id {
        var i :| 0 <= i < |drivers| && drivers[i] == d;
        assert after[i] == d;
      }
    }
  }

  /** create_ride_request: appends one ride, with a fresh generated id; existing rides are unchanged. */
  method CreateRideRequest(db: Database, ride: RideData) returns (row: RideRow)
    requires db.Valid()
    modifies db`rides, db`nextRideId
    ensures db.Valid()
    ensures row == RideRow(old(db.nextRideId), ride)
    ensures db.rides == old(db.rides) + [row]
    ensures db.nextRideId == old(db.nextRideId) + 1
  {
    row := RideRow(db.nextRideId, ride);
    db.rides := db.rides + [row];
    db.nextRideId := db.nextRideId + 1;
  }

  /** set_driver_busy: sets the status of that driver's row to `busy`; other rows and columns are unchanged. */
  method SetDriverBusy(db: Database, id: DriverId)
    requires db.Valid()
    modifies db`drivers
    ensures db.Valid()
    ensures db.drivers == WithDriverStatus(old(db.drivers), id, BUSY)
  {
    WithDriverStatusKeepsKeys(db.drivers, id, BUSY);
    db.drivers := WithDriverStatus(db.drivers, id, BUSY);
  }
}
