/**
 * The earlier dispatch handler (matching-service/main.py): the same lookup,
 * argmin and writes as Matching.RequestRide, but with no active-ride guard
 * and a request that carries only the rider and the station.
 */
module LegacyMatching {
  import opened Store
  import opened MatchingRepo
  import opened Matching

  /** The earlier request body: rider and pickup station only. */
  datatype LegacyRideRequest = LegacyRideRequest(riderId: RiderId, stationId: StationId)

  /**
   * request_ride of the earlier handler; `readsOk` tells whether its two
   * reads (station, available drivers) succeed.
   */
  method LegacyRequestRide(db: Database, req: LegacyRideRequest, readsOk: bool) returns (outcome: MatchOutcome)
    requires db.Valid()
    modifies db`rides, db`nextRideId, db`drivers
    ensures db.Valid()
    // there is no active-ride guard
    ensures !outcome.RideInProgress?
    ensures outcome.ServerError? <==> !readsOk || StationById(db.stations, req.stationId).None?
    ensures outcome.NoDrivers? <==>
      readsOk && StationById(db.stations, req.stationId).Some? && AvailableDrivers(old(db.drivers)) == []
    ensures !outcome.Matched? ==>
      db.rides == old(db.rides) && db.drivers == old(db.drivers) && db.nextRideId == old(db.nextRideId)
    ensures outcome.Matched? ==>
      var station := StationById(db.stations, req.stationId).value;
      var cands := AvailableDrivers(old(db.drivers));
      exists k :: FirstNearest(cands, station.x, station.y, k) &&
        cands[k].driverId == outcome.driverId &&
        outcome.squaredDistance == DistanceTo(cands[k], station.x, station.y)
    ensures outcome.Matched? ==>
      db.rides == old(db.rides) + [RideRow(old(db.nextRideId),
        RideData(req.riderId, req.stationId, outcome.driverId, MATCHED, None, None))]
    ensures outcome.Matched? ==> db.drivers == WithDriverStatus(old(db.drivers), outcome.driverId, BUSY)
    // a rider who already has matched rides gets one more
    ensures outcome.Matched? ==>
      ActiveRides(db.rides, req.riderId) == ActiveRides(old(db.rides), req.riderId) + [db.rides[|db.rides| - 1]]
    ensures Exclusive(old(db.rides), old(db.drivers)) ==> Exclusive(db.rides, db.drivers)
  {
    if !readsOk {
      return ServerError;
    }
    var station := StationById(db.stations, req.stationId);
    if station.None? {
      return ServerError;
    }
    var sx, sy := station.value.x, station.value.y;
    var available := AvailableDrivers(db.drivers);
    if available == [] {
      return NoDrivers;
    }
    var best, minDist := SelectNearest(available, sx, sy);
    var driver := available[best.value];
    ghost var rides0 := db.rides;
    RecordMatch(db, RideData(req.riderId, req.stationId, driver.driverId, MATCHED, None, None), driver);
    ActiveRidesAfterInsert(rides0, db.rides[|db.rides| - 1], req.riderId);
    assert rides0 + [db.rides[|db.rides| - 1]] == db.rides;
    outcome := Matched(driver.driverId, minDist.value);
  }
}
