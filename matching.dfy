/**
 * Nearest-available-driver dispatch (matching-service/routes.py).
 *
 * A ride request is refused when the rider already has a `matched` ride,
 * fails when the pickup station is unknown, reports `no_drivers` when nobody
 * is available, and otherwise picks the available driver nearest to the
 * station (the first one in result order among equally near drivers),
 * records a `matched` ride and marks that driver `busy`.
 */
module Matching {
  import opened Store
  import opened Geometry
  import opened MatchingRepo

  /** The request body: rider, pickup station, destination and desired arrival time. */
  datatype RideRequest = RideRequest(riderId: RiderId, stationId: StationId, destination: string, arrivalTime: string)

  /**
   * The reply.  `RideInProgress` is the `{"status": "error"}` reply to a rider
   * who already has a matched ride; `ServerError` is the HTTP 500 that every
   * exception inside the handler becomes, the missing station among them.
   * The reply's distance is kept squared (see Geometry).
   */
  datatype MatchOutcome =
    | Matched(driverId: DriverId, squaredDistance: real)
    | NoDrivers
    | RideInProgress
    | ServerError

  /** The squared distance from the pickup point to a driver's last known position. */
  function DistanceTo(d: DriverRow, sx: real, sy: real): real {
    SquaredDistance(sx, sy, d.x, d.y)
  }

  /**
   * Candidate k is a nearest one, and every candidate before it is strictly
   * farther: the candidate a strict-`<` scan in list order ends on.
   */
  ghost predicate FirstNearest(cands: seq<DriverRow>, sx: real, sy: real, k: int) {
    && 0 <= k < |cands|
    && (forall j :: 0 <= j < |cands| ==> DistanceTo(cands[k], sx, sy) <= DistanceTo(cands[j], sx, sy))
    && (forall j :: 0 <= j < k ==> DistanceTo(cands[j], sx, sy) > DistanceTo(cands[k], sx, sy))
  }

  /** At most one candidate is the first nearest one, so the choice is determined. */
  lemma FirstNearestUnique(cands: seq<DriverRow>, sx: real, sy: real, k1: int, k2: int)
    requires FirstNearest(cands, sx, sy, k1) && FirstNearest(cands, sx, sy, k2)
    ensures k1 == k2
  {
    var d1, d2 := DistanceTo(cands[k1], sx, sy), DistanceTo(cands[k2], sx, sy);
    assert d1 <= d2 && d2 <= d1;
    assert k1 < k2 ==> d1 > d2;
    assert k2 < k1 ==> d2 > d1;
  }

  /** FirstNearest for any measure of distance: candidate k is a nearest one under dist, and the first. */
  ghost predicate FirstNearestBy(cands: seq<DriverRow>, dist: DriverRow -> real, k: int) {
    && 0 <= k < |cands|
    && (forall j :: 0 <= j < |cands| ==> dist(cands[k]) <= dist(cands[j]))
    && (forall j :: 0 <= j < k ==> dist(cands[j]) > dist(cands[k]))
  }

  /**
   * Over exact reals, a scan by the distances themselves (any non-negative
   * root of the squared distances, such as `sqrt`) ends on the same
   * candidate as a scan by the squared distances.
   */
  lemma SquaredChoiceIsDistanceChoice(cands: seq<DriverRow>, sx: real, sy: real, root: DriverRow -> real, k: int)
    requires forall c :: c in cands ==> root(c) >= 0.0 && Square(root(c)) == DistanceTo(c, sx, sy)
    ensures FirstNearestBy(cands, root, k) <==> FirstNearest(cands, sx, sy, k)
  {
    forall i, j | 0 <= i < |cands| && 0 <= j < |cands|
      ensures root(cands[i]) < root(cands[j]) <==> DistanceTo(cands[i], sx, sy) < DistanceTo(cands[j], sx, sy)
    {
      assert cands[i] in cands && cands[j] in cands;
      SquaresOrderLikeRoots(root(cands[i]), root(cands[j]));
    }
  }

  /**
   * The argmin loop of request_ride: `best` starts as None and `minDist` as
   * None (standing for infinity); a candidate replaces them when it is
   * strictly nearer.  On a non-empty list the loop always ends with a
   * driver, the first of the nearest ones.
   */
  method SelectNearest(cands: seq<DriverRow>, sx: real, sy: real) returns (best: Option<nat>, minDist: Option<real>)
    ensures best.None? <==> cands == []
    ensures minDist.None? <==> cands == []
    ensures best.Some? ==> FirstNearest(cands, sx, sy, best.value)
    ensures best.Some? ==> minDist == Some(DistanceTo(cands[best.value], sx, sy))
  {
    best, minDist := None, None;
    var i := 0;
    while i < |cands|
      invariant 0 <= i <= |cands|
      invariant best.None? <==> i == 0
      invariant minDist.None? <==> i == 0
      invariant best.Some? ==> best.value < i && minDist == Some(DistanceTo(cands[best.value], sx, sy))
      invariant best.Some? ==> forall j :: 0 <= j < i ==>
        DistanceTo(cands[best.value], sx, sy) <= DistanceTo(cands[j], sx, sy)
      invariant best.Some? ==> forall j :: 0 <= j < best.value ==>
        DistanceTo(cands[j], sx, sy) > DistanceTo(cands[best.value], sx, sy)
    {
      var dist := DistanceTo(cands[i], sx, sy);
      if minDist.None? || dist < minDist.value {
        minDist := Some(dist);
        best := Some(i);
      }
      i := i + 1;
    }
  }

  /** No two `matched` rides name the same driver. */
  ghost predicate NoDoubleAssignment(rides: seq<RideRow>) {
    forall i, j :: 0 <= i < j < |rides| && rides[i].data.status == MATCHED && rides[j].data.status == MATCHED ==>
      rides[i].data.matchedDriverId != rides[j].data.matchedDriverId
  }

  /** A driver named by a `matched` ride is not `available`. */
  ghost predicate AssignedDriversUnavailable(rides: seq<RideRow>, drivers: seq<DriverRow>) {
    forall i, j ::
      0 <= i < |rides| && 0 <= j < |drivers| &&
      rides[i].data.status == MATCHED && drivers[j].driverId == rides[i].data.matchedDriverId
      ==> drivers[j].status != AVAILABLE
  }

  /** Driver exclusivity, for requests handled one after another. */
  ghost predicate Exclusive(rides: seq<RideRow>, drivers: seq<DriverRow>) {
    NoDoubleAssignment(rides) && AssignedDriversUnavailable(rides, drivers)
  }

  /**
   * Matching a currently available driver (insert the ride, then mark the
   * driver busy) keeps driver exclusivity.
   */
  lemma MatchKeepsExclusive(rides: seq<RideRow>, drivers: seq<DriverRow>, d: DriverRow, row: RideRow)
    requires Exclusive(rides, drivers)
    requires d in AvailableDrivers(drivers)
    requires row.data.matchedDriverId == d.driverId
    ensures Exclusive(rides + [row], WithDriverStatus(drivers, d.driverId, BUSY))
  {
    var rides', drivers' := rides + [row], WithDriverStatus(drivers, d.driverId, BUSY);
    var k :| 0 <= k < |drivers| && drivers[k] == d;
    forall i | 0 <= i < |rides| && rides[i].data.status == MATCHED
      ensures rides[i].data.matchedDriverId != d.driverId
    {
      assert drivers[k].status == AVAILABLE;
    }
    assert NoDoubleAssignment(rides') by {
      forall i, j | 0 <= i < j < |rides'| && rides'[i].data.status == MATCHED && rides'[j].data.status == MATCHED
        ensures rides'[i].data.matchedDriverId != rides'[j].data.matchedDriverId
      {
        if j == |rides| {
          assert rides'[i] == rides[i];
        } else {
          assert rides'[i] == rides[i] && rides'[j] == rides[j];
        }
      }
    }
    assert AssignedDriversUnavailable(rides', drivers') by {
      forall i, j | 0 <= i < |rides'| && 0 <= j < |drivers'| &&
        rides'[i].data.status == MATCHED && drivers'[j].driverId == rides'[i].data.matchedDriverId
        ensures drivers'[j].status != AVAILABLE
      {
        if drivers[j].driverId != d.driverId {
          assert i < |rides| && rides'[i] == rides[i];
        }
      }
    }
  }

  /**
   * The two writes of a match: insert the `matched` ride, then mark the
   * chosen driver busy.
   */
  method RecordMatch(db: Database, ride: RideData, driver: DriverRow)
    requires db.Valid()
    requires ride.status == MATCHED && ride.matchedDriverId == driver.driverId
    modifies db`rides, db`nextRideId, db`drivers
    ensures db.Valid()
    ensures db.rides == old(db.rides) + [RideRow(old(db.nextRideId), ride)]
    ensures db.drivers == WithDriverStatus(old(db.drivers), driver.driverId, BUSY)
    ensures forall d :: d in AvailableDrivers(db.drivers) ==> d.driverId != driver.driverId
    ensures ActiveRides(db.rides, ride.riderId) != []
    ensures driver in AvailableDrivers(old(db.drivers)) && Exclusive(old(db.rides), old(db.drivers)) ==>
      Exclusive(db.rides, db.drivers)
  {
    ghost var rides0, drivers0 := db.rides, db.drivers;
    var row := CreateRideRequest(db, ride);
    SetDriverBusy(db, driver.driverId);
    AvailableAfterSetBusy(drivers0, driver.driverId);
    ActiveRidesAfterInsert(rides0, row, ride.riderId);
    if driver in AvailableDrivers(drivers0) && Exclusive(rides0, drivers0) {
      MatchKeepsExclusive(rides0, drivers0, driver, row);
    }
  }

  /**
   * request_ride.  `readsOk` tells whether the three reads (active ride,
   * station, available drivers) succeed; a failing read is an exception
   * that the handler turns into a 500 before any write.
   */
  method RequestRide(db: Database, req: RideRequest, readsOk: bool) returns (outcome: MatchOutcome)
    requires db.Valid()
    modifies db`rides, db`nextRideId, db`drivers
    ensures db.Valid()
    // the active-ride guard
    ensures outcome.RideInProgress? <==> readsOk && ActiveRides(old(db.rides), req.riderId) != []
    // a failing read, or the station lookup
    ensures outcome.ServerError? <==>
      !readsOk || (ActiveRides(old(db.rides), req.riderId) == [] && StationById(db.stations, req.stationId).None?)
    // nobody available
    ensures outcome.NoDrivers? <==>
      && readsOk
      && ActiveRides(old(db.rides), req.riderId) == []
      && StationById(db.stations, req.stationId).Some?
      && AvailableDrivers(old(db.drivers)) == []
    // every outcome but a match writes nothing
    ensures !outcome.Matched? ==>
      db.rides == old(db.rides) && db.drivers == old(db.drivers) && db.nextRideId == old(db.nextRideId)
    // a match picks the first nearest available driver
    ensures outcome.Matched? ==>
      var station := StationById(db.stations, req.stationId).value;
      var cands := AvailableDrivers(old(db.drivers));
      exists k :: FirstNearest(cands, station.x, station.y, k) &&
        cands[k].driverId == outcome.driverId &&
        outcome.squaredDistance == DistanceTo(cands[k], station.x, station.y)
    // ... records exactly one matched ride ...
    ensures outcome.Matched? ==>
      db.rides == old(db.rides) + [RideRow(old(db.nextRideId),
        RideData(req.riderId, req.stationId, outcome.driverId, MATCHED, Some(req.destination), Some(req.arrivalTime)))]
    // ... and marks that driver busy
    ensures outcome.Matched? ==> db.drivers == WithDriverStatus(old(db.drivers), outcome.driverId, BUSY)
    // so a following request can select neither this driver nor, for this rider, anything
    ensures outcome.Matched? ==> forall d :: d in AvailableDrivers(db.drivers) ==> d.driverId != outcome.driverId
    ensures outcome.Matched? ==> ActiveRides(db.rides, req.riderId) != []
    // and requests handled one after another never assign one driver twice
    ensures Exclusive(old(db.rides), old(db.drivers)) ==> Exclusive(db.rides, db.drivers)
  {
    if !readsOk {
      return ServerError;
    }
    var existing := ActiveRides(db.rides, req.riderId);
    if existing != [] {
      return RideInProgress;
    }
    var station := StationById(db.stations, req.stationId);
    if station.None? {
      return ServerError;
    }
    var sx, sy := station.value.x, station.value.y;
    var available := AvailableDrivers(db.drivers);
    if available == [] {
      return NoDrivers;
    }
    var best, minDist := SelectNearest(available, sx, sy);
    var driver := available[best.value];
    RecordMatch(db, RideData(req.riderId, req.stationId, driver.driverId, MATCHED,
                             Some(req.destination), Some(req.arrivalTime)), driver);
    outcome := Matched(driver.driverId, minDist.value);
  }
}
