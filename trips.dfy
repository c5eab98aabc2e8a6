/**
 * The trip service (trip-service/main.py): trips are created `scheduled`,
 * started (`active`, with a pickup time) and completed (`completed`, with a
 * drop-off time, freeing the driver).  The handlers update whatever trip has
 * the id, in whatever status it is: there is no state-machine check.
 */
module Trips {
  import opened Store

  /** The condition `id = tripId`. */
  function TripWithId(tripId: RowId): TripRow -> bool {
    (t: TripRow) => t.id == tripId
  }

  /** The row with that id, if any. */
  function TripById(trips: seq<TripRow>, tripId: RowId): (r: Option<TripRow>)
    ensures r.None? <==> forall i :: 0 <= i < |trips| ==> trips[i].id != tripId
    ensures r.Some? ==> r.value in trips && r.value.id == tripId
  {
    var k := IndexOfFirst(trips, TripWithId(tripId));
    if k < |trips| then Some(trips[k]) else None
  }

  lemma TripByIdUnique(trips: seq<TripRow>, k: nat)
    requires UniqueTripIds(trips) && k < |trips|
    ensures TripById(trips, trips[k].id) == Some(trips[k])
  {
    var j := IndexOfFirst(trips, TripWithId(trips[k].id));
    assert j <= k;
  }

  /** The update of start_trip: status `active` and the pickup time. */
  function Started(t: TripRow, now: Timestamp): TripRow {
    t.(status := ACTIVE, pickupTime := Some(now))
  }

  /** The update of complete_trip: status `completed` and the drop-off time. */
  function Finished(t: TripRow, now: Timestamp): TripRow {
    t.(status := COMPLETED, dropoffTime := Some(now))
  }

  /** UPDATE trips SET ... WHERE id = tripId, with the update f. */
  function UpdateTrip(trips: seq<TripRow>, tripId: RowId, f: TripRow -> TripRow): seq<TripRow> {
    UpdateWhere(trips, TripWithId(tripId), f)
  }

  /** The rows an update returns (`res.data`): the updated rows, in table order. */
  function UpdatedRows(trips: seq<TripRow>, tripId: RowId, f: TripRow -> TripRow): seq<TripRow> {
    Filter(UpdateTrip(trips, tripId, f), TripWithId(tripId))
  }

  /**
   * An update by id changes exactly the row with that id, and the first
   * updated row returned is that row after the update; with no such row the
   * table is unchanged and nothing is returned.
   */
  lemma UpdateTripEffect(trips: seq<TripRow>, tripId: RowId, f: TripRow -> TripRow)
    requires UniqueTripIds(trips)
    requires forall t :: f(t).id == t.id
    ensures UniqueTripIds(UpdateTrip(trips, tripId, f))
    ensures TripById(trips, tripId).None? ==>
      UpdateTrip(trips, tripId, f) == trips && UpdatedRows(trips, tripId, f) == []
    ensures TripById(trips, tripId).Some? ==>
      UpdatedRows(trips, tripId, f) == [f(TripById(trips, tripId).value)] &&
      TripById(UpdateTrip(trips, tripId, f), tripId) == Some(f(TripById(trips, tripId).value))
    ensures forall other :: other != tripId ==>
      TripById(UpdateTrip(trips, tripId, f), other) == TripById(trips, other)
  {
    var after := UpdateTrip(trips, tripId, f);
    assert forall i :: 0 <= i < |trips| ==> after[i].id == trips[i].id;
    assert UniqueTripIds(after);
    if TripById(trips, tripId).None? {
      UpdateNothing(trips, TripWithId(tripId), f);
      FilterNone(after, TripWithId(tripId));
    } else {
      var k :| 0 <= k < |trips| && trips[k] == TripById(trips, tripId).value;
      TripByIdUnique(trips, k);
      FilterSingleton(after, TripWithId(tripId), k);
      TripByIdUnique(after, k);
    }
    forall other | other != tripId
      ensures TripById(after, other) == TripById(trips, other)
    {
      if TripById(trips, other).Some? {
        var j :| 0 <= j < |trips| && trips[j] == TripById(trips, other).value;
        TripByIdUnique(trips, j);
        TripByIdUnique(after, j);
      }
    }
  }

  /** create_trip: inserts a `scheduled` trip with the given ids and returns the inserted row. */
  method CreateTrip(db: Database, rideRequestId: RowId, driverId: DriverId, riderId: RiderId) returns (trip: TripRow)
    requires db.Valid()
    modifies db`trips, db`nextTripId
    ensures db.Valid()
    ensures trip == TripRow(old(db.nextTripId), rideRequestId, driverId, riderId, SCHEDULED, None, None)
    ensures db.trips == old(db.trips) + [trip]
    ensures db.nextTripId == old(db.nextTripId) + 1
  {
    trip := TripRow(db.nextTripId, rideRequestId, driverId, riderId, SCHEDULED, None, None);
    db.trips := db.trips + [trip];
    db.nextTripId := db.nextTripId + 1;
  }

  /**
   * start_trip: the trip becomes `active` with the pickup time, whatever
   * its status was; an unknown id is an error (no updated row) and changes nothing.
   */
  method StartTrip(db: Database, tripId: RowId, now: Timestamp) returns (r: Result<TripRow>)
    requires db.Valid()
    modifies db`trips
    ensures db.Valid()
    ensures db.trips == UpdateTrip(old(db.trips), tripId, (t: TripRow) => Started(t, now))
    ensures r.Err? <==> TripById(old(db.trips), tripId).None?
    ensures r.Err? ==> db.trips == old(db.trips)
    ensures r.Ok? ==> r.value == Started(TripById(old(db.trips), tripId).value, now)
    ensures r.Ok? ==> TripById(db.trips, tripId) == Some(r.value) && r.value.status == ACTIVE
  {
    var f := (t: TripRow) => Started(t, now);
    UpdateTripEffect(db.trips, tripId, f);
    var updated := UpdatedRows(db.trips, tripId, f);
    db.trips := UpdateTrip(db.trips, tripId, f);
    if updated == [] {
      r := Err;
    } else {
      r := Ok(updated[0]);
    }
  }

  /**
   * complete_trip: the trip becomes `completed` with the drop-off time and
   * its driver `available`; for an unknown id the error comes before the
   * driver update, so neither table changes.
   */
  method CompleteTrip(db: Database, tripId: RowId, now: Timestamp) returns (r: Result<TripRow>)
    requires db.Valid()
    modifies db`trips, db`drivers
    ensures db.Valid()
    ensures db.trips == UpdateTrip(old(db.trips), tripId, (t: TripRow) => Finished(t, now))
    ensures r.Err? <==> TripById(old(db.trips), tripId).None?
    ensures r.Err? ==> db.trips == old(db.trips) && db.drivers == old(db.drivers)
    ensures r.Ok? ==> r.value == Finished(TripById(old(db.trips), tripId).value, now)
    ensures r.Ok? ==> r.value.status == COMPLETED
    ensures r.Ok? ==> db.drivers == WithDriverStatus(old(db.drivers), r.value.driverId, AVAILABLE)
  {
    var f := (t: TripRow) => Finished(t, now);
    UpdateTripEffect(db.trips, tripId, f);
    var updated := UpdatedRows(db.trips, tripId, f);
    db.trips := UpdateTrip(db.trips, tripId, f);
    if updated == [] {
      return Err;
    }
    var trip := updated[0];
    WithDriverStatusKeepsKeys(db.drivers, trip.driverId, AVAILABLE);
    db.drivers := WithDriverStatus(db.drivers, trip.driverId, AVAILABLE);
    r := Ok(trip);
  }

  /** The condition of get_current_trip: this driver's trips that are not `completed`. */
  function OpenTripOf(driverId: DriverId): TripRow -> bool {
    (t: TripRow) => t.driverId == driverId && t.status != COMPLETED
  }

  /** get_current_trip: the first trip of the driver, in table order, that is not `completed`. */
  function GetCurrentTrip(trips: seq<TripRow>, driverId: DriverId): (r: Option<TripRow>)
    ensures r.None? <==> forall i :: 0 <= i < |trips| ==> !(trips[i].driverId == driverId && trips[i].status != COMPLETED)
    ensures r.Some? ==>
      var k := IndexOfFirst(trips, OpenTripOf(driverId));
      k < |trips| && r.value == trips[k] && r.value.driverId == driverId && r.value.status != COMPLETED
  {
    var open := Filter(trips, OpenTripOf(driverId));
    FilterHead(trips, OpenTripOf(driverId));
    if open == [] then None else Some(open[0])
  }

  /** Once completed, a trip is never again a driver's current trip. */
  lemma CompletedTripNotCurrent(trips: seq<TripRow>, tripId: RowId, now: Timestamp, driverId: DriverId)
    ensures var r := GetCurrentTrip(UpdateTrip(trips, tripId, (t: TripRow) => Finished(t, now)), driverId);
      r.Some? ==> r.value.id != tripId
  {
    var after := UpdateTrip(trips, tripId, (t: TripRow) => Finished(t, now));
    assert forall i :: 0 <= i < |after| && after[i].id == tripId ==> after[i].status == COMPLETED;
  }

  /** A started trip is not completed, so its driver has a current trip afterwards. */
  lemma StartedTripIsCurrent(trips: seq<TripRow>, tripId: RowId, now: Timestamp)
    requires TripById(trips, tripId).Some?
    ensures GetCurrentTrip(UpdateTrip(trips, tripId, (t: TripRow) => Started(t, now)),
                           TripById(trips, tripId).value.driverId).Some?
  {
    var after := UpdateTrip(trips, tripId, (t: TripRow) => Started(t, now));
    var k :| 0 <= k < |trips| && trips[k] == TripById(trips, tripId).value;
    assert after[k].status == ACTIVE && after[k].driverId == trips[k].driverId;
  }
}
