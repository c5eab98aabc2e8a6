/**
 * The socket and HTTP handlers of the driver service (driver-service/routes.py).
 *
 * A driver's socket session turns each incoming message into a payload for
 * the in-memory registry (which broadcasts it to the riders); when the
 * driver disconnects, the entry is marked offline in memory, then in the
 * database, and the riders get a fresh snapshot.  The two read endpoints
 * answer with a fallback instead of an error.
 */
module DriverRoutes {
  import opened Store
  import opened Registry
  import opened DriverRepo
  import opened Sequences

  /** One JSON message from a driver: position, status and the optional `email` key. */
  datatype DriverMessage = DriverMessage(x: real, y: real, status: string, email: Option<string>)

  /**
   * A message as it arrives: the clock reading taken when it is handled and
   * the rider sockets whose send fails during the broadcast that follows it.
   */
  datatype Received = Received(message: DriverMessage, at: Timestamp, failing: set<RiderSocket>)

  /** The name used when the email is missing or has no `@`. */
  const DEFAULT_NAME: string := "Driver"

  /** `s.split('@')[0]`: the text before the first `@`, or all of s when it has none. */
  function BeforeFirstAt(s: string): (r: string)
    ensures r <= s
    ensures '@' !in r
    ensures |r| < |s| ==> s[|r|] == '@'
  {
    if s == [] || s[0] == '@' then [] else [s[0]] + BeforeFirstAt(s[1..])
  }

  /**
   * The display name: the text before the first `@` when the email contains
   * one, `Driver` otherwise, a missing email counting as the empty one.
   */
  function DisplayName(email: Option<string>): (name: string)
    ensures var e := if email.Some? then email.value else "";
      && ('@' in e ==> '@' !in name && name + "@" <= e)
      && ('@' !in e ==> name == DEFAULT_NAME)
  {
    var e := if email.Some? then email.value else "";
    if '@' in e then
      var r := BeforeFirstAt(e);
      assert |r| < |e|;
      assert r + "@" == e[..|r| + 1];
      r
    else
      DEFAULT_NAME
  }

  /** The payload of one message: the id from the socket path, the fields copied from the message. */
  function BuildPayload(driverId: DriverId, msg: DriverMessage, at: Timestamp): (p: DriverPayload)
    ensures p.driverId == driverId && p.name == DisplayName(msg.email)
    ensures p.x == msg.x && p.y == msg.y && p.status == msg.status && p.lastUpdated == at
  {
    DriverPayload(driverId, DisplayName(msg.email), msg.x, msg.y, msg.status, at)
  }

  /** The registry once the messages are stored: this driver's entry is built from the last one. */
  function LatestLocations(locations: map<DriverId, DriverPayload>, driverId: DriverId, inbox: seq<Received>): map<DriverId, DriverPayload> {
    if inbox == [] then locations
    else
      var last := inbox[|inbox| - 1];
      locations[driverId := BuildPayload(driverId, last.message, last.at)]
  }

  /** The registry right after message `last` of the session is stored. */
  function AfterMessage(locations: map<DriverId, DriverPayload>, driverId: DriverId, last: Received): map<DriverId, DriverPayload> {
    locations[driverId := BuildPayload(driverId, last.message, last.at)]
  }

  /** The broadcast that follows message m: the snapshot taken right after it is stored, to every rider. */
  function Broadcast(riders: seq<RiderSocket>, locations: map<DriverId, DriverPayload>, driverId: DriverId, m: Received): seq<Delivery> {
    Deliveries(riders, m.failing, Snapshot(AfterMessage(locations, driverId, m)))
  }

  /** One broadcast per message, in message order. */
  function Broadcasts(riders: seq<RiderSocket>, locations: map<DriverId, DriverPayload>, driverId: DriverId, inbox: seq<Received>): seq<seq<Delivery>> {
    seq(|inbox|, j requires 0 <= j < |inbox| => Broadcast(riders, locations, driverId, inbox[j]))
  }

  /** The snapshots the riders receive while the session lasts. */
  function SessionDeliveries(riders: seq<RiderSocket>, locations: map<DriverId, DriverPayload>, driverId: DriverId, inbox: seq<Received>): seq<Delivery> {
    Flatten(Broadcasts(riders, locations, driverId, inbox))
  }

  /** The broadcasts of the first i + 1 messages: those of the first i, then that of message i. */
  lemma BroadcastsSnoc(riders: seq<RiderSocket>, locations: map<DriverId, DriverPayload>, driverId: DriverId, inbox: seq<Received>, i: nat)
    requires i < |inbox|
    ensures Broadcasts(riders, locations, driverId, inbox[..i + 1]) ==
      Broadcasts(riders, locations, driverId, inbox[..i]) + [Broadcast(riders, locations, driverId, inbox[i])]
  {
    var longer := Broadcasts(riders, locations, driverId, inbox[..i + 1]);
    var shorter := Broadcasts(riders, locations, driverId, inbox[..i]);
    forall j | 0 <= j < i + 1
      ensures longer[j] == (shorter + [Broadcast(riders, locations, driverId, inbox[i])])[j]
    {
      assert inbox[..i + 1][j] == inbox[j];
      if j < i {
        assert inbox[..i][j] == inbox[j];
      }
    }
  }

  /** The broadcasts of the first j messages are the first j broadcasts. */
  lemma BroadcastsPrefix(riders: seq<RiderSocket>, locations: map<DriverId, DriverPayload>, driverId: DriverId, inbox: seq<Received>, j: nat)
    requires j <= |inbox|
    ensures Broadcasts(riders, locations, driverId, inbox)[..j] == Broadcasts(riders, locations, driverId, inbox[..j])
  {
    var all := Broadcasts(riders, locations, driverId, inbox);
    var first := Broadcasts(riders, locations, driverId, inbox[..j]);
    forall k | 0 <= k < j
      ensures all[..j][k] == first[k]
    {
      assert inbox[..j][k] == inbox[k];
    }
  }

  /**
   * A snapshot a rider may see during the session: every other driver as
   * before the session, this driver absent or with a payload of its own
   * whose status is not `offline`.
   */
  ghost predicate SessionView(snapshot: map<DriverId, DriverPayload>, locations: map<DriverId, DriverPayload>, driverId: DriverId) {
    && (forall k :: k != driverId ==> (k in snapshot <==> k in Snapshot(locations)))
    && (forall k :: k != driverId && k in snapshot ==> k in locations && snapshot[k] == locations[k])
    && (driverId in snapshot ==> snapshot[driverId].driverId == driverId && snapshot[driverId].status != OFFLINE)
  }

  /** The snapshot right after one message is stored is such a view. */
  lemma MessageSnapshotIsView(locations: map<DriverId, DriverPayload>, driverId: DriverId, m: Received)
    ensures SessionView(Snapshot(AfterMessage(locations, driverId, m)), locations, driverId)
  {
    SnapshotAfterUpdate(locations, driverId, BuildPayload(driverId, m.message, m.at));
  }

  /** d goes to a connected rider and carries such a view. */
  ghost predicate SessionMessage(d: Delivery, riders: seq<RiderSocket>, locations: map<DriverId, DriverPayload>, driverId: DriverId) {
    d.to in riders && SessionView(d.snapshot, locations, driverId)
  }

  /** While the session lasts, riders see the other drivers exactly as before it. */
  lemma SessionSnapshots(riders: seq<RiderSocket>, locations: map<DriverId, DriverPayload>, driverId: DriverId, inbox: seq<Received>)
    ensures var r := SessionDeliveries(riders, locations, driverId, inbox);
      forall i :: 0 <= i < |r| ==> SessionMessage(r[i], riders, locations, driverId)
  {
    var blocks := Broadcasts(riders, locations, driverId, inbox);
    var p := (d: Delivery) => SessionMessage(d, riders, locations, driverId);
    forall j, i | 0 <= j < |blocks| && 0 <= i < |blocks[j]|
      ensures p(blocks[j][i])
    {
      MessageSnapshotIsView(locations, driverId, inbox[j]);
      DeliveriesReachLiveRiders(riders, inbox[j].failing, Snapshot(AfterMessage(locations, driverId, inbox[j])));
    }
    FlattenAll(blocks, p);
  }

  /**
   * The broadcasts of a session come out in message order: the deliveries
   * that follow message j come right after those of the messages before it.
   */
  lemma SessionDeliveriesInOrder(riders: seq<RiderSocket>, locations: map<DriverId, DriverPayload>,
                                 driverId: DriverId, inbox: seq<Received>, j: nat)
    requires j < |inbox|
    ensures SessionDeliveries(riders, locations, driverId, inbox[..j]) + Broadcast(riders, locations, driverId, inbox[j])
      <= SessionDeliveries(riders, locations, driverId, inbox)
  {
    BroadcastsPrefix(riders, locations, driverId, inbox, j);
    FlattenInOrder(Broadcasts(riders, locations, driverId, inbox), j);
  }

  /**
   * So every rider whose send does not fail after message j receives the
   * snapshot taken right after message j was stored.
   */
  lemma EveryMessageReachesLiveRiders(riders: seq<RiderSocket>, locations: map<DriverId, DriverPayload>, driverId: DriverId, inbox: seq<Received>, j: nat, k: nat)
    requires j < |inbox| && k < |riders| && riders[k] !in inbox[j].failing
    ensures Delivery(riders[k], Snapshot(AfterMessage(locations, driverId, inbox[j]))) in SessionDeliveries(riders, locations, driverId, inbox)
  {
    var snapshot := Snapshot(AfterMessage(locations, driverId, inbox[j]));
    DeliveriesReachLiveRiders(riders, inbox[j].failing, snapshot);
    SessionDeliveriesInOrder(riders, locations, driverId, inbox, j);
    InPrefix(SessionDeliveries(riders, locations, driverId, inbox[..j]), Broadcast(riders, locations, driverId, inbox[j]),
             SessionDeliveries(riders, locations, driverId, inbox), Delivery(riders[k], snapshot));
  }

  /** Storing message i after the first i messages takes the registry and the deliveries one step further. */
  lemma ReceiveStep(riders: seq<RiderSocket>, locations: map<DriverId, DriverPayload>, outbox0: seq<Delivery>,
                    driverId: DriverId, inbox: seq<Received>, i: nat,
                    before: seq<Delivery>, after: map<DriverId, DriverPayload>, outbox: seq<Delivery>)
    requires i < |inbox|
    requires before == outbox0 + SessionDeliveries(riders, locations, driverId, inbox[..i])
    requires after == LatestLocations(locations, driverId, inbox[..i])[driverId := BuildPayload(driverId, inbox[i].message, inbox[i].at)]
    requires outbox == before + Deliveries(riders, inbox[i].failing, Snapshot(after))
    ensures after == LatestLocations(locations, driverId, inbox[..i + 1])
    ensures outbox == outbox0 + SessionDeliveries(riders, locations, driverId, inbox[..i + 1])
  {
    OverwriteLatest(locations, driverId, inbox[..i], inbox[i]);
    assert inbox[..i + 1][i] == inbox[i];
    BroadcastsSnoc(riders, locations, driverId, inbox, i);
    var blocks := Broadcasts(riders, locations, driverId, inbox[..i]);
    var b := Broadcast(riders, locations, driverId, inbox[i]);
    FlattenSnoc(blocks, b);
    ConcatAssociative(outbox0, Flatten(blocks), b);
  }

  /** A new payload for the driver overwrites whatever earlier message set its entry. */
  lemma OverwriteLatest(locations: map<DriverId, DriverPayload>, driverId: DriverId, earlier: seq<Received>, m: Received)
    ensures LatestLocations(locations, driverId, earlier)[driverId := BuildPayload(driverId, m.message, m.at)]
      == AfterMessage(locations, driverId, m)
  {
  }

  /** The receive loop of driver_socket: every message is stored under the driver id and broadcast. */
  method ReceiveAll(manager: ConnectionManager, driverId: DriverId, inbox: seq<Received>)
    modifies manager`driverLocations, manager`outbox
    ensures manager.driverLocations == LatestLocations(old(manager.driverLocations), driverId, inbox)
    ensures manager.outbox == old(manager.outbox) + SessionDeliveries(manager.riders, old(manager.driverLocations), driverId, inbox)
  {
    ghost var locations0 := manager.driverLocations;
    ghost var outbox0 := manager.outbox;
    var i := 0;
    while i < |inbox|
      invariant 0 <= i <= |inbox|
      invariant manager.driverLocations == LatestLocations(locations0, driverId, inbox[..i])
      invariant manager.outbox == outbox0 + SessionDeliveries(manager.riders, locations0, driverId, inbox[..i])
    {
      var payload := BuildPayload(driverId, inbox[i].message, inbox[i].at);
      ghost var before := manager.outbox;
      manager.UpdateDriverLocation(driverId, payload, inbox[i].failing);
      ReceiveStep(manager.riders, locations0, outbox0, driverId, inbox, i, before, manager.driverLocations, manager.outbox);
      i := i + 1;
    }
    assert inbox[..|inbox|] == inbox;
  }

  /**
   * driver_socket for one connection: each message is stored in the
   * registry under the path's driver id (and broadcast); on disconnect the
   * entry is marked offline in memory, then in the database when it is
   * reachable, and the riders get a snapshot without the driver whether or
   * not the database write failed.  The socket messages themselves never
   * touch the database.
   */
  method DriverSession(manager: ConnectionManager, db: Database, driverId: DriverId, inbox: seq<Received>,
                       dbUp: bool, failingAtClose: set<RiderSocket>)
    requires db.Valid()
    modifies manager`driverLocations, manager`outbox, db`drivers
    ensures db.Valid()
    ensures manager.driverLocations == MarkedOffline(LatestLocations(old(manager.driverLocations), driverId, inbox), driverId)
    ensures forall k :: k != driverId ==> (k in manager.driverLocations <==> k in old(manager.driverLocations))
    ensures forall k :: k != driverId && k in old(manager.driverLocations) ==>
      manager.driverLocations[k] == old(manager.driverLocations)[k]
    ensures driverId !in Snapshot(manager.driverLocations)
    ensures manager.outbox == old(manager.outbox)
      + SessionDeliveries(manager.riders, old(manager.driverLocations), driverId, inbox)
      + Deliveries(manager.riders, failingAtClose, Snapshot(manager.driverLocations))
    ensures db.drivers == if dbUp then WithDriverStatus(old(db.drivers), driverId, OFFLINE) else old(db.drivers)
  {
    ReceiveAll(manager, driverId, inbox);
    ghost var stored := manager.driverLocations;
    manager.MarkDriverOffline(driverId);
    SnapshotAfterMarkOffline(stored, driverId);
    if dbUp {
      SetDriverOfflineDb(db, driverId);
    }
    manager.BroadcastToRiders(failingAtClose);
  }

  /**
   * rider_socket for one connection: the rider is registered and sent the
   * snapshot; when that first send succeeds the connection is held open and
   * the rider is removed on disconnect, but when it fails the error ends the
   * handler before the disconnect branch and the socket stays registered.
   */
  method RiderSession(manager: ConnectionManager, ws: RiderSocket, dead: set<RiderSocket>) returns (delivered: bool)
    modifies manager`riders, manager`outbox
    ensures delivered == (ws !in dead)
    ensures manager.outbox == old(manager.outbox) +
      (if delivered then [Delivery(ws, Snapshot(manager.driverLocations))] else [])
    ensures delivered ==> manager.riders == RemoveFirst(old(manager.riders) + [ws], ws)
    ensures delivered && ws !in old(manager.riders) ==> manager.riders == old(manager.riders)
    ensures !delivered ==> manager.riders == old(manager.riders) + [ws]
  {
    delivered := manager.ConnectRider(ws, dead);
    if delivered {
      manager.DisconnectRider(ws);
      if ws !in old(manager.riders) {
        ConnectThenDisconnect(old(manager.riders), ws);
      }
    }
  }

  /** Removing a socket that was appended to a list not holding it gives the list back. */
  lemma ConnectThenDisconnect(riders: seq<RiderSocket>, ws: RiderSocket)
    requires ws !in riders
    ensures RemoveFirst(riders + [ws], ws) == riders
  {
    var after := riders + [ws];
    var k :| RemovedFirstAt(after, ws, k, RemoveFirst(after, ws));
    assert k == |riders|;
    assert after[..k] == riders;
  }

  /** get_assigned_ride: the repository's answer, or None when the database call fails. */
  function GetAssignedRide(rides: seq<RideRow>, stations: seq<StationRow>, driverId: DriverId, dbUp: bool): (r: Option<AssignedRide>)
    ensures !dbUp ==> r.None?
    ensures r.Some? ==> r.value.ride in rides && r.value.ride.data.matchedDriverId == driverId && r.value.ride.data.status == MATCHED
    ensures dbUp && (exists i :: 0 <= i < |rides| && rides[i].data.matchedDriverId == driverId && rides[i].data.status == MATCHED) ==>
      r.Some?
  {
    if dbUp then GetAssignedRideDb(rides, stations, driverId) else None
  }

  /** The reply of get_driver_location: the stored row, or the fallback position. */
  datatype LocationReply = StoredRow(row: DriverRow) | FallbackPosition(x: real, y: real)

  /** The position sent when the driver's row cannot be read. */
  const FALLBACK_X: real := 10.0
  const FALLBACK_Y: real := 10.0

  /**
   * get_driver_location: the driver's row when the `.single()` read
   * succeeds, otherwise (no row, or any database error) the position (10, 10).
   */
  function GetDriverLocation(drivers: seq<DriverRow>, driverId: DriverId, dbUp: bool): (r: LocationReply)
    ensures r.FallbackPosition? ==> r == FallbackPosition(FALLBACK_X, FALLBACK_Y)
    ensures r.StoredRow? ==> dbUp && r.row in drivers && r.row.driverId == driverId
    ensures LookupDriver(drivers, driverId).None? ==> r.FallbackPosition?
    ensures UniqueDriverIds(drivers) ==>
      (r.StoredRow? <==> dbUp && LookupDriver(drivers, driverId).Some?) &&
      (r.StoredRow? ==> r == StoredRow(LookupDriver(drivers, driverId).value))
  {
    FetchIsLookup(drivers, driverId);
    if !dbUp then FallbackPosition(FALLBACK_X, FALLBACK_Y)
    else
      var data := FetchDriverLocation(drivers, driverId);
      if data.None? then FallbackPosition(FALLBACK_X, FALLBACK_Y) else StoredRow(data.value)
  }
}
