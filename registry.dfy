/**
 * The in-memory driver registry and rider fan-out of the driver service
 * (driver-service/manager.py, class ConnectionManager).
 *
 * The manager holds the connected rider sockets in connection order and a
 * dictionary from driver id to the driver's latest payload.  Every change of
 * a driver entry is followed by a broadcast of the snapshot of all drivers
 * that are not `offline`.  The sockets themselves are not modelled: a rider
 * socket is an identity, the sockets whose send fails at a given moment are a
 * parameter (`dead`), and `outbox` logs every snapshot actually delivered.
 */
module Registry {
  import opened Store

  /** The payload stored for a driver: what the driver socket handler builds from a message. */
  datatype DriverPayload = DriverPayload(
    driverId: DriverId,
    name: string,
    x: real,
    y: real,
    status: string,
    lastUpdated: Timestamp)

  /** A connected rider's socket, by identity. */
  datatype RiderSocket = RiderSocket(handle: nat)

  /** One snapshot message delivered to one rider. */
  datatype Delivery = Delivery(to: RiderSocket, snapshot: map<DriverId, DriverPayload>)

  /** The snapshot sent to riders: exactly the entries whose status is not `offline`, unmodified. */
  function Snapshot(locations: map<DriverId, DriverPayload>): (s: map<DriverId, DriverPayload>)
    ensures forall id :: id in s <==> id in locations && locations[id].status != OFFLINE
    ensures forall id :: id in s ==> s[id] == locations[id]
  {
    map id | id in locations && locations[id].status != OFFLINE :: locations[id]
  }

  /** mark_driver_offline on the dictionary: a known entry gets status `offline`, an unknown id changes nothing. */
  function MarkedOffline(locations: map<DriverId, DriverPayload>, id: DriverId): (r: map<DriverId, DriverPayload>)
    ensures r.Keys == locations.Keys
    ensures id in locations ==> r[id] == locations[id].(status := OFFLINE)
    ensures forall k :: k in locations && k != id ==> r[k] == locations[k]
  {
    if id in locations then locations[id := locations[id].(status := OFFLINE)] else locations
  }

  /** Marking a driver offline removes exactly that driver from the snapshot. */
  lemma SnapshotAfterMarkOffline(locations: map<DriverId, DriverPayload>, id: DriverId)
    ensures Snapshot(MarkedOffline(locations, id)) == Snapshot(locations) - {id}
  {
    var after := MarkedOffline(locations, id);
    assert id in after ==> after[id].status == OFFLINE;
    assert Snapshot(after).Keys == Snapshot(locations).Keys - {id};
  }

  /** Storing a payload shows it in the snapshot when it is not `offline` and hides the driver when it is. */
  lemma SnapshotAfterUpdate(locations: map<DriverId, DriverPayload>, id: DriverId, data: DriverPayload)
    ensures Snapshot(locations[id := data]) ==
      if data.status != OFFLINE then Snapshot(locations)[id := data] else Snapshot(locations) - {id}
  {
    if data.status != OFFLINE {
      assert Snapshot(locations[id := data]).Keys == Snapshot(locations).Keys + {id};
    } else {
      assert Snapshot(locations[id := data]).Keys == Snapshot(locations).Keys - {id};
    }
  }

  /** A change of the registry: update_driver_location or mark_driver_offline. */
  datatype RegistryEvent = Update(driverId: DriverId, data: DriverPayload) | MarkOffline(offlineId: DriverId)

  function Step(locations: map<DriverId, DriverPayload>, e: RegistryEvent): map<DriverId, DriverPayload> {
    match e
    case Update(id, data) => locations[id := data]
    case MarkOffline(id) => MarkedOffline(locations, id)
  }

  /** The registry after a sequence of changes, applied in order. */
  function ApplyAll(locations: map<DriverId, DriverPayload>, events: seq<RegistryEvent>): map<DriverId, DriverPayload>
    decreases |events|
  {
    if events == [] then locations else ApplyAll(Step(locations, events[0]), events[1..])
  }

  /** An event that makes this driver visible again: an update for it whose status is not `offline`. */
  predicate BringsOnline(e: RegistryEvent, id: DriverId) {
    e.Update? && e.driverId == id && e.data.status != OFFLINE
  }

  /**
   * Once marked offline, a driver is absent from every snapshot until an
   * update for it with a status other than `offline` arrives.
   */
  lemma {:induction false} HiddenUntilBackOnline(locations: map<DriverId, DriverPayload>, id: DriverId, events: seq<RegistryEvent>)
    requires forall i :: 0 <= i < |events| ==> !BringsOnline(events[i], id)
    ensures id !in Snapshot(ApplyAll(MarkedOffline(locations, id), events))
  {
    SnapshotAfterMarkOffline(locations, id);
    StaysHidden(MarkedOffline(locations, id), id, events);
  }

  lemma {:induction false} StaysHidden(locations: map<DriverId, DriverPayload>, id: DriverId, events: seq<RegistryEvent>)
    requires id !in Snapshot(locations)
    requires forall i :: 0 <= i < |events| ==> !BringsOnline(events[i], id)
    ensures id !in Snapshot(ApplyAll(locations, events))
    decreases |events|
  {
    if events != [] {
      var next := Step(locations, events[0]);
      match events[0] {
        case Update(k, data) =>
          SnapshotAfterUpdate(locations, k, data);
        case MarkOffline(k) =>
          SnapshotAfterMarkOffline(locations, k);
      }
      assert id !in Snapshot(next);
      StaysHidden(next, id, events[1..]);
    }
  }

  /** The condition of `websocket in self.riders`. */
  function SameSocket(ws: RiderSocket): RiderSocket -> bool {
    (s: RiderSocket) => s == ws
  }

  /** r is riders without entry k, which is the first occurrence of ws. */
  ghost predicate RemovedFirstAt(riders: seq<RiderSocket>, ws: RiderSocket, k: int, r: seq<RiderSocket>) {
    0 <= k < |riders| && riders[k] == ws && ws !in riders[..k] && r == riders[..k] + riders[k + 1..]
  }

  /**
   * list.remove on the riders: the first occurrence of the socket goes, the
   * others keep their order; a socket that is not connected changes nothing.
   */
  function RemoveFirst(riders: seq<RiderSocket>, ws: RiderSocket): (r: seq<RiderSocket>)
    ensures ws !in riders ==> r == riders
    ensures ws in riders ==> multiset(r) == multiset(riders) - multiset{ws}
    ensures ws in riders ==> exists k :: RemovedFirstAt(riders, ws, k, r)
  {
    var k := IndexOfFirst(riders, SameSocket(ws));
    if k == |riders| then
      riders
    else
      assert riders == riders[..k] + [riders[k]] + riders[k + 1..];
      assert ws !in riders[..k];
      assert RemovedFirstAt(riders, ws, k, riders[..k] + riders[k + 1..]);
      riders[..k] + riders[k + 1..]
  }

  /** The deliveries of one broadcast: the snapshot to each rider whose send does not fail, in order. */
  function Deliveries(riders: seq<RiderSocket>, dead: set<RiderSocket>, snapshot: map<DriverId, DriverPayload>): seq<Delivery> {
    if riders == [] then []
    else
      var last := riders[|riders| - 1];
      Deliveries(riders[..|riders| - 1], dead, snapshot) + (if last !in dead then [Delivery(last, snapshot)] else [])
  }

  /**
   * A failing send does not keep later riders from receiving: every rider
   * whose send works gets the snapshot, and nothing goes to anyone else.
   */
  lemma {:induction false} DeliveriesReachLiveRiders(riders: seq<RiderSocket>, dead: set<RiderSocket>, snapshot: map<DriverId, DriverPayload>)
    ensures |Deliveries(riders, dead, snapshot)| <= |riders|
    ensures forall i :: 0 <= i < |riders| && riders[i] !in dead ==> Delivery(riders[i], snapshot) in Deliveries(riders, dead, snapshot)
    ensures forall i :: 0 <= i < |Deliveries(riders, dead, snapshot)| ==>
      var d := Deliveries(riders, dead, snapshot)[i];
      d.to in riders && d.to !in dead && d.snapshot == snapshot
  {
    if riders != [] {
      var n := |riders| - 1;
      DeliveriesReachLiveRiders(riders[..n], dead, snapshot);
      var earlier := Deliveries(riders[..n], dead, snapshot);
      var r := Deliveries(riders, dead, snapshot);
      assert r == earlier + (if riders[n] !in dead then [Delivery(riders[n], snapshot)] else []);
      forall i | 0 <= i < |riders| && riders[i] !in dead
        ensures Delivery(riders[i], snapshot) in r
      {
        if i < n {
          assert riders[..n][i] == riders[i];
        }
      }
      forall i | 0 <= i < |r|
        ensures r[i].to in riders && r[i].to !in dead && r[i].snapshot == snapshot
      {
        if i < |earlier| {
          assert r[i] == earlier[i];
          assert forall x :: x in riders[..n] ==> x in riders;
        }
      }
    }
  }

  class ConnectionManager {
    var riders: seq<RiderSocket>
    var driverLocations: map<DriverId, DriverPayload>
    /** Every snapshot delivered to a rider so far, in sending order. */
    var outbox: seq<Delivery>

    constructor ()
      ensures riders == [] && driverLocations == map[] && outbox == []
    {
      riders, driverLocations, outbox := [], map[], [];
    }

    /**
     * connect_rider: registers the socket and sends it the current snapshot.
     * When that send fails the error leaves the method, the socket staying
     * registered; `delivered` tells which happened.
     */
    method ConnectRider(ws: RiderSocket, dead: set<RiderSocket>) returns (delivered: bool)
      modifies this`riders, this`outbox
      ensures riders == old(riders) + [ws]
      ensures delivered == (ws !in dead)
      ensures outbox == old(outbox) + (if delivered then [Delivery(ws, Snapshot(driverLocations))] else [])
    {
      riders := riders + [ws];
      delivered := ws !in dead;
      if delivered {
        outbox := outbox + [Delivery(ws, Snapshot(driverLocations))];
      }
    }

    /** disconnect_rider: removes the first occurrence of the socket, if it is registered. */
    method DisconnectRider(ws: RiderSocket)
      modifies this`riders
      ensures riders == RemoveFirst(old(riders), ws)
    {
      if ws in riders {
        riders := RemoveFirst(riders, ws);
      }
    }

    /**
     * broadcast_to_riders: attempts a send of the current snapshot to every
     * rider in order; a failing send is skipped and the loop goes on.
     */
    method BroadcastToRiders(dead: set<RiderSocket>)
      modifies this`outbox
      ensures outbox == old(outbox) + Deliveries(riders, dead, Snapshot(driverLocations))
    {
      var activeData := Snapshot(driverLocations);
      for i := 0 to |riders|
        invariant outbox == old(outbox) + Deliveries(riders[..i], dead, activeData)
      {
        assert riders[..i + 1][..i] == riders[..i];
        if riders[i] !in dead {
          outbox := outbox + [Delivery(riders[i], activeData)];
        }
      }
      assert riders[..|riders|] == riders;
    }

    /** update_driver_location: stores the payload under the id, then broadcasts. */
    method UpdateDriverLocation(id: DriverId, data: DriverPayload, dead: set<RiderSocket>)
      modifies this`driverLocations, this`outbox
      ensures driverLocations == old(driverLocations)[id := data]
      ensures outbox == old(outbox) + Deliveries(riders, dead, Snapshot(driverLocations))
    {
      driverLocations := driverLocations[id := data];
      BroadcastToRiders(dead);
    }

    /** mark_driver_offline: sets the status of a known entry to `offline`; an unknown id is a no-op. */
    method MarkDriverOffline(id: DriverId)
      modifies this`driverLocations
      ensures driverLocations == MarkedOffline(old(driverLocations), id)
    {
      if id in driverLocations {
        driverLocations := driverLocations[id := driverLocations[id].(status := OFFLINE)];
      }
    }
  }
}
