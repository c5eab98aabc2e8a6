# lastMile dispatch core, modelled in Dafny

lastMile is a last-mile ride service built from small FastAPI services
sharing one database. This project models its dispatch core. That core has
four parts.

- **Matching** (`matching-service`). A rider's request is refused when the
  rider already has a `matched` ride. It fails when the pickup station is
  unknown, and reports `no_drivers` when no driver is `available`. Otherwise
  it picks the available driver nearest the station, the first one in query
  order among equally near ones. It records a `matched` ride and marks that
  driver `busy`. The earlier handler is modelled too; it has no active-ride
  guard.
- **Driver registry and rider fan-out** (`driver-service/manager.py`). An
  in-memory map from driver id to the latest payload, plus a list of rider
  sockets. Every change of an entry is followed by a broadcast of the
  snapshot of all drivers that are not `offline`.
- **Driver service handlers** (`driver-service/routes.py`, `repo.py`). A
  driver socket session turns each message into a payload (the display
  name comes from the email) and stores it in the registry. On disconnect
  the service marks the driver offline in memory, then in the database,
  then broadcasts. The module also covers the assigned-ride lookup, ride
  completion and the location read with its fallback position.
- **Trips** (`trip-service/main.py`). A trip is created `scheduled`,
  started (`active`) and completed (`completed`, which frees the driver).
  None of these handlers checks the trip's current status.

The database is an instance of class `Store.Database`. Each table is a
sequence of rows, and every query returns its rows in that sequence's order,
so "the first row" (`res.data[0]`) has a meaning. That order is an
assumption of the model: a SELECT without ORDER BY promises no order, and an
UPDATE may move a row. The assumed order decides the nearest-driver
tie-break and which row `get_assigned_ride_db` and `get_current_trip`
return when several qualify. Each module has one SQL
shape per query: a filtered SELECT (`Filter`), a `.single()` SELECT
(`Single`) and an UPDATE ... WHERE (`UpdateWhere`). `driver_id` is the
primary key of `driver_locations`. Ride and trip ids come from counters, as
serial columns would. The class invariant `Valid()` holds all of this, and
every write keeps it.

The driver registry is the class `Registry.ConnectionManager`. Its fields
are `riders` (a sequence of socket identities), `driverLocations` (a map)
and `outbox`, a log of every snapshot actually delivered. A socket's failure
to send is an input: the set of sockets whose send fails at that point.

Inputs the code gets from outside are parameters. These are the clock
(`Timestamp`, never inspected), failing sends, the messages a driver socket
receives, and whether the database calls succeed. Database failures are
modelled where the code catches them: `readsOk` for the reads of
`request_ride`; `dbUp` for the reads of `get_assigned_ride` and
`get_driver_location`, and for the offline UPDATE on the disconnect path.

Modules: `Store` (tables and query shapes), `Geometry`, `MatchingRepo`,
`Matching`, `LegacyMatching`, `Registry`, `DriverRepo`, `Sequences`
(generic facts about block-wise logs), `DriverRoutes` and `Trips`.

The model follows the code in these points:
- Ties between equally near drivers go to the first in query order, not to
  the lowest driver id.
- A driver is reserved by a plain "read the available drivers, then set
  busy" sequence, with no compare-and-set and no retry.
- Trip start and completion do not check the trip's current status, and
  there is no cancel transition.
- Location updates from one driver are not checked for staleness.

## Model

| member | source | states |
|---|---|---|
| Geometry.SquaredDistance | matching-service/main.py:21-22 | the (squared) distance is non-negative and zero exactly when the points coincide |
| Geometry.SquaredDistanceSymmetric | matching-service/main.py:21-22 | the distance from a to b equals the distance from b to a |
| Geometry.SquaresOrderLikeRoots | matching-service/main.py:21-22 | for non-negative exact reals, u < v iff u² < v² |
| Matching.SquaredChoiceIsDistanceChoice | matching-service/routes.py:31-39 | over exact reals, the first nearest candidate by any non-negative root of the squared distances (such as `sqrt`) is the first nearest by the squared distances, and back |
| MatchingRepo.ActiveRides | matching-service/repo.py:3-8 | the result holds exactly the rider's rides whose status is `matched`, taken from the table |
| MatchingRepo.ActiveRidesAfterInsert | matching-service/repo.py:3-8 | after one appended ride, the rider's matched rides are the old ones plus that ride if it is the rider's and `matched` |
| MatchingRepo.StationById | matching-service/repo.py:10-15 | a found station is in the table with that id; an id with no row gives nothing; an id held by exactly one row gives that row |
| MatchingRepo.AvailableDrivers | matching-service/repo.py:17-21 | the result holds exactly the drivers whose status is `available` |
| MatchingRepo.AvailableAfterSetBusy | matching-service/repo.py:17-30 | after the busy update a driver is available iff it was available before and has a different id |
| MatchingRepo.CreateRideRequest | matching-service/repo.py:23-24 | exactly one ride is appended, with the next generated id and the given columns; existing rides are unchanged |
| MatchingRepo.SetDriverBusy | matching-service/repo.py:26-30 | the drivers table becomes the status update of that id to `busy`, keeping the table's invariant |
| Store.WithDriverStatus | matching-service/repo.py:26-30 | a row with the id gets only its status changed; every other row and column is unchanged |
| Store.WithDriverStatusKeepsKeys | driver-service/repo.py:14-18 | a status update keeps `driver_id` unique |
| Store.Single | driver-service/repo.py:61-67 | a `.single()` query succeeds exactly when one row matches, and returns that row |
| Matching.SelectNearest | matching-service/routes.py:28-39 | on an empty list no driver is chosen; on a non-empty one a driver is always chosen, at distance ≤ every candidate's and strictly nearer than every candidate before it (strict `<`), with the distance returned |
| Matching.FirstNearestUnique | matching-service/routes.py:37 | only one index is the first nearest, so the tie-break by list order decides the choice |
| Matching.MatchKeepsExclusive | matching-service/routes.py:41-51 | matching an available driver keeps exclusivity: no two matched rides share a driver, and no driver of a matched ride is available |
| Matching.RecordMatch | matching-service/routes.py:41-51 | one `matched` ride is appended and the driver is made `busy`; the driver is no longer available, the rider now has an active ride, and exclusivity is kept |
| Matching.RequestRide | matching-service/routes.py:9-61 | a server error with no writes when a read fails; otherwise `error` iff the rider has a matched ride; a server error iff there is no such ride and the station is missing; `no_drivers` iff the station exists and nobody is available; no writes on those outcomes; otherwise the first nearest available driver is chosen, one ride with rider, station, driver, `matched`, destination and arrival time is appended, that driver becomes `busy` and cannot be chosen again, and exclusivity is kept |
| LegacyMatching.LegacyRequestRide | matching-service/main.py:24-76 | never refuses an active rider; a server error iff a read fails or the station is missing; `no_drivers` iff nobody is available; no writes then; otherwise the first nearest driver is chosen, a `matched` ride without destination is appended, the driver becomes `busy`, and the rider's matched rides grow by this one even if there were some already |
| Registry.Snapshot | driver-service/manager.py:13-22 | the snapshot holds exactly the entries whose status is not `offline`, with unmodified payloads |
| Registry.MarkedOffline | driver-service/manager.py:34-36 | the keys do not change; a known entry keeps its payload except that its status becomes `offline`; every other entry is unchanged |
| Registry.SnapshotAfterMarkOffline | driver-service/manager.py:34-36 | marking a driver offline removes exactly that driver from the snapshot |
| Registry.SnapshotAfterUpdate | driver-service/manager.py:30-31 | storing a payload shows it in the snapshot when its status is not `offline`, and hides the driver otherwise |
| Registry.HiddenUntilBackOnline | driver-service/manager.py:22-36 | after mark-offline, the driver is absent from the snapshot after any run of updates and mark-offlines none of which is a non-offline update of that driver |
| Registry.StaysHidden | driver-service/manager.py:22-36 | a driver absent from the snapshot stays absent through changes that do not bring it online |
| Registry.RemoveFirst | driver-service/manager.py:16-18 | a socket that is not present changes nothing; otherwise exactly its first occurrence is removed, the rest keeping their order |
| Registry.DeliveriesReachLiveRiders | driver-service/manager.py:24-28 | every rider whose send works receives the snapshot, whatever fails before it; only riders whose send works receive anything, and only that snapshot |
| Registry.ConnectionManager.constructor | driver-service/manager.py:5-7 | no riders, no drivers, nothing sent |
| Registry.ConnectionManager.ConnectRider | driver-service/manager.py:9-14 | the socket is appended; it receives the current snapshot iff its send works |
| Registry.ConnectionManager.DisconnectRider | driver-service/manager.py:16-18 | the riders become the list with the socket's first occurrence removed |
| Registry.ConnectionManager.BroadcastToRiders | driver-service/manager.py:20-28 | the log grows by one delivery of the current snapshot per rider whose send works, in rider order |
| Registry.ConnectionManager.UpdateDriverLocation | driver-service/manager.py:30-32 | the entry for the id becomes the payload, every other entry is unchanged, then the new snapshot is broadcast |
| Registry.ConnectionManager.MarkDriverOffline | driver-service/manager.py:34-36 | a known entry gets status `offline`; an unknown id changes nothing |
| DriverRepo.LookupDriver | driver-service/repo.py:61-67 | nothing iff no row has the id; a found row is in the table with that id |
| DriverRepo.LookupUnique | driver-service/repo.py:4-12 | with a unique key, looking up a row's id finds that row |
| DriverRepo.UpsertDriverEffect | driver-service/repo.py:4-12 | after the upsert the driver's row is the new one, every other driver's row is unchanged, and the key stays unique |
| DriverRepo.UpdateDriverLocationDb | driver-service/repo.py:4-12 | the row is replaced or created with the id, x, y, status and time given |
| DriverRepo.SetOfflineEffect | driver-service/repo.py:14-18 | an unknown id changes nothing; a known one gets status `offline` and nothing else; other drivers are unchanged |
| DriverRepo.SetDriverOfflineDb | driver-service/repo.py:14-18 | the drivers table becomes the `offline` update of that id, keeping the table's invariant |
| DriverRepo.GetAssignedRideDb | driver-service/repo.py:20-44 | nothing iff no ride is `matched` to the driver; otherwise the first such ride in table order, with the first station of its pickup id attached exactly when the ride names a station and the lookup finds one |
| DriverRepo.CompletedRideNotAssigned | driver-service/repo.py:22-50 | after a ride is completed, no driver's assigned-ride lookup returns it |
| DriverRepo.FreedDriverEffect | driver-service/repo.py:52-59 | the driver's row becomes `available` at the final position; other drivers are unchanged; the key stays unique |
| DriverRepo.CompleteRideTransaction | driver-service/repo.py:46-59 | the ride's status becomes `completed`; the driver becomes `available` at the final coordinates; no assigned-ride lookup returns that ride afterwards |
| DriverRepo.FetchDriverLocation | driver-service/repo.py:61-67 | a returned row is in the table with that id; with no row for the id the read fails |
| DriverRepo.FetchIsLookup | driver-service/repo.py:61-67 | with a unique key the `.single()` read succeeds exactly when the driver has a row, and returns it |
| DriverRoutes.BeforeFirstAt | driver-service/routes.py:20 | the result is a prefix without `@`, followed in the input by `@` unless it is the whole input |
| DriverRoutes.DisplayName | driver-service/routes.py:19-20 | with an `@` in the email the name is the text before the first `@`; otherwise, a missing email included, it is `Driver` |
| DriverRoutes.BuildPayload | driver-service/routes.py:22-29 | the id comes from the socket path; name from the email; x, y and status copied from the message; the time of handling |
| DriverRoutes.MessageSnapshotIsView | driver-service/routes.py:32 | the snapshot after a message shows every other driver as before and this driver, if visible, with its own non-offline payload |
| DriverRoutes.SessionSnapshots | driver-service/routes.py:14-32 | every snapshot sent during a session goes to a connected rider and shows the other drivers exactly as before the session |
| DriverRoutes.SessionDeliveriesInOrder | driver-service/routes.py:15-32 | the broadcast after message j comes right after those of the messages before it |
| DriverRoutes.EveryMessageReachesLiveRiders | driver-service/routes.py:15-32 | every rider whose send works after message j receives the snapshot taken right after message j is stored |
| DriverRoutes.ReceiveAll | driver-service/routes.py:15-32 | each message in turn is stored under the path's driver id and broadcast: the registry ends with the last message's payload, and the log grows by the session's broadcasts |
| DriverRoutes.DriverSession | driver-service/routes.py:11-47 | after the session the driver's entry is marked offline and the driver is absent from the snapshot; other entries are untouched; the database row is set `offline` when the database is reachable and left alone otherwise; the final broadcast happens either way, after the in-memory update |
| DriverRoutes.RiderSession | driver-service/routes.py:49-56 | the rider gets the current snapshot iff the first send works; then it is removed on disconnect, giving back the old list if it was not already there; when the first send fails it stays registered |
| DriverRoutes.ConnectThenDisconnect | driver-service/manager.py:9-18 | removing a socket just appended to a list without it gives the list back |
| DriverRoutes.GetAssignedRide | driver-service/routes.py:70-77 | a database failure gives `None`; a returned ride is matched to the driver; with the database up and a matched ride present, one is returned |
| DriverRoutes.GetDriverLocation | driver-service/routes.py:90-99 | the fallback is always (10, 10); it is the answer when there is no row or the database fails; with a unique key the stored row is returned exactly when the database is up and the row exists |
| Trips.TripById | trip-service/main.py:43-55 | nothing iff no trip has the id; a found trip is in the table with that id |
| Trips.UpdateTripEffect | trip-service/main.py:43-55 | an update by id changes exactly that trip and returns it updated; with no such trip nothing changes and no row is returned; other trips are unchanged |
| Trips.CreateTrip | trip-service/main.py:22-34 | one trip is appended with the next id, the given ride, driver and rider, status `scheduled` and no times, and it is returned |
| Trips.StartTrip | trip-service/main.py:36-46 | whatever its status, the trip becomes `active` with the pickup time and is returned; an unknown id is an error that changes nothing |
| Trips.CompleteTrip | trip-service/main.py:48-62 | whatever its status, the trip becomes `completed` with the drop-off time and its driver `available`; an unknown id is an error that changes neither table |
| Trips.GetCurrentTrip | trip-service/main.py:64-69 | nothing iff the driver has no trip that is not `completed`; otherwise the first such trip in table order |
| Trips.CompletedTripNotCurrent | trip-service/main.py:55-66 | after completion a trip is never again a driver's current trip |
| Trips.StartedTripIsCurrent | trip-service/main.py:43-66 | after a start, the trip's driver has a current trip |

## Left out

- Concurrency: handlers run one after another. The race between reading the available drivers and setting one `busy` is not modelled. Exclusivity is proved only for requests handled in sequence.
- Matching.Exclusive is kept by the two matching handlers only. Other writes can break it: `Trips.CompleteTrip` (trip-service/main.py:58) frees a driver whose ride stays `matched`, and `DriverRepo.UpdateDriverLocationDb` can write `available` for a driver with a matched ride.
- Coordinates and distances are exact reals, not IEEE doubles. Distances are squared and `sqrt` is left out. Over exact reals that picks the same driver (`Matching.SquaredChoiceIsDistanceChoice`). In doubles it can differ, and none of these cases is modelled:
  - `math.sqrt` can round two different squared distances to the same value, so the strict `<` keeps an earlier driver the model passes over;
  - a coordinate difference above about 1e154 makes `**` overflow, which the handler turns into a 500;
  - NaN coordinates.
- The reply's `round(min_dist, 2)` is not modelled; `Matching.RequestRide` returns the squared distance instead.
- `utils.calculate_distance`, called from matching-service/routes.py, is not part of this model. It is taken to be the Euclidean distance of matching-service/main.py:21-22.
- Matching.RequestRide: a missing station (the 404 raised inside the handler), a duplicated station id and a failing read all give the 500 outcome `ServerError`. Which read failed and the error's detail text are not modelled.
- Database failures on writes are modelled only for the offline UPDATE on disconnect; the others are not. That covers a failed insert or update inside `request_ride`, `create_trip`, `start_trip`, `complete_trip`, `complete_ride_transaction` and `update_driver_location_db`, and the partial state a failure between two writes would leave. The trip handlers catch such failures and reply 500 (trip-service/main.py:33-34, 45-46, 61-62). Read failures are modelled only in `request_ride` (both handlers), `get_assigned_ride` and `get_driver_location`.
- The HTTP routes `update_location` (driver-service/routes.py:60-68) and `complete_ride` (driver-service/routes.py:79-88) only forward to `DriverRepo.UpdateDriverLocationDb` and `DriverRepo.CompleteRideTransaction`. Their 500 replies on failure are not modelled separately.
- DriverRoutes.DriverSession: a malformed message ends the handler without the offline sequence (no `x`, `y` or `status` key; `email` present but null). That outcome is not modelled: messages are well-formed, and a missing `email` key is `None`.
- Timestamps (`datetime.utcnow()`) are opaque values passed in as parameters and are never compared.
- Ids: driver, rider and station ids are strings. Ride and trip ids are naturals generated by counters. Both trip-service and driver-service's `complete_ride` (whose `ride_id` is a string, driver-service/schemas.py:10) take these ids as strings; the database's conversion is not modelled.
- Sockets and transport are left out: FastAPI, CORS, WebSocket accept, and receiving and sending bytes. A rider socket is an identity; a failing send is an input set.
- The driver motion simulator and the frontend are left out, as are `user-service` and `station-service`. They are UI, timers, float trigonometry or read passthroughs.
- The service's single global `manager` is a `ConnectionManager` object that each handler receives as a parameter.
- The code has no compare-and-set reservation, retry, cancellation, stale-update check or trip state check, and the model adds none.
- Store.Single and MatchingRepo.StationById: a query result with several rows makes `.single()` fail, which the model keeps. For stations, whose id is the key, that case does not arise.
