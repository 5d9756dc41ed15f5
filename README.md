# TfNSW Bus Tracker — a Dafny model of its core

The TfNSW Bus Tracker is a browser application. It shows the buses of Sydney
on a map and in a list, taken from the Transport for NSW (TfNSW) GTFS-realtime
feeds, and it shows the next departures of a selected bus. A small development
server plugin answers stop-name lookups from the static GTFS stops table.

This project models the core of that system, and proves properties of the
model:

- **Feed decoding** (`GtfsRealtime`). A decoded GTFS-realtime feed becomes
  vehicle records and trip-update records. Vehicles must have a finite
  position inside the Sydney bounding box. Speed is converted to km/h and
  rounded. Trip updates keep only the stops that have a time, ordered by that
  time.
- **Next departures** (`NextDepartures`). The departures board for one bus is
  built in tiers. The first tier is the bus's own trip. Then comes every update
  carrying its vehicle id. Last is every update on its route. Departures more
  than a minute old are dropped. Departures are deduplicated by a composite id,
  sorted by time and cut to a limit.
- **Feed access** (`FeedFetch`, `TfnswApi`, `TfnswTripUpdatesApi`). The
  request plan comes from the build configuration: a configured URL, the dev
  proxy, the public endpoint with a browser key, or the deployment's proxy. A
  fallback loop tries the candidates in order. It stops on an abort and
  otherwise reports every failure under its label.
- **Stop-name client cache** (`StaticStopsApi`). The browser-side cache holds
  stop names and ids known to have no name. Lookups normalise their ids and
  request only the unknown ids, in batches of 250. Replies are merged into the
  cache.
- **Stop-name server plugin** (`StopNamesProxy`). The plugin loads and parses
  the static stops table, which may be a CSV file or a zip archive holding
  one. It caches the table for six hours and shares one load among concurrent
  callers. Its `/api/stop-names` handler parses the requested ids and answers
  with the names it knows and the ids it lacks.
- **Screen state** (`AppState`). The main screen's state changes with each
  refresh, and the screen shows values derived from that state: the search
  filter, the active routes, the departures target and the tracking line.

`Common` holds shared string and sequence utilities. These are the JavaScript
`trim` (over the full JavaScript whitespace set), ASCII lower-casing, substring
search, split and join, a stable sort, and first-occurrence deduplication.

The screen state, the server's table cache and the client's stop-name cache are
classes whose methods update fields in place. Each method is proved against a
function on values, and the lemmas are stated about those functions. The
request plan, the fallback loop, the CSV row loop and the id parser are methods
with loops. Each is proved equal to, or to satisfy, its specifying function.

## Model

| member | source | states |
|---|---|---|
| GtfsRealtime.ToTimestampMs | src/lib/gtfsRealtime.js:97-101 | a time is present exactly when the input is; it is the seconds value times 1000 |
| GtfsRealtime.JsRound | src/lib/gtfsRealtime.js:146 | `Math.round`: the result is within half a unit of the input, with halves rounded up |
| GtfsRealtime.SpeedKmh | src/lib/gtfsRealtime.js:133-146 | a speed is reported exactly when the m/s value is finite; it is that value times 3.6, rounded |
| GtfsRealtime.DecodeVehicle | src/lib/gtfsRealtime.js:113-150 | an entity yields a vehicle exactly when it has a position with finite coordinates inside the Sydney bounds; the record carries those coordinates, the entity id, the unscaled timestamp and the converted speed; the bearing is copied, reading 0 when missing; route, trip, vehicle id, label and stop id are copied from their descriptors, each reading empty when it or its descriptor is missing |
| GtfsRealtime.DecodeBusVehiclePositions | src/lib/gtfsRealtime.js:103-151 | the output is no longer than the feed; every vehicle lies inside the Sydney bounds and is the decoding of some entity |
| GtfsRealtime.DecodeVehiclesAppend | src/lib/gtfsRealtime.js:111-151 | decoding distributes over concatenation of entity lists, so the feed order is kept |
| GtfsRealtime.DecodeVehiclesSingle | src/lib/gtfsRealtime.js:113-151 | one entity contributes its vehicle or nothing |
| GtfsRealtime.StopEventTimeMs | src/lib/gtfsRealtime.js:153-159 | the departure time is used when present, else the arrival time, else there is none; both are in milliseconds |
| GtfsRealtime.DecodeStop | src/lib/gtfsRealtime.js:179-190 | a stop is kept exactly when it has an event time; the record carries that time, the stop id (empty when missing), the stop sequence and the schedule relationship |
| GtfsRealtime.RetainedStops | src/lib/gtfsRealtime.js:178-188 | the retained stops are empty exactly when no stop has a time; each retained stop is the decoding of an input stop |
| GtfsRealtime.RetainedStopsMembers | src/lib/gtfsRealtime.js:178-191 | every stop-time update with a time has its record retained |
| GtfsRealtime.RetainedStopsAppend | src/lib/gtfsRealtime.js:178-191 | retaining distributes over concatenation, so the feed order of the stops is kept |
| GtfsRealtime.RetainedStopsSingle | src/lib/gtfsRealtime.js:178-191 | one stop-time update contributes its record, or nothing when it has no time |
| GtfsRealtime.DecodeTripUpdate | src/lib/gtfsRealtime.js:171-207 | an entity without a trip update, or with no timed stop, yields nothing; otherwise the stops are non-empty, sorted by event time and a permutation of the retained stops, and the timestamp is converted to ms; route, trip, vehicle id and label are copied from their descriptors, each reading empty when missing |
| GtfsRealtime.TripUpdateStopsStable | src/lib/gtfsRealtime.js:193 | the sort is stable: stops with equal times keep their feed order |
| GtfsRealtime.DecodeBusTripUpdates | src/lib/gtfsRealtime.js:161-210 | every update kept has non-empty stops sorted by time and comes from some entity |
| GtfsRealtime.DecodeTripUpdatesAppend | src/lib/gtfsRealtime.js:169-209 | decoding distributes over concatenation, so the feed order is kept |
| GtfsRealtime.DecodeTripUpdatesSingle | src/lib/gtfsRealtime.js:171-209 | one entity contributes its decoded trip update, or nothing |
| GtfsRealtime.UntimedEntityContributesNothing | src/lib/gtfsRealtime.js:195-197 | an entity whose stops all lack times is dropped without disturbing its neighbours |
| NextDepartures.KeyPart | src/lib/nextDepartures.js:5-8 | an id part is never empty; it reads `_` exactly when the field is empty or is itself `_` |
| NextDepartures.DepartureKeys | src/lib/nextDepartures.js:4-11 | a departure id has six non-empty parts |
| NextDepartures.DepartureIdKeys | src/lib/nextDepartures.js:4-11 | when no field contains `:`, splitting the id on `:` gives back its six parts |
| NextDepartures.DepartureIdsEqual | src/lib/nextDepartures.js:4-11 | for such departures, two ids are equal exactly when all six parts are equal |
| NextDepartures.NormalizeDeparture | src/lib/nextDepartures.js:13-30 | the departure carries the composite id, the match type and source `trip-updates`, and the copied fields; the stop name is the map's name for a non-empty stop id it holds, and empty otherwise |
| NextDepartures.UpcomingStops | src/lib/nextDepartures.js:34 | a stop is kept exactly when it belongs to the update and is no more than 60 s in the past |
| NextDepartures.FlattenTripUpdateStops | src/lib/nextDepartures.js:32-50 | gives one departure per stop inside the grace window, in stop order; each is that stop normalised with the update's route, trip and vehicle |
| NextDepartures.GraceWindow | src/lib/nextDepartures.js:34 | a stop at most 60 s old is listed; an older one is not |
| NextDepartures.FlattenAll | src/lib/nextDepartures.js:105-110 | every departure of the merged updates is within the grace window and carries the tier's match type |
| NextDepartures.FlattenAllMembers | src/lib/nextDepartures.js:105-107 | a departure is in the `flatMap` exactly when one of the matching updates yields it |
| NextDepartures.FlattenAllAppend | src/lib/nextDepartures.js:105-107 | the `flatMap` distributes over concatenation of updates, so departures stay in update order before the stable sort |
| NextDepartures.FlattenAllSingle | src/lib/nextDepartures.js:105-107 | one update contributes exactly its own upcoming departures, in stop order |
| NextDepartures.MergedDepartures | src/lib/nextDepartures.js:52-61 | merged departures are sorted by time, have distinct ids, stay within the limit and are within the grace window |
| NextDepartures.MergedDeparturesContents | src/lib/nextDepartures.js:52-61 | the merge keeps only departures of the matching updates; each is the first with its id in the time-sorted list; there is one per distinct id, as many as `slice(0, limit)` leaves (which ones: `MergedDeparturesEarliest`) |
| NextDepartures.MergedDeparturesEarliest | src/lib/nextDepartures.js:105-111 | the cut keeps the soonest departures: a flattened departure whose id is not in the merge leaves no earlier than any departure in it, for every limit |
| NextDepartures.MergedDeparturesNonEmpty | src/lib/nextDepartures.js:104-110 | when a matching update keeps a stop in the grace window and the limit is positive, the merge lists something |
| NextDepartures.FindTripMatch | src/lib/nextDepartures.js:88 | the first update whose non-empty trip id equals the bus's, or none when no update matches |
| NextDepartures.TripTier | src/lib/nextDepartures.js:87-98 | every trip-tier departure carries the bus's trip id |
| NextDepartures.VehicleTier | src/lib/nextDepartures.js:100-117 | every vehicle-tier departure carries the bus's vehicle id |
| NextDepartures.RouteTier | src/lib/nextDepartures.js:119-134 | every route-tier departure carries the bus's route id |
| NextDepartures.BuildNextDepartures | src/lib/nextDepartures.js:63-140 | no bus or no updates gives no match and no items; the basis is no-match exactly when the list is empty; the list stays within the limit and the grace window; the vehicle and route tiers are sorted with distinct ids; the route tier only when the fallback is on; a trip, vehicle or route answer lists exactly that tier's departures, each carrying the bus's trip id, vehicle id or route id respectively |
| NextDepartures.TripTierTakesPrecedence | src/lib/nextDepartures.js:87-98 | when an update matches the bus's trip and has upcoming stops, the board is that update's stops in order, cut to the limit |
| NextDepartures.VehicleTierWhenNoTripMatch | src/lib/nextDepartures.js:100-117 | the vehicle tier is used exactly when the trip tier is empty and the vehicle tier is not; all its departures carry the bus's vehicle id |
| NextDepartures.FlattenAllVehicle | src/lib/nextDepartures.js:101-110 | updates that all carry a vehicle id flatten to departures carrying that id |
| NextDepartures.FlattenAllRoute | src/lib/nextDepartures.js:120-126 | updates that all carry a route id flatten to departures carrying that id |
| NextDepartures.VehicleTierAnswers | src/lib/nextDepartures.js:100-117 | with no trip-tier answer and a positive limit, a bus whose vehicle id is carried by an update with a stop in the grace window gets the vehicle tier |
| NextDepartures.RouteTierAnswers | src/lib/nextDepartures.js:119-134 | with the fallback on, no trip- or vehicle-tier answer and a positive limit, a bus whose route has an update with a stop in the grace window gets the route tier |
| NextDepartures.RouteTierIsLastResort | src/lib/nextDepartures.js:119-139 | the route tier is used exactly when the fallback is on, the trip and vehicle tiers are empty and the route tier is not |
| FeedFetch.Setting | src/lib/tfnswApi.js:7-8 | a setting is read trimmed; unset and blank read alike |
| FeedFetch.AuthHeaders | src/lib/tfnswApi.js:16 | the `Authorization: apikey <key>` header is present exactly when a key is set, and it is the only header |
| FeedFetch.Labels | src/lib/tfnswApi.js:98-102 | the labels of the plan, in plan order |
| FeedFetch.BuildRequestPlan | src/lib/tfnswApi.js:6-51 | the plan has one or two candidates; a configured URL is the only candidate; the public endpoint is used exactly when there is no URL and there is a key, and comes after the dev proxy in dev builds and before the app proxy otherwise; labels are distinct; only TfNSW candidates carry the key |
| FeedFetch.PlanRequests | src/lib/tfnswApi.js:6-51 | pushing the candidates one by one gives exactly `BuildRequestPlan` |
| FeedFetch.WithProtoAcceptHeader | src/lib/tfnswApi.js:53-58 | a protobuf `Accept` header is added; any header given, including an `Accept`, is kept |
| FeedFetch.FetchFeed | src/lib/tfnswApi.js:60-103 | an empty plan is a configuration error; success means the first candidate that did not fail served the decoded feed; an abort ends the loop at once; otherwise every candidate was tried and its failure is reported under its label, in order |
| TfnswApi.DecodeVehiclesPayload | src/lib/tfnswApi.js:88-89 | a body decodes exactly when the protobuf decoder accepts it, and every vehicle lies inside the Sydney bounds |
| TfnswApi.ServedIsDecoded | src/lib/tfnswApi.js:88-89 | a served attempt holds the decoded vehicles of an OK body |
| TfnswApi.FetchSydneyBuses | src/lib/tfnswApi.js:60-103 | the configuration error never arises; served buses lie inside the Sydney bounds and come from the first candidate of the plan that did not fail; an abort ends the loop at the first candidate that did not fail; an unreachable feed names every candidate tried and reports each one's failure under its label, in order |
| TfnswTripUpdatesApi.DecodeTripUpdatesPayload | src/lib/tfnswTripUpdatesApi.js:86-87 | a body decodes exactly when the protobuf decoder accepts it, and every update has non-empty stops sorted by time |
| TfnswTripUpdatesApi.ServedIsDecoded | src/lib/tfnswTripUpdatesApi.js:86-87 | a served attempt holds the decoded updates of an OK body |
| TfnswTripUpdatesApi.FetchBusTripUpdates | src/lib/tfnswTripUpdatesApi.js:58-101 | the configuration error never arises; served updates have non-empty stops sorted by time and come from the first candidate that did not fail; an abort ends the loop at the first candidate that did not fail; an unreachable feed names every candidate tried and reports each one's failure under its label, in order |
| StaticStopsApi.NormalizeStopIds | src/lib/tfnswStaticStopsApi.js:7-13 | no input gives no ids; the ids are trimmed, non-empty and distinct; they are exactly the non-empty trimmed inputs |
| StaticStopsApi.NormalizeStopIdsFirstOccurrence | src/lib/tfnswStaticStopsApi.js:7-13 | ids keep the order of their first occurrence |
| StaticStopsApi.ChunksProperties | src/lib/tfnswStaticStopsApi.js:26-32 | batches are non-empty and at most the size; all but the last are full; together they give back the input |
| StaticStopsApi.ChunkArray | src/lib/tfnswStaticStopsApi.js:26-32 | the loop yields exactly these batches |
| StaticStopsApi.MergeEntry | src/lib/tfnswStaticStopsApi.js:60-68 | an entry whose trimmed id and name are both non-empty stores the trimmed name under the trimmed id and removes the id from the unresolved set; any other entry changes nothing; no cached name is forgotten |
| StaticStopsApi.MergeEntriesKeepsValid | src/lib/tfnswStaticStopsApi.js:59-69 | merging names keeps the cache well formed: trimmed non-empty ids and names, and no id both named and unresolved |
| StaticStopsApi.MarkMissingKeepsValid | src/lib/tfnswStaticStopsApi.js:71-75 | marking ids missing keeps the cache well formed and leaves the names untouched |
| StaticStopsApi.ApplyReplyKeepsValid | src/lib/tfnswStaticStopsApi.js:53-75 | one batch reply keeps the cache well formed |
| StaticStopsApi.MergeEntriesMonotone | src/lib/tfnswStaticStopsApi.js:59-69 | an id the cache knew stays known after names are merged |
| StaticStopsApi.MarkMissingMonotone | src/lib/tfnswStaticStopsApi.js:71-75 | known ids stay known; every id marked missing becomes known |
| StaticStopsApi.ApplyReplyMonotone | src/lib/tfnswStaticStopsApi.js:53-75 | a reply never makes a known id unknown |
| StaticStopsApi.MergeEntriesNames | src/lib/tfnswStaticStopsApi.js:60-68 | a merged entry with a non-empty trimmed id and name is cached under its trimmed id |
| StaticStopsApi.MissingIdIsKnown | src/lib/tfnswStaticStopsApi.js:71-75 | an id the server reports missing is known afterwards |
| StaticStopsApi.NamedIdIsKnown | src/lib/tfnswStaticStopsApi.js:59-69 | an id the server names is cached afterwards |
| StaticStopsApi.ApplyReplyAnswers | src/lib/tfnswStaticStopsApi.js:53-75 | an id the reply answers, by name or as missing, is known afterwards |
| StaticStopsApi.ReplaySnoc | src/lib/tfnswStaticStopsApi.js:90-92 | replaying one more batch applies its reply to the cache |
| StaticStopsApi.ReplayKeepsValid | src/lib/tfnswStaticStopsApi.js:88-93 | any sequence of batches keeps the cache well formed |
| StaticStopsApi.ReplayMonotone | src/lib/tfnswStaticStopsApi.js:88-93 | known ids stay known across any sequence of batches |
| StaticStopsApi.ReplayMonotoneAll | src/lib/tfnswStaticStopsApi.js:88-93 | all known ids stay known across any sequence of batches |
| StaticStopsApi.ReplayAnswered | src/lib/tfnswStaticStopsApi.js:88-93 | an id answered by any batch is known at the end |
| StaticStopsApi.FullyAnsweredIdsKnown | src/lib/tfnswStaticStopsApi.js:84-93 | when every requested batch answers each of its ids, every id looked up is known afterwards |
| StaticStopsApi.MissingIds | src/lib/tfnswStaticStopsApi.js:84-86 | the ids requested are exactly the looked-up ids the cache neither names nor knows to be unresolved |
| StaticStopsApi.BuildResultMap | src/lib/tfnswStaticStopsApi.js:15-24 | the result holds exactly the looked-up ids that have a non-empty cached name, with that name |
| StaticStopsApi.StopNameCache.constructor | src/lib/tfnswStaticStopsApi.js:4-5 | the cache starts empty and well formed |
| StaticStopsApi.StopNameCache.RequestStopNamesChunk | src/lib/tfnswStaticStopsApi.js:34-76 | one batch: the reply is the server's answer; the cache becomes the reply applied to the old cache; a failure or non-OK status changes nothing |
| StaticStopsApi.StopNameCache.MergeNames | src/lib/tfnswStaticStopsApi.js:59-69 | the entry loop leaves the cache that merging the entries one by one with `MergeEntry` gives |
| StaticStopsApi.StopNameCache.MarkMissingIds | src/lib/tfnswStaticStopsApi.js:71-75 | the missing-id loop leaves the cache that `MarkMissing` gives: each id not named becomes unresolved |
| StaticStopsApi.StopNameCache.SendBatches | src/lib/tfnswStaticStopsApi.js:88-93 | batches are sent in order until one fails; the cache is the replay of the batches sent; known ids stay known |
| StaticStopsApi.StopNameCache.ResolveIds | src/lib/tfnswStaticStopsApi.js:84-95 | only the unknown ids are requested, in batches of 250; success returns the result map of the new cache; when all ids are known nothing is requested; the first failure is returned |
| StaticStopsApi.StopNameCache.FetchStopNamesByIds | src/lib/tfnswStaticStopsApi.js:78-96 | no usable id gives an empty result with no request; otherwise the same as `ResolveIds` over the normalised ids |
| StaticStopsApi.LookupTwice | src/lib/tfnswStaticStopsApi.js:78-96 | with a server that answers every trimmed non-empty id of each batch, by name or as missing, a second lookup of the same ids after a successful first one sends nothing and returns the same names |
| StopNamesProxy.Column | stopNamesProxyPlugin.js:37-38 | a cell is read trimmed, and an absent column reads as empty |
| StopNamesProxy.RowsToTableWellFormed | stopNamesProxyPlugin.js:35-43 | every id and name in the table is non-empty and trimmed |
| StopNamesProxy.RowsToTableKeys | stopNamesProxyPlugin.js:35-43 | an id is in the table exactly when some row with a non-empty id and name carries it |
| StopNamesProxy.CollectMembers | stopNamesProxyPlugin.js:36-43 | the ids collected from the rows are exactly those some row yields |
| StopNamesProxy.ValidIdsMembers | stopNamesProxyPlugin.js:36-43 | the valid ids are exactly the ids of rows with a non-empty id and name |
| StopNamesProxy.RowsToTableLastWins | stopNamesProxyPlugin.js:39-42 | a later row with the same id overwrites an earlier one: the table holds the name of the last valid row for each id |
| StopNamesProxy.StopsTableShape | stopNamesProxyPlugin.js:21-50 | a parsed table is non-empty and well formed; parsing fails exactly when the parser reported errors and gave no rows, or when no row has both an id and a name |
| StopNamesProxy.ParseStopsCsv | stopNamesProxyPlugin.js:21-50 | the row loop yields exactly that table or error |
| StopNamesProxy.LowerCharIdempotent | stopNamesProxyPlugin.js:53 | lower-casing twice is lower-casing once |
| StopNamesProxy.IsZipPayloadIgnoresCase | stopNamesProxyPlugin.js:52-58 | the content-type test ignores case |
| StopNamesProxy.IsZipPayloadBySignature | stopNamesProxyPlugin.js:52-58 | without a content type, a payload is a zip exactly when it is longer than three bytes and starts with `PK` |
| StopNamesProxy.ZipContentTypeWins | stopNamesProxyPlugin.js:53-54 | any content type that mentions `zip` in any case, such as `application/ZIP`, marks the payload as a zip whatever its bytes |
| StopNamesProxy.FindStopsEntry | stopNamesProxyPlugin.js:63-65 | the first archive entry whose name ends in `stops.txt`, ignoring case, or none when no entry does |
| StopNamesProxy.EntryNames | stopNamesProxyPlugin.js:63 | the names of the unzipped object's entries, in its key order |
| StopNamesProxy.ParseStopsPayload | stopNamesProxyPlugin.js:60-73 | a non-zip payload is parsed as CSV; an unreadable archive and one with no stops file are errors; otherwise the stops entry is parsed |
| StopNamesProxy.StaticRequestHeaders | stopNamesProxyPlugin.js:82-85 | the `Accept` header is always sent; `Authorization: apikey <key>` is sent exactly when there is a key |
| StopNamesProxy.LoadStopNamesById | stopNamesProxyPlugin.js:75-108 | the endpoints are tried in order; the first one that yields a table wins; if none does, the error lists every endpoint with its failure, in order |
| StopNamesProxy.RequestIndex | stopNamesProxyPlugin.js:110-132 | the table is served exactly when it is loaded and younger than six hours; a load starts exactly when it is not fresh and none is pending; otherwise the caller joins the pending load; the table is never changed by a request |
| StopNamesProxy.SettleLoad | stopNamesProxyPlugin.js:120-130 | a settled load clears the pending mark; success stores the table and its load time; failure keeps the old table |
| StopNamesProxy.SingleFlight | stopNamesProxyPlugin.js:116-131 | however many requests arrive before a load settles, at most one starts a load, and none does when a load is already pending |
| StopNamesProxy.FreshAfterLoad | stopNamesProxyPlugin.js:113-115 | within six hours of a successful load, the loaded table is served |
| StopNamesProxy.StaleStartsLoad | stopNamesProxyPlugin.js:113-121 | after six hours, a request starts a new load; the old table is kept, unserved, until the load settles |
| StopNamesProxy.StopIndexCache.constructor | stopNamesProxyPlugin.js:11-13 | the cache starts with no table, no load time and no pending load |
| StopNamesProxy.StopIndexCache.GetStopNamesById | stopNamesProxyPlugin.js:110-132 | one call updates the fields as `RequestIndex` specifies |
| StopNamesProxy.StopIndexCache.Settle | stopNamesProxyPlugin.js:120-130 | the end of a load updates the fields as `SettleLoad` specifies |
| StopNamesProxy.RequestedStopIds | stopNamesProxyPlugin.js:134-148 | the requested ids are distinct, and they are exactly the non-empty trimmed comma-separated pieces of the `ids` values, then the `id` values |
| StopNamesProxy.PiecesAreIds | stopNamesProxyPlugin.js:139-143 | every piece is non-empty, trimmed and free of commas |
| StopNamesProxy.RequestedStopIdsShape | stopNamesProxyPlugin.js:134-148 | requested ids are trimmed, non-empty and comma-free, in order of first occurrence |
| StopNamesProxy.ParseRequestedStopIds | stopNamesProxyPlugin.js:134-148 | the nested loop yields exactly `RequestedStopIds` |
| StopNamesProxy.ResolveNames | stopNamesProxyPlugin.js:172-178 | the answer names exactly the requested ids that have a non-empty name in the table, except `__proto__`, which a plain object does not store |
| StopNamesProxy.ProtoIdReportedMissing | stopNamesProxyPlugin.js:172-181 | a requested `__proto__` id is never named and is always listed as missing |
| StopNamesProxy.ResolveRequested | stopNamesProxyPlugin.js:172-178 | the loop yields exactly `ResolveNames` |
| StopNamesProxy.AnswerPartition | stopNamesProxyPlugin.js:170-181 | every requested id is either named or missing, never both; the answer mentions no other id; the missing ids have no repeats |
| StopNamesProxy.HandleStopNames | stopNamesProxyPlugin.js:150-191 | another path is passed on; a non-GET gets 405; no ids gets 400; a failed load gets 502; otherwise 200 with the resolved names and the ids not named, in request order |
| AppState.NextSelectedId | src/App.jsx:67-74 | no buses clears the selection; an unset selection takes the first bus; a set selection is kept whether or not its bus is still listed |
| AppState.NextTrackedId | src/App.jsx:76-82 | an unset tracked id becomes none; a set one is kept |
| AppState.RefreshEndsLoading | src/App.jsx:36-90 | every refresh ends with loading off; an abort leaves no error message |
| AppState.FailedVehicleFetchKeepsData | src/App.jsx:45-50 | a failed vehicle fetch sets an error (its message, if any) and keeps the buses, trip updates, ids and update time |
| AppState.TripUpdatesFailureEmptiesTrips | src/App.jsx:52-65 | buses in and trip updates failed: the buses are replaced and stamped; the trip updates are emptied, with an error, and not stamped |
| AppState.BothFetchesReplaceData | src/App.jsx:52-74 | both fetches in: both lists are replaced and stamped, both errors are cleared and the selection is settled |
| AppState.AbortAfterBusesSkipsIdUpdate | src/App.jsx:60-62 | an aborted trip-updates fetch keeps the new buses but skips the trip-update and id updates |
| AppState.RefreshKeepsSetIds | src/App.jsx:67-82 | a set tracked id is never reset by a refresh; a set selection is reset only by an empty bus list; each holds whether or not the other id is set |
| AppState.NormalizeQuery | src/App.jsx:116 | the query is a stretch of the typed text with only white space cut from either end, each character lower-cased; so it has no white space at either end, no upper-case ASCII letter, and is never longer than the input |
| AppState.NormalizeQueryIdempotent | src/App.jsx:116 | normalising a normalised query changes nothing |
| AppState.MatchIgnoresRouteCase | src/App.jsx:19-22 | whether a bus matches depends only on its route id, ignoring case |
| AppState.SearchNarrows | src/App.jsx:19-22 | a bus matching a query matches every prefix of it |
| AppState.RouteIdMatchesItself | src/App.jsx:19-22 | a bus matches its own lower-cased route id |
| AppState.FilteredBuses | src/App.jsx:119-127 | an empty query lists every bus; a bus is listed exactly when it matches |
| AppState.FilteredBusesAppend | src/App.jsx:119-122 | filtering distributes over concatenation of bus lists, so feed order is kept |
| AppState.FilteredBusesSingle | src/App.jsx:119-122 | one bus is listed once when it matches and not at all otherwise, so the list keeps each listed bus's multiplicity |
| AppState.FilterAll | src/App.jsx:119-122 | filtering with a test every bus passes keeps the list unchanged |
| AppState.ActiveRoutes | src/App.jsx:153-156 | the active routes are exactly the non-empty route ids of listed buses |
| AppState.FindBus | src/App.jsx:129-137 | the first bus with the id, or none when no bus has it |
| AppState.DeparturesTarget | src/App.jsx:139-142 | the selected bus if listed, else the tracked bus if listed; the target is always a listed bus with one of those ids |
| AppState.ScreenDepartures | src/App.jsx:144-151 | no target gives an empty board; the board has at most six departures |
| AppState.TrackingStatus | src/App.jsx:158-166 | tracking is off exactly when no id is tracked; a route is shown exactly when the tracked bus is listed, using the route id, else `Unknown`, and the vehicle label, else the vehicle id, else `N/A`; otherwise it is paused |
| AppState.TrackerScreen.constructor | src/App.jsx:25-34 | the screen starts with empty lists, no ids, loading on and no errors |
| AppState.TrackerScreen.LoadBuses | src/App.jsx:36-90 | the setters leave the state that `ApplyRefresh` gives for the two settled results |
| AppState.TrackerScreen.HandleSelectBus | src/App.jsx:168-173 | selects the bus, and tracks it too when asked; nothing else changes |
| AppState.SelectedBusIsTarget | src/App.jsx:139-142 | selecting a listed bus, when ids are unique, makes it the departures target |

## Left out

- The protobuf schema and `FeedMessage.decode` are left out. Feeds enter as decoded entity values, and a decoder that throws is `None`.
- Number conversion (`toNumber` on Long values and strings) is reduced to finite and non-finite numbers.
- The `Papa.parse` CSV parser, its header transform, the BOM strip, `unzipSync` and `TextDecoder` are parameters of the model. They are given as parsed rows, an error count and archive entries.
- HTTP plumbing is reduced to reply values, with replies given by oracle parameters. This covers `fetch`, response bodies, `writeJson`, the exact text of error messages and the plugin registration (`stopNamesProxyPlugin.js:193-203`).
- Clocks are `nowMs` parameters: `Date.now` in the departures, the server cache and the refresh.
- Timers, `AbortController`, the refresh interval, `Promise.allSettled` and the debounce hook (`useDebouncedValue`) are left out. A refresh receives its two settled results as values.
- `formatLastUpdated` and the rendering are left out, because they are display only.
- StaticStopsApi.StopNameCache.FetchStopNamesByIds: the server is modelled as a deterministic function of the batch. Concurrent lookups sharing the module-level cache are not modelled.
- StopNamesProxy.RequestIndex: the shared pending promise is a `pending` flag. Its settlement is a separate `Settle` step, so callers joining a load are not resumed with its result in the model.
- StopNamesProxy.HandleStopNames: the table load is a parameter, so the handler does not itself drive the cache.
- FeedFetch.FetchFeed: error messages are kept as structured failures (label and status, or a network error) rather than joined text.
- AppState.NormalizeQuery and Common.ToLower lower-case ASCII letters only. Unicode case mapping and normalisation are not modelled.
- JavaScript object key order in the JSON replies is not modelled. Names and missing ids are maps and sequences.
- The object `unzipSync` returns is taken as `unzip`'s list of entries: one per distinct name, in `Object.keys` order, with the bytes the object holds. How duplicate names in an archive collapse and how integer-like names are ordered first is not modelled.
- Values of the wrong JSON type are not modelled. Stop ids that are not strings, and entries that are not pairs, arrive already filtered to strings.
- GtfsRealtime.DecodeVehicle passes the vehicle timestamp through unscaled, as the code does. It does not convert it to milliseconds.

## Behaviour worth knowing

Three behaviours of the code as written are captured by the model:

- Both id updaters after a refresh (`src/App.jsx:67-82`) return the current id whether or not its bus is still listed. `AppState.RefreshKeepsSetIds` states that a set id survives its bus leaving the feed. When the selected bus has vanished, the departures target falls back to the tracked bus if that one is listed, and to none otherwise. When the tracked bus has vanished, the tracking line reads "paused".
- The stop-name handler collects its answer in a plain object (`stopNamesProxyPlugin.js:172-178`). Assigning a string to its `__proto__` key is ignored, so a requested id spelled `__proto__` is always reported missing, even when the table names it. `StopNamesProxy.ResolveNames` models this, and `StopNamesProxy.ProtoIdReportedMissing` states it.
- The "configuration missing" branch of both feed fetchers (`src/lib/tfnswApi.js:62-67`) cannot be taken. `FeedFetch.BuildRequestPlan` always yields at least one candidate, and `TfnswApi.FetchSydneyBuses` proves that the error never arises.
