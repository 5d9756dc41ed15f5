/**
 * Post-decoding of GTFS Realtime feeds. A `FeedMessage` has already been
 * decoded from protobuf into `FeedEntity` records whose optional fields are
 * `None` when absent from the wire message; this module turns them into the
 * two record types the application uses:
 *  - vehicle records, kept only when the entity carries a vehicle with a
 *    finite position inside the Sydney bounding box;
 *  - trip-update records, whose stops carry an event time (departure, else
 *    arrival, in milliseconds) and are sorted by it; an update left with no
 *    timed stop is dropped.
 */
module GtfsRealtime {
  import opened Common

  /** A JavaScript number as `toNumber` yields it: finite, or NaN / an infinity. */
  datatype Num = Finite(value: real) | NonFinite

  // The parts of the GTFS Realtime schema (`gtfs-realtime.proto`) that the
  // decoders read.

  datatype TripDescriptor = TripDescriptor(tripId: Option<string>, routeId: Option<string>)

  datatype VehicleDescriptor = VehicleDescriptor(id: Option<string>, labelText: Option<string>)

  datatype Position = Position(
    latitude: Option<Num>, longitude: Option<Num>, bearing: Option<Num>, speed: Option<Num>)

  datatype VehiclePosition = VehiclePosition(
    trip: Option<TripDescriptor>, position: Option<Position>, timestamp: Option<nat>,
    stopId: Option<string>, vehicle: Option<VehicleDescriptor>)

  datatype StopTimeEvent = StopTimeEvent(time: Option<int>)

  datatype StopTimeUpdate = StopTimeUpdate(
    stopSequence: Option<nat>, arrival: Option<StopTimeEvent>, departure: Option<StopTimeEvent>,
    stopId: Option<string>, scheduleRelationship: Option<nat>)

  datatype TripUpdate = TripUpdate(
    trip: Option<TripDescriptor>, stopTimeUpdate: seq<StopTimeUpdate>,
    vehicle: Option<VehicleDescriptor>, timestamp: Option<nat>)

  datatype FeedEntity = FeedEntity(id: string, tripUpdate: Option<TripUpdate>, vehicle: Option<VehiclePosition>)

  // Decoded records.

  datatype VehicleRecord = VehicleRecord(
    id: string, lat: real, lon: real, bearing: Num,
    routeId: string, tripId: string, vehicleId: string, vehicleLabel: string, stopId: string,
    speedKmh: Option<int>, timestamp: Option<nat>)

  datatype StopRecord = StopRecord(
    stopId: string, stopSequence: Option<nat>, eventTimeMs: int, scheduleRelationship: Option<nat>)

  datatype TripUpdateRecord = TripUpdateRecord(
    id: string, routeId: string, tripId: string, vehicleId: string, vehicleLabel: string,
    timestampMs: Option<int>, stops: seq<StopRecord>)

  const MinLat: real := -34.2
  const MaxLat: real := -33.3
  const MinLon: real := 150.5
  const MaxLon: real := 151.5

  /** `isInSydneyBounds` */
  predicate InSydneyBounds(lat: real, lon: real) {
    MinLat <= lat <= MaxLat && MinLon <= lon <= MaxLon
  }

  /** `toTimestampMs`: seconds since the epoch to milliseconds; an absent time stays absent. */
  function ToTimestampMs(seconds: Option<int>): (ms: Option<int>)
    ensures ms.Some? <==> seconds.Some?
    ensures ms.Some? ==> ms.value % 1000 == 0 && ms.value / 1000 == seconds.value
  {
    match seconds
    case None => None
    case Some(s) => Some(s * 1000)
  }

  /** `Math.round`: the nearest integer, halves rounded up. */
  function JsRound(x: real): (r: int)
    ensures x - 0.5 < r as real <= x + 0.5
  {
    (x + 0.5).Floor
  }

  function FiniteValue(n: Option<Num>): Option<real> {
    if n.Some? && n.value.Finite? then Some(n.value.value) else None
  }

  /** Speed in m/s to km/h, rounded; an absent or non-finite speed gives no value rather than zero. */
  function SpeedKmh(speed: Option<Num>): (kmh: Option<int>)
    ensures kmh.Some? <==> FiniteValue(speed).Some?
    ensures kmh.Some? ==>
      FiniteValue(speed).value * 3.6 - 0.5 < kmh.value as real <= FiniteValue(speed).value * 3.6 + 0.5
  {
    match FiniteValue(speed)
    case None => None
    case Some(v) => Some(JsRound(v * 3.6))
  }

  /** The vehicle record one entity yields, if any (the `map` step of `decodeBusVehiclePositions`). */
  function DecodeVehicle(e: FeedEntity): (r: Option<VehicleRecord>)
    ensures r.Some? <==>
      e.vehicle.Some? && e.vehicle.value.position.Some? &&
      FiniteValue(e.vehicle.value.position.value.latitude).Some? &&
      FiniteValue(e.vehicle.value.position.value.longitude).Some? &&
      InSydneyBounds(FiniteValue(e.vehicle.value.position.value.latitude).value,
                     FiniteValue(e.vehicle.value.position.value.longitude).value)
    ensures r.Some? ==> r.value.id == e.id && InSydneyBounds(r.value.lat, r.value.lon)
    ensures r.Some? ==> r.value.speedKmh == SpeedKmh(e.vehicle.value.position.value.speed)
    ensures r.Some? ==> r.value.timestamp == e.vehicle.value.timestamp
    ensures r.Some? ==>
      r.value.lat == FiniteValue(e.vehicle.value.position.value.latitude).value &&
      r.value.lon == FiniteValue(e.vehicle.value.position.value.longitude).value
    ensures r.Some? ==> r.value.bearing == e.vehicle.value.position.value.bearing.GetOr(Finite(0.0))
    ensures r.Some? ==>
      var trip := e.vehicle.value.trip.GetOr(TripDescriptor(None, None));
      r.value.routeId == trip.routeId.GetOr("") && r.value.tripId == trip.tripId.GetOr("")
    ensures r.Some? ==>
      var desc := e.vehicle.value.vehicle.GetOr(VehicleDescriptor(None, None));
      r.value.vehicleId == desc.id.GetOr("") && r.value.vehicleLabel == desc.labelText.GetOr("")
    ensures r.Some? ==> r.value.stopId == e.vehicle.value.stopId.GetOr("")
  {
    match e.vehicle
    case None => None
    case Some(vp) =>
      match vp.position
      case None => None
      case Some(pos) =>
        var lat := FiniteValue(pos.latitude);
        var lon := FiniteValue(pos.longitude);
        if lat.None? || lon.None? || !InSydneyBounds(lat.value, lon.value) then None
        else
          var trip := vp.trip.GetOr(TripDescriptor(None, None));
          var desc := vp.vehicle.GetOr(VehicleDescriptor(None, None));
          Some(VehicleRecord(
            id := e.id,
            lat := lat.value,
            lon := lon.value,
            bearing := pos.bearing.GetOr(Finite(0.0)),
            routeId := trip.routeId.GetOr(""),
            tripId := trip.tripId.GetOr(""),
            vehicleId := desc.id.GetOr(""),
            vehicleLabel := desc.labelText.GetOr(""),
            stopId := vp.stopId.GetOr(""),
            speedKmh := SpeedKmh(pos.speed),
            timestamp := vp.timestamp))
  }

  /** `decodeBusVehiclePositions`, from the decoded entity list onward. */
  function DecodeBusVehiclePositions(entities: seq<FeedEntity>): (r: seq<VehicleRecord>)
    ensures |r| <= |entities|
    ensures forall v :: v in r ==> InSydneyBounds(v.lat, v.lon)
    ensures forall v :: v in r ==> exists e :: e in entities && DecodeVehicle(e) == Some(v)
  {
    if entities == [] then []
    else
      var rest := DecodeBusVehiclePositions(entities[1..]);
      assert forall e :: e in entities[1..] ==> e in entities;
      match DecodeVehicle(entities[0])
      case Some(v) => [v] + rest
      case None => rest
  }

  /** Decoding keeps the order of the entities: it distributes over concatenation. */
  lemma {:induction false} DecodeVehiclesAppend(a: seq<FeedEntity>, b: seq<FeedEntity>)
    ensures DecodeBusVehiclePositions(a + b) == DecodeBusVehiclePositions(a) + DecodeBusVehiclePositions(b)
  {
    if a != [] {
      assert (a + b)[0] == a[0];
      assert (a + b)[1..] == a[1..] + b;
      DecodeVehiclesAppend(a[1..], b);
    } else {
      assert a + b == b;
    }
  }

  /** One entity yields its decoded vehicle, or nothing. */
  lemma DecodeVehiclesSingle(e: FeedEntity)
    ensures DecodeBusVehiclePositions([e]) == if DecodeVehicle(e).Some? then [DecodeVehicle(e).value] else []
  {
    assert [e][1..] == [];
  }

  function DepartureTime(u: StopTimeUpdate): Option<int> {
    if u.departure.Some? then u.departure.value.time else None
  }

  function ArrivalTime(u: StopTimeUpdate): Option<int> {
    if u.arrival.Some? then u.arrival.value.time else None
  }

  /** `toStopEventTimestampMs`: the departure time if present, else the arrival time, in milliseconds. */
  function StopEventTimeMs(u: StopTimeUpdate): (ms: Option<int>)
    ensures DepartureTime(u).Some? ==> ms == Some(DepartureTime(u).value * 1000)
    ensures DepartureTime(u).None? && ArrivalTime(u).Some? ==> ms == Some(ArrivalTime(u).value * 1000)
    ensures DepartureTime(u).None? && ArrivalTime(u).None? ==> ms.None?
  {
    var departureMs := ToTimestampMs(DepartureTime(u));
    if departureMs.Some? then departureMs else ToTimestampMs(ArrivalTime(u))
  }

  /** The stop record of one stop-time update, or nothing when it has no time. */
  function DecodeStop(u: StopTimeUpdate): (r: Option<StopRecord>)
    ensures r.Some? <==> StopEventTimeMs(u).Some?
    ensures r.Some? ==> r.value.eventTimeMs == StopEventTimeMs(u).value && r.value.stopId == u.stopId.GetOr("")
    ensures r.Some? ==> r.value.stopSequence == u.stopSequence && r.value.scheduleRelationship == u.scheduleRelationship
  {
    match StopEventTimeMs(u)
    case None => None
    case Some(t) => Some(StopRecord(u.stopId.GetOr(""), u.stopSequence, t, u.scheduleRelationship))
  }

  /** The timed stops of an update, in feed order (the `map` and `filter(Boolean)` steps). */
  function RetainedStops(us: seq<StopTimeUpdate>): (r: seq<StopRecord>)
    ensures |r| <= |us|
    ensures r == [] <==> forall k :: 0 <= k < |us| ==> StopEventTimeMs(us[k]).None?
    ensures forall s :: s in r ==> exists u :: u in us && DecodeStop(u) == Some(s)
  {
    if us == [] then []
    else
      var rest := RetainedStops(us[1..]);
      assert forall u :: u in us[1..] ==> u in us;
      assert (forall k :: 0 <= k < |us| ==> StopEventTimeMs(us[k]).None?) <==>
        StopEventTimeMs(us[0]).None? && forall k :: 0 <= k < |us[1..]| ==> StopEventTimeMs(us[1..][k]).None?;
      match DecodeStop(us[0])
      case Some(s) => [s] + rest
      case None => rest
  }

  /** Retaining stops keeps their feed order: it distributes over concatenation. */
  lemma {:induction false} RetainedStopsAppend(a: seq<StopTimeUpdate>, b: seq<StopTimeUpdate>)
    ensures RetainedStops(a + b) == RetainedStops(a) + RetainedStops(b)
  {
    if a != [] {
      assert (a + b)[0] == a[0];
      assert (a + b)[1..] == a[1..] + b;
      RetainedStopsAppend(a[1..], b);
    } else {
      assert a + b == b;
    }
  }

  /** Every timed stop-time update has its record retained. */
  lemma {:induction false} RetainedStopsMembers(us: seq<StopTimeUpdate>)
    ensures forall u :: u in us && DecodeStop(u).Some? ==> DecodeStop(u).value in RetainedStops(us)
  {
    if us != [] {
      RetainedStopsMembers(us[1..]);
      assert forall u :: u in us[1..] ==> u in us;
      assert forall u :: u in us ==> u == us[0] || u in us[1..];
    }
  }

  /** One stop-time update yields its stop record, or nothing when it has no time. */
  lemma RetainedStopsSingle(u: StopTimeUpdate)
    ensures RetainedStops([u]) == if DecodeStop(u).Some? then [DecodeStop(u).value] else []
  {
    assert [u][1..] == [];
  }

  function EventTime(s: StopRecord): int {
    s.eventTimeMs
  }

  /** The trip-update record one entity yields, if any (the `map` step of `decodeBusTripUpdates`). */
  function DecodeTripUpdate(e: FeedEntity): (r: Option<TripUpdateRecord>)
    ensures e.tripUpdate.None? ==> r.None?
    ensures e.tripUpdate.Some? ==>
      (r.None? <==> forall k :: 0 <= k < |e.tripUpdate.value.stopTimeUpdate| ==>
                      StopEventTimeMs(e.tripUpdate.value.stopTimeUpdate[k]).None?)
    ensures r.Some? ==> r.value.id == e.id && r.value.stops != [] && SortedBy(r.value.stops, EventTime)
    ensures r.Some? ==> multiset(r.value.stops) == multiset(RetainedStops(e.tripUpdate.value.stopTimeUpdate))
    ensures r.Some? ==> r.value.timestampMs == ToTimestampMs(e.tripUpdate.value.timestamp)
    ensures r.Some? ==>
      var trip := e.tripUpdate.value.trip.GetOr(TripDescriptor(None, None));
      r.value.routeId == trip.routeId.GetOr("") && r.value.tripId == trip.tripId.GetOr("")
    ensures r.Some? ==>
      var desc := e.tripUpdate.value.vehicle.GetOr(VehicleDescriptor(None, None));
      r.value.vehicleId == desc.id.GetOr("") && r.value.vehicleLabel == desc.labelText.GetOr("")
  {
    match e.tripUpdate
    case None => None
    case Some(tu) =>
      var stops := SortBy(RetainedStops(tu.stopTimeUpdate), EventTime);
      if stops == [] then None
      else
        var trip := tu.trip.GetOr(TripDescriptor(None, None));
        var desc := tu.vehicle.GetOr(VehicleDescriptor(None, None));
        Some(TripUpdateRecord(
          id := e.id,
          routeId := trip.routeId.GetOr(""),
          tripId := trip.tripId.GetOr(""),
          vehicleId := desc.id.GetOr(""),
          vehicleLabel := desc.labelText.GetOr(""),
          timestampMs := ToTimestampMs(tu.timestamp),
          stops := stops))
  }

  /** Stops that share an event time keep their feed order after the sort. */
  lemma TripUpdateStopsStable(e: FeedEntity, t: int)
    requires DecodeTripUpdate(e).Some?
    ensures WithKey(DecodeTripUpdate(e).value.stops, EventTime, t)
         == WithKey(RetainedStops(e.tripUpdate.value.stopTimeUpdate), EventTime, t)
  {
    SortByStable(RetainedStops(e.tripUpdate.value.stopTimeUpdate), EventTime, t);
  }

  /** `decodeBusTripUpdates`, from the decoded entity list onward. */
  function DecodeBusTripUpdates(entities: seq<FeedEntity>): (r: seq<TripUpdateRecord>)
    ensures |r| <= |entities|
    ensures forall u :: u in r ==> u.stops != [] && SortedBy(u.stops, EventTime)
    ensures forall u :: u in r ==> exists e :: e in entities && DecodeTripUpdate(e) == Some(u)
  {
    if entities == [] then []
    else
      var rest := DecodeBusTripUpdates(entities[1..]);
      assert forall e :: e in entities[1..] ==> e in entities;
      match DecodeTripUpdate(entities[0])
      case Some(u) => [u] + rest
      case None => rest
  }

  /** Decoding keeps the order of the entities: it distributes over concatenation. */
  lemma {:induction false} DecodeTripUpdatesAppend(a: seq<FeedEntity>, b: seq<FeedEntity>)
    ensures DecodeBusTripUpdates(a + b) == DecodeBusTripUpdates(a) + DecodeBusTripUpdates(b)
  {
    if a != [] {
      assert (a + b)[0] == a[0];
      assert (a + b)[1..] == a[1..] + b;
      DecodeTripUpdatesAppend(a[1..], b);
    } else {
      assert a + b == b;
    }
  }

  /** One entity yields its decoded trip update, or nothing. */
  lemma DecodeTripUpdatesSingle(e: FeedEntity)
    ensures DecodeBusTripUpdates([e]) == if DecodeTripUpdate(e).Some? then [DecodeTripUpdate(e).value] else []
  {
    assert [e][1..] == [];
  }

  /**
   * An entity without a trip update, or whose stops all lack a time,
   * contributes nothing wherever it stands in the feed.
   */
  lemma UntimedEntityContributesNothing(a: seq<FeedEntity>, e: FeedEntity, b: seq<FeedEntity>)
    requires e.tripUpdate.None? ||
      forall k :: 0 <= k < |e.tripUpdate.value.stopTimeUpdate| ==> StopEventTimeMs(e.tripUpdate.value.stopTimeUpdate[k]).None?
    ensures DecodeBusTripUpdates(a + [e] + b) == DecodeBusTripUpdates(a) + DecodeBusTripUpdates(b)
  {
    assert DecodeTripUpdate(e).None?;
    assert [e][1..] == [];
    assert DecodeBusTripUpdates([e]) == [];
    DecodeTripUpdatesAppend(a, [e]);
    assert DecodeBusTripUpdates(a + [e]) == DecodeBusTripUpdates(a);
    DecodeTripUpdatesAppend(a + [e], b);
  }
}
