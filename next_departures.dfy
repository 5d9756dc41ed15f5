/**
 * The departure resolver: given the selected vehicle and the current
 * trip-update records, list its next stop events and say which match tier
 * produced them. Tiers are tried in order (trip id, vehicle id, route id)
 * and the first that yields something wins; stops more than a minute in the
 * past are left out.
 */
module NextDepartures {
  import opened Common
  import opened GtfsRealtime

  const MaxDefaultDepartures: int := 6
  /** Stops whose event time is at most this far in the past are still listed. */
  const MinPastGraceMs: int := 60000

  /** `basis` / `matchType`: "trip", "vehicle", "route" or "none". */
  datatype Basis = TripMatch | VehicleMatch | RouteMatch | NoMatch

  /** The object `flattenTripUpdateStops` builds for one stop before normalising it. */
  datatype DepartureFields = DepartureFields(
    routeId: string, tripId: string, vehicleId: string, vehicleLabel: string,
    stopId: string, stopSequence: Option<nat>, eventTimeMs: int)

  datatype Departure = Departure(
    id: string, routeId: string, tripId: string, stopId: string, stopName: string,
    stopSequence: Option<nat>, eventTimeMs: int, vehicleId: string, vehicleLabel: string,
    source: string, matchType: Basis)

  datatype DeparturesModel = DeparturesModel(basis: Basis, items: seq<Departure>)

  /** `value || "_"` */
  function KeyPart(s: string): (k: string)
    ensures k != ""
    ensures k == "_" <==> s == "" || s == "_"
  {
    if s == "" then "_" else s
  }

  /** The six parts of a departure id, each non-empty, `_` standing for a missing one. */
  function DepartureKeys(d: DepartureFields): (keys: seq<string>)
    ensures |keys| == 6 && forall k :: 0 <= k < 6 ==> keys[k] != ""
  {
    [KeyPart(d.routeId), KeyPart(d.tripId), KeyPart(d.vehicleId), KeyPart(d.stopId),
     if d.stopSequence.Some? then NatToString(d.stopSequence.value) else "_",
     IntToString(d.eventTimeMs)]
  }

  /** `buildDepartureId`: the keys joined by `:`. */
  function BuildDepartureId(d: DepartureFields): string {
    Join(DepartureKeys(d), ':')
  }

  predicate ColonFree(d: DepartureFields) {
    ':' !in d.routeId && ':' !in d.tripId && ':' !in d.vehicleId && ':' !in d.stopId
  }

  /**
   * When no identifier contains `:`, the id can be split back into its six
   * keys; so two such departures share an id exactly when they share all six
   * keys (route, trip, vehicle, stop, stop sequence, event time).
   */
  lemma DepartureIdKeys(d: DepartureFields)
    requires ColonFree(d)
    ensures Split(BuildDepartureId(d), ':') == DepartureKeys(d)
  {
    var keys := DepartureKeys(d);
    forall k | 0 <= k < 6 ensures ':' !in keys[k] {
      if k == 5 {
        assert forall j :: 0 <= j < |keys[5]| ==> keys[5][j] == '-' || '0' <= keys[5][j] <= '9';
      } else if k == 4 && d.stopSequence.Some? {
        assert forall j :: 0 <= j < |keys[4]| ==> '0' <= keys[4][j] <= '9';
      }
    }
    SplitJoin(keys, ':');
  }

  lemma DepartureIdsEqual(a: DepartureFields, b: DepartureFields)
    requires ColonFree(a) && ColonFree(b)
    ensures BuildDepartureId(a) == BuildDepartureId(b) <==> DepartureKeys(a) == DepartureKeys(b)
  {
    DepartureIdKeys(a);
    DepartureIdKeys(b);
  }

  /** `normalizeDeparture`: the departure record, its stop name looked up when a name map is given. */
  function NormalizeDeparture(d: DepartureFields, matchType: Basis, stopNamesById: Option<map<string, string>>): (r: Departure)
    ensures r.id == BuildDepartureId(d) && r.matchType == matchType && r.source == "trip-updates"
    ensures r.stopId == d.stopId && r.eventTimeMs == d.eventTimeMs && r.stopSequence == d.stopSequence
    ensures r.routeId == d.routeId && r.tripId == d.tripId
    ensures r.vehicleId == d.vehicleId && r.vehicleLabel == d.vehicleLabel
    ensures d.stopId != "" && stopNamesById.Some? && d.stopId in stopNamesById.value ==>
      r.stopName == stopNamesById.value[d.stopId]
    ensures d.stopId == "" || stopNamesById.None? || d.stopId !in stopNamesById.value ==> r.stopName == ""
  {
    var stopName :=
      if d.stopId != "" && stopNamesById.Some? && d.stopId in stopNamesById.value
      then stopNamesById.value[d.stopId] else "";
    Departure(
      id := BuildDepartureId(d),
      routeId := d.routeId,
      tripId := d.tripId,
      stopId := d.stopId,
      stopName := stopName,
      stopSequence := d.stopSequence,
      eventTimeMs := d.eventTimeMs,
      vehicleId := d.vehicleId,
      vehicleLabel := d.vehicleLabel,
      source := "trip-updates",
      matchType := matchType)
  }

  /** A stop is still shown while its event time is no more than the grace period in the past. */
  predicate IsUpcoming(s: StopRecord, nowMs: int) {
    s.eventTimeMs >= nowMs - MinPastGraceMs
  }

  /** The stops of an update that survive the grace-window filter, in their order. */
  function UpcomingStops(u: TripUpdateRecord, nowMs: int): (r: seq<StopRecord>)
    ensures forall s :: s in r <==> s in u.stops && IsUpcoming(s, nowMs)
  {
    Filter(u.stops, UpcomingTest(nowMs))
  }

  function UpcomingTest(nowMs: int): StopRecord -> bool {
    (s: StopRecord) => IsUpcoming(s, nowMs)
  }

  function FieldsOf(u: TripUpdateRecord, s: StopRecord): DepartureFields {
    DepartureFields(u.routeId, u.tripId, u.vehicleId, u.vehicleLabel, s.stopId, s.stopSequence, s.eventTimeMs)
  }

  /** `flattenTripUpdateStops`: one departure per stop of `u` inside the grace window, in stop order. */
  function FlattenTripUpdateStops(u: TripUpdateRecord, nowMs: int, matchType: Basis, stopNamesById: Option<map<string, string>>)
    : (r: seq<Departure>)
    ensures |r| == |UpcomingStops(u, nowMs)|
    ensures forall i :: 0 <= i < |r| ==>
      r[i] == NormalizeDeparture(FieldsOf(u, UpcomingStops(u, nowMs)[i]), matchType, stopNamesById)
    ensures forall d :: d in r ==> d.eventTimeMs >= nowMs - MinPastGraceMs && d.matchType == matchType
    ensures forall d :: d in r ==> d.routeId == u.routeId && d.tripId == u.tripId && d.vehicleId == u.vehicleId
  {
    var stops := UpcomingStops(u, nowMs);
    var r := seq(|stops|, i requires 0 <= i < |stops| => NormalizeDeparture(FieldsOf(u, stops[i]), matchType, stopNamesById));
    assert forall i :: 0 <= i < |stops| ==> stops[i] in stops;
    r
  }

  /** Every stop of `u` inside the grace window is listed, and no stop before it. */
  lemma GraceWindow(u: TripUpdateRecord, nowMs: int, s: StopRecord, matchType: Basis, names: Option<map<string, string>>)
    requires s in u.stops
    ensures s.eventTimeMs >= nowMs - MinPastGraceMs ==>
      NormalizeDeparture(FieldsOf(u, s), matchType, names) in FlattenTripUpdateStops(u, nowMs, matchType, names)
    ensures s.eventTimeMs < nowMs - MinPastGraceMs ==>
      forall d :: d in FlattenTripUpdateStops(u, nowMs, matchType, names) ==> d.eventTimeMs != s.eventTimeMs
  {
    var stops := UpcomingStops(u, nowMs);
    var r := FlattenTripUpdateStops(u, nowMs, matchType, names);
    if IsUpcoming(s, nowMs) {
      assert s in stops;
      var i :| 0 <= i < |stops| && stops[i] == s;
      assert r[i] == NormalizeDeparture(FieldsOf(u, s), matchType, names);
    }
  }

  function DepartureTime(d: Departure): int {
    d.eventTimeMs
  }

  function DepartureId(d: Departure): string {
    d.id
  }

  /** The upcoming departures of every update, concatenated in update order. */
  function FlattenAll(updates: seq<TripUpdateRecord>, nowMs: int, matchType: Basis, stopNamesById: Option<map<string, string>>)
    : (r: seq<Departure>)
    ensures forall d :: d in r ==> d.eventTimeMs >= nowMs - MinPastGraceMs && d.matchType == matchType
  {
    if updates == [] then []
    else FlattenTripUpdateStops(updates[0], nowMs, matchType, stopNamesById) + FlattenAll(updates[1..], nowMs, matchType, stopNamesById)
  }

  /** Flattening distributes over concatenation: departures stay in update order. */
  lemma {:induction false} FlattenAllAppend(a: seq<TripUpdateRecord>, b: seq<TripUpdateRecord>, nowMs: int,
                                            matchType: Basis, stopNamesById: Option<map<string, string>>)
    ensures FlattenAll(a + b, nowMs, matchType, stopNamesById)
      == FlattenAll(a, nowMs, matchType, stopNamesById) + FlattenAll(b, nowMs, matchType, stopNamesById)
  {
    if a != [] {
      assert (a + b)[0] == a[0];
      assert (a + b)[1..] == a[1..] + b;
      FlattenAllAppend(a[1..], b, nowMs, matchType, stopNamesById);
    } else {
      assert a + b == b;
    }
  }

  /** One update contributes exactly its own upcoming departures, in stop order. */
  lemma FlattenAllSingle(u: TripUpdateRecord, nowMs: int, matchType: Basis,
                         stopNamesById: Option<map<string, string>>)
    ensures FlattenAll([u], nowMs, matchType, stopNamesById) == FlattenTripUpdateStops(u, nowMs, matchType, stopNamesById)
  {
    assert [u][1..] == [];
  }

  /** A departure is in the flattening exactly when one of the updates yields it. */
  lemma FlattenAllMembers(updates: seq<TripUpdateRecord>, nowMs: int, matchType: Basis,
                          stopNamesById: Option<map<string, string>>)
    ensures forall d :: d in FlattenAll(updates, nowMs, matchType, stopNamesById) <==>
      exists u :: u in updates && d in FlattenTripUpdateStops(u, nowMs, matchType, stopNamesById)
  {
    forall d | d in FlattenAll(updates, nowMs, matchType, stopNamesById)
      ensures exists u :: u in updates && d in FlattenTripUpdateStops(u, nowMs, matchType, stopNamesById)
    {
      FlattenAllSource(updates, d, nowMs, matchType, stopNamesById);
    }
    forall d, u | u in updates && d in FlattenTripUpdateStops(u, nowMs, matchType, stopNamesById)
      ensures d in FlattenAll(updates, nowMs, matchType, stopNamesById)
    {
      FlattenAllHas(updates, u, d, nowMs, matchType, stopNamesById);
    }
  }

  lemma {:induction false} FlattenAllHas(updates: seq<TripUpdateRecord>, u: TripUpdateRecord, d: Departure,
                                         nowMs: int, matchType: Basis, stopNamesById: Option<map<string, string>>)
    requires u in updates && d in FlattenTripUpdateStops(u, nowMs, matchType, stopNamesById)
    ensures d in FlattenAll(updates, nowMs, matchType, stopNamesById)
  {
    if u != updates[0] {
      assert u in updates[1..];
      FlattenAllHas(updates[1..], u, d, nowMs, matchType, stopNamesById);
    }
  }

  lemma {:induction false} FlattenAllSource(updates: seq<TripUpdateRecord>, d: Departure,
                                            nowMs: int, matchType: Basis, stopNamesById: Option<map<string, string>>)
    requires d in FlattenAll(updates, nowMs, matchType, stopNamesById)
    ensures exists u :: u in updates && d in FlattenTripUpdateStops(u, nowMs, matchType, stopNamesById)
  {
    if d in FlattenTripUpdateStops(updates[0], nowMs, matchType, stopNamesById) {
      assert updates[0] in updates;
    } else {
      var rest := updates[1..];
      FlattenAllSource(rest, d, nowMs, matchType, stopNamesById);
      var u :| u in rest && d in FlattenTripUpdateStops(u, nowMs, matchType, stopNamesById);
      assert u in updates;
    }
  }

  /**
   * The vehicle and route tiers: all departures of the matching updates,
   * sorted by event time (stably), de-duplicated by id keeping the first, and
   * cut to `limit`.
   */
  function MergedDepartures(matches: seq<TripUpdateRecord>, nowMs: int, limit: int, matchType: Basis,
                            stopNamesById: Option<map<string, string>>): (r: seq<Departure>)
    ensures limit >= 0 ==> |r| <= limit
    ensures SortedBy(r, DepartureTime)
    ensures forall i, j :: 0 <= i < j < |r| ==> r[i].id != r[j].id
    ensures forall d :: d in r ==> d.eventTimeMs >= nowMs - MinPastGraceMs && d.matchType == matchType
  {
    var sorted := SortBy(FlattenAll(matches, nowMs, matchType, stopNamesById), DepartureTime);
    var unique := UniqueBy(sorted, DepartureId);
    UniqueByKeepsSorted(sorted, DepartureId, DepartureTime);
    assert forall d :: d in sorted ==> d in multiset(sorted);
    var r := SlicePrefix(unique, limit);
    assert forall d :: d in r ==> d in unique;
    SlicePrefixElements(unique, limit);
    r
  }

  /**
   * What the merge keeps: departures of the matching updates only; for each
   * id, the first departure carrying it in the time-sorted flattening; one
   * departure per distinct id, cut to `limit` as `slice(0, limit)` cuts
   * (which ones survive the cut: MergedDeparturesEarliest).
   */
  lemma MergedDeparturesContents(matches: seq<TripUpdateRecord>, nowMs: int, limit: int, matchType: Basis,
                                 stopNamesById: Option<map<string, string>>)
    ensures var all := FlattenAll(matches, nowMs, matchType, stopNamesById);
      var r := MergedDepartures(matches, nowMs, limit, matchType, stopNamesById);
      && (forall d :: d in r ==> d in all)
      && |r| == SliceEnd(|KeysOf(all, DepartureId)|, limit)
    ensures var sorted := SortBy(FlattenAll(matches, nowMs, matchType, stopNamesById), DepartureTime);
      var r := MergedDepartures(matches, nowMs, limit, matchType, stopNamesById);
      forall i :: 0 <= i < |r| ==>
        DepartureId(r[i]) in KeysOf(sorted, DepartureId) &&
        r[i] == sorted[FirstIndexOfKey(sorted, DepartureId, DepartureId(r[i]))]
  {
    var all := FlattenAll(matches, nowMs, matchType, stopNamesById);
    assert MergedDepartures(matches, nowMs, limit, matchType, stopNamesById)
      == SlicePrefix(UniqueBy(SortBy(all, DepartureTime), DepartureId), limit);
    SortUniqueSlice(all, DepartureTime, DepartureId, limit);
  }

  /**
   * The cut keeps the soonest departures: one whose id did not make it into
   * the merge leaves no earlier than any departure that did, whatever `limit`.
   */
  lemma MergedDeparturesEarliest(matches: seq<TripUpdateRecord>, nowMs: int, limit: int, matchType: Basis,
                                 stopNamesById: Option<map<string, string>>, d: Departure, e: Departure)
    requires d in FlattenAll(matches, nowMs, matchType, stopNamesById)
    requires e in MergedDepartures(matches, nowMs, limit, matchType, stopNamesById)
    requires DepartureId(d) !in KeysOf(MergedDepartures(matches, nowMs, limit, matchType, stopNamesById), DepartureId)
    ensures e.eventTimeMs <= d.eventTimeMs
  {
    var all := FlattenAll(matches, nowMs, matchType, stopNamesById);
    assert MergedDepartures(matches, nowMs, limit, matchType, stopNamesById)
      == SlicePrefix(UniqueBy(SortBy(all, DepartureTime), DepartureId), limit);
    SortUniqueSliceEarliest(all, DepartureTime, DepartureId, limit);
    assert DepartureTime(e) <= DepartureTime(d);
  }

  /** When one matching update keeps a stop in the grace window, the merge lists something. */
  lemma MergedDeparturesNonEmpty(matches: seq<TripUpdateRecord>, u: TripUpdateRecord, nowMs: int, limit: int,
                                 matchType: Basis, stopNamesById: Option<map<string, string>>)
    requires u in matches && UpcomingStops(u, nowMs) != [] && limit >= 1
    ensures MergedDepartures(matches, nowMs, limit, matchType, stopNamesById) != []
  {
    var all := FlattenAll(matches, nowMs, matchType, stopNamesById);
    var flat := FlattenTripUpdateStops(u, nowMs, matchType, stopNamesById);
    assert flat[0] in flat;
    FlattenAllMembers(matches, nowMs, matchType, stopNamesById);
    assert DepartureId(flat[0]) in KeysOf(all, DepartureId);
    MergedDeparturesContents(matches, nowMs, limit, matchType, stopNamesById);
  }

  predicate TripMatches(u: TripUpdateRecord, tripId: string) {
    u.tripId != "" && u.tripId == tripId
  }

  /** The index of the first update with a non-empty trip id equal to the given one. */
  function FindTripMatch(updates: seq<TripUpdateRecord>, tripId: string): (i: Option<nat>)
    ensures i.Some? ==> i.value < |updates| && TripMatches(updates[i.value], tripId)
    ensures i.Some? ==> forall j :: 0 <= j < i.value ==> !TripMatches(updates[j], tripId)
    ensures i.None? ==> forall j :: 0 <= j < |updates| ==> !TripMatches(updates[j], tripId)
  {
    if updates == [] then None
    else if TripMatches(updates[0], tripId) then Some(0)
    else
      match FindTripMatch(updates[1..], tripId)
      case None => None
      case Some(k) => Some(k + 1)
  }

  /** Tier 1: the surviving stops of the first update with the bus's trip id, in their order, cut to `limit`. */
  function TripTier(bus: VehicleRecord, updates: seq<TripUpdateRecord>, nowMs: int, limit: int,
                    stopNamesById: Option<map<string, string>>): (r: seq<Departure>)
    ensures forall d :: d in r ==> d.tripId == bus.tripId
  {
    if bus.tripId == "" then []
    else
      match FindTripMatch(updates, bus.tripId)
      case None => []
      case Some(i) => SlicePrefix(FlattenTripUpdateStops(updates[i], nowMs, TripMatch, stopNamesById), limit)
  }

  function VehicleMatches(updates: seq<TripUpdateRecord>, vehicleId: string): seq<TripUpdateRecord> {
    Filter(updates, (u: TripUpdateRecord) => u.vehicleId != "" && u.vehicleId == vehicleId)
  }

  function RouteMatches(updates: seq<TripUpdateRecord>, routeId: string): seq<TripUpdateRecord> {
    Filter(updates, (u: TripUpdateRecord) => u.routeId != "" && u.routeId == routeId)
  }

  /** Tier 2: every update that carries the bus's vehicle id. */
  function VehicleTier(bus: VehicleRecord, updates: seq<TripUpdateRecord>, nowMs: int, limit: int,
                       stopNamesById: Option<map<string, string>>): (r: seq<Departure>)
    ensures forall d :: d in r ==> d.vehicleId == bus.vehicleId
  {
    if bus.vehicleId == "" then []
    else
      var matches := VehicleMatches(updates, bus.vehicleId);
      if matches == [] then []
      else
        FlattenAllVehicle(matches, nowMs, VehicleMatch, stopNamesById, bus.vehicleId);
        MergedDeparturesContents(matches, nowMs, limit, VehicleMatch, stopNamesById);
        MergedDepartures(matches, nowMs, limit, VehicleMatch, stopNamesById)
  }

  /** Tier 3: every update that carries the bus's route id. */
  function RouteTier(bus: VehicleRecord, updates: seq<TripUpdateRecord>, nowMs: int, limit: int,
                     stopNamesById: Option<map<string, string>>): (r: seq<Departure>)
    ensures forall d :: d in r ==> d.routeId == bus.routeId
  {
    if bus.routeId == "" then []
    else
      var matches := RouteMatches(updates, bus.routeId);
      if matches == [] then []
      else
        FlattenAllRoute(matches, nowMs, RouteMatch, stopNamesById, bus.routeId);
        MergedDeparturesContents(matches, nowMs, limit, RouteMatch, stopNamesById);
        MergedDepartures(matches, nowMs, limit, RouteMatch, stopNamesById)
  }

  /** `buildNextDepartures`. A `tripUpdates` of `None` stands for a value that is not an array. */
  function BuildNextDepartures(bus: Option<VehicleRecord>, tripUpdates: Option<seq<TripUpdateRecord>>,
                               stopNamesById: Option<map<string, string>>, nowMs: int, limit: int,
                               includeRouteFallback: bool): (r: DeparturesModel)
    ensures bus.None? || tripUpdates.GetOr([]) == [] ==> r == DeparturesModel(NoMatch, [])
    ensures r.basis == NoMatch <==> r.items == []
    ensures limit >= 0 ==> |r.items| <= limit
    ensures forall d :: d in r.items ==> d.eventTimeMs >= nowMs - MinPastGraceMs && d.matchType == r.basis
    ensures r.basis == VehicleMatch || r.basis == RouteMatch ==>
      SortedBy(r.items, DepartureTime) && forall i, j :: 0 <= i < j < |r.items| ==> r.items[i].id != r.items[j].id
    ensures r.basis == RouteMatch ==> includeRouteFallback
    ensures bus.Some? && r.basis == TripMatch ==>
      r.items == TripTier(bus.value, tripUpdates.GetOr([]), nowMs, limit, stopNamesById) &&
      forall d :: d in r.items ==> d.tripId == bus.value.tripId
    ensures bus.Some? && r.basis == VehicleMatch ==>
      r.items == VehicleTier(bus.value, tripUpdates.GetOr([]), nowMs, limit, stopNamesById) &&
      forall d :: d in r.items ==> d.vehicleId == bus.value.vehicleId
    ensures bus.Some? && r.basis == RouteMatch ==>
      r.items == RouteTier(bus.value, tripUpdates.GetOr([]), nowMs, limit, stopNamesById) &&
      forall d :: d in r.items ==> d.routeId == bus.value.routeId
  {
    if bus.None? then DeparturesModel(NoMatch, [])
    else
      var updates := tripUpdates.GetOr([]);
      if updates == [] then DeparturesModel(NoMatch, [])
      else
        var b := bus.value;
        var tripItems := TripTier(b, updates, nowMs, limit, stopNamesById);
        if tripItems != [] then DeparturesModel(TripMatch, tripItems)
        else
          var vehicleItems := VehicleTier(b, updates, nowMs, limit, stopNamesById);
          if vehicleItems != [] then DeparturesModel(VehicleMatch, vehicleItems)
          else
            var routeItems := if includeRouteFallback then RouteTier(b, updates, nowMs, limit, stopNamesById) else [];
            if routeItems != [] then DeparturesModel(RouteMatch, routeItems)
            else DeparturesModel(NoMatch, [])
  }

  /**
   * Trip-tier precedence: when the first update with the bus's trip id keeps
   * a stop inside the grace window, the answer is that update's surviving
   * stops in their own order, cut to `limit`, whatever the other updates say.
   */
  lemma TripTierTakesPrecedence(bus: VehicleRecord, updates: seq<TripUpdateRecord>, i: nat,
                                stopNamesById: Option<map<string, string>>, nowMs: int, limit: int,
                                includeRouteFallback: bool)
    requires bus.tripId != "" && FindTripMatch(updates, bus.tripId) == Some(i)
    requires UpcomingStops(updates[i], nowMs) != [] && limit >= 1
    ensures var r := BuildNextDepartures(Some(bus), Some(updates), stopNamesById, nowMs, limit, includeRouteFallback);
      var stops := UpcomingStops(updates[i], nowMs);
      && r.basis == TripMatch
      && |r.items| == (if limit < |stops| then limit else |stops|)
      && forall k :: 0 <= k < |r.items| ==>
           r.items[k].stopId == stops[k].stopId && r.items[k].eventTimeMs == stops[k].eventTimeMs &&
           r.items[k].tripId == bus.tripId
  {
    var flat := FlattenTripUpdateStops(updates[i], nowMs, TripMatch, stopNamesById);
    assert |SlicePrefix(flat, limit)| >= 1;
  }

  /**
   * The vehicle tier answers exactly when the trip tier yields nothing and the
   * vehicle tier yields something; its items then come from updates carrying
   * the bus's vehicle id.
   */
  lemma VehicleTierWhenNoTripMatch(bus: VehicleRecord, updates: seq<TripUpdateRecord>,
                                   stopNamesById: Option<map<string, string>>, nowMs: int, limit: int,
                                   includeRouteFallback: bool)
    requires updates != []
    ensures var r := BuildNextDepartures(Some(bus), Some(updates), stopNamesById, nowMs, limit, includeRouteFallback);
      r.basis == VehicleMatch <==>
        TripTier(bus, updates, nowMs, limit, stopNamesById) == [] &&
        VehicleTier(bus, updates, nowMs, limit, stopNamesById) != []
    ensures var r := BuildNextDepartures(Some(bus), Some(updates), stopNamesById, nowMs, limit, includeRouteFallback);
      r.basis == VehicleMatch ==> forall d :: d in r.items ==> d.vehicleId == bus.vehicleId
  {
  }

  /**
   * With no trip-tier answer, a bus with a vehicle id gets the vehicle tier
   * as soon as one update carrying that id keeps a stop in the grace window.
   */
  lemma VehicleTierAnswers(bus: VehicleRecord, updates: seq<TripUpdateRecord>, u: TripUpdateRecord,
                           stopNamesById: Option<map<string, string>>, nowMs: int, limit: int,
                           includeRouteFallback: bool)
    requires u in updates && bus.vehicleId != "" && u.vehicleId == bus.vehicleId
    requires UpcomingStops(u, nowMs) != [] && limit >= 1
    requires TripTier(bus, updates, nowMs, limit, stopNamesById) == []
    ensures BuildNextDepartures(Some(bus), Some(updates), stopNamesById, nowMs, limit, includeRouteFallback).basis
      == VehicleMatch
  {
    var matches := VehicleMatches(updates, bus.vehicleId);
    assert u in matches;
    MergedDeparturesNonEmpty(matches, u, nowMs, limit, VehicleMatch, stopNamesById);
  }

  /**
   * With the fallback on and no trip- or vehicle-tier answer, a bus with a
   * route id gets the route tier as soon as one update on that route keeps a
   * stop in the grace window.
   */
  lemma RouteTierAnswers(bus: VehicleRecord, updates: seq<TripUpdateRecord>, u: TripUpdateRecord,
                         stopNamesById: Option<map<string, string>>, nowMs: int, limit: int)
    requires u in updates && bus.routeId != "" && u.routeId == bus.routeId
    requires UpcomingStops(u, nowMs) != [] && limit >= 1
    requires TripTier(bus, updates, nowMs, limit, stopNamesById) == []
    requires VehicleTier(bus, updates, nowMs, limit, stopNamesById) == []
    ensures BuildNextDepartures(Some(bus), Some(updates), stopNamesById, nowMs, limit, true).basis == RouteMatch
  {
    var matches := RouteMatches(updates, bus.routeId);
    assert u in matches;
    MergedDeparturesNonEmpty(matches, u, nowMs, limit, RouteMatch, stopNamesById);
  }

  lemma {:induction false} FlattenAllVehicle(updates: seq<TripUpdateRecord>, nowMs: int, matchType: Basis,
                                             stopNamesById: Option<map<string, string>>, vehicleId: string)
    requires forall u :: u in updates ==> u.vehicleId == vehicleId
    ensures forall d :: d in FlattenAll(updates, nowMs, matchType, stopNamesById) ==> d.vehicleId == vehicleId
  {
    if updates != [] {
      assert updates[0] in updates;
      assert forall u :: u in updates[1..] ==> u in updates;
      FlattenAllVehicle(updates[1..], nowMs, matchType, stopNamesById, vehicleId);
    }
  }

  lemma {:induction false} FlattenAllRoute(updates: seq<TripUpdateRecord>, nowMs: int, matchType: Basis,
                                           stopNamesById: Option<map<string, string>>, routeId: string)
    requires forall u :: u in updates ==> u.routeId == routeId
    ensures forall d :: d in FlattenAll(updates, nowMs, matchType, stopNamesById) ==> d.routeId == routeId
  {
    if updates != [] {
      assert updates[0] in updates;
      assert forall u :: u in updates[1..] ==> u in updates;
      FlattenAllRoute(updates[1..], nowMs, matchType, stopNamesById, routeId);
    }
  }

  /** The route tier is consulted only when allowed and when both earlier tiers yield nothing. */
  lemma RouteTierIsLastResort(bus: VehicleRecord, updates: seq<TripUpdateRecord>,
                              stopNamesById: Option<map<string, string>>, nowMs: int, limit: int,
                              includeRouteFallback: bool)
    requires updates != []
    ensures var r := BuildNextDepartures(Some(bus), Some(updates), stopNamesById, nowMs, limit, includeRouteFallback);
      r.basis == RouteMatch <==>
        includeRouteFallback &&
        TripTier(bus, updates, nowMs, limit, stopNamesById) == [] &&
        VehicleTier(bus, updates, nowMs, limit, stopNamesById) == [] &&
        RouteTier(bus, updates, nowMs, limit, stopNamesById) != []
  {
  }
}
