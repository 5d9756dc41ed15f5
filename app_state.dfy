/**
 * The state of the tracker's main screen and how one refresh changes it.
 * A refresh settles two fetches (vehicle positions and trip updates); its
 * outcome is applied to the screen state in one step. The selectors that
 * derive what is shown (search filter, departures target, tracking status)
 * are functions of that state.
 */
module AppState {
  import opened Common
  import opened GtfsRealtime
  import opened NextDepartures

  /** How a fetch settled: its value, or a rejection that was an abort or carried a message. */
  datatype Settled<T> = Fulfilled(value: T) | Rejected(aborted: bool, message: string)

  /** The screen state that `loadBuses` and the selection handler update. */
  datatype Screen = Screen(
    buses: seq<VehicleRecord>,
    tripUpdates: seq<TripUpdateRecord>,
    selectedBusId: Option<string>,
    trackedBusId: Option<string>,
    loading: bool,
    error: string,
    tripUpdatesError: string,
    lastUpdatedMs: int,
    tripUpdatesUpdatedMs: int)

  const InitialScreen: Screen := Screen([], [], None, None, true, "", "", 0, 0)

  /** An id that JavaScript treats as false: absent or empty. */
  predicate Unset(id: Option<string>) {
    id.None? || id.value == ""
  }

  function OrElse(s: string, fallback: string): (r: string)
    ensures r != "" || fallback == ""
    ensures s != "" ==> r == s
  {
    if s != "" then s else fallback
  }

  // ---------------------------------------------------------------------
  // Id updaters
  // ---------------------------------------------------------------------

  /** The selected-id updater run after a successful refresh with `items`. */
  function NextSelectedId(items: seq<VehicleRecord>, current: Option<string>): (r: Option<string>)
    ensures items == [] ==> r.None?
    ensures items != [] && Unset(current) ==> r == Some(items[0].id)
    // a set selection survives, whether or not its bus is still listed
    ensures items != [] && !Unset(current) ==> r == current
  {
    if items == [] then None
    else if Unset(current) then Some(items[0].id)
    else current
  }

  /** The tracked-id updater run after a successful refresh: never changes a set id, and clears an empty one. */
  function NextTrackedId(items: seq<VehicleRecord>, current: Option<string>): (r: Option<string>)
    ensures Unset(current) ==> r.None?
    ensures !Unset(current) ==> r == current
  {
    if Unset(current) then None else current
  }

  // ---------------------------------------------------------------------
  // One refresh
  // ---------------------------------------------------------------------

  /**
   * The state after `loadBuses` settles with the two results at `nowMs`:
   * both error strings are cleared first; a failed vehicle fetch sets the
   * error (unless aborted) and changes nothing else; otherwise the buses are
   * replaced, then the trip updates are replaced or emptied with an error,
   * except that an aborted trip-updates fetch stops the refresh before the
   * id updaters run. `loading` ends false in every case.
   */
  function ApplyRefresh(st: Screen, busesResult: Settled<seq<VehicleRecord>>,
                        tripUpdatesResult: Settled<seq<TripUpdateRecord>>, nowMs: int): Screen
  {
    var cleared := st.(error := "", tripUpdatesError := "");
    match busesResult
    case Rejected(aborted, message) =>
      if aborted then cleared.(loading := false)
      else cleared.(error := OrElse(message, "Unable to fetch buses."), loading := false)
    case Fulfilled(items) =>
      var withBuses := cleared.(buses := items, lastUpdatedMs := nowMs);
      match tripUpdatesResult
      case Rejected(true, _) => withBuses.(loading := false)
      case Rejected(false, message) =>
        SettleIds(withBuses.(tripUpdates := [], tripUpdatesError := OrElse(message, "Unable to fetch trip updates.")), items)
      case Fulfilled(trips) =>
        SettleIds(withBuses.(tripUpdates := trips, tripUpdatesError := "", tripUpdatesUpdatedMs := nowMs), items)
  }

  /** The end of a refresh that got the buses through: both id updaters run and loading ends. */
  function SettleIds(st: Screen, items: seq<VehicleRecord>): Screen {
    st.(selectedBusId := NextSelectedId(items, st.selectedBusId),
        trackedBusId := NextTrackedId(items, st.trackedBusId),
        loading := false)
  }

  /** Every refresh ends with `loading` false, and an abort never leaves an error message behind. */
  lemma RefreshEndsLoading(st: Screen, b: Settled<seq<VehicleRecord>>, t: Settled<seq<TripUpdateRecord>>, nowMs: int)
    ensures !ApplyRefresh(st, b, t, nowMs).loading
    ensures b.Rejected? && b.aborted ==> ApplyRefresh(st, b, t, nowMs).error == "" && ApplyRefresh(st, b, t, nowMs).tripUpdatesError == ""
    ensures b.Fulfilled? && t.Rejected? && t.aborted ==> ApplyRefresh(st, b, t, nowMs).error == "" && ApplyRefresh(st, b, t, nowMs).tripUpdatesError == ""
  {
  }

  /** A vehicle fetch that fails without an abort sets the error and keeps the buses, trip updates and ids. */
  lemma FailedVehicleFetchKeepsData(st: Screen, message: string, t: Settled<seq<TripUpdateRecord>>, nowMs: int)
    ensures var next := ApplyRefresh(st, Rejected(false, message), t, nowMs);
      && next.error != "" && (message != "" ==> next.error == message)
      && next.tripUpdatesError == ""
      && next.buses == st.buses && next.tripUpdates == st.tripUpdates
      && next.selectedBusId == st.selectedBusId && next.trackedBusId == st.trackedBusId
      && next.lastUpdatedMs == st.lastUpdatedMs
  {
  }

  /** Buses in, trip updates failed (not aborted): buses replaced, trip updates emptied, and the trip-updates error set. */
  lemma TripUpdatesFailureEmptiesTrips(st: Screen, items: seq<VehicleRecord>, message: string, nowMs: int)
    ensures var next := ApplyRefresh(st, Fulfilled(items), Rejected(false, message), nowMs);
      && next.buses == items && next.lastUpdatedMs == nowMs
      && next.tripUpdates == [] && next.tripUpdatesError != "" && next.error == ""
      && next.tripUpdatesUpdatedMs == st.tripUpdatesUpdatedMs
  {
  }

  /** Both fetches in: both lists replaced, both times stamped, and the selection settled. */
  lemma BothFetchesReplaceData(st: Screen, items: seq<VehicleRecord>, trips: seq<TripUpdateRecord>, nowMs: int)
    ensures var next := ApplyRefresh(st, Fulfilled(items), Fulfilled(trips), nowMs);
      && next.buses == items && next.tripUpdates == trips
      && next.lastUpdatedMs == nowMs && next.tripUpdatesUpdatedMs == nowMs
      && next.error == "" && next.tripUpdatesError == ""
      && (items == [] ==> next.selectedBusId.None?)
      && (items != [] && Unset(st.selectedBusId) ==> next.selectedBusId == Some(items[0].id))
  {
  }

  /**
   * An aborted trip-updates fetch after the buses arrived: the buses are
   * already replaced, but the trip updates and both ids are left as they
   * were, since the abort is re-thrown before the id updaters run.
   */
  lemma AbortAfterBusesSkipsIdUpdate(st: Screen, items: seq<VehicleRecord>, message: string, nowMs: int)
    ensures var next := ApplyRefresh(st, Fulfilled(items), Rejected(true, message), nowMs);
      && next.buses == items && next.tripUpdates == st.tripUpdates
      && next.selectedBusId == st.selectedBusId && next.trackedBusId == st.trackedBusId
  {
  }

  /**
   * A set tracked id is never reset by a refresh, and a set selection only by
   * an empty bus list, even when its bus has gone from the list; each holds
   * whether or not the other id is set.
   */
  lemma RefreshKeepsSetIds(st: Screen, b: Settled<seq<VehicleRecord>>, t: Settled<seq<TripUpdateRecord>>, nowMs: int)
    ensures !Unset(st.trackedBusId) ==> ApplyRefresh(st, b, t, nowMs).trackedBusId == st.trackedBusId
    ensures !Unset(st.selectedBusId) && !(b.Fulfilled? && b.value == []) ==>
      ApplyRefresh(st, b, t, nowMs).selectedBusId == st.selectedBusId
  {
  }

  // ---------------------------------------------------------------------
  // Selectors
  // ---------------------------------------------------------------------

  /** The search box's text, trimmed and lower-cased: the typed text less white space at its ends, each letter lowered. */
  function NormalizeQuery(input: string): (q: string)
    ensures |q| <= |input|
    ensures IsTrimmed(q)
    ensures forall i :: 0 <= i < |q| ==> !('A' <= q[i] <= 'Z')
    ensures exists i ::
      && 0 <= i <= |input| - |q| && AllSpace(input[..i]) && AllSpace(input[i + |q|..])
      && forall k :: 0 <= k < |q| ==> q[k] == LowerChar(input[i + k])
  {
    var t := Trim(input);
    var q := ToLower(t);
    TrimCutsOnlySpace(input);
    assert q != [] ==> IsJsSpace(q[0]) == IsJsSpace(t[0]) && IsJsSpace(q[|q| - 1]) == IsJsSpace(t[|t| - 1]);
    q
  }

  /** Normalising a normalised query changes nothing. */
  lemma NormalizeQueryIdempotent(input: string)
    ensures NormalizeQuery(NormalizeQuery(input)) == NormalizeQuery(input)
  {
    var q := NormalizeQuery(input);
    TrimOfTrimmed(q);
    assert ToLower(q) == q;
  }

  /** `busMatchesSearch`: an empty query matches every bus, otherwise the lower-cased route id must contain it. */
  predicate BusMatchesSearch(bus: VehicleRecord, normalizedQuery: string) {
    normalizedQuery == "" || Contains(ToLower(bus.routeId), normalizedQuery)
  }

  /** Whether a bus matches depends only on its route id, ignoring case. */
  lemma MatchIgnoresRouteCase(bus: VehicleRecord, other: VehicleRecord, q: string)
    requires ToLower(bus.routeId) == ToLower(other.routeId)
    ensures BusMatchesSearch(bus, q) == BusMatchesSearch(other, q)
  {
  }

  /** Typing more narrows the search: a bus matching a longer query matches every prefix of it. */
  lemma {:induction false} SearchNarrows(bus: VehicleRecord, q: string, more: string)
    ensures BusMatchesSearch(bus, q + more) ==> BusMatchesSearch(bus, q)
  {
    var s := ToLower(bus.routeId);
    if q != "" && BusMatchesSearch(bus, q + more) {
      assert q + more != "";
      var i :| OccursAt(s, q + more, i);
      assert s[i..i + |q|] == (q + more)[..|q|];
      assert (q + more)[..|q|] == q;
      assert OccursAt(s, q, i);
    }
  }

  /** A bus matches the query made of its own route id, lower-cased. */
  lemma RouteIdMatchesItself(bus: VehicleRecord)
    ensures BusMatchesSearch(bus, ToLower(bus.routeId))
  {
    var s := ToLower(bus.routeId);
    if s != "" {
      assert s[0..0 + |s|] == s;
      assert OccursAt(s, s, 0);
    }
  }

  /** The buses shown for a query, in feed order. */
  function FilteredBuses(buses: seq<VehicleRecord>, normalizedQuery: string): (r: seq<VehicleRecord>)
    ensures normalizedQuery == "" ==> r == buses
    ensures forall b :: b in r <==> b in buses && BusMatchesSearch(b, normalizedQuery)
  {
    var r := Filter(buses, SearchTest(normalizedQuery));
    assert normalizedQuery == "" ==> r == buses by {
      if normalizedQuery == "" {
        FilterAll(buses, SearchTest(normalizedQuery));
      }
    }
    r
  }

  function SearchTest(normalizedQuery: string): VehicleRecord -> bool {
    (b: VehicleRecord) => BusMatchesSearch(b, normalizedQuery)
  }

  /** The list keeps feed order: filtering distributes over concatenation of bus lists. */
  lemma FilteredBusesAppend(a: seq<VehicleRecord>, b: seq<VehicleRecord>, normalizedQuery: string)
    ensures FilteredBuses(a + b, normalizedQuery) == FilteredBuses(a, normalizedQuery) + FilteredBuses(b, normalizedQuery)
  {
    FilterAppend(a, b, SearchTest(normalizedQuery));
  }

  /** One bus is listed once when it matches, and not at all otherwise. */
  lemma FilteredBusesSingle(bus: VehicleRecord, normalizedQuery: string)
    ensures FilteredBuses([bus], normalizedQuery) == if BusMatchesSearch(bus, normalizedQuery) then [bus] else []
  {
    assert [bus][1..] == [];
  }

  lemma {:induction false} FilterAll<T>(s: seq<T>, p: T -> bool)
    requires forall x :: x in s ==> p(x)
    ensures Filter(s, p) == s
  {
    if s != [] {
      assert forall x :: x in s[1..] ==> x in s;
      FilterAll(s[1..], p);
    }
  }

  /** The distinct non-empty route ids among the listed buses (the "Active routes" figure is its size). */
  function ActiveRoutes(buses: seq<VehicleRecord>): (routes: set<string>)
    ensures forall r :: r in routes <==> r != "" && exists i :: 0 <= i < |buses| && buses[i].routeId == r
  {
    set i | 0 <= i < |buses| && buses[i].routeId != "" :: buses[i].routeId
  }

  /** The first bus with the given id; an absent id finds none. */
  function FindBus(buses: seq<VehicleRecord>, id: Option<string>): (r: Option<VehicleRecord>)
    ensures r.Some? ==> id.Some? && r.value in buses && r.value.id == id.value
    ensures r.None? ==> id.None? || forall i :: 0 <= i < |buses| ==> buses[i].id != id.value
    ensures r.Some? ==> exists i :: (0 <= i < |buses| && buses[i] == r.value &&
      forall k :: 0 <= k < i ==> buses[k].id != id.value)
  {
    if id.None? || buses == [] then None
    else if buses[0].id == id.value then Some(buses[0])
    else
      var rest := FindBus(buses[1..], id);
      if rest.Some? then
        var i :| 0 <= i < |buses[1..]| && buses[1..][i] == rest.value &&
          forall k :: 0 <= k < i ==> buses[1..][k].id != id.value;
        assert buses[i + 1] == rest.value;
        rest
      else rest
  }

  /** The bus whose departures are shown: the selected bus if listed, else the tracked bus if listed, else none. */
  function DeparturesTarget(st: Screen): (target: Option<VehicleRecord>)
    ensures FindBus(st.buses, st.selectedBusId).Some? ==> target == FindBus(st.buses, st.selectedBusId)
    ensures FindBus(st.buses, st.selectedBusId).None? ==> target == FindBus(st.buses, st.trackedBusId)
    ensures target.Some? ==> (target.value in st.buses &&
      (Some(target.value.id) == st.selectedBusId || Some(target.value.id) == st.trackedBusId))
  {
    var selected := FindBus(st.buses, st.selectedBusId);
    if selected.Some? then selected else FindBus(st.buses, st.trackedBusId)
  }

  /** The departures board: the target's next departures with the default limit, route fallback on, no stop names. */
  function ScreenDepartures(st: Screen, nowMs: int): (r: DeparturesModel)
    ensures DeparturesTarget(st).None? ==> r == DeparturesModel(NoMatch, [])
    ensures |r.items| <= MaxDefaultDepartures
  {
    BuildNextDepartures(DeparturesTarget(st), Some(st.tripUpdates), None, nowMs, MaxDefaultDepartures, true)
  }

  datatype Tracking = TrackingOff | TrackingRoute(route: string, vehicle: string) | TrackingPaused

  /** The tracking line: off without a tracked id, the route and vehicle while its bus is listed, paused otherwise. */
  function TrackingStatus(st: Screen): (t: Tracking)
    ensures Unset(st.trackedBusId) <==> t == TrackingOff
    ensures t.TrackingRoute? <==> !Unset(st.trackedBusId) && FindBus(st.buses, st.trackedBusId).Some?
    ensures t.TrackingRoute? ==> t.route != "" && t.vehicle != ""
    ensures t.TrackingRoute? ==>
      var bus := FindBus(st.buses, st.trackedBusId).value;
      (bus.routeId != "" ==> t.route == bus.routeId) &&
      (bus.vehicleLabel != "" ==> t.vehicle == bus.vehicleLabel) &&
      (bus.vehicleLabel == "" && bus.vehicleId != "" ==> t.vehicle == bus.vehicleId) &&
      (bus.routeId == "" ==> t.route == "Unknown") &&
      (bus.vehicleLabel == "" && bus.vehicleId == "" ==> t.vehicle == "N/A")
  {
    if Unset(st.trackedBusId) then TrackingOff
    else match FindBus(st.buses, st.trackedBusId)
      case Some(bus) =>
        TrackingRoute(OrElse(bus.routeId, "Unknown"), OrElse(bus.vehicleLabel, OrElse(bus.vehicleId, "N/A")))
      case None => TrackingPaused
  }

  // ---------------------------------------------------------------------
  // The component state, updated in place
  // ---------------------------------------------------------------------

  class TrackerScreen {
    var buses: seq<VehicleRecord>
    var tripUpdates: seq<TripUpdateRecord>
    var selectedBusId: Option<string>
    var trackedBusId: Option<string>
    var loading: bool
    var error: string
    var tripUpdatesError: string
    var lastUpdatedMs: int
    var tripUpdatesUpdatedMs: int

    function State(): Screen
      reads this
    {
      Screen(buses, tripUpdates, selectedBusId, trackedBusId, loading, error, tripUpdatesError,
             lastUpdatedMs, tripUpdatesUpdatedMs)
    }

    constructor ()
      ensures State() == InitialScreen
    {
      buses := [];
      tripUpdates := [];
      selectedBusId := None;
      trackedBusId := None;
      loading := true;
      error := "";
      tripUpdatesError := "";
      lastUpdatedMs := 0;
      tripUpdatesUpdatedMs := 0;
    }

    /** `loadBuses` once both fetches have settled, setter by setter. */
    method LoadBuses(busesResult: Settled<seq<VehicleRecord>>, tripUpdatesResult: Settled<seq<TripUpdateRecord>>, nowMs: int)
      modifies this
      ensures State() == ApplyRefresh(old(State()), busesResult, tripUpdatesResult, nowMs)
    {
      error := "";
      tripUpdatesError := "";
      if busesResult.Rejected? {
        if !busesResult.aborted {
          error := OrElse(busesResult.message, "Unable to fetch buses.");
        }
        loading := false;
        return;
      }
      var items := busesResult.value;
      buses := items;
      lastUpdatedMs := nowMs;
      if tripUpdatesResult.Fulfilled? {
        tripUpdates := tripUpdatesResult.value;
        tripUpdatesError := "";
        tripUpdatesUpdatedMs := nowMs;
      } else if tripUpdatesResult.aborted {
        loading := false;
        return;
      } else {
        tripUpdates := [];
        tripUpdatesError := OrElse(tripUpdatesResult.message, "Unable to fetch trip updates.");
      }
      selectedBusId := NextSelectedId(items, selectedBusId);
      trackedBusId := NextTrackedId(items, trackedBusId);
      loading := false;
    }

    /** `handleSelectBus`: selects the bus, and tracks it too when asked. */
    method HandleSelectBus(busId: Option<string>, track: bool)
      modifies this
      ensures State() == old(State()).(selectedBusId := busId, trackedBusId := if track then busId else old(trackedBusId))
    {
      selectedBusId := busId;
      if track {
        trackedBusId := busId;
      }
    }
  }

  /** Selecting a listed bus makes it the departures target. */
  lemma SelectedBusIsTarget(st: Screen, i: nat)
    requires i < |st.buses|
    requires forall k :: 0 <= k < |st.buses| && k != i ==> st.buses[k].id != st.buses[i].id
    ensures DeparturesTarget(st.(selectedBusId := Some(st.buses[i].id))) == Some(st.buses[i])
  {
  }
}
