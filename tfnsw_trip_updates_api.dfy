/** The trip-updates feed: where it is fetched from and what a successful fetch yields. */
module TfnswTripUpdatesApi {
  import opened Common
  import opened GtfsRealtime
  import opened FeedFetch

  const TripUpdatesFeed: FeedEndpoints := FeedEndpoints(
    "/api/gtfs/realtime/buses",
    "https://api.transport.nsw.gov.au/v1/gtfs/realtime/buses")

  /** The payload decoder: the protobuf step (`decodeFeed`, `None` where it throws) followed by `DecodeBusTripUpdates`. */
  function DecodeTripUpdatesPayload(decodeFeed: seq<byte> -> Option<seq<FeedEntity>>, bytes: seq<byte>): (r: Option<seq<TripUpdateRecord>>)
    ensures r.Some? <==> decodeFeed(bytes).Some?
    ensures r.Some? ==> forall u :: u in r.value ==> u.stops != [] && SortedBy(u.stops, EventTime)
  {
    match decodeFeed(bytes)
    case Some(entities) => Some(DecodeBusTripUpdates(entities))
    case None => None
  }

  function TripUpdatesDecoder(decodeFeed: seq<byte> -> Option<seq<FeedEntity>>): seq<byte> -> Option<seq<TripUpdateRecord>> {
    (bytes: seq<byte>) => DecodeTripUpdatesPayload(decodeFeed, bytes)
  }

  lemma ServedIsDecoded(decodeFeed: seq<byte> -> Option<seq<FeedEntity>>, reply: FeedReply, v: seq<TripUpdateRecord>)
    requires AttemptOf(reply, TripUpdatesDecoder(decodeFeed)) == Served(v)
    ensures forall u :: u in v ==> u.stops != [] && SortedBy(u.stops, EventTime)
  {
    assert reply.Body? && v == DecodeTripUpdatesPayload(decodeFeed, reply.bytes).value;
  }

  /**
   * `fetchBusTripUpdates`: the first candidate of the plan that answers with a
   * decodable feed supplies the trip updates; every trip update returned has its
   * stops in time order.
   */
  method FetchBusTripUpdates(config: Config, fetch: (string, map<string, string>) -> FeedReply,
                          decodeFeed: seq<byte> -> Option<seq<FeedEntity>>) returns (r: Result<seq<TripUpdateRecord>, FeedError>)
    ensures r != Err(ConfigMissing)
    ensures r.Ok? ==> forall u :: u in r.value ==> u.stops != [] && SortedBy(u.stops, EventTime)
    ensures r.Ok? ==> exists i :: (var plan := BuildRequestPlan(TripUpdatesFeed, config);
      0 <= i < |plan| && AttemptAt(plan, i, fetch, TripUpdatesDecoder(decodeFeed)) == Served(r.value) &&
      forall k :: 0 <= k < i ==> AttemptAt(plan, k, fetch, TripUpdatesDecoder(decodeFeed)).FailedWith?)
    ensures r == Err(Aborted) ==> exists i :: (var plan := BuildRequestPlan(TripUpdatesFeed, config);
      0 <= i < |plan| && AttemptAt(plan, i, fetch, TripUpdatesDecoder(decodeFeed)).AbortedHere? &&
      forall k :: 0 <= k < i ==> AttemptAt(plan, k, fetch, TripUpdatesDecoder(decodeFeed)).FailedWith?)
    ensures r.Err? && r.error.Unreachable? ==> (var plan := BuildRequestPlan(TripUpdatesFeed, config);
      r.error.tried == Labels(plan) && |r.error.failures| == |plan| &&
      forall k :: 0 <= k < |plan| ==>
        r.error.failures[k].0 == plan[k].kind &&
        AttemptAt(plan, k, fetch, TripUpdatesDecoder(decodeFeed)) == FailedWith(r.error.failures[k].1))
  {
    var plan := PlanRequests(TripUpdatesFeed, config);
    r := FetchFeed(plan, fetch, TripUpdatesDecoder(decodeFeed));
    if r.Ok? {
      var i :| 0 <= i < |plan| && AttemptAt(plan, i, fetch, TripUpdatesDecoder(decodeFeed)) == Served(r.value);
      ServedIsDecoded(decodeFeed, fetch(plan[i].url, WithProtoAcceptHeader(plan[i].headers)), r.value);
    }
  }
}
