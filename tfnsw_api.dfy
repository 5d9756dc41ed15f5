/** The vehicle-positions feed: where it is fetched from and what a successful fetch yields. */
module TfnswApi {
  import opened Common
  import opened GtfsRealtime
  import opened FeedFetch

  const VehiclePositionsFeed: FeedEndpoints := FeedEndpoints(
    "/api/gtfs/vehiclepos/buses",
    "https://api.transport.nsw.gov.au/v1/gtfs/vehiclepos/buses")

  /** The payload decoder: the protobuf step (`decodeFeed`, `None` where it throws) followed by `DecodeBusVehiclePositions`. */
  function DecodeVehiclesPayload(decodeFeed: seq<byte> -> Option<seq<FeedEntity>>, bytes: seq<byte>): (r: Option<seq<VehicleRecord>>)
    ensures r.Some? <==> decodeFeed(bytes).Some?
    ensures r.Some? ==> forall v :: v in r.value ==> InSydneyBounds(v.lat, v.lon)
  {
    match decodeFeed(bytes)
    case Some(entities) => Some(DecodeBusVehiclePositions(entities))
    case None => None
  }

  function VehiclesDecoder(decodeFeed: seq<byte> -> Option<seq<FeedEntity>>): seq<byte> -> Option<seq<VehicleRecord>> {
    (bytes: seq<byte>) => DecodeVehiclesPayload(decodeFeed, bytes)
  }

  lemma ServedIsDecoded(decodeFeed: seq<byte> -> Option<seq<FeedEntity>>, reply: FeedReply, v: seq<VehicleRecord>)
    requires AttemptOf(reply, VehiclesDecoder(decodeFeed)) == Served(v)
    ensures forall x :: x in v ==> InSydneyBounds(x.lat, x.lon)
  {
    assert reply.Body? && v == DecodeVehiclesPayload(decodeFeed, reply.bytes).value;
  }

  /**
   * `fetchSydneyBuses`: the first candidate of the plan that answers with a
   * decodable feed supplies the buses; every bus returned lies within the
   * Sydney bounds.
   */
  method FetchSydneyBuses(config: Config, fetch: (string, map<string, string>) -> FeedReply,
                          decodeFeed: seq<byte> -> Option<seq<FeedEntity>>) returns (r: Result<seq<VehicleRecord>, FeedError>)
    ensures r != Err(ConfigMissing)
    ensures r.Ok? ==> forall v :: v in r.value ==> InSydneyBounds(v.lat, v.lon)
    ensures r.Ok? ==> exists i :: (var plan := BuildRequestPlan(VehiclePositionsFeed, config);
      0 <= i < |plan| && AttemptAt(plan, i, fetch, VehiclesDecoder(decodeFeed)) == Served(r.value) &&
      forall k :: 0 <= k < i ==> AttemptAt(plan, k, fetch, VehiclesDecoder(decodeFeed)).FailedWith?)
    ensures r == Err(Aborted) ==> exists i :: (var plan := BuildRequestPlan(VehiclePositionsFeed, config);
      0 <= i < |plan| && AttemptAt(plan, i, fetch, VehiclesDecoder(decodeFeed)).AbortedHere? &&
      forall k :: 0 <= k < i ==> AttemptAt(plan, k, fetch, VehiclesDecoder(decodeFeed)).FailedWith?)
    ensures r.Err? && r.error.Unreachable? ==> (var plan := BuildRequestPlan(VehiclePositionsFeed, config);
      r.error.tried == Labels(plan) && |r.error.failures| == |plan| &&
      forall k :: 0 <= k < |plan| ==>
        r.error.failures[k].0 == plan[k].kind &&
        AttemptAt(plan, k, fetch, VehiclesDecoder(decodeFeed)) == FailedWith(r.error.failures[k].1))
  {
    var plan := PlanRequests(VehiclePositionsFeed, config);
    r := FetchFeed(plan, fetch, VehiclesDecoder(decodeFeed));
    if r.Ok? {
      var i :| 0 <= i < |plan| && AttemptAt(plan, i, fetch, VehiclesDecoder(decodeFeed)) == Served(r.value);
      ServedIsDecoded(decodeFeed, fetch(plan[i].url, WithProtoAcceptHeader(plan[i].headers)), r.value);
    }
  }
}
