/**
 * How the browser reaches a TfNSW realtime feed: a request plan built from
 * the build-time configuration (a configured URL, the development proxy, the
 * public endpoint with a browser key, or the deployment's own proxy), and a
 * loop that tries the plan's candidates in order until one answers.
 *
 * The vehicle-positions feed and the trip-updates feed use the same plan and
 * loop with different URLs and decoders (modules TfnswApi and
 * TfnswTripUpdatesApi).
 */
module FeedFetch {
  import opened Common

  /** The build-time settings: the raw configured URL and key (absent when unset), and whether this is a dev build. */
  datatype Config = Config(rawDirectUrl: Option<string>, rawApiKey: Option<string>, isDev: bool)

  /** The two default locations of one feed: the same-origin proxy path and the public TfNSW URL. */
  datatype FeedEndpoints = FeedEndpoints(proxyPath: string, directUrl: string)

  datatype PlanLabel = DirectUrl | ViteProxy | DirectDefault | AppProxy

  function LabelText(l: PlanLabel): (t: string)
    ensures t != ""
  {
    match l
    case DirectUrl => "direct-url"
    case ViteProxy => "vite-proxy"
    case DirectDefault => "direct-default"
    case AppProxy => "app-proxy"
  }

  datatype PlannedRequest = PlannedRequest(kind: PlanLabel, url: string, headers: map<string, string>)

  /** An optional setting after trimming; unset and blank read alike. */
  function Setting(raw: Option<string>): (s: string)
    ensures IsTrimmed(s)
  {
    Trim(raw.GetOr(""))
  }

  function AuthHeaders(apiKey: string): (h: map<string, string>)
    ensures "Authorization" in h <==> apiKey != ""
    ensures h.Keys <= {"Authorization"}
    ensures apiKey != "" ==> h["Authorization"] == "apikey " + apiKey
  {
    if apiKey != "" then map["Authorization" := "apikey " + apiKey] else map[]
  }

  function Labels(plan: seq<PlannedRequest>): (ls: seq<PlanLabel>)
    ensures |ls| == |plan| && forall i :: 0 <= i < |plan| ==> ls[i] == plan[i].kind
  {
    seq(|plan|, i requires 0 <= i < |plan| => plan[i].kind)
  }

  /**
   * `buildRequestPlan`: a configured URL is the only candidate; otherwise
   * the dev proxy comes first in a dev build, the public endpoint is added
   * when a browser key is set, and a non-dev build ends with the
   * deployment's proxy.
   */
  function BuildRequestPlan(feed: FeedEndpoints, config: Config): (plan: seq<PlannedRequest>)
    // never empty, so the "configuration missing" error cannot arise
    ensures 1 <= |plan| <= 2
    // a configured URL overrides everything else
    ensures Setting(config.rawDirectUrl) != "" ==>
      plan == [PlannedRequest(DirectUrl, Setting(config.rawDirectUrl), AuthHeaders(Setting(config.rawApiKey)))]
    ensures Setting(config.rawDirectUrl) == "" ==> forall i :: 0 <= i < |plan| ==> plan[i].kind != DirectUrl
    // the public endpoint is tried exactly when there is no configured URL but there is a key
    ensures Setting(config.rawDirectUrl) == "" && Setting(config.rawApiKey) != "" ==>
      |plan| == 2 &&
      plan[if config.isDev then 1 else 0] == PlannedRequest(DirectDefault, feed.directUrl, AuthHeaders(Setting(config.rawApiKey)))
    ensures forall i :: 0 <= i < |plan| && plan[i].kind == DirectDefault ==>
      Setting(config.rawDirectUrl) == "" && Setting(config.rawApiKey) != ""
    // a dev build starts with the dev proxy, a production build ends with its own proxy
    ensures Setting(config.rawDirectUrl) == "" && config.isDev ==> plan[0] == PlannedRequest(ViteProxy, feed.proxyPath, map[])
    ensures Setting(config.rawDirectUrl) == "" && !config.isDev ==> plan[|plan| - 1] == PlannedRequest(AppProxy, feed.proxyPath, map[])
    ensures Setting(config.rawDirectUrl) == "" ==> forall i :: 0 <= i < |plan| ==> plan[i].kind != (if config.isDev then AppProxy else ViteProxy)
    // no candidate twice
    ensures forall i, j :: 0 <= i < j < |plan| ==> plan[i].kind != plan[j].kind
    // the key goes only to TfNSW itself, never to a proxy
    ensures forall i :: 0 <= i < |plan| && "Authorization" in plan[i].headers ==>
      plan[i].kind == DirectUrl || plan[i].kind == DirectDefault
    ensures forall i :: 0 <= i < |plan| && (plan[i].kind == ViteProxy || plan[i].kind == AppProxy) ==>
      plan[i].url == feed.proxyPath && plan[i].headers == map[]
  {
    var directUrl := Setting(config.rawDirectUrl);
    var apiKey := Setting(config.rawApiKey);
    if directUrl != "" then
      [PlannedRequest(DirectUrl, directUrl, AuthHeaders(apiKey))]
    else
      var viteProxy := PlannedRequest(ViteProxy, feed.proxyPath, map[]);
      var directDefault := PlannedRequest(DirectDefault, feed.directUrl, AuthHeaders(apiKey));
      var appProxy := PlannedRequest(AppProxy, feed.proxyPath, map[]);
      if config.isDev then
        if apiKey != "" then [viteProxy, directDefault] else [viteProxy]
      else
        if apiKey != "" then [directDefault, appProxy] else [appProxy]
  }

  /** `buildRequestPlan` as written: the candidates pushed one by one onto an initially empty plan. */
  method PlanRequests(feed: FeedEndpoints, config: Config) returns (plan: seq<PlannedRequest>)
    ensures plan == BuildRequestPlan(feed, config)
  {
    var directUrl := Setting(config.rawDirectUrl);
    var apiKey := Setting(config.rawApiKey);
    if directUrl != "" {
      return [PlannedRequest(DirectUrl, directUrl, AuthHeaders(apiKey))];
    }
    plan := [];
    if config.isDev {
      plan := plan + [PlannedRequest(ViteProxy, feed.proxyPath, map[])];
    }
    if apiKey != "" {
      plan := plan + [PlannedRequest(DirectDefault, feed.directUrl, map["Authorization" := "apikey " + apiKey])];
    }
    if !config.isDev {
      plan := plan + [PlannedRequest(AppProxy, feed.proxyPath, map[])];
    }
  }

  /** `withProtoAcceptHeader`: a protobuf `Accept` header unless the given headers already set one. */
  function WithProtoAcceptHeader(headers: map<string, string>): (h: map<string, string>)
    ensures h.Keys == headers.Keys + {"Accept"}
    ensures forall k :: k in headers ==> h[k] == headers[k]
    ensures "Accept" !in headers ==> h["Accept"] == "application/x-google-protobuf"
  {
    map["Accept" := "application/x-google-protobuf"] + headers
  }

  // ---------------------------------------------------------------------
  // Trying the candidates
  // ---------------------------------------------------------------------

  /** What one GET yields: a rejected fetch (aborted or not), a non-OK status, or an OK body. */
  datatype FeedReply = Rejected(aborted: bool) | NotOk(status: int) | Body(bytes: seq<byte>)

  /** Why a candidate did not serve the feed. */
  datatype Failure = HttpStatus(status: int) | NetworkError

  datatype FeedError =
    | ConfigMissing
    | Aborted
    | Unreachable(tried: seq<PlanLabel>, failures: seq<(PlanLabel, Failure)>)

  /** What one candidate comes to: the decoded feed, an abort, or a failure that moves on to the next candidate. */
  datatype Attempt<R> = Served(value: R) | AbortedHere | FailedWith(failure: Failure)

  /**
   * A decode error is raised inside the same `try` as the network call, so it
   * is recorded like a network error; only an abort escapes the loop.
   */
  function AttemptOf<R>(reply: FeedReply, decode: seq<byte> -> Option<R>): Attempt<R> {
    match reply
    case Rejected(aborted) => if aborted then AbortedHere else FailedWith(NetworkError)
    case NotOk(status) => FailedWith(HttpStatus(status))
    case Body(bytes) => if decode(bytes).Some? then Served(decode(bytes).value) else FailedWith(NetworkError)
  }

  /** The attempt made for candidate `i` of the plan. */
  function AttemptAt<R>(plan: seq<PlannedRequest>, i: nat, fetch: (string, map<string, string>) -> FeedReply,
                        decode: seq<byte> -> Option<R>): Attempt<R>
    requires i < |plan|
  {
    AttemptOf(fetch(plan[i].url, WithProtoAcceptHeader(plan[i].headers)), decode)
  }

  /**
   * The loop of `fetchSydneyBuses` and `fetchBusTripUpdates`. `fetch` gives
   * the reply to a GET of a URL with the given headers; `decode` is the feed
   * decoder, `None` where it throws.
   */
  method FetchFeed<R>(plan: seq<PlannedRequest>, fetch: (string, map<string, string>) -> FeedReply,
                      decode: seq<byte> -> Option<R>) returns (r: Result<R, FeedError>)
    ensures plan == [] <==> r == Err(ConfigMissing)
    // served by the first candidate that did not fail
    ensures r.Ok? ==> exists i :: (0 <= i < |plan| && AttemptAt(plan, i, fetch, decode) == Served(r.value) &&
      forall k :: 0 <= k < i ==> AttemptAt(plan, k, fetch, decode).FailedWith?)
    // an abort ends the loop at once
    ensures r == Err(Aborted) ==> exists i :: (0 <= i < |plan| && AttemptAt(plan, i, fetch, decode).AbortedHere? &&
      forall k :: 0 <= k < i ==> AttemptAt(plan, k, fetch, decode).FailedWith?)
    // otherwise every candidate was tried and failed, and each failure is reported under its label
    ensures r.Err? && r.error.Unreachable? ==>
      r.error.tried == Labels(plan) && |r.error.failures| == |plan| &&
      forall k :: 0 <= k < |plan| ==>
        r.error.failures[k].0 == plan[k].kind &&
        AttemptAt(plan, k, fetch, decode) == FailedWith(r.error.failures[k].1)
  {
    if |plan| == 0 {
      return Err(ConfigMissing);
    }
    var failures: seq<(PlanLabel, Failure)> := [];
    var i := 0;
    while i < |plan|
      invariant 0 <= i <= |plan|
      invariant |failures| == i
      invariant forall k :: 0 <= k < i ==>
        failures[k].0 == plan[k].kind && AttemptAt(plan, k, fetch, decode) == FailedWith(failures[k].1)
    {
      var request := plan[i];
      var attempt := AttemptOf(fetch(request.url, WithProtoAcceptHeader(request.headers)), decode);
      assert attempt == AttemptAt(plan, i, fetch, decode);
      match attempt {
        case Served(value) =>
          return Ok(value);
        case AbortedHere =>
          return Err(Aborted);
        case FailedWith(failure) =>
          failures := failures + [(request.kind, failure)];
      }
      i := i + 1;
    }
    return Err(Unreachable(Labels(plan), failures));
  }
}
