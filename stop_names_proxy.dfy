/**
 * The development-server middleware that answers `/api/stop-names`. It keeps
 * one id-to-name table built from the GTFS static `stops.txt`, reloads it
 * after six hours, shares one pending load between concurrent requests, and
 * splits the requested ids into those it can name and those it cannot.
 *
 * The CSV parser, the unzipper and the network are parameters: a parsed CSV
 * arrives as header-keyed rows, an archive as its list of entries.
 */
module StopNamesProxy {
  import opened Common

  const StopNamesEndpointPath: string := "/api/stop-names"
  const StaticStopsEndpoints: seq<string> := [
    "https://api.transport.nsw.gov.au/v1/gtfs/schedule/buses",
    "https://api.transport.nsw.gov.au/v1/gtfs/schedule/sydney-buses"
  ]
  /** Six hours. */
  const StopNamesCacheTtlMs: int := 6 * 60 * 60 * 1000

  /** Why no table could be produced. */
  datatype LoadError =
    | CsvUnreadable         // the parser reported errors and produced no rows
    | NoValidStopNames      // no row had both a stop id and a stop name
    | ArchiveUnreadable     // the unzipper threw
    | NoStopsEntry          // the archive has no entry ending in `stops.txt`
    | AllEndpointsFailed(failures: seq<(string, EndpointFailure)>)

  datatype EndpointFailure = HttpStatus(status: int) | FetchOrDecode

  // ---------------------------------------------------------------------
  // stops.txt rows to a table
  // ---------------------------------------------------------------------

  /** What the CSV parser hands back: header-keyed rows and the number of errors it met. */
  datatype ParsedCsv = ParsedCsv(data: seq<map<string, string>>, errorCount: nat)

  /** A column of a row, trimmed; a missing column reads as the empty string. */
  function Column(row: map<string, string>, column: string): (v: string)
    ensures IsTrimmed(v)
  {
    if column in row then Trim(row[column]) else ""
  }

  predicate ValidRow(row: map<string, string>) {
    Column(row, "stop_id") != "" && Column(row, "stop_name") != ""
  }

  /** The table the row loop builds: each valid row sets its id to its name, later rows overwriting earlier ones. */
  function RowsToTable(rows: seq<map<string, string>>): map<string, string> {
    if rows == [] then map[]
    else
      var table := RowsToTable(rows[..|rows| - 1]);
      var row := rows[|rows| - 1];
      if ValidRow(row) then table[Column(row, "stop_id") := Column(row, "stop_name")] else table
  }

  /** Every key and every value of the table is a non-empty trimmed string. */
  predicate WellFormedTable(table: map<string, string>) {
    forall id :: id in table ==> IsTrimmedNonEmpty(id) && IsTrimmedNonEmpty(table[id])
  }

  lemma {:induction false} RowsToTableWellFormed(rows: seq<map<string, string>>)
    ensures WellFormedTable(RowsToTable(rows))
  {
    if rows != [] {
      RowsToTableWellFormed(rows[..|rows| - 1]);
    }
  }

  /** An id is in the table exactly when some valid row carries it. */
  lemma {:induction false} RowsToTableKeys(rows: seq<map<string, string>>, id: string)
    ensures id in RowsToTable(rows) <==> id in ValidIds(rows)
  {
    if rows != [] {
      RowsToTableKeys(rows[..|rows| - 1], id);
    }
  }

  /** The id a row contributes to the table, if it is valid. */
  function RowId(row: map<string, string>): Option<string> {
    if ValidRow(row) then Some(Column(row, "stop_id")) else None
  }

  /** The values `f` yields along `s`, in order. */
  function Collect<T>(s: seq<T>, f: T -> Option<string>): seq<string> {
    if s == [] then []
    else Collect(s[..|s| - 1], f) + (if f(s[|s| - 1]).Some? then [f(s[|s| - 1]).value] else [])
  }

  function ValidIds(rows: seq<map<string, string>>): seq<string> {
    Collect(rows, RowId)
  }

  lemma {:induction false} CollectMembers<T>(s: seq<T>, f: T -> Option<string>, x: string)
    ensures x in Collect(s, f) <==> exists j :: 0 <= j < |s| && f(s[j]) == Some(x)
  {
    if s != [] {
      var init := s[..|s| - 1];
      CollectMembers(init, f, x);
      if x in Collect(init, f) {
        var j :| 0 <= j < |init| && f(init[j]) == Some(x);
        assert s[j] == init[j];
      }
      if exists j :: 0 <= j < |s| && f(s[j]) == Some(x) {
        var j :| 0 <= j < |s| && f(s[j]) == Some(x);
        if j < |init| {
          assert init[j] == s[j];
        }
      }
    }
  }

  /** `ValidIds` lists exactly the ids of valid rows. */
  lemma ValidIdsMembers(rows: seq<map<string, string>>, id: string)
    ensures id in ValidIds(rows) <==> exists j :: 0 <= j < |rows| && ValidRow(rows[j]) && Column(rows[j], "stop_id") == id
  {
    CollectMembers(rows, RowId, id);
    if exists j :: 0 <= j < |rows| && ValidRow(rows[j]) && Column(rows[j], "stop_id") == id {
      var j :| 0 <= j < |rows| && ValidRow(rows[j]) && Column(rows[j], "stop_id") == id;
      assert RowId(rows[j]) == Some(id);
    }
  }

  /** The name kept for an id is the one on the last valid row carrying that id. */
  lemma {:induction false} RowsToTableLastWins(rows: seq<map<string, string>>, j: nat)
    requires j < |rows| && ValidRow(rows[j])
    requires forall k :: j < k < |rows| ==> !(ValidRow(rows[k]) && Column(rows[k], "stop_id") == Column(rows[j], "stop_id"))
    ensures Column(rows[j], "stop_id") in RowsToTable(rows)
    ensures RowsToTable(rows)[Column(rows[j], "stop_id")] == Column(rows[j], "stop_name")
  {
    if j < |rows| - 1 {
      var init := rows[..|rows| - 1];
      assert init[j] == rows[j];
      RowsToTableLastWins(init, j);
    }
  }

  /** The outcome `parseStopsCsv` produces: an error, or the non-empty table. */
  function StopsTable(parsed: ParsedCsv): (r: Result<map<string, string>, LoadError>)
  {
    if parsed.errorCount > 0 && parsed.data == [] then Err(CsvUnreadable)
    else if RowsToTable(parsed.data) == map[] then Err(NoValidStopNames)
    else Ok(RowsToTable(parsed.data))
  }

  /** Either an error, or a non-empty, well-formed table. */
  lemma StopsTableShape(parsed: ParsedCsv)
    ensures StopsTable(parsed).Ok? ==> |StopsTable(parsed).value| > 0 && WellFormedTable(StopsTable(parsed).value)
    ensures StopsTable(parsed).Err? <==>
      (parsed.errorCount > 0 && parsed.data == []) ||
      forall j :: 0 <= j < |parsed.data| ==> !ValidRow(parsed.data[j])
  {
    RowsToTableWellFormed(parsed.data);
    var table := RowsToTable(parsed.data);
    if exists j :: 0 <= j < |parsed.data| && ValidRow(parsed.data[j]) {
      var j :| 0 <= j < |parsed.data| && ValidRow(parsed.data[j]);
      RowsToTableKeys(parsed.data, Column(parsed.data[j], "stop_id"));
      ValidIdsMembers(parsed.data, Column(parsed.data[j], "stop_id"));
      assert Column(parsed.data[j], "stop_id") in table;
    } else if table != map[] {
      var id :| id in table;
      RowsToTableKeys(parsed.data, id);
      ValidIdsMembers(parsed.data, id);
    }
  }

  /** `parseStopsCsv` from the parser's output on: the row loop filling a map. */
  method ParseStopsCsv(parsed: ParsedCsv) returns (r: Result<map<string, string>, LoadError>)
    ensures r == StopsTable(parsed)
  {
    if parsed.errorCount > 0 && |parsed.data| == 0 {
      return Err(CsvUnreadable);
    }
    var stopNamesById: map<string, string> := map[];
    var i := 0;
    while i < |parsed.data|
      invariant 0 <= i <= |parsed.data|
      invariant stopNamesById == RowsToTable(parsed.data[..i])
    {
      var row := parsed.data[i];
      var stopId := Column(row, "stop_id");
      var stopName := Column(row, "stop_name");
      assert parsed.data[..i + 1][..i] == parsed.data[..i];
      if stopId != "" && stopName != "" {
        stopNamesById := stopNamesById[stopId := stopName];
      }
      i := i + 1;
    }
    assert parsed.data[..i] == parsed.data;
    if |stopNamesById| == 0 {
      return Err(NoValidStopNames);
    }
    return Ok(stopNamesById);
  }

  // ---------------------------------------------------------------------
  // Payload sniffing and archive entry selection
  // ---------------------------------------------------------------------

  /** `isZipPayload`: the content type mentions "zip" in any case, or the bytes open with the `PK` signature. */
  function IsZipPayload(bytes: seq<byte>, contentType: Option<string>): (b: bool)
  {
    Contains(ToLower(contentType.GetOr("")), "zip") || (|bytes| > 3 && bytes[0] == 0x50 && bytes[1] == 0x4B)
  }

  lemma LowerCharIdempotent(c: char)
    ensures LowerChar(LowerChar(c)) == LowerChar(c)
  {
  }

  /** The content-type test ignores case: a header and its lower-cased form give the same answer. */
  lemma IsZipPayloadIgnoresCase(bytes: seq<byte>, contentType: string)
    ensures IsZipPayload(bytes, Some(ToLower(contentType))) == IsZipPayload(bytes, Some(contentType))
  {
    var once := ToLower(contentType);
    var twice := ToLower(once);
    forall i | 0 <= i < |contentType| ensures twice[i] == once[i] {
      LowerCharIdempotent(contentType[i]);
    }
    assert twice == once;
  }

  /** Without a zip content type, the answer is the signature test: at least four bytes starting `0x50 0x4B`. */
  lemma IsZipPayloadBySignature(bytes: seq<byte>)
    ensures IsZipPayload(bytes, None) <==> |bytes| >= 4 && bytes[0] == 0x50 && bytes[1] == 0x4B
  {
    assert ToLower("") == "";
    assert !Contains("", "zip");
  }

  /**
   * A content type that mentions "zip" in any case, such as `application/ZIP`,
   * marks any payload, even an empty one, as an archive.
   */
  lemma ZipContentTypeWins(bytes: seq<byte>, contentType: string)
    ensures Contains(ToLower(contentType), "zip") ==> IsZipPayload(bytes, Some(contentType))
    ensures IsZipPayload(bytes, Some("application/ZIP"))
  {
    var lower := ToLower("application/ZIP");
    assert lower == "application/zip";
    assert OccursAt(lower, "zip", 12);
  }

  /** The first archive entry whose lower-cased name ends in `stops.txt`, as an index. */
  function FindStopsEntry(names: seq<string>): (i: Option<nat>)
    ensures i.Some? ==> i.value < |names| && EndsWith(ToLower(names[i.value]), "stops.txt")
    ensures i.Some? ==> forall k :: 0 <= k < i.value ==> !EndsWith(ToLower(names[k]), "stops.txt")
    ensures i.None? ==> forall k :: 0 <= k < |names| ==> !EndsWith(ToLower(names[k]), "stops.txt")
  {
    if names == [] then None
    else if EndsWith(ToLower(names[0]), "stops.txt") then Some(0)
    else
      match FindStopsEntry(names[1..])
      case None => None
      case Some(k) => Some(k + 1)
  }

  /**
   * The keys of the object `unzip` yields, in `Object.keys` order. The
   * parameter `unzip` gives that object as its entries, one per distinct
   * name, in key order, each holding the bytes the object holds for it.
   */
  function EntryNames(entries: seq<(string, seq<byte>)>): (names: seq<string>)
    ensures |names| == |entries| && forall k :: 0 <= k < |entries| ==> names[k] == entries[k].0
  {
    seq(|entries|, k requires 0 <= k < |entries| => entries[k].0)
  }

  /**
   * `parseStopsPayload`: an archive is unzipped and its first `stops.txt`
   * entry parsed; anything else is parsed as CSV text directly. `unzip`
   * returns `None` where the unzipper throws; `parseCsv` stands for the text
   * decoder and the CSV parser together.
   */
  function ParseStopsPayload(bytes: seq<byte>, contentType: Option<string>,
                             unzip: seq<byte> -> Option<seq<(string, seq<byte>)>>,
                             parseCsv: seq<byte> -> ParsedCsv): (r: Result<map<string, string>, LoadError>)
    ensures !IsZipPayload(bytes, contentType) ==> r == StopsTable(parseCsv(bytes))
    ensures IsZipPayload(bytes, contentType) && unzip(bytes).None? ==> r == Err(ArchiveUnreadable)
    ensures IsZipPayload(bytes, contentType) && unzip(bytes).Some? ==>
      match FindStopsEntry(EntryNames(unzip(bytes).value))
      case None => r == Err(NoStopsEntry)
      case Some(i) => r == StopsTable(parseCsv(unzip(bytes).value[i].1))
  {
    if IsZipPayload(bytes, contentType) then
      match unzip(bytes)
      case None => Err(ArchiveUnreadable)
      case Some(entries) =>
        match FindStopsEntry(EntryNames(entries))
        case None => Err(NoStopsEntry)
        case Some(i) => StopsTable(parseCsv(entries[i].1))
    else StopsTable(parseCsv(bytes))
  }

  // ---------------------------------------------------------------------
  // Loading from the two endpoints
  // ---------------------------------------------------------------------

  /** What one endpoint request yields: a rejected fetch, a non-OK status, or an OK body with its content type. */
  datatype StaticReply =
    | Unreachable
    | NotOk(status: int)
    | Body(bytes: seq<byte>, contentType: Option<string>)

  /** The request headers: always an `Accept`, and an `Authorization` header exactly when a key is set. */
  function StaticRequestHeaders(apiKey: string): (h: map<string, string>)
    ensures "Accept" in h && h["Accept"] == "application/zip, text/csv;q=0.9, */*;q=0.1"
    ensures "Authorization" in h <==> apiKey != ""
    ensures apiKey != "" ==> h["Authorization"] == "apikey " + apiKey
  {
    var h := map["Accept" := "application/zip, text/csv;q=0.9, */*;q=0.1"];
    if apiKey != "" then h["Authorization" := "apikey " + apiKey] else h
  }

  /** What one endpoint attempt comes to: its table, or why it failed. */
  function AttemptOutcome(reply: StaticReply, unzip: seq<byte> -> Option<seq<(string, seq<byte>)>>,
                          parseCsv: seq<byte> -> ParsedCsv): Result<map<string, string>, EndpointFailure>
  {
    match reply
    case Unreachable => Err(FetchOrDecode)
    case NotOk(status) => Err(HttpStatus(status))
    case Body(bytes, contentType) =>
      var parsed := ParseStopsPayload(bytes, contentType, unzip, parseCsv);
      if parsed.Ok? then Ok(parsed.value) else Err(FetchOrDecode)
  }

  /**
   * `loadStopNamesById`: tries the endpoints in order and returns the first
   * table that loads; a payload that fails to parse counts as a failure and
   * the next endpoint is tried. `fetch` gives the reply to a GET of an
   * endpoint with the given headers.
   */
  method LoadStopNamesById(apiKey: string, fetch: (string, map<string, string>) -> StaticReply,
                           unzip: seq<byte> -> Option<seq<(string, seq<byte>)>>,
                           parseCsv: seq<byte> -> ParsedCsv) returns (r: Result<map<string, string>, LoadError>)
    ensures r.Ok? ==> exists i :: (0 <= i < |StaticStopsEndpoints| &&
      AttemptOutcome(fetch(StaticStopsEndpoints[i], StaticRequestHeaders(apiKey)), unzip, parseCsv) == Ok(r.value) &&
      forall k :: 0 <= k < i ==> AttemptOutcome(fetch(StaticStopsEndpoints[k], StaticRequestHeaders(apiKey)), unzip, parseCsv).Err?)
    ensures r.Err? ==> r.error.AllEndpointsFailed? && |r.error.failures| == |StaticStopsEndpoints|
    ensures r.Err? ==> forall k :: 0 <= k < |StaticStopsEndpoints| ==>
      r.error.failures[k].0 == StaticStopsEndpoints[k] &&
      AttemptOutcome(fetch(StaticStopsEndpoints[k], StaticRequestHeaders(apiKey)), unzip, parseCsv) == Err(r.error.failures[k].1)
  {
    var failures: seq<(string, EndpointFailure)> := [];
    var i := 0;
    while i < |StaticStopsEndpoints|
      invariant 0 <= i <= |StaticStopsEndpoints|
      invariant |failures| == i
      invariant forall k :: 0 <= k < i ==>
        failures[k].0 == StaticStopsEndpoints[k] &&
        AttemptOutcome(fetch(StaticStopsEndpoints[k], StaticRequestHeaders(apiKey)), unzip, parseCsv) == Err(failures[k].1)
    {
      var endpoint := StaticStopsEndpoints[i];
      var outcome := AttemptOutcome(fetch(endpoint, StaticRequestHeaders(apiKey)), unzip, parseCsv);
      if outcome.Ok? {
        return Ok(outcome.value);
      }
      failures := failures + [(endpoint, outcome.error)];
      i := i + 1;
    }
    return Err(AllEndpointsFailed(failures));
  }

  // ---------------------------------------------------------------------
  // The table cache: TTL and a single pending load
  // ---------------------------------------------------------------------

  /** `stopNamesByIdCache`, `stopNamesByIdCacheLoadedAtMs` and whether `stopNamesByIdPromise` is set. */
  datatype IndexState = IndexState(table: Option<map<string, string>>, loadedAtMs: int, pending: bool)

  const InitialIndexState: IndexState := IndexState(None, 0, false)

  /** How a call to `getStopNamesById` is served. */
  datatype Lookup = ServedFromCache(table: map<string, string>) | StartedLoad | JoinedPendingLoad

  predicate IsFresh(st: IndexState, nowMs: int) {
    st.table.Some? && nowMs - st.loadedAtMs < StopNamesCacheTtlMs
  }

  /** One call of `getStopNamesById` at `nowMs`: the served outcome and the state after it. */
  function RequestIndex(st: IndexState, nowMs: int): (r: (Lookup, IndexState))
    ensures r.0.ServedFromCache? <==> IsFresh(st, nowMs)
    ensures r.0.ServedFromCache? ==> st.table == Some(r.0.table) && r.1 == st
    ensures r.0.StartedLoad? <==> !IsFresh(st, nowMs) && !st.pending
    ensures r.0.JoinedPendingLoad? ==> r.1 == st
    ensures r.1.table == st.table && r.1.loadedAtMs == st.loadedAtMs
    ensures r.1.pending == (st.pending || r.0.StartedLoad?)
  {
    if IsFresh(st, nowMs) then (ServedFromCache(st.table.value), st)
    else if !st.pending then (StartedLoad, st.(pending := true))
    else (JoinedPendingLoad, st)
  }

  /** The pending load finishing at `nowMs`: success installs the table and its time, failure keeps the old ones. */
  function SettleLoad(st: IndexState, result: Result<map<string, string>, LoadError>, nowMs: int): (r: IndexState)
    ensures !r.pending
    ensures result.Ok? ==> r.table == Some(result.value) && r.loadedAtMs == nowMs
    ensures result.Err? ==> r.table == st.table && r.loadedAtMs == st.loadedAtMs
  {
    if result.Ok? then IndexState(Some(result.value), nowMs, false)
    else st.(pending := false)
  }

  /** Calls with no load settling in between: the outcomes and the final state. */
  function RequestMany(st: IndexState, times: seq<int>): (seq<Lookup>, IndexState) {
    if times == [] then ([], st)
    else
      var (outcomes, mid) := RequestMany(st, times[..|times| - 1]);
      var (outcome, next) := RequestIndex(mid, times[|times| - 1]);
      (outcomes + [outcome], next)
  }

  function CountStarted(outcomes: seq<Lookup>): nat {
    if outcomes == [] then 0
    else CountStarted(outcomes[..|outcomes| - 1]) + (if outcomes[|outcomes| - 1].StartedLoad? then 1 else 0)
  }

  /**
   * Single flight: however many calls arrive while no load settles, at most
   * one starts a load, and none does if a load was already pending.
   */
  lemma {:induction false} SingleFlight(st: IndexState, times: seq<int>)
    ensures CountStarted(RequestMany(st, times).0) <= 1
    ensures st.pending ==> CountStarted(RequestMany(st, times).0) == 0
    ensures RequestMany(st, times).1.pending == (st.pending || CountStarted(RequestMany(st, times).0) == 1)
    ensures RequestMany(st, times).1.table == st.table
  {
    if times != [] {
      var init := times[..|times| - 1];
      SingleFlight(st, init);
      var (outcomes, mid) := RequestMany(st, init);
      var (outcome, next) := RequestIndex(mid, times[|times| - 1]);
      assert RequestMany(st, times).0 == outcomes + [outcome];
      assert (outcomes + [outcome])[..|outcomes|] == outcomes;
    }
  }

  /** After a successful load, calls within six hours are served that table without another load. */
  lemma FreshAfterLoad(st: IndexState, table: map<string, string>, loadedAtMs: int, nowMs: int)
    requires nowMs - loadedAtMs < StopNamesCacheTtlMs
    ensures RequestIndex(SettleLoad(st, Ok(table), loadedAtMs), nowMs).0 == ServedFromCache(table)
  {
  }

  /** Once six hours have passed, the next call with no pending load starts one, keeping the old table meanwhile. */
  lemma StaleStartsLoad(table: map<string, string>, loadedAtMs: int, nowMs: int)
    requires nowMs - loadedAtMs >= StopNamesCacheTtlMs
    ensures var r := RequestIndex(IndexState(Some(table), loadedAtMs, false), nowMs);
      r.0 == StartedLoad && r.1 == IndexState(Some(table), loadedAtMs, true)
  {
  }

  /** The module-level cache variables, updated in place. */
  class StopIndexCache {
    var table: Option<map<string, string>>
    var loadedAtMs: int
    var pending: bool

    function State(): IndexState
      reads this
    {
      IndexState(table, loadedAtMs, pending)
    }

    constructor ()
      ensures State() == InitialIndexState
    {
      table := None;
      loadedAtMs := 0;
      pending := false;
    }

    /** `getStopNamesById` up to the point where it returns the cached table or the (possibly new) pending load. */
    method GetStopNamesById(nowMs: int) returns (outcome: Lookup)
      modifies this
      ensures (outcome, State()) == RequestIndex(old(State()), nowMs)
    {
      if table.Some? && nowMs - loadedAtMs < StopNamesCacheTtlMs {
        return ServedFromCache(table.value);
      }
      if !pending {
        pending := true;
        return StartedLoad;
      }
      return JoinedPendingLoad;
    }

    /** The pending load's `then` and `finally` handlers. */
    method Settle(result: Result<map<string, string>, LoadError>, nowMs: int)
      modifies this
      ensures State() == SettleLoad(old(State()), result, nowMs)
    {
      if result.Ok? {
        table := Some(result.value);
        loadedAtMs := nowMs;
      }
      pending := false;
    }
  }

  // ---------------------------------------------------------------------
  // Requested ids
  // ---------------------------------------------------------------------

  /** The pieces of every raw value: split at commas, trimmed, empty ones dropped. */
  function Pieces(rawValues: seq<string>): seq<string> {
    if rawValues == [] then []
    else Pieces(rawValues[..|rawValues| - 1]) + NonEmptyTrimmed(Split(rawValues[|rawValues| - 1], ','))
  }

  /** `parseRequestedStopIds` as a value: the distinct pieces of all `ids` values then all `id` values. */
  function RequestedStopIds(idsParams: seq<string>, idParams: seq<string>): (r: seq<string>)
    ensures forall i, j :: 0 <= i < j < |r| ==> r[i] != r[j]
    ensures forall i :: 0 <= i < |r| ==> r[i] in Pieces(idsParams + idParams)
    ensures forall i :: 0 <= i < |Pieces(idsParams + idParams)| ==> Pieces(idsParams + idParams)[i] in r
  {
    Dedup(Pieces(idsParams + idParams))
  }

  lemma {:induction false} PiecesAreIds(rawValues: seq<string>)
    ensures forall x :: x in Pieces(rawValues) ==> IsTrimmedNonEmpty(x) && ',' !in x
  {
    if rawValues != [] {
      PiecesAreIds(rawValues[..|rawValues| - 1]);
      var parts := Split(rawValues[|rawValues| - 1], ',');
      NonEmptyTrimmedMembers(parts);
      forall x | x in NonEmptyTrimmed(parts) ensures ',' !in x {
        var k :| 0 <= k < |parts| && Trim(parts[k]) == x;
        TrimIsInfix(parts[k]);
      }
    }
  }

  /** A trimmed string is a piece of the original, so it adds no character. */
  lemma TrimIsInfix(s: string)
    ensures forall c :: c in Trim(s) ==> c in s
  {
    TrimCutsOnlySpace(s);
    var r := Trim(s);
    var i :| 0 <= i <= |s| - |r| && s[i..i + |r|] == r;
    forall c | c in r ensures c in s {
      var k :| 0 <= k < |r| && r[k] == c;
      assert s[i + k] == c;
    }
  }

  /** Requested ids are distinct, non-empty, trimmed and comma-free, and keep first-occurrence order. */
  lemma RequestedStopIdsShape(idsParams: seq<string>, idParams: seq<string>)
    ensures var r := RequestedStopIds(idsParams, idParams);
      forall i :: 0 <= i < |r| ==> IsTrimmedNonEmpty(r[i]) && ',' !in r[i]
    ensures var r := RequestedStopIds(idsParams, idParams);
      var p := Pieces(idsParams + idParams);
      forall i, j :: 0 <= i < j < |r| ==>
        r[i] in KeysOf(p, Id) && r[j] in KeysOf(p, Id) && FirstIndexOfKey(p, Id, r[i]) < FirstIndexOfKey(p, Id, r[j])
  {
    PiecesAreIds(idsParams + idParams);
    DedupFirstOccurrence(Pieces(idsParams + idParams));
  }

  /**
   * `parseRequestedStopIds`: for each raw value, for each comma-separated
   * piece, add the trimmed piece to an insertion-ordered set unless empty.
   */
  method ParseRequestedStopIds(idsParams: seq<string>, idParams: seq<string>) returns (stopIds: seq<string>)
    ensures stopIds == RequestedStopIds(idsParams, idParams)
  {
    var rawValues := idsParams + idParams;
    stopIds := [];
    var i := 0;
    while i < |rawValues|
      invariant 0 <= i <= |rawValues|
      invariant stopIds == Dedup(Pieces(rawValues[..i]))
    {
      PiecesPrefix(rawValues, i);
      stopIds := AddPieces(stopIds, Pieces(rawValues[..i]), Split(rawValues[i], ','));
      i := i + 1;
    }
    assert rawValues[..i] == rawValues;
  }

  lemma PiecesPrefix(rawValues: seq<string>, i: nat)
    requires i < |rawValues|
    ensures Pieces(rawValues[..i + 1]) == Pieces(rawValues[..i]) + NonEmptyTrimmed(Split(rawValues[i], ','))
  {
    assert rawValues[..i + 1][..i] == rawValues[..i];
  }

  /** One more piece: added at the end unless it is empty or already present. */
  lemma AddPieceStep(acc: seq<string>, piece: string)
    ensures var x := Trim(piece);
      Dedup(acc + NonEmptyTrimmed([piece])) == if x != "" && x !in Dedup(acc) then Dedup(acc) + [x] else Dedup(acc)
  {
    var x := Trim(piece);
    assert [piece][1..] == [];
    if x != "" {
      assert NonEmptyTrimmed([piece]) == [x];
      DedupSnoc(acc, x);
    } else {
      assert NonEmptyTrimmed([piece]) == [];
      assert acc + [] == acc;
    }
  }

  /** Taking the next raw piece off the rest and onto the pieces seen so far. */
  lemma AddPiecesStep(acc: seq<string>, parts: seq<string>, j: nat)
    requires j < |parts|
    ensures acc + NonEmptyTrimmed(parts[j..]) == (acc + NonEmptyTrimmed([parts[j]])) + NonEmptyTrimmed(parts[j + 1..])
  {
    assert parts[j..][1..] == parts[j + 1..];
    assert [parts[j]][1..] == [];
  }

  /** The inner loop of `parseRequestedStopIds`: the pieces of one raw value added to the set so far. */
  method AddPieces(stopIds: seq<string>, ghost seen: seq<string>, parts: seq<string>) returns (r: seq<string>)
    requires stopIds == Dedup(seen)
    ensures r == Dedup(seen + NonEmptyTrimmed(parts))
  {
    r := stopIds;
    ghost var acc := seen;
    assert parts[0..] == parts;
    var j := 0;
    while j < |parts|
      invariant 0 <= j <= |parts|
      invariant r == Dedup(acc)
      invariant acc + NonEmptyTrimmed(parts[j..]) == seen + NonEmptyTrimmed(parts)
    {
      var normalizedId := Trim(parts[j]);
      AddPieceStep(acc, parts[j]);
      AddPiecesStep(acc, parts, j);
      if normalizedId != "" && normalizedId !in r {
        r := r + [normalizedId];
      }
      acc := acc + NonEmptyTrimmed([parts[j]]);
      j := j + 1;
    }
    assert parts[j..] == [];
    assert acc + [] == acc;
  }

  // ---------------------------------------------------------------------
  // The handler
  // ---------------------------------------------------------------------

  /** The parts of a request the handler looks at; the query values are already URL-decoded. */
  datatype Request = Request(pathname: string, httpMethod: string, idsParams: seq<string>, idParams: seq<string>)

  datatype Response =
    | PassToNext
    | MethodNotAllowed
    | BadRequest
    | BadGateway(cause: LoadError)
    | StopNames(stopNamesById: map<string, string>, missingIds: seq<string>)

  function StatusCode(r: Response): int
    requires !r.PassToNext?
  {
    match r
    case MethodNotAllowed => 405
    case BadRequest => 400
    case BadGateway(_) => 502
    case StopNames(_, _) => 200
  }

  /**
   * The one key a plain object `{}` does not store: assigning a string to
   * `__proto__` goes to the prototype setter, which ignores it.
   */
  const ProtoKey: string := "__proto__"

  /**
   * The requested ids the table names (with a non-empty name), each with its
   * name. The answer is a plain object, so an id spelled `__proto__` is never
   * stored in it and ends up among the missing ids.
   */
  function ResolveNames(ids: seq<string>, table: map<string, string>): (m: map<string, string>)
    ensures forall id :: id in m <==> id in ids && id in table && table[id] != "" && id != ProtoKey
    ensures forall id :: id in m ==> m[id] == table[id]
  {
    map id | id in ids && id in table && table[id] != "" && id != ProtoKey :: table[id]
  }

  /** A requested id spelled `__proto__` is always reported missing, even when the table names it. */
  lemma ProtoIdReportedMissing(ids: seq<string>, table: map<string, string>)
    requires ProtoKey in ids
    ensures ProtoKey !in ResolveNames(ids, table)
    ensures ProtoKey in Filter(ids, (id: string) => id !in ResolveNames(ids, table))
  {
  }

  /** The resolution loop of the handler: one lookup per requested id. */
  method ResolveRequested(stopIds: seq<string>, stopNamesById: map<string, string>) returns (resolved: map<string, string>)
    ensures resolved == ResolveNames(stopIds, stopNamesById)
  {
    resolved := map[];
    var i := 0;
    while i < |stopIds|
      invariant 0 <= i <= |stopIds|
      invariant resolved == ResolveNames(stopIds[..i], stopNamesById)
    {
      var stopId := stopIds[i];
      assert stopIds[..i + 1] == stopIds[..i] + [stopId];
      if stopId in stopNamesById && stopNamesById[stopId] != "" && stopId != ProtoKey {
        resolved := resolved[stopId := stopNamesById[stopId]];
      }
      i := i + 1;
    }
    assert stopIds[..i] == stopIds;
  }

  /**
   * The two parts of an answer split the requested ids between them: each
   * id is either named or missing, and the missing ones appear once each in
   * request order.
   */
  lemma AnswerPartition(ids: seq<string>, table: map<string, string>)
    requires forall i, j :: 0 <= i < j < |ids| ==> ids[i] != ids[j]
    ensures var named := ResolveNames(ids, table);
      var missing := Filter(ids, (id: string) => id !in named);
      && (forall id :: id in ids ==> (id in named) != (id in missing))
      && (forall id :: id in named || id in missing ==> id in ids)
      && (forall i, j :: 0 <= i < j < |missing| ==> missing[i] != missing[j])
  {
    var named := ResolveNames(ids, table);
    FilterDistinct(ids, (id: string) => id !in named);
  }

  /**
   * The handler returned by `createStopNamesHandler`. `table` is what
   * `getStopNamesById` settles to for this request.
   */
  method HandleStopNames(req: Request, table: Result<map<string, string>, LoadError>) returns (resp: Response)
    ensures req.pathname != StopNamesEndpointPath <==> resp == PassToNext
    ensures req.pathname == StopNamesEndpointPath && req.httpMethod != "GET" ==> resp == MethodNotAllowed
    ensures req.pathname == StopNamesEndpointPath && req.httpMethod == "GET" ==>
      (RequestedStopIds(req.idsParams, req.idParams) == [] <==> resp == BadRequest)
    ensures resp.BadGateway? <==>
      req.pathname == StopNamesEndpointPath && req.httpMethod == "GET" &&
      RequestedStopIds(req.idsParams, req.idParams) != [] && table.Err?
    ensures resp.StopNames? <==>
      req.pathname == StopNamesEndpointPath && req.httpMethod == "GET" &&
      RequestedStopIds(req.idsParams, req.idParams) != [] && table.Ok?
    ensures resp.StopNames? ==> table.Ok?
    ensures resp.StopNames? && table.Ok? ==>
      resp.stopNamesById == ResolveNames(RequestedStopIds(req.idsParams, req.idParams), table.value)
    ensures resp.StopNames? ==>
      resp.missingIds == Filter(RequestedStopIds(req.idsParams, req.idParams), (id: string) => id !in resp.stopNamesById)
  {
    if req.pathname != StopNamesEndpointPath {
      return PassToNext;
    }
    if req.httpMethod != "GET" {
      return MethodNotAllowed;
    }
    var stopIds := ParseRequestedStopIds(req.idsParams, req.idParams);
    if |stopIds| == 0 {
      return BadRequest;
    }
    if table.Err? {
      return BadGateway(table.error);
    }
    var resolved := ResolveRequested(stopIds, table.value);
    var missingIds := Filter(stopIds, (id: string) => id !in resolved);
    return StopNames(resolved, missingIds);
  }
}
