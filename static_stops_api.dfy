/**
 * The browser-side stop-name cache. Two structures survive between calls: a
 * map from stop id to stop name, and a set of ids the server said it does not
 * know. A lookup normalises the ids it is given, asks the server only for ids
 * in neither structure (in batches of 250), merges every reply, and answers
 * from the name map.
 *
 * The server is a parameter `respond` from a batch of ids to its reply.
 */
module StaticStopsApi {
  import opened Common

  const StopNamesLookupPath: string := "/api/stop-names"
  const RequestChunkSize: nat := 250

  // ---------------------------------------------------------------------
  // Id normalisation
  // ---------------------------------------------------------------------

  /**
   * `normalizeStopIds`: `None` stands for a value that is not an array. The
   * ids are trimmed, empty ones dropped, and duplicates removed keeping the
   * first.
   */
  function NormalizeStopIds(stopIds: Option<seq<string>>): (r: seq<string>)
    ensures stopIds.None? ==> r == []
    ensures forall x :: x in r ==> IsTrimmedNonEmpty(x)
    ensures forall i, j :: 0 <= i < j < |r| ==> r[i] != r[j]
    ensures stopIds.Some? ==>
      forall x :: x in r <==> x != "" && exists k :: 0 <= k < |stopIds.value| && Trim(stopIds.value[k]) == x
  {
    if stopIds.None? then []
    else
      var candidates := NonEmptyTrimmed(stopIds.value);
      NonEmptyTrimmedMembers(stopIds.value);
      var r := Dedup(candidates);
      assert forall x :: x in r <==> x in candidates by {
        forall x | x in r ensures x in candidates {
          var i :| 0 <= i < |r| && r[i] == x;
        }
        forall x | x in candidates ensures x in r {
          var i :| 0 <= i < |candidates| && candidates[i] == x;
        }
      }
      r
  }

  /** The ids keep the order of their first occurrence among the trimmed, non-empty inputs. */
  lemma NormalizeStopIdsFirstOccurrence(raw: seq<string>)
    ensures var candidates := NonEmptyTrimmed(raw);
      var r := NormalizeStopIds(Some(raw));
      forall i, j :: 0 <= i < j < |r| ==>
        r[i] in KeysOf(candidates, Id) && r[j] in KeysOf(candidates, Id) &&
        FirstIndexOfKey(candidates, Id, r[i]) < FirstIndexOfKey(candidates, Id, r[j])
  {
    DedupFirstOccurrence(NonEmptyTrimmed(raw));
  }

  // ---------------------------------------------------------------------
  // Batching
  // ---------------------------------------------------------------------

  /** The batches `chunkArray` cuts `items` into: consecutive slices of `size`, the last possibly shorter. */
  function Chunks<T>(items: seq<T>, size: nat): seq<seq<T>>
    requires size > 0
    decreases |items|
  {
    if items == [] then []
    else if |items| <= size then [items]
    else [items[..size]] + Chunks(items[size..], size)
  }

  function Concat<T>(parts: seq<seq<T>>): seq<T> {
    if parts == [] then [] else parts[0] + Concat(parts[1..])
  }

  /** Batches are non-empty, at most `size` long, all but the last exactly `size`, and together give back `items`. */
  lemma {:induction false} ChunksProperties<T>(items: seq<T>, size: nat)
    requires size > 0
    ensures Concat(Chunks(items, size)) == items
    ensures forall k :: 0 <= k < |Chunks(items, size)| ==> 0 < |Chunks(items, size)[k]| <= size
    ensures forall k :: 0 <= k < |Chunks(items, size)| - 1 ==> |Chunks(items, size)[k]| == size
    decreases |items|
  {
    if items != [] && |items| > size {
      ChunksProperties(items[size..], size);
      assert items[..size] + items[size..] == items;
      var cs := Chunks(items, size);
      assert cs[1..] == Chunks(items[size..], size);
    } else if items != [] {
      assert Concat(Chunks(items, size)) == items + [];
    }
  }

  lemma {:induction false} InConcat<T>(parts: seq<seq<T>>, x: T)
    requires x in Concat(parts)
    ensures exists k :: 0 <= k < |parts| && x in parts[k]
  {
    if x !in parts[0] {
      InConcat(parts[1..], x);
      var k :| 0 <= k < |parts[1..]| && x in parts[1..][k];
      assert x in parts[k + 1];
    }
  }

  lemma {:induction false} ConcatContains<T>(parts: seq<seq<T>>, k: nat, x: T)
    requires k < |parts| && x in parts[k]
    ensures x in Concat(parts)
  {
    if k > 0 {
      ConcatContains(parts[1..], k - 1, x);
    }
  }

  /** `chunkArray`: an index loop that steps by `chunkSize` and slices. */
  method ChunkArray<T>(items: seq<T>, chunkSize: nat) returns (chunks: seq<seq<T>>)
    requires chunkSize > 0
    ensures chunks == Chunks(items, chunkSize)
    ensures Concat(chunks) == items
    ensures forall k :: 0 <= k < |chunks| ==> 0 < |chunks[k]| <= chunkSize
    ensures forall k :: 0 <= k < |chunks| - 1 ==> |chunks[k]| == chunkSize
  {
    chunks := [];
    var index := 0;
    while index < |items|
      invariant 0 <= index
      invariant index <= |items| ==> chunks + Chunks(items[index..], chunkSize) == Chunks(items, chunkSize)
      invariant index > |items| ==> chunks == Chunks(items, chunkSize)
    {
      var end := if index + chunkSize < |items| then index + chunkSize else |items|;
      var rest := items[index..];
      if |rest| > chunkSize {
        assert rest[..chunkSize] == items[index..end];
        assert rest[chunkSize..] == items[index + chunkSize..];
        assert Chunks(rest, chunkSize) == [items[index..end]] + Chunks(items[index + chunkSize..], chunkSize);
      } else {
        assert items[index..end] == rest;
        assert Chunks(rest, chunkSize) == [rest];
      }
      chunks := chunks + [items[index..end]];
      index := index + chunkSize;
      if index == |items| {
        assert Chunks(items[index..], chunkSize) == [];
        assert chunks + [] == chunks;
      }
    }
    if index == |items| {
      assert chunks + [] == chunks;
    }
    ChunksProperties(items, chunkSize);
  }

  // ---------------------------------------------------------------------
  // Cache state and merging a reply
  // ---------------------------------------------------------------------

  /** `stopNamesByIdCache` and `unresolvedStopIds`. */
  datatype CacheState = CacheState(names: map<string, string>, unresolved: set<string>)

  /** Every cached id and name is a non-empty trimmed string, and no id is both named and unresolved. */
  predicate CacheValid(st: CacheState) {
    && (forall id :: id in st.names ==> IsTrimmedNonEmpty(id) && IsTrimmedNonEmpty(st.names[id]))
    && (forall id :: id in st.unresolved ==> IsTrimmedNonEmpty(id))
    && st.names.Keys !! st.unresolved
  }

  /** The id needs no request: the cache has a name for it or knows the server has none. */
  predicate Known(st: CacheState, id: string) {
    id in st.names || id in st.unresolved
  }

  /**
   * What one batch request comes back with. `Failed` is a request that
   * rejects (network error, abort, a body that is not JSON); `NotOk` a
   * non-2xx status; `Payload` the decoded body, each field `None` when it is
   * missing or of the wrong type.
   */
  datatype ChunkReply =
    | Failed
    | NotOk(status: int, bodyText: string)
    | Payload(stopNamesById: Option<seq<(string, string)>>, missingIds: Option<seq<string>>)

  /** One `[stopId, stopName]` entry: both trimmed; an entry with an empty side is skipped. */
  function MergeEntry(st: CacheState, entry: (string, string)): (r: CacheState)
    ensures r.names.Keys >= st.names.Keys
    ensures Trim(entry.0) != "" && Trim(entry.1) != "" ==>
      r.names == st.names[Trim(entry.0) := Trim(entry.1)] && r.unresolved == st.unresolved - {Trim(entry.0)}
    ensures Trim(entry.0) == "" || Trim(entry.1) == "" ==> r == st
  {
    var id := Trim(entry.0);
    var name := Trim(entry.1);
    if id == "" || name == "" then st
    else CacheState(st.names[id := name], st.unresolved - {id})
  }

  function MergeEntries(st: CacheState, entries: seq<(string, string)>): CacheState {
    if entries == [] then st
    else MergeEntry(MergeEntries(st, entries[..|entries| - 1]), entries[|entries| - 1])
  }

  /** A missing id becomes unresolved unless the name cache has it. */
  function MarkMissingId(st: CacheState, id: string): CacheState {
    if id in st.names then st else CacheState(st.names, st.unresolved + {id})
  }

  function MarkMissing(st: CacheState, ids: seq<string>): CacheState {
    if ids == [] then st
    else MarkMissingId(MarkMissing(st, ids[..|ids| - 1]), ids[|ids| - 1])
  }

  function ReplyEntries(reply: ChunkReply): seq<(string, string)> {
    if reply.Payload? && reply.stopNamesById.Some? then reply.stopNamesById.value else []
  }

  function ReplyMissing(reply: ChunkReply): seq<string> {
    if reply.Payload? && reply.missingIds.Some? then NonEmptyTrimmed(reply.missingIds.value) else []
  }

  /** The cache after one batch: names merged first, then the missing ids; a failed batch changes nothing. */
  function ApplyReply(st: CacheState, reply: ChunkReply): CacheState {
    if reply.Payload? then MarkMissing(MergeEntries(st, ReplyEntries(reply)), ReplyMissing(reply)) else st
  }

  lemma {:induction false} MergeEntriesKeepsValid(st: CacheState, entries: seq<(string, string)>)
    requires CacheValid(st)
    ensures CacheValid(MergeEntries(st, entries))
  {
    if entries != [] {
      MergeEntriesKeepsValid(st, entries[..|entries| - 1]);
    }
  }

  lemma {:induction false} MarkMissingKeepsValid(st: CacheState, ids: seq<string>)
    requires CacheValid(st)
    requires forall id :: id in ids ==> IsTrimmedNonEmpty(id)
    ensures CacheValid(MarkMissing(st, ids))
    ensures MarkMissing(st, ids).names == st.names
  {
    if ids != [] {
      assert forall id :: id in ids[..|ids| - 1] ==> id in ids;
      MarkMissingKeepsValid(st, ids[..|ids| - 1]);
      assert ids[|ids| - 1] in ids;
    }
  }

  /** Merging a reply keeps the cache valid: in particular the two structures stay disjoint. */
  lemma ApplyReplyKeepsValid(st: CacheState, reply: ChunkReply)
    requires CacheValid(st)
    ensures CacheValid(ApplyReply(st, reply))
  {
    if reply.Payload? {
      if reply.missingIds.Some? {
        NonEmptyTrimmedMembers(reply.missingIds.value);
      }
      MergeEntriesKeepsValid(st, ReplyEntries(reply));
      MarkMissingKeepsValid(MergeEntries(st, ReplyEntries(reply)), ReplyMissing(reply));
    }
  }

  lemma {:induction false} MergeEntriesMonotone(st: CacheState, entries: seq<(string, string)>, id: string)
    requires Known(st, id)
    ensures Known(MergeEntries(st, entries), id)
    ensures MergeEntries(st, entries).names.Keys >= st.names.Keys
  {
    if entries != [] {
      MergeEntriesMonotone(st, entries[..|entries| - 1], id);
    }
  }

  lemma {:induction false} MarkMissingMonotone(st: CacheState, ids: seq<string>, id: string)
    ensures Known(st, id) ==> Known(MarkMissing(st, ids), id)
    ensures MarkMissing(st, ids).names == st.names
    ensures id in ids ==> Known(MarkMissing(st, ids), id)
  {
    if ids != [] {
      MarkMissingMonotone(st, ids[..|ids| - 1], id);
      if id != ids[|ids| - 1] && id in ids {
        assert id in ids[..|ids| - 1];
      }
    }
  }

  /** Nothing the cache knows is ever forgotten. */
  lemma ApplyReplyMonotone(st: CacheState, reply: ChunkReply, id: string)
    requires Known(st, id)
    ensures Known(ApplyReply(st, reply), id)
  {
    if reply.Payload? {
      MergeEntriesMonotone(st, ReplyEntries(reply), id);
      MarkMissingMonotone(MergeEntries(st, ReplyEntries(reply)), ReplyMissing(reply), id);
    }
  }

  /** The reply names `id` (with a non-empty name) or lists it as missing. */
  predicate Answers(reply: ChunkReply, id: string) {
    reply.Payload? && id != "" &&
    ((exists e :: e in ReplyEntries(reply) && Trim(e.0) == id && Trim(e.1) != "") || id in ReplyMissing(reply))
  }

  lemma {:induction false} MergeEntriesNames(st: CacheState, entries: seq<(string, string)>, e: (string, string))
    requires e in entries && Trim(e.0) != "" && Trim(e.1) != ""
    ensures Trim(e.0) in MergeEntries(st, entries).names
  {
    var last := entries[|entries| - 1];
    var init := entries[..|entries| - 1];
    if e != last {
      assert e in init;
      MergeEntriesNames(st, init, e);
    }
  }

  lemma MissingIdIsKnown(st: CacheState, reply: ChunkReply, id: string)
    requires reply.Payload? && id in ReplyMissing(reply)
    ensures Known(ApplyReply(st, reply), id)
  {
    MarkMissingMonotone(MergeEntries(st, ReplyEntries(reply)), ReplyMissing(reply), id);
  }

  lemma NamedIdIsKnown(st: CacheState, reply: ChunkReply, e: (string, string))
    requires reply.Payload? && e in ReplyEntries(reply) && Trim(e.0) != "" && Trim(e.1) != ""
    ensures Trim(e.0) in ApplyReply(st, reply).names
  {
    var merged := MergeEntries(st, ReplyEntries(reply));
    MergeEntriesNames(st, ReplyEntries(reply), e);
    MarkMissingMonotone(merged, ReplyMissing(reply), Trim(e.0));
  }

  /** An id the reply answers is known once the reply is merged. */
  lemma ApplyReplyAnswers(st: CacheState, reply: ChunkReply, id: string)
    requires Answers(reply, id)
    ensures Known(ApplyReply(st, reply), id)
  {
    if id in ReplyMissing(reply) {
      MissingIdIsKnown(st, reply, id);
    } else {
      var e :| e in ReplyEntries(reply) && Trim(e.0) == id && Trim(e.1) != "";
      NamedIdIsKnown(st, reply, e);
    }
  }

  /** The cache after the batches `requests` were sent in order and their replies merged. */
  function Replay(st: CacheState, requests: seq<seq<string>>, respond: seq<string> -> ChunkReply): CacheState {
    if requests == [] then st
    else ApplyReply(Replay(st, requests[..|requests| - 1], respond), respond(requests[|requests| - 1]))
  }

  lemma ReplaySnoc(st: CacheState, requests: seq<seq<string>>, batch: seq<string>, respond: seq<string> -> ChunkReply)
    ensures Replay(st, requests + [batch], respond) == ApplyReply(Replay(st, requests, respond), respond(batch))
  {
    assert (requests + [batch])[..|requests|] == requests;
  }

  lemma {:induction false} ReplayKeepsValid(st: CacheState, requests: seq<seq<string>>, respond: seq<string> -> ChunkReply)
    requires CacheValid(st)
    ensures CacheValid(Replay(st, requests, respond))
  {
    if requests != [] {
      ReplayKeepsValid(st, requests[..|requests| - 1], respond);
      ApplyReplyKeepsValid(Replay(st, requests[..|requests| - 1], respond), respond(requests[|requests| - 1]));
    }
  }

  /** An id stays known across any sequence of replies. */
  lemma {:induction false} ReplayMonotone(st: CacheState, requests: seq<seq<string>>, respond: seq<string> -> ChunkReply, id: string)
    requires Known(st, id)
    ensures Known(Replay(st, requests, respond), id)
  {
    if requests != [] {
      ReplayMonotone(st, requests[..|requests| - 1], respond, id);
      ApplyReplyMonotone(Replay(st, requests[..|requests| - 1], respond), respond(requests[|requests| - 1]), id);
    }
  }

  lemma ReplayMonotoneAll(st: CacheState, requests: seq<seq<string>>, respond: seq<string> -> ChunkReply)
    ensures forall id :: Known(st, id) ==> Known(Replay(st, requests, respond), id)
  {
    forall id | Known(st, id) ensures Known(Replay(st, requests, respond), id) {
      ReplayMonotone(st, requests, respond, id);
    }
  }

  /** An id that the reply to batch `k` answered is known after all the batches. */
  lemma {:induction false} ReplayAnswered(st: CacheState, requests: seq<seq<string>>, respond: seq<string> -> ChunkReply,
                                          id: string, k: nat)
    requires k < |requests| && Answers(respond(requests[k]), id)
    ensures Known(Replay(st, requests, respond), id)
  {
    var init := requests[..|requests| - 1];
    var before := Replay(st, init, respond);
    if k == |requests| - 1 {
      ApplyReplyAnswers(before, respond(requests[k]), id);
    } else {
      assert init[k] == requests[k];
      ReplayAnswered(st, init, respond, id, k);
      ApplyReplyMonotone(before, respond(requests[|requests| - 1]), id);
    }
  }

  /**
   * After sending every batch of the unknown ids of `ids`, when each reply
   * answered every id of its batch, every id of `ids` is known.
   */
  lemma FullyAnsweredIdsKnown(st: CacheState, ids: seq<string>, respond: seq<string> -> ChunkReply)
    requires forall x :: x in ids ==> x != ""
    requires var requests := Chunks(MissingIds(st, ids), RequestChunkSize);
      forall k, id :: 0 <= k < |requests| && id in requests[k] && id != "" ==> Answers(respond(requests[k]), id)
    ensures forall id :: id in ids ==> Known(Replay(st, Chunks(MissingIds(st, ids), RequestChunkSize), respond), id)
  {
    var missing := MissingIds(st, ids);
    var requests := Chunks(missing, RequestChunkSize);
    ChunksProperties(missing, RequestChunkSize);
    forall id | id in ids ensures Known(Replay(st, requests, respond), id) {
      if Known(st, id) {
        ReplayMonotone(st, requests, respond, id);
      } else {
        assert id in missing;
        InConcat(requests, id);
        var k :| 0 <= k < |requests| && id in requests[k];
        ReplayAnswered(st, requests, respond, id, k);
      }
    }
  }

  /** The ids of `ids` that are in neither structure, in their order. */
  function MissingIds(st: CacheState, ids: seq<string>): (r: seq<string>)
    ensures forall x :: x in r <==> x in ids && !Known(st, x)
  {
    Filter(ids, (id: string) => !Known(st, id))
  }

  /** `buildResultMap`: the requested ids that have a cached, non-empty name. */
  function BuildResultMap(names: map<string, string>, stopIds: seq<string>): (r: map<string, string>)
    ensures forall id :: id in r <==> id in stopIds && id in names && names[id] != ""
    ensures forall id :: id in r ==> r[id] == names[id]
  {
    if stopIds == [] then map[]
    else
      var init := stopIds[..|stopIds| - 1];
      var id := stopIds[|stopIds| - 1];
      var m := BuildResultMap(names, init);
      assert stopIds == init + [id];
      if id in names && names[id] != "" then m[id := names[id]] else m
  }

  // ---------------------------------------------------------------------
  // The cache object
  // ---------------------------------------------------------------------

  class StopNameCache {
    var names: map<string, string>
    var unresolved: set<string>

    function State(): CacheState
      reads this
    {
      CacheState(names, unresolved)
    }

    ghost predicate Valid()
      reads this
    {
      CacheValid(State())
    }

    constructor ()
      ensures Valid() && names == map[] && unresolved == {}
    {
      names := map[];
      unresolved := {};
    }

    /**
     * `requestStopNamesChunk`: sends one batch and merges the reply; a
     * failed or non-OK reply leaves both structures as they were.
     */
    method RequestStopNamesChunk(stopIds: seq<string>, respond: seq<string> -> ChunkReply) returns (reply: ChunkReply)
      requires Valid()
      modifies this
      ensures reply == respond(stopIds)
      ensures State() == ApplyReply(old(State()), reply)
      ensures !reply.Payload? ==> names == old(names) && unresolved == old(unresolved)
      ensures Valid()
    {
      reply := respond(stopIds);
      if !reply.Payload? {
        return;
      }
      ghost var st0 := State();
      MergeNames(ReplyEntries(reply));
      MarkMissingIds(ReplyMissing(reply));
      ApplyReplyKeepsValid(st0, reply);
    }

    /** The loop over the reply's `[stopId, stopName]` entries. */
    method MergeNames(entries: seq<(string, string)>)
      modifies this
      ensures State() == MergeEntries(old(State()), entries)
    {
      ghost var st0 := State();
      var k := 0;
      while k < |entries|
        invariant 0 <= k <= |entries|
        invariant State() == MergeEntries(st0, entries[..k])
      {
        var id := Trim(entries[k].0);
        var name := Trim(entries[k].1);
        assert entries[..k + 1][..k] == entries[..k];
        if id != "" && name != "" {
          unresolved := unresolved - {id};
          names := names[id := name];
        }
        k := k + 1;
      }
      assert entries[..k] == entries;
    }

    /** The loop over the reply's missing ids. */
    method MarkMissingIds(missingIds: seq<string>)
      modifies this
      ensures State() == MarkMissing(old(State()), missingIds)
    {
      ghost var st1 := State();
      var k := 0;
      while k < |missingIds|
        invariant 0 <= k <= |missingIds|
        invariant State() == MarkMissing(st1, missingIds[..k])
      {
        var id := missingIds[k];
        assert missingIds[..k + 1][..k] == missingIds[..k];
        if id !in names {
          unresolved := unresolved + {id};
        }
        k := k + 1;
      }
      assert missingIds[..k] == missingIds;
    }

    /**
     * The `for (const chunk of chunks)` loop of `fetchStopNamesByIds`: the
     * batches are sent strictly in order and the first failed one ends the
     * loop, its reply returned as `failure`.
     */
    method SendBatches(chunks: seq<seq<string>>, respond: seq<string> -> ChunkReply)
      returns (failure: Option<ChunkReply>, requests: seq<seq<string>>)
      requires Valid()
      modifies this
      ensures Valid()
      ensures State() == Replay(old(State()), requests, respond)
      ensures requests <= chunks
      ensures forall k :: 0 <= k < |requests| - 1 ==> respond(requests[k]).Payload?
      ensures failure.None? ==> requests == chunks && forall k :: 0 <= k < |requests| ==> respond(requests[k]).Payload?
      ensures failure.Some? ==> requests != [] && failure.value == respond(requests[|requests| - 1]) && !failure.value.Payload?
      ensures forall id :: Known(old(State()), id) ==> Known(State(), id)
    {
      ghost var st0 := State();
      requests := [];
      var i := 0;
      while i < |chunks|
        invariant 0 <= i <= |chunks|
        invariant requests == chunks[..i]
        invariant forall k :: 0 <= k < i ==> respond(requests[k]).Payload?
        invariant Valid()
        invariant State() == Replay(st0, requests, respond)
      {
        var reply := RequestStopNamesChunk(chunks[i], respond);
        ReplaySnoc(st0, requests, chunks[i], respond);
        requests := requests + [chunks[i]];
        if !reply.Payload? {
          ReplayMonotoneAll(st0, requests, respond);
          return Some(reply), requests;
        }
        i := i + 1;
      }
      assert requests == chunks;
      ReplayMonotoneAll(st0, requests, respond);
      failure := None;
    }

    /**
     * The part of `fetchStopNamesByIds` after normalisation: asks only for
     * the ids in neither structure, in batches of 250 sent one after another;
     * the first failed batch ends the call with its reply as the error. On
     * success the answer is the cached names of `ids`.
     */
    method ResolveIds(ids: seq<string>, respond: seq<string> -> ChunkReply)
      returns (r: Result<map<string, string>, ChunkReply>, requests: seq<seq<string>>)
      requires Valid()
      requires forall x :: x in ids ==> x != ""
      modifies this
      ensures Valid()
      ensures State() == Replay(old(State()), requests, respond)
      ensures requests <= Chunks(MissingIds(old(State()), ids), RequestChunkSize)
      ensures forall k :: 0 <= k < |requests| - 1 ==> respond(requests[k]).Payload?
      ensures r.Ok? ==> requests == Chunks(MissingIds(old(State()), ids), RequestChunkSize)
      ensures r.Ok? ==> r.value == BuildResultMap(names, ids)
      ensures r.Err? ==> requests != [] && r.error == respond(requests[|requests| - 1]) && !r.error.Payload?
      ensures (forall id :: id in ids ==> Known(old(State()), id)) ==> requests == []
      ensures forall id :: Known(old(State()), id) ==> Known(State(), id)
      ensures r.Ok? && (forall k, id :: 0 <= k < |requests| && id in requests[k] && id != "" ==> Answers(respond(requests[k]), id)) ==>
        forall id :: id in ids ==> Known(State(), id)
    {
      ghost var st0 := State();
      var missingStopIds := MissingIds(State(), ids);
      if |missingStopIds| > 0 {
        assert missingStopIds[0] in ids && !Known(st0, missingStopIds[0]);
        var chunks := ChunkArray(missingStopIds, RequestChunkSize);
        var failure;
        failure, requests := SendBatches(chunks, respond);
        if failure.Some? {
          return Err(failure.value), requests;
        }
      } else {
        assert Chunks(missingStopIds, RequestChunkSize) == [];
        requests := [];
      }
      r := Ok(BuildResultMap(names, ids));
      if forall k, id :: 0 <= k < |requests| && id in requests[k] && id != "" ==> Answers(respond(requests[k]), id) {
        FullyAnsweredIdsKnown(st0, ids, respond);
      }
    }

    /**
     * `fetchStopNamesByIds`: normalises the ids; with none left the answer is
     * empty and nothing is sent, otherwise the ids are resolved as above.
     */
    method FetchStopNamesByIds(stopIds: Option<seq<string>>, respond: seq<string> -> ChunkReply)
      returns (r: Result<map<string, string>, ChunkReply>, requests: seq<seq<string>>)
      requires Valid()
      modifies this
      ensures Valid()
      ensures State() == Replay(old(State()), requests, respond)
      ensures requests <= Chunks(MissingIds(old(State()), NormalizeStopIds(stopIds)), RequestChunkSize)
      ensures forall k :: 0 <= k < |requests| - 1 ==> respond(requests[k]).Payload?
      ensures r.Ok? ==> requests == Chunks(MissingIds(old(State()), NormalizeStopIds(stopIds)), RequestChunkSize)
      ensures r.Ok? ==> r.value == BuildResultMap(names, NormalizeStopIds(stopIds))
      ensures r.Err? ==> requests != [] && r.error == respond(requests[|requests| - 1]) && !r.error.Payload?
      ensures NormalizeStopIds(stopIds) == [] ==> r == Ok(map[]) && requests == []
      ensures (forall id :: id in NormalizeStopIds(stopIds) ==> Known(old(State()), id)) ==> requests == []
      ensures forall id :: Known(old(State()), id) ==> Known(State(), id)
      ensures r.Ok? && (forall k, id :: 0 <= k < |requests| && id in requests[k] && id != "" ==> Answers(respond(requests[k]), id)) ==>
        forall id :: id in NormalizeStopIds(stopIds) ==> Known(State(), id)
    {
      var normalizedStopIds := NormalizeStopIds(stopIds);
      if |normalizedStopIds| == 0 {
        return Ok(map[]), [];
      }
      r, requests := ResolveIds(normalizedStopIds, respond);
    }
  }

  /**
   * A second lookup of the same ids after a first one that every batch reply
   * fully answered sends no request at all.
   */
  method LookupTwice(cache: StopNameCache, stopIds: Option<seq<string>>, respond: seq<string> -> ChunkReply)
    returns (first: Result<map<string, string>, ChunkReply>, second: Result<map<string, string>, ChunkReply>,
             firstRequests: seq<seq<string>>, secondRequests: seq<seq<string>>)
    requires cache.Valid()
    requires forall ids, id :: id in ids && IsTrimmedNonEmpty(id) ==> Answers(respond(ids), id)
    modifies cache
    ensures first.Ok? ==> secondRequests == [] && second.Ok? && second.value == first.value
  {
    ghost var st0 := cache.State();
    ghost var ids := NormalizeStopIds(stopIds);
    first, firstRequests := cache.FetchStopNamesByIds(stopIds, respond);
    ghost var st1 := cache.State();
    if first.Ok? {
      ghost var missing := MissingIds(st0, ids);
      ChunksProperties(missing, RequestChunkSize);
      forall k, id | 0 <= k < |firstRequests| && id in firstRequests[k] && id != ""
        ensures Answers(respond(firstRequests[k]), id)
      {
        ConcatContains(firstRequests, k, id);
        assert id in missing;
      }
    }
    second, secondRequests := cache.FetchStopNamesByIds(stopIds, respond);
    if first.Ok? {
      assert cache.State() == Replay(st1, [], respond) == st1;
    }
  }
}
