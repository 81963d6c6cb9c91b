/**
  `/get_detections/<session_id>`: which stored detections answer a query, given
  the live detection index, the history file, the latest-detections cache and
  the current time. The order of the sources is the cascade of lines 1058-1114.
*/
module Queries {
  import opened Wrappers
  import opened Domain
  import opened Fifo
  import opened History
  import opened Worker

  /** The JSON reply; `frame` is present only when a sample of an index answered. */
  datatype Reply = Reply(detections: seq<Detection>, width: int, height: int, frame: Option<nat>)

  /** Line 1114: nothing known. */
  const EmptyReply: Reply := Reply([], 0, 0, None)

  /** The webcam session's key in the latest-detections cache. */
  const RealtimeSession: string := "realtime"

  /** Line 1096: how many seconds a cached result stays usable. */
  function MaxAge(id: string): real {
    if id != RealtimeSession then 3600.0 else 5.0
  }

  function FromSample(s: Sample): Reply {
    Reply(s.detections, s.width, s.height, Some(s.frame))
  }

  /** The sample `min(..., key=abs(frame - q))` picks. */
  function Nearest(samples: seq<Sample>, q: int): Sample
    requires |samples| > 0
  {
    samples[NearestIndex(samples, q)]
  }

  /** The truthy `frames_detections` of a history record, or nothing. */
  function PersistedIndex(e: Option<Entry>): seq<Sample> {
    if e.Some? && e.value.framesDetections.Some? then e.value.framesDetections.value else []
  }

  /** The truthy `detections` of a history record, or nothing. */
  function StoredDetections(e: Option<Entry>): seq<Detection> {
    if e.Some? && e.value.detections.Some? then e.value.detections.value else []
  }

  /** Whether the cached result for `id` is younger than its maximum age at time `now`. */
  predicate FreshIn(cache: map<string, Latest>, id: string, now: real) {
    id in cache && now - cache[id].timestamp < MaxAge(id)
  }

  /**
    The cascade: for a processed video asked about a frame, the nearest sample
    of the live index, else of the persisted index; then a fresh cached result;
    then, for a processed video, the detections its history record keeps, with
    width and height 0 when the record lacks them; else nothing.
  */
  function GetDetections(id: string, frameQuery: Option<int>, live: map<string, seq<Sample>>,
                         history: seq<Entry>, cache: map<string, Latest>, now: real): Reply
  {
    var entry := Lookup(history, id);
    if id != RealtimeSession && frameQuery.Some? && Get(live, id) != [] then
      FromSample(Nearest(Get(live, id), frameQuery.value))
    else if id != RealtimeSession && frameQuery.Some? && PersistedIndex(entry) != [] then
      FromSample(Nearest(PersistedIndex(entry), frameQuery.value))
    else if FreshIn(cache, id, now) then
      Reply(cache[id].detections, cache[id].width, cache[id].height, None)
    else if id != RealtimeSession && StoredDetections(entry) != [] then
      Reply(entry.value.detections.value, entry.value.width.GetOr(0), entry.value.height.GetOr(0), None)
    else EmptyReply
  }

  /** `r` is the reply of a sample of `samples` closest to frame q, the first of the closest. */
  ghost predicate NearestReply(r: Reply, samples: seq<Sample>, q: int) {
    exists k :: 0 <= k < |samples| && r == FromSample(samples[k]) &&
      (forall j :: 0 <= j < |samples| ==> Distance(samples[k], q) <= Distance(samples[j], q)) &&
      (forall j :: 0 <= j < k ==> Distance(samples[k], q) < Distance(samples[j], q))
  }

  /** A reply names a frame exactly when a processed video was asked about a frame and one of its indexes is not empty. */
  lemma FrameReplies(id: string, q: Option<int>, live: map<string, seq<Sample>>,
                     history: seq<Entry>, cache: map<string, Latest>, now: real)
    ensures var r := GetDetections(id, q, live, history, cache, now);
            r.frame.Some? <==>
              id != RealtimeSession && q.Some? && (Get(live, id) != [] || PersistedIndex(Lookup(history, id)) != [])
  {
  }

  /** The live index answers first: the nearest of its samples, the first one on ties. */
  lemma LiveIndexFirst(id: string, q: int, live: map<string, seq<Sample>>,
                       history: seq<Entry>, cache: map<string, Latest>, now: real)
    requires id != RealtimeSession && Get(live, id) != []
    ensures NearestReply(GetDetections(id, Some(q), live, history, cache, now), Get(live, id), q)
  {
    var k := NearestIndex(Get(live, id), q);
    assert GetDetections(id, Some(q), live, history, cache, now) == FromSample(Get(live, id)[k]);
  }

  /** With an empty live index (after a restart or a delete), the history record's index answers. */
  lemma PersistedIndexNext(id: string, q: int, live: map<string, seq<Sample>>,
                           history: seq<Entry>, cache: map<string, Latest>, now: real)
    requires id != RealtimeSession && Get(live, id) == [] && PersistedIndex(Lookup(history, id)) != []
    ensures NearestReply(GetDetections(id, Some(q), live, history, cache, now), PersistedIndex(Lookup(history, id)), q)
  {
    var s := PersistedIndex(Lookup(history, id));
    var k := NearestIndex(s, q);
    assert GetDetections(id, Some(q), live, history, cache, now) == FromSample(s[k]);
  }

  /** Without a frame answer, a fresh cached result wins over the history record. */
  lemma FreshCacheNext(id: string, q: Option<int>, live: map<string, seq<Sample>>,
                       history: seq<Entry>, cache: map<string, Latest>, now: real)
    requires id == RealtimeSession || q.None? || (Get(live, id) == [] && PersistedIndex(Lookup(history, id)) == [])
    requires FreshIn(cache, id, now)
    ensures GetDetections(id, q, live, history, cache, now) ==
              Reply(cache[id].detections, cache[id].width, cache[id].height, None)
  {
  }

  /**
    A result cached `MaxAge` seconds ago or earlier is never served: the reply is
    the history record's detections, or nothing.
  */
  lemma StaleCacheSkipped(id: string, q: Option<int>, live: map<string, seq<Sample>>,
                          history: seq<Entry>, cache: map<string, Latest>, now: real)
    requires id == RealtimeSession || q.None? || (Get(live, id) == [] && PersistedIndex(Lookup(history, id)) == [])
    requires id in cache && now - cache[id].timestamp >= MaxAge(id)
    ensures var r := GetDetections(id, q, live, history, cache, now);
            var e := Lookup(history, id);
            r == if id != RealtimeSession && StoredDetections(e) != []
                 then Reply(StoredDetections(e), e.value.width.GetOr(0), e.value.height.GetOr(0), None)
                 else EmptyReply
  {
  }

  /** The webcam session reads only the cache, which it trusts for 5 seconds. */
  lemma RealtimeReadsOnlyCache(q: Option<int>, live: map<string, seq<Sample>>,
                               history: seq<Entry>, cache: map<string, Latest>, now: real)
    ensures var r := GetDetections(RealtimeSession, q, live, history, cache, now);
            r == if RealtimeSession in cache && now - cache[RealtimeSession].timestamp < 5.0
                 then Reply(cache[RealtimeSession].detections, cache[RealtimeSession].width,
                            cache[RealtimeSession].height, None)
                 else EmptyReply
  {
  }

  /** A session nothing is known about gets the empty reply, whatever the frame and the time. */
  lemma UnknownSessionEmpty(id: string, q: Option<int>, live: map<string, seq<Sample>>,
                            history: seq<Entry>, cache: map<string, Latest>, now: real)
    requires id !in live && id !in cache && FirstMatch(history, id).None?
    ensures GetDetections(id, q, live, history, cache, now) == EmptyReply
  {
  }

  /**
    After a restart (the live index and the cache are empty), a completed job
    whose run sampled something answers frame queries from the every-10th slice
    that completion persisted.
  */
  lemma RestartAnswersFromPersistedSlice(h: seq<Entry>, id: string, n: nat, total: int, k: nat,
                                         persisted: Option<(seq<Detection>, int, int)>,
                                         samples: seq<Sample>, q: int, now: real)
    requires total > 0 && FirstMatch(h, id) == Some(k) && id != RealtimeSession && samples != []
    ensures var after := Completion(ProgressHistory(h, id, true, n, total), id, persisted, EveryTenth(samples));
            NearestReply(GetDetections(id, Some(q), map[], after, map[], now), EveryTenth(samples), q)
  {
    var slice := EveryTenth(samples);
    var after := Completion(ProgressHistory(h, id, true, n, total), id, persisted, slice);
    CompletionRecord(h, id, n, total, k, persisted, slice);
    assert Lookup(after, id) == Some(after[k]);
    assert PersistedIndex(Lookup(after, id)) == slice;
    PersistedIndexNext(id, q, map[], after, map[], now);
  }
}
