/**
  The history store: the JSON file `history.json` read as a list of records keyed
  by `output_filename`, and the read-modify-write operations on it
  (`load_history`, `get_history_entry`, `upsert_history`, the three
  `update_history_*` functions, and the filters behind `/history` and
  `/image_history`).
*/
module History {
  import opened Wrappers
  import opened Domain
  import Text

  /** One history record. Keys that a record may lack are Options. */
  datatype Entry = Entry(
    kind: Option<string>,
    originalFilename: string,
    outputFilename: string,
    createdAt: string,
    status: Option<JobStatus>,
    progress: Option<int>,
    url: string,
    fps: Option<real>,
    width: Option<int>,
    height: Option<int>,
    detections: Option<seq<Detection>>,
    framesDetections: Option<seq<Sample>>,
    sessionId: Option<string>,
    detectionCount: Option<int>)

  /** `'/detected/' + name`. */
  function DetectedUrl(name: string): string {
    "/detected/" + name
  }

  /** The record `upload_video` stores when it accepts a video. */
  function VideoEntry(originalName: string, outputName: string, timestamp: string): Entry {
    Entry(None, originalName, outputName, timestamp, Some(Processing), Some(0), DetectedUrl(outputName),
          None, None, None, None, None, None, None)
  }

  /** The record `upload_image` stores: typed 'image', with its detections and session. */
  function ImageEntry(originalName: string, outputName: string, createdAt: string,
                      detections: seq<Detection>, width: int, height: int, sessionId: string): Entry
  {
    Entry(Some("image"), originalName, outputName, createdAt, None, None, DetectedUrl(outputName),
          None, Some(width), Some(height), Some(detections), None, Some(sessionId), Some(|detections|))
  }

  /** What `history.json` holds: nothing, something that does not parse, or a list. */
  datatype FileState = Missing | Unreadable | Stored(entries: seq<Entry>)

  /** `load_history`: a missing or unreadable file reads as the empty list. */
  function Loaded(f: FileState): seq<Entry> {
    if f.Stored? then f.entries else []
  }

  /** `get_history_entry(id)` as a value: the first record for `id`, if any. */
  function Lookup(h: seq<Entry>, id: string): (r: Option<Entry>)
    ensures r.Some? <==> exists j :: 0 <= j < |h| && h[j].outputFilename == id
    ensures r.Some? ==> exists k :: 0 <= k < |h| && h[k] == r.value && FirstMatch(h, id) == Some(k)
  {
    match FirstMatch(h, id)
    case None => None
    case Some(k) => Some(h[k])
  }

  /** The position of the first record for `id`, as the `for ... break` loops find it. */
  function FirstMatch(h: seq<Entry>, id: string): (r: Option<nat>)
    ensures r.Some? ==> r.value < |h| && h[r.value].outputFilename == id
    ensures r.Some? ==> forall j :: 0 <= j < r.value ==> h[j].outputFilename != id
    ensures r.None? ==> forall j :: 0 <= j < |h| ==> h[j].outputFilename != id
    decreases |h|
  {
    if |h| == 0 then None
    else if h[0].outputFilename == id then Some(0)
    else match FirstMatch(h[1..], id)
      case None => None
      case Some(k) => Some(k + 1)
  }

  /** Two lists with the same keys at the same positions have the same first match. */
  lemma {:induction false} FirstMatchSameKeys(h1: seq<Entry>, h2: seq<Entry>, id: string)
    requires |h1| == |h2|
    requires forall i :: 0 <= i < |h1| ==> h1[i].outputFilename == h2[i].outputFilename
    ensures FirstMatch(h1, id) == FirstMatch(h2, id)
    decreases |h1|
  {
    if |h1| > 0 {
      FirstMatchSameKeys(h1[1..], h2[1..], id);
    }
  }

  /** `[h for h in history if keep(h)]`. */
  function Filter(h: seq<Entry>, keep: Entry -> bool): (r: seq<Entry>)
    ensures |r| <= |h|
    ensures forall x :: x in r <==> x in h && keep(x)
    decreases |h|
  {
    if |h| == 0 then []
    else (if keep(h[0]) then [h[0]] else []) + Filter(h[1..], keep)
  }

  /** The list without any record for `id` (upsert and delete_video). */
  function Without(h: seq<Entry>, id: string): seq<Entry> {
    Filter(h, (e: Entry) => e.outputFilename != id)
  }

  /** How many records carry key `id`. */
  function CountId(h: seq<Entry>, id: string): nat
    decreases |h|
  {
    if |h| == 0 then 0
    else (if h[0].outputFilename == id then 1 else 0) + CountId(h[1..], id)
  }

  /** The store invariant: at most one record per output filename. */
  ghost predicate UniqueIds(h: seq<Entry>) {
    forall id :: CountId(h, id) <= 1
  }

  /** Ordered by `created_at`, newest (greatest string) first. */
  predicate NewestFirst(h: seq<Entry>) {
    forall i, j :: 0 <= i < j < |h| ==> Text.AtMost(h[j].createdAt, h[i].createdAt)
  }

  lemma {:induction false} CountIdConcat(a: seq<Entry>, b: seq<Entry>, id: string)
    ensures CountId(a + b, id) == CountId(a, id) + CountId(b, id)
    decreases |a|
  {
    if |a| == 0 {
      assert a + b == b;
    } else {
      assert (a + b)[1..] == a[1..] + b;
      CountIdConcat(a[1..], b, id);
    }
  }

  /** At most one record with a key means at most one position carries it. */
  lemma {:induction false} CountIdUnique(h: seq<Entry>, id: string, i: nat, j: nat)
    requires CountId(h, id) <= 1 && i < |h| && j < |h|
    requires h[i].outputFilename == id && h[j].outputFilename == id
    ensures i == j
    decreases |h|
  {
    if i > 0 && j > 0 {
      CountIdUnique(h[1..], id, i - 1, j - 1);
    } else if i > 0 || j > 0 {
      var k: nat := if i > 0 then i else j;
      CountIdPositive(h[1..], id, k - 1);
      assert false;
    }
  }

  lemma {:induction false} CountIdPositive(h: seq<Entry>, id: string, i: nat)
    requires i < |h| && h[i].outputFilename == id
    ensures CountId(h, id) >= 1
    decreases |h|
  {
    if i > 0 {
      CountIdPositive(h[1..], id, i - 1);
    }
  }

  /** Filtering never adds records for a key, and keeps or drops all of them as the predicate says. */
  lemma {:induction false} FilterCount(h: seq<Entry>, keep: Entry -> bool, id: string)
    ensures CountId(Filter(h, keep), id) <= CountId(h, id)
    ensures (forall x :: x in h && x.outputFilename == id ==> !keep(x)) ==> CountId(Filter(h, keep), id) == 0
    ensures (forall x :: x in h && x.outputFilename == id ==> keep(x)) ==> CountId(Filter(h, keep), id) == CountId(h, id)
    decreases |h|
  {
    if |h| > 0 {
      FilterCount(h[1..], keep, id);
      var head := if keep(h[0]) then [h[0]] else [];
      CountIdConcat(head, Filter(h[1..], keep), id);
      assert forall x :: x in h[1..] ==> x in h;
    }
  }

  /** Filtering keeps the order. */
  lemma {:induction false} FilterNewestFirst(h: seq<Entry>, keep: Entry -> bool)
    requires NewestFirst(h)
    ensures NewestFirst(Filter(h, keep))
    decreases |h|
  {
    if |h| > 0 {
      var rest := Filter(h[1..], keep);
      assert NewestFirst(h[1..]) by {
        forall i, j | 0 <= i < j < |h[1..]|
          ensures Text.AtMost(h[1..][j].createdAt, h[1..][i].createdAt)
        {
          assert h[1..][i] == h[i + 1] && h[1..][j] == h[j + 1];
        }
      }
      FilterNewestFirst(h[1..], keep);
      if keep(h[0]) {
        var r := [h[0]] + rest;
        forall i, j | 0 <= i < j < |r| ensures Text.AtMost(r[j].createdAt, r[i].createdAt) {
          if i == 0 {
            assert r[j] in h[1..];
            var m :| 0 <= m < |h[1..]| && h[1..][m] == r[j];
            assert h[m + 1] == r[j];
          } else {
            assert r[i] == rest[i - 1] && r[j] == rest[j - 1];
          }
        }
        assert Filter(h, keep) == r;
      } else {
        assert Filter(h, keep) == [] + rest;
      }
    }
  }

  /** Stable insertion of x into a newest-first list: after every record newer than x. */
  function Insert(x: Entry, t: seq<Entry>): (r: seq<Entry>)
    ensures multiset(r) == multiset(t) + multiset{x}
    decreases |t|
  {
    if |t| == 0 || Text.AtMost(t[0].createdAt, x.createdAt) then [x] + t
    else
      assert t == [t[0]] + t[1..];
      [t[0]] + Insert(x, t[1..])
  }

  /** `sorted(h, key=lambda x: x.get('created_at', ''), reverse=True)`: stable, newest first. */
  function SortNewestFirst(h: seq<Entry>): (r: seq<Entry>)
    ensures multiset(r) == multiset(h)
    decreases |h|
  {
    if |h| == 0 then []
    else
      assert h == [h[0]] + h[1..];
      Insert(h[0], SortNewestFirst(h[1..]))
  }

  lemma {:induction false} InsertNewestFirst(x: Entry, t: seq<Entry>)
    requires NewestFirst(t)
    ensures NewestFirst(Insert(x, t))
    decreases |t|
  {
    if |t| == 0 || Text.AtMost(t[0].createdAt, x.createdAt) {
      var r := [x] + t;
      forall i, j | 0 <= i < j < |r| ensures Text.AtMost(r[j].createdAt, r[i].createdAt) {
        if i == 0 {
          if j > 1 {
            Text.AtMostTransitive(t[j - 1].createdAt, t[0].createdAt, x.createdAt);
          }
        } else {
          assert r[i] == t[i - 1] && r[j] == t[j - 1];
        }
      }
    } else {
      var rest := Insert(x, t[1..]);
      assert NewestFirst(t[1..]) by {
        forall i, j | 0 <= i < j < |t[1..]|
          ensures Text.AtMost(t[1..][j].createdAt, t[1..][i].createdAt)
        {
          assert t[1..][i] == t[i + 1] && t[1..][j] == t[j + 1];
        }
      }
      InsertNewestFirst(x, t[1..]);
      var r := [t[0]] + rest;
      forall i, j | 0 <= i < j < |r| ensures Text.AtMost(r[j].createdAt, r[i].createdAt) {
        if i == 0 {
          assert r[j] in multiset(rest);
          if r[j] == x {
            Text.AtMostTotal(t[0].createdAt, x.createdAt);
          } else {
            assert r[j] in t[1..];
            var m :| 0 <= m < |t[1..]| && t[1..][m] == r[j];
            assert t[m + 1] == r[j];
          }
        } else {
          assert r[i] == rest[i - 1] && r[j] == rest[j - 1];
        }
      }
    }
  }

  lemma {:induction false} SortIsNewestFirst(h: seq<Entry>)
    ensures NewestFirst(SortNewestFirst(h))
    decreases |h|
  {
    if |h| > 0 {
      SortIsNewestFirst(h[1..]);
      InsertNewestFirst(h[0], SortNewestFirst(h[1..]));
    }
  }

  /** The records of h stamped s, in their order in h. */
  function Stamped(h: seq<Entry>, s: string): seq<Entry>
    decreases |h|
  {
    if |h| == 0 then []
    else (if h[0].createdAt == s then [h[0]] else []) + Stamped(h[1..], s)
  }

  /** Inserting x puts it before every record of t that carries its stamp. */
  /** Filtering by stamp a list with e at the front. */
  lemma StampedCons(e: Entry, t: seq<Entry>, s: string)
    ensures Stamped([e] + t, s) == (if e.createdAt == s then [e] else []) + Stamped(t, s)
  {
    assert ([e] + t)[1..] == t;
  }

  /** Two records of which at most one carries stamp s can pass each other without changing what is stamped s. */
  lemma SwapStamped(r: Entry, x: Entry, tail: seq<Entry>, s: string)
    requires !(r.createdAt == s && x.createdAt == s)
    ensures (if r.createdAt == s then [r] else []) + ((if x.createdAt == s then [x] else []) + tail) ==
            (if x.createdAt == s then [x] else []) + ((if r.createdAt == s then [r] else []) + tail)
  {
  }

  lemma {:induction false} InsertStamped(x: Entry, t: seq<Entry>, s: string)
    ensures Stamped(Insert(x, t), s) == (if x.createdAt == s then [x] else []) + Stamped(t, s)
    decreases |t|
  {
    if |t| == 0 || Text.AtMost(t[0].createdAt, x.createdAt) {
      StampedCons(x, t, s);
    } else {
      var rest := Insert(x, t[1..]);
      assert t == [t[0]] + t[1..];
      StampedCons(t[0], rest, s);
      StampedCons(t[0], t[1..], s);
      InsertStamped(x, t[1..], s);
      Text.BelowIrreflexive(x.createdAt);
      SwapStamped(t[0], x, Stamped(t[1..], s), s);
    }
  }

  /** The sort is stable: the records sharing a stamp keep their order. */
  lemma {:induction false} SortStable(h: seq<Entry>, s: string)
    ensures Stamped(SortNewestFirst(h), s) == Stamped(h, s)
    decreases |h|
  {
    if |h| > 0 {
      SortStable(h[1..], s);
      InsertStamped(h[0], SortNewestFirst(h[1..]), s);
    }
  }

  lemma {:induction false} InsertCount(x: Entry, t: seq<Entry>, id: string)
    ensures CountId(Insert(x, t), id) == CountId(t, id) + (if x.outputFilename == id then 1 else 0)
    decreases |t|
  {
    if |t| > 0 && !Text.AtMost(t[0].createdAt, x.createdAt) {
      InsertCount(x, t[1..], id);
      assert ([t[0]] + Insert(x, t[1..]))[1..] == Insert(x, t[1..]);
    } else {
      assert ([x] + t)[1..] == t;
    }
  }

  lemma {:induction false} SortCount(h: seq<Entry>, id: string)
    ensures CountId(SortNewestFirst(h), id) == CountId(h, id)
    decreases |h|
  {
    if |h| > 0 {
      SortCount(h[1..], id);
      InsertCount(h[0], SortNewestFirst(h[1..]), id);
    }
  }

  /** `upsert_history(entry)`: drop records with the same key, append, sort newest first. */
  function Upserted(h: seq<Entry>, e: Entry): seq<Entry> {
    SortNewestFirst(Without(h, e.outputFilename) + [e])
  }

  /**
    After an upsert exactly one record carries the new record's key and it is the
    new record (the later call's fields win); every other earlier record is still
    there and nothing else is; the list is newest first.
  */
  lemma UpsertSpec(h: seq<Entry>, e: Entry)
    ensures e in Upserted(h, e)
    ensures CountId(Upserted(h, e), e.outputFilename) == 1
    ensures forall i :: 0 <= i < |Upserted(h, e)| && Upserted(h, e)[i].outputFilename == e.outputFilename
              ==> Upserted(h, e)[i] == e
    ensures forall x :: x in Upserted(h, e) <==> x == e || (x in h && x.outputFilename != e.outputFilename)
    ensures NewestFirst(Upserted(h, e))
  {
    UpsertMembers(h, e);
    UpsertCount(h, e);
    SortIsNewestFirst(Without(h, e.outputFilename) + [e]);
    var r := Upserted(h, e);
    forall i | 0 <= i < |r| && r[i].outputFilename == e.outputFilename ensures r[i] == e {
      var k :| 0 <= k < |r| && r[k] == e;
      CountIdUnique(r, e.outputFilename, i, k);
    }
  }

  lemma UpsertMembers(h: seq<Entry>, e: Entry)
    ensures forall x :: x in Upserted(h, e) <==> x == e || (x in h && x.outputFilename != e.outputFilename)
  {
    var w := Without(h, e.outputFilename);
    var r := Upserted(h, e);
    assert multiset(r) == multiset(w + [e]);
    forall x ensures x in r <==> x in w + [e] {
      assert x in r <==> x in multiset(r);
      assert x in w + [e] <==> x in multiset(w + [e]);
    }
  }

  lemma UpsertCount(h: seq<Entry>, e: Entry)
    ensures CountId(Upserted(h, e), e.outputFilename) == 1
  {
    var w := Without(h, e.outputFilename);
    FilterCount(h, (x: Entry) => x.outputFilename != e.outputFilename, e.outputFilename);
    CountIdConcat(w, [e], e.outputFilename);
    assert [e][1..] == [];
    SortCount(w + [e], e.outputFilename);
  }

  /** An upsert keeps the store invariant of one record per key. */
  lemma UpsertKeepsUnique(h: seq<Entry>, e: Entry)
    requires UniqueIds(h)
    ensures UniqueIds(Upserted(h, e))
  {
    var w := Without(h, e.outputFilename);
    forall id ensures CountId(Upserted(h, e), id) <= 1 {
      SortCount(w + [e], id);
      CountIdConcat(w, [e], id);
      assert [e][1..] == [];
      FilterCount(h, (x: Entry) => x.outputFilename != e.outputFilename, id);
      if id == e.outputFilename {
        assert CountId(w, id) == 0;
      }
    }
  }

  /** The fields one update function writes. */
  datatype Patch =
    | ProgressPatch(progress: Option<int>, status: Option<JobStatus>)
    | MetaPatch(fps: real, width: int, height: int)
    | DetectionsPatch(detections: seq<Detection>, width: int, height: int)
    | FramesPatch(samples: seq<Sample>)

  /** The assignments the update functions make to the matching record; absent progress or status is skipped. */
  function Apply(e: Entry, p: Patch): Entry {
    match p
    case ProgressPatch(pr, st) =>
      e.(progress := if pr.Some? then pr else e.progress, status := if st.Some? then st else e.status)
    case MetaPatch(f, w, h) => e.(fps := Some(f), width := Some(w), height := Some(h))
    case DetectionsPatch(d, w, h) => e.(detections := Some(d), width := Some(w), height := Some(h))
    case FramesPatch(s) => e.(framesDetections := Some(s))
  }

  /**
    An update writes only the fields it names, never the key or the timestamp,
    and a progress update skips the field it is given no value for.
  */
  lemma ApplyWritesNamedFields(e: Entry, p: Patch)
    ensures Apply(e, p).outputFilename == e.outputFilename && Apply(e, p).createdAt == e.createdAt
    ensures p.ProgressPatch? ==> Apply(e, p).(progress := e.progress, status := e.status) == e
    ensures p.ProgressPatch? && p.progress.None? ==> Apply(e, p).progress == e.progress
    ensures p.ProgressPatch? && p.status.None? ==> Apply(e, p).status == e.status
    ensures p.MetaPatch? ==> Apply(e, p).(fps := e.fps, width := e.width, height := e.height) == e
    ensures p.DetectionsPatch? ==> Apply(e, p).(detections := e.detections, width := e.width, height := e.height) == e
    ensures p.FramesPatch? ==> Apply(e, p).(framesDetections := e.framesDetections) == e
  {
  }

  /**
    The history after an update function: the first record for `id`, and only
    that one, gets the patch; with no record for `id` nothing changes.
  */
  function Patched(h: seq<Entry>, id: string, p: Patch): (r: seq<Entry>)
    ensures |r| == |h|
    ensures FirstMatch(h, id).None? ==> r == h
    ensures FirstMatch(h, id).Some? ==>
              r == h[FirstMatch(h, id).value := Apply(h[FirstMatch(h, id).value], p)]
    decreases |h|
  {
    if |h| == 0 then []
    else if h[0].outputFilename == id then [Apply(h[0], p)] + h[1..]
    else [h[0]] + Patched(h[1..], id, p)
  }

  lemma {:induction false} CountIdSameKeys(h1: seq<Entry>, h2: seq<Entry>, id: string)
    requires |h1| == |h2|
    requires forall i :: 0 <= i < |h1| ==> h1[i].outputFilename == h2[i].outputFilename
    ensures CountId(h1, id) == CountId(h2, id)
    decreases |h1|
  {
    if |h1| > 0 {
      CountIdSameKeys(h1[1..], h2[1..], id);
    }
  }

  /** Updates keep every key and every timestamp, so the order, the one-record-per-key
      invariant and the position of every first match survive them. */
  lemma PatchedPreserves(h: seq<Entry>, id: string, p: Patch)
    ensures NewestFirst(h) ==> NewestFirst(Patched(h, id, p))
    ensures forall k :: CountId(Patched(h, id, p), k) == CountId(h, k)
    ensures forall k :: FirstMatch(Patched(h, id, p), k) == FirstMatch(h, k)
  {
    var r := Patched(h, id, p);
    forall k ensures CountId(r, k) == CountId(h, k) && FirstMatch(r, k) == FirstMatch(h, k) {
      CountIdSameKeys(r, h, k);
      FirstMatchSameKeys(r, h, k);
    }
  }

  /**
    Two progress updates of the same job amount to one: the later values win and
    a field the later call skips keeps the earlier value.
  */
  lemma ProgressPatchTwice(h: seq<Entry>, id: string, p1: Option<int>, s1: Option<JobStatus>,
                           p2: Option<int>, s2: Option<JobStatus>)
    ensures Patched(Patched(h, id, ProgressPatch(p1, s1)), id, ProgressPatch(p2, s2))
         == Patched(h, id, ProgressPatch(if p2.Some? then p2 else p1, if s2.Some? then s2 else s1))
  {
    PatchedPreserves(h, id, ProgressPatch(p1, s1));
  }

  /** `h.get('type', 'video') == 'video'` (line 944). */
  predicate IsVideo(e: Entry) {
    e.kind.GetOr("video") == "video"
  }

  /** `/history`: the video records, old records without a type included. */
  function VideoHistory(h: seq<Entry>): seq<Entry> {
    Filter(h, IsVideo)
  }

  /** `/image_history`: the records typed 'image'. */
  function ImageHistory(h: seq<Entry>): seq<Entry> {
    Filter(h, (e: Entry) => e.kind == Some("image"))
  }

  /**
    The two listings: untyped and 'video' records in one, 'image' records in the
    other, no record in both, each in history order.
  */
  lemma HistoryViews(h: seq<Entry>)
    ensures forall x :: x in VideoHistory(h) <==> x in h && (x.kind.None? || x.kind == Some("video"))
    ensures forall x :: x in ImageHistory(h) <==> x in h && x.kind == Some("image")
    ensures forall x :: !(x in VideoHistory(h) && x in ImageHistory(h))
    ensures NewestFirst(h) ==> NewestFirst(VideoHistory(h)) && NewestFirst(ImageHistory(h))
  {
    if NewestFirst(h) {
      FilterNewestFirst(h, IsVideo);
      FilterNewestFirst(h, (e: Entry) => e.kind == Some("image"));
    }
  }

  /** `datetime.now().strftime('%Y%m%d_%H%M%S')`, the stamp of video records. */
  predicate IsVideoStamp(s: string) {
    |s| == 15 && s[8] == '_' && forall i :: 0 <= i < 15 && i != 8 ==> Text.IsDigit(s[i])
  }

  /** `time.strftime('%Y-%m-%d %H:%M:%S')`, the stamp of image records. */
  predicate IsImageStamp(s: string) {
    && |s| == 19 && s[4] == '-' && s[7] == '-' && s[10] == ' ' && s[13] == ':' && s[16] == ':'
    && forall i :: 0 <= i < 19 && i !in {4, 7, 10, 13, 16} ==> Text.IsDigit(s[i])
  }

  /**
    The two stamp formats do not compare chronologically: within one year a video
    stamp is always the greater string, whatever the month, day and time.
  */
  lemma ImageStampBelowVideoStamp(image: string, video: string)
    requires IsImageStamp(image) && IsVideoStamp(video) && image[..4] == video[..4]
    ensures Text.Below(image, video)
  {
    assert Text.IsDigit(video[4]);
    Text.BelowAtFirstDifference(image, video, 4);
  }

  /**
    So in the newest-first history every video record of a year comes before
    every image record of the same year, even an image uploaded later.
  */
  lemma VideoBeforeImageOfSameYear(h: seq<Entry>, v: nat, i: nat)
    requires NewestFirst(h) && v < |h| && i < |h|
    requires IsVideoStamp(h[v].createdAt) && IsImageStamp(h[i].createdAt)
    requires h[v].createdAt[..4] == h[i].createdAt[..4]
    ensures v < i
  {
    ImageStampBelowVideoStamp(h[i].createdAt, h[v].createdAt);
  }

  /** The history file and the operations that read and rewrite it. */
  class HistoryStore {
    var file: FileState

    constructor (initial: FileState)
      ensures file == initial
    {
      file := initial;
    }

    /** `load_history()`. */
    function Entries(): seq<Entry>
      reads this
    {
      Loaded(file)
    }

    /** The search loop `for h in history: if h.get('output_filename') == id: ... break`. */
    static method Locate(h: seq<Entry>, id: string) returns (k: Option<nat>)
      ensures k == FirstMatch(h, id)
    {
      var i := 0;
      while i < |h|
        invariant 0 <= i <= |h|
        invariant forall j :: 0 <= j < i ==> h[j].outputFilename != id
      {
        if h[i].outputFilename == id {
          return Some(i);
        }
        i := i + 1;
      }
      return None;
    }

    /** `get_history_entry(id)`: the first record for `id`, if any. */
    method GetEntry(id: string) returns (e: Option<Entry>)
      ensures e == Lookup(Entries(), id)
      ensures e.Some? <==> exists j :: 0 <= j < |Entries()| && Entries()[j].outputFilename == id
      ensures e.Some? ==> e.value.outputFilename == id
      ensures e.Some? ==> exists k :: 0 <= k < |Entries()| && Entries()[k] == e.value
                                      && forall j :: 0 <= j < k ==> Entries()[j].outputFilename != id
    {
      var h := Entries();
      var k := Locate(h, id);
      if k.Some? {
        e := Some(h[k.value]);
      } else {
        e := None;
      }
    }

    /** `upsert_history(entry)`, always saved. */
    method Upsert(entry: Entry)
      modifies this
      ensures file == Stored(Upserted(old(Entries()), entry))
    {
      file := Stored(Upserted(Entries(), entry));
    }

    /** The shared shape of the update functions: patch the first match, save only if there was one. */
    method ApplyToFirst(id: string, p: Patch)
      modifies this
      ensures Entries() == Patched(old(Entries()), id, p)
      ensures FirstMatch(old(Entries()), id).None? ==> file == old(file)
      ensures FirstMatch(old(Entries()), id).Some? ==> file == Stored(Patched(old(Entries()), id, p))
    {
      var h := Entries();
      var k := Locate(h, id);
      if k.Some? {
        file := Stored(h[k.value := Apply(h[k.value], p)]);
      }
    }

    /** `update_history_progress(id, progress, status)`; None skips a field. */
    method UpdateProgress(id: string, progress: Option<int>, status: Option<JobStatus>)
      modifies this
      ensures Entries() == Patched(old(Entries()), id, ProgressPatch(progress, status))
      ensures FirstMatch(old(Entries()), id).None? ==> file == old(file)
    {
      ApplyToFirst(id, ProgressPatch(progress, status));
    }

    /** `update_history_meta(id, fps=..., width=..., height=...)`. */
    method UpdateMeta(id: string, fps: real, width: int, height: int)
      modifies this
      ensures Entries() == Patched(old(Entries()), id, MetaPatch(fps, width, height))
      ensures FirstMatch(old(Entries()), id).None? ==> file == old(file)
    {
      ApplyToFirst(id, MetaPatch(fps, width, height));
    }

    /** `update_history_detections(id, detections, width, height)`. */
    method UpdateDetections(id: string, detections: seq<Detection>, width: int, height: int)
      modifies this
      ensures Entries() == Patched(old(Entries()), id, DetectionsPatch(detections, width, height))
      ensures FirstMatch(old(Entries()), id).None? ==> file == old(file)
    {
      ApplyToFirst(id, DetectionsPatch(detections, width, height));
    }

    /** Lines 799-805: store the sampled index on the first match; the file is saved even without one. */
    method SetFramesDetections(id: string, samples: seq<Sample>)
      modifies this
      ensures file == Stored(Patched(old(Entries()), id, FramesPatch(samples)))
    {
      var h := Entries();
      var k := Locate(h, id);
      if k.Some? {
        h := h[k.value := Apply(h[k.value], FramesPatch(samples))];
      }
      file := Stored(h);
    }

    /** Line 1032-1033: drop every record for `id` and save. */
    method Remove(id: string)
      modifies this
      ensures file == Stored(Without(old(Entries()), id))
    {
      file := Stored(Without(Entries(), id));
    }
  }
}
