/**
  The in-memory job registry and the routes and worker that change it:
  `upload_video`, the background `process_video`, `check_video` and
  `delete_video`. The four registries of the source (`video_processing_status`,
  `video_frames_cache`, `detections_cache`, `detections_frames_cache`) are the
  four map fields of one `Registry`; each call runs to completion on its own,
  so the locks that guard them are not modelled.
*/
module Worker {
  import opened Wrappers
  import opened Domain
  import opened Fifo
  import opened History
  import opened Pipeline
  import Naming

  /** `d.get(key, [])`. */
  function Get<V>(m: map<string, seq<V>>, id: string): seq<V> {
    if id in m then m[id] else []
  }

  /** The frame cache after the JPEGs xs were offered for job id: appended only while the key exists, at most 100 kept. */
  function PreviewsAfter(m: map<string, seq<Buffer>>, id: string, xs: seq<Buffer>): map<string, seq<Buffer>> {
    if id in m && xs != [] then m[id := LastN(m[id] + xs, FrameCacheCapacity)] else m
  }

  /** The detection index after samples xs: `setdefault` creates the key, at most 3000 kept. */
  function SamplesAfter(m: map<string, seq<Sample>>, id: string, xs: seq<Sample>): map<string, seq<Sample>> {
    if xs != [] then m[id := LastN(Get(m, id) + xs, IndexCapacity)] else m
  }

  /** The latest-detections cache after the record l, if one was stored. */
  function LatestAfter(m: map<string, Latest>, id: string, l: Option<Latest>): map<string, Latest> {
    if l.Some? then m[id := l.value] else m
  }

  /** The status registry after n frames (lines 763-766): counters set only while the key exists. */
  function StatusAfter(m: map<string, JobRecord>, id: string, n: nat, total: int): map<string, JobRecord>
    requires total > 0
  {
    if id in m && n > 0 then m[id := RecordFrames(m[id], n, total)] else m
  }

  /** The history after n frames: line 767 writes the progress, only for a job the registry tracks. */
  function ProgressHistory(h: seq<Entry>, id: string, tracked: bool, n: nat, total: int): seq<Entry>
    requires total > 0
  {
    if tracked && n > 0 then Patched(h, id, ProgressPatch(Some(Progress(n, total)), None)) else h
  }

  function CompleteIn(m: map<string, JobRecord>, id: string): map<string, JobRecord> {
    if id in m then m[id := MarkCompleted(m[id])] else m
  }

  function FailIn(m: map<string, JobRecord>, id: string, message: string): map<string, JobRecord> {
    if id in m then m[id := MarkFailed(m[id], message)] else m
  }

  /** Lines 811-815: the frame cache of a finished job keeps its last 10 JPEGs. */
  function TrimIn(m: map<string, seq<Buffer>>, id: string): map<string, seq<Buffer>> {
    if id in m then m[id := LastN(m[id], FrameCacheTail)] else m
  }

  /**
    Lines 779-805: the history writes of completion: progress 100 and status
    completed, then the persisted detections if any, then the sampled index if
    it is not empty.
  */
  function Completion(h: seq<Entry>, id: string, persisted: Option<(seq<Detection>, int, int)>,
                      sampled: seq<Sample>): seq<Entry>
  {
    var h1 := Patched(h, id, ProgressPatch(Some(100), Some(Completed)));
    var h2 := if persisted.Some? then Patched(h1, id, DetectionsPatch(persisted.value.0, persisted.value.1, persisted.value.2)) else h1;
    if sampled != [] then Patched(h2, id, FramesPatch(sampled)) else h2
  }

  /** One more offered JPEG is one more `append` and `pop(0)` on the cache. */
  lemma PreviewsStep(m: map<string, seq<Buffer>>, id: string, xs: seq<Buffer>, o: Option<Buffer>)
    requires id in m ==> |m[id]| <= FrameCacheCapacity
    ensures var cur := PreviewsAfter(m, id, xs);
            PreviewsAfter(m, id, xs + OptSeq(o)) ==
              if id in cur && o.Some? then cur[id := Push(cur[id], o.value, FrameCacheCapacity)] else cur
  {
    if id in m && o.Some? {
      var x := o.value;
      if xs == [] {
        LastNOfShort(m[id], FrameCacheCapacity);
        PushLastN(m[id], x, FrameCacheCapacity);
        assert xs + [x] == [x];
      } else {
        PushLastN(m[id] + xs, x, FrameCacheCapacity);
        assert m[id] + xs + [x] == m[id] + (xs + [x]);
      }
    } else if o.None? {
      assert xs + OptSeq(o) == xs;
    }
  }

  /** One more sample is one more `append` and `pop(0)` on the index. */
  lemma SamplesStep(m: map<string, seq<Sample>>, id: string, xs: seq<Sample>, o: Option<Sample>)
    requires |Get(m, id)| <= IndexCapacity
    ensures var cur := SamplesAfter(m, id, xs);
            SamplesAfter(m, id, xs + OptSeq(o)) ==
              if o.Some? then cur[id := Push(Get(cur, id), o.value, IndexCapacity)] else cur
  {
    if o.Some? {
      var x := o.value;
      if xs == [] {
        LastNOfShort(Get(m, id), IndexCapacity);
        PushLastN(Get(m, id), x, IndexCapacity);
        assert xs + [x] == [x];
      } else {
        PushLastN(Get(m, id) + xs, x, IndexCapacity);
        assert Get(m, id) + xs + [x] == Get(m, id) + (xs + [x]);
      }
    } else {
      assert xs + OptSeq(o) == xs;
    }
  }

  /** One more frame sets the counters to n + 1, and writes the history, exactly when the job is tracked. */
  lemma CountersStep(m: map<string, JobRecord>, h: seq<Entry>, id: string, n: nat, total: int)
    requires total > 0
    ensures var cur := StatusAfter(m, id, n, total);
            StatusAfter(m, id, n + 1, total) ==
              if id in cur then cur[id := RecordFrames(cur[id], n + 1, total)] else cur
    ensures (id in StatusAfter(m, id, n, total) <==> id in m)
    ensures var cur := ProgressHistory(h, id, id in m, n, total);
            ProgressHistory(h, id, id in m, n + 1, total) ==
              if id in m then Patched(cur, id, ProgressPatch(Some(Progress(n + 1, total)), None)) else cur
  {
    if id in m && n > 0 {
      var cur := m[id := RecordFrames(m[id], n, total)];
      assert RecordFrames(cur[id], n + 1, total) == RecordFrames(m[id], n + 1, total);
      assert cur[id := RecordFrames(m[id], n + 1, total)] == m[id := RecordFrames(m[id], n + 1, total)];
      ProgressPatchTwice(h, id, Some(Progress(n, total)), None, Some(Progress(n + 1, total)), None);
    }
  }

  /** An update of the record at position k, the first for id, changes that record only. */
  lemma PatchAt(h: seq<Entry>, id: string, p: Patch, k: nat)
    requires FirstMatch(h, id) == Some(k)
    ensures k < |h| && Patched(h, id, p) == h[k := Apply(h[k], p)]
    ensures FirstMatch(Patched(h, id, p), id) == Some(k)
  {
    PatchedPreserves(h, id, p);
  }

  /** An update of a list whose first record for id, at k, is e: that record becomes Apply(e, p). */
  lemma PatchOver(h: seq<Entry>, base: seq<Entry>, id: string, p: Patch, k: nat, e: Entry)
    requires FirstMatch(h, id) == Some(k) && k < |base| && h == base[k := e]
    ensures Patched(h, id, p) == base[k := Apply(e, p)]
    ensures FirstMatch(Patched(h, id, p), id) == Some(k)
  {
    PatchAt(h, id, p, k);
    assert h[k := Apply(e, p)] == base[k := Apply(e, p)];
  }

  /** The record of a finished job after the completion writes of lines 779-805. */
  function Finalized(e: Entry, persisted: Option<(seq<Detection>, int, int)>, sampled: seq<Sample>): Entry {
    var e1 := Apply(e, ProgressPatch(Some(100), Some(Completed)));
    var e2 := if persisted.Some? then Apply(e1, DetectionsPatch(persisted.value.0, persisted.value.1, persisted.value.2)) else e1;
    if sampled != [] then Apply(e2, FramesPatch(sampled)) else e2
  }

  /** The completion writes all land on the first record for the job. */
  lemma CompletionAt(h: seq<Entry>, id: string, k: nat,
                     persisted: Option<(seq<Detection>, int, int)>, sampled: seq<Sample>)
    requires FirstMatch(h, id) == Some(k)
    ensures k < |h| && Completion(h, id, persisted, sampled) == h[k := Finalized(h[k], persisted, sampled)]
  {
    assert h == h[k := h[k]];
    var p1 := ProgressPatch(Some(100), Some(Completed));
    var e1 := Apply(h[k], p1);
    var h1 := Patched(h, id, p1);
    PatchOver(h, h, id, p1, k, h[k]);
    var e2 := e1;
    var h2 := h1;
    if persisted.Some? {
      var p2 := DetectionsPatch(persisted.value.0, persisted.value.1, persisted.value.2);
      PatchOver(h1, h, id, p2, k, e1);
      e2 := Apply(e1, p2);
      h2 := Patched(h1, id, p2);
    }
    if sampled != [] {
      PatchOver(h2, h, id, FramesPatch(sampled), k, e2);
    }
  }

  /** A record after the progress write of line 767, if a frame was counted. */
  function Reported(e: Entry, n: nat, total: int): Entry
    requires total > 0
  {
    if n > 0 then Apply(e, ProgressPatch(Some(Progress(n, total)), None)) else e
  }

  /** The run's progress writes and the completion writes all land on the job's first record. */
  lemma CompletionShape(h: seq<Entry>, id: string, n: nat, total: int, k: nat,
                        persisted: Option<(seq<Detection>, int, int)>, sampled: seq<Sample>)
    requires total > 0 && FirstMatch(h, id) == Some(k)
    ensures k < |h|
    ensures Completion(ProgressHistory(h, id, true, n, total), id, persisted, sampled) ==
              h[k := Finalized(Reported(h[k], n, total), persisted, sampled)]
  {
    var h0 := ProgressHistory(h, id, true, n, total);
    if n > 0 {
      PatchAt(h, id, ProgressPatch(Some(Progress(n, total)), None), k);
    }
    assert FirstMatch(h0, id) == Some(k);
    CompletionAt(h0, id, k, persisted, sampled);
  }

  /**
    The history record of a finished job: whatever progress the frames reported,
    completion leaves it completed at 100 with the persisted detections and the
    sampled index, at the same position, and touches no other record.
  */
  lemma CompletionRecord(h: seq<Entry>, id: string, n: nat, total: int, k: nat,
                         persisted: Option<(seq<Detection>, int, int)>, sampled: seq<Sample>)
    requires total > 0 && FirstMatch(h, id) == Some(k)
    ensures var r := Completion(ProgressHistory(h, id, true, n, total), id, persisted, sampled);
            |r| == |h| && FirstMatch(r, id) == Some(k) &&
            r[k].status == Some(Completed) && r[k].progress == Some(100) &&
            r[k].framesDetections == (if sampled != [] then Some(sampled) else h[k].framesDetections) &&
            r[k].detections == (if persisted.Some? then Some(persisted.value.0) else h[k].detections) &&
            (persisted.Some? ==> r[k].width == Some(persisted.value.1) && r[k].height == Some(persisted.value.2)) &&
            r[k].outputFilename == id && r[k].createdAt == h[k].createdAt && r[k].fps == h[k].fps &&
            (forall j :: 0 <= j < |h| && j != k ==> r[j] == h[j])
  {
    CompletionShape(h, id, n, total, k, persisted, sampled);
    var r := Completion(ProgressHistory(h, id, true, n, total), id, persisted, sampled);
    var e := Finalized(Reported(h[k], n, total), persisted, sampled);
    FinalizedFields(h[k], n, total, persisted, sampled);
    assert r == h[k := e];
    assert forall j :: 0 <= j < |r| ==> r[j].outputFilename == h[j].outputFilename;
    FirstMatchSameKeys(r, h, id);
  }

  /** The fields the completion writes, and the ones it keeps. */
  lemma FinalizedFields(e: Entry, n: nat, total: int, persisted: Option<(seq<Detection>, int, int)>, sampled: seq<Sample>)
    requires total > 0
    ensures var f := Finalized(Reported(e, n, total), persisted, sampled);
            f.status == Some(Completed) && f.progress == Some(100) &&
            f.framesDetections == (if sampled != [] then Some(sampled) else e.framesDetections) &&
            f.detections == (if persisted.Some? then Some(persisted.value.0) else e.detections) &&
            (persisted.Some? ==> f.width == Some(persisted.value.1) && f.height == Some(persisted.value.2)) &&
            f.outputFilename == e.outputFilename && f.createdAt == e.createdAt && f.fps == e.fps
  {
  }

  /** Completion leaves a history without a record for the job as it was. */
  lemma CompletionWithoutRecord(h: seq<Entry>, id: string, n: nat, total: int,
                                persisted: Option<(seq<Detection>, int, int)>, sampled: seq<Sample>)
    requires total > 0 && FirstMatch(h, id).None?
    ensures Completion(ProgressHistory(h, id, true, n, total), id, persisted, sampled) == h
  {
    var h0 := ProgressHistory(h, id, true, n, total);
    assert h0 == h;
    var h1 := Patched(h0, id, ProgressPatch(Some(100), Some(Completed)));
    assert h1 == h;
  }

  /** A finished job's frame cache holds the last 10 JPEGs offered, counting those it had before. */
  lemma FinishedFrameCache(m: map<string, seq<Buffer>>, id: string, xs: seq<Buffer>)
    requires id in m && |m[id]| <= FrameCacheCapacity
    ensures TrimIn(PreviewsAfter(m, id, xs), id)[id] == LastN(m[id] + xs, FrameCacheTail)
  {
    if xs == [] {
      assert m[id] + xs == m[id];
    } else {
      LastNOfLastN(m[id] + xs, FrameCacheCapacity, FrameCacheTail);
    }
  }

  /**
    The status a run leaves: frame updates keep every record's status and error,
    completion or failure of a tracked job is the last status change, and an
    untracked job stays untracked. These facts unfold the definitions; they are
    the step by which `Registry.ProcessVideo` proves that a run ends in exactly
    one terminal value, which is the promise of the source.
  */
  lemma RunEndsTerminal(m: map<string, JobRecord>, id: string, n: nat, total: int, message: string)
    requires total > 0
    ensures StatusAfter(m, id, n, total).Keys == m.Keys
    ensures forall j :: j in m ==>
              StatusAfter(m, id, n, total)[j].status == m[j].status && StatusAfter(m, id, n, total)[j].error == m[j].error
    ensures id in m ==> CompleteIn(StatusAfter(m, id, n, total), id)[id].status == Completed
    ensures id in m ==> FailIn(StatusAfter(m, id, n, total), id, message)[id].status == Error &&
                        FailIn(StatusAfter(m, id, n, total), id, message)[id].error == Some(message)
    ensures id !in m ==> CompleteIn(StatusAfter(m, id, n, total), id) == m && FailIn(StatusAfter(m, id, n, total), id, message) == m
  {
  }

  /** Progress reaches 100 at the last announced frame while the job is still processing. */
  lemma FullProgressWhileProcessing(m: map<string, JobRecord>, id: string, total: int)
    requires total > 0 && id in m
    ensures StatusAfter(m, id, total, total)[id].progress == 100
    ensures StatusAfter(m, id, total, total)[id].status == m[id].status
    ensures StatusAfter(m, id, total, total)[id].processedFrames == total
  {
    ProgressBounds(total, total);
  }

  /** Frames below the announced count keep progress within 0..100 and never lower it. */
  lemma ProgressAlongTheRun(m: map<string, JobRecord>, id: string, a: nat, b: nat, total: int)
    requires total > 0 && id in m && 0 < a <= b <= total
    ensures 0 <= StatusAfter(m, id, a, total)[id].progress <= StatusAfter(m, id, b, total)[id].progress <= 100
  {
    ProgressMonotone(a, b, total);
    ProgressBounds(b, total);
    ProgressBounds(a, total);
  }

  /** What the frame source reports once opened, or that it could not be opened. */
  datatype Source = Unopenable | Opened(fps: real, width: int, height: int, totalFrames: int)

  /** How the read loop ends: `cap.read()` reports no frame, or an exception escapes it. */
  datatype End = Exhausted | Crashed(message: string)

  /** The worker's result: the writer settings and the frames written, or the failure message. */
  datatype Run = Finished(config: Config, written: seq<Image>) | Failed(message: string)

  /** The probe `upload_video` runs on the stored file. */
  datatype Probe = Unreadable | Readable(fps: real, frameCount: int)

  datatype UploadError =
    | ModelNotLoaded
    | NoVideo
    | EmptyFilename
    | UnsupportedFormat
    | SaveFailed(reason: string)
    | InvalidVideo
    | NoValidFrames
  {
    /** The HTTP status of the error reply. */
    function HttpStatus(): int {
      if ModelNotLoaded? || SaveFailed? then 500 else 400
    }
  }

  /** The reply of an accepted upload. */
  datatype Started = Started(outputFilename: string, totalFrames: int, streamUrl: string)

  /** The extension `upload_video` checks and stores: lower-cased. */
  function UploadExtension(name: string): string {
    Naming.LowerAscii(Naming.Extension(name))
  }

  /** Where `upload_video` stores an upload named `name` (lines 403-407). */
  function UploadPath(ts: string, name: string): string {
    Join(UploadFolder, Naming.UploadName(ts, UploadExtension(name)))
  }

  /**
    Lines 387-425: the first check an upload fails, in the order the route makes
    them, or None when it is accepted.
  */
  function UploadRejection(modelLoaded: bool, upload: Option<string>, saveError: Option<string>, probe: Probe)
    : (r: Option<UploadError>)
    ensures r.None? <==> modelLoaded && upload.Some? && upload.value != "" &&
                         UploadExtension(upload.value) in Naming.AllowedExtensions && saveError.None? &&
                         probe.Readable? && probe.fps > 0.0 && probe.frameCount > 0
    ensures !modelLoaded ==> r == Some(ModelNotLoaded)
    ensures modelLoaded && upload.None? ==> r == Some(NoVideo)
    ensures modelLoaded && upload == Some("") ==> r == Some(EmptyFilename)
    ensures modelLoaded && upload.Some? && upload.value != "" && UploadExtension(upload.value) !in Naming.AllowedExtensions ==>
              r == Some(UnsupportedFormat)
    ensures r.Some? && r.value.SaveFailed? ==> saveError == Some(r.value.reason)
    ensures r.Some? && (r.value.InvalidVideo? || r.value.NoValidFrames?) ==>
              modelLoaded && upload.Some? && upload.value != "" && UploadExtension(upload.value) in Naming.AllowedExtensions &&
              saveError.None? && (r.value.InvalidVideo? <==> probe.Unreadable?)
  {
    if !modelLoaded then Some(ModelNotLoaded)
    else if upload.None? then Some(NoVideo)
    else if upload.value == "" then Some(EmptyFilename)
    else if UploadExtension(upload.value) !in Naming.AllowedExtensions then Some(UnsupportedFormat)
    else if saveError.Some? then Some(SaveFailed(saveError.value))
    else if probe.Unreadable? then Some(InvalidVideo)
    else if probe.fps <= 0.0 || probe.frameCount <= 0 then Some(NoValidFrames)
    else None
  }

  /** A dot file such as `.mp4` has no extension, so it is refused. */
  lemma DotFileRefused()
    ensures UploadExtension(".mp4") == ""
    ensures UploadRejection(true, Some(".mp4"), None, Readable(30.0, 10)) == Some(UnsupportedFormat)
  {
    assert ".mp4"[..3] == ".mp" && ".mp"[..2] == ".m" && ".m"[..1] == ".";
    assert Naming.RFind(".mp4", '.') == 0;
    assert Naming.Extension(".mp4") == "";
  }

  /** The case of the extension does not matter: `Clip.MP4` is stored as a `.mp4` upload. */
  lemma UpperCaseAccepted()
    ensures UploadExtension("Clip.MP4") == ".mp4"
    ensures UploadRejection(true, Some("Clip.MP4"), None, Readable(30.0, 10)).None?
  {
    assert "Clip" + ".MP4" == "Clip.MP4";
    assert "Clip"[0] != '.';
    Naming.ExtensionOfStem("Clip", ".MP4");
    assert Naming.LowerAscii(".MP4") == ".mp4";
  }

  /** Only the last dot counts: `my.clip.mp4` is accepted as a `.mp4` upload. */
  lemma DottedNameAccepted()
    ensures UploadExtension("my.clip.mp4") == ".mp4"
    ensures UploadRejection(true, Some("my.clip.mp4"), None, Readable(30.0, 10)).None?
  {
    assert "my.clip" + ".mp4" == "my.clip.mp4";
    assert "my.clip"[0] != '.';
    Naming.ExtensionOfStem("my.clip", ".mp4");
    Naming.AllowedShape(".mp4");
    Naming.LowerKeeps(".mp4");
  }

  /** The three answers of `check_video`, and the reply for a job the registry does not know. */
  datatype CheckReply =
    | Ready(url: string, fps: Option<real>, width: Option<int>, height: Option<int>)
    | Failure(error: string)
    | InProgress(status: JobStatus, progress: int, processedFrames: int, totalFrames: int)
    | NotTracked

  const UnknownError := "Error desconocido"

  /**
    Lines 840-879: ready when the output has data and the job completed, failed
    when the output has data and the job failed, otherwise the counters of a
    tracked job, otherwise "processing" with nothing else.
  */
  function Classify(filename: string, info: Option<JobRecord>, outputReady: bool, meta: Option<Entry>): (r: CheckReply)
    ensures r.Ready? <==> outputReady && info.Some? && info.value.status == Completed
    ensures r.Failure? <==> outputReady && info.Some? && info.value.status == Error
    ensures r.NotTracked? <==> info.None?
    ensures r.Ready? ==> r.url == DetectedUrl(filename)
    ensures r.Ready? ==> (meta.None? ==> r.fps.None? && r.width.None? && r.height.None?)
    ensures r.Ready? && meta.Some? ==> r.fps == meta.value.fps && r.width == meta.value.width && r.height == meta.value.height
    ensures r.Failure? ==> r.error == info.value.error.GetOr(UnknownError)
    ensures r.InProgress? ==>
              info.Some? && r.status == info.value.status && r.progress == info.value.progress &&
              r.processedFrames == info.value.processedFrames && r.totalFrames == info.value.totalFrames
  {
    if outputReady && info.Some? && info.value.status == Completed then
      if meta.Some? then Ready(DetectedUrl(filename), meta.value.fps, meta.value.width, meta.value.height)
      else Ready(DetectedUrl(filename), None, None, None)
    else if outputReady && info.Some? && info.value.status == Error then
      Failure(info.value.error.GetOr(UnknownError))
    else if info.Some? then
      InProgress(info.value.status, info.value.progress, info.value.processedFrames, info.value.totalFrames)
    else NotTracked
  }

  /**
    The pollers' view of a job the worker finished: ready once the output has
    data, and otherwise still reported as at 100 percent. A failed job would
    report its message only if its output still had data; the worker removes the
    output, so the poller is told `error` with the counters and never the
    message. A registry emptied by a restart never reports ready.
  */
  lemma PollAfterRun(id: string, m: map<string, JobRecord>, n: nat, total: int, meta: Option<Entry>, message: string)
    requires total > 0 && id in m
    ensures Classify(id, Some(CompleteIn(StatusAfter(m, id, n, total), id)[id]), true, meta).Ready?
    ensures Classify(id, Some(CompleteIn(StatusAfter(m, id, n, total), id)[id]), false, meta)
              == InProgress(Completed, 100, CompleteIn(StatusAfter(m, id, n, total), id)[id].processedFrames, m[id].totalFrames)
    ensures Classify(id, Some(FailIn(StatusAfter(m, id, n, total), id, message)[id]), true, meta) == Failure(message)
    ensures var r := FailIn(StatusAfter(m, id, n, total), id, message)[id];
            Classify(id, Some(r), false, meta) == InProgress(Error, r.progress, r.processedFrames, m[id].totalFrames) &&
            r.progress == (if n > 0 then Progress(n, total) else m[id].progress)
    ensures forall ready: bool :: Classify(id, None, ready, meta) == NotTracked
  {
  }

  /** The first path of cands present in files, as the `for ... break` over the extensions finds it. */
  function FirstExisting(cands: seq<string>, files: set<string>): (r: Option<string>)
    ensures r.None? <==> forall i :: 0 <= i < |cands| ==> cands[i] !in files
    ensures r.Some? ==> exists i :: 0 <= i < |cands| && cands[i] == r.value && r.value in files &&
                                    forall j :: 0 <= j < i ==> cands[j] !in files
    decreases |cands|
  {
    if |cands| == 0 then None
    else if cands[0] in files then Some(cands[0])
    else
      var r := FirstExisting(cands[1..], files);
      assert forall i :: 1 <= i < |cands| ==> cands[i] == cands[1..][i - 1];
      if r.Some? then
        assert exists i :: 0 <= i < |cands| && cands[i] == r.value && r.value in files &&
                           forall j :: 0 <= j < i ==> cands[j] !in files by {
          var i :| 0 <= i < |cands[1..]| && cands[1..][i] == r.value && r.value in files &&
                   forall j :: 0 <= j < i ==> cands[1..][j] !in files;
          assert cands[i + 1] == r.value;
          assert forall j :: 0 <= j < i + 1 ==> cands[j] !in files by {
            forall j | 0 <= j < i + 1 ensures cands[j] !in files {
              if j > 0 {
                assert cands[j] == cands[1..][j - 1];
              }
            }
          }
        }
        r
      else r
  }

  /** The upload of a delete request's job is removed whenever it is still on disk. */
  lemma DeleteFindsUpload(ts: string, ext: string, files: set<string>)
    requires Naming.IsStampText(ts) && ext in Naming.AllowedExtensions
    requires Join(UploadFolder, Naming.UploadName(ts, ext)) in files
    ensures FirstExisting(Naming.OriginalCandidates(Naming.TimestampOf(Naming.OutputName(ts))), files).Some?
  {
    Naming.UploadIsProbed(ts, ext);
    var cands := Naming.OriginalCandidates(Naming.TimestampOf(Naming.OutputName(ts)));
    var i :| 0 <= i < |cands| && cands[i] == Join(UploadFolder, Naming.UploadName(ts, ext));
  }

  /** What a delete request found. */
  datatype Deletion = NotFound | Deleted(originalRemoved: Option<string>)

  /** The job registries shared by the routes and the workers. */
  class Registry {
    var status: map<string, JobRecord>
    var previews: map<string, seq<Buffer>>
    var latest: map<string, Latest>
    var samples: map<string, seq<Sample>>

    /** The bounds the worker keeps: at most 100 JPEGs and 3000 samples per job. */
    ghost predicate Valid()
      reads this
    {
      (forall id :: id in previews ==> |previews[id]| <= FrameCacheCapacity) &&
      (forall id :: id in samples ==> |samples[id]| <= IndexCapacity)
    }

    /** The registries at start-up are empty. */
    constructor ()
      ensures Valid()
      ensures status == map[] && previews == map[] && latest == map[] && samples == map[]
    {
      status := map[];
      previews := map[];
      latest := map[];
      samples := map[];
    }

    /**
      `upload_video`: the first check that fails, in the route's order as
      `UploadRejection` gives it, answers the request; a probe failure comes after
      the save and removes the stored file again. An upload that passes every
      check is saved and gets the new job's status, empty frame cache and history
      record. Starting the worker is left to the caller.
    */
    method UploadVideo(hist: HistoryStore, disk: Disk, modelLoaded: bool, upload: Option<string>,
                       timestamp: string, saveError: Option<string>, probe: Probe)
      returns (r: Result<Started, UploadError>)
      requires Valid()
      modifies this`status, this`previews, hist, disk
      ensures Valid()
      ensures r.Err? <==> UploadRejection(modelLoaded, upload, saveError, probe).Some?
      ensures r.Err? ==> r.error == UploadRejection(modelLoaded, upload, saveError, probe).value
      ensures latest == old(latest) && samples == old(samples)
      ensures r.Err? ==> status == old(status) && previews == old(previews) && hist.file == old(hist.file)
      ensures r.Err? && (r.error.InvalidVideo? || r.error.NoValidFrames?) ==>
                upload.Some? && disk.files == old(disk.files) - {UploadPath(timestamp, upload.value)}
      ensures r.Err? && !r.error.InvalidVideo? && !r.error.NoValidFrames? ==> disk.files == old(disk.files)
      ensures r.Ok? ==>
                upload.Some? &&
                var out := Naming.OutputName(timestamp);
                r.value == Started(out, probe.frameCount, "/video_stream/" + out) &&
                status == old(status)[out := JobRecord(Processing, 0, probe.frameCount, 0, None)] &&
                previews == old(previews)[out := []] &&
                hist.file == Stored(Upserted(old(hist.Entries()), VideoEntry(upload.value, out, timestamp))) &&
                disk.files == old(disk.files) + {UploadPath(timestamp, upload.value)}
    {
      var rejection := UploadRejection(modelLoaded, upload, saveError, probe);
      if rejection.Some? {
        if rejection.value.InvalidVideo? || rejection.value.NoValidFrames? {
          // the upload was saved, then removed when the probe refused it
          var path := UploadPath(timestamp, upload.value);
          disk.files := disk.files + {path};
          disk.files := disk.files - {path};
        }
        return Err(rejection.value);
      }
      var started := AcceptUpload(hist, disk, upload.value, timestamp, probe.frameCount);
      r := Ok(started);
    }

    /** Lines 403-409 and 428-466 once every check has passed: the save, the new job's records and the reply. */
    method AcceptUpload(hist: HistoryStore, disk: Disk, name: string, timestamp: string, frameCount: int)
      returns (started: Started)
      requires Valid()
      modifies this`status, this`previews, hist, disk
      ensures Valid()
      ensures var out := Naming.OutputName(timestamp);
              started == Started(out, frameCount, "/video_stream/" + out) &&
              status == old(status)[out := JobRecord(Processing, 0, frameCount, 0, None)] &&
              previews == old(previews)[out := []] &&
              hist.file == Stored(Upserted(old(hist.Entries()), VideoEntry(name, out, timestamp))) &&
              disk.files == old(disk.files) + {UploadPath(timestamp, name)}
    {
      disk.files := disk.files + {UploadPath(timestamp, name)};
      var out := Naming.OutputName(timestamp);
      StartJob(hist, name, out, timestamp, frameCount);
      started := Started(out, frameCount, "/video_stream/" + out);
    }

    /** Lines 429-453: the new job's status record, its empty frame cache and its history record. */
    method StartJob(hist: HistoryStore, name: string, out: string, timestamp: string, frameCount: int)
      requires Valid()
      modifies this`status, this`previews, hist
      ensures Valid()
      ensures status == old(status)[out := JobRecord(Processing, 0, frameCount, 0, None)]
      ensures previews == old(previews)[out := []]
      ensures hist.file == Stored(Upserted(old(hist.Entries()), VideoEntry(name, out, timestamp)))
    {
      status := status[out := JobRecord(Processing, 0, frameCount, 0, None)];
      previews := previews[out := []];
      hist.Upsert(VideoEntry(name, out, timestamp));
    }

    /**
      Lines 717-728: append the frame's sample, if any, creating the job's list
      if needed and dropping the oldest past 3000.
    */
    method OfferSample(id: string, o: Option<Sample>, ghost s0: map<string, seq<Sample>>, ghost xs: seq<Sample>)
      requires Valid() && |Get(s0, id)| <= IndexCapacity && samples == SamplesAfter(s0, id, xs)
      modifies this`samples
      ensures Valid()
      ensures samples == SamplesAfter(s0, id, xs + OptSeq(o))
    {
      SamplesStep(s0, id, xs, o);
      if o.Some? {
        PushSpec(Get(samples, id), o.value, IndexCapacity);
        samples := samples[id := Push(Get(samples, id), o.value, IndexCapacity)];
      }
    }

    /** Lines 731-737: store the frame's latest-detections record, if any. */
    method OfferLatest(id: string, o: Option<Latest>, ghost l0: map<string, Latest>, ghost cur: Option<Latest>)
      requires latest == LatestAfter(l0, id, cur)
      modifies this`latest
      ensures latest == LatestAfter(l0, id, if o.Some? then o else cur)
    {
      if o.Some? {
        latest := latest[id := o.value];
      }
    }

    /** Lines 748-758: append the frame's JPEG, if it encoded, while the job's cache exists; drop the oldest past 100. */
    method OfferPreview(id: string, o: Option<Buffer>, ghost p0: map<string, seq<Buffer>>, ghost xs: seq<Buffer>)
      requires Valid() && (id in p0 ==> |p0[id]| <= FrameCacheCapacity) && previews == PreviewsAfter(p0, id, xs)
      modifies this`previews
      ensures Valid()
      ensures previews == PreviewsAfter(p0, id, xs + OptSeq(o))
    {
      PreviewsStep(p0, id, xs, o);
      if o.Some? && id in previews {
        PushSpec(previews[id], o.value, FrameCacheCapacity);
        previews := previews[id := Push(previews[id], o.value, FrameCacheCapacity)];
      }
    }

    /** Lines 763-767: while the job is tracked, count frame n + 1 and copy its progress into the history. */
    method CountFrame(hist: HistoryStore, id: string, n: nat, total: int,
                      ghost t0: map<string, JobRecord>, ghost h0: seq<Entry>)
      requires total > 0 && Valid()
      requires status == StatusAfter(t0, id, n, total)
      requires hist.Entries() == ProgressHistory(h0, id, id in t0, n, total)
      modifies this`status, hist
      ensures Valid()
      ensures status == StatusAfter(t0, id, n + 1, total)
      ensures hist.Entries() == ProgressHistory(h0, id, id in t0, n + 1, total)
      ensures status.Keys == old(status).Keys
      ensures forall j :: j in old(status) ==> status[j].status == old(status)[j].status
    {
      CountersStep(t0, h0, id, n, total);
      if id in status {
        status := status[id := RecordFrames(status[id], n + 1, total)];
        hist.UpdateProgress(id, Some(status[id].progress), None);
      }
    }

    /** The registries and the history after the frames fs of job id, from the given starting point. */
    ghost predicate After(hist: HistoryStore, id: string, fs: seq<FrameIn>, w: int, h: int, total: int,
                          encode: Image -> Option<Buffer>, p0: map<string, seq<Buffer>>, s0: map<string, seq<Sample>>,
                          l0: map<string, Latest>, t0: map<string, JobRecord>, h0: seq<Entry>)
      requires total > 0
      reads this, hist
    {
      previews == PreviewsAfter(p0, id, PreviewsOf(fs, encode)) &&
      samples == SamplesAfter(s0, id, SamplesOf(fs, w, h)) &&
      latest == LatestAfter(l0, id, LatestOf(fs, w, h)) &&
      status == StatusAfter(t0, id, |fs|, total) &&
      hist.Entries() == ProgressHistory(h0, id, id in t0, |fs|, total)
    }

    /** One iteration of the read loop, stated against the folds over the frames read so far. */
    method Advance(hist: HistoryStore, id: string, ghost fs: seq<FrameIn>, k: nat, f: FrameIn, w: int, h: int, total: int,
                   encode: Image -> Option<Buffer>, ghost p0: map<string, seq<Buffer>>, ghost s0: map<string, seq<Sample>>,
                   ghost l0: map<string, Latest>, ghost t0: map<string, JobRecord>, ghost h0: seq<Entry>)
      returns (shown: Image)
      requires Valid() && total > 0 && k == |fs|
      requires id in p0 ==> |p0[id]| <= FrameCacheCapacity
      requires |Get(s0, id)| <= IndexCapacity
      requires previews == PreviewsAfter(p0, id, PreviewsOf(fs, encode))
      requires samples == SamplesAfter(s0, id, SamplesOf(fs, w, h))
      requires latest == LatestAfter(l0, id, LatestOf(fs, w, h))
      requires status == StatusAfter(t0, id, k, total)
      requires hist.Entries() == ProgressHistory(h0, id, id in t0, k, total)
      modifies this, hist
      ensures Valid()
      ensures shown == Shown(f)
      ensures previews == PreviewsAfter(p0, id, PreviewsOf(fs, encode) + OptSeq(encode(Shown(f))))
      ensures samples == SamplesAfter(s0, id, SamplesOf(fs, w, h) + OptSeq(FrameEffect(f, k, w, h).sample))
      ensures latest == LatestAfter(l0, id, if FrameEffect(f, k, w, h).latest.Some? then FrameEffect(f, k, w, h).latest else LatestOf(fs, w, h))
      ensures status == StatusAfter(t0, id, k + 1, total)
      ensures hist.Entries() == ProgressHistory(h0, id, id in t0, k + 1, total)
    {
      var e := FrameEffect(f, k, w, h);
      OfferSample(id, e.sample, s0, SamplesOf(fs, w, h));
      OfferLatest(id, e.latest, l0, LatestOf(fs, w, h));
      shown := e.shown;
      OfferPreview(id, encode(shown), p0, PreviewsOf(fs, encode));
      CountFrame(hist, id, k, total, t0, h0);
    }

    /** Lines 654-772: every frame read, in order, until the source is exhausted. */
    method RunFrames(hist: HistoryStore, id: string, frames: seq<FrameIn>, w: int, h: int, total: int,
                     encode: Image -> Option<Buffer>) returns (written: seq<Image>, tracker: Tracker)
      requires Valid() && total > 0
      modifies this, hist
      ensures Valid()
      ensures written == ShownOf(frames)
      ensures tracker == TrackAll(frames, w, h)
      ensures After(hist, id, frames, w, h, total, encode,
                    old(previews), old(samples), old(latest), old(status), old(hist.Entries()))
    {
      ghost var p0, s0, l0, t0, h0 := previews, samples, latest, status, hist.Entries();
      written := [];
      tracker := InitialTracker;
      var i := 0;
      while i < |frames|
        invariant 0 <= i <= |frames|
        invariant Valid()
        invariant id in p0 ==> |p0[id]| <= FrameCacheCapacity
        invariant |Get(s0, id)| <= IndexCapacity
        invariant written == ShownOf(frames[..i])
        invariant tracker == TrackAll(frames[..i], w, h)
        invariant After(hist, id, frames[..i], w, h, total, encode, p0, s0, l0, t0, h0)
      {
        var f := frames[i];
        var shown := Advance(hist, id, frames[..i], i, f, w, h, total, encode, p0, s0, l0, t0, h0);
        AfterStep(hist, id, frames, i, w, h, total, encode, p0, s0, l0, t0, h0);
        written := written + [shown];
        tracker := Track(tracker, f, w, h);
        i := i + 1;
      }
      assert frames[..|frames|] == frames;
    }

    /** The state Advance leaves after frame i is the state after the first i + 1 frames. */
    lemma AfterStep(hist: HistoryStore, id: string, frames: seq<FrameIn>, i: nat, w: int, h: int, total: int,
                    encode: Image -> Option<Buffer>, p0: map<string, seq<Buffer>>, s0: map<string, seq<Sample>>,
                    l0: map<string, Latest>, t0: map<string, JobRecord>, h0: seq<Entry>)
      requires total > 0 && i < |frames|
      requires var fs, f := frames[..i], frames[i];
               previews == PreviewsAfter(p0, id, PreviewsOf(fs, encode) + OptSeq(encode(Shown(f)))) &&
               samples == SamplesAfter(s0, id, SamplesOf(fs, w, h) + OptSeq(FrameEffect(f, i, w, h).sample)) &&
               latest == LatestAfter(l0, id, if FrameEffect(f, i, w, h).latest.Some? then FrameEffect(f, i, w, h).latest else LatestOf(fs, w, h)) &&
               status == StatusAfter(t0, id, i + 1, total) &&
               hist.Entries() == ProgressHistory(h0, id, id in t0, i + 1, total)
      ensures After(hist, id, frames[..i + 1], w, h, total, encode, p0, s0, l0, t0, h0)
      ensures ShownOf(frames[..i + 1]) == ShownOf(frames[..i]) + [Shown(frames[i])]
      ensures TrackAll(frames[..i + 1], w, h) == Track(TrackAll(frames[..i], w, h), frames[i], w, h)
    {
      assert frames[..i + 1] == frames[..i] + [frames[i]];
      FoldsStep(frames[..i], frames[i], w, h, encode);
    }

    /** Lines 819-831: mark the job failed and remove the output file. The history is not told. */
    method Fail(disk: Disk, outputPath: string, id: string, message: string)
      modifies this`status, disk
      ensures status == FailIn(old(status), id, message)
      ensures disk.files == old(disk.files) - {outputPath}
    {
      if id in status {
        status := status[id := MarkFailed(status[id], message)];
      }
      disk.files := disk.files - {outputPath};
    }

    /** Lines 779-805: the history writes of completion. */
    static method RecordCompletion(hist: HistoryStore, id: string, persisted: Option<(seq<Detection>, int, int)>,
                                   sampled: seq<Sample>)
      modifies hist
      ensures hist.Entries() == Completion(old(hist.Entries()), id, persisted, sampled)
    {
      ghost var h0 := hist.Entries();
      hist.UpdateProgress(id, Some(100), Some(Completed));
      ghost var h1 := hist.Entries();
      assert h1 == Patched(h0, id, ProgressPatch(Some(100), Some(Completed)));
      if persisted.Some? {
        hist.UpdateDetections(id, persisted.value.0, persisted.value.1, persisted.value.2);
      }
      assert hist.Entries() == if persisted.Some? then Patched(h1, id, DetectionsPatch(persisted.value.0, persisted.value.1, persisted.value.2)) else h1;
      if sampled != [] {
        hist.SetFramesDetections(id, sampled);
      }
    }

    /** Lines 775-815: mark completed, write the history, keep the last 10 JPEGs. */
    method Finish(hist: HistoryStore, id: string, tracker: Tracker)
      requires Valid()
      modifies this`status, this`previews, hist
      ensures Valid()
      ensures status == CompleteIn(old(status), id)
      ensures previews == TrimIn(old(previews), id)
      ensures hist.Entries() == Completion(old(hist.Entries()), id, Persisted(tracker), EveryTenth(Get(samples, id)))
    {
      if id in status {
        status := status[id := MarkCompleted(status[id])];
      }
      RecordCompletion(hist, id, Persisted(tracker), EveryTenth(Get(samples, id)));
      if id in previews {
        LastNSpec(previews[id], FrameCacheTail);
        previews := previews[id := LastN(previews[id], FrameCacheTail)];
      }
    }

    /**
      `process_video(input, outputPath, id)`: open the source, record its
      properties in the history, configure the writer, run the frames, then
      complete or fail. The writer creates the output file when it opens.
    */
    method ProcessVideo(hist: HistoryStore, disk: Disk, outputPath: string, id: string, src: Source,
                        opens: Codec -> bool, frames: seq<FrameIn>, end: End,
                        encode: Image -> Option<Buffer>) returns (r: Run)
      requires Valid()
      requires src.Opened? ==> src.totalFrames > 0
      modifies this, hist, disk
      ensures Valid()
      ensures src.Unopenable? ==>
                r == Failed(OpenFailed) && status == FailIn(old(status), id, OpenFailed) &&
                previews == old(previews) && samples == old(samples) && latest == old(latest) &&
                hist.file == old(hist.file) && disk.files == old(disk.files) - {outputPath}
      ensures src.Opened? ==>
                Opened(old(status), old(previews), old(samples), old(latest), old(hist.Entries()), old(disk.files),
                       hist, disk, outputPath, id, src, opens, frames, end, encode, r)
      ensures id in old(status) ==> id in status && status[id].status == (if r.Failed? then Error else Completed)
      ensures id !in old(status) ==> status == old(status)
    {
      if src.Unopenable? {
        Fail(disk, outputPath, id, OpenFailed);
        return Failed(OpenFailed);
      }
      hist.UpdateMeta(id, src.fps, src.width, src.height);
      var cfg := Configure(src.fps, src.width, src.height, opens);
      if cfg.Err? {
        Fail(disk, outputPath, id, cfg.error);
        return Failed(cfg.error);
      }
      ghost var s0 := status;
      r := WriteOutput(hist, disk, outputPath, id, cfg.value, src.totalFrames, frames, end, encode);
      RunEndsTerminal(s0, id, |frames|, src.totalFrames, if end.Crashed? then end.message else "");
    }

    /**
      The state `process_video` leaves once the source opened (lines 619-831):
      the history has the source's properties; a writer that does not open fails
      the job; otherwise the frames run, and the job completes or fails.
    */
    ghost predicate Opened(status0: map<string, JobRecord>, previews0: map<string, seq<Buffer>>,
                           samples0: map<string, seq<Sample>>, latest0: map<string, Latest>, history0: seq<Entry>,
                           files0: set<string>, hist: HistoryStore, disk: Disk, outputPath: string, id: string,
                           src: Source, opens: Codec -> bool, frames: seq<FrameIn>, end: End,
                           encode: Image -> Option<Buffer>, r: Run)
      requires src.Opened? && src.totalFrames > 0
      reads this, hist, disk
    {
      var c := Configure(src.fps, src.width, src.height, opens);
      var h1 := Patched(history0, id, MetaPatch(src.fps, src.width, src.height));
      if c.Err? then
        r == Failed(c.error) && status == FailIn(status0, id, c.error) &&
        previews == previews0 && samples == samples0 && latest == latest0 &&
        hist.Entries() == h1 && disk.files == files0 - {outputPath}
      else
        var cfg := c.value;
        var hRun := ProgressHistory(h1, id, id in status0, |frames|, src.totalFrames);
        var sRun := StatusAfter(status0, id, |frames|, src.totalFrames);
        var pRun := PreviewsAfter(previews0, id, PreviewsOf(frames, encode));
        samples == SamplesAfter(samples0, id, SamplesOf(frames, cfg.width, cfg.height)) &&
        latest == LatestAfter(latest0, id, LatestOf(frames, cfg.width, cfg.height)) &&
        (end.Crashed? ==>
           r == Failed(end.message) && status == FailIn(sRun, id, end.message) && previews == pRun &&
           hist.Entries() == hRun && disk.files == files0 - {outputPath}) &&
        (end.Exhausted? ==>
           r == Finished(cfg, ShownOf(frames)) && status == CompleteIn(sRun, id) &&
           previews == TrimIn(pRun, id) && disk.files == files0 + {outputPath} &&
           hist.Entries() == Completion(hRun, id, Persisted(TrackAll(frames, cfg.width, cfg.height)),
                                        EveryTenth(Get(samples, id))))
    }

    /** Lines 640-815 once the writer opened: it creates the output, the frames run, then completion or failure. */
    method WriteOutput(hist: HistoryStore, disk: Disk, outputPath: string, id: string, cfg: Config, total: int,
                       frames: seq<FrameIn>, end: End, encode: Image -> Option<Buffer>) returns (r: Run)
      requires Valid() && total > 0
      modifies this, hist, disk
      ensures Valid()
      ensures samples == SamplesAfter(old(samples), id, SamplesOf(frames, cfg.width, cfg.height))
      ensures latest == LatestAfter(old(latest), id, LatestOf(frames, cfg.width, cfg.height))
      ensures end.Crashed? ==>
                r == Failed(end.message) &&
                status == FailIn(StatusAfter(old(status), id, |frames|, total), id, end.message) &&
                previews == PreviewsAfter(old(previews), id, PreviewsOf(frames, encode)) &&
                hist.Entries() == ProgressHistory(old(hist.Entries()), id, id in old(status), |frames|, total) &&
                disk.files == old(disk.files) - {outputPath}
      ensures end.Exhausted? ==>
                r == Finished(cfg, ShownOf(frames)) &&
                status == CompleteIn(StatusAfter(old(status), id, |frames|, total), id) &&
                previews == TrimIn(PreviewsAfter(old(previews), id, PreviewsOf(frames, encode)), id) &&
                disk.files == old(disk.files) + {outputPath} &&
                hist.Entries() == Completion(ProgressHistory(old(hist.Entries()), id, id in old(status), |frames|, total), id,
                                             Persisted(TrackAll(frames, cfg.width, cfg.height)), EveryTenth(Get(samples, id)))
    {
      disk.files := disk.files + {outputPath};
      var written, tracker := RunFrames(hist, id, frames, cfg.width, cfg.height, total, encode);
      if end.Crashed? {
        Fail(disk, outputPath, id, end.message);
        return Failed(end.message);
      }
      Finish(hist, id, tracker);
      r := Finished(cfg, written);
    }

    /**
      `check_video(filename)`: classify the job and, for a tracked job that is
      not ready or failed, copy its progress and status into the history.
    */
    method CheckVideo(hist: HistoryStore, disk: Disk, filename: string, outputSize: nat) returns (reply: CheckReply)
      modifies hist
      ensures reply == Classify(filename, if filename in status then Some(status[filename]) else None,
                                Join(OutputFolder, filename) in disk.files && outputSize > 0,
                                if FirstMatch(old(hist.Entries()), filename).Some?
                                then Some(old(hist.Entries())[FirstMatch(old(hist.Entries()), filename).value]) else None)
      ensures status == old(status)
      ensures reply.InProgress? ==>
                hist.Entries() == Patched(old(hist.Entries()), filename, ProgressPatch(Some(reply.progress), Some(reply.status)))
      ensures !reply.InProgress? ==> hist.file == old(hist.file)
    {
      var info := if filename in status then Some(status[filename]) else None;
      var ready := Join(OutputFolder, filename) in disk.files && outputSize > 0;
      var meta := None;
      if ready && info.Some? && info.value.status == Completed {
        var h := hist.Entries();
        var k := HistoryStore.Locate(h, filename);
        if k.Some? {
          meta := Some(h[k.value]);
        }
      }
      reply := Classify(filename, info, ready, meta);
      if reply.InProgress? {
        hist.UpdateProgress(filename, Some(reply.progress), Some(reply.status));
      }
    }

    /**
      `delete_video(filename)`: for a job with a history record, remove the
      output, the first upload found under the recovered timestamp (when the
      record names an original), every history record of the job and its four
      registry entries.
    */
    method DeleteVideo(hist: HistoryStore, disk: Disk, filename: string) returns (r: Deletion)
      requires Valid()
      modifies this, hist, disk
      ensures Valid()
      ensures FirstMatch(old(hist.Entries()), filename).None? ==>
                r == NotFound && hist.file == old(hist.file) && disk.files == old(disk.files) &&
                status == old(status) && previews == old(previews) && latest == old(latest) && samples == old(samples)
      ensures FirstMatch(old(hist.Entries()), filename).Some? ==>
                var entry := old(hist.Entries())[FirstMatch(old(hist.Entries()), filename).value];
                var remaining := old(disk.files) - {Join(OutputFolder, filename)};
                var original := if entry.originalFilename != ""
                                then FirstExisting(Naming.OriginalCandidates(Naming.TimestampOf(filename)), remaining)
                                else None;
                r == Deleted(original) &&
                disk.files == remaining - (if original.Some? then {original.value} else {}) &&
                hist.file == Stored(Without(old(hist.Entries()), filename)) &&
                status == old(status) - {filename} && previews == old(previews) - {filename} &&
                latest == old(latest) - {filename} && samples == old(samples) - {filename}
    {
      var h := hist.Entries();
      var k := HistoryStore.Locate(h, filename);
      if k.None? {
        return NotFound;
      }
      var entry := h[k.value];
      disk.files := disk.files - {Join(OutputFolder, filename)};
      var original := None;
      if entry.originalFilename != "" {
        original := FindExisting(Naming.OriginalCandidates(Naming.TimestampOf(filename)), disk.files);
        if original.Some? {
          disk.files := disk.files - {original.value};
        }
      }
      hist.Remove(filename);
      Forget(filename);
      r := Deleted(original);
    }

    /** Lines 1036-1050: the job's entries leave the four registries. */
    method Forget(id: string)
      requires Valid()
      modifies this
      ensures Valid()
      ensures status == old(status) - {id} && previews == old(previews) - {id}
      ensures latest == old(latest) - {id} && samples == old(samples) - {id}
    {
      status := status - {id};
      previews := previews - {id};
      latest := latest - {id};
      samples := samples - {id};
    }

    /** The probe loop of lines 1023-1029 without the removal. */
    static method FindExisting(cands: seq<string>, files: set<string>) returns (found: Option<string>)
      ensures found == FirstExisting(cands, files)
    {
      var i := 0;
      while i < |cands|
        invariant 0 <= i <= |cands|
        invariant FirstExisting(cands, files) == FirstExisting(cands[i..], files)
      {
        if cands[i] in files {
          return Some(cands[i]);
        }
        assert cands[i..][1..] == cands[i + 1..];
        i := i + 1;
      }
      return None;
    }
  }
}
