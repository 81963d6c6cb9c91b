/**
  The values the video pipeline stores: detections, sampled per-frame detections,
  the per-job status record, the latest-detections record, and the files on disk.
  Pixel data and encoded previews are opaque byte strings; confidences and box
  coordinates are opaque numbers (the detector rounds confidences to two decimals).
*/
module Domain {
  import opened Wrappers

  type Image = seq<bv8>
  type Buffer = seq<bv8>

  datatype Box = Box(x1: real, y1: real, x2: real, y2: real)

  /** One detector output: `{'class', 'confidence', 'bbox'}`. */
  datatype Detection = Detection(className: string, confidence: real, box: Box)

  /** One entry of the detection index: `{'frame', 'detections', 'width', 'height'}`. */
  datatype Sample = Sample(frame: nat, detections: seq<Detection>, width: int, height: int)

  datatype JobStatus = Processing | Completed | Error

  /** The record `video_processing_status[job]`; `error` is absent until a failure. */
  datatype JobRecord = JobRecord(
    status: JobStatus,
    progress: int,
    totalFrames: int,
    processedFrames: int,
    error: Option<string>)

  /** The record `detections_cache[key]`: the latest detections and when they were stored. */
  datatype Latest = Latest(detections: seq<Detection>, timestamp: real, width: int, height: int)

  const FrameCacheCapacity: nat := 100
  const FrameCacheTail: nat := 10
  const IndexCapacity: nat := 3000
  const SampleStep: nat := 3

  /**
    `int((done / total) * 100)`, taken as the exact floor of done * 100 / total
    (the source computes it in floating point).
  */
  function Progress(done: nat, total: int): int
    requires total > 0
  {
    done * 100 / total
  }

  /** Progress never decreases as frames are processed. */
  lemma ProgressMonotone(a: nat, b: nat, total: int)
    requires total > 0 && a <= b
    ensures Progress(a, total) <= Progress(b, total)
  {
    var p, q := a * 100 / total, b * 100 / total;
    assert p * total <= a * 100 <= b * 100 < (q + 1) * total;
  }

  lemma Cancel(x: int, y: int, t: int)
    requires t > 0 && x * t < y * t
    ensures x < y
  {
  }

  /** All frames done is 100 percent. */
  lemma ProgressFull(total: int)
    requires total > 0
    ensures Progress(total, total) == 100
  {
    var q := total * 100 / total;
    assert q * total <= 100 * total < (q + 1) * total;
    Cancel(q, 101, total);
    Cancel(100, q + 1, total);
  }

  /** Within the reported frame count progress stays in 0..100 and reaches 100 at the last frame. */
  lemma ProgressBounds(done: nat, total: int)
    requires total > 0 && done <= total
    ensures 0 <= Progress(done, total) <= 100
    ensures done == total ==> Progress(done, total) == 100
  {
    ProgressFull(total);
    ProgressMonotone(done, total, total);
  }

  /**
    The reported frame count is an estimate: a video that yields more frames
    than it announced reports progress above 100, which the completion step then
    lowers back to 100.
  */
  lemma ProgressOvershoots(done: nat, total: int)
    requires total > 0 && done >= 2 * total
    ensures Progress(done, total) >= 200
  {
    var p := done * 100 / total;
    assert done * 100 >= 200 * total;
    assert (p + 1) * total > done * 100;
  }

  /** Lines 765-766: the counters written after each frame. */
  function RecordFrames(r: JobRecord, done: nat, total: int): JobRecord
    requires total > 0
  {
    r.(processedFrames := done, progress := Progress(done, total))
  }

  /** Lines 777-778. */
  function MarkCompleted(r: JobRecord): JobRecord {
    r.(status := Completed, progress := 100)
  }

  /** Lines 823-824. */
  function MarkFailed(r: JobRecord, message: string): JobRecord {
    r.(status := Error, error := Some(message))
  }

  /** A status change is allowed when it stays put or leaves `processing`. */
  predicate Advances(before: JobStatus, after: JobStatus) {
    before == after || before == Processing
  }

  /**
    The life of a job record under its worker: any number of frame updates, then
    completion or failure. Frame updates leave the status and the error as they
    were, a terminal one included, and never lower progress. Completion sets
    `completed` unconditionally and failure sets `error` unconditionally, so each
    moves forward except from the other terminal value. These facts follow from
    the definitions; that a whole run ends in exactly one terminal value is the
    terminal-status postcondition of `Worker.Registry.ProcessVideo`.
  */
  lemma {:induction false} WorkerTransitionsAdvance(r: JobRecord, a: nat, b: nat, total: int, message: string)
    requires total > 0 && a <= b
    ensures RecordFrames(r, a, total).status == r.status && RecordFrames(r, a, total).error == r.error
    ensures RecordFrames(r, a, total).progress <= RecordFrames(RecordFrames(r, a, total), b, total).progress
    ensures Advances(r.status, MarkCompleted(RecordFrames(r, b, total)).status) <==> r.status != Error
    ensures Advances(r.status, MarkFailed(RecordFrames(r, b, total), message).status) <==> r.status != Completed
    ensures MarkCompleted(RecordFrames(r, b, total)).progress == 100
  {
    ProgressMonotone(a, b, total);
  }

  /** |sample.frame - q|. */
  function Distance(s: Sample, q: int): nat {
    if s.frame >= q then s.frame - q else q - s.frame
  }

  /**
    `min(samples, key=lambda x: abs(x['frame'] - q))`: the index of the sample
    closest to frame q, the earliest one when several are equally close.
  */
  function NearestIndex(samples: seq<Sample>, q: int): (k: nat)
    requires |samples| > 0
    ensures k < |samples|
    ensures forall j :: 0 <= j < |samples| ==> Distance(samples[k], q) <= Distance(samples[j], q)
    ensures forall j :: 0 <= j < k ==> Distance(samples[k], q) < Distance(samples[j], q)
    decreases |samples|
  {
    if |samples| == 1 then 0
    else
      var k := NearestIndex(samples[..|samples| - 1], q);
      if Distance(samples[|samples| - 1], q) < Distance(samples[k], q) then |samples| - 1 else k
  }

  /** The files present on disk, by path. */
  class Disk {
    var files: set<string>

    constructor (initial: set<string>)
      ensures files == initial
    {
      files := initial;
    }
  }

  const UploadFolder := "static/uploads"
  const OutputFolder := "detected"

  /** `os.path.join(folder, name)` on a POSIX system. */
  function Join(folder: string, name: string): string {
    folder + "/" + name
  }
}
