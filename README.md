# Video-job pipeline of the YOLO detection server, in Dafny

This project models the part of `app.py` that accepts a video, processes it in
a background worker, and serves its progress, frames and detections. The parts
modelled are:

- the **history store** (`history.json`), read as a list of records keyed by
  `output_filename`: `load_history`, `get_history_entry`, `upsert_history`,
  the three `update_history_*` functions and the video and image listings;
- the **four in-memory registries** each job owns:
  - the status record (`video_processing_status`);
  - the frame cache of JPEG previews (`video_frames_cache`), at most 100 kept and
    the oldest evicted with `pop(0)`, trimmed to the last 10 on completion;
  - the latest-detections cache (`detections_cache`);
  - the per-frame detection index (`detections_frames_cache`), one sample every
    third frame, at most 3000 kept;
- the **routes** that change them:
  - `upload_video`, with its checks in order and the names it derives;
  - the `process_video` worker;
  - `check_video`;
  - `delete_video`;
- the **readers**: the `video_stream` generator and the `get_detections`
  lookup cascade.

The detector, the video decoder and encoder, the JPEG encoder, the disk and
the clock are oracles. Each is either a parameter or an abstract value:
- each frame arrives with the detector's outcome already attached (`FrameIn`);
- the writer's codecs are a predicate `opens`, and the JPEG encoder is a
  function `encode`;
- the disk is a `Disk` object holding a set of paths, and the current time is a
  real number.

Modules follow the program's structure:

| file | module | contents |
|---|---|---|
| `wrappers.dfy` | `Wrappers` | `Option`, `Result` |
| `text.dfy` | `Text` | string order (`sorted` on strings), `str.replace` |
| `fifo.dfy` | `Fifo` | `append` + `pop(0)`, `[-n:]`, every-10th slice |
| `domain.dfy` | `Domain` | job record, samples, detections, progress, nearest sample, disk |
| `history.dfy` | `History` | history records, upsert, updates, listings, `HistoryStore` class |
| `naming.dfy` | `Naming` | upload and output names, `splitext`, `lower`, timestamp recovery |
| `pipeline.dfy` | `Pipeline` | writer configuration, per-frame effect, folds over the frames read |
| `worker.dfy` | `Worker` | upload checks, `check_video` classification, the `Registry` class with the routes and the worker |
| `stream.dfy` | `Stream` | the stream generator's poll step, sessions, the polling loop |
| `queries.dfy` | `Queries` | `get_detections` |

The worker is proved against specification functions, which are folds over the
frames read so far. `Registry.RunFrames` is the read loop. Its invariant says
that each registry equals its starting value updated by those folds:
- the frame cache is `PreviewsAfter`;
- the detection index is `SamplesAfter`;
- the latest-detections cache is `LatestAfter`;
- the status record is `StatusAfter`;
- the history is `ProgressHistory`.

The lemmas then state what the source promises about those folds.

The per-frame effect these folds and the worker use is the corrected one of the
Findings row below (`Pipeline.FrameEffect`): a detected frame is written
annotated and recorded in the latest-detections cache. The source as written
writes every frame as read and never sets that cache for a video job; the folds
over the as-written effect are `Pipeline.ShownOfAsWritten`,
`Pipeline.SamplesOfAsWritten` and `Pipeline.LatestOfAsWritten`, and
`Pipeline.AsWrittenFolds` states what they give.

Four behaviours of the source are modelled as written and proved, not
corrected:
- **The stream's cursor is a list position** in a list the worker truncates.
  Once the frame cache is full, its length stays at 100 while new frames
  replace old ones, so a client whose cursor reached 99 is never sent a new
  frame while the job is processing.
  - `Stream.FullCacheHidesNewFrames` shows the full-cache case;
  - `Stream.ShortCacheStalls` shows the general case.

  The trim to 10 frames does not stall anyone: it comes after the status is
  already `completed`, so a client polling then has stopped, and one that
  connects later is sent the 10 frames and stops.
- **The completed branch of the stream never resends the last frame**, because
  the cursor already sits at the end of the list (`Stream.StepSends`,
  `Stream.Serve`). The error branch always sends the last frame of a non-empty
  list once more (`Stream.StepSends`). A client that already holds that frame
  gets it twice, as does one whose failing poll also brought new frames
  (`Stream.ErrorRepeatsLast`). A client stalled at a full cache gets it once,
  and it is a frame it has never been sent
  (`Stream.StalledClientGetsNewestOnFailure`).
- **A deleted job's stream never ends.** The missing status reads as
  `processing`, and the worker never recreates the keys it skips
  (`Stream.DeletedJobNeverEnds`). By contrast, the worker's `setdefault` does
  recreate a deleted job's detection index (`Worker.SamplesAfter`).
- **A failed job's message never reaches the poller.** `check_video` reports the
  message only while the output file has data, and the worker removes the
  output when it fails. The poller is told `error` with the counters instead
  (`Worker.PollAfterRun`).

## Model

| member | source | states |
|---|---|---|
| Fifo.PushSpec | app.py:753-758 | appending to a buffer within capacity keeps it within capacity with the new element last, drops exactly the oldest element when and only when it was full |
| Fifo.PushLastN | app.py:753-758 | `append` then `pop(0)` on the last n elements is the last n of the list with the element appended |
| Fifo.LastNSpec | app.py:811-815 | `[-n:]` keeps exactly the last min(len, n) elements, in order |
| Fifo.LastNOfLastN | app.py:811-815 | the last m of the last n (m <= n) are the last m |
| Fifo.EveryTenth | app.py:797 | the slice has ceil(len/10) entries and entry i is entry 10*i of the list |
| Fifo.Push | app.py:753-758 | `append` then `pop(0)` once past capacity; its properties are stated by Fifo.PushSpec and Fifo.PushLastN |
| Fifo.LastN | app.py:811-815 | the slice `[-n:]`; stated by Fifo.LastNSpec and Fifo.LastNOfLastN |
| Domain.ProgressMonotone | app.py:766 | progress never decreases as the processed count grows |
| Domain.ProgressFull | app.py:766 | all announced frames done is exactly 100 |
| Domain.ProgressBounds | app.py:766 | within the announced count progress stays in 0..100 and is 100 at the last frame |
| Domain.ProgressOvershoots | app.py:766 | a video yielding twice its announced frame count reports progress of at least 200 |
| Domain.WorkerTransitionsAdvance | app.py:763-824 | frame updates keep the status and the error as they were, terminal ones included, and never lower progress; completion gives progress 100; completion moves forward from every status but `error`, failure from every status but `completed` |
| Domain.NearestIndex | app.py:1070 | `min` with key: the picked sample is at least as close to the frame as every sample, and strictly closer than every earlier one |
| Domain.Progress | app.py:766 | the progress formula; stated by Domain.ProgressMonotone, Domain.ProgressFull, Domain.ProgressBounds and Domain.ProgressOvershoots |
| Domain.RecordFrames | app.py:763-766 | the counters written after a frame; stated by Domain.WorkerTransitionsAdvance and Worker.CountersStep |
| Domain.MarkCompleted | app.py:775-778 | the completed record; stated by Domain.WorkerTransitionsAdvance and Worker.RunEndsTerminal |
| Domain.MarkFailed | app.py:819-824 | the failed record with its message; stated by Domain.WorkerTransitionsAdvance, Worker.RunEndsTerminal and Worker.PollAfterRun |
| History.Lookup | app.py:111-116 | the first record with the key, present exactly when some record has the key |
| History.FirstMatch | app.py:113-116 | the position of the first record with the key; no earlier record has it; None exactly when none has it |
| History.HistoryStore.Locate | app.py:135-142 | the search loop with `break` finds exactly `FirstMatch` |
| History.HistoryStore.GetEntry | app.py:111-116 | returns the first record with the key, or None when no record has it |
| History.UpsertSpec | app.py:119-128 | after an upsert the new record is present, it is the only record with its key, the other records are exactly the earlier records with other keys, and the list is sorted newest first |
| History.UpsertMembers | app.py:124-127 | the records after an upsert are the new one and the earlier ones with another key |
| History.UpsertCount | app.py:124-127 | exactly one record carries the new record's key |
| History.UpsertKeepsUnique | app.py:119-128 | an upsert keeps at most one record per key |
| History.FilterCount | app.py:124 | the list comprehension keeps all records of a kept key and none of a dropped one |
| History.FilterNewestFirst | app.py:124 | filtering a newest-first list keeps it newest first |
| History.SortIsNewestFirst | app.py:127 | the sort by `created_at` descending yields a newest-first list |
| History.SortCount | app.py:127 | the sort neither adds nor loses a record of any key |
| History.SortStable | app.py:127 | the sort is stable: the records sharing a `created_at` stamp come out in their original order |
| History.HistoryStore.Upsert | app.py:119-128 | the file afterwards holds the upserted list |
| History.ApplyWritesNamedFields | app.py:131-174 | each update writes only its named fields, never the key or timestamp; a progress update skips a field given as None |
| History.Patched | app.py:131-174 | the first record with the key, and only it, gets the update; with no such record the list is unchanged |
| History.PatchedPreserves | app.py:131-174 | updates keep the newest-first order, the count of records per key and the position of every first match |
| History.ProgressPatchTwice | app.py:131-144 | two progress updates equal one carrying the later values, the skipped fields keeping the earlier ones |
| History.HistoryStore.ApplyToFirst | app.py:131-174 | the store's updated list is `Patched`; with no matching record the file is not rewritten |
| History.HistoryStore.UpdateProgress | app.py:131-144 | progress/status update of the first match; file untouched without a match |
| History.HistoryStore.UpdateMeta | app.py:147-159 | fps/width/height update of the first match; file untouched without a match |
| History.HistoryStore.UpdateDetections | app.py:162-174 | detections/width/height update of the first match; file untouched without a match |
| History.HistoryStore.SetFramesDetections | app.py:799-805 | sampled index on the first match, and the file is saved even with no match |
| History.HistoryStore.Remove | app.py:1032-1033 | the file holds the list without any record of the key |
| History.HistoryViews | app.py:939-954 | `/history` lists exactly the untyped and 'video' records, `/image_history` exactly the 'image' ones, none in both, each keeping history order |
| History.ImageStampBelowVideoStamp | app.py:404 | within one year an image stamp (line 572 format) is a smaller string than any video stamp (line 404 format) |
| History.VideoBeforeImageOfSameYear | app.py:127 | so the newest-first history lists every video of a year before every image of that year, whatever their real times |
| History.Loaded | app.py:91-99 | `load_history`, a missing or unreadable file read as the empty list; stated by History.HistoryStore.GetEntry and History.HistoryStore.Upsert |
| History.Without | app.py:1032 | the list without the job's records; stated by History.FilterCount and History.UpsertMembers |
| History.Filter | app.py:124 | the list comprehension; stated by History.FilterCount and History.FilterNewestFirst |
| History.Insert | app.py:127 | one step of the stable descending sort; stated through History.SortIsNewestFirst, History.SortCount and History.SortStable |
| History.SortNewestFirst | app.py:127 | `sorted(..., reverse=True)` on `created_at`; stated by History.SortIsNewestFirst, History.SortCount and History.SortStable |
| History.Upserted | app.py:119-128 | `upsert_history` on the list; stated by History.UpsertSpec, History.UpsertMembers, History.UpsertCount and History.UpsertKeepsUnique |
| History.Apply | app.py:131-174 | the field assignments of the update functions; stated by History.ApplyWritesNamedFields |
| History.VideoHistory | app.py:940-945 | the `/history` listing; stated by History.HistoryViews |
| History.ImageHistory | app.py:949-954 | the `/image_history` listing; stated by History.HistoryViews |
| Naming.OriginalCandidates | app.py:1024-1025 | the five probed upload paths, one per extension in the loop's order |
| Naming.LowerAscii | app.py:399 | same length; ASCII capitals lowered, every other character kept |
| Naming.Extension | app.py:399 | `splitext(...)[1]` is empty or starts with a dot and holds no further dot and no slash; its value is fixed by Naming.ExtensionIsSuffix and Naming.ExtensionOfStem, and the empty case of a dot file by Worker.DotFileRefused |
| Naming.ExtensionIsSuffix | app.py:399 | the extension is a suffix of the file name |
| Naming.ExtensionOfStem | app.py:399 | for a base name without slashes that is not all dots, dotted ones such as `my.clip` included, the extension is exactly the suffix after it |
| Naming.AllowedShape | app.py:398 | each accepted extension is a dot and lower-case characters with no slash or second dot |
| Naming.ExtensionOfUpload | app.py:399-405 | the stored upload name `video_<ts><ext>` has extension ext again, already lower-case |
| Naming.TimestampRoundTrip | app.py:1023 | removing `detected_` then `.mp4` from `detected_<ts>.mp4` gives back ts for any stamp of digits and `_` |
| Naming.CandidatesAreAllowed | app.py:1024 | the probe list and the accepted set hold the same extensions |
| Naming.UploadIsProbed | app.py:1023-1025 | every accepted upload's stored path is among the paths probed for its job key |
| Naming.UploadName | app.py:405 | the stored upload name; stated by Naming.ExtensionOfUpload and Naming.UploadIsProbed |
| Naming.OutputName | app.py:429 | the output name and job key; stated by Naming.TimestampRoundTrip |
| Naming.TimestampOf | app.py:1023 | the timestamp `delete_video` recovers; stated by Naming.TimestampRoundTrip |
| Pipeline.DownscaleSpec | app.py:632-636 | the size never grows, fits 1280 on both sides, is unchanged when it already fits, and otherwise the larger side is exactly 1280 |
| Pipeline.ThinVideoCollapses | app.py:632-636 | a 1x2000 video is written 0 pixels wide |
| Pipeline.Configure | app.py:619-650 | fails exactly on non-positive dimensions (that message) or when neither codec opens (that message); otherwise fps defaults to 30 when non-positive, the size is the downscaled one, avc1 is preferred to mp4v |
| Pipeline.AsWrittenLosesAnnotation | app.py:734 | as written, a detected frame writes the raw frame and no cached detections, while its sample is still stored |
| Pipeline.AsWrittenCounterexample | app.py:734-740 | a concrete frame whose annotated image differs from what the code as written shows |
| Pipeline.AsWrittenFolds | app.py:654-772 | over a whole run as written, every frame is written as read, the latest-detections cache is never set, and the samples are those of the intended effect |
| Pipeline.ShownOf | app.py:740-747 | one written frame per frame read: the annotated one after a detection, the raw one after a failure |
| Pipeline.SampleTakenIff | app.py:716-728 | a frame is sampled exactly when its detection succeeded and its index is a multiple of 3, with its index, detections and size |
| Pipeline.SamplesOfSound | app.py:717-725 | every sample comes from a detected frame whose index is a multiple of 3 and carries that frame's data |
| Pipeline.SamplesOfIncreasing | app.py:717-728 | sample frame numbers are strictly increasing |
| Pipeline.SamplesOfComplete | app.py:717-725 | every detected frame with index a multiple of 3 has its sample |
| Pipeline.SampleCountAllDetected | app.py:717 | n frames all detected give ceil(n/3) samples |
| Pipeline.HundredFrameVideo | app.py:717-797 | 100 detected frames: 34 samples, none evicted, 4 persisted, the last at frame 99 |
| Pipeline.StrictlyIncreasingFloor | app.py:717-721 | increasing multiples of 3 put sample i at frame 3*i or later |
| Pipeline.LatestOfSpec | app.py:731-737 | the latest-detections entry exists exactly when some frame was detected, and comes from the last detected frame |
| Pipeline.PreviewsOfAllEncoded | app.py:750-755 | when every frame encodes, one JPEG per frame, each the encoding of the frame written |
| Pipeline.FoldsStep | app.py:657-767 | one more frame extends each fold by that frame's effect |
| Pipeline.TrackLastSpec | app.py:708-710 | `last_*` hold the last detected frame's detections and the frame size, or the initial values |
| Pipeline.TrackNonemptySpec | app.py:711-714 | `last_nonempty_*` hold the last frame with a non-empty detection list, or the initial values |
| Pipeline.PersistedSpec | app.py:788-792 | completion persists the last non-empty detections; failing that the last (empty) detections and size of a detected frame; nothing when no frame was detected |
| Pipeline.Downscale | app.py:632-636 | the scaled frame size; stated by Pipeline.DownscaleSpec and Pipeline.ThinVideoCollapses |
| Pipeline.FrameEffect | app.py:657-747 | one frame's effect as intended; stated by Pipeline.SampleTakenIff, Pipeline.AsWrittenLosesAnnotation and the fold lemmas |
| Pipeline.FrameEffectAsWritten | app.py:657-747 | one frame's effect as written; stated by Pipeline.AsWrittenLosesAnnotation, Pipeline.AsWrittenCounterexample and Pipeline.AsWrittenFolds |
| Pipeline.SamplesOf | app.py:717-728 | the samples a run appends; stated by Pipeline.SamplesOfSound, Pipeline.SamplesOfIncreasing, Pipeline.SamplesOfComplete and Pipeline.SampleCountAllDetected |
| Pipeline.PreviewsOf | app.py:750-758 | the JPEGs a run offers the frame cache, under the corrected effect; stated by Pipeline.PreviewsOfAllEncoded |
| Pipeline.LatestOf | app.py:729-737 | the latest-detections entry a run leaves, under the corrected effect; stated by Pipeline.LatestOfSpec |
| Pipeline.ShownOfAsWritten | app.py:734-746 | the frames written as the source stands; stated by Pipeline.AsWrittenFolds |
| Pipeline.SamplesOfAsWritten | app.py:717-728 | the samples appended as the source stands; stated by Pipeline.AsWrittenFolds |
| Pipeline.LatestOfAsWritten | app.py:729-737 | the latest-detections entry as the source stands; stated by Pipeline.AsWrittenFolds |
| Pipeline.Track | app.py:708-714 | the `last_*` trackers after one frame; stated by Pipeline.TrackLastSpec and Pipeline.TrackNonemptySpec |
| Pipeline.TrackAll | app.py:708-714 | the trackers after a run; stated by Pipeline.TrackLastSpec and Pipeline.TrackNonemptySpec |
| Pipeline.Persisted | app.py:785-792 | what completion stores as the record's detections; stated by Pipeline.PersistedSpec |
| Worker.PreviewsStep | app.py:753-758 | one more JPEG is one `append`/`pop(0)` on the job's cache, and nothing when the key is missing |
| Worker.SamplesStep | app.py:719-728 | one more sample is one `append`/`pop(0)` on the job's index, creating it if missing |
| Worker.CountersStep | app.py:763-767 | one more frame sets the counters to n+1 and writes progress to the history exactly when the job is tracked |
| Worker.CompletionAt | app.py:779-805 | the completion writes all land on the first record of the job |
| Worker.CompletionShape | app.py:763-805 | progress and completion writes together replace exactly the job's first record |
| Worker.CompletionRecord | app.py:775-805 | the finished job's record is completed at 100 with the persisted detections and sampled index at the same position; no other record changes |
| Worker.CompletionWithoutRecord | app.py:775-805 | a history without the job's record is left unchanged |
| Worker.FinishedFrameCache | app.py:811-815 | a finished job's cache holds exactly the last 10 JPEGs offered |
| Worker.FullProgressWhileProcessing | app.py:763-766 | the last announced frame reports 100 while the job is still processing |
| Worker.ProgressAlongTheRun | app.py:763-766 | the reported progress stays in 0..100 and never decreases along the run |
| Worker.UploadRejection | app.py:387-426 | an upload is accepted exactly when every check passes; otherwise the first failed check, in the route's order, is reported |
| Worker.DotFileRefused | app.py:399-401 | a file named `.mp4` has no extension and is refused |
| Worker.UpperCaseAccepted | app.py:399-401 | `Clip.MP4` is accepted as a `.mp4` upload |
| Worker.Classify | app.py:840-879 | ready exactly when the output has data and the job completed; failed exactly when it has data and failed (message or default); untracked exactly when no record; otherwise the record's counters |
| Worker.PollAfterRun | app.py:819-877 | a finished job is ready once its output has data and otherwise reports 100; a failed job reports its message only if its output still had data, and once the worker removed it reports `error` with its counters and no message; an untracked job never reports ready |
| Worker.RunEndsTerminal | app.py:763-824 | frame updates keep every record's status and error and its key set; a tracked job then ends completed, or failed with the message; an untracked job stays untracked |
| Worker.FirstExisting | app.py:1024-1029 | the first probed path present on disk, None exactly when none is |
| Worker.DeleteFindsUpload | app.py:1019-1029 | a delete finds the job's upload whenever it is still on disk |
| Worker.Registry.UploadVideo | app.py:384-466 | rejects exactly as `UploadRejection` says, changing nothing but removing the stored file after a failed probe; accepts by saving the upload, creating the status record and empty frame cache, upserting the history record and replying with the output name, frame count and stream URL |
| Worker.Registry.AcceptUpload | app.py:403-466 | an accepted upload: the file stored under `video_<ts><ext>`, the new status record and empty frame cache, the upserted history record, and the reply with the output name, frame count and stream URL |
| Worker.Registry.StartJob | app.py:433-453 | the new status record, the empty frame cache and the upserted history record |
| Worker.Registry.OfferSample | app.py:717-728 | the index after one more optional sample, bound kept |
| Worker.Registry.OfferLatest | app.py:731-737 | the latest-detections cache after one more optional entry |
| Worker.Registry.OfferPreview | app.py:750-758 | the frame cache after one more optional JPEG, bound kept |
| Worker.Registry.CountFrame | app.py:760-767 | counters and history progress after one more frame, every record keeping its status |
| Worker.Registry.Advance | app.py:657-767 | one loop iteration extends every registry and the history by the frame's effect |
| Worker.Registry.RunFrames | app.py:654-772 | the frames written, the `last_*` trackers, and every registry and the history as the folds over all frames read |
| Worker.Registry.Fail | app.py:819-831 | status error with the message for a tracked job; the output file removed |
| Worker.Registry.RecordCompletion | app.py:779-805 | the history after the completion writes |
| Worker.Registry.Finish | app.py:775-815 | status completed at 100, history completion writes, frame cache trimmed to 10 |
| Worker.Registry.ProcessVideo | app.py:600-838 | an unopenable source fails with its message; otherwise the meta write, then the configuration failure, the crash or the completion, each with the whole resulting state of registries, history and disk; a tracked job ends failed exactly when the run failed and completed otherwise, and an untracked one leaves the status registry as it was |
| Worker.Registry.WriteOutput | app.py:640-831 | the output created, the frames run, then completion or failure with every registry and the history stated |
| Worker.Registry.CheckVideo | app.py:840-879 | the reply is `Classify` of the job's record, the output's presence and size and the history record; only a progress reply rewrites the history, with the reported progress and status; the status registry is not changed |
| Worker.Registry.DeleteVideo | app.py:996-1052 | an unknown job changes nothing; otherwise output and first existing upload removed, history without the key, the key gone from all four registries |
| Worker.Registry.Forget | app.py:1036-1050 | the key removed from all four registries and nothing else changed |
| Worker.Registry.FindExisting | app.py:1024-1029 | the probe loop finds exactly `FirstExisting` |
| Worker.PreviewsAfter | app.py:750-758 | the frame cache after a run's JPEGs; stated by Worker.PreviewsStep, Worker.FinishedFrameCache and Stream.FullCacheHidesNewFrames |
| Worker.SamplesAfter | app.py:717-728 | the detection index after a run's samples; stated by Worker.SamplesStep |
| Worker.LatestAfter | app.py:729-737 | the latest-detections cache after a run; stated through Pipeline.LatestOfSpec and Worker.Registry.RunFrames |
| Worker.StatusAfter | app.py:763-766 | the status registry after n frames; stated by Worker.CountersStep, Worker.RunEndsTerminal, Worker.FullProgressWhileProcessing and Worker.ProgressAlongTheRun |
| Worker.ProgressHistory | app.py:767 | the history after n frames' progress writes; stated by Worker.CountersStep and Worker.CompletionRecord |
| Worker.CompleteIn | app.py:775-778 | completion in the status registry; stated by Worker.RunEndsTerminal and Worker.PollAfterRun |
| Worker.FailIn | app.py:819-824 | failure in the status registry; stated by Worker.RunEndsTerminal and Worker.PollAfterRun |
| Worker.TrimIn | app.py:809-815 | the trim to the last 10 JPEGs; stated by Worker.FinishedFrameCache |
| Worker.Completion | app.py:779-805 | the history writes of completion; stated by Worker.CompletionAt, Worker.CompletionShape, Worker.CompletionRecord and Worker.CompletionWithoutRecord |
| Worker.UploadError.HttpStatus | app.py:387-426 | 500 for a missing model or a failed save and 400 for every other rejection; stated by its own cases under Worker.UploadRejection |
| Worker.UploadExtension | app.py:399-401 | the lower-cased `splitext` extension; stated by Worker.DotFileRefused, Worker.UpperCaseAccepted and Worker.DottedNameAccepted |
| Worker.DottedNameAccepted | app.py:399-401 | only the last dot counts: `my.clip.mp4` is accepted as a `.mp4` upload |
| Stream.StepCursor | app.py:903-909 | the cursor never moves back; after sending it is exactly the last index of the list seen; it stays put exactly when nothing is new |
| Stream.StepSends | app.py:903-923 | a poll stops exactly when the job is not processing; it sends exactly the frames past the cursor, so the completed branch sends nothing extra, and after an error it sends the last frame once more when the list is not empty |
| Stream.ErrorRepeatsLast | app.py:918-923 | on error with new frames, the last frame is sent twice in a row |
| Stream.SessionCursor | app.py:894-926 | across polls the cursor never moves back |
| Stream.GrowingCacheDelivers | app.py:894-926 | while the cache only grows and the job is processing, the client receives every frame of the last cache exactly once, in order |
| Stream.ShortCacheStalls | app.py:903-926 | once no cache seen is longer than cursor+1, nothing is sent and the generator does not end |
| Stream.FullCacheHidesNewFrames | app.py:753-758 | a full cache stays at 100 with the newest JPEG last, yet a client at cursor 99 is sent nothing |
| Stream.DeletedJobNeverEnds | app.py:895-900 | a deleted job reads as no frames and processing, even as its worker runs on, so its stream sends nothing and never ends |
| Stream.PartPayload | app.py:907-908 | the JPEG is recovered from the multipart part between its header and its closing line break |
| Stream.SessionFrom | app.py:894-926 | a session from poll k is that poll's step followed, unless it stops, by the session from poll k+1 |
| Stream.Serve | app.py:903-923 | one poll's loop and branches compute exactly `Step` |
| Stream.Generate | app.py:890-926 | the polling loop's output, final cursor and stop flag are exactly `Session` from cursor -1 |
| Stream.Observe | app.py:895-900 | what one poll reads, a missing cache as no frames and a missing record as processing; stated by Stream.DeletedJobNeverEnds and Stream.FullCacheHidesNewFrames |
| Stream.Step | app.py:903-923 | one poll; stated by Stream.StepCursor, Stream.StepSends and Stream.ErrorRepeatsLast, and computed by Stream.Serve |
| Stream.Session | app.py:890-926 | the polls until one stops the generator; stated by Stream.SessionCursor, Stream.GrowingCacheDelivers and Stream.ShortCacheStalls, and computed by Stream.Generate |
| Stream.StalledClientGetsNewestOnFailure | app.py:918-923 | a client stalled at a full cache is sent exactly the newest JPEG, once, when the job fails, and the stream ends |
| Stream.Part | app.py:907-909 | the multipart part around one JPEG; stated by Stream.PartPayload |
| Queries.FrameReplies | app.py:1062-1089 | a reply names a frame exactly when a video session was asked about a frame and its live or persisted index is non-empty |
| Queries.LiveIndexFirst | app.py:1066-1078 | the live index answers first, with its nearest sample, the first on ties |
| Queries.PersistedIndexNext | app.py:1080-1089 | with an empty live index, the history record's index answers with its nearest sample |
| Queries.FreshCacheNext | app.py:1091-1102 | without an index answer, a cached result younger than its maximum age is served |
| Queries.StaleCacheSkipped | app.py:1091-1112 | a cached result at or past its maximum age is never served; the history detections, or nothing, answer instead |
| Queries.RealtimeReadsOnlyCache | app.py:1064-1112 | the webcam session is served only from a cached result younger than 5 seconds, else nothing |
| Queries.UnknownSessionEmpty | app.py:1114 | a session no store knows gets the empty reply |
| Queries.RestartAnswersFromPersistedSlice | app.py:796-805 | after a restart a completed job answers frame queries from the every-10th slice completion persisted |
| Queries.MaxAge | app.py:1096 | 3600 seconds, or 5 for the webcam session; stated by Queries.RealtimeReadsOnlyCache and Queries.StaleCacheSkipped |
| Queries.GetDetections | app.py:1059-1114 | the lookup cascade; stated by Queries.FrameReplies, Queries.LiveIndexFirst, Queries.PersistedIndexNext, Queries.FreshCacheNext, Queries.StaleCacheSkipped, Queries.RealtimeReadsOnlyCache, Queries.UnknownSessionEmpty and Queries.RestartAnswersFromPersistedSlice |
| Text.Below | app.py:127 | Python's `<` on strings, the order the history sort uses; stated by History.SortIsNewestFirst and History.ImageStampBelowVideoStamp |
| Text.ReplaceAll | app.py:1023 | `str.replace`; stated by Naming.TimestampRoundTrip |

## Left out

- Flask routing, `request` and `jsonify`; replies are datatypes, and `UploadError.HttpStatus` keeps only the status codes of the upload errors.
- Threads and locks. Each route and each worker step is one atomic step. The lock nesting of lines 763-767 is not modelled, and neither is a stream reading a live list while the worker appends to it: each poll sees one snapshot.
- The 50 ms and 2 s sleeps, and all log lines.
- Video and file I/O are oracles: `VideoCapture`, `VideoWriter`, `imencode`, `resize`, `os.path.exists`, `os.remove` and the JSON encoding of the history. A frame's pixels are an abstract `Image`.
- A history file that cannot be written: `save_history` swallows write errors, and the model always writes.
- The detector and its settings (lines 666-707). Each frame carries the outcome and the detections; confidences are opaque reals.
- Domain.Progress: the source computes `int((done/total)*100)` in floating point. The model takes the exact integer floor, so values can differ by one where the float product rounds down (29/100 gives 28 in floating point).
- Pipeline.Downscale: the model fixes the larger side at exactly 1280 and scales the other by integer floor division. The source multiplies by a float scale, which can give 1279.
- Worker.Registry.ProcessVideo requires a positive frame count. `upload_video` rejects a non-positive count (line 424) before the worker starts, and the ZeroDivisionError that a re-read count of 0 would raise at line 766 is not modelled.
- Worker.Registry.ProcessVideo: an exception is modelled as ending the read loop between two frames (`End.Crashed`). A crash part-way through a frame's registry writes, or during the completion writes, is not modelled.
- Pipeline.ShownOf, Pipeline.PreviewsOf, Pipeline.LatestOf, Pipeline.LatestOfSpec, Pipeline.PreviewsOfAllEncoded, Pipeline.FoldsStep, Worker.Registry.OfferLatest, Worker.Registry.Advance, Worker.Registry.RunFrames, Worker.Registry.WriteOutput and Worker.Registry.ProcessVideo use the corrected per-frame effect `Pipeline.FrameEffect`, not the as-written one. What they state about the frames written, the JPEGs streamed and the latest-detections cache is the intended program; the run as written is given only by the folds of `Pipeline.AsWrittenFolds`.
- Naming.LowerAscii: lower-cases ASCII letters only. Python's `str.lower()` also lowers other Unicode letters.
- History.Entry: a record without `created_at` sorts under `''` in the source; the model gives every record a `createdAt` string.
- Image upload inference and storage (lines 471-598), `delete_image`, the webcam loop, the chatbot, markdown cleaning and the diagnostics routes are outside this model. The image record shape (`History.ImageEntry`) and the image timestamp format are kept, because they share the history file.

## Findings

| source | as written | input that shows it | evidently intended | confidence | as-written member | corrected member |
|---|---|---|---|---|---|---|
| app.py:734 | `import time` at line 809 makes `time` a local name of `process_video`, so `time.time()` at line 734 raises UnboundLocalError on every detected frame. The per-frame `except` then writes the raw frame and skips the latest-detections cache. The sample stored at lines 717-728, before the failing line, is kept. | any frame whose detection succeeds, e.g. `FrameIn([0], Detected([], [1]), 0.0)` | the annotated frame is written and streamed, and the frame's detections are cached | high, not executed | Pipeline.FrameEffectAsWritten (Pipeline.AsWrittenLosesAnnotation, Pipeline.AsWrittenCounterexample, Pipeline.AsWrittenFolds) | Pipeline.FrameEffect |
