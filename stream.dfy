/**
  The generator behind `/video_stream/<filename>`: each poll reads the job's
  frame cache and status, sends every frame past the cursor, moves the cursor to
  the end of the list, and stops once the job is completed or failed. The cursor
  is a position in a list that the worker evicts from and trims, which is why a
  full cache stops the stream from sending anything new.
*/
module Stream {
  import opened Wrappers
  import opened Domain
  import opened Fifo
  import opened Worker

  /** What one poll sees: the job's frame cache and its status. */
  datatype Poll = Poll(frames: seq<Buffer>, status: JobStatus)

  /** Lines 895-900: a missing cache reads as no frames, a missing record as still processing. */
  function Observe(status: map<string, JobRecord>, previews: map<string, seq<Buffer>>, id: string): Poll {
    Poll(Get(previews, id), if id in status then status[id].status else Processing)
  }

  /** What one poll sends, where the cursor ends up, and whether the generator ends. */
  datatype StepResult = StepResult(emitted: seq<Buffer>, cursor: int, stop: bool)

  /** The frames past the cursor, and the cursor after sending them (lines 903-909). */
  function Fresh(frames: seq<Buffer>, cursor: int): seq<Buffer>
    requires cursor >= -1
  {
    if |frames| > cursor + 1 then frames[cursor + 1..] else []
  }

  function Advanced(frames: seq<Buffer>, cursor: int): int {
    if |frames| > cursor + 1 then |frames| - 1 else cursor
  }

  /**
    Lines 903-923: one poll. A completed job gets the last frame again only if the
    cursor is short of it, which it never is after the send; a failed job gets the
    last frame again whenever there is one.
  */
  function Step(p: Poll, cursor: int): StepResult
    requires cursor >= -1
  {
    var sent := Fresh(p.frames, cursor);
    var c := Advanced(p.frames, cursor);
    match p.status
    case Completed =>
      StepResult(sent + (if |p.frames| > 0 && c < |p.frames| - 1 then [p.frames[|p.frames| - 1]] else []), c, true)
    case Error =>
      StepResult(sent + (if |p.frames| > 0 then [p.frames[|p.frames| - 1]] else []), c, true)
    case Processing =>
      StepResult(sent, c, false)
  }

  /** Everything a client receives over a sequence of polls, and how it ends. */
  datatype Transcript = Transcript(sent: seq<Buffer>, cursor: int, stopped: bool)

  /** The polls in order until one stops the generator; polls after that are never made. */
  function Session(polls: seq<Poll>, cursor: int): Transcript
    requires cursor >= -1
    decreases |polls|
  {
    if polls == [] then Transcript([], cursor, false)
    else
      var r := Step(polls[0], cursor);
      if r.stop then Transcript(r.emitted, r.cursor, true)
      else
        var rest := Session(polls[1..], r.cursor);
        Transcript(r.emitted + rest.sent, rest.cursor, rest.stopped)
  }

  /**
    The cursor never moves back; a poll that sends frames leaves it exactly at the
    last index of the list it saw, and one that sends none leaves it in place.
  */
  lemma StepCursor(p: Poll, cursor: int)
    requires cursor >= -1
    ensures Step(p, cursor).cursor >= cursor
    ensures Step(p, cursor).cursor >= |p.frames| - 1
    ensures |p.frames| > cursor + 1 ==> Step(p, cursor).cursor == |p.frames| - 1
    ensures Step(p, cursor).cursor == cursor <==> |p.frames| <= cursor + 1
  {
  }

  /**
    A poll sends exactly the frames past the cursor, in order, and goes on
    exactly while the job is processing; a completed job gets nothing extra, and
    a failed job gets the last frame of a non-empty list once more.
  */
  lemma StepSends(p: Poll, cursor: int)
    requires cursor >= -1
    ensures Step(p, cursor).stop <==> p.status != Processing
    ensures p.status != Error ==>
              Step(p, cursor).emitted == (if |p.frames| > cursor + 1 then p.frames[cursor + 1..] else [])
    ensures p.status == Error ==>
              Step(p, cursor).emitted == (if |p.frames| > cursor + 1 then p.frames[cursor + 1..] else []) +
                                         (if |p.frames| > 0 then [p.frames[|p.frames| - 1]] else [])
  {
  }

  /** A failed job whose last frame was just sent receives that frame twice in a row. */
  lemma ErrorRepeatsLast(p: Poll, cursor: int)
    requires cursor >= -1 && p.status == Error && |p.frames| > cursor + 1
    ensures Step(p, cursor).emitted == p.frames[cursor + 1..] + [p.frames[|p.frames| - 1]]
    ensures var e := Step(p, cursor).emitted;
            |e| >= 2 && e[|e| - 1] == e[|e| - 2]
  {
  }

  /** The cursor over a whole session never moves back. */
  lemma {:induction false} SessionCursor(polls: seq<Poll>, cursor: int)
    requires cursor >= -1
    ensures Session(polls, cursor).cursor >= cursor
    decreases |polls|
  {
    if polls != [] {
      var r := Step(polls[0], cursor);
      StepCursor(polls[0], cursor);
      if !r.stop {
        SessionCursor(polls[1..], r.cursor);
      }
    }
  }

  /** Each cache seen extends the one before it. */
  ghost predicate Growing(polls: seq<Poll>) {
    forall i :: 0 <= i < |polls| - 1 ==> polls[i].frames <= polls[i + 1].frames
  }

  /** A poll of a processing job whose cache extends what the client holds completes it. */
  lemma ProcessingStepCompletes(p: Poll, seen: seq<Buffer>)
    requires p.status == Processing && seen <= p.frames
    ensures seen + Step(p, |seen| - 1).emitted == p.frames
    ensures Step(p, |seen| - 1) == StepResult(Step(p, |seen| - 1).emitted, |p.frames| - 1, false)
  {
    if |p.frames| > |seen| {
      assert p.frames == p.frames[..|seen|] + p.frames[|seen|..];
    }
  }

  /** Dropping the first poll keeps the caches growing. */
  lemma GrowingTail(polls: seq<Poll>)
    requires polls != [] && Growing(polls)
    ensures Growing(polls[1..])
  {
    forall i | 0 <= i < |polls[1..]| - 1
      ensures polls[1..][i].frames <= polls[1..][i + 1].frames
    {
      assert polls[1..][i] == polls[i + 1] && polls[1..][i + 1] == polls[i + 2];
    }
  }

  /**
    While the cache only grows (no eviction, no trim) and the job is processing,
    the client receives every frame of the last cache seen, once each and in
    order: what it has already received, followed by what the session sends.
  */
  lemma {:induction false} GrowingCacheDelivers(polls: seq<Poll>, seen: seq<Buffer>)
    requires polls != [] && Growing(polls)
    requires forall i :: 0 <= i < |polls| ==> polls[i].status == Processing
    requires seen <= polls[0].frames
    ensures seen + Session(polls, |seen| - 1).sent == polls[|polls| - 1].frames
    ensures !Session(polls, |seen| - 1).stopped
    decreases |polls|
  {
    var f := polls[0].frames;
    ProcessingStepCompletes(polls[0], seen);
    var e := Step(polls[0], |seen| - 1).emitted;
    var rest := polls[1..];
    if |rest| > 0 {
      assert rest[0] == polls[1];
      GrowingTail(polls);
      assert forall i :: 0 <= i < |rest| ==> rest[i].status == Processing by {
        forall i | 0 <= i < |rest| ensures rest[i].status == Processing {
          assert rest[i] == polls[i + 1];
        }
      }
      GrowingCacheDelivers(rest, f);
      assert rest[|rest| - 1] == polls[|polls| - 1];
      var t := Session(rest, |f| - 1);
      assert Session(polls, |seen| - 1) == Transcript(e + t.sent, t.cursor, t.stopped);
      assert seen + (e + t.sent) == (seen + e) + t.sent;
    } else {
      assert Session(polls, |seen| - 1) == Transcript(e, |f| - 1, false);
    }
  }

  /**
    Once the cursor is at or past the end of every cache a processing job shows
    (the cache full at 100 while the worker evicts), the session sends nothing
    and never ends.
  */
  lemma {:induction false} ShortCacheStalls(polls: seq<Poll>, cursor: int)
    requires cursor >= -1
    requires forall i :: 0 <= i < |polls| ==> |polls[i].frames| <= cursor + 1 && polls[i].status == Processing
    ensures Session(polls, cursor) == Transcript([], cursor, false)
    decreases |polls|
  {
    if polls != [] {
      assert Step(polls[0], cursor) == StepResult([], cursor, false);
      ShortCacheStalls(polls[1..], cursor);
    }
  }

  /**
    A full cache stays full: after the worker offers more JPEGs the list still
    has 100 entries, the newest of them last, and a client whose cursor is at 99
    is sent none of them.
  */
  lemma FullCacheHidesNewFrames(status: map<string, JobRecord>, previews: map<string, seq<Buffer>>,
                                id: string, xs: seq<Buffer>)
    requires id in previews && |previews[id]| == FrameCacheCapacity && xs != []
    requires id in status && status[id].status == Processing
    ensures var p := Observe(status, PreviewsAfter(previews, id, xs), id);
            |p.frames| == FrameCacheCapacity && p.frames[|p.frames| - 1] == xs[|xs| - 1] &&
            Step(p, FrameCacheCapacity - 1) == StepResult([], FrameCacheCapacity - 1, false)
  {
    var s := previews[id] + xs;
    LastNSpec(s, FrameCacheCapacity);
  }

  /**
    A client stalled at a full cache gets exactly one more frame when the job
    fails: the newest JPEG, which it has never been sent, and the stream ends.
  */
  lemma StalledClientGetsNewestOnFailure(status: map<string, JobRecord>, previews: map<string, seq<Buffer>>,
                                         id: string, xs: seq<Buffer>, message: string)
    requires id in previews && |previews[id]| == FrameCacheCapacity && xs != []
    requires id in status
    ensures var p := Observe(FailIn(status, id, message), PreviewsAfter(previews, id, xs), id);
            Step(p, FrameCacheCapacity - 1) == StepResult([xs[|xs| - 1]], FrameCacheCapacity - 1, true)
  {
    var s := previews[id] + xs;
    LastNSpec(s, FrameCacheCapacity);
  }

  /**
    After `delete_video` the job has neither a status record nor a frame cache,
    and the worker, which skips writes to missing keys, never creates them again:
    every later poll sees no frames and a processing job, so the generator of a
    deleted job never ends and never sends anything.
  */
  lemma DeletedJobNeverEnds(status: map<string, JobRecord>, previews: map<string, seq<Buffer>>,
                            id: string, xs: seq<Buffer>, n: nat, total: int, polls: seq<Poll>, cursor: int)
    requires total > 0 && cursor >= -1
    requires forall i :: 0 <= i < |polls| ==> polls[i] == Poll([], Processing)
    ensures Observe(StatusAfter(status - {id}, id, n, total), PreviewsAfter(previews - {id}, id, xs), id) == Poll([], Processing)
    ensures Session(polls, cursor) == Transcript([], cursor, false)
  {
    ShortCacheStalls(polls, cursor);
  }

  /** The multipart part lines 907-908 yield around one JPEG. */
  function Part(frame: Buffer): Buffer {
    PartHeader + frame + [13, 10]
  }

  /** `--frame\r\nContent-Type: image/jpeg\r\n\r\n` in ASCII. */
  const PartHeader: Buffer := [45, 45, 102, 114, 97, 109, 101, 13, 10,
    67, 111, 110, 116, 101, 110, 116, 45, 84, 121, 112, 101, 58, 32,
    105, 109, 97, 103, 101, 47, 106, 112, 101, 103, 13, 10, 13, 10]

  /** The JPEG is the part between the header and the closing line break. */
  lemma PartPayload(frame: Buffer)
    ensures |Part(frame)| == |PartHeader| + |frame| + 2
    ensures Part(frame)[|PartHeader|..|Part(frame)| - 2] == frame
  {
    assert Part(frame) == PartHeader + frame + [13, 10];
  }

  /** What was sent before, followed by a transcript. */
  function After(sent: seq<Buffer>, t: Transcript): Transcript {
    Transcript(sent + t.sent, t.cursor, t.stopped)
  }

  /** The session from poll k on is poll k's step, then, unless it stops, the session from poll k + 1. */
  lemma SessionFrom(polls: seq<Poll>, k: nat, cursor: int, sent: seq<Buffer>)
    requires k < |polls| && cursor >= -1
    ensures var r := Step(polls[k], cursor);
            After(sent, Session(polls[k..], cursor)) ==
              if r.stop then Transcript(sent + r.emitted, r.cursor, true)
              else After(sent + r.emitted, Session(polls[k + 1..], r.cursor))
  {
    assert polls[k..][0] == polls[k] && polls[k..][1..] == polls[k + 1..];
    var r := Step(polls[k], cursor);
    if !r.stop {
      var rest := Session(polls[k + 1..], r.cursor);
      assert sent + (r.emitted + rest.sent) == sent + r.emitted + rest.sent;
    }
  }

  /** Lines 903-923 for one snapshot: the inner `for` over the new frames, then the status test. */
  method Serve(p: Poll, cursor: int) returns (emitted: seq<Buffer>, next: int, stop: bool)
    requires cursor >= -1
    ensures StepResult(emitted, next, stop) == Step(p, cursor)
  {
    var frames := p.frames;
    emitted := [];
    next := cursor;
    if |frames| > cursor + 1 {
      var i := cursor + 1;
      while i < |frames|
        invariant cursor + 1 <= i <= |frames|
        invariant emitted == frames[cursor + 1..i]
      {
        emitted := emitted + [frames[i]];
        i := i + 1;
      }
      next := |frames| - 1;
    }
    stop := false;
    if p.status == Completed {
      if |frames| > 0 && next < |frames| - 1 {
        // the resend of the last frame: the cursor is already at its end
        assert false;
      }
      stop := true;
    } else if p.status == Error {
      if |frames| > 0 {
        emitted := emitted + [frames[|frames| - 1]];
      }
      stop := true;
    }
  }

  /**
    `generate()` run against the caches its polls observe: it starts before the
    first frame and polls until a poll stops it; running out of polls stands for
    a client still waiting, as the `while True` loop would.
  */
  method Generate(polls: seq<Poll>) returns (sent: seq<Buffer>, cursor: int, stopped: bool)
    ensures Transcript(sent, cursor, stopped) == Session(polls, -1)
  {
    sent := [];
    cursor := -1;
    stopped := false;
    var k := 0;
    while k < |polls| && !stopped
      invariant 0 <= k <= |polls| && cursor >= -1
      invariant stopped ==> Transcript(sent, cursor, stopped) == Session(polls, -1)
      invariant !stopped ==> After(sent, Session(polls[k..], cursor)) == Session(polls, -1)
    {
      SessionFrom(polls, k, cursor, sent);
      var emitted, stop;
      emitted, cursor, stop := Serve(polls[k], cursor);
      sent := sent + emitted;
      stopped := stop;
      k := k + 1;
    }
    if !stopped {
      assert polls[k..] == [];
    }
  }
}
