/**
  What `process_video` does with each frame it reads, as functions of the frames:
  the output configuration, the frame written out, the sample offered to the
  detection index, the latest-detections record, the JPEG offered to the frame
  cache, and the two "last detections" trackers that completion persists.
  The detector, the JPEG encoder and the writer are parameters: a frame arrives
  with the detector's outcome already attached.
*/
module Pipeline {
  import opened Wrappers
  import opened Domain
  import opened Fifo

  /** The detector on one frame: boxes and the annotated image, or an exception. */
  datatype Outcome = Detected(detections: seq<Detection>, annotated: Image) | DetectionFailed

  /** One frame returned by `cap.read()`, resized, with its outcome and the clock at storage time. */
  datatype FrameIn = FrameIn(raw: Image, outcome: Outcome, now: real)

  datatype Codec = Avc1 | Mp4v

  /** The writer's settings: frame rate, frame size and the codec that opened. */
  datatype Config = Config(fps: real, width: int, height: int, codec: Codec)

  const OpenFailed := "No se pudo abrir el video de entrada"
  const BadDimensions := "Dimensiones de video inválidas"
  const NoWriter := "No se pudo crear el video de salida"
  const MaxDimension: int := 1280
  const DefaultFps: real := 30.0

  function Max(a: int, b: int): int {
    if a >= b then a else b
  }

  lemma DivAtMost(x: int, m: int, c: int)
    requires m > 0 && 0 <= x && x <= c * m
    ensures 0 <= x / m <= c
  {
  }

  lemma MulMono(x: int, y: int, z: int)
    requires x <= y && z >= 0
    ensures x * z <= y * z
  {
  }

  lemma ScaleFacts(a: int, m: int, c: int)
    requires 0 < a <= m && 0 < c < m
    ensures 0 <= a * c / m <= c
    ensures a * c / m <= a
  {
    MulMono(a, m, c);
    assert m * c == c * m;
    DivAtMost(a * c, m, c);
    MulMono(c, m, a);
    assert c * a == a * c && m * a == a * m;
    DivAtMost(a * c, m, a);
  }

  /**
    Lines 632-636: a frame larger than 1280 on either side is scaled so that its
    larger side becomes 1280 and the other keeps the aspect ratio, rounded down.
  */
  function Downscale(w: int, h: int): (r: (int, int))
    requires w > 0 && h > 0
  {
    if w > MaxDimension || h > MaxDimension then
      if w >= h then (MaxDimension, h * MaxDimension / w) else (w * MaxDimension / h, MaxDimension)
    else
      (w, h)
  }

  /** The scaled size never exceeds 1280 or the original, and a large frame's larger side is exactly 1280. */
  lemma DownscaleSpec(w: int, h: int)
    requires w > 0 && h > 0
    ensures 0 <= Downscale(w, h).0 <= MaxDimension && 0 <= Downscale(w, h).1 <= MaxDimension
    ensures Downscale(w, h).0 <= w && Downscale(w, h).1 <= h
    ensures w <= MaxDimension && h <= MaxDimension ==> Downscale(w, h) == (w, h)
    ensures w > MaxDimension || h > MaxDimension ==> Max(Downscale(w, h).0, Downscale(w, h).1) == MaxDimension
  {
    if w > MaxDimension || h > MaxDimension {
      if w >= h {
        ScaleFacts(h, w, MaxDimension);
      } else {
        ScaleFacts(w, h, MaxDimension);
      }
    }
  }

  /** A very thin video collapses to zero width, which the writer is then asked to accept. */
  lemma ThinVideoCollapses()
    ensures Downscale(1, 2000) == (0, 1280)
  {
  }

  /**
    Lines 626-650: frame rate defaulted, dimensions validated and scaled, then the
    writer opened with avc1 and, failing that, with mp4v. `opens` says which
    codecs the writer accepts.
  */
  function Configure(fps: real, width: int, height: int, opens: Codec -> bool): (r: Result<Config, string>)
    ensures r.Err? <==> width <= 0 || height <= 0 || (!opens(Avc1) && !opens(Mp4v))
    ensures r.Err? ==> r.error == if width <= 0 || height <= 0 then BadDimensions else NoWriter
    ensures r.Ok? ==> r.value.fps == (if fps <= 0.0 then DefaultFps else fps) && r.value.fps > 0.0
    ensures r.Ok? ==> (r.value.width, r.value.height) == Downscale(width, height)
    ensures r.Ok? ==> r.value.codec == (if opens(Avc1) then Avc1 else Mp4v)
  {
    var f := if fps <= 0.0 then DefaultFps else fps;
    if width <= 0 || height <= 0 then Err(BadDimensions)
    else
      var size := Downscale(width, height);
      if opens(Avc1) then Ok(Config(f, size.0, size.1, Avc1))
      else if opens(Mp4v) then Ok(Config(f, size.0, size.1, Mp4v))
      else Err(NoWriter)
  }

  /** Everything one frame contributes: the image written, and the index and cache entries. */
  datatype Effect = Effect(shown: Image, sample: Option<Sample>, latest: Option<Latest>)

  /**
    Lines 667-747 as intended: a detected frame is written annotated, sampled when
    its index is a multiple of 3, and recorded as the latest detections; a frame
    whose detection raised is written as read and records nothing.
  */
  function FrameEffect(f: FrameIn, k: nat, w: int, h: int): Effect {
    match f.outcome
    case DetectionFailed => Effect(f.raw, None, None)
    case Detected(d, a) =>
      Effect(a, if k % SampleStep == 0 then Some(Sample(k, d, w, h)) else None, Some(Latest(d, f.now, w, h)))
  }

  /**
    Lines 667-747 as written. The `import time` at line 809 makes `time` a local
    name of the whole function, so `time.time()` at line 734 raises before the
    latest-detections record is stored; the handler at lines 738-740 then writes
    the frame as read. The sample and the trackers were already updated.
  */
  function FrameEffectAsWritten(f: FrameIn, k: nat, w: int, h: int): Effect {
    match f.outcome
    case DetectionFailed => Effect(f.raw, None, None)
    case Detected(d, _) =>
      Effect(f.raw, if k % SampleStep == 0 then Some(Sample(k, d, w, h)) else None, None)
  }

  /**
    The two differ on every detected frame whose annotation differs from the frame
    read: as written the annotation is lost and no latest record is stored.
  */
  lemma {:induction false} AsWrittenLosesAnnotation(f: FrameIn, k: nat, w: int, h: int)
    requires f.outcome.Detected? && f.outcome.annotated != f.raw
    ensures FrameEffectAsWritten(f, k, w, h).shown == f.raw != FrameEffect(f, k, w, h).shown
    ensures FrameEffectAsWritten(f, k, w, h).latest.None? && FrameEffect(f, k, w, h).latest.Some?
    ensures FrameEffectAsWritten(f, k, w, h).sample == FrameEffect(f, k, w, h).sample
  {
  }

  /** A concrete frame that shows the difference. */
  lemma AsWrittenCounterexample()
    ensures var f := FrameIn([0], Detected([], [1]), 0.0);
            FrameEffectAsWritten(f, 0, 640, 480).shown == [0] && FrameEffect(f, 0, 640, 480).shown == [1]
  {
  }

  /** The frame written for frame f. */
  function Shown(f: FrameIn): Image {
    FrameEffect(f, 0, 0, 0).shown
  }

  function OptSeq<T>(o: Option<T>): (r: seq<T>)
    ensures |r| <= 1
  {
    if o.Some? then [o.value] else []
  }

  /** The frames written to the output, in order. */
  function ShownOf(fs: seq<FrameIn>): (r: seq<Image>)
    ensures |r| == |fs|
    ensures forall k :: 0 <= k < |fs| ==> r[k] == (if fs[k].outcome.Detected? then fs[k].outcome.annotated else fs[k].raw)
    decreases |fs|
  {
    if |fs| == 0 then [] else ShownOf(fs[..|fs| - 1]) + [Shown(fs[|fs| - 1])]
  }

  /** The samples the worker appends to the detection index, in order. */
  function SamplesOf(fs: seq<FrameIn>, w: int, h: int): seq<Sample>
    decreases |fs|
  {
    if |fs| == 0 then [] else SamplesOf(fs[..|fs| - 1], w, h) + OptSeq(FrameEffect(fs[|fs| - 1], |fs| - 1, w, h).sample)
  }

  /** The JPEGs the worker offers the frame cache: one per frame the encoder accepts. */
  function PreviewsOf(fs: seq<FrameIn>, encode: Image -> Option<Buffer>): seq<Buffer>
    decreases |fs|
  {
    if |fs| == 0 then [] else PreviewsOf(fs[..|fs| - 1], encode) + OptSeq(encode(Shown(fs[|fs| - 1])))
  }

  /** The latest-detections record last stored, if any. */
  function LatestOf(fs: seq<FrameIn>, w: int, h: int): Option<Latest>
    decreases |fs|
  {
    if |fs| == 0 then None
    else
      var e := FrameEffect(fs[|fs| - 1], |fs| - 1, w, h).latest;
      if e.Some? then e else LatestOf(fs[..|fs| - 1], w, h)
  }

  /** The frames written as the source stands. */
  function ShownOfAsWritten(fs: seq<FrameIn>): seq<Image>
    decreases |fs|
  {
    if |fs| == 0 then [] else ShownOfAsWritten(fs[..|fs| - 1]) + [FrameEffectAsWritten(fs[|fs| - 1], |fs| - 1, 0, 0).shown]
  }

  /** The samples appended as the source stands. */
  function SamplesOfAsWritten(fs: seq<FrameIn>, w: int, h: int): seq<Sample>
    decreases |fs|
  {
    if |fs| == 0 then []
    else SamplesOfAsWritten(fs[..|fs| - 1], w, h) + OptSeq(FrameEffectAsWritten(fs[|fs| - 1], |fs| - 1, w, h).sample)
  }

  /** The latest-detections record stored as the source stands. */
  function LatestOfAsWritten(fs: seq<FrameIn>, w: int, h: int): Option<Latest>
    decreases |fs|
  {
    if |fs| == 0 then None
    else
      var e := FrameEffectAsWritten(fs[|fs| - 1], |fs| - 1, w, h).latest;
      if e.Some? then e else LatestOfAsWritten(fs[..|fs| - 1], w, h)
  }

  /**
    Over a whole run as the source stands, every frame is written as read, the
    latest-detections cache is never set, and the detection index gets the same
    samples as under the intended effect.
  */
  lemma {:induction false} AsWrittenFolds(fs: seq<FrameIn>, w: int, h: int)
    ensures |ShownOfAsWritten(fs)| == |fs|
    ensures forall k :: 0 <= k < |fs| ==> ShownOfAsWritten(fs)[k] == fs[k].raw
    ensures LatestOfAsWritten(fs, w, h) == None
    ensures SamplesOfAsWritten(fs, w, h) == SamplesOf(fs, w, h)
    decreases |fs|
  {
    if |fs| > 0 {
      var n := |fs| - 1;
      AsWrittenFolds(fs[..n], w, h);
      forall k | 0 <= k < n ensures ShownOfAsWritten(fs)[k] == fs[k].raw {
        assert ShownOfAsWritten(fs)[k] == ShownOfAsWritten(fs[..n])[k];
        assert fs[..n][k] == fs[k];
      }
    }
  }

  /** Every sample is the sample of the frame it names. */
  lemma {:induction false} SamplesOfSound(fs: seq<FrameIn>, w: int, h: int)
    ensures forall i :: 0 <= i < |SamplesOf(fs, w, h)| ==>
              SamplesOf(fs, w, h)[i].frame < |fs| &&
              FrameEffect(fs[SamplesOf(fs, w, h)[i].frame], SamplesOf(fs, w, h)[i].frame, w, h).sample == Some(SamplesOf(fs, w, h)[i])
    decreases |fs|
  {
    if |fs| > 0 {
      var n := |fs| - 1;
      var p := fs[..n];
      SamplesOfSound(p, w, h);
      var sp := SamplesOf(p, w, h);
      var s := SamplesOf(fs, w, h);
      assert s == sp + OptSeq(FrameEffect(fs[n], n, w, h).sample);
      forall i | 0 <= i < |s|
        ensures s[i].frame < |fs| && FrameEffect(fs[s[i].frame], s[i].frame, w, h).sample == Some(s[i])
      {
        if i < |sp| {
          assert s[i] == sp[i];
          var k := sp[i].frame;
          assert k < |p| && FrameEffect(p[k], k, w, h).sample == Some(sp[i]);
          assert fs[k] == p[k];
        }
      }
    }
  }

  /** Sample frames strictly increase. */
  lemma {:induction false} SamplesOfIncreasing(fs: seq<FrameIn>, w: int, h: int)
    ensures forall i, j :: 0 <= i < j < |SamplesOf(fs, w, h)| ==> SamplesOf(fs, w, h)[i].frame < SamplesOf(fs, w, h)[j].frame
    decreases |fs|
  {
    if |fs| > 0 {
      var n := |fs| - 1;
      var p := fs[..n];
      SamplesOfIncreasing(p, w, h);
      SamplesOfSound(p, w, h);
      var sp := SamplesOf(p, w, h);
      var s := SamplesOf(fs, w, h);
      assert s == sp + OptSeq(FrameEffect(fs[n], n, w, h).sample);
      forall i, j | 0 <= i < j < |s| ensures s[i].frame < s[j].frame {
        assert i < |sp| && s[i] == sp[i];
        assert sp[i].frame < n;
        if j < |sp| {
          assert s[j] == sp[j];
        } else {
          assert s[j] == FrameEffect(fs[n], n, w, h).sample.value;
        }
      }
    }
  }

  /** No sampled frame is missing from the index. */
  lemma {:induction false} SamplesOfComplete(fs: seq<FrameIn>, w: int, h: int)
    ensures forall k :: 0 <= k < |fs| && FrameEffect(fs[k], k, w, h).sample.Some? ==>
              FrameEffect(fs[k], k, w, h).sample.value in SamplesOf(fs, w, h)
    decreases |fs|
  {
    if |fs| > 0 {
      var n := |fs| - 1;
      var p := fs[..n];
      SamplesOfComplete(p, w, h);
      var sp := SamplesOf(p, w, h);
      assert SamplesOf(fs, w, h) == sp + OptSeq(FrameEffect(fs[n], n, w, h).sample);
      forall k | 0 <= k < n ensures fs[k] == p[k] { }
    }
  }

  /** A sample is taken exactly at the detected frames whose index is a multiple of 3. */
  lemma SampleTakenIff(f: FrameIn, k: nat, w: int, h: int)
    ensures FrameEffect(f, k, w, h).sample.Some? <==> f.outcome.Detected? && k % SampleStep == 0
    ensures FrameEffect(f, k, w, h).sample.Some? ==>
              FrameEffect(f, k, w, h).sample.value == Sample(k, f.outcome.detections, w, h)
  {
  }

  /** When every frame is detected, n frames give ceil(n / 3) samples. */
  lemma {:induction false} SampleCountAllDetected(fs: seq<FrameIn>, w: int, h: int)
    requires forall k :: 0 <= k < |fs| ==> fs[k].outcome.Detected?
    ensures |SamplesOf(fs, w, h)| == (|fs| + 2) / 3
    decreases |fs|
  {
    if |fs| > 0 {
      var n := |fs| - 1;
      SampleCountAllDetected(fs[..n], w, h);
    }
  }

  /** A 100-frame video with detections on every frame: samples 0, 3, ..., 99, of which 4 reach the history. */
  lemma HundredFrameVideo(fs: seq<FrameIn>, w: int, h: int)
    requires |fs| == 100 && forall k :: 0 <= k < |fs| ==> fs[k].outcome.Detected?
    ensures |SamplesOf(fs, w, h)| == 34
    ensures LastN(SamplesOf(fs, w, h), IndexCapacity) == SamplesOf(fs, w, h)
    ensures |EveryTenth(SamplesOf(fs, w, h))| == 4
    ensures SamplesOf(fs, w, h)[33].frame == 99
  {
    SampleCountAllDetected(fs, w, h);
    SamplesOfSound(fs, w, h);
    SamplesOfIncreasing(fs, w, h);
    var s := SamplesOf(fs, w, h);
    assert s[33].frame % 3 == 0 by {
      SampleTakenIff(fs[s[33].frame], s[33].frame, w, h);
    }
    assert s[33].frame >= 99 by {
      StrictlyIncreasingFloor(s, 33);
    }
  }

  lemma {:induction false} StrictlyIncreasingFloor(s: seq<Sample>, i: nat)
    requires i < |s|
    requires forall a, b :: 0 <= a < b < |s| ==> s[a].frame < s[b].frame
    requires forall a :: 0 <= a < |s| ==> s[a].frame % 3 == 0
    ensures s[i].frame >= 3 * i
  {
    if i > 0 {
      StrictlyIncreasingFloor(s, i - 1);
      assert s[i - 1].frame < s[i].frame;
    }
  }

  /** The latest record is the one of the last detected frame, and there is one exactly when some frame was detected. */
  lemma {:induction false} LatestOfSpec(fs: seq<FrameIn>, w: int, h: int)
    ensures LatestOf(fs, w, h).Some? <==> exists k :: 0 <= k < |fs| && fs[k].outcome.Detected?
    ensures forall k :: 0 <= k < |fs| && fs[k].outcome.Detected? &&
                        (forall j :: k < j < |fs| ==> !fs[j].outcome.Detected?) ==>
              LatestOf(fs, w, h) == Some(Latest(fs[k].outcome.detections, fs[k].now, w, h))
    decreases |fs|
  {
    if |fs| > 0 {
      var n := |fs| - 1;
      var p := fs[..n];
      LatestOfSpec(p, w, h);
      assert forall k :: 0 <= k < n ==> fs[k] == p[k];
      if fs[n].outcome.Detected? {
        assert LatestOf(fs, w, h) == Some(Latest(fs[n].outcome.detections, fs[n].now, w, h));
        forall k | 0 <= k < |fs| && fs[k].outcome.Detected? && (forall j :: k < j < |fs| ==> !fs[j].outcome.Detected?)
          ensures k == n
        {
          if k < n {
            assert false;
          }
        }
      } else {
        assert LatestOf(fs, w, h) == LatestOf(p, w, h);
        assert (exists k :: 0 <= k < |fs| && fs[k].outcome.Detected?) <==>
               (exists k :: 0 <= k < |p| && p[k].outcome.Detected?);
        forall k | 0 <= k < n && fs[k].outcome.Detected? && (forall j :: k < j < |fs| ==> !fs[j].outcome.Detected?)
          ensures LatestOf(p, w, h) == Some(Latest(p[k].outcome.detections, p[k].now, w, h))
        {
          assert forall j :: k < j < |p| ==> !p[j].outcome.Detected?;
        }
      }
    }
  }

  /** When the encoder accepts every frame, the cache is offered every written frame. */
  lemma {:induction false} PreviewsOfAllEncoded(fs: seq<FrameIn>, encode: Image -> Option<Buffer>)
    requires forall k :: 0 <= k < |fs| ==> encode(Shown(fs[k])).Some?
    ensures |PreviewsOf(fs, encode)| == |fs|
    ensures forall k :: 0 <= k < |fs| ==> encode(ShownOf(fs)[k]) == Some(PreviewsOf(fs, encode)[k])
    decreases |fs|
  {
    if |fs| > 0 {
      var n := |fs| - 1;
      var p := fs[..n];
      assert forall k :: 0 <= k < n ==> p[k] == fs[k];
      PreviewsOfAllEncoded(p, encode);
      var last := encode(Shown(fs[n]));
      assert last.Some?;
      var r := PreviewsOf(fs, encode);
      assert r == PreviewsOf(p, encode) + [last.value];
      var sh := ShownOf(fs);
      assert sh == ShownOf(p) + [Shown(fs[n])];
      forall k | 0 <= k < |fs| ensures encode(sh[k]) == Some(r[k]) {
        if k < n {
          assert sh[k] == ShownOf(p)[k] && r[k] == PreviewsOf(p, encode)[k];
        }
      }
    }
  }

  /** Extending the frames by one extends every fold by that frame's contribution. */
  lemma FoldsStep(fs: seq<FrameIn>, f: FrameIn, w: int, h: int, encode: Image -> Option<Buffer>)
    ensures ShownOf(fs + [f]) == ShownOf(fs) + [Shown(f)]
    ensures SamplesOf(fs + [f], w, h) == SamplesOf(fs, w, h) + OptSeq(FrameEffect(f, |fs|, w, h).sample)
    ensures PreviewsOf(fs + [f], encode) == PreviewsOf(fs, encode) + OptSeq(encode(Shown(f)))
    ensures LatestOf(fs + [f], w, h) == if FrameEffect(f, |fs|, w, h).latest.Some? then FrameEffect(f, |fs|, w, h).latest else LatestOf(fs, w, h)
    ensures TrackAll(fs + [f], w, h) == Track(TrackAll(fs, w, h), f, w, h)
  {
    assert (fs + [f])[..|fs|] == fs;
  }

  /** The detections completion may persist: the last ones seen, and the last non-empty ones. */
  datatype Tracker = Tracker(
    lastDetections: seq<Detection>, lastWidth: int, lastHeight: int,
    nonemptyDetections: seq<Detection>, nonemptyWidth: int, nonemptyHeight: int)

  const InitialTracker := Tracker([], 0, 0, [], 0, 0)

  /** Lines 708-714, run only when the detector returned. */
  function Track(t: Tracker, f: FrameIn, w: int, h: int): Tracker {
    match f.outcome
    case DetectionFailed => t
    case Detected(d, _) =>
      var t1 := t.(lastDetections := d, lastWidth := w, lastHeight := h);
      if |d| > 0 then t1.(nonemptyDetections := d, nonemptyWidth := w, nonemptyHeight := h) else t1
  }

  function TrackAll(fs: seq<FrameIn>, w: int, h: int): Tracker
    decreases |fs|
  {
    if |fs| == 0 then InitialTracker else Track(TrackAll(fs[..|fs| - 1], w, h), fs[|fs| - 1], w, h)
  }

  predicate HasDetections(f: FrameIn) {
    f.outcome.Detected? && |f.outcome.detections| > 0
  }

  /** The first tracker holds the boxes of the last detected frame, with the frame size. */
  lemma {:induction false} TrackLastSpec(fs: seq<FrameIn>, w: int, h: int)
    ensures var t := TrackAll(fs, w, h);
            (forall k :: 0 <= k < |fs| ==> !fs[k].outcome.Detected?) ==> (t.lastDetections, t.lastWidth, t.lastHeight) == ([], 0, 0)
    ensures var t := TrackAll(fs, w, h);
            forall k :: 0 <= k < |fs| && fs[k].outcome.Detected? && (forall j :: k < j < |fs| ==> !fs[j].outcome.Detected?) ==>
              (t.lastDetections, t.lastWidth, t.lastHeight) == (fs[k].outcome.detections, w, h)
    decreases |fs|
  {
    if |fs| > 0 {
      var n := |fs| - 1;
      var p := fs[..n];
      TrackLastSpec(p, w, h);
      forall k | 0 <= k < n ensures fs[k] == p[k] { }
      var t := TrackAll(fs, w, h);
      assert t == Track(TrackAll(p, w, h), fs[n], w, h);
      if !fs[n].outcome.Detected? {
        assert t == TrackAll(p, w, h);
        forall k | 0 <= k < |fs| && fs[k].outcome.Detected? && (forall j :: k < j < |fs| ==> !fs[j].outcome.Detected?)
          ensures (t.lastDetections, t.lastWidth, t.lastHeight) == (fs[k].outcome.detections, w, h)
        {
          assert k < n;
          assert forall j :: k < j < |p| ==> !p[j].outcome.Detected?;
        }
      }
    }
  }

  /** The second tracker holds the boxes of the last frame that had any, with the frame size. */
  lemma {:induction false} TrackNonemptySpec(fs: seq<FrameIn>, w: int, h: int)
    ensures var t := TrackAll(fs, w, h);
            (forall k :: 0 <= k < |fs| ==> !HasDetections(fs[k])) ==> (t.nonemptyDetections, t.nonemptyWidth, t.nonemptyHeight) == ([], 0, 0)
    ensures var t := TrackAll(fs, w, h);
            forall k :: 0 <= k < |fs| && HasDetections(fs[k]) && (forall j :: k < j < |fs| ==> !HasDetections(fs[j])) ==>
              (t.nonemptyDetections, t.nonemptyWidth, t.nonemptyHeight) == (fs[k].outcome.detections, w, h)
    decreases |fs|
  {
    if |fs| > 0 {
      var n := |fs| - 1;
      var p := fs[..n];
      TrackNonemptySpec(p, w, h);
      forall k | 0 <= k < n ensures fs[k] == p[k] { }
      var t := TrackAll(fs, w, h);
      assert t == Track(TrackAll(p, w, h), fs[n], w, h);
      if !HasDetections(fs[n]) {
        assert (t.nonemptyDetections, t.nonemptyWidth, t.nonemptyHeight)
            == (TrackAll(p, w, h).nonemptyDetections, TrackAll(p, w, h).nonemptyWidth, TrackAll(p, w, h).nonemptyHeight);
        forall k | 0 <= k < |fs| && HasDetections(fs[k]) && (forall j :: k < j < |fs| ==> !HasDetections(fs[j]))
          ensures (t.nonemptyDetections, t.nonemptyWidth, t.nonemptyHeight) == (fs[k].outcome.detections, w, h)
        {
          assert k < n;
          assert forall j :: k < j < |p| ==> !HasDetections(p[j]);
        }
      }
    }
  }

  /** Lines 788-792: what completion stores as the record's detections and size, if anything. */
  function Persisted(t: Tracker): Option<(seq<Detection>, int, int)> {
    if |t.nonemptyDetections| > 0 then Some((t.nonemptyDetections, t.nonemptyWidth, t.nonemptyHeight))
    else if |t.lastDetections| > 0 || t.lastWidth != 0 || t.lastHeight != 0 then Some((t.lastDetections, t.lastWidth, t.lastHeight))
    else None
  }

  /**
    Completion stores the boxes of the last frame that had any; failing that, an
    empty list with the frame size when some frame was detected at all; and
    nothing when no frame was.
  */
  lemma PersistedSpec(fs: seq<FrameIn>, w: int, h: int, k: nat)
    requires (w != 0 || h != 0) && k < |fs|
    ensures HasDetections(fs[k]) && (forall j :: k < j < |fs| ==> !HasDetections(fs[j])) ==>
              Persisted(TrackAll(fs, w, h)) == Some((fs[k].outcome.detections, w, h))
    ensures (forall j :: 0 <= j < |fs| ==> !HasDetections(fs[j])) && fs[k].outcome.Detected? ==>
              Persisted(TrackAll(fs, w, h)) == Some(([], w, h))
    ensures (forall j :: 0 <= j < |fs| ==> !fs[j].outcome.Detected?) ==> Persisted(TrackAll(fs, w, h)) == None
  {
    var t := TrackAll(fs, w, h);
    if HasDetections(fs[k]) && (forall j :: k < j < |fs| ==> !HasDetections(fs[j])) {
      TrackNonemptySpec(fs, w, h);
      assert (t.nonemptyDetections, t.nonemptyWidth, t.nonemptyHeight) == (fs[k].outcome.detections, w, h);
    } else if (forall j :: 0 <= j < |fs| ==> !HasDetections(fs[j])) && fs[k].outcome.Detected? {
      TrackNonemptySpec(fs, w, h);
      TrackLastSpec(fs, w, h);
      var last := LastDetected(fs, k);
      assert (t.lastDetections, t.lastWidth, t.lastHeight) == (fs[last].outcome.detections, w, h);
      assert |fs[last].outcome.detections| == 0;
      assert t.nonemptyDetections == [];
    } else if forall j :: 0 <= j < |fs| ==> !fs[j].outcome.Detected? {
      TrackNonemptySpec(fs, w, h);
      TrackLastSpec(fs, w, h);
      assert (t.lastDetections, t.lastWidth, t.lastHeight) == ([], 0, 0);
      assert (t.nonemptyDetections, t.nonemptyWidth, t.nonemptyHeight) == ([], 0, 0);
    }
  }

  /** The last detected frame at or after a detected frame k. */
  lemma {:induction false} LastDetected(fs: seq<FrameIn>, k: nat) returns (last: nat)
    requires k < |fs| && fs[k].outcome.Detected?
    ensures k <= last < |fs| && fs[last].outcome.Detected?
    ensures forall j :: last < j < |fs| ==> !fs[j].outcome.Detected?
    decreases |fs| - k
  {
    if exists j :: k < j < |fs| && fs[j].outcome.Detected? {
      var j :| k < j < |fs| && fs[j].outcome.Detected?;
      last := LastDetected(fs, j);
    } else {
      last := k;
    }
  }
}
