/**
 * The frame scan shared by the three detection front-ends: read the video
 * frame by frame until it ends, count frames from 1, run the detector on the
 * frames selected by the sampling stride, record every frame with at least one
 * box and keep the annotated image of the first such frame.
 *
 * The video is the finite sequence of frames the decoder yields; the detector
 * and the renderer are opaque functions.  `ScanPrefix` is the specification of
 * the loop after its first n frames, `ScanVideo` is the loop itself, and the
 * lemmas state what the specification guarantees.
 */
module FrameScan {
  import opened Values
  import opened Detector

  /** One entry of `detections_found`: a 1-based frame index and the boxes found on it. */
  datatype Record<B> = Record(frame: nat, boxCount: nat, boxes: seq<B>)

  /** The loop's variables: `frame_count`, `frames_processed`, `detections_found` and the evidence image. */
  datatype ScanState<B, I> = ScanState(frameCount: nat, framesProcessed: nat, records: seq<Record<B>>, evidence: Option<I>)

  /** A scan either reaches the end of the video or stops at the first exception the detector raises. */
  datatype ScanResult<B, I> = Completed(state: ScanState<B, I>) | Aborted(reason: string)

  /** `max(1, fps // 6)`: the stride that samples about six frames per second of video. */
  function FrameSkip(fps: int): (skip: nat)
    ensures skip >= 1
    ensures fps >= 6 ==> 6 * skip <= fps < 6 * (skip + 1)
    ensures fps < 12 ==> skip == 1
  {
    var perSixth := fps / 6;
    if perSixth > 1 then perSixth else 1
  }

  /** `cap.read()`: the frame at position `pos`, or nothing once the video has ended. */
  function ReadFrame<F>(video: seq<F>, pos: nat): Option<F> {
    if pos < |video| then Some(video[pos]) else None
  }

  /** Frame `i` (1-based) is sampled and the detector finds at least one box on it. */
  ghost predicate Hit<F, B>(video: seq<F>, stride: nat, detect: F -> Detection<B>, i: nat) {
    1 <= i <= |video| && 1 <= stride && i % stride == 0 &&
    detect(video[i - 1]).Boxes? && |detect(video[i - 1]).boxes| > 0
  }

  /** Frame `i` (1-based) is sampled and the detector raises on it. */
  ghost predicate Fault<F, B>(video: seq<F>, stride: nat, detect: F -> Detection<B>, i: nat) {
    1 <= i <= |video| && 1 <= stride && i % stride == 0 && detect(video[i - 1]).Raised?
  }

  /** The number of frames among the first `n` that are sampled and on which the detector finds a box. */
  ghost function HitCount<F, B>(video: seq<F>, stride: nat, detect: F -> Detection<B>, n: nat): nat
    requires n <= |video|
  {
    if n == 0 then 0
    else HitCount(video, stride, detect, n - 1) + (if Hit(video, stride, detect, n) then 1 else 0)
  }

  /** Frame `i` is the earliest sampled frame on which the detector raises. */
  ghost predicate FirstFault<F, B>(video: seq<F>, stride: nat, detect: F -> Detection<B>, i: nat) {
    Fault(video, stride, detect, i) && forall k: nat :: k < i ==> !Fault(video, stride, detect, k)
  }

  /** The stride of the front-ends that process every frame. */
  const EveryFrame: nat := 1

  /** The outcome of the loop after it has read the first `n` frames. */
  ghost function ScanPrefix<F, B, I>(video: seq<F>, stride: nat, detect: F -> Detection<B>, render: F -> I, n: nat): ScanResult<B, I>
    requires 1 <= stride && n <= |video|
  {
    if n == 0 then Completed(ScanState(0, 0, [], None))
    else match ScanPrefix(video, stride, detect, render, n - 1)
      case Aborted(reason) => Aborted(reason)
      case Completed(s) =>
        if n % stride != 0 then Completed(s.(frameCount := n))
        else match detect(video[n - 1])
          case Raised(reason) => Aborted(reason)
          case Boxes(boxes) =>
            var processed := s.(frameCount := n, framesProcessed := s.framesProcessed + 1);
            if |boxes| == 0 then Completed(processed)
            else Completed(processed.(
              records := s.records + [Record(n, |boxes|, boxes)],
              evidence := if s.evidence.None? then Some(render(video[n - 1])) else s.evidence))
  }

  /** The scan loop: read until the video ends, detect on every `stride`-th frame, record the hits. */
  method ScanVideo<F, B, I>(video: seq<F>, stride: nat, detect: F -> Detection<B>, render: F -> I) returns (r: ScanResult<B, I>)
    requires 1 <= stride
    ensures r == ScanPrefix(video, stride, detect, render, |video|)
  {
    var frameCount: nat := 0;
    var framesProcessed: nat := 0;
    var records: seq<Record<B>> := [];
    var evidence: Option<I> := None;
    while true
      invariant frameCount <= |video|
      invariant ScanPrefix(video, stride, detect, render, frameCount)
                == Completed(ScanState(frameCount, framesProcessed, records, evidence))
      decreases |video| - frameCount
    {
      var next := ReadFrame(video, frameCount);
      if next.None? {
        break;
      }
      var frame := next.value;
      frameCount := frameCount + 1;
      if frameCount % stride != 0 {
        continue;
      }
      framesProcessed := framesProcessed + 1;
      var result := detect(frame);
      if result.Raised? {
        AbortIsFinal(video, stride, detect, render, frameCount, |video|);
        return Aborted(result.reason);
      }
      var boxes := result.boxes;
      if |boxes| > 0 {
        records := records + [Record(frameCount, |boxes|, boxes)];
        if evidence.None? {
          evidence := Some(render(frame));
        }
      }
    }
    r := Completed(ScanState(frameCount, framesProcessed, records, evidence));
  }

  /** Once the detector has raised, the scan's outcome no longer changes. */
  lemma {:induction false} AbortIsFinal<F, B, I>(video: seq<F>, stride: nat, detect: F -> Detection<B>, render: F -> I, n: nat, m: nat)
    requires 1 <= stride && n <= m <= |video|
    requires ScanPrefix(video, stride, detect, render, n).Aborted?
    ensures ScanPrefix(video, stride, detect, render, m) == ScanPrefix(video, stride, detect, render, n)
    decreases m
  {
    if m > n {
      AbortIsFinal(video, stride, detect, render, n, m - 1);
    }
  }

  /** Counting 1..n, the multiples of d grow by one exactly at multiples of d. */
  lemma DivStep(n: nat, d: nat)
    requires 1 <= n && 1 <= d
    ensures n / d == (n - 1) / d + (if n % d == 0 then 1 else 0)
  {
    var q, r := (n - 1) / d, (n - 1) % d;
    assert n - 1 == d * q + r && 0 <= r < d;
    if r == d - 1 {
      assert n == d * (q + 1);
      DivUnique(n, d, q + 1, 0);
    } else {
      assert n == d * q + (r + 1);
      DivUnique(n, d, q, r + 1);
    }
  }

  lemma DivUnique(n: nat, d: nat, q: int, r: int)
    requires 1 <= d && 0 <= r < d && n == d * q + r
    ensures n / d == q && n % d == r
  {
    var q', r' := n / d, n % d;
    assert d * q' + r' == n;
    assert d * (q' - q) == r - r';
    if q' > q {
      MulAtLeast(d, q' - q);
    } else if q' < q {
      MulAtLeast(d, q - q');
    }
  }

  /** A positive multiple of d is at least d. */
  lemma MulAtLeast(d: nat, k: int)
    requires 1 <= k
    ensures d * k >= d
  {
  }

  /**
   * A completed scan has read all `n` frames, ran the detector on exactly the
   * `n / stride` multiples of the stride, and holds one record per sampled
   * frame with a box, at most one per processed frame.
   */
  lemma {:induction false} ScanCounts<F, B, I>(video: seq<F>, stride: nat, detect: F -> Detection<B>, render: F -> I, n: nat)
    requires 1 <= stride && n <= |video|
    ensures ScanPrefix(video, stride, detect, render, n).Completed? ==>
              var s := ScanPrefix(video, stride, detect, render, n).state;
              s.frameCount == n && s.framesProcessed == n / stride &&
              |s.records| == HitCount(video, stride, detect, n) &&
              |s.records| <= s.framesProcessed <= s.frameCount
  {
    if n > 0 {
      ScanCounts(video, stride, detect, render, n - 1);
      DivStep(n, stride);
    }
  }

  /** Every record is a sampled frame within the first `n` whose boxes it holds, and records are in frame order. */
  ghost predicate RecordsSound<F, B>(video: seq<F>, stride: nat, detect: F -> Detection<B>, n: nat, records: seq<Record<B>>) {
    (forall j :: 0 <= j < |records| ==>
      records[j].frame <= n && Hit(video, stride, detect, records[j].frame) &&
      records[j].boxes == detect(video[records[j].frame - 1]).boxes &&
      records[j].boxCount == |records[j].boxes|) &&
    (forall j, k :: 0 <= j < k < |records| ==> records[j].frame < records[k].frame)
  }

  lemma {:induction false} ScanRecordsSound<F, B, I>(video: seq<F>, stride: nat, detect: F -> Detection<B>, render: F -> I, n: nat)
    requires 1 <= stride && n <= |video|
    ensures ScanPrefix(video, stride, detect, render, n).Completed? ==>
              RecordsSound(video, stride, detect, n, ScanPrefix(video, stride, detect, render, n).state.records)
  {
    if n > 0 {
      ScanRecordsSound(video, stride, detect, render, n - 1);
    }
  }

  /** Some record is for frame `i`. */
  ghost predicate Recorded<B>(records: seq<Record<B>>, i: nat) {
    exists j :: 0 <= j < |records| && records[j].frame == i
  }

  /** Every sampled frame within the first `n` on which the detector finds a box has a record. */
  lemma {:induction false} ScanRecordsComplete<F, B, I>(video: seq<F>, stride: nat, detect: F -> Detection<B>, render: F -> I, n: nat)
    requires 1 <= stride && n <= |video|
    ensures ScanPrefix(video, stride, detect, render, n).Completed? ==>
              forall i: nat :: i <= n && Hit(video, stride, detect, i) ==>
                Recorded(ScanPrefix(video, stride, detect, render, n).state.records, i)
  {
    if n > 0 && ScanPrefix(video, stride, detect, render, n).Completed? {
      ScanRecordsComplete(video, stride, detect, render, n - 1);
      var before := ScanPrefix(video, stride, detect, render, n - 1).state.records;
      var after := ScanPrefix(video, stride, detect, render, n).state.records;
      assert before <= after;
      forall i: nat | i <= n && Hit(video, stride, detect, i)
        ensures Recorded(after, i)
      {
        if i < n {
          var j :| 0 <= j < |before| && before[j].frame == i;
          assert after[j] == before[j];
        } else {
          assert after[|after| - 1].frame == n;
        }
      }
    }
  }

  /**
   * The evidence image is present exactly when some record exists, and it is
   * the rendering of the first recorded frame: set once and never replaced.
   */
  lemma {:induction false} ScanEvidence<F, B, I>(video: seq<F>, stride: nat, detect: F -> Detection<B>, render: F -> I, n: nat)
    requires 1 <= stride && n <= |video|
    ensures ScanPrefix(video, stride, detect, render, n).Completed? ==>
              var s := ScanPrefix(video, stride, detect, render, n).state;
              (s.evidence.Some? <==> |s.records| > 0) &&
              (|s.records| > 0 ==> 1 <= s.records[0].frame <= |video| &&
                                   s.evidence == Some(render(video[s.records[0].frame - 1])))
  {
    if n > 0 {
      ScanEvidence(video, stride, detect, render, n - 1);
    }
  }

  /**
   * The scan is aborted exactly when the detector raises on some sampled frame,
   * and then with the message of the first such frame.
   */
  lemma {:induction false} ScanAborts<F, B, I>(video: seq<F>, stride: nat, detect: F -> Detection<B>, render: F -> I, n: nat)
    requires 1 <= stride && n <= |video|
    ensures ScanPrefix(video, stride, detect, render, n).Aborted? <==>
              exists i: nat :: i <= n && Fault(video, stride, detect, i)
    ensures ScanPrefix(video, stride, detect, render, n).Aborted? ==>
              exists i: nat :: i <= n && FirstFault(video, stride, detect, i) &&
                detect(video[i - 1]).reason == ScanPrefix(video, stride, detect, render, n).reason
  {
    if n > 0 {
      ScanAborts(video, stride, detect, render, n - 1);
      if ScanPrefix(video, stride, detect, render, n - 1).Completed? && Fault(video, stride, detect, n) {
        assert forall k: nat :: k < n ==> !Fault(video, stride, detect, k);
        assert FirstFault(video, stride, detect, n);
      }
    }
  }

  /** The first record is the earliest sampled frame with a box; with no record, no sampled frame has one. */
  lemma FirstRecordIsEarliestHit<F, B, I>(video: seq<F>, stride: nat, detect: F -> Detection<B>, render: F -> I)
    requires 1 <= stride
    requires ScanPrefix(video, stride, detect, render, |video|).Completed?
    ensures var records := ScanPrefix(video, stride, detect, render, |video|).state.records;
            (|records| == 0 <==> forall i: nat :: !Hit(video, stride, detect, i)) &&
            (|records| > 0 ==> Hit(video, stride, detect, records[0].frame) &&
                               forall i: nat :: i < records[0].frame ==> !Hit(video, stride, detect, i))
  {
    var n := |video|;
    var records := ScanPrefix(video, stride, detect, render, n).state.records;
    ScanRecordsSound(video, stride, detect, render, n);
    ScanRecordsComplete(video, stride, detect, render, n);
    if |records| > 0 {
      forall i: nat | i < records[0].frame ensures !Hit(video, stride, detect, i) {
      }
    } else {
      forall i: nat ensures !Hit(video, stride, detect, i) {
      }
    }
  }

  /**
   * A video of 90 frames at 30 frames per second on which the detector never
   * finds a box: every frame is read, the 18 frames 5, 10, ..., 90 are
   * processed, and nothing is recorded.
   */
  lemma BlankVideoAtThirtyFps<F, B, I>(video: seq<F>, detect: F -> Detection<B>, render: F -> I)
    requires |video| == 90
    requires forall f :: detect(f) == Boxes([])
    ensures ScanPrefix(video, FrameSkip(30), detect, render, 90) == Completed(ScanState(90, 18, [], None))
  {
    var n := 90;
    ScanAborts(video, 5, detect, render, n);
    ScanCounts(video, 5, detect, render, n);
    ScanRecordsSound(video, 5, detect, render, n);
    ScanEvidence(video, 5, detect, render, n);
  }
}
