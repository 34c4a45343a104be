/**
 * The HTTP front-end with frame sampling (`app_hf.py`): refuse when no
 * detector is loaded, otherwise scan the uploaded video at about six sampled
 * frames per second and report the counts, the number of detecting frames,
 * the first of them and its annotated image.
 */
module AppHf {
  import opened Values
  import opened Detector
  import opened FrameScan

  /** The response body of `/detect`. */
  datatype Report<I> =
    | Detected(totalFrames: nat, framesProcessed: nat, detectionsCount: nat, firstDetectionFrame: nat, detectedImage: Option<I>)
    | NotDetected(totalFrames: nat, framesProcessed: nat)
    | Failed(error: string)
  {
    /** The response's `event_detected` field. */
    predicate EventDetected() {
      Detected?
    }
  }

  /** The response built from the outcome of the scan. */
  function BuildReport<B, I>(scan: ScanResult<B, I>): Report<I> {
    match scan
    case Aborted(reason) => Failed(reason)
    case Completed(s) =>
      if |s.records| > 0 then
        Detected(s.frameCount, s.framesProcessed, |s.records|, s.records[0].frame, s.evidence)
      else
        NotDetected(s.frameCount, s.framesProcessed)
  }

  /**
   * What the response says about a video scanned with a given stride: an error
   * exactly when the detector raised on a sampled frame, carrying the message
   * of the first such frame; otherwise all frames
   * read, the multiples of the stride processed, an event exactly when a
   * sampled frame has a box, and then the number of such frames, the earliest
   * of them and its image.
   */
  ghost predicate ReportsScan<F, B, I>(r: Report<I>, video: seq<F>, skip: nat, detect: F -> Detection<B>, render: F -> I)
    requires 1 <= skip
  {
    (r.Failed? <==> exists i: nat :: Fault(video, skip, detect, i)) &&
    (r.Failed? ==> exists i: nat :: FirstFault(video, skip, detect, i) && r.error == detect(video[i - 1]).reason) &&
    (!r.Failed? ==> r.totalFrames == |video| && r.framesProcessed == |video| / skip &&
                    (r.EventDetected() <==> exists i: nat :: Hit(video, skip, detect, i))) &&
    (r.Detected? ==> r.detectionsCount == HitCount(video, skip, detect, |video|) &&
                     1 <= r.detectionsCount <= r.framesProcessed &&
                     Hit(video, skip, detect, r.firstDetectionFrame) &&
                     (forall i: nat :: i < r.firstDetectionFrame ==> !Hit(video, skip, detect, i)) &&
                     r.detectedImage == Some(render(video[r.firstDetectionFrame - 1])))
  }

  /** The report built from a whole scan says what `ReportsScan` requires. */
  lemma BuildReportOfScan<F, B, I>(video: seq<F>, skip: nat, detect: F -> Detection<B>, render: F -> I)
    requires 1 <= skip
    ensures ReportsScan(BuildReport(ScanPrefix(video, skip, detect, render, |video|)), video, skip, detect, render)
  {
    var n := |video|;
    ScanAborts(video, skip, detect, render, n);
    if ScanPrefix(video, skip, detect, render, n).Completed? {
      ScanCounts(video, skip, detect, render, n);
      ScanEvidence(video, skip, detect, render, n);
      FirstRecordIsEarliestHit(video, skip, detect, render);
    }
  }

  /** `detect_knock_on` on a decoded upload: its frame rate and its frames. */
  method DetectKnockOn<F, B, I>(service: Service<F, B, I>, fps: int, video: seq<F>) returns (r: Report<I>)
    ensures service.model.None? ==> r == Failed(ModelNotLoaded)
    ensures service.model.Some? ==>
              var m := service.model.value;
              ReportsScan(r, video, FrameSkip(fps), Filtered(m, service.targetClasses), m.annotate)
  {
    if service.model.None? {
      return Failed(ModelNotLoaded);
    }
    var m := service.model.value;
    var detect := Filtered(m, service.targetClasses);
    var frameSkip := FrameSkip(fps);
    var scan := ScanVideo(video, frameSkip, detect, m.annotate);
    r := BuildReport(scan);
    BuildReportOfScan(video, frameSkip, detect, m.annotate);
  }
}
