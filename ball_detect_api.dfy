/**
 * The HTTP front-end without sampling (`api/ballDetect.py`): every frame goes
 * through the detector, each detecting frame is recorded with its boxes, and
 * the response says whether any frame held a ball and carries the annotated
 * image of the first one.
 */
module BallDetectApi {
  import opened Values
  import opened Detector
  import opened FrameScan

  /** The response body of `/detect`. */
  datatype Response<I> =
    | Analyzed(filename: string, totalFrames: nat, eventDetected: bool, detectedImage: Option<I>)
    | Error(error: string)

  /** The response built from the outcome of the scan. */
  function Respond<B, I>(filename: string, scan: ScanResult<B, I>): Response<I> {
    match scan
    case Aborted(reason) => Error(reason)
    case Completed(s) => Analyzed(filename, s.frameCount, |s.records| > 0, s.evidence)
  }

  /**
   * What the response says about a video: an error exactly when the detector
   * raised on some frame, carrying the message of the first such frame; otherwise the file name, all frames read, an event
   * exactly when some frame has a box, and an image exactly then, annotating
   * the earliest such frame.
   */
  ghost predicate RespondsToScan<F, B, I>(r: Response<I>, filename: string, video: seq<F>, detect: F -> Detection<B>, render: F -> I) {
    (r.Error? <==> exists i: nat :: Fault(video, EveryFrame, detect, i)) &&
    (r.Error? ==> exists i: nat :: FirstFault(video, EveryFrame, detect, i) && r.error == detect(video[i - 1]).reason) &&
    (r.Analyzed? ==> r.filename == filename && r.totalFrames == |video| &&
                     (r.eventDetected <==> exists i: nat :: Hit(video, EveryFrame, detect, i)) &&
                     (r.detectedImage.Some? <==> r.eventDetected) &&
                     (r.eventDetected ==>
                        exists i: nat :: Hit(video, EveryFrame, detect, i) &&
                          (forall k: nat :: k < i ==> !Hit(video, EveryFrame, detect, k)) &&
                          r.detectedImage == Some(render(video[i - 1]))))
  }

  /** The response built from a whole unsampled scan says what `RespondsToScan` requires. */
  lemma RespondOfScan<F, B, I>(filename: string, video: seq<F>, detect: F -> Detection<B>, render: F -> I)
    ensures RespondsToScan(Respond(filename, ScanPrefix(video, EveryFrame, detect, render, |video|)), filename, video, detect, render)
  {
    var n := |video|;
    ScanAborts(video, EveryFrame, detect, render, n);
    var scan := ScanPrefix(video, EveryFrame, detect, render, n);
    if scan.Completed? {
      ScanCounts(video, EveryFrame, detect, render, n);
      ScanEvidence(video, EveryFrame, detect, render, n);
      FirstRecordIsEarliestHit(video, EveryFrame, detect, render);
      var records := scan.state.records;
      if |records| > 0 {
        assert Hit(video, EveryFrame, detect, records[0].frame);
      }
    }
  }

  /** `detect_knock_on` on an upload: its file name and its decoded frames. */
  method DetectKnockOn<F, B, I>(service: Service<F, B, I>, filename: string, video: seq<F>) returns (r: Response<I>)
    ensures service.model.None? ==> r == Error(ModelNotLoaded)
    ensures service.model.Some? ==>
              var m := service.model.value;
              RespondsToScan(r, filename, video, Filtered(m, service.targetClasses), m.annotate)
  {
    if service.model.None? {
      return Error(ModelNotLoaded);
    }
    var m := service.model.value;
    var detect := Filtered(m, service.targetClasses);
    var scan := ScanVideo(video, EveryFrame, detect, m.annotate);
    r := Respond(filename, scan);
    RespondOfScan(filename, video, detect, m.annotate);
  }
}
