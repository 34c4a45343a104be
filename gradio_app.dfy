/**
 * The Gradio front-end (`huggingface-gradio-deployment/app.py`): the same
 * unsampled scan, answered with a summary (whose text embeds the counts) and
 * the evidence image, or no image.
 */
module GradioApp {
  import opened Values
  import opened Detector
  import opened FrameScan

  /** The counts and facts the summary text reports. */
  datatype Summary =
    | ModelMissing
    | NoVideo
    | EventFound(totalFrames: nat, detections: nat, firstFrame: nat)
    | NoEvent(totalFrames: nat)
    | ProcessingError(reason: string)

  /** The pair returned to the interface: the summary and the evidence image. */
  datatype Answer<I> = Answer(summary: Summary, image: Option<I>)

  /** The answer built from the outcome of the scan. */
  function Summarize<B, I>(scan: ScanResult<B, I>): Answer<I> {
    match scan
    case Aborted(reason) => Answer(ProcessingError(reason), None)
    case Completed(s) =>
      if |s.records| > 0 then Answer(EventFound(s.frameCount, |s.records|, s.records[0].frame), s.evidence)
      else Answer(NoEvent(s.frameCount), None)
  }

  /**
   * What the answer says about a video: an error exactly when the detector
   * raised on some frame, embedding the message of the first such frame; otherwise all frames read, and either no frame with a
   * box, or the number of detecting frames and the earliest of them with its
   * image.  An image comes exactly with a reported event.
   */
  ghost predicate AnswersScan<F, B, I>(r: Answer<I>, video: seq<F>, detect: F -> Detection<B>, render: F -> I) {
    (r.image.Some? <==> r.summary.EventFound?) &&
    (r.summary.ProcessingError? <==> exists i: nat :: Fault(video, EveryFrame, detect, i)) &&
    (r.summary.ProcessingError? ==>
       exists i: nat :: FirstFault(video, EveryFrame, detect, i) && r.summary.reason == detect(video[i - 1]).reason) &&
    (r.summary.ProcessingError? || r.summary.NoEvent? || r.summary.EventFound?) &&
    (r.summary.NoEvent? ==> r.summary.totalFrames == |video| &&
                            forall i: nat :: !Hit(video, EveryFrame, detect, i)) &&
    (r.summary.EventFound? ==> r.summary.totalFrames == |video| &&
                               r.summary.detections == HitCount(video, EveryFrame, detect, |video|) &&
                               1 <= r.summary.detections <= |video| &&
                               Hit(video, EveryFrame, detect, r.summary.firstFrame) &&
                               (forall i: nat :: i < r.summary.firstFrame ==> !Hit(video, EveryFrame, detect, i)) &&
                               r.image == Some(render(video[r.summary.firstFrame - 1])))
  }

  /** The answer built from a whole unsampled scan says what `AnswersScan` requires. */
  lemma SummarizeScan<F, B, I>(video: seq<F>, detect: F -> Detection<B>, render: F -> I)
    ensures AnswersScan(Summarize(ScanPrefix(video, EveryFrame, detect, render, |video|)), video, detect, render)
  {
    var n := |video|;
    ScanAborts(video, EveryFrame, detect, render, n);
    if ScanPrefix(video, EveryFrame, detect, render, n).Completed? {
      ScanCounts(video, EveryFrame, detect, render, n);
      ScanEvidence(video, EveryFrame, detect, render, n);
      FirstRecordIsEarliestHit(video, EveryFrame, detect, render);
    }
  }

  /** `detect_knock_on(video_file)`, where an absent upload is `None`. */
  method DetectKnockOn<F, B, I>(service: Service<F, B, I>, videoFile: Option<seq<F>>) returns (r: Answer<I>)
    ensures service.model.None? ==> r == Answer(ModelMissing, None)
    ensures service.model.Some? && videoFile.None? ==> r == Answer(NoVideo, None)
    ensures service.model.Some? && videoFile.Some? ==>
              var m := service.model.value;
              AnswersScan(r, videoFile.value, Filtered(m, service.targetClasses), m.annotate)
  {
    if service.model.None? {
      return Answer(ModelMissing, None);
    }
    if videoFile.None? {
      return Answer(NoVideo, None);
    }
    var m := service.model.value;
    var detect := Filtered(m, service.targetClasses);
    var video := videoFile.value;
    var scan := ScanVideo(video, EveryFrame, detect, m.annotate);
    r := Summarize(scan);
    SummarizeScan(video, detect, m.annotate);
  }
}
