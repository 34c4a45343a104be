/**
 * The object detector as the front-ends see it, and the state each front-end
 * sets up once when it starts: the loaded detector (if its weights file was
 * found) and the ball-class filter derived from its class table.
 */
module Detector {
  import opened Values
  import opened BallFilter

  /** What one call of the detector on one frame gives: the boxes it kept, or the exception it raised. */
  datatype Detection<B> = Boxes(boxes: seq<B>) | Raised(reason: string)

  /**
   * A loaded detector: its class table, its inference (a frame and an optional
   * class filter to the boxes found) and its rendering of the annotated frame
   * as the evidence image the front-end returns.
   */
  datatype Model<!F, B, I> = Model(
    names: ClassNames,
    detect: (F, Option<seq<int>>) -> Detection<B>,
    annotate: F -> I)

  /** The module-level state of a front-end: `model` (absent when no weights were found) and `target_classes`. */
  datatype Service<!F, B, I> = Service(model: Option<Model<F, B, I>>, targetClasses: Option<seq<int>>)

  /** The error every front-end reports when its detector was not loaded. */
  const ModelNotLoaded: string := "Model is not loaded."

  /** Start-up: keep the loaded detector, if any, and restrict it to the ball classes of its table. */
  function Startup<F, B, I>(loaded: Option<Model<F, B, I>>): (service: Service<F, B, I>)
    ensures service.model == loaded
    ensures service.targetClasses.Some? <==>
              loaded.Some? && exists k :: 0 <= k < |loaded.value.names| && IsBallName(loaded.value.names[k].1)
    // the membership clause below follows from the last one and `BallIds`'s contract; it is kept for readers
    ensures service.targetClasses.Some? ==>
              var ids := service.targetClasses.value;
              |ids| > 0 && forall id :: id in ids <==>
                exists k :: 0 <= k < |loaded.value.names| && loaded.value.names[k].0 == id && IsBallName(loaded.value.names[k].1)
    ensures service.targetClasses.Some? ==> service.targetClasses.value == BallIds(loaded.value.names)
  {
    match loaded
    case None => Service(None, None)
    case Some(m) => Service(loaded, TargetClasses(m.names))
  }

  /** The detector as the scan calls it: every frame goes through the front-end's class filter. */
  function Filtered<F, B, I>(m: Model<F, B, I>, classes: Option<seq<int>>): F -> Detection<B> {
    frame => m.detect(frame, classes)
  }
}
