/**
 * The start of the command-line detector (`src/detect_knock_on.py`, `main`):
 * choose the weights file, stop when there is none, load the detector and
 * build its ball-class filter with an explicit loop.  The file system is the
 * predicate `pathExists`; loading is a call that yields the class table or
 * raises.
 */
module KnockOnCli {
  import opened Values
  import opened BallFilter

  /** Where `main` stands once the detector is set up, or why it returned early. */
  datatype Setup =
    | ModelNotFound
    | LoadFailed(reason: string)
    | Ready(modelPath: string, targetClasses: Option<seq<int>>)

  /** Python truthiness of an optional path argument: present and non-empty. */
  predicate Given(arg: Option<string>) {
    arg.Some? && arg.value != ""
  }

  /** The first candidate path that exists, searching in order and stopping at the first hit. */
  method FirstExisting(candidates: seq<string>, pathExists: string -> bool) returns (found: Option<string>)
    ensures found.None? <==> forall k :: 0 <= k < |candidates| ==> !pathExists(candidates[k])
    ensures found.Some? ==> exists k :: 0 <= k < |candidates| && candidates[k] == found.value &&
                                        pathExists(candidates[k]) &&
                                        forall j :: 0 <= j < k ==> !pathExists(candidates[j])
  {
    found := None;
    for i := 0 to |candidates|
      invariant found.None?
      invariant forall j :: 0 <= j < i ==> !pathExists(candidates[j])
    {
      if pathExists(candidates[i]) {
        found := Some(candidates[i]);
        break;
      }
    }
  }

  /**
   * The weights file: the `--model` argument when it names an existing file,
   * otherwise the default next to the script when it exists, otherwise none.
   */
  method ChooseModelPath(model: Option<string>, defaultModel: string, pathExists: string -> bool) returns (modelPath: Option<string>)
    ensures modelPath.Some? ==> pathExists(modelPath.value)
    ensures Given(model) && pathExists(model.value) ==> modelPath == model
    ensures !(Given(model) && pathExists(model.value)) ==>
              modelPath == if pathExists(defaultModel) then Some(defaultModel) else None
  {
    if Given(model) && pathExists(model.value) {
      modelPath := model;
    } else if pathExists(defaultModel) {
      modelPath := Some(defaultModel);
    } else {
      var possibleModels := [defaultModel, defaultModel];
      modelPath := FirstExisting(possibleModels, pathExists);
    }
  }

  /** The loop that collects the ids of the ball classes, in table order. */
  method CollectBallIds(names: ClassNames) returns (ballIds: seq<int>)
    ensures ballIds == BallIds(names)
    // follows from the clause above and `BallIds`'s contract; kept for readers
    ensures forall id :: id in ballIds <==> exists k :: 0 <= k < |names| && names[k].0 == id && IsBallName(names[k].1)
  {
    ballIds := [];
    for i := 0 to |names|
      invariant ballIds == BallIds(names[..i])
    {
      var entry := names[i];
      if IsBallName(entry.1) {
        ballIds := ballIds + [entry.0];
      }
      assert names[..i + 1] == names[..i] + [entry];
      BallIdsAppend(names[..i], [entry]);
    }
    assert names[..|names|] == names;
  }

  /** `main` up to the choice of the video: the weights file, the loaded detector and its class filter. */
  method SetUp(model: Option<string>, defaultModel: string, pathExists: string -> bool,
               load: string -> Result<ClassNames>) returns (setup: Setup)
    requires defaultModel != ""
    ensures setup.ModelNotFound? <==> !(Given(model) && pathExists(model.value)) && !pathExists(defaultModel)
    ensures !setup.ModelNotFound? ==>
              var path := if Given(model) && pathExists(model.value) then model.value else defaultModel;
              (setup.LoadFailed? <==> load(path).Failure?) &&
              (setup.LoadFailed? ==> setup.reason == load(path).error) &&
              (setup.Ready? ==> setup.modelPath == path && pathExists(path) &&
                                var names := load(path).value;
                                (setup.targetClasses.None? <==> forall k :: 0 <= k < |names| ==> !IsBallName(names[k].1)) &&
                                (setup.targetClasses.Some? ==> setup.targetClasses.value == BallIds(names)))
  {
    var modelPath := ChooseModelPath(model, defaultModel, pathExists);
    if modelPath.None? || modelPath.value == "" {
      return ModelNotFound;
    }
    var loaded := load(modelPath.value);
    if loaded.Failure? {
      return LoadFailed(loaded.error);
    }
    var names := loaded.value;
    var ballIds := CollectBallIds(names);
    var targetClasses: Option<seq<int>> := None;
    if |ballIds| > 0 {
      targetClasses := Some(ballIds);
    }
    assert targetClasses == TargetClasses(names);
    setup := Ready(modelPath.value, targetClasses);
  }
}
