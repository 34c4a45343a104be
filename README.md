# Knock-on detector: frame scan and ball-class filter

This project models the core shared by the rugby knock-on detector's three
detection front-ends (a sampling HTTP service, an unsampled HTTP service and a
Gradio interface) and by its command-line detector.

- **Ball-class filter** (`BallFilter`): from the detector's class table keep,
  in table order, the ids whose name contains "ball" in any letter case. An
  empty result means "no filter".
- **Start-up** (`Detector`): a front-end keeps the loaded detector, if any,
  and its class filter. The detector is an opaque function from a frame and
  the filter to the boxes found, or to the exception it raised. The annotated
  evidence image is an opaque function of the frame.
- **Frame scan** (`FrameScan`): read frames until the video ends, counting
  from 1. Run the detector on every frame whose index is a multiple of the
  stride. Record every frame with at least one box, and keep the evidence
  image of the first such frame. `ScanPrefix` specifies the loop after `n`
  frames. `ScanVideo` is the loop, proved equal to it. The lemmas prove the
  counts, the soundness, order and completeness of the records, the evidence
  rule and the abort rule.
- **Front-ends** (`AppHf`, `BallDetectApi`, `GradioApp`): the guards
  (detector missing, upload missing), the scan with stride
  `max(1, fps // 6)` or 1, and the response each builds.
- **Command line** (`KnockOnCli`): the choice of the weights file, the early
  return when there is none, loading, and the loop that collects the ball ids.

Three behaviours of the code shape the model:

- Every front-end scans to the end of the video; none stops at the first
  detection.
- An exception raised by the detector is not recovered per frame. It ends the
  whole request with an error response (`Aborted` in the model).
- A video that cannot be opened yields zero frames and a normal
  "nothing detected" response.

Python's `fps // 6` floors. Dafny's `/` by the positive divisor 6 does the
same, so `FrameSkip` uses it directly.

## Model

| member | source | states |
|---|---|---|
| `BallFilter.ContainsIffOccurs` | app_hf.py:30 | the substring test `t in s` holds iff `t` occurs at some position of `s` |
| `BallFilter.IsBallNameIgnoresCase` | app_hf.py:30 | `IsBallName` (`'ball' in v.lower()`) gives the same verdict for two names equal up to ASCII case |
| `BallFilter.BallIds` | api/ballDetect.py:48 | an id is in the filter iff some entry with that id has a name containing "ball" after lower-casing |
| `BallFilter.BallIdsAppend` | huggingface-gradio-deployment/app.py:16 | the filter keeps table order: filtering a concatenation concatenates the filtered parts |
| `BallFilter.BallIdsDistinct` | src/detect_knock_on.py:46-49 | a table with distinct ids (dictionary keys) gives a filter with no repeated id |
| `BallFilter.TargetClasses` | app_hf.py:30-32 | the target classes are `None` iff no name is a ball name, otherwise the non-empty ball-id list |
| `Detector.Startup` | app_hf.py:24-35 | the service keeps the loaded detector; its class filter is present iff a detector is loaded and some class is a ball class, and then is exactly `BallIds` of the class table (so ordered and duplicate-free) |
| `FrameScan.FrameSkip` | app_hf.py:65-68 | the stride is at least 1; for fps of 6 or more it is the largest `s` with `6*s <= fps` (30 gives 5); below 12 it is 1 |
| `FrameScan.ScanVideo` | app_hf.py:70-104 | the read/sample/detect/record loop yields exactly `ScanPrefix`, the specification of the loop's outcome, over the whole video |
| `FrameScan.AbortIsFinal` | app_hf.py:129-136 | once the detector has raised, the scan's outcome stays that error |
| `FrameScan.DivStep` | app_hf.py:80-86 | among 1..n the count of multiples of the stride grows by one exactly at a multiple |
| `FrameScan.ScanCounts` | app_hf.py:80-86 | a completed scan read all n frames, processed exactly `n / stride` of them, and holds exactly `HitCount` records (one per sampled frame with a box), no more than processed frames |
| `FrameScan.ScanRecordsSound` | api/ballDetect.py:77-93 | every record is a sampled frame in `1..n` with at least one box, holds that frame's boxes with `box_count` equal to their number, and record frames strictly increase |
| `FrameScan.ScanRecordsComplete` | app_hf.py:83-98 | every sampled frame in `1..n` on which the detector finds a box has a record |
| `FrameScan.ScanEvidence` | api/ballDetect.py:96-101 | the evidence image is present iff a record exists, and it is the annotation of the first recorded frame |
| `FrameScan.ScanAborts` | app_hf.py:129-136 | the scan aborts iff the detector raises on some sampled frame, with the message of the first such frame |
| `FrameScan.FirstRecordIsEarliestHit` | huggingface-gradio-deployment/app.py:49-67 | no record iff no sampled frame has a box; otherwise the first record is the earliest sampled frame with a box |
| `FrameScan.BlankVideoAtThirtyFps` | app_hf.py:65-98 | 90 frames at 30 fps with no box: 90 frames read, 18 processed, no record, no evidence |
| `AppHf.BuildReportOfScan` | app_hf.py:112-136 | the report `BuildReport` makes of a whole scan is an error iff the detector raised on a sampled frame, and then carries the first such frame's exception message; otherwise it has all frames, `frames_processed = frames / stride`, `event_detected` iff a sampled frame has a box, and then `detections_count` equal to the number of sampled frames with a box (`HitCount`), the earliest such frame and its image |
| `AppHf.DetectKnockOn` | app_hf.py:50-136 | with no detector, the "not loaded" error without reading a frame; otherwise the report of a scan with stride `max(1, fps // 6)` through the ball filter, with the properties above, including the error message |
| `BallDetectApi.RespondOfScan` | api/ballDetect.py:103-116 | the response `Respond` makes to a whole unsampled scan is an error iff the detector raised, and then carries the first such frame's exception message; otherwise it has the file name, all frames, `event_detected` iff some frame has a box, and an image iff `event_detected`, annotating the earliest such frame |
| `BallDetectApi.DetectKnockOn` | api/ballDetect.py:56-116 | with no detector, the error without reading a frame; otherwise the response to an unsampled scan through the ball filter, with the properties above, including the error message |
| `GradioApp.SummarizeScan` | huggingface-gradio-deployment/app.py:61-73 | the answer `Summarize` makes to a whole unsampled scan has an image iff it reports an event; it is an error iff the detector raised, and then embeds the first such frame's exception message; otherwise it has all frames and either no frame with a box, or the number of frames with a box (`HitCount`) and the earliest such frame with its image |
| `GradioApp.DetectKnockOn` | huggingface-gradio-deployment/app.py:23-73 | no detector gives the "not loaded" answer whatever the upload; then no upload gives the prompt; both without an image; otherwise the answer to an unsampled scan, with the properties above, including the error message |
| `KnockOnCli.FirstExisting` | src/detect_knock_on.py:22-30 | the search returns the first existing candidate, or none iff no candidate exists |
| `KnockOnCli.ChooseModelPath` | src/detect_knock_on.py:14-30 | the given `--model` path if it exists, else the default path if it exists, else none; a chosen path exists |
| `KnockOnCli.CollectBallIds` | src/detect_knock_on.py:46-49 | the loop builds exactly the ball-class filter, in table order |
| `KnockOnCli.SetUp` | src/detect_knock_on.py:14-55 | stops with "model not found" iff neither path exists, whatever loading would do; else reports the load error or the chosen path and `target_classes` (`None` iff no ball class, else the ball ids) |

## Left out

- Object detection itself (YOLO inference, confidence threshold, box coordinates): the detector is an opaque function, boxes are opaque values.
- Rendering and encoding of the evidence image (`plot`, JPEG encoding and base64 in the HTTP services, BGR-to-RGB conversion in the Gradio app): folded into one opaque annotation function of the frame. The annotation does not take the class filter as an argument, although `plot` draws the filtered result; each service has one fixed filter, so the function is fixed per service.
- Video decoding: the video is the finite sequence of frames the decoder yields, and the frame rate is an integer argument (the float-to-int truncation of the decoder's value is not modelled).
- Exceptions other than the detector's (file writing, decoding, encoding): only a detector exception is modelled as the source of the error responses.
- Temporary file save and delete, `cap.release()`: file-system and resource side effects.
- HTTP and Gradio wiring, CORS, the health routes and the message and emoji text of the answers: transport and presentation; the summaries keep only the counts they embed.
- Module-level loading of the detector (the path test and the load call): `Detector.Startup` takes the load's outcome as an argument; in `api/ballDetect.py` the search over a one-element path list reduces to that.
- `src/detect_knock_on.py` after the class filter: the search for a video, the display loop and the aspect-ratio resize (floating point, GUI).
- `src/collect_training_data.py`, `src/train_model.py`, `run.py`, `src/config.py`: interactive tooling, classifier training, argument dispatch and path constants.
- `BallFilter.IsBallName`: ASCII case folding only, not Python's Unicode-aware `str.lower`.
