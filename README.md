# Face-recognition gate: a Dafny model of `FaceRecognizer`

This project models the decision logic of the `FaceRecognizer` class of a
small Flask face-login application. The class does four things:

- **Enrollment** (`capturar_rostros`) reads camera frames. It saves every
  detected face as `user_<id>_<count>.jpg` until at least 30 samples exist,
  a read fails, or `q` is pressed.
- **Training** (`entrenar_modelo`) walks the dataset directory. It keeps the
  `.jpg` files whose second `_`-field parses as an integer and fits a fresh
  LBPH model on them. With no usable file it leaves the current model alone.
- **Model loading** (`__init__`, `_load_model`) reads the saved model file
  when it exists.
- **Authentication** (`autenticar_usuario`) reads frames until a frame is
  read at or after 20 seconds from the start. The deadline is tested only
  after each read, so a slow read can stretch the session. It accepts at the first face that the loaded model predicts as the
  claimed id with a distance below 25.

The camera, the Haar detector and the recognizer's `predict` become data. A
frame is `ReadFail` or `Captured(time, faces, quit)`. Each face carries the
`(id, distance)` pair that `predict` would return. The dataset directory is a
set of file names. The model file and `self.model` are `Option<Model>`, where
a `Model` records the file names and labels it was fitted on.

Modules, leaf first:

- `Options` (`options.dfy`): the `Option` type.
- `Decimal` (`decimal.dfy`): `str()` of integers and the subset of `int()` used.
- `SampleKeys` (`sample_keys.dfy`): `str.split`, `str.endswith`, the sample
  file-name builder and training's label parser.
- `Frames` (`frames.dfy`): the camera/detector/recognizer abstraction.
- `Training`, `Enrollment`, `Authentication`: one specification function per
  loop, plus lemmas about it.
- `Recognizer` (`recognizer.dfy`): the class `FaceRecognizer`, holding the
  imperative loops and the fields they update. Each method is proved equal
  to its specification function.

Where the code differs from a natural reading of the design, the model
follows the code:

- Enrollment can save more than 30 samples. The counter is compared with 30
  only before a frame is read, and every face of that frame is saved
  (`Enrollment.CaptureOvershoot`). Exactly 30 holds when each frame shows
  one face (`Enrollment.CaptureOneFacePerFrame`).
- Authentication reads the frame first and checks the deadline second. A
  failed read therefore wins over an expired deadline.

## Model

| member | source | states |
|---|---|---|
| `Decimal.ParseInt` | app.py:67 | `int()` succeeds exactly on an optional `-` followed by one or more ASCII digits. |
| `Decimal.ParseIntOfIntToDecimal` | app.py:47 | Formatting any integer in decimal and parsing it back returns the same integer. |
| `Decimal.NatToDecimalInjective` | app.py:47 | Different counters give different decimal strings. |
| `SampleKeys.SplitJoin` | app.py:66 | `split("_")` cuts a name into `_`-free fields that join back into the original name. |
| `SampleKeys.SampleName` | app.py:47 | Every name enrollment writes ends in `.jpg`. |
| `SampleKeys.SampleNameFields` | app.py:47 | For a user id without `_`, the name splits into exactly `user`, the id and `<count>.jpg`, so the counter is recoverable. |
| `SampleKeys.SampleNameLabel` | app.py:63-70 | For a user id without `_`, the label training parses from the name equals `int(user_id)`. The name is kept exactly when that parse succeeds. |
| `SampleKeys.SampleNameRoundTrip` | app.py:47-67 | A name built from an id in canonical decimal is kept by training and parses back to exactly that id. |
| `SampleKeys.UnderscoreIdLabel` | app.py:47-67 | For a user id `a_b` with `a` free of `_`, training reads the label `int(a)`, not an integer built from the whole id. |
| `SampleKeys.UnderscoreIdExample` | app.py:47-67 | The samples enrolled as `5_6` are labelled 5. |
| `SampleKeys.SampleNameInjective` | app.py:47 | Within one user id, distinct counters give distinct file names. |
| `Training.KeptLabels` | app.py:61-75 | The label list is as long as the kept-name list. Each label is the one parsed from the name at the same position. |
| `Training.KeptNamesMembers` | app.py:63-70 | A name is kept iff it is listed, ends in `.jpg` and its second `_`-field parses as an integer. A missing field or a non-integer field is skipped. |
| `Training.KeptNamesAppend` | app.py:63-75 | Filtering commutes with concatenation: kept names stay in listing order and each entry is judged on its own. |
| `Training.NoTrainingDataIff` | app.py:77-80 | There is nothing to train on exactly when no listed name is a valid sample. |
| `Training.EnrolledSampleLabelled` | app.py:47-75 | A listed file written for a canonical id puts that id among the training labels. |
| `Enrollment.CaptureRun` | app.py:35-54 | The capture loop never goes back in the frame sequence and never lowers the count. |
| `Enrollment.SessionNames` | app.py:45-49 | A session that saved n samples wrote n names. The k-th name carries counter k. |
| `Enrollment.CaptureCounts` | app.py:45-49 | The final count is the number of faces in the frames the session consumed. |
| `Enrollment.CaptureOvershoot` | app.py:36-49 | If the session ends on the quota, then 30 <= count < 30 + (faces in the last frame). |
| `Enrollment.CaptureFailBelowQuota` | app.py:37-40 | A failed read, or running out of frames, ends the session below 30 samples, at the unreadable frame. |
| `Enrollment.CaptureCompletes` | app.py:36-54 | If every frame shows at least one face and no `q`, and there are at least 30 frames, the session ends on the quota. |
| `Enrollment.CaptureOneFacePerFrame` | app.py:36-54 | With exactly one face per frame, a session saves exactly 30 samples from 30 frames. |
| `Enrollment.SessionNamesDistinct` | app.py:47-49 | No two files written in one session share a name. |
| `Enrollment.SessionNamesTrainable` | app.py:47-70 | For a user id without `_`, all of a session's files are usable by training iff the id parses as an integer. Each file's label is that integer. |
| `Authentication.FaceAccepts` | app.py:123-124 | The nested `< 100`/`< 25` tests accept exactly when the predicted id equals the claimed id and the distance is below 25. |
| `Authentication.FirstAccepting` | app.py:115-127 | Returns the first face of a frame that the loaded model accepts, with no accepting face before it. Returns None when there is no model or no accepting face. |
| `Authentication.AuthRun` | app.py:94-139 | The authentication loop stops at a frame no earlier than where it started. |
| `Authentication.GrantedIff` | app.py:94-143 | Authentication succeeds iff some frame is live, has a model and an accepting face, and every earlier frame was live, accepted nothing and had no `q`. |
| `Authentication.GrantedAt` | app.py:115-127 | First match wins: the reported face accepts, no earlier face in that frame does, and every earlier frame passed on. |
| `Authentication.IgnoresLaterFrames` | app.py:115-139 | Frames after the stopping frame do not affect the outcome. |
| `Authentication.DeadlineStops` | app.py:91-110 | A frame read at or after start + 20 stops the session there with TimedOut, unless it stopped earlier. It never succeeds at or after that frame. |
| `Authentication.NoModelRejects` | app.py:117-143 | With no loaded model, authentication never succeeds. |
| `Authentication.NoFaceRejects` | app.py:113-143 | A camera that never yields a detected face never lets anyone in. |
| `Authentication.ConfidenceMonotone` | app.py:123-127 | Lowering any face's distance never turns an accepted session into a rejected one. |
| `Authentication.ClaimSevenScenario` | app.py:118-127 | Claiming 7: a frame predicting (7, 10) is accepted. Any frame sequence whose faces all predict (7, 40), or all predict (9, 5), is never accepted. |
| `Recognizer.FaceRecognizer.constructor` | app.py:17-21 | The object starts with the given dataset and model file. The in-memory model is the saved one, or none. |
| `Recognizer.FaceRecognizer.LoadModel` | app.py:23-29 | Loads the saved model when the file exists; otherwise the current model stays. |
| `Recognizer.FaceRecognizer.CaptureFaces` | app.py:31-57 | Count and exit reason equal `Capture(frames)`. The files written are `SessionNames(user_id, count)`. The dataset gains exactly those names. |
| `Recognizer.FaceRecognizer.TrainModel` | app.py:59-86 | Reports no training data iff no name is kept, and then changes neither the model nor the file. Otherwise the model and the file both become a fresh model on all kept names and labels, never built from the previous model. |
| `Recognizer.FaceRecognizer.Authenticate` | app.py:88-143 | Result and exit reason equal `Authenticate(int(user_id), model present, start, frames)`. It returns true exactly on Granted. |

## Left out

- Flask routes, templates, redirects, flash messages and the secret key: web plumbing. Outcomes are return values (`CaptureEnd`, `TrainOutcome`, `AuthEnd`) instead of messages.
- Camera I/O (`VideoCapture`, `read`, `release`, `destroyAllWindows`): replaced by a finite frame sequence. Running out of frames is treated as a failed read.
- Haar detection and LBPH training, saving, reading and prediction: foreign library calls. Detector output and `predict` results are inputs. A model is represented by the file names and labels it was fitted on.
- Drawing, `imshow`, pixel data, grayscale conversion, cropping, `imwrite` and `imread`: image work. The dataset is modelled as file names only, so rewriting an existing name leaves the set unchanged.
- `Path.mkdir` and the dataset and model file paths: filesystem details.
- `os.listdir` order is not specified by the platform. `TrainModel` takes the listing as a parameter that must list each dataset name exactly once.
- Floating-point time: `time.time()` readings are integers carried on each successfully read frame. Nondecreasing readings are not required: every property holds for any readings.
- Python's full `int()` grammar (whitespace, `+`, underscores, non-ASCII digits) is not modelled. Only `[-]digits` is parsed.
- Recognizer.FaceRecognizer.Authenticate: requires that `user_id` parses as an integer. In the source, the `ValueError` from `int(user_id)` is raised only when a face is checked against a loaded model, and the route catches it.
- Concurrency: each `FaceRecognizer` method is modelled as running alone. `app.run` serves requests on threads, and all requests share one `face_recognizer`, so a login can run while a registration trains. Concurrent requests are not modelled. Neither is the non-atomic swap at app.py:82-83, where `self.model` is replaced before `train` runs.
- Recognizer.FaceRecognizer.TrainModel: `imread`, `train` and `save` are assumed to succeed. In the source, a kept `.jpg` that is not a readable image makes `imread` return None, and `train` then raises. By then `self.model` has already been replaced by an untrained recognizer, so every later authentication fails in `predict` until the process restarts.
- Ids containing `_`: Python's `int()` accepts `5_6` as 56 at authentication, but training labels that enrollee's files 5 (`SampleKeys.UnderscoreIdExample`). The underscore grammar of `int()` is outside the modelled `[-]digits` parser, so the mismatch itself is not modelled.
