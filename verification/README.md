# Detected-Face-Mosaic: a Dafny model of the recognition pipeline

This project models the decision logic of `FaceRecog` in `main.py` — the
class that loads a gallery of known faces from stored `(name, data)` rows
and, for each camera frame, labels the detected faces and annotates the
frame — and proves properties of that model. The face library and all
OpenCV pixel work are opaque inputs: decoding and encoding a gallery image
is a function `Bytes -> Option<Encoding>`, the face distance is a function
`(Encoding, Encoding) -> real`, and the detector's output for one frame is
a `Detection` value (boxes and encodings).

Modules, following the program's structure:

- `Path` (`path.dfy`): Python's `os.path.splitext` for bare file names.
- `Text` (`text.dfy`): `int(x)` on a float and `"%d"`, with a decimal
  reader that inverts the rendering.
- `Gallery` (`gallery.dfy`): `call_face`, both as written and corrected.
- `Matcher` (`matcher.dfy`): per-face distances, the exclusive 0.45
  threshold, the first-index tie-break and the mean-distance score.
- `Overlay` (`overlay.dfy`): the drawing loop as a list of drawing commands
  (mosaic, box, filled strip, caption) at four times the detector's
  coordinates.
- `Recog` (`recog.dfy`): the `FaceRecog` state, the alternating
  `process_this_frame` switch, one `get_frame` call as a pure step, and runs
  of calls.
- `Video` (`video.dfy`): the two button flags toggled with Python's `~` and
  the gate that calls `get_frame` only while recognition is on.
- `CallFaceDrift` (`callface_drift.dfy`): the name/encoding drift of
  `call_face`, on a two-row example and in general.

Behaviour of the code that the model keeps:
- The stored score is the plain mean of all distances. It is not `1 − mean`.
- An empty gallery with a detected face raises in `min`. It does not yield
  "unknown". The model makes a non-empty gallery a precondition of a
  compute call.
- Gallery names are not made unique; duplicates are kept in row order.
- A gallery identity literally named `NotFound` is drawn like an unmatched
  face, mosaic included, because the drawing loop compares the label text.

## Model

| member | source | states |
|---|---|---|
| Path.SplitExtNonEmptyIff | main.py:32 | `splitext` yields a non-empty extension exactly when some dot follows a non-dot character; otherwise the whole name is the root |
| Path.SplitExtOfStemAndExt | main.py:32 | a dot-free stem followed by a one-dot extension splits back into exactly that stem and extension |
| Path.SplitExtParts | main.py:32 | root + extension is the whole name, and the extension is empty or one dot followed by dot-free text |
| Text.NatToString | main.py:116 | `%d` of a natural number is a digit string without leading zeros that reads back as the number |
| Text.FormatInt | main.py:116 | `%d` of any integer reads back as that integer and is written without leading zeros: a lone `0`, or digits starting with a non-zero digit, after a leading minus for negative values |
| Text.Trunc | main.py:116 | `int()` of a float rounds toward zero: within one below (or above, for negatives) the value |
| Gallery.IsJpgIff | main.py:32-33 | a row is used exactly when its name ends in lower-case `.jpg` after something other than only dots |
| Gallery.UpperCaseJpgSkipped | main.py:33 | the comparison is case-sensitive: `face.JPG` is skipped, `face.jpg` is used with stem `face` |
| Gallery.DecodedAtMostStems | main.py:31-41 | the encodings never outnumber the names, and the counts are equal exactly when every `.jpg` row decodes |
| Gallery.CallFace | main.py:31-41 | as written: every `.jpg` row's stem is appended to the names, only decodable rows add an encoding, failures are swallowed; encodings grow by at most as many as names, equally iff all decode |
| Gallery.CallFaceAligned | main.py:31-41 | corrected: a stem is appended only together with its encoding, so both lists grow by the same count |
| Gallery.DecodedStemsPairUp | main.py:36-39 | in the corrected build the k-th name and the k-th encoding come from the same `.jpg` row |
| Matcher.Distances | main.py:63-65 | one distance per gallery encoding, in gallery order |
| Matcher.Min | main.py:66 | `min` is a lower bound of the distances and is one of them |
| Matcher.ArgMin | main.py:71 | `np.argmin` is the first index at which the minimum occurs |
| Matcher.Label | main.py:66-72 | if some distance is below 0.45 the label is the name at the first index of the minimum; if none is, the label is `NotFound` |
| Matcher.ThresholdIsExclusive | main.py:70 | a distance of exactly 0.45 is not a match; 0.449 is |
| Matcher.TieGoesToFirst | main.py:71-72 | for distances `[0.3, 0.2, 0.2]` the label is the second name, the earlier of the two tied minima (the general rule is `Matcher.Label`'s) |
| Matcher.ScoreBetweenNearestAndFarthest | main.py:75 | the score lies between the minimum and the maximum distance |
| Matcher.ScorePermutationInvariant | main.py:75 | the score depends only on the multiset of distances, not on which identity is chosen |
| Matcher.UnmatchedScoreAtLeastThreshold | main.py:66-75 | an unmatched face always scores at least 0.45 |
| Matcher.MatchedScoreCanExceedThreshold | main.py:70-75 | a matched face can score above 0.45: distances 0.1 and 1.0 match the first name with score 0.55 |
| Overlay.CaptionReadsBack | main.py:105-116 | `NotFound` is shown bare; a name is shown as `name(` + the truncated percentage + `%)`, and the number reads back as `int(dist*100)`, written without leading zeros as `%d` writes it |
| Overlay.FacePlan | main.py:89-122 | a face gets four commands with a mosaic first exactly when it is `NotFound` and the flag is on, otherwise three, and no later command is a mosaic |
| Overlay.FacePlanLayout | main.py:100-122 | box, strip and caption come last in that order: red and font scale 1.0 for `NotFound`, blue and 0.75 otherwise, box thickness 2, white caption |
| Overlay.FacePlanAnchored | main.py:82-122 | every command of a face belongs to it: coordinates four times the detector's (strip 35 px high, caption inset 6 px), the mosaic written back at its region's size, a mosaic only if the face is `NotFound`, outline and strip in the face's colour, the caption the face's own |
| Overlay.MosaicLeavesGeometryAlone | main.py:89-107 | turning the mosaic on only prepends the mosaic; box, strip and caption are unchanged |
| Overlay.ZipLength | main.py:79-81 | `zip` of the three caches yields as many faces as the shortest of them holds |
| Overlay.Plan | main.py:79-122 | between three and four commands per drawn face, exactly three per face and no mosaic while the flag is off |
| Overlay.PlanLength | main.py:79-122 | exactly three commands per drawn face, plus one mosaic per `NotFound` drawn face while the flag is on |
| Overlay.PlanSplitsAtFace | main.py:79-122 | the frame's commands are the commands of the faces before face j, then face j's own (its mosaic before its outline, strip and caption), then those of the faces after it |
| Overlay.PlanMosaicIff | main.py:89-91 | a frame gets some mosaic exactly when the flag is on and some drawn face is `NotFound` |
| Overlay.PlanAnchored | main.py:79-122 | every drawn command belongs to one face of the `zip` of the caches: at four times that face's box, a mosaic only if that face is `NotFound`, in its colour, with its own caption |
| Overlay.PlanShowsEveryFace | main.py:79-122 | every face of the `zip` of the caches gets its outline and its own caption at its box, and a mosaic over it whenever the flag is on and it is `NotFound` |
| Recog.Init | main.py:21-24 | a new recogniser has an empty gallery and computes on its first call |
| Recog.LoadGallery | main.py:26-45 | loading as written: every `.jpg` stem joins the names, only decodable rows add an encoding (the lists grow equally exactly when all decode), the encodings still do not outnumber the names; the location, encoding and name caches are emptied, the scores and the switch stay |
| Recog.LoadGalleryAligned | main.py:26-45 | loading with the corrected build: names and encodings grow in step by the decodable rows; caches as for `LoadGallery` |
| Recog.Step | main.py:54-77 | the switch flips on every call; a reuse call leaves all caches identical; a compute call caches this frame's boxes and encodings with one label and one score per encoding; the gallery never changes; a compute call with a detected face needs a non-empty gallery |
| Recog.GetFrame | main.py:50-124 | a call draws the cache left by its own step; a reuse call draws exactly the cache it was given |
| Recog.Run | main.py:54-77 | after N calls the switch is back where it started exactly when N is even; the gallery is unchanged; only the detections of compute calls need a non-empty gallery |
| Recog.TraceAlternates | main.py:24-77 | call i computes exactly when i has the parity of the starting switch: from a new recogniser, the 1st, 3rd, 5th calls |
| Recog.AlternationCount | main.py:54-77 | over N calls from a computing state exactly ceil(N/2) calls compute, from a reusing state floor(N/2) |
| Recog.ReuseRedrawsLastCompute | main.py:54-81 | the reuse call after a compute call draws the same commands, whatever the detector reports on that frame |
| Video.ToggleDetection | main.py:173-174 | `~` on the recognition flag flips its truthiness while it holds 0 or -1 and touches nothing else |
| Video.ToggleMosaic | main.py:177-179 | the same for the mosaic flag |
| Video.InvertIsNotNegation | main.py:174 | `~` is not logical negation: `~1` is -2, truthy like 1 |
| Video.Pressed | main.py:135-179 | a flag that starts at 0 and is pressed n times is 0 or -1 and is on exactly when n is odd |
| Video.Cycle | main.py:149-155 | with recognition off the frame passes through and the recogniser does not advance; with it on the recogniser takes one `get_frame` step, the frame carries the plan of its new cache, and a mosaic appears only while the mosaic flag is truthy |
| Video.PausedFrameKeepsSchedule | main.py:149-174 | a frame shown while recognition is paused uses up no compute turn: pausing, showing a frame and resuming behaves as resuming at once |
| CallFaceDrift.ExampleGalleries | main.py:31-41 | with `alice.jpg` undecodable and `bob.jpg` decodable, the as-written names are alice and bob with Bob's encoding alone; the corrected names are bob alone |
| CallFaceDrift.CallFaceMislabels | main.py:36-39 | as written, with `alice.jpg` undecodable and `bob.jpg` decodable, a face identical to Bob's encoding is labelled "alice"; the corrected build labels it "bob" |
| CallFaceDrift.AlignedLabelIsNearestRow | main.py:36-72 | with the corrected build a matched label is the stem of a row whose own encoding is at the minimum distance |

## Findings

| source | as written | input that shows it | evidently intended | confidence | as-written member | corrected member |
|---|---|---|---|---|---|---|
| main.py:36-39 | the stem is appended to `known_names` before the image is decoded, so a row that fails leaves a name without an encoding and every later name shifts one place against its encoding | rows `alice.jpg` (undecodable) and `bob.jpg` (decodable); a face whose encoding equals Bob's | append the name only after its encoding was computed, so `known_names[i]` belongs to `known_encodings[i]` | high; not executed | Gallery.CallFace, Recog.LoadGallery, CallFaceDrift.CallFaceMislabels | Gallery.CallFaceAligned, Recog.LoadGalleryAligned, CallFaceDrift.AlignedLabelIsNearestRow |

`Recog.LoadGallery` loads as written and `Recog.LoadGalleryAligned` with
the corrected build. `Recog.Step` and everything after it hold for any
gallery whose encodings do not outnumber its names, which both loads keep.

## Left out

- The Qt classes `ShowVideo.startVideo`, `ImageViewer`, `MainWidget`, `MainWindow` and `MainWindow2`: the event loop, the worker thread, the frame signal and the 25 ms pacing are UI plumbing. Only the flag gate of `startVideo` is modelled, in `Video.Cycle`.
- SQLite queries and the file dialog of `func_db`: I/O. Rows arrive as a plain sequence.
- `face_recognition.face_locations`, `face_encodings` and `face_distance`: foreign machine-learning calls. They are opaque parameters; `Detection` does not require one encoding per box, since `zip` truncates anyway.
- `cv2.resize`, the BGR-to-RGB slice, `rectangle` and `putText` pixel effects: floating-point image processing. The model emits drawing commands, not pixels.
- The mosaic's failure cases: both raise out of `get_frame`. A region so small that a tenth of its width or height rounds to 0 makes the `fx=0.10` resize at main.py:93 target an empty size, which OpenCV rejects. A box reaching past the frame edge gives a clipped slice, and writing the full-size patch into it at main.py:99 is a numpy shape error. Neither error is modelled; the mosaic command carries the unclipped region.
- `get_jpg_bytes`: it calls `get_frame()` without arguments, so it cannot run, and nothing uses it.
- Floating point: distances and scores are exact reals. Float64 rounding near 0.45 and in the mean is not modelled.
- Path.SplitExt: only bare names without separators are modelled. The stored names are the last `/`-separated part of the chosen path. Windows drive prefixes are not modelled.
- Recog.Init: after `__init__` none of the four caches exists. `locations`, `face_encodings` and `face_names` are created by `call_face` (main.py:43-45), and `face_dist` by the first compute call. All four are modelled as empty lists from the start. No run can tell the difference, because the first `get_frame` call computes and sets all four before drawing.
- Recog.Step: an empty gallery with a detected face on a compute call is a precondition, not a modelled error, because the source raises from `min` there.
- Video.ToggleDetection: the truthiness flip is stated for the values 0 and -1 only. Those are the only values the flag takes, as `Video.Pressed` shows.
