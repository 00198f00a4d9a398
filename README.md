# Stability tracker of ConfirmScout, modelled in Dafny

ConfirmScout watches a window, reads the text in each captured frame, and
reacts when a piece of text has stayed in place. The part that decides "in
place" is the stability tracker (`ConfirmScout/Services/StabilityTracker.cs`).
It keeps a table from the lower-cased text of a detection to a tracked entry.
An entry holds the text, bounding box, confidence, frame count and last-seen
time. The tracker is fed one frame's detections at a time:

- a text whose key is not tracked gets a fresh entry with a count of 1;
- a tracked key seen at a similar box counts one more frame and moves to the
  new box. When the count becomes exactly 2 (`RequiredFrames`), the entry is
  announced as stable;
- a tracked key seen at a box that does not match restarts at 1 at the new
  box;
- after the frame, every key the frame did not mention is dropped.

Two boxes are similar when X and Y each differ by less than 10 and width and
height each differ by less than 15. The comparisons are strict. A query
(`GetStableDetection`) finds an entry case-insensitively, and only once its
count is at least 2. `Clear` forgets everything.

The project is organised as follows.

- `wrappers.dfy`: `Option`.
- `detections.dfy`: the two records, `DetectedText` and `StableDetection`,
  and the case-insensitive key.
- `stability_tracker.dfy`:
  - the meaning of one detection (`Observe`), of a frame's detections in order
    (`Absorb`) and of a whole frame with eviction (`Ingest`), as functions;
  - the class `StabilityTracker`, whose table is a `map` field updated in
    place by `ProcessDetections`, `RemoveUnseen` and `Clear`. The methods are
    proved to leave exactly the table that `Ingest` gives for the old table
    (`ProcessDetections`), that `Evict` gives for the old table and the seen
    keys (`RemoveUnseen`), and the empty table (`Clear`).
- `tracker_properties.dfy`: what one frame does to each key.
- `sessions.dfy`: a session of frames fed one after another, as the capture
  callback does, with lemmas about runs of frames and a client of the class.

Threshold and tolerances are fixed constants in the code, and they are
constants here. The frame time (`DateTime.Now` in the code) becomes a
parameter `now`, passed through to `lastSeen`. The stable-entry event becomes
the sequence of entries a frame announces, in announcement order.

## Model

| member | source | states |
|---|---|---|
| Detections.Key | ConfirmScout/Services/StabilityTracker.cs:28 | The key has the text's length, and each character is replaced by its lower-case partner: an upper-case letter becomes the letter 32 code points above it, and every other character is kept unchanged. The key contains no upper-case letter. |
| Detections.KeyIdempotent | ConfirmScout/Services/StabilityTracker.cs:88 | The key of a key is that key, so looking up a stored key finds its own entry. |
| Detections.KeyIgnoresCase | ConfirmScout/Services/StabilityTracker.cs:28 | Two texts have the same key if and only if they have the same length and agree at every position once lower-cased. Case is ignored, and no other difference is. |
| Detections.KeySeparates | ConfirmScout/Services/StabilityTracker.cs:28 | Texts that differ at some position even after lower-casing ("OK" and "NO") get different keys, so they are tracked as separate entries. |
| StabilityTracking.FrameKeys | ConfirmScout/Services/StabilityTracker.cs:24-29 | The seen-key set contains the key of every detection of the frame. |
| StabilityTracking.FrameKeysWitness | ConfirmScout/Services/StabilityTracker.cs:24-29 | Every key in the seen-key set is the key of some detection of the frame. |
| StabilityTracking.ObserveFacts | ConfirmScout/Services/StabilityTracker.cs:31-66 | One detection adds its key to the table and changes no other entry, and the key's entry takes the detection's box. An announcement happens only for a key that was already tracked. The announced value is that key's new entry, with a count of exactly `RequiredFrames`. |
| StabilityTracking.ObserveKeepsInvariant | ConfirmScout/Services/StabilityTracker.cs:36-65 | After one detection, every entry is still filed under the key of its own text and has a count of at least 1. |
| StabilityTracking.AbsorbFacts | ConfirmScout/Services/StabilityTracker.cs:26-67 | The detection loop adds exactly the frame's keys and leaves the other entries untouched. Everything it announces has a count of exactly `RequiredFrames`. |
| StabilityTracking.AbsorbKeepsInvariant | ConfirmScout/Services/StabilityTracker.cs:26-67 | The detection loop keeps the table invariant. Every announced entry belongs to a key of the frame. |
| StabilityTracking.IngestFacts | ConfirmScout/Services/StabilityTracker.cs:21-75 | After a frame, the tracked keys are exactly the keys of that frame, and the invariant holds. Every announced entry has a count of exactly `RequiredFrames` and is still tracked. |
| StabilityTracking.StabilityTracker.constructor | ConfirmScout/Services/StabilityTracker.cs:8-19 | A new tracker has an empty table. |
| StabilityTracking.StabilityTracker.ProcessDetections | ConfirmScout/Services/StabilityTracker.cs:21-75 | The in-place loop and eviction leave the table, and return the announcements, that `Ingest` gives for the old table. The tracked keys become exactly the frame's keys and the table invariant is kept. Every announced entry has count `RequiredFrames` and is still tracked. |
| StabilityTracking.StabilityTracker.RemoveUnseen | ConfirmScout/Services/StabilityTracker.cs:69-74 | The removal loop drops exactly the keys not seen in the frame and leaves every other entry as it was. |
| StabilityTracking.StabilityTracker.GetStableDetection | ConfirmScout/Services/StabilityTracker.cs:86-94 | The query finds an entry if and only if the text's key is tracked with a count of at least `RequiredFrames`. What it finds is that entry, latest box included, and the entry is filed under the same key. |
| StabilityTracking.StabilityTracker.Clear | ConfirmScout/Services/StabilityTracker.cs:96-99 | The table becomes empty and every later query finds nothing. |
| TrackerProperties.AbsorbAppend | ConfirmScout/Services/StabilityTracker.cs:26-67 | Detections are processed strictly left to right. Processing two lists one after the other equals processing their concatenation, in both table and announcements. |
| TrackerProperties.SoleSighting | ConfirmScout/Services/StabilityTracker.cs:26-74 | A frame that mentions a key once leaves that key's entry and its announcements exactly as that one detection would on the previous table. |
| TrackerProperties.FirstSighting | ConfirmScout/Services/StabilityTracker.cs:55-66 | In a frame that mentions the key once, an untracked key gets an entry with the detection's text, box and confidence, a count of 1 and the frame time. It is not announced. |
| TrackerProperties.SimilarSighting | ConfirmScout/Services/StabilityTracker.cs:34-45 | In a frame that mentions the key once, a tracked key seen at a similar box counts one more frame and takes the new box and time. It keeps its stored text and confidence. It is announced exactly when the new count equals `RequiredFrames`. |
| TrackerProperties.DissimilarSighting | ConfirmScout/Services/StabilityTracker.cs:47-53 | In a frame that mentions the key once, a tracked key seen at a box that does not match keeps its text and confidence, restarts at count 1 with the new box and time, and is not announced. |
| TrackerProperties.ReturningKeyStartsOver | ConfirmScout/Services/StabilityTracker.cs:55-74 | A key absent from one frame is evicted. When a later frame mentions it once, it starts again at count 1 and is not announced. |
| Sessions.UnmatchedSightingQuiet | ConfirmScout/Services/StabilityTracker.cs:47-66 | A frame that mentions a key once, when the key is untracked or tracked at a box that does not match, announces nothing for that key. |
| TrackerProperties.RepeatedInOneFrame | ConfirmScout/Services/StabilityTracker.cs:26-45 | A text listed twice at the same place in one frame is processed against the entry just created. It reaches count 2 and is announced within that frame. |
| TrackerProperties.SimilarReflexive | ConfirmScout/Services/StabilityTracker.cs:77-84 | Every box is similar to itself. |
| TrackerProperties.SimilarSymmetric | ConfirmScout/Services/StabilityTracker.cs:77-84 | Similarity does not depend on the order of the two boxes. |
| TrackerProperties.ToleranceIsStrict | ConfirmScout/Services/StabilityTracker.cs:77-84 | Moving a box along one axis keeps it similar if and only if the move is strictly smaller than that axis's tolerance: 10 for X and Y, 15 for width and height. A move of exactly the tolerance is not similar. |
| Sessions.Replay | ConfirmScout/MainWindow.xaml.cs:145-161 | A session of frames yields one list of announcements per frame. |
| Sessions.ReplayPrefix | ConfirmScout/MainWindow.xaml.cs:145-161 | Later frames never revise earlier announcements. The first m frames of a session announce exactly what they would on their own. |
| Sessions.ReplayAnnouncements | ConfirmScout/MainWindow.xaml.cs:145-161 | Frame i of a session announces exactly what ingesting it announces, against the table left by the frames before it. |
| Sessions.ReplayKeepsInvariant | ConfirmScout/Services/StabilityTracker.cs:21-75 | After any session, the table invariant holds and the table holds exactly the keys of the last frame. |
| Sessions.SteadyRunEntry | ConfirmScout/Services/StabilityTracker.cs:34-38 | After n identical frames that start from an untracked key, the key is the only one tracked. Its count is n, and its time is that of the last frame. |
| Sessions.SteadyRunFiresOnce | ConfirmScout/Services/StabilityTracker.cs:40-45 | A run of identical frames is announced exactly once, on its second frame, with count 2. It is not announced on the first frame or any later one. |
| Sessions.JumpingKeyEntry | ConfirmScout/Services/StabilityTracker.cs:47-53 | Suppose every frame mentions the key once, among any other text, each time at a box that does not match the previous frame's. Then the key's count stays 1, its box is always the latest one, and it keeps the text and confidence of its first sighting. |
| Sessions.JumpingKeyQuiet | ConfirmScout/Services/StabilityTracker.cs:47-53 | In such a session, the latest frame announces nothing for that key. |
| Sessions.JumpingKeyNeverFires | ConfirmScout/Services/StabilityTracker.cs:47-53 | In such a session, no frame announces anything for that key, whatever other text the frames show. |
| Sessions.ResetRunFiresTwice | ConfirmScout/Services/StabilityTracker.cs:31-53 | Frames at box A, A, B, A, A, with B not matching A, announce on the 2nd and 5th frames only, never on the frame at B. |
| Sessions.AbsenceRestartsRun | ConfirmScout/Services/StabilityTracker.cs:55-74 | Frames showing the text, the text, nothing, the text, the text announce on the 2nd and 5th frames only: the empty frame evicts the key. |
| Sessions.MonitorTwoFrames | ConfirmScout/MainWindow.xaml.cs:213-219 | On a new tracker, two frames showing the same detection announce it once, with count 2. A later query for its text finds that entry. After `Clear`, as on stopping, the query finds nothing. |

## Left out

- Logging: the tracker's log call and `Logger.cs` (file output, locking) are not part of this model.
- Detections.Key: lower-cases ASCII letters only. `ToLowerInvariant` also maps non-ASCII letters, and that Unicode case table is not modelled.
- StabilityTracking.StabilityTracker.ProcessDetections: `FrameCount` is an unbounded integer. The 32-bit `int` of the code would overflow only after about two billion consecutive similar frames, and that wrap-around is not modelled.
- The stable-entry event: the event is modelled as a returned sequence of value snapshots. The subscriber (`OnStableDetectionFound`: overlay, beep, cursor move) is not modelled.
- Aliasing: the code mutates the stored entry in place and passes that same object to the subscriber, so later frames change what the subscriber holds. Entries here are immutable values.
- `DateTime.Now` is replaced by the caller-supplied `now`, and `DetectedText.DetectedAt` is carried but unused, as in the code.
- Floating point: box coordinates and confidence are mathematical reals. NaN and IEEE rounding are not modelled.
- StabilityTracking.StabilityTracker.ProcessDetections: assumes the log call (StabilityTracker.cs:43) and the event subscriber (line 44) return normally. In the code, an exception from either escapes midway through the frame. Examples are a failing `File.AppendAllText` in `Logger.Log` (Logger.cs:24), or the subscriber touching WPF controls from the capture timer's thread-pool thread (MainWindow.xaml.cs:169-176). At that point the count has already been incremented. The remaining detections and the eviction of lines 69-74 are skipped, and `OnFrameCaptured` catches and logs the exception (MainWindow.xaml.cs:158-161). The model always completes the frame. For such an aborted frame, it does not capture the partly updated table, whose keys need not be the frame's keys.
- Concurrency: the asynchronous capture callback is assumed to call the tracker one frame at a time.
- Sessions.JumpingKeyEntry, Sessions.JumpingKeyQuiet, Sessions.JumpingKeyNeverFires: start from a well-formed table that does not track the key. The tracker's table is always well formed, and a key that is already tracked is covered per frame by `TrackerProperties.SimilarSighting` and `TrackerProperties.DissimilarSighting`.
- TrackerProperties.FirstSighting, TrackerProperties.SimilarSighting, TrackerProperties.DissimilarSighting, TrackerProperties.ReturningKeyStartsOver: stated for a frame that mentions the key once. A key listed several times in one frame is processed once per listing against the entry as it then stands; `TrackerProperties.RepeatedInOneFrame` shows the case of a text listed twice.
- Sessions.SteadyRunFiresOnce: stated for frames that repeat one identical detection. Runs whose box drifts while staying similar are covered frame by frame by `TrackerProperties.SimilarSighting`.
- CaptureService, OcrService (a placeholder that returns no detections), MouseController, HotkeyService, WindowPicker, OverlayWindow and the scroll-search loop of `MainWindow.xaml.cs` are not part of this model. They are I/O, Win32 and UI code, or a loop whose meaning rests on cancellation between asynchronous delays.
