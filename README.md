# Smart Traffic Analysis: the unique-car counter

Smart Traffic Analysis counts the cars in a traffic video. A pretrained
detector and tracker reports the objects in each frame, each with a class
name, a confidence score, a box and a track id. The application counts a
car once per track id. This project models that counter and the two loops
that drive it:

- the web dashboard (`app.py`): every frame is processed, and the count is
  shown after each frame;
- the desktop window (`main.py`): a frame whose tracker result has no boxes
  is skipped, the loop stops after a frame on which the `q` key was down,
  and the total is printed at the end.

A box is counted when its class name is `"car"` and its confidence is
strictly above 0.5. Its track id then goes into the set `tracked_ids`.
`car_count` goes up by one only when that id was not in the set yet. The
anchor point drawn under each counted box is the middle of its bottom edge.

Files:

- `detections.dfy` (module `Detections`): detections, boxes, tracker
  results (`Frame`), the filter `Qualifies`, and `Anchor`.
- `unique_count.dfy` (module `UniqueCount`): the ids a frame and a run
  contribute (`QualifyingIds`, `FrameIds`, `RunIds`), the lemmas about them,
  and the class `Counter`. `Counter` holds `seen` (`tracked_ids`) and
  `count` (`car_count`), with the invariant `count == |seen|`.
- `pipelines.dfy` (module `Pipelines`): `RunDashboard` (the `app.py` loop),
  `RunWindow` (the `main.py` loop) and the lemmas about them.

A video is the sequence of tracker results for the frames read, in order.
The end of the sequence is the frame source's end of stream. In `main.py`
the keyboard becomes a sequence `quit` with one entry per frame: whether
the `q` key was down when the loop polled after that frame.

Three behaviours of the code are easy to get wrong. The model follows the
code in each:

- The confidence threshold is the constant 0.5 in both files.
- A qualifying box without a track id is not skipped. Both loops read
  `box.id[0]` unconditionally, which fails when the tracker gave no id.
  The model makes "every qualifying box has an id" a precondition
  (`Tracked`, `BoxesTracked`, `RunTracked`).
- A tracker result without boxes is skipped in `main.py`, not treated as
  an empty frame. This does not change the count. It does skip the count
  display and the keyboard poll for that frame, so the `q` key cannot stop
  the loop there. `StopAfter` models this.

## Model

| member | source | states |
|---|---|---|
| Detections.Anchor | app.py:142-143 | The anchor is at the bottom edge `y2`. Its x is the floor of the mean of `x1` and `x2`, matching Python's `//`, so `2x <= x1 + x2 < 2x + 2`. When `x1 <= x2` it lies in `[x1, x2]`, at the centre of the bottom edge or half a pixel left of it. The same computation is at main.py:48-49. |
| UniqueCount.Counter.constructor | app.py:113-114 | A run starts with no id seen and a count of 0, and the count equals the number of ids seen (also main.py:14-15). |
| UniqueCount.Counter.Observe | app.py:128-133 | A car box with confidence above 0.5 and a new id adds exactly that id and raises the count by exactly 1. Every other box (another class, confidence at most 0.5, or an id already seen) leaves set and count unchanged. The count stays equal to the number of ids seen (also main.py:33-39). |
| UniqueCount.Counter.ObserveFrame | app.py:124-133 | After all boxes of a frame, in order, the set is the old set plus the frame's qualifying ids. The count is the size of that union, so it never decreases. |
| UniqueCount.QualifyingIdsMember | app.py:124-133 | An id is among a frame's ids exactly when some box of the frame passes the filter and carries that id, in both directions. |
| UniqueCount.FilteredBoxIgnored | app.py:128 | A box that fails the filter contributes nothing, wherever it sits in the frame. |
| UniqueCount.RepeatedBoxIdempotent | app.py:131-133 | A box seen twice in a row adds nothing the second time. |
| UniqueCount.RunIdsMember | main.py:17-39 | An id is counted by a run exactly when some qualifying box of some frame carries it, so the total is the number of distinct ids among all qualifying detections. |
| UniqueCount.RunIdsPrefix | app.py:116-133 | The ids counted after any prefix of the frames are a subset of those counted after the whole run: no id is ever removed. |
| UniqueCount.CountNeverDecreases | app.py:113-133 | The count after a longer prefix of the frames is at least the count after a shorter one. |
| UniqueCount.NoQualifyingBoxNoIds | main.py:33 | A frame none of whose boxes passes the filter contributes no id. |
| UniqueCount.NoQualifyingBoxesCountsZero | app.py:128 | A stream with no qualifying box, including an empty stream, ends with count 0. |
| UniqueCount.RepeatedFrameCountsOnce | main.py:37-39 | The same frame repeated `n > 0` times contributes its ids once. |
| UniqueCount.FiveFiveSevenCountsTwo | app.py:131-133 | Three qualifying boxes with ids 5, 5 and 7 count 2. |
| UniqueCount.TruckIsNotCounted | app.py:128 | Boxes with ids 1, 2 and 3, where 2 is a truck, count 2. |
| UniqueCount.IdNineOverHundredFramesCountsOnce | main.py:37-39 | Id 9 seen in 100 consecutive frames counts 1. |
| Pipelines.CountsShownAt | app.py:153-156 | The count shown after frame `i` is the number of distinct qualifying ids in frames `0..i`. |
| Pipelines.RunDashboard | app.py:112-161 | The dashboard loop reads every frame and skips a result without boxes. It shows one count per frame, never decreasing and never above the final count. Its final count is the number of distinct qualifying ids of the whole video. |
| Pipelines.StopAfter | main.py:17-79 | The window loop reads frames up to and including the first frame that has boxes and after which `q` was down, or all frames if there is none. |
| Pipelines.RunWindow | main.py:14-84 | The printed total is the number of distinct qualifying ids in the frames read before the loop stopped. Frames without boxes are skipped with no effect on the count. |
| Pipelines.WindowWithoutQuitReadsAll | main.py:17-79 | With no `q` press the window loop reads every frame, and its total counts the same ids as the dashboard's final count. |

## Left out

- The detector and tracker (`YOLO(...)`, `model.track(...)`) are not modelled. Their output for each frame is the input to the model.
- Mapping a class id to its name (`model.names[cls_id]`) is left out: a detection carries its class name directly.
- Confidence is a `real` compared exactly with `> 0.5`; floating-point rounding is not modelled.
- Box corners are integers. The truncation of the detector's floating-point corners by `int(...)` happens before the model.
- Video I/O is not modelled: opening, reading and releasing the capture, and the temporary file for the upload. A video that cannot be opened ends the program before counting starts (an error message, or `exit()`), so it is outside the model.
- Drawing and display are not modelled: rectangles, circles, text, colour conversion, windows, and the Streamlit page, uploader and button. The model keeps only the count the dashboard shows after each frame. It does not keep the window's on-screen count.
- `cv2.waitKey` is modelled only as the `quit` input sequence.
