# Autoframing model of the face tracker

The face tracker reads webcam frames and asks a cascade classifier for face
rectangles. Each tick it moves a crop rectangle toward a square around the
largest face, and shows the crop resized to a square display. The only computation in the program beyond device and widget
glue is the per-tick region-of-interest (ROI) update in
`CameraTrackerApp.update_frame`. This project models that update as pure
functions over integer rectangles `(x, y, w, h)` and proves properties of it.

The update has five stages. Each is a function in module `Autoframe`:

1. **Face selection** (`LargestIndex`, `Detect`): the face with the largest
   `w*h`. Ties go to the earliest face, as with Python's `max` with a key.
2. **Target** (`FaceTarget`, `Target`): a square of side `2*max(w, h)`
   centred on the face. The corner is converted with Python's `int()`,
   which truncates toward zero (`Geometry.Trunc`). With no face, the
   target is the current ROI.
3. **Gain** (`SquaredDistance`, `Alpha`): 0.3, 0.2 or the base value 0.1,
   chosen from the Euclidean norm of `target - current` over the four
   components. The model compares the integer sum of squares with
   `50*50` and `20*20`, and `AlphaMatchesMagnitude` shows this agrees
   with comparing the norm itself with 50 and 20.
4. **Blend** (`BlendComponent`, `Blend`): each component becomes
   `int((1 - alpha) * current + alpha * target)`. Alpha is an exact
   rational (Dafny `real`).
5. **Clamp** (`Clamp`): the corner is moved to be non-negative. A width or
   height that runs past the frame edge is then cut back to the edge.

Truncation toward zero makes the blend asymmetric. A non-negative
component that lies below its target by `d` with `alpha*d < 1` never
moves (`BlendStallsBelowTarget`). So a detected face can leave the ROI
unchanged (`DeadZoneWitness`). A component above its target always moves
down by at least one pixel while its blend stays non-negative
(`BlendMovesDownFromAbove`). Any component at least 10 pixels from its
target moves (`StepProgress`).

Module `Tracker` holds the carried state. `Init` is the whole frame. `Step`
is select, target, gain and blend. `TickOnce` returns the stored next ROI
together with the crop. `Run` folds `Step` over a history of detector
outputs.

The stored ROI is the unclamped blend. The clamped rectangle is only a
local used for the crop, so the frame size never reaches the state
(`StateIgnoresFrame`).

The clamp has no lower bound on the resulting extent. If the corner is at
or past the right edge, the width becomes zero or negative
(`ClampCollapseCondition`, `ClampCollapseWitness`). This cannot happen on
a reachable state, however. Start from the whole frame of a camera with
positive size, and suppose the detector only reports non-empty rectangles
inside the frame. Then every stored ROI keeps positive extents, and its
corner stays strictly left of the right edge and above the bottom edge
(`RunKeepsTracking`). The corner may still be negative
(`NegativeCornerWitness`); the clamp moves it back to 0. So every crop is
non-empty and fits the frame (`ReachableCropNonEmpty`). The defect is
latent, and the model reproduces the clamp as written.

## Model

| member | source | states |
|---|---|---|
| Geometry.Trunc | main.py:152-153 | Python `int()` on an exact value: the result is the integer part, rounding toward zero, so it lies within 1 of the value and never on the far side of zero |
| Geometry.TruncBetween | main.py:172-177 | a value lying between two integers converts to an integer between them |
| Autoframe.LargestIndex | main.py:145-147 | the chosen index has an area no smaller than every detected face, and every earlier face has a strictly smaller area (ties go to the first) |
| Autoframe.FirstLargestUnique | main.py:147 | at most one index has that property, so the choice is determined by the areas alone |
| Autoframe.Detect | main.py:145-147 | no face exactly when the detector list is empty; otherwise one of the detected faces, of maximal area |
| Autoframe.DetectChoosesFirstLargest | main.py:145-147 | whenever face i has maximal area and every earlier face is strictly smaller, that face is the one followed (earliest wins a tie) |
| Autoframe.FaceTarget | main.py:148-154 | the target is a square of side 2*max(w,h); its corner is the exact centred corner x + w/2 - side/2 (likewise y) rounded toward zero; it contains the face whenever w,h >= 1 |
| Autoframe.Target | main.py:145-158 | with no face the target is the current ROI; with a face it is the face square of FaceTarget (side 2*max(w,h), corner the centred corner rounded toward zero) |
| Autoframe.SquaredDistance | main.py:161-164 | the squared norm of target minus current is zero exactly when the two rectangles are equal |
| Autoframe.Alpha | main.py:165-170 | the gain always lies between the base smoothing 0.1 and 0.3 |
| Autoframe.AlphaTiers | main.py:165-170 | gain 0.3 iff squared magnitude > 2500, 0.2 iff it is in (400, 2500], and 0.1 iff it is <= 400 |
| Autoframe.AlphaOfMagnitude | main.py:164-170 | the gain chosen from the magnitude as written lies between 0.1 and 0.3, and is the base smoothing 0.1 for any magnitude up to 20 |
| Autoframe.AlphaMatchesMagnitude | main.py:164-170 | for a non-negative magnitude m with m*m equal to the sum of squares, the squared-threshold gain equals the gain chosen from m against 50 and 20 |
| Autoframe.AlphaMonotone | main.py:165-170 | a larger displacement never gets a smaller gain |
| Autoframe.ConvexBetween | main.py:172-177 | for a gain in [0, 1], the exact blend of two integers lies between them |
| Autoframe.BlendComponent | main.py:173 | the result is the exact blend (1-a)*c + a*t rounded toward zero, and it lies between the current and the target component, inclusive |
| Autoframe.Blend | main.py:172-177 | each of the four components is its exact blend rounded toward zero and lies between its current and target value; a target equal to the current ROI leaves it unchanged |
| Autoframe.BlendComponentProgress | main.py:173 | with a gain of at least 0.1, a component at least 10 pixels from its target moves at least one pixel toward it |
| Autoframe.BlendStallsBelowTarget | main.py:173 | a non-negative component below its target whose exact step a*(t-c) is under one pixel keeps its value |
| Autoframe.BlendMovesDownFromAbove | main.py:173 | a component above its target, with positive gain and non-negative exact blend, drops by at least one pixel |
| Autoframe.Clamp | main.py:180-186 | the corner becomes (max(x,0), max(y,0)) and is never moved further; the crop ends at min(corner + extent, frame edge), so it lies inside the frame and never grows; the crop equals the ROI exactly when the ROI already fits the frame |
| Autoframe.ClampCollapseCondition | main.py:183-186 | for a positive extent, the clamped width is <= 0 exactly when the non-negative corner is at or past the frame width (likewise height) |
| Autoframe.ClampCollapseWitness | main.py:183-186 | a 100x100 ROI at (700, 500) in a 640x480 frame clamps to width -60 and height -20 |
| Autoframe.ClampNonEmpty | main.py:180-186 | an ROI with positive extents whose corner lies before the right and bottom edges clamps to a non-empty crop inside the frame |
| Tracker.Init | main.py:104 | the initial ROI fits the frame and contains every rectangle that fits the frame |
| Tracker.TickOnce | main.py:145-186 | the stored next ROI is `Step` of the current ROI and detections, and the crop is that ROI clamped to the frame; the crop lies inside the frame and is no larger than the stored ROI |
| Tracker.Step | main.py:145-177 | with no face detected the stored ROI is unchanged; otherwise each stored component is the exact blend (1-a)*c + a*t toward the target rounded toward zero, with a the gain chosen from the squared distance, and stays between the current and the target component, inclusive |
| Tracker.StepProgress | main.py:160-177 | every component at least 10 pixels from its target changes on this tick |
| Tracker.DeadZoneWitness | main.py:145-177 | ROI (100,100,200,200) with face (155,150,100,100): target (105,100,200,200), gain 0.1, and the ROI does not move; from x = 110 the same target moves x to 109 |
| Tracker.StateIgnoresFrame | main.py:172-186 | the stored next ROI is the same for any frame size; only the crop depends on the frame |
| Tracker.RunFrom | main.py:172-177 | over a history of ticks in which no face is ever detected, the stored ROI never changes |
| Tracker.RunFromAppend | main.py:216 | one more tick on a history is one more step on the ROI that history reached, in arrival order |
| Tracker.Run | main.py:104 | starting from the whole frame, a history with no detections leaves the stored ROI at the whole frame |
| Tracker.StepKeepsExtentsPositive | main.py:149-177 | if the ROI and every detected face have w,h >= 1, the next stored ROI does too |
| Tracker.RunKeepsExtentsPositive | main.py:172-177 | positive extents persist over any sequence of ticks whose faces are all non-empty |
| Tracker.RunFromInitKeepsExtentsPositive | main.py:101-104 | from the whole frame of a camera of positive size, when every detected face has w,h >= 1, the stored width and height stay >= 1 on every tick |
| Tracker.StepKeepsTracking | main.py:145-177 | with in-frame detections, a tick keeps positive extents and the corner strictly left of the right edge and above the bottom edge (the corner may be negative) |
| Tracker.RunKeepsTracking | main.py:172-177 | positive extents and a corner strictly left of the right edge and above the bottom edge (possibly negative) persist over any sequence of ticks with in-frame detections |
| Tracker.NegativeCornerWitness | main.py:149-186 | from the whole 640x480 frame, the in-frame face (0,0,10,10) has target (-5,-5,20,20), and the first tick stores (-1,-1,454,342) while the crop is (0,0,454,342) |
| Tracker.ReachableCropNonEmpty | main.py:180-186 | on every reachable state with in-frame detections, the crop is non-empty and fits the frame |
| Tracker.WorkedTick | main.py:145-186 | from (0,0,400,400) in a 640x480 frame with one face (100,100,80,80): target (60,60,160,160), gain 0.3, stored ROI and crop (18,18,328,328) |

## Left out

- The control panel, buttons, slider, labels, fullscreen toggle and data-panel text are widget plumbing.
- Camera open, read and release, the cascade file load and `detectMultiScale` are device I/O and foreign calls. The detector output is an input sequence of rectangles, and the frame size is an input `Frame`.
- The early return when the camera fails to open is left out. In that case the ROI is never set.
- A tick whose frame read fails returns early and reschedules without touching the ROI. In the model such a tick is simply absent from the history given to `RunFrom`.
- The crop slicing, resize, colour conversion, image rendering and snapshot saving work on image buffers and files. In particular, numpy's handling of negative or empty slice bounds is not modelled.
- FPS measurement, the interval of the `after` rescheduling and the catch-and-log error handling depend on time or are logging only. The rescheduling itself appears only as the order of ticks in `RunFrom`.
- Alpha: decided on the exact integer sum of squares. The program computes a float32 norm, which may differ from the exact comparison at or next to the thresholds 20 and 50.
- BlendComponent: computed in exact rational arithmetic. The program blends in float64, and when the exact blend is an integer its truncation can land one unit closer to zero (lower for positive components, higher for negative ones). For the same reason, the no-face fixed point stated by `Step` and `RunFrom` holds in exact arithmetic only.
- LargestIndex: areas are unbounded integers. The detector's rows are 32-bit, so `w*h` could wrap around only for rectangles far larger than any camera frame.
- Frame sizes are not required to be positive by the operations. The properties that need a non-degenerate camera assume width and height >= 1.
