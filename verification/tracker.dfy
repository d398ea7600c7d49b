/** The carried state of the autoframer and one tick of its update: the
    stored region of interest is replaced by its blend toward the target,
    and the crop handed to the renderer is a clamped copy that is never
    stored. */
module Tracker {
  import opened Geometry
  import opened Autoframe

  /** What one tick produces: the region stored for the next tick, and the
      rectangle cropped out of this frame. */
  datatype TickResult = TickResult(next: Rect, crop: Rect)

  /** The region before the first tick: the whole frame. */
  function Init(frame: Frame): (r: Rect)
    ensures Fits(r, frame)
    ensures forall f :: Fits(f, frame) ==> Contains(r, f)
  {
    Rect(0, 0, frame.width, frame.height)
  }

  /** The new stored region: pick the face, derive the target, choose the
      gain from the distance to the target, blend. */
  function Step(current: Rect, faces: seq<Rect>): (r: Rect)
    ensures |faces| == 0 ==> r == current
    ensures var t := Target(current, Detect(faces));
      && Min(current.x, t.x) <= r.x <= Max(current.x, t.x)
      && Min(current.y, t.y) <= r.y <= Max(current.y, t.y)
      && Min(current.w, t.w) <= r.w <= Max(current.w, t.w)
      && Min(current.h, t.h) <= r.h <= Max(current.h, t.h)
    ensures var t := Target(current, Detect(faces));
      var a := Alpha(SquaredDistance(current, t));
      && TruncatesTo(Mix(current.x, t.x, a), r.x)
      && TruncatesTo(Mix(current.y, t.y, a), r.y)
      && TruncatesTo(Mix(current.w, t.w, a), r.w)
      && TruncatesTo(Mix(current.h, t.h, a), r.h)
  {
    var target := Target(current, Detect(faces));
    var a := Alpha(SquaredDistance(current, target));
    Blend(current, target, a)
  }

  /** One full tick: the stored region advances by `Step`; the crop is that
      region clamped to the frame. */
  function TickOnce(current: Rect, faces: seq<Rect>, frame: Frame): (t: TickResult)
    ensures t.next == Step(current, faces)
    ensures t.crop == Clamp(t.next, frame)
    ensures 0 <= t.crop.x && t.crop.x + t.crop.w <= frame.width
    ensures 0 <= t.crop.y && t.crop.y + t.crop.h <= frame.height
    ensures t.crop.w <= t.next.w && t.crop.h <= t.next.h
  {
    var next := Step(current, faces);
    TickResult(next, Clamp(next, frame))
  }

  /** The stored region after the ticks of `history`, each entry being the
      detector's output for one frame, starting from `current`. */
  function RunFrom(current: Rect, history: seq<seq<Rect>>): (r: Rect)
    ensures (forall n :: 0 <= n < |history| ==> |history[n]| == 0) ==> r == current
    decreases |history|
  {
    if |history| == 0 then current
    else RunFrom(Step(current, history[0]), history[1..])
  }

  /** The stored region after the ticks of `history`, starting from the
      whole frame. */
  function Run(frame: Frame, history: seq<seq<Rect>>): (r: Rect)
    ensures (forall n :: 0 <= n < |history| ==> |history[n]| == 0) ==> r == Init(frame)
  {
    RunFrom(Init(frame), history)
  }

  /** Running one more tick is one more `Step` on the region reached so far:
      the history is consumed in the order the frames arrive. */
  lemma {:induction false} RunFromAppend(current: Rect, history: seq<seq<Rect>>, faces: seq<Rect>)
    ensures RunFrom(current, history + [faces]) == Step(RunFrom(current, history), faces)
    decreases |history|
  {
    if |history| > 0 {
      assert (history + [faces])[1..] == history[1..] + [faces];
      RunFromAppend(Step(current, history[0]), history[1..], faces);
    } else {
      assert (history + [faces])[1..] == [];
    }
  }

  predicate PositiveExtent(r: Rect) {
    r.w >= 1 && r.h >= 1
  }

  /** A detector rectangle: non-empty and inside the frame. */
  predicate InFrame(face: Rect, frame: Frame) {
    PositiveExtent(face) && Fits(face, frame)
  }

  predicate AllPositive(faces: seq<Rect>) {
    forall i :: 0 <= i < |faces| ==> PositiveExtent(faces[i])
  }

  predicate AllInFrame(faces: seq<Rect>, frame: Frame) {
    forall i :: 0 <= i < |faces| ==> InFrame(faces[i], frame)
  }

  /** The stored region depends on the previous region and the detections
      only: the frame size reaches the crop, never the state. */
  lemma StateIgnoresFrame(current: Rect, faces: seq<Rect>, f1: Frame, f2: Frame)
    ensures TickOnce(current, faces, f1).next == TickOnce(current, faces, f2).next
    ensures TickOnce(current, faces, f1).crop == Clamp(TickOnce(current, faces, f1).next, f1)
  {
  }

  /** Every component at least 10 pixels from its target moves by at least
      one pixel toward it, since the gain is never below the base smoothing. */
  lemma StepProgress(current: Rect, faces: seq<Rect>)
    ensures var t := Target(current, Detect(faces));
      var r := Step(current, faces);
      && (t.x - current.x >= 10 || current.x - t.x >= 10 ==> r.x != current.x)
      && (t.y - current.y >= 10 || current.y - t.y >= 10 ==> r.y != current.y)
      && (t.w - current.w >= 10 || current.w - t.w >= 10 ==> r.w != current.w)
      && (t.h - current.h >= 10 || current.h - t.h >= 10 ==> r.h != current.h)
  {
    var target := Target(current, Detect(faces));
    var a := Alpha(SquaredDistance(current, target));
    if target.x - current.x >= 10 || current.x - target.x >= 10 {
      BlendComponentProgress(current.x, target.x, a);
    }
    if target.y - current.y >= 10 || current.y - target.y >= 10 {
      BlendComponentProgress(current.y, target.y, a);
    }
    if target.w - current.w >= 10 || current.w - target.w >= 10 {
      BlendComponentProgress(current.w, target.w, a);
    }
    if target.h - current.h >= 10 || current.h - target.h >= 10 {
      BlendComponentProgress(current.h, target.h, a);
    }
  }

  /** A detected face need not move the region. Region (100, 100, 200, 200)
      and face (155, 150, 100, 100) give target (105, 100, 200, 200), squared
      distance 25 and gain 0.1; the exact x blend 100.5 truncates back to 100.
      From x = 110 the same target moves x to 109. */
  lemma DeadZoneWitness()
    ensures FaceTarget(Rect(155, 150, 100, 100)) == Rect(105, 100, 200, 200)
    ensures Step(Rect(100, 100, 200, 200), [Rect(155, 150, 100, 100)]) == Rect(100, 100, 200, 200)
    ensures Step(Rect(110, 100, 200, 200), [Rect(155, 150, 100, 100)]) == Rect(109, 100, 200, 200)
  {
  }

  /** The stored corner can go negative: a 10x10 face at the top-left of a
      640x480 frame gives the target (-5, -5, 20, 20) and gain 0.3, and the
      first tick from the whole frame stores x = y = int(0.3 * -5) = -1. The
      crop moves that corner back to 0. */
  lemma NegativeCornerWitness()
    ensures InFrame(Rect(0, 0, 10, 10), Frame(640, 480))
    ensures FaceTarget(Rect(0, 0, 10, 10)) == Rect(-5, -5, 20, 20)
    ensures TickOnce(Init(Frame(640, 480)), [Rect(0, 0, 10, 10)], Frame(640, 480))
         == TickResult(Rect(-1, -1, 454, 342), Rect(0, 0, 454, 342))
  {
  }

  /** If every detected face is non-empty, one tick keeps the stored width
      and height at least 1. */
  lemma StepKeepsExtentsPositive(current: Rect, faces: seq<Rect>)
    requires PositiveExtent(current)
    requires AllPositive(faces)
    ensures PositiveExtent(Step(current, faces))
  {
    var d := Detect(faces);
    if d.Some? {
      var k := LargestIndex(faces);
      assert PositiveExtent(faces[k]);
    }
  }

  /** Extents stay positive over any number of ticks. */
  lemma {:induction false} RunKeepsExtentsPositive(current: Rect, history: seq<seq<Rect>>)
    requires PositiveExtent(current)
    requires forall n :: 0 <= n < |history| ==> AllPositive(history[n])
    ensures PositiveExtent(RunFrom(current, history))
    decreases |history|
  {
    if |history| > 0 {
      StepKeepsExtentsPositive(current, history[0]);
      assert forall n :: 0 <= n < |history[1..]| ==> history[1..][n] == history[n + 1];
      RunKeepsExtentsPositive(Step(current, history[0]), history[1..]);
    }
  }

  /** Starting from the whole frame of a non-degenerate camera, the stored
      width and height stay at least 1 on every tick. */
  lemma RunFromInitKeepsExtentsPositive(frame: Frame, history: seq<seq<Rect>>)
    requires frame.width >= 1 && frame.height >= 1
    requires forall n :: 0 <= n < |history| ==> AllPositive(history[n])
    ensures PositiveExtent(Run(frame, history))
  {
    RunKeepsExtentsPositive(Init(frame), history);
  }

  /** The state invariant that keeps the clamp well-behaved: positive
      extents, and a corner strictly left of the right edge and strictly
      above the bottom edge. The corner itself may be negative. */
  predicate Tracking(r: Rect, frame: Frame) {
    PositiveExtent(r) && r.x < frame.width && r.y < frame.height
  }

  /** One tick preserves `Tracking` when the detector reports only
      rectangles inside the frame. */
  lemma StepKeepsTracking(current: Rect, faces: seq<Rect>, frame: Frame)
    requires Tracking(current, frame)
    requires AllInFrame(faces, frame)
    ensures Tracking(Step(current, faces), frame)
  {
    var d := Detect(faces);
    if d.Some? {
      var k := LargestIndex(faces);
      assert InFrame(faces[k], frame);
      assert Contains(FaceTarget(faces[k]), faces[k]);
    }
  }

  /** `Tracking` holds of the stored region after any number of ticks with
      in-frame detections. */
  lemma {:induction false} RunKeepsTracking(current: Rect, history: seq<seq<Rect>>, frame: Frame)
    requires Tracking(current, frame)
    requires forall n :: 0 <= n < |history| ==> AllInFrame(history[n], frame)
    ensures Tracking(RunFrom(current, history), frame)
    decreases |history|
  {
    if |history| > 0 {
      StepKeepsTracking(current, history[0], frame);
      assert forall n :: 0 <= n < |history[1..]| ==> history[1..][n] == history[n + 1];
      RunKeepsTracking(Step(current, history[0]), history[1..], frame);
    }
  }

  /** Although the clamp alone can produce an empty or negative extent, it
      cannot do so on a reachable state: from the whole frame, with the
      detector reporting rectangles inside the frame, every tick's crop is
      non-empty and lies inside the frame. */
  lemma ReachableCropNonEmpty(frame: Frame, history: seq<seq<Rect>>, faces: seq<Rect>)
    requires frame.width >= 1 && frame.height >= 1
    requires forall n :: 0 <= n < |history| ==> AllInFrame(history[n], frame)
    requires AllInFrame(faces, frame)
    ensures var crop := TickOnce(Run(frame, history), faces, frame).crop;
      PositiveExtent(crop) && Fits(crop, frame)
  {
    var current := Run(frame, history);
    RunKeepsTracking(Init(frame), history, frame);
    StepKeepsTracking(current, faces, frame);
    ClampNonEmpty(Step(current, faces), frame);
  }

  /** A worked tick: region (0, 0, 400, 400) in a 640x480 frame, one face
      at (100, 100) of size 80x80. The target is (60, 60, 160, 160), the
      squared distance 122400 selects the gain 0.3, and the blend gives
      (18, 18, 328, 328), which already fits the frame. */
  lemma WorkedTick()
    ensures FaceTarget(Rect(100, 100, 80, 80)) == Rect(60, 60, 160, 160)
    ensures SquaredDistance(Rect(0, 0, 400, 400), Rect(60, 60, 160, 160)) == 122400
    ensures TickOnce(Rect(0, 0, 400, 400), [Rect(100, 100, 80, 80)], Frame(640, 480))
         == TickResult(Rect(18, 18, 328, 328), Rect(18, 18, 328, 328))
  {
  }
}
