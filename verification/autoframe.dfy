/** The stages of one autoframing tick: pick the largest detected face, turn
    it into a square target, choose a gain from how far the target is, blend
    the current region of interest toward the target, and clamp the result to
    the frame for cropping. */
module Autoframe {
  import opened Geometry

  datatype Option<T> = None | Some(value: T)

  /** Gain used when the target is close (the tracker's `base_smoothing`). */
  const BaseSmoothing: real := 0.1
  /** Gain used when the displacement magnitude is in (20, 50]. */
  const MediumSmoothing: real := 0.2
  /** Gain used when the displacement magnitude exceeds 50. */
  const FastSmoothing: real := 0.3

  /** Magnitude thresholds, in pixels, on the 4-vector (x, y, w, h). */
  const LowThreshold: int := 20
  const HighThreshold: int := 50

  // ---------------------------------------------------------------------
  // Face selection
  // ---------------------------------------------------------------------

  /** `k` is where a left-to-right scan keeping the first strictly larger
      area stops: no face has a larger area, and every face before `k` has a
      strictly smaller one. */
  predicate IsFirstLargest(faces: seq<Rect>, k: int) {
    && 0 <= k < |faces|
    && (forall j :: 0 <= j < |faces| ==> Area(faces[j]) <= Area(faces[k]))
    && (forall j :: 0 <= j < k ==> Area(faces[j]) < Area(faces[k]))
  }

  /** Index of the face chosen by `max(faces, key=w*h)`: the largest area,
      ties going to the earliest face. */
  function LargestIndex(faces: seq<Rect>): (k: nat)
    requires |faces| > 0
    ensures IsFirstLargest(faces, k)
  {
    if |faces| == 1 then 0
    else
      var prefix := faces[..|faces| - 1];
      var best := LargestIndex(prefix);
      assert forall j :: 0 <= j < |prefix| ==> prefix[j] == faces[j];
      if Area(faces[|faces| - 1]) > Area(faces[best]) then |faces| - 1 else best
  }

  /** At most one index is the first largest one, so the selection is
      determined by the areas alone. */
  lemma FirstLargestUnique(faces: seq<Rect>, i: int, k: int)
    requires IsFirstLargest(faces, i) && IsFirstLargest(faces, k)
    ensures i == k
  {
    assert Area(faces[i]) == Area(faces[k]);
  }

  /** The face the tracker follows this tick, if the detector found any. */
  function Detect(faces: seq<Rect>): (d: Option<Rect>)
    ensures d.None? <==> |faces| == 0
    ensures d.Some? ==> d.value in faces
    ensures d.Some? ==> forall f :: f in faces ==> Area(f) <= Area(d.value)
  {
    if |faces| == 0 then None else Some(faces[LargestIndex(faces)])
  }

  /** The followed face is the first one of maximal area: among equally
      large faces, the earliest detected wins. */
  lemma DetectChoosesFirstLargest(faces: seq<Rect>, i: int)
    requires IsFirstLargest(faces, i)
    ensures Detect(faces) == Some(faces[i])
  {
    FirstLargestUnique(faces, i, LargestIndex(faces));
  }

  // ---------------------------------------------------------------------
  // Target derivation
  // ---------------------------------------------------------------------

  /** A square of side twice the larger face dimension, centred on the face
      centre, with its corner truncated toward zero. */
  function FaceTarget(face: Rect): (t: Rect)
    ensures t.w == t.h
    ensures t.w == 2 * Max(face.w, face.h)
    ensures TruncatesTo(face.x as real + face.w as real / 2.0 - t.w as real / 2.0, t.x)
    ensures TruncatesTo(face.y as real + face.h as real / 2.0 - t.h as real / 2.0, t.y)
    ensures face.w >= 1 && face.h >= 1 ==> Contains(t, face)
  {
    var box := 2 * Max(face.w, face.h);
    var centerX := face.x as real + face.w as real / 2.0;
    var centerY := face.y as real + face.h as real / 2.0;
    Rect(Trunc(centerX - box as real / 2.0), Trunc(centerY - box as real / 2.0), box, box)
  }

  /** The rectangle blended toward: the face square, or the current region
      itself when no face was found. */
  function Target(current: Rect, detected: Option<Rect>): (t: Rect)
    ensures detected.None? ==> t == current
    ensures detected.Some? ==> t == FaceTarget(detected.value)
  {
    match detected
    case None => current
    case Some(face) => FaceTarget(face)
  }

  // ---------------------------------------------------------------------
  // Adaptive gain
  // ---------------------------------------------------------------------

  /** Square of the Euclidean norm of `target - current` over (x, y, w, h). */
  function SquaredDistance(current: Rect, target: Rect): (s: nat)
    ensures s == 0 <==> current == target
  {
    var dx := target.x - current.x;
    var dy := target.y - current.y;
    var dw := target.w - current.w;
    var dh := target.h - current.h;
    dx * dx + dy * dy + dw * dw + dh * dh
  }

  /** The gain for a displacement whose squared magnitude is `s`. Comparing
      `s` with the squared thresholds avoids the square root. */
  function Alpha(s: nat): (a: real)
    ensures BaseSmoothing <= a <= FastSmoothing
  {
    if s > HighThreshold * HighThreshold then FastSmoothing
    else if s > LowThreshold * LowThreshold then MediumSmoothing
    else BaseSmoothing
  }

  /** The gain as a function of the magnitude itself, the way the tracker
      writes it. */
  function AlphaOfMagnitude(m: real): (a: real)
    ensures BaseSmoothing <= a <= FastSmoothing
    ensures m <= LowThreshold as real ==> a == BaseSmoothing
  {
    if m > HighThreshold as real then FastSmoothing
    else if m > LowThreshold as real then MediumSmoothing
    else BaseSmoothing
  }

  /** For a non-negative threshold `t`, a non-negative magnitude exceeds `t`
      exactly when its square exceeds `t * t`. */
  lemma SquareComparison(m: real, t: int)
    requires 0.0 <= m && 0 <= t
    ensures m > t as real <==> m * m > (t * t) as real
  {
    var tr := t as real;
    assert (t * t) as real == tr * tr;
    if m > tr {
      SquareMonotone(tr, m);
    } else {
      SquareMonotone(m, tr);
    }
  }

  /** Squaring is monotone, strictly so, on non-negative reals. */
  lemma SquareMonotone(a: real, b: real)
    requires 0.0 <= a <= b
    ensures a * a <= b * b
    ensures a < b ==> a * a < b * b
  {
    ProductNonNegative(a, b - a);
    assert b * b - a * a == a * (b - a) + b * (b - a);
    if a < b {
      ProductPositive(b, b - a);
    } else {
      ProductNonNegative(b, b - a);
    }
  }

  lemma ProductNonNegative(p: real, q: real)
    requires 0.0 <= p && 0.0 <= q
    ensures 0.0 <= p * q
  {
  }

  lemma ProductPositive(p: real, q: real)
    requires 0.0 < p && 0.0 < q
    ensures 0.0 < p * q
  {
  }

  /** Choosing the gain from the squared magnitude agrees with choosing it
      from the magnitude. */
  lemma AlphaMatchesMagnitude(m: real, s: nat)
    requires 0.0 <= m && m * m == s as real
    ensures Alpha(s) == AlphaOfMagnitude(m)
  {
    SquareComparison(m, HighThreshold);
    SquareComparison(m, LowThreshold);
  }

  /** A larger displacement never gets a smaller gain. */
  lemma AlphaMonotone(s1: nat, s2: nat)
    requires s1 <= s2
    ensures Alpha(s1) <= Alpha(s2)
  {
  }

  /** The three tiers, with their boundaries. */
  lemma AlphaTiers(s: nat)
    ensures Alpha(s) == FastSmoothing <==> s > 2500
    ensures Alpha(s) == MediumSmoothing <==> 400 < s <= 2500
    ensures Alpha(s) == BaseSmoothing <==> s <= 400
  {
  }

  // ---------------------------------------------------------------------
  // Blend
  // ---------------------------------------------------------------------

  /** `(1 - a) * c + a * t` lies between `c` and `t` when `0 <= a <= 1`. */
  lemma ConvexBetween(c: int, t: int, a: real)
    requires 0.0 <= a <= 1.0
    ensures Min(c, t) as real <= Mix(c, t, a) <= Max(c, t) as real
  {
    var cr, tr := c as real, t as real;
    var d := tr - cr;
    assert (1.0 - a) * cr + a * tr == cr + a * d;
    assert (1.0 - a) * d == d - a * d;
    if c <= t {
      ProductNonNegative(a, d);
      ProductNonNegative(1.0 - a, d);
    } else {
      ProductNonNegative(a, -d);
      ProductNonNegative(1.0 - a, -d);
    }
  }

  /** The exact blend `(1 - a) * c + a * t` of a current and a target
      component. */
  function Mix(c: int, t: int, a: real): real {
    (1.0 - a) * c as real + a * t as real
  }

  /** One blended component: `int((1 - a) * c + a * t)`, the exact blend
      rounded toward zero. It lies between the current and target component,
      so a component already at its target stays there. */
  function BlendComponent(c: int, t: int, a: real): (r: int)
    requires 0.0 <= a <= 1.0
    ensures TruncatesTo(Mix(c, t, a), r)
    ensures Min(c, t) <= r <= Max(c, t)
  {
    var v := Mix(c, t, a);
    ConvexBetween(c, t, a);
    TruncBetween(Min(c, t), Max(c, t), v);
    Trunc(v)
  }

  /** Each of the four components blended independently with the same gain. */
  function Blend(current: Rect, target: Rect, a: real): (r: Rect)
    requires 0.0 <= a <= 1.0
    ensures TruncatesTo(Mix(current.x, target.x, a), r.x)
    ensures TruncatesTo(Mix(current.y, target.y, a), r.y)
    ensures TruncatesTo(Mix(current.w, target.w, a), r.w)
    ensures TruncatesTo(Mix(current.h, target.h, a), r.h)
    ensures Min(current.x, target.x) <= r.x <= Max(current.x, target.x)
    ensures Min(current.y, target.y) <= r.y <= Max(current.y, target.y)
    ensures Min(current.w, target.w) <= r.w <= Max(current.w, target.w)
    ensures Min(current.h, target.h) <= r.h <= Max(current.h, target.h)
    ensures target == current ==> r == current
  {
    Rect(BlendComponent(current.x, target.x, a),
         BlendComponent(current.y, target.y, a),
         BlendComponent(current.w, target.w, a),
         BlendComponent(current.h, target.h, a))
  }

  /** With a gain of at least the base smoothing, a component at least 10
      pixels from its target moves by at least one pixel toward it. */
  lemma BlendComponentProgress(c: int, t: int, a: real)
    requires BaseSmoothing <= a <= 1.0
    requires t - c >= 10 || c - t >= 10
    ensures BlendComponent(c, t, a) != c
    ensures t > c ==> BlendComponent(c, t, a) > c
    ensures t < c ==> BlendComponent(c, t, a) < c
  {
    var d := t as real - c as real;
    assert Mix(c, t, a) == c as real + a * d;
    if t > c {
      ProductNonNegative(a - BaseSmoothing, d);
      assert a * d - BaseSmoothing * d == (a - BaseSmoothing) * d;
      TruncMonotone((c + 1) as real, Mix(c, t, a));
      TruncOfInt(c + 1);
    } else {
      ProductNonNegative(a - BaseSmoothing, -d);
      assert a * (-d) - BaseSmoothing * (-d) == (a - BaseSmoothing) * (-d);
      TruncMonotone(Mix(c, t, a), (c - 1) as real);
      TruncOfInt(c - 1);
    }
  }

  /** Truncation toward zero makes the blend asymmetric. A non-negative
      component below its target whose exact step is under one pixel does
      not move at all. */
  lemma BlendStallsBelowTarget(c: int, t: int, a: real)
    requires 0 <= c <= t && 0.0 <= a <= 1.0
    requires a * (t - c) as real < 1.0
    ensures BlendComponent(c, t, a) == c
  {
    assert Mix(c, t, a) == c as real + a * (t - c) as real;
    ProductNonNegative(a, (t - c) as real);
  }

  /** A component above its target, with a positive gain and a non-negative
      exact blend, always moves down by at least one pixel. */
  lemma BlendMovesDownFromAbove(c: int, t: int, a: real)
    requires t < c && 0.0 < a <= 1.0
    requires 0.0 <= Mix(c, t, a)
    ensures BlendComponent(c, t, a) <= c - 1
  {
    assert Mix(c, t, a) == c as real - a * (c - t) as real;
    ProductPositive(a, (c - t) as real);
  }

  // ---------------------------------------------------------------------
  // Clamp
  // ---------------------------------------------------------------------

  /** The crop rectangle: the corner is moved to be non-negative, then a
      width (height) running past the right (bottom) edge is cut back to the
      edge. The corner is not bounded above and the extent is not bounded
      below. */
  function Clamp(r: Rect, frame: Frame): (c: Rect)
    ensures 0 <= c.x && 0 <= c.y
    ensures c.x + c.w <= frame.width && c.y + c.h <= frame.height
    ensures c.w <= r.w && c.h <= r.h
    ensures c.x == Max(r.x, 0) && c.y == Max(r.y, 0)
    ensures c.x + c.w == Min(Max(r.x, 0) + r.w, frame.width)
    ensures c.y + c.h == Min(Max(r.y, 0) + r.h, frame.height)
    ensures c == r <==> Fits(r, frame)
  {
    var x := Max(r.x, 0);
    var y := Max(r.y, 0);
    var w := if x + r.w > frame.width then frame.width - x else r.w;
    var h := if y + r.h > frame.height then frame.height - y else r.h;
    Rect(x, y, w, h)
  }

  /** With a positive width, the clamped width is non-positive exactly when
      the corner, after moving it to be non-negative, is at or past the right
      edge; likewise for the height and the bottom edge. */
  lemma ClampCollapseCondition(r: Rect, frame: Frame)
    requires r.w >= 1 && r.h >= 1
    ensures Clamp(r, frame).w <= 0 <==> Max(r.x, 0) >= frame.width
    ensures Clamp(r, frame).h <= 0 <==> Max(r.y, 0) >= frame.height
  {
  }

  /** A concrete input on which the clamp yields a negative width and height:
      a 100x100 region whose corner lies past a 640x480 frame. */
  lemma ClampCollapseWitness()
    ensures Clamp(Rect(700, 500, 100, 100), Frame(640, 480)) == Rect(700, 500, -60, -20)
  {
  }

  /** A region whose corner is inside the frame and whose extents are
      positive clamps to a non-empty crop that fits the frame. */
  lemma ClampNonEmpty(r: Rect, frame: Frame)
    requires r.w >= 1 && r.h >= 1
    requires r.x < frame.width && r.y < frame.height
    requires frame.width >= 1 && frame.height >= 1
    ensures Clamp(r, frame).w >= 1 && Clamp(r, frame).h >= 1
    ensures Fits(Clamp(r, frame), frame)
  {
  }
}
