/** Pixel geometry of the detector: truncation of model coordinates to
    integers, pass-through of object-detector boxes, and the hand region
    extrapolated from an elbow and a wrist keypoint. */
module Geometry {
  import opened Wrappers

  /** An axis-aligned pixel box from top-left (x1, y1) to bottom-right (x2, y2). */
  datatype Box = Box(x1: int, y1: int, x2: int, y2: int)

  /** An integer pixel position. */
  datatype Point = Point(x: int, y: int)

  /** A keypoint as the pose model reports it. A coordinate <= 0 on either
      axis is the model's way of saying "not visible". */
  datatype Keypoint = Keypoint(x: real, y: real)

  /** Pixels added on every side of the hand envelope. */
  const Margin: int := 30

  /** How far past the wrist the fingertip lies, as a fraction of the
      elbow-to-wrist vector. */
  const Extension: real := 0.6

  predicate Ordered(b: Box) {
    b.x1 <= b.x2 && b.y1 <= b.y2
  }

  /** For a box clamped to the frame: its crop `frame[y1:y2, x1:x2]`
      holds at least one pixel. */
  predicate NonEmpty(b: Box) {
    b.x1 < b.x2 && b.y1 < b.y2
  }

  predicate Contains(b: Box, p: Point) {
    b.x1 <= p.x <= b.x2 && b.y1 <= p.y <= b.y2
  }

  /** The point lies in the frame [0, width] x [0, height]. */
  predicate InFrame(p: Point, width: int, height: int) {
    0 <= p.x <= width && 0 <= p.y <= height
  }

  /** The box lies in the frame [0, width] x [0, height]. */
  predicate Clamped(b: Box, width: int, height: int) {
    0 <= b.x1 && 0 <= b.y1 && b.x2 <= width && b.y2 <= height
  }

  function Min(a: int, b: int): int { if a <= b then a else b }
  function Max(a: int, b: int): int { if a <= b then b else a }

  /** Python's `int()` on a float: truncation toward zero. The two
      ensures together determine the result uniquely. */
  function Trunc(r: real): (t: int)
    ensures 0.0 <= r ==> 0 <= t && t as real <= r < t as real + 1.0
    ensures r < 0.0 ==> t <= 0 && t as real - 1.0 < r <= t as real
  {
    if r >= 0.0 then r.Floor else -((-r).Floor)
  }

  /** Truncation toward zero never reverses the order of two values. */
  lemma TruncMonotone(a: real, b: real)
    ensures a <= b ==> Trunc(a) <= Trunc(b)
  {
    if a > b {
    } else if a >= 0.0 {
      assert a.Floor <= b.Floor;
    } else if b < 0.0 {
      assert (-b).Floor <= (-a).Floor;
    }
  }

  /** `int(0.6 * d)` for an integer pixel offset `d`, computed on integers.
      It agrees with truncating the exact product. */
  function Extend(d: int): (e: int)
    ensures e == Trunc(Extension * d as real)
  {
    ExtendIsTruncation(d);
    if d >= 0 then 6 * d / 10 else -((-6 * d) / 10)
  }

  lemma ExtendIsTruncation(d: int)
    ensures Trunc(Extension * d as real)
         == if d >= 0 then 6 * d / 10 else -((-6 * d) / 10)
  {
    var n := if d >= 0 then 6 * d else -6 * d;
    var q := n / 10;
    assert q * 10 <= n < q * 10 + 10;
    assert q as real <= n as real / 10.0 < q as real + 1.0;
    assert (n as real / 10.0).Floor == q;
    if d >= 0 {
      assert Extension * d as real == n as real / 10.0;
    } else {
      assert Extension * d as real == -(n as real / 10.0);
    }
  }

  /** Truncates a keypoint to the integer pixel the source works with. */
  function Pixel(k: Keypoint): Point {
    Point(Trunc(k.x), Trunc(k.y))
  }

  /** The extrapolated fingertip: the wrist moved on by 0.6 of the
      elbow-to-wrist vector, each component truncated toward zero. */
  function Fingertip(elbow: Point, wrist: Point): (f: Point)
    ensures f.x - wrist.x == Trunc(Extension * (wrist.x - elbow.x) as real)
    ensures f.y - wrist.y == Trunc(Extension * (wrist.y - elbow.y) as real)
  {
    Point(wrist.x + Extend(wrist.x - elbow.x), wrist.y + Extend(wrist.y - elbow.y))
  }

  /** The envelope of three points (elbow, wrist and fingertip), widened
      by `Margin` on each side and clamped to the frame. Each edge is the
      clamped, widened coordinate of one of the three points, and no
      point's clamped, widened coordinate lies beyond it: the box is the
      least clamped box covering all three. */
  function Envelope(a: Point, b: Point, c: Point, width: int, height: int): (box: Box)
    ensures Clamped(box, width, height)
    ensures forall p | p in [a, b, c] ::
              && box.x1 <= Max(p.x - Margin, 0) && Min(p.x + Margin, width) <= box.x2
              && box.y1 <= Max(p.y - Margin, 0) && Min(p.y + Margin, height) <= box.y2
    ensures box.x1 in {Max(a.x - Margin, 0), Max(b.x - Margin, 0), Max(c.x - Margin, 0)}
    ensures box.y1 in {Max(a.y - Margin, 0), Max(b.y - Margin, 0), Max(c.y - Margin, 0)}
    ensures box.x2 in {Min(a.x + Margin, width), Min(b.x + Margin, width), Min(c.x + Margin, width)}
    ensures box.y2 in {Min(a.y + Margin, height), Min(b.y + Margin, height), Min(c.y + Margin, height)}
  {
    Box(Max(Min(Min(a.x, b.x), c.x) - Margin, 0),
        Max(Min(Min(a.y, b.y), c.y) - Margin, 0),
        Min(Max(Max(a.x, b.x), c.x) + Margin, width),
        Min(Max(Max(a.y, b.y), c.y) + Margin, height))
  }

  /** The hand region for one elbow/wrist pair of a frame `width` by
      `height` pixels: rejected when either keypoint is not visible,
      otherwise the clamped envelope of the truncated keypoints. */
  function HandBox(elbow: Keypoint, wrist: Keypoint, width: nat, height: nat): (r: Option<Box>)
    ensures r.None? <==> (wrist.x <= 0.0 || wrist.y <= 0.0 || elbow.x <= 0.0 || elbow.y <= 0.0)
    ensures r.Some? ==> Clamped(r.value, width, height)
    ensures r.Some? ==> InFrame(Pixel(elbow), width, height) ==> Ordered(r.value)
    ensures r.Some? ==> r.value == Envelope(Pixel(elbow), Pixel(wrist),
                                            Fingertip(Pixel(elbow), Pixel(wrist)), width, height)
  {
    if wrist.x <= 0.0 || wrist.y <= 0.0 || elbow.x <= 0.0 || elbow.y <= 0.0 then
      None
    else
      var e, w := Pixel(elbow), Pixel(wrist);
      Some(Envelope(e, w, Fingertip(e, w), width, height))
  }

  /** When both keypoints lie in the frame the hand box contains them, so
      its width and height are not negative. */
  lemma HandBoxContainsKeypoints(elbow: Keypoint, wrist: Keypoint, width: nat, height: nat)
    requires HandBox(elbow, wrist, width, height).Some?
    requires InFrame(Pixel(elbow), width, height) && InFrame(Pixel(wrist), width, height)
    ensures var b := HandBox(elbow, wrist, width, height).value;
            Contains(b, Pixel(elbow)) && Contains(b, Pixel(wrist)) && Ordered(b)
  {
  }

  /** A box from the object detector: the model's float corners truncated
      to integers and otherwise passed through. Truncation keeps an ordered
      box ordered. */
  function ObjectBox(x1: real, y1: real, x2: real, y2: real): (b: Box)
    ensures b.x1 == Trunc(x1) && b.y1 == Trunc(y1) && b.x2 == Trunc(x2) && b.y2 == Trunc(y2)
    ensures x1 <= x2 && y1 <= y2 ==> Ordered(b)
  {
    TruncMonotone(x1, x2);
    TruncMonotone(y1, y2);
    Box(Trunc(x1), Trunc(y1), Trunc(x2), Trunc(y2))
  }

  /** Example: elbow (100, 200) and wrist (150, 180) in a
      640 x 480 frame give the fingertip (180, 168) and the box
      (70, 138, 210, 230). */
  lemma HandBoxExample()
    ensures Fingertip(Point(100, 200), Point(150, 180)) == Point(180, 168)
    ensures HandBox(Keypoint(100.0, 200.0), Keypoint(150.0, 180.0), 640, 480)
         == Some(Box(70, 138, 210, 230))
  {
    assert Pixel(Keypoint(100.0, 200.0)) == Point(100, 200);
    assert Pixel(Keypoint(150.0, 180.0)) == Point(150, 180);
  }

  /** Clamping alone does not order the box: an elbow to the right of a
      640-pixel-wide frame yields x1 > x2. */
  lemma HandBoxOutsideFrameIsInverted()
    ensures var r := HandBox(Keypoint(700.0, 100.0), Keypoint(710.0, 100.0), 640, 480);
            r == Some(Box(670, 70, 640, 130)) && !Ordered(r.value)
  {
    assert Pixel(Keypoint(700.0, 100.0)) == Point(700, 100);
    assert Pixel(Keypoint(710.0, 100.0)) == Point(710, 100);
  }
}
