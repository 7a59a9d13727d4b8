/** The hands-free interaction core of MagicModeOverlay.tsx: one camera frame
    is one synchronous pass that classifies the hand, smooths the cursor, and
    then either runs the dwell-click detector (pointer pose) or the
    grab/highlight/drop controller (any other pose).

    The pass is specified here as a pure function `Step` on a `Session`
    value; the class `InteractionSession` at the end holds the same state in
    mutable fields and its `Tick` method is proved to perform `Step`.

    Distances are compared squared: the source takes square roots before
    comparing with non-negative thresholds, and squaring is monotone on
    non-negative reals (`ShapesMatchDistances` proves the classifier
    agrees). Coordinates are exact reals. */
module MagicMode {
  import opened Opt
  import opened Board
  import opened RealArith

  // ---------------------------------------------------------------------
  // Configuration

  const IndexExtendedMin: real := 0.18   // pointer: index farther than this
  const CurledMax: real := 0.20          // pointer: middle and ring closer than this
  const FistMax: real := 0.15            // fist: all three closer than this
  const Gain: real := 0.4                // exponential smoothing gain
  const StillnessThreshold: real := 35.0 // px the cursor may drift and still dwell
  const DwellDuration: int := 500        // ms of stillness before a click
  const CaptureRadius: real := 300.0     // px around a card centre that highlights it

  // Landmark indices of MediaPipe's 21-point hand model that the pass reads.
  const Wrist: nat := 0
  const IndexTip: nat := 8
  const MiddleKnuckle: nat := 9
  const MiddleTip: nat := 12
  const RingTip: nat := 16

  /** A frame needs landmarks 0 to 16; with fewer, reading the ring tip throws
      before the pass has changed anything. */
  const MinLandmarks: nat := RingTip + 1

  function Sq(r: real): real { r * r }

  // ---------------------------------------------------------------------
  // Inputs, effects and state

  datatype Point = Point(x: real, y: real)

  function DistSq(p: Point, q: Point): real {
    Sq(p.x - q.x) + Sq(p.y - q.y)
  }

  /** A camera result: no hand, or the landmarks of the first hand, with
      coordinates normalised to [0, 1]. */
  datatype Frame = NoHand | Hand(landmarks: seq<Point>)

  /** The element `document.elementFromPoint` returns. `isTextField` says it is
      an input or a textarea, which also receives focus when clicked.
      `hasClick` says it has a `click` method: HTML elements do, SVG elements
      (such as the icons inside the board's buttons) do not. */
  datatype Element = Element(handle: nat, isTextField: bool, hasClick: bool)

  /** Calling `click` on this element throws a TypeError. */
  predicate Unclickable(e: Option<Element>) {
    e.Some? && !e.value.hasClick
  }

  /** A rendered task card and the centre of its bounding box. */
  datatype Card = Card(taskId: string, centre: Point)

  /** A rendered column and its horizontal extent. */
  datatype ColumnSpan = ColumnSpan(column: Column, left: real, right: real)

  /** What the pass reads from the page: the viewport size, the cards of the
      tasks that are rendered (in task-list order), the columns in document
      order, the element under this pass's cursor, and the id of its closest
      interactive ancestor (button, input, textarea, link or role=button). */
  datatype Layout = Layout(
    viewportWidth: real,
    viewportHeight: real,
    cards: seq<Card>,
    columns: seq<ColumnSpan>,
    elementUnder: Option<Element>,
    interactiveId: Option<string>)

  /** What a pass does to the outside world. */
  datatype Effect =
    | Click(element: Element)
    | Focus(element: Element)
    | Drop(taskId: string, column: Column)

  /** The state that survives between passes: the smoothed cursor, the dwell
      anchor and start time, the rendered pointer flag and dwell target, the
      highlighted and grabbed tasks, and the hovered column. */
  datatype Session = Session(
    smoothPos: Point,
    lastSteadyPos: Point,
    dwellStart: Option<int>,
    isPointerMode: bool,
    targetElementId: Option<string>,
    highlightedTaskId: Option<string>,
    grabbedTaskId: Option<string>,
    targetColumn: Option<Column>)

  /** Every ref and state variable starts at zero or null; in particular the
      smoother starts at (0, 0), not at the first observation. */
  const InitialSession: Session :=
    Session(Point(0.0, 0.0), Point(0.0, 0.0), None, false, None, None, None, None)

  /** A task is grabbed only by copying a truthy highlighted id. */
  predicate Consistent(s: Session) {
    s.grabbedTaskId != Some("")
  }

  datatype TickResult = TickResult(session: Session, effects: seq<Effect>)

  // ---------------------------------------------------------------------
  // Landmark classifier

  datatype Pose = Pointer | Fist | Open

  /** Index extended, middle and ring curled (squared distances). */
  predicate PointerShape(indexSq: real, middleSq: real, ringSq: real) {
    indexSq > Sq(IndexExtendedMin) && middleSq < Sq(CurledMax) && ringSq < Sq(CurledMax)
  }

  /** All three fingertips close to the wrist (squared distances). */
  predicate FistShape(indexSq: real, middleSq: real, ringSq: real) {
    indexSq < Sq(FistMax) && middleSq < Sq(FistMax) && ringSq < Sq(FistMax)
  }

  /** Squared wrist-to-landmark distance. */
  function Reach(lm: seq<Point>, k: nat): real
    requires k < |lm| && Wrist < |lm|
  {
    DistSq(lm[k], lm[Wrist])
  }

  function Classify(lm: seq<Point>): (p: Pose)
    requires |lm| >= MinLandmarks
    ensures p == Pointer <==> PointerShape(Reach(lm, IndexTip), Reach(lm, MiddleTip), Reach(lm, RingTip))
    ensures p == Fist <==> FistShape(Reach(lm, IndexTip), Reach(lm, MiddleTip), Reach(lm, RingTip))
  {
    var i, m, r := Reach(lm, IndexTip), Reach(lm, MiddleTip), Reach(lm, RingTip);
    if PointerShape(i, m, r) then Pointer else if FistShape(i, m, r) then Fist else Open
  }

  /** The index thresholds are disjoint, so no hand is both a pointer and a fist. */
  lemma PointerIsNeverFist(i: real, m: real, r: real)
    ensures !(PointerShape(i, m, r) && FistShape(i, m, r))
  {
  }

  lemma SquareGrows(a: real, b: real)
    requires 0.0 <= a < b
    ensures Sq(a) < Sq(b)
  {
    var d := b - a;
    assert b * b == a * a + 2.0 * a * d + d * d;
    assert d * d > 0.0;
    assert a * d >= 0.0;
  }

  lemma SquareLess(a: real, b: real)
    requires a >= 0.0 && b >= 0.0
    ensures a < b <==> Sq(a) < Sq(b)
  {
    if a < b {
      SquareGrows(a, b);
    } else if b < a {
      SquareGrows(b, a);
    }
  }

  /** On the lengths the source computes with `Math.sqrt`, the squared tests
      are exactly its tests `dIndex > 0.18 && dMiddle < 0.20 && dRing < 0.20`
      and `dIndex < 0.15 && dMiddle < 0.15 && dRing < 0.15`. */
  lemma ShapesMatchDistances(dIndex: real, dMiddle: real, dRing: real)
    requires dIndex >= 0.0 && dMiddle >= 0.0 && dRing >= 0.0
    ensures PointerShape(Sq(dIndex), Sq(dMiddle), Sq(dRing))
      <==> dIndex > IndexExtendedMin && dMiddle < CurledMax && dRing < CurledMax
    ensures FistShape(Sq(dIndex), Sq(dMiddle), Sq(dRing))
      <==> dIndex < FistMax && dMiddle < FistMax && dRing < FistMax
  {
    SquareLess(IndexExtendedMin, dIndex);
    SquareLess(dMiddle, CurledMax);
    SquareLess(dRing, CurledMax);
    SquareLess(dIndex, FistMax);
    SquareLess(dMiddle, FistMax);
    SquareLess(dRing, FistMax);
  }

  // ---------------------------------------------------------------------
  // Cursor and smoother

  /** The raw cursor: the index tip when pointing, the middle knuckle
      otherwise, mirrored horizontally and scaled to the viewport. */
  function RawCursor(lm: seq<Point>, pose: Pose, width: real, height: real): Point
    requires |lm| >= MinLandmarks
  {
    var k := if pose == Pointer then IndexTip else MiddleKnuckle;
    Point((1.0 - lm[k].x) * width, lm[k].y * height)
  }

  /** A tracked landmark inside the normalised frame puts the raw cursor
      inside the viewport. */
  lemma RawCursorInViewport(lm: seq<Point>, pose: Pose, width: real, height: real)
    requires |lm| >= MinLandmarks && width >= 0.0 && height >= 0.0
    requires var k := if pose == Pointer then IndexTip else MiddleKnuckle;
      0.0 <= lm[k].x <= 1.0 && 0.0 <= lm[k].y <= 1.0
    ensures var r := RawCursor(lm, pose, width, height);
      0.0 <= r.x <= width && 0.0 <= r.y <= height
  {
    var k := if pose == Pointer then IndexTip else MiddleKnuckle;
    UnitScale(1.0 - lm[k].x, width);
    UnitScale(lm[k].y, height);
  }

  /** One smoothing step: move `Gain` of the way from `s` to `raw`. */
  function Smooth(s: Point, raw: Point): (r: Point)
    ensures raw.x - r.x == (raw.x - s.x) * (1.0 - Gain)
    ensures raw.y - r.y == (raw.y - s.y) * (1.0 - Gain)
  {
    Point(s.x + (raw.x - s.x) * Gain, s.y + (raw.y - s.y) * Gain)
  }

  /** The smoothed cursor after `n` passes that all see the same raw cursor. */
  function SmoothRepeated(s: Point, raw: Point, n: nat): Point {
    if n == 0 then s else Smooth(SmoothRepeated(s, raw, n - 1), raw)
  }

  function Power(b: real, n: nat): real {
    if n == 0 then 1.0 else b * Power(b, n - 1)
  }

  function Abs(r: real): real { if r < 0.0 then -r else r }

  /** The gap to a constant raw cursor shrinks by the factor 0.6 per pass. */
  lemma {:induction false} SmoothRepeatedGap(s: Point, raw: Point, n: nat)
    ensures raw.x - SmoothRepeated(s, raw, n).x == (raw.x - s.x) * Power(1.0 - Gain, n)
    ensures raw.y - SmoothRepeated(s, raw, n).y == (raw.y - s.y) * Power(1.0 - Gain, n)
  {
    if n > 0 {
      SmoothRepeatedGap(s, raw, n - 1);
    }
  }

  lemma {:induction false} PowerPositive(n: nat)
    ensures 0.0 < Power(1.0 - Gain, n)
  {
    if n > 0 {
      PowerPositive(n - 1);
      MulLt(0.0, Power(1.0 - Gain, n - 1), 1.0 - Gain);
    }
  }

  lemma {:induction false} ShrinkBound(n: nat)
    ensures 0.0 < Power(1.0 - Gain, n)
    ensures Power(1.0 - Gain, n) * (1.0 + n as real / 2.0) <= 1.0
  {
    if n > 0 {
      ShrinkBound(n - 1);
      var p := Power(1.0 - Gain, n - 1);
      assert Power(1.0 - Gain, n) == 0.6 * p;
      assert 0.6 * (1.0 + n as real / 2.0) <= 1.0 + (n - 1) as real / 2.0;
      assert 0.6 * p * (1.0 + n as real / 2.0) <= p * (1.0 + (n - 1) as real / 2.0);
    }
  }

  lemma PowerAntitone(m: nat, n: nat)
    requires m <= n
    ensures Power(1.0 - Gain, n) <= Power(1.0 - Gain, m)
    decreases n - m
  {
    if m < n {
      PowerAntitone(m, n - 1);
      ShrinkBound(n - 1);
    }
  }

  lemma AbsScaled(c: real, p: real)
    requires p > 0.0
    ensures Abs(c * p) == Abs(c) * p
  {
    if c < 0.0 {
      MulLt(c, 0.0, p);
    } else {
      MulLe(0.0, c, p);
    }
  }

  /** Enough passes to shrink a gap of `g` below `eps`. */
  lemma PassesNeeded(g: real, eps: real) returns (n0: nat)
    requires g >= 0.0 && eps > 0.0
    ensures g * Power(1.0 - Gain, n0) < eps
  {
    var t := 2.0 * g / eps;
    assert t * eps == 2.0 * g;
    n0 := t.Floor + 1;
    MulLt(t, n0 as real, eps);
    var e := eps * (1.0 + n0 as real / 2.0);
    assert g < e;
    ShrinkBound(n0);
    var p0 := Power(1.0 - Gain, n0);
    MulLt(g, e, p0);
    MulLe(p0 * (1.0 + n0 as real / 2.0), 1.0, eps);
  }

  /** After `n` passes the gap on each axis is 0.6^n times the first one. */
  lemma GapAfter(s: Point, raw: Point, n: nat)
    ensures Abs(raw.x - SmoothRepeated(s, raw, n).x) == Abs(raw.x - s.x) * Power(1.0 - Gain, n)
    ensures Abs(raw.y - SmoothRepeated(s, raw, n).y) == Abs(raw.y - s.y) * Power(1.0 - Gain, n)
  {
    SmoothRepeatedGap(s, raw, n);
    PowerPositive(n);
    AbsScaled(raw.x - s.x, Power(1.0 - Gain, n));
    AbsScaled(raw.y - s.y, Power(1.0 - Gain, n));
  }

  /** One axis of the convergence bound: a gap `d0` scaled by `p <= p0`
      stays below `eps` once `g * p0` does, for any `g >= d0`. */
  lemma AxisConverges(d0: real, dn: real, g: real, p: real, p0: real, eps: real)
    requires 0.0 <= d0 <= g && 0.0 <= p <= p0
    requires dn == d0 * p && g * p0 < eps
    ensures dn < eps
  {
    MulLe(d0, g, p);
    MulLe(p, p0, g);
    assert g * p == p * g && g * p0 == p0 * g;
  }

  lemma AxisGapBound(d0: real, g: real, dn: real, n0: nat, n: nat, eps: real)
    requires 0.0 <= d0 <= g && n0 <= n
    requires dn == d0 * Power(1.0 - Gain, n) && g * Power(1.0 - Gain, n0) < eps
    ensures dn < eps
  {
    var p, p0 := Power(1.0 - Gain, n), Power(1.0 - Gain, n0);
    PowerAntitone(n0, n);
    PowerPositive(n);
    AxisConverges(d0, dn, g, p, p0, eps);
  }

  lemma ConvergedAfter(s: Point, raw: Point, eps: real, n0: nat, n: nat)
    requires n0 <= n
    requires (Abs(raw.x - s.x) + Abs(raw.y - s.y)) * Power(1.0 - Gain, n0) < eps
    ensures Abs(raw.x - SmoothRepeated(s, raw, n).x) < eps && Abs(raw.y - SmoothRepeated(s, raw, n).y) < eps
  {
    GapAfter(s, raw, n);
    PairGapBound(Abs(raw.x - s.x), Abs(raw.y - s.y),
                 Abs(raw.x - SmoothRepeated(s, raw, n).x), Abs(raw.y - SmoothRepeated(s, raw, n).y), n0, n, eps);
  }

  lemma PairGapBound(dx: real, dy: real, ex: real, ey: real, n0: nat, n: nat, eps: real)
    requires 0.0 <= dx && 0.0 <= dy && n0 <= n
    requires ex == dx * Power(1.0 - Gain, n) && ey == dy * Power(1.0 - Gain, n)
    requires (dx + dy) * Power(1.0 - Gain, n0) < eps
    ensures ex < eps && ey < eps
  {
    AxisGapBound(dx, dx + dy, ex, n0, n, eps);
    AxisGapBound(dy, dx + dy, ey, n0, n, eps);
  }

  /** Held at a constant raw cursor, the smoothed cursor comes within any
      `eps` of it on both axes after `n0` passes and stays there. */
  lemma SmootherConverges(s: Point, raw: Point, eps: real) returns (n0: nat)
    requires eps > 0.0
    ensures forall n: nat :: n >= n0 ==>
      Abs(raw.x - SmoothRepeated(s, raw, n).x) < eps && Abs(raw.y - SmoothRepeated(s, raw, n).y) < eps
  {
    var g := Abs(raw.x - s.x) + Abs(raw.y - s.y);
    n0 := PassesNeeded(g, eps);
    forall n: nat | n >= n0
      ensures Abs(raw.x - SmoothRepeated(s, raw, n).x) < eps && Abs(raw.y - SmoothRepeated(s, raw, n).y) < eps
    {
      ConvergedAfter(s, raw, eps, n0, n);
    }
  }

  // ---------------------------------------------------------------------
  // Nearest card and hovered column

  /** The card the highlight loop settles on among the first |cards| cards:
      a card replaces the current best when it is strictly closer and strictly
      inside the capture radius. */
  function NearestIndex(cards: seq<Card>, p: Point): (r: Option<nat>)
    ensures r.Some? ==> r.value < |cards|
    decreases |cards|
  {
    if cards == [] then None
    else
      var best := NearestIndex(cards[..|cards| - 1], p);
      var d := DistSq(p, cards[|cards| - 1].centre);
      if d < Sq(CaptureRadius) && (best.None? || d < DistSq(p, cards[best.value].centre))
      then Some(|cards| - 1)
      else best
  }

  function NearestCard(cards: seq<Card>, p: Point): Option<string> {
    match NearestIndex(cards, p)
    case None => None
    case Some(k) => Some(cards[k].taskId)
  }

  /** The highlighted card is the first of the cards nearest to the cursor,
      provided it lies strictly inside the capture radius; no card inside the
      radius (an empty board in particular) means no highlight. */
  lemma {:induction false} NearestIndexSpec(cards: seq<Card>, p: Point)
    ensures var r := NearestIndex(cards, p);
      && (r.None? <==> forall j :: 0 <= j < |cards| ==> DistSq(p, cards[j].centre) >= Sq(CaptureRadius))
      && (r.Some? ==>
            && DistSq(p, cards[r.value].centre) < Sq(CaptureRadius)
            && (forall j :: 0 <= j < r.value ==> DistSq(p, cards[j].centre) > DistSq(p, cards[r.value].centre))
            && (forall j :: r.value < j < |cards| ==> DistSq(p, cards[j].centre) >= DistSq(p, cards[r.value].centre)))
    decreases |cards|
  {
    if cards != [] {
      var init := cards[..|cards| - 1];
      NearestIndexSpec(init, p);
      assert forall j :: 0 <= j < |init| ==> init[j] == cards[j];
    }
  }

  /** Whether the cursor's x lies inside the column's extent (y is ignored). */
  predicate Covers(c: ColumnSpan, x: real) {
    c.left <= x <= c.right
  }

  /** The column the hover loop settles on: the last one covering x. */
  function HoveredIndex(columns: seq<ColumnSpan>, x: real): (r: Option<nat>)
    ensures r.Some? ==> r.value < |columns|
    decreases |columns|
  {
    if columns == [] then None
    else if Covers(columns[|columns| - 1], x) then Some(|columns| - 1)
    else HoveredIndex(columns[..|columns| - 1], x)
  }

  function HoveredColumn(columns: seq<ColumnSpan>, x: real): Option<Column> {
    match HoveredIndex(columns, x)
    case None => None
    case Some(k) => Some(columns[k].column)
  }

  /** The hovered column is the last column in document order whose extent
      covers the cursor's x, or none when no column does. */
  lemma {:induction false} HoveredIndexSpec(columns: seq<ColumnSpan>, x: real)
    ensures var r := HoveredIndex(columns, x);
      && (r.None? <==> forall j :: 0 <= j < |columns| ==> !Covers(columns[j], x))
      && (r.Some? ==>
            && Covers(columns[r.value], x)
            && forall j :: r.value < j < |columns| ==> !Covers(columns[j], x))
    decreases |columns|
  {
    if columns != [] {
      var init := columns[..|columns| - 1];
      HoveredIndexSpec(init, x);
      assert forall j :: 0 <= j < |init| ==> init[j] == columns[j];
    }
  }

  // ---------------------------------------------------------------------
  // One pass

  /** `dwellStartTimeRef.current || Date.now()`: a missing (or zero) start
      reads as now, so the elapsed time is 0. */
  function DwellOrigin(dwellStart: Option<int>, now: int): int {
    if dwellStart.Some? && dwellStart.value != 0 then dwellStart.value else now
  }

  /** The click, followed by a focus for text fields, of the element under
      the cursor; nothing when there is none. */
  function ClickEffects(e: Option<Element>): seq<Effect> {
    match e
    case None => []
    case Some(el) => if el.isTextField then [Click(el), Focus(el)] else [Click(el)]
  }

  /** Dwell-click detector, pointer pose at cursor `p`. */
  function PointerStep(s: Session, p: Point, now: int, layout: Layout): TickResult {
    var s1 := s.(grabbedTaskId := None, highlightedTaskId := None);
    if DistSq(p, s.lastSteadyPos) > Sq(StillnessThreshold) then
      TickResult(s1.(dwellStart := Some(now), lastSteadyPos := p, targetElementId := None), [])
    else
      var elapsed := now - DwellOrigin(s.dwellStart, now);
      var target := if layout.elementUnder.Some? && IsSet(layout.interactiveId) then layout.interactiveId else None;
      var s2 := s1.(targetElementId := target);
      if elapsed >= DwellDuration && s.dwellStart.Some? then
        if Unclickable(layout.elementUnder) then
          // the pass throws at the click: what it wrote stands, the rest is skipped
          TickResult(s2, [])
        else
          TickResult(s2.(dwellStart := Some(now)), ClickEffects(layout.elementUnder))
      else
        TickResult(s2, [])
  }

  /** Grab/drop controller, fist or open pose at cursor `p`. The grab and the
      hovered column it reads are those at the start of the pass. */
  function GrabStep(s: Session, pose: Pose, p: Point, layout: Layout): TickResult
    requires pose != Pointer
  {
    var s1 := s.(targetElementId := None, dwellStart := None);
    var r :=
      if pose == Open then
        var drops := if IsSet(s.grabbedTaskId) && s.targetColumn.Some?
                     then [Drop(s.grabbedTaskId.value, s.targetColumn.value)] else [];
        var grabbed := if IsSet(s.grabbedTaskId) then None else s.grabbedTaskId;
        TickResult(s1.(grabbedTaskId := grabbed, highlightedTaskId := NearestCard(layout.cards, p)), drops)
      else if !IsSet(s.grabbedTaskId) && IsSet(s.highlightedTaskId) then
        TickResult(s1.(grabbedTaskId := s.highlightedTaskId), [])
      else
        TickResult(s1, []);
    TickResult(r.session.(targetColumn := HoveredColumn(layout.columns, p.x)), r.effects)
  }

  /** The cursor a hand frame yields, starting from smoothed position `s`. */
  function Cursor(s: Point, lm: seq<Point>, layout: Layout): Point
    requires |lm| >= MinLandmarks
  {
    Smooth(s, RawCursor(lm, Classify(lm), layout.viewportWidth, layout.viewportHeight))
  }

  /** The whole `onResults` callback for one frame. */
  function Step(s: Session, frame: Frame, now: int, layout: Layout): TickResult {
    match frame
    case NoHand =>
      TickResult(s.(highlightedTaskId := None, targetElementId := None, isPointerMode := false, dwellStart := None), [])
    case Hand(lm) =>
      if |lm| < MinLandmarks then TickResult(s, [])
      else
        var pose := Classify(lm);
        var p := Cursor(s.smoothPos, lm, layout);
        var s1 := s.(isPointerMode := pose == Pointer, smoothPos := p);
        if pose == Pointer then PointerStep(s1, p, now, layout) else GrabStep(s1, pose, p, layout)
  }

  // ---------------------------------------------------------------------
  // Properties of one pass

  /** The pose a frame is classified as, if it is a usable hand. */
  predicate IsPose(frame: Frame, pose: Pose) {
    frame.Hand? && |frame.landmarks| >= MinLandmarks && Classify(frame.landmarks) == pose
  }

  predicate HasClick(effects: seq<Effect>) {
    exists e :: e in effects && e.Click?
  }

  predicate HasDrop(effects: seq<Effect>) {
    exists e :: e in effects && e.Drop?
  }

  /** Every pass leaves the session consistent. */
  lemma StepKeepsConsistent(s: Session, frame: Frame, now: int, layout: Layout)
    requires Consistent(s)
    ensures Consistent(Step(s, frame, now, layout).session)
  {
  }

  /** Every usable hand frame moves the smoothed cursor `Gain` of the way to
      the raw cursor, which is landmark 8 when pointing and 9 otherwise. */
  lemma HandPassSmoothsCursor(s: Session, lm: seq<Point>, now: int, layout: Layout)
    requires |lm| >= MinLandmarks
    ensures var k := if Classify(lm) == Pointer then IndexTip else MiddleKnuckle;
      var raw := Point((1.0 - lm[k].x) * layout.viewportWidth, lm[k].y * layout.viewportHeight);
      var q := Step(s, Hand(lm), now, layout).session.smoothPos;
      && q.x - s.smoothPos.x == (raw.x - s.smoothPos.x) * Gain
      && q.y - s.smoothPos.y == (raw.y - s.smoothPos.y) * Gain
      && Step(s, Hand(lm), now, layout).session.isPointerMode == (Classify(lm) == Pointer)
  {
    var k := if Classify(lm) == Pointer then IndexTip else MiddleKnuckle;
    var raw := Point((1.0 - lm[k].x) * layout.viewportWidth, lm[k].y * layout.viewportHeight);
    assert RawCursor(lm, Classify(lm), layout.viewportWidth, layout.viewportHeight) == raw;
    assert Step(s, Hand(lm), now, layout).session.smoothPos == Smooth(s.smoothPos, raw);
    SmoothMoves(s.smoothPos, raw);
  }

  lemma SmoothMoves(s: Point, raw: Point)
    ensures Smooth(s, raw).x - s.x == (raw.x - s.x) * Gain
    ensures Smooth(s, raw).y - s.y == (raw.y - s.y) * Gain
  {
  }

  /** Pointer pass, cursor moved beyond the stillness radius: re-anchor at the
      cursor and now, clear the target, no click. */
  lemma PointerMoveReanchors(s: Session, lm: seq<Point>, now: int, layout: Layout)
    requires |lm| >= MinLandmarks && Classify(lm) == Pointer
    requires DistSq(Cursor(s.smoothPos, lm, layout), s.lastSteadyPos) > Sq(StillnessThreshold)
    ensures var r := Step(s, Hand(lm), now, layout);
      && r.session.dwellStart == Some(now)
      && r.session.lastSteadyPos == r.session.smoothPos
      && r.session.targetElementId.None?
      && r.effects == []
  {
  }

  /** The dwell fires when the cursor is within the stillness radius of the
      anchor, a (non-zero) start time is recorded and at least 500 ms have
      passed since it. */
  predicate DwellDue(s: Session, p: Point, now: int) {
    && DistSq(p, s.lastSteadyPos) <= Sq(StillnessThreshold)
    && s.dwellStart.Some? && s.dwellStart.value != 0
    && now - s.dwellStart.value >= DwellDuration
  }

  /** A click happens exactly on a pointer pass where the dwell is due and an
      element with a `click` method is under the cursor; it goes to that
      element, not to its interactive ancestor, and a text field is focused
      as well. */
  lemma ClickIff(s: Session, frame: Frame, now: int, layout: Layout)
    ensures var r := Step(s, frame, now, layout);
      HasClick(r.effects) <==>
        IsPose(frame, Pointer) && DwellDue(s, Cursor(s.smoothPos, frame.landmarks, layout), now) &&
        layout.elementUnder.Some? && layout.elementUnder.value.hasClick
    ensures var r := Step(s, frame, now, layout);
      HasClick(r.effects) ==> r.effects == ClickEffects(layout.elementUnder)
  {
    var r := Step(s, frame, now, layout);
    if HasClick(r.effects) {
      var e :| e in r.effects && e.Click?;
    }
    if IsPose(frame, Pointer) && DwellDue(s, Cursor(s.smoothPos, frame.landmarks, layout), now) &&
       layout.elementUnder.Some? && layout.elementUnder.value.hasClick {
      assert r.effects[0] == Click(layout.elementUnder.value);
    }
  }

  /** A due dwell restarts the timer at now whether or not anything was under
      the cursor, so clicks repeat at the dwell interval. Over an element
      without `click` the pass throws first, and the start is kept. */
  lemma DueDwellRestarts(s: Session, lm: seq<Point>, now: int, layout: Layout)
    requires |lm| >= MinLandmarks && Classify(lm) == Pointer
    requires DwellDue(s, Cursor(s.smoothPos, lm, layout), now)
    ensures Step(s, Hand(lm), now, layout).session.dwellStart
         == if Unclickable(layout.elementUnder) then s.dwellStart else Some(now)
  {
  }

  /** A due dwell over an element without `click` (an SVG icon) aborts the pass
      at the click: the target is still shown, but nothing is clicked and the
      start and anchor are kept, so the dwell stays due for a later pass that
      is still inside the radius. */
  lemma DwellOnIconAborts(s: Session, lm: seq<Point>, now: int, layout: Layout)
    requires |lm| >= MinLandmarks && Classify(lm) == Pointer
    requires DwellDue(s, Cursor(s.smoothPos, lm, layout), now)
    requires Unclickable(layout.elementUnder)
    ensures var r := Step(s, Hand(lm), now, layout);
      && r.effects == []
      && r.session.dwellStart == s.dwellStart
      && r.session.lastSteadyPos == s.lastSteadyPos
      && r.session.targetElementId
         == (if IsSet(layout.interactiveId) then layout.interactiveId else None)
  {
  }

  /** With no recorded start and the cursor still inside the radius, nothing
      arms the dwell: no click, and the start stays empty. */
  lemma UnarmedDwellStaysIdle(s: Session, lm: seq<Point>, now: int, layout: Layout)
    requires |lm| >= MinLandmarks && Classify(lm) == Pointer
    requires s.dwellStart.None?
    requires DistSq(Cursor(s.smoothPos, lm, layout), s.lastSteadyPos) <= Sq(StillnessThreshold)
    ensures var r := Step(s, Hand(lm), now, layout);
      r.session.dwellStart.None? && r.effects == []
  {
  }

  /** A pointer pass discards any grab and highlight without dropping. */
  lemma PointerDiscardsGrab(s: Session, frame: Frame, now: int, layout: Layout)
    requires IsPose(frame, Pointer)
    ensures var r := Step(s, frame, now, layout);
      r.session.grabbedTaskId.None? && r.session.highlightedTaskId.None? && !HasDrop(r.effects)
  {
  }

  /** Any pass that is not a pointer pass clears the dwell and its target and
      never clicks. */
  lemma NonPointerClearsDwell(s: Session, frame: Frame, now: int, layout: Layout)
    requires frame.NoHand? || IsPose(frame, Fist) || IsPose(frame, Open)
    ensures var r := Step(s, frame, now, layout);
      r.session.dwellStart.None? && r.session.targetElementId.None? && !HasClick(r.effects)
  {
  }

  /** A drop happens exactly on an open-hand pass that starts with a grabbed
      task and a hovered column (the one recorded by the previous pass); it is
      the only effect, moves that task to that column, and any open-hand pass
      ends with nothing grabbed. */
  lemma DropIff(s: Session, frame: Frame, now: int, layout: Layout)
    requires Consistent(s)
    ensures var r := Step(s, frame, now, layout);
      HasDrop(r.effects) <==> IsPose(frame, Open) && s.grabbedTaskId.Some? && s.targetColumn.Some?
    ensures var r := Step(s, frame, now, layout);
      HasDrop(r.effects) ==> r.effects == [Drop(s.grabbedTaskId.value, s.targetColumn.value)]
    ensures IsPose(frame, Open) ==> Step(s, frame, now, layout).session.grabbedTaskId.None?
  {
    var r := Step(s, frame, now, layout);
    if HasDrop(r.effects) {
      var e :| e in r.effects && e.Drop?;
    }
    if IsPose(frame, Open) && s.grabbedTaskId.Some? && s.targetColumn.Some? {
      assert r.effects[0] == Drop(s.grabbedTaskId.value, s.targetColumn.value);
    }
  }

  /** An open-hand pass highlights the nearest card to the new cursor. */
  lemma OpenHandHighlightsNearest(s: Session, lm: seq<Point>, now: int, layout: Layout)
    requires |lm| >= MinLandmarks && Classify(lm) == Open
    ensures Step(s, Hand(lm), now, layout).session.highlightedTaskId
         == NearestCard(layout.cards, Cursor(s.smoothPos, lm, layout))
  {
  }

  /** A fist pass keeps the highlight; with nothing grabbed it grabs the
      highlighted task if there is one, otherwise the grab stays as it was. */
  lemma FistGrabsHighlighted(s: Session, lm: seq<Point>, now: int, layout: Layout)
    requires Consistent(s)
    requires |lm| >= MinLandmarks && Classify(lm) == Fist
    ensures var r := Step(s, Hand(lm), now, layout).session;
      && r.highlightedTaskId == s.highlightedTaskId
      && (s.grabbedTaskId.None? && IsSet(s.highlightedTaskId) ==> r.grabbedTaskId == s.highlightedTaskId)
      && (!IsSet(s.highlightedTaskId) || s.grabbedTaskId.Some? ==> r.grabbedTaskId == s.grabbedTaskId)
  {
  }

  /** Every fist or open pass records the column under the new cursor's x. */
  lemma HandPassRecordsColumn(s: Session, lm: seq<Point>, now: int, layout: Layout)
    requires |lm| >= MinLandmarks && Classify(lm) != Pointer
    ensures Step(s, Hand(lm), now, layout).session.targetColumn
         == HoveredColumn(layout.columns, Cursor(s.smoothPos, lm, layout).x)
  {
  }

  /** A pass without a hand clears highlight, target and dwell but keeps the
      grab, the hovered column and the cursor; it has no effect. */
  lemma NoHandKeepsGrab(s: Session, now: int, layout: Layout)
    ensures var r := Step(s, NoHand, now, layout);
      && r.effects == []
      && r.session.grabbedTaskId == s.grabbedTaskId
      && r.session.targetColumn == s.targetColumn
      && r.session.smoothPos == s.smoothPos
      && r.session.highlightedTaskId.None?
      && !r.session.isPointerMode
  {
  }

  /** A frame with fewer than 17 landmarks aborts the pass: nothing changes. */
  lemma ShortFrameIsIgnored(s: Session, lm: seq<Point>, now: int, layout: Layout)
    requires |lm| < MinLandmarks
    ensures Step(s, Hand(lm), now, layout) == TickResult(s, [])
  {
  }

  // ---------------------------------------------------------------------
  // Runs of passes

  datatype TickInput = TickInput(frame: Frame, now: int, layout: Layout)

  /** The session after the given passes. */
  function Run(s: Session, ticks: seq<TickInput>): Session
    decreases |ticks|
  {
    if ticks == [] then s
    else
      var t := ticks[|ticks| - 1];
      Step(Run(s, ticks[..|ticks| - 1]), t.frame, t.now, t.layout).session
  }

  /** What pass `j` of a run does. */
  function EffectsAt(s: Session, ticks: seq<TickInput>, j: nat): seq<Effect>
    requires j < |ticks|
  {
    Step(Run(s, ticks[..j]), ticks[j].frame, ticks[j].now, ticks[j].layout).effects
  }

  predicate Chronological(ticks: seq<TickInput>) {
    forall i, j :: 0 <= i < j < |ticks| ==> ticks[i].now <= ticks[j].now
  }

  lemma RunPrefix(s: Session, ticks: seq<TickInput>, k: nat)
    requires k < |ticks|
    ensures Run(s, ticks[..k + 1])
         == Step(Run(s, ticks[..k]), ticks[k].frame, ticks[k].now, ticks[k].layout).session
  {
    assert ticks[..k + 1][..k] == ticks[..k];
  }

  lemma {:induction false} RunKeepsConsistent(s: Session, ticks: seq<TickInput>, k: nat)
    requires Consistent(s) && k <= |ticks|
    ensures Consistent(Run(s, ticks[..k]))
  {
    if k > 0 {
      RunKeepsConsistent(s, ticks, k - 1);
      RunPrefix(s, ticks, k - 1);
      var t := ticks[k - 1];
      StepKeepsConsistent(Run(s, ticks[..k - 1]), t.frame, t.now, t.layout);
    }
  }

  /** A pass either keeps the dwell start, clears it, or sets it to now. */
  lemma StepDwellStart(s: Session, frame: Frame, now: int, layout: Layout)
    ensures var d := Step(s, frame, now, layout).session.dwellStart;
      d == s.dwellStart || d.None? || d == Some(now)
  {
  }

  /** After a click at pass i, every later dwell start is at least pass i's time. */
  lemma {:induction false} DwellStartNotBefore(s: Session, ticks: seq<TickInput>, i: nat, k: nat)
    requires Chronological(ticks)
    requires i < k <= |ticks|
    requires HasClick(EffectsAt(s, ticks, i))
    ensures var d := Run(s, ticks[..k]).dwellStart;
      d.None? || d.value >= ticks[i].now
  {
    RunPrefix(s, ticks, k - 1);
    var t := ticks[k - 1];
    var before := Run(s, ticks[..k - 1]);
    if k - 1 == i {
      ClickIff(before, t.frame, t.now, t.layout);
      DueDwellRestarts(before, t.frame.landmarks, t.now, t.layout);
    } else {
      DwellStartNotBefore(s, ticks, i, k - 1);
      StepDwellStart(before, t.frame, t.now, t.layout);
    }
  }

  /** In a run whose clock does not go backwards, two clicks are at least the
      dwell duration apart. */
  lemma ClicksAtLeastDwellApart(s: Session, ticks: seq<TickInput>, i: nat, j: nat)
    requires Chronological(ticks)
    requires i < j < |ticks|
    requires HasClick(EffectsAt(s, ticks, i)) && HasClick(EffectsAt(s, ticks, j))
    ensures ticks[j].now - ticks[i].now >= DwellDuration
  {
    DwellStartNotBefore(s, ticks, i, j);
    var t := ticks[j];
    ClickIff(Run(s, ticks[..j]), t.frame, t.now, t.layout);
  }

  /** With no card on screen and nothing highlighted or grabbed at the start,
      nothing is ever highlighted, grabbed or dropped. */
  lemma {:induction false} EmptyBoardNeverGrabs(s: Session, ticks: seq<TickInput>, k: nat)
    requires s.grabbedTaskId.None? && s.highlightedTaskId.None?
    requires forall i :: 0 <= i < |ticks| ==> ticks[i].layout.cards == []
    requires k <= |ticks|
    ensures Run(s, ticks[..k]).grabbedTaskId.None? && Run(s, ticks[..k]).highlightedTaskId.None?
    ensures k < |ticks| ==> !HasDrop(EffectsAt(s, ticks, k))
  {
    if k > 0 {
      EmptyBoardNeverGrabs(s, ticks, k - 1);
      RunPrefix(s, ticks, k - 1);
    }
    if k < |ticks| {
      var t := ticks[k];
      RunKeepsConsistent(s, ticks, k);
      DropIff(Run(s, ticks[..k]), t.frame, t.now, t.layout);
    }
  }

  /** A grab that is held at pass k but was not at pass a was taken by a fist
      pass in between. */
  lemma {:induction false} GrabNeedsFist(s: Session, ticks: seq<TickInput>, a: nat, k: nat)
    requires Consistent(s)
    requires a <= k <= |ticks|
    requires Run(s, ticks[..a]).grabbedTaskId.None?
    requires Run(s, ticks[..k]).grabbedTaskId.Some?
    ensures exists m :: a <= m < k && IsPose(ticks[m].frame, Fist)
  {
    if k == a {
      assert false;
    }
    RunPrefix(s, ticks, k - 1);
    var t := ticks[k - 1];
    var before := Run(s, ticks[..k - 1]);
    if IsPose(t.frame, Fist) {
      assert a <= k - 1 < k;
    } else if before.grabbedTaskId.None? {
      assert false;
    } else {
      GrabNeedsFist(s, ticks, a, k - 1);
    }
  }

  /** Every drop was preceded by a fist pass, and between two drops of a run
      there is a fist pass: a grab is released once. */
  lemma DropsSeparatedByFist(s: Session, ticks: seq<TickInput>, i: nat, j: nat)
    requires Consistent(s)
    requires i < j < |ticks|
    requires HasDrop(EffectsAt(s, ticks, i)) && HasDrop(EffectsAt(s, ticks, j))
    ensures exists m :: i < m < j && IsPose(ticks[m].frame, Fist)
  {
    var ti, tj := ticks[i], ticks[j];
    RunKeepsConsistent(s, ticks, i);
    RunKeepsConsistent(s, ticks, j);
    DropIff(Run(s, ticks[..i]), ti.frame, ti.now, ti.layout);
    DropIff(Run(s, ticks[..j]), tj.frame, tj.now, tj.layout);
    RunPrefix(s, ticks, i);
    GrabNeedsFist(s, ticks, i + 1, j);
  }

  /** Every pass of the run sees a usable hand whose raw cursor is `raw`. */
  predicate HeldAt(ticks: seq<TickInput>, raw: Point) {
    forall i :: 0 <= i < |ticks| ==>
      && ticks[i].frame.Hand? && |ticks[i].frame.landmarks| >= MinLandmarks
      && var lm := ticks[i].frame.landmarks;
         RawCursor(lm, Classify(lm), ticks[i].layout.viewportWidth, ticks[i].layout.viewportHeight) == raw
  }

  /** While the hand holds still, the passes smooth the cursor exactly as the
      repeated smoother does, whatever the poses and the rest of the page. */
  lemma {:induction false} RunSmooths(s: Session, ticks: seq<TickInput>, raw: Point)
    requires HeldAt(ticks, raw)
    ensures Run(s, ticks).smoothPos == SmoothRepeated(s.smoothPos, raw, |ticks|)
    decreases |ticks|
  {
    if ticks != [] {
      var n := |ticks|;
      var init, t := ticks[..n - 1], ticks[n - 1];
      assert forall i :: 0 <= i < n - 1 ==> init[i] == ticks[i];
      RunSmooths(s, init, raw);
      HandPassSmoothsCursor(Run(s, init), t.frame.landmarks, t.now, t.layout);
    }
  }

  /** While the hand holds still, the cursor of the run comes within any
      `eps` of the raw cursor on both axes and stays there. */
  lemma RunCursorSettles(s: Session, ticks: seq<TickInput>, raw: Point, eps: real) returns (n0: nat)
    requires HeldAt(ticks, raw) && eps > 0.0
    ensures forall k :: n0 <= k <= |ticks| ==>
      Abs(raw.x - Run(s, ticks[..k]).smoothPos.x) < eps && Abs(raw.y - Run(s, ticks[..k]).smoothPos.y) < eps
  {
    n0 := SmootherConverges(s.smoothPos, raw, eps);
    forall k | n0 <= k <= |ticks|
      ensures Abs(raw.x - Run(s, ticks[..k]).smoothPos.x) < eps && Abs(raw.y - Run(s, ticks[..k]).smoothPos.y) < eps
    {
      assert forall i :: 0 <= i < k ==> ticks[..k][i] == ticks[i];
      RunSmooths(s, ticks[..k], raw);
    }
  }

  /** The first drop of a run that starts with nothing grabbed follows a fist pass. */
  lemma DropFollowsFist(s: Session, ticks: seq<TickInput>, j: nat)
    requires Consistent(s) && s.grabbedTaskId.None?
    requires j < |ticks|
    requires HasDrop(EffectsAt(s, ticks, j))
    ensures exists m :: 0 <= m < j && IsPose(ticks[m].frame, Fist)
  {
    var t := ticks[j];
    RunKeepsConsistent(s, ticks, j);
    DropIff(Run(s, ticks[..j]), t.frame, t.now, t.layout);
    assert ticks[..0] == [];
    GrabNeedsFist(s, ticks, 0, j);
  }

  // ---------------------------------------------------------------------
  // The mutable session

  /** The highlight loop of the pass. */
  method FindNearest(cards: seq<Card>, p: Point) returns (nearestId: Option<string>)
    ensures nearestId == NearestCard(cards, p)
  {
    nearestId := None;
    var minDist: Option<real> := None;  // None stands for Infinity
    var i := 0;
    while i < |cards|
      invariant 0 <= i <= |cards|
      invariant var k := NearestIndex(cards[..i], p);
        && (k.None? ==> nearestId.None? && minDist.None?)
        && (k.Some? ==> nearestId == Some(cards[k.value].taskId)
                        && minDist == Some(DistSq(p, cards[k.value].centre)))
    {
      assert cards[..i + 1][..i] == cards[..i];
      var d := DistSq(p, cards[i].centre);
      if (minDist.None? || d < minDist.value) && d < Sq(CaptureRadius) {
        minDist := Some(d);
        nearestId := Some(cards[i].taskId);
      }
      i := i + 1;
    }
    assert cards[..i] == cards;
  }

  /** The hovered-column loop of the pass. */
  method FindColumn(columns: seq<ColumnSpan>, x: real) returns (current: Option<Column>)
    ensures current == HoveredColumn(columns, x)
  {
    current := None;
    var i := 0;
    while i < |columns|
      invariant 0 <= i <= |columns|
      invariant current == HoveredColumn(columns[..i], x)
    {
      assert columns[..i + 1][..i] == columns[..i];
      if Covers(columns[i], x) {
        current := Some(columns[i].column);
      }
      i := i + 1;
    }
    assert columns[..i] == columns;
  }

  class InteractionSession {
    var active: bool
    var smoothPos: Point
    var lastSteadyPos: Point
    var dwellStart: Option<int>
    var isPointerMode: bool
    var targetElementId: Option<string>
    var highlightedTaskId: Option<string>
    var grabbedTaskId: Option<string>
    var targetColumn: Option<Column>

    ghost predicate Valid()
      reads this
    {
      Consistent(State())
    }

    function State(): Session
      reads this
    {
      Session(smoothPos, lastSteadyPos, dwellStart, isPointerMode, targetElementId,
              highlightedTaskId, grabbedTaskId, targetColumn)
    }

    /** Mounting the overlay: a live session in the initial state. */
    constructor ()
      ensures Valid() && active && State() == InitialSession
    {
      active := true;
      smoothPos, lastSteadyPos := Point(0.0, 0.0), Point(0.0, 0.0);
      dwellStart := None;
      isPointerMode := false;
      targetElementId, highlightedTaskId, grabbedTaskId := None, None, None;
      targetColumn := None;
    }

    /** Unmounting the overlay: later callbacks become no-ops. */
    method Teardown()
      modifies this`active
      ensures !active
    {
      active := false;
    }

    /** One `onResults` callback. */
    method Tick(frame: Frame, now: int, layout: Layout) returns (effects: seq<Effect>)
      requires Valid()
      modifies this
      ensures Valid() && active == old(active)
      ensures old(active) ==> TickResult(State(), effects) == Step(old(State()), frame, now, layout)
      ensures !old(active) ==> State() == old(State()) && effects == []
    {
      effects := [];
      if !active {
        return;
      }
      ghost var s0 := State();
      match frame
      case NoHand =>
        highlightedTaskId := None;
        targetElementId := None;
        isPointerMode := false;
        dwellStart := None;
      case Hand(lm) =>
        if |lm| < MinLandmarks {
          return;
        }
        var pose := Classify(lm);
        var pointerDetected := pose == Pointer;
        isPointerMode := pointerDetected;
        smoothPos := Smooth(smoothPos, RawCursor(lm, pose, layout.viewportWidth, layout.viewportHeight));
        ghost var p := Cursor(s0.smoothPos, lm, layout);
        ghost var s1 := s0.(isPointerMode := pointerDetected, smoothPos := p);
        assert State() == s1;
        StepKeepsConsistent(s0, frame, now, layout);

        if pointerDetected {
          assert Step(s0, frame, now, layout) == PointerStep(s1, p, now, layout);
          effects := PointerPass(now, layout);
        } else {
          assert Step(s0, frame, now, layout) == GrabStep(s1, pose, p, layout);
          effects := GrabPass(pose == Fist, layout);
        }
    }

    /** The pointer branch of a pass, at the cursor already in `smoothPos`. */
    method PointerPass(now: int, layout: Layout) returns (effects: seq<Effect>)
      modifies this
      ensures active == old(active)
      ensures TickResult(State(), effects) == PointerStep(old(State()), old(smoothPos), now, layout)
    {
      effects := [];
      var x, y := smoothPos.x, smoothPos.y;
      grabbedTaskId := None;
      highlightedTaskId := None;
      if DistSq(Point(x, y), lastSteadyPos) > Sq(StillnessThreshold) {
        dwellStart := Some(now);
        lastSteadyPos := Point(x, y);
        targetElementId := None;
      } else {
        var elapsed := now - (if dwellStart.Some? && dwellStart.value != 0 then dwellStart.value else now);
        targetElementId :=
          if layout.elementUnder.Some? && IsSet(layout.interactiveId) then layout.interactiveId else None;
        if elapsed >= DwellDuration && dwellStart.Some? {
          if layout.elementUnder.Some? && !layout.elementUnder.value.hasClick {
            // `click` is not a function here: the pass throws
            return;
          }
          if layout.elementUnder.Some? {
            var el := layout.elementUnder.value;
            effects := [Click(el)];
            if el.isTextField {
              effects := effects + [Focus(el)];
            }
          }
          dwellStart := Some(now);
        }
      }
    }

    /** The grab branch of a pass (fist or open hand), at the cursor already
        in `smoothPos`. */
    method GrabPass(isFist: bool, layout: Layout) returns (effects: seq<Effect>)
      modifies this
      ensures active == old(active)
      ensures TickResult(State(), effects)
           == GrabStep(old(State()), if isFist then Fist else Open, old(smoothPos), layout)
    {
      effects := [];
      var x, y := smoothPos.x, smoothPos.y;
      targetElementId := None;
      var grabbedAtStart, columnAtStart := grabbedTaskId, targetColumn;
      dwellStart := None;
      if !isFist {
        if IsSet(grabbedAtStart) {
          if columnAtStart.Some? {
            effects := [Drop(grabbedAtStart.value, columnAtStart.value)];
          }
          grabbedTaskId := None;
        }
        highlightedTaskId := FindNearest(layout.cards, Point(x, y));
      }
      if isFist && !IsSet(grabbedAtStart) {
        if IsSet(highlightedTaskId) {
          grabbedTaskId := highlightedTaskId;
        }
      }
      targetColumn := FindColumn(layout.columns, x);
    }
  }
}
