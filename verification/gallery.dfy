/** The interactive gallery carousel: a circular index over a fixed list of
    images, drag gestures with a smoothed velocity, a momentum policy that turns
    a release into zero to four steps, auto-advance, card and dot clicks.

    Every callback is modelled as a pure transition on a `Carousel` record. The
    callbacks the source defers with `setTimeout` are returned as `Timer`s in
    the order they fire, and `Flush` runs them one after the other. */
module Gallery {
  import opened Wrappers
  import opened JsNumber
  import opened Circular

  const StandardDuration := 500
  const MomentumDuration := 300
  const StepDelay := 150
  const RestoreDelay := 300
  const ClickGuardDelay := 100
  const TouchHoverDelay := 3000

  /** A pointer that moved more than this from where it went down makes the
      following click a drag, not a click. */
  const ClickSlop: real := 5.0
  /** Velocities (pixels per millisecond) above this decide the direction. */
  const DirectionThreshold: real := 0.2
  const MediumFlick: real := 0.6
  const FastFlick: real := 1.5
  const VeryFastFlick: real := 2.5
  /** A slow drag still moves one image when it covered more than this many pixels. */
  const DistanceThreshold: real := 50.0
  /** Weight of the newest sample in the velocity low-pass filter. */
  const NewSampleWeight: real := 0.7

  datatype DragInfo = DragInfo(isDragging: bool, startX: real, currentX: real)

  const Released := DragInfo(false, 0.0, 0.0)

  /** The component's state and refs. `len` is `images.length`; `lastDragX`,
      `lastDragTime` and `velocity` are the refs of the velocity filter. */
  datatype Carousel = Carousel(
    len: nat,
    currentIndex: int,
    drag: DragInfo,
    hovered: bool,
    transitionDuration: int,
    wasDragged: bool,
    lastDragX: real,
    lastDragTime: int,
    velocity: real)

  predicate Valid(c: Carousel) {
    InRange(c.currentIndex, c.len)
  }

  function Init(len: nat): (c: Carousel)
    requires len > 0
    ensures Valid(c) && c.currentIndex == 0 && c.transitionDuration == StandardDuration
    ensures !c.drag.isDragging && !c.hovered && !c.wasDragged
  {
    Carousel(len, 0, Released, false, StandardDuration, false, 0.0, 0, 0.0)
  }

  // ---------------------------------------------------------------------------
  // Circular navigation and relative position
  // ---------------------------------------------------------------------------

  function HandleNext(c: Carousel): (r: Carousel)
    requires Valid(c)
    ensures Valid(r) && r == c.(currentIndex := Next(c.currentIndex, c.len))
  {
    c.(currentIndex := Next(c.currentIndex, c.len))
  }

  function HandlePrev(c: Carousel): (r: Carousel)
    requires Valid(c)
    ensures Valid(r) && r == c.(currentIndex := Prev(c.currentIndex, c.len))
  {
    c.(currentIndex := Prev(c.currentIndex, c.len))
  }

  function Move(c: Carousel, d: Direction): (r: Carousel)
    requires Valid(c)
    ensures Valid(r) && r == c.(currentIndex := Step(c.currentIndex, c.len, d))
  {
    if d == Forward then HandleNext(c) else HandlePrev(c)
  }

  /** `getOffset`: the signed circular distance from the current image to
      `index`. The difference is reduced with the truncating `%` and then moved
      into the half-open window by comparing with the real number `len / 2`.
      Because the truncating remainder keeps the sign of the difference, an
      even-length gallery yields both `len/2` and `-len/2`. */
  function Offset(c: Carousel, index: int): (r: int)
    requires Valid(c) && InRange(index, c.len)
    ensures var k := index - c.currentIndex; r == k || r == k - c.len || r == k + c.len
    ensures Abs(2 * r) <= c.len
    ensures r == 0 <==> index == c.currentIndex
    ensures 2 * r == c.len ==> c.currentIndex < index
    ensures 2 * r + c.len == 0 ==> index < c.currentIndex
  {
    var len := c.len;
    var diff := Rem(index - c.currentIndex, len);
    var d1 := if diff as real > len as real / 2.0 then diff - len else diff;
    if (d1 as real) < -(len as real) / 2.0 then d1 + len else d1
  }

  /** The card one place to the right of centre is the next image and the one
      to the left is the previous image. */
  lemma {:induction false} NeighbourOffsets(c: Carousel, index: int)
    requires Valid(c) && InRange(index, c.len)
    ensures Offset(c, index) == 1 ==> index == Next(c.currentIndex, c.len)
    ensures Offset(c, index) == -1 ==> index == Prev(c.currentIndex, c.len)
  {
    var r := Offset(c, index);
    var k := index - c.currentIndex;
    assert r == k || r == k - c.len || r == k + c.len;
  }

  /** Both half-way offsets occur in an even-length gallery; with a Euclidean
      `%` the second would be +2. */
  lemma EvenLengthHalfWay()
    ensures Offset(Init(4).(currentIndex := 0), 2) == 2
    ensures Offset(Init(4).(currentIndex := 2), 0) == -2
  {
  }

  // ---------------------------------------------------------------------------
  // Momentum policy
  // ---------------------------------------------------------------------------

  /** The direction of a release: the smoothed velocity decides when it is
      significant, otherwise the sign of the drag distance. Dragging left
      (negative) goes forward. */
  function MoveDirection(velocity: real, distance: real): (d: Direction)
    ensures RealAbs(velocity) > DirectionThreshold ==> (d == Forward <==> velocity < 0.0)
    ensures RealAbs(velocity) <= DirectionThreshold ==> (d == Forward <==> distance < 0.0)
  {
    if RealAbs(velocity) > DirectionThreshold then
      (if velocity < 0.0 then Forward else Backward)
    else
      (if distance < 0.0 then Forward else Backward)
  }

  /** How many images a release moves: 4, 3 or 2 by speed, else 1 for a drag
      longer than the distance threshold, else 0 (snap back). */
  function MomentumSteps(absVel: real, absDist: real): (s: nat)
    ensures s <= 4
    ensures s == 4 <==> absVel > VeryFastFlick
    ensures s == 3 <==> FastFlick < absVel <= VeryFastFlick
    ensures s == 2 <==> MediumFlick < absVel <= FastFlick
    ensures s == 1 <==> absVel <= MediumFlick && absDist > DistanceThreshold
    ensures s == 0 <==> absVel <= MediumFlick && absDist <= DistanceThreshold
  {
    if absVel > VeryFastFlick then 4
    else if absVel > FastFlick then 3
    else if absVel > MediumFlick then 2
    else if absDist > DistanceThreshold then 1
    else 0
  }

  /** A faster release never moves fewer images. */
  lemma StepsMonotoneInVelocity(v1: real, v2: real, dist: real)
    requires v1 <= v2
    ensures MomentumSteps(v1, dist) <= MomentumSteps(v2, dist)
  {
  }

  /** A longer drag never moves fewer images. */
  lemma StepsMonotoneInDistance(v: real, d1: real, d2: real)
    requires d1 <= d2
    ensures MomentumSteps(v, d1) <= MomentumSteps(v, d2)
  {
  }

  lemma MomentumExamples()
    ensures MomentumSteps(3.0, 0.0) == 4
    ensures MomentumSteps(2.0, 0.0) == 3
    ensures MomentumSteps(1.0, 0.0) == 2
    ensures MomentumSteps(0.3, 60.0) == 1
    ensures MomentumSteps(0.1, 10.0) == 0
    ensures MoveDirection(0.1, 0.0) == Backward
  {
  }

  // ---------------------------------------------------------------------------
  // Deferred callbacks
  // ---------------------------------------------------------------------------

  /** What a deferred callback does when it fires. */
  datatype Action =
    | StepTick(dir: Direction)   // a momentum tick: handleNext or handlePrev
    | RestoreDuration            // setTransitionDuration(500)
    | ClearWasDragged            // wasDragged.current = false
    | EndHover                   // setIsHovered(false) after a touch

  /** A callback due `at` milliseconds after the event that scheduled it. */
  datatype Timer = Timer(at: nat, action: Action)

  datatype Outcome = Outcome(carousel: Carousel, pending: seq<Timer>)

  predicate InFiringOrder(ts: seq<Timer>) {
    forall i, j :: 0 <= i < j < |ts| ==> ts[i].at < ts[j].at
  }

  function Fire(c: Carousel, a: Action): (r: Carousel)
    requires Valid(c)
    ensures Valid(r) && r.len == c.len && r.drag == c.drag
  {
    match a
    case StepTick(d) => Move(c, d)
    case RestoreDuration => c.(transitionDuration := StandardDuration)
    case ClearWasDragged => c.(wasDragged := false)
    case EndHover => c.(hovered := false)
  }

  /** Runs the pending callbacks in order. */
  function Flush(c: Carousel, ts: seq<Timer>): (r: Carousel)
    requires Valid(c)
    ensures Valid(r) && r.len == c.len && r.drag == c.drag
    decreases |ts|
  {
    if |ts| == 0 then c else Flush(Fire(c, ts[0].action), ts[1..])
  }

  /** The directions of the momentum ticks among the pending callbacks. */
  function Ticks(ts: seq<Timer>): (ds: seq<Direction>)
    ensures |ds| <= |ts|
  {
    if |ts| == 0 then []
    else (if ts[0].action.StepTick? then [ts[0].action.dir] else []) + Ticks(ts[1..])
  }

  /** Ticks two to `steps`, 150 ms apart (the first tick runs at once). */
  function TickTimers(dir: Direction, count: nat): (ts: seq<Timer>)
    ensures |ts| == count
    ensures forall i :: 0 <= i < count ==> ts[i] == Timer(StepDelay * (i + 1), StepTick(dir))
  {
    seq(count, i requires 0 <= i < count => Timer(StepDelay * (i + 1), StepTick(dir)))
  }

  // ---------------------------------------------------------------------------
  // Drag gestures
  // ---------------------------------------------------------------------------

  /** `handleDragStart`: begins a drag at `x`; velocity and duration reset. */
  function DragStart(c: Carousel, x: real, now: int): (r: Carousel)
    requires Valid(c)
    ensures Valid(r) && r.len == c.len && r.currentIndex == c.currentIndex && r.hovered == c.hovered
    ensures r.drag == DragInfo(true, x, x) && !r.wasDragged
    ensures r.lastDragX == x && r.lastDragTime == now
    ensures r.velocity == 0.0 && r.transitionDuration == 0
  {
    c.(drag := DragInfo(true, x, x), wasDragged := false,
       lastDragX := x, lastDragTime := now, velocity := 0.0,
       transitionDuration := 0)
  }

  /** `handleDragMove`: ignored unless dragging. With positive elapsed time the
      velocity becomes 0.7 times the instantaneous velocity plus 0.3 times the
      old one; with none it is kept (no division by zero). */
  function DragMove(c: Carousel, x: real, now: int): (r: Carousel)
    requires Valid(c)
    ensures Valid(r) && r.currentIndex == c.currentIndex && r.transitionDuration == c.transitionDuration
    ensures !c.drag.isDragging ==> r == c
    ensures c.drag.isDragging ==> r.drag == c.drag.(currentX := x)
    ensures c.drag.isDragging ==>
      && r.lastDragX == x && r.lastDragTime == now
      && r.hovered == c.hovered && r.len == c.len
    ensures c.drag.isDragging && now - c.lastDragTime <= 0 ==> r.velocity == c.velocity
    ensures c.drag.isDragging && now - c.lastDragTime > 0 ==>
      var inst := (x - c.lastDragX) / (now - c.lastDragTime) as real;
      && r.velocity - c.velocity == NewSampleWeight * (inst - c.velocity)
      && RealAbs(r.velocity) <= if RealAbs(inst) < RealAbs(c.velocity) then RealAbs(c.velocity) else RealAbs(inst)
    ensures c.drag.isDragging ==> (r.wasDragged <==> c.wasDragged || RealAbs(x - c.drag.startX) > ClickSlop)
  {
    if !c.drag.isDragging then c
    else
      var dt := now - c.lastDragTime;
      var dx := x - c.lastDragX;
      var v := if dt > 0 then 0.7 * (dx / dt as real) + 0.3 * c.velocity else c.velocity;
      c.(velocity := v, lastDragTime := now, lastDragX := x,
         wasDragged := c.wasDragged || RealAbs(x - c.drag.startX) > ClickSlop,
         drag := c.drag.(currentX := x))
  }

  /** A pointer sample: position and abstract timestamp. */
  datatype Sample = Sample(x: real, time: int)

  function DragMoves(c: Carousel, samples: seq<Sample>): (r: Carousel)
    requires Valid(c)
    ensures Valid(r) && r.currentIndex == c.currentIndex
    decreases |samples|
  {
    if |samples| == 0 then c
    else DragMoves(DragMove(c, samples[0].x, samples[0].time), samples[1..])
  }

  /** After a drag that started at `x0`, the drag follows the last sample, and a
      click is suppressed exactly when some sample strayed more than 5 pixels. */
  lemma {:induction false} GestureTracksPointer(c: Carousel, x0: real, samples: seq<Sample>)
    requires Valid(c) && c.drag.isDragging && c.drag.startX == x0
    ensures DragMoves(c, samples).drag.isDragging
    ensures DragMoves(c, samples).drag.startX == x0
    ensures |samples| > 0 ==> DragMoves(c, samples).drag.currentX == samples[|samples| - 1].x
    ensures DragMoves(c, samples).wasDragged <==>
      c.wasDragged || exists i :: 0 <= i < |samples| && RealAbs(samples[i].x - x0) > ClickSlop
    decreases |samples|
  {
    if |samples| > 0 {
      var c' := DragMove(c, samples[0].x, samples[0].time);
      GestureTracksPointer(c', x0, samples[1..]);
      if |samples| > 1 {
        assert samples[1..][|samples| - 2] == samples[|samples| - 1];
      }
      if c'.wasDragged && !c.wasDragged {
        assert RealAbs(samples[0].x - x0) > ClickSlop;
      }
      if exists i :: 1 <= i < |samples| && RealAbs(samples[i].x - x0) > ClickSlop {
        var i :| 1 <= i < |samples| && RealAbs(samples[i].x - x0) > ClickSlop;
        assert samples[1..][i - 1] == samples[i];
      }
      if exists i :: 0 <= i < |samples[1..]| && RealAbs(samples[1..][i].x - x0) > ClickSlop {
        var i :| 0 <= i < |samples[1..]| && RealAbs(samples[1..][i].x - x0) > ClickSlop;
        assert samples[i + 1] == samples[1..][i];
      }
    }
  }

  /** The direction and step count a release of `c` produces. */
  function Plan(c: Carousel): (Direction, nat) {
    var distance := c.drag.currentX - c.drag.startX;
    (MoveDirection(c.velocity, distance), MomentumSteps(RealAbs(c.velocity), RealAbs(distance)))
  }

  /** `handleDragEnd`: ignored unless dragging. Releases the drag, then either
      runs the first momentum tick at once (transition 300 ms) and schedules the
      remaining ticks 150 ms apart and the return to 500 ms after the last, or,
      with no step, snaps back with a 500 ms transition. The click guard is
      cleared 100 ms later in both cases. */
  function DragEnd(c: Carousel): (r: Outcome)
    requires Valid(c)
    ensures Valid(r.carousel) && r.carousel.len == c.len
    ensures !c.drag.isDragging ==> r == Outcome(c, [])
    ensures c.drag.isDragging ==> r.carousel.drag == Released
    ensures c.drag.isDragging ==>
      r.carousel.(drag := c.drag, transitionDuration := c.transitionDuration, currentIndex := c.currentIndex) == c
    ensures InFiringOrder(r.pending)
    ensures c.drag.isDragging && Plan(c).1 > 0 ==>
      && r.carousel.transitionDuration == MomentumDuration
      && r.carousel.currentIndex == Step(c.currentIndex, c.len, Plan(c).0)
      && Ticks(r.pending) == seq(Plan(c).1 - 1, _ => Plan(c).0)
    ensures c.drag.isDragging && Plan(c).1 == 0 ==>
      && r.carousel.transitionDuration == StandardDuration
      && r.carousel.currentIndex == c.currentIndex
      && Ticks(r.pending) == []
  {
    if !c.drag.isDragging then Outcome(c, [])
    else
      var (dir, steps) := Plan(c);
      var released := c.(drag := Released);
      ReleaseTimersShape(dir, steps);
      if steps > 0 then
        Outcome(Move(released.(transitionDuration := MomentumDuration), dir), ReleaseTimers(dir, steps))
      else
        Outcome(released.(transitionDuration := StandardDuration), ReleaseTimers(dir, steps))
  }

  /** The callbacks a release schedules: the click-guard reset after 100 ms and,
      when there is momentum, ticks two to `steps` followed by the return to the
      standard duration 300 ms after the last tick. */
  function ReleaseTimers(dir: Direction, steps: nat): (ts: seq<Timer>)
    ensures |ts| > 0 && ts[0] == Timer(ClickGuardDelay, ClearWasDragged)
  {
    var guard := Timer(ClickGuardDelay, ClearWasDragged);
    if steps > 0 then
      [guard] + TickTimers(dir, steps - 1) + [Timer(StepDelay * (steps - 1) + RestoreDelay, RestoreDuration)]
    else
      [guard]
  }

  lemma ReleaseTimersShape(dir: Direction, steps: nat)
    ensures InFiringOrder(ReleaseTimers(dir, steps))
    ensures Ticks(ReleaseTimers(dir, steps)) == seq(if steps > 0 then steps - 1 else 0, _ => dir)
  {
    if steps > 0 {
      TicksOfMomentum(Timer(ClickGuardDelay, ClearWasDragged), TickTimers(dir, steps - 1),
        Timer(StepDelay * (steps - 1) + RestoreDelay, RestoreDuration), dir);
    }
  }

  lemma TicksOfMomentum(guard: Timer, ticks: seq<Timer>, restore: Timer, dir: Direction)
    requires !guard.action.StepTick? && !restore.action.StepTick?
    requires forall i :: 0 <= i < |ticks| ==> ticks[i].action == StepTick(dir)
    ensures Ticks([guard] + ticks + [restore]) == seq(|ticks|, _ => dir)
  {
    TicksAppend([guard], ticks + [restore]);
    TicksAppend(ticks, [restore]);
    TicksUniform(ticks, dir);
    assert [guard] + ticks + [restore] == [guard] + (ticks + [restore]);
  }

  lemma {:induction false} TicksAppend(a: seq<Timer>, b: seq<Timer>)
    ensures Ticks(a + b) == Ticks(a) + Ticks(b)
    decreases |a|
  {
    if |a| > 0 {
      var head := if a[0].action.StepTick? then [a[0].action.dir] else [];
      assert (a + b)[0] == a[0];
      assert (a + b)[1..] == a[1..] + b;
      TicksAppend(a[1..], b);
      assert Ticks(a + b) == head + Ticks(a[1..] + b);
      assert Ticks(a) == head + Ticks(a[1..]);
    } else {
      assert a + b == b;
    }
  }

  lemma {:induction false} TicksUniform(ticks: seq<Timer>, dir: Direction)
    requires forall i :: 0 <= i < |ticks| ==> ticks[i].action == StepTick(dir)
    ensures Ticks(ticks) == seq(|ticks|, _ => dir)
    decreases |ticks|
  {
    if |ticks| > 0 {
      TicksUniform(ticks[1..], dir);
    }
  }

  /** Running momentum ticks followed by the duration reset walks the index
      `count` steps. */
  lemma {:induction false} FlushShiftedTicks(c: Carousel, dir: Direction, count: nat, ts: seq<Timer>, last: Timer)
    requires Valid(c)
    requires |ts| == count + 1 && ts[count] == last && last.action == RestoreDuration
    requires forall i :: 0 <= i < count ==> ts[i].action == StepTick(dir)
    ensures Flush(c, ts).currentIndex == Walk(c.currentIndex, c.len, dir, count)
    ensures Flush(c, ts).transitionDuration == StandardDuration
    ensures Flush(c, ts).wasDragged == c.wasDragged
    decreases count
  {
    if count > 0 {
      FlushShiftedTicks(Move(c, dir), dir, count - 1, ts[1..], last);
    } else {
      assert ts[1..] == [];
    }
  }

  /** The effect of a whole release once every deferred callback has run: with
      `steps > 0` the index moves `steps` places in the chosen direction, the
      duration is back to 500 ms and the click guard is cleared; with no step
      the index is unchanged. */
  lemma {:induction false} ReleaseSettles(c: Carousel)
    requires Valid(c) && c.drag.isDragging
    ensures var settled := Flush(DragEnd(c).carousel, DragEnd(c).pending);
      && settled.currentIndex == (c.currentIndex + Delta(Plan(c).0) * Plan(c).1) % c.len
      && settled.transitionDuration == StandardDuration
      && !settled.wasDragged
      && settled.drag == Released
  {
    if Plan(c).1 > 0 {
      ReleaseWithMomentum(c);
    } else {
      ReleaseWithoutMomentum(c);
      assert c.currentIndex % c.len == c.currentIndex;
    }
  }

  lemma ReleaseWithMomentum(c: Carousel)
    requires Valid(c) && c.drag.isDragging && Plan(c).1 > 0
    ensures var settled := Flush(DragEnd(c).carousel, DragEnd(c).pending);
      && settled.currentIndex == (c.currentIndex + Delta(Plan(c).0) * Plan(c).1) % c.len
      && settled.transitionDuration == StandardDuration
      && !settled.wasDragged
      && settled.drag == Released
  {
    var (dir, steps) := Plan(c);
    var start := c.(drag := Released, transitionDuration := MomentumDuration);
    assert DragEnd(c) == Outcome(Move(start, dir), ReleaseTimers(dir, steps));
    SettleMomentum(start, dir, steps);
    WalkIsModular(c.currentIndex, c.len, dir, steps);
  }

  lemma ReleaseWithoutMomentum(c: Carousel)
    requires Valid(c) && c.drag.isDragging && Plan(c).1 == 0
    ensures var settled := Flush(DragEnd(c).carousel, DragEnd(c).pending);
      && settled.currentIndex == c.currentIndex
      && settled.transitionDuration == StandardDuration
      && !settled.wasDragged
      && settled.drag == Released
  {
    var start := c.(drag := Released, transitionDuration := StandardDuration);
    assert DragEnd(c) == Outcome(start, ReleaseTimers(Plan(c).0, 0));
    SettleSnap(start, Plan(c).0);
  }

  lemma SettleMomentum(start: Carousel, dir: Direction, steps: nat)
    requires Valid(start) && steps > 0
    ensures var settled := Flush(Move(start, dir), ReleaseTimers(dir, steps));
      && settled.currentIndex == Walk(start.currentIndex, start.len, dir, steps)
      && settled.transitionDuration == StandardDuration
      && !settled.wasDragged
      && settled.drag == start.drag
  {
    var ts := ReleaseTimers(dir, steps);
    var restore := Timer(StepDelay * (steps - 1) + RestoreDelay, RestoreDuration);
    var rest := TickTimers(dir, steps - 1) + [restore];
    assert ts[1..] == rest;
    var afterGuard := Fire(Move(start, dir), ClearWasDragged);
    assert Flush(Move(start, dir), ts) == Flush(afterGuard, rest);
    FlushShiftedTicks(afterGuard, dir, steps - 1, rest, restore);
  }

  lemma SettleSnap(start: Carousel, dir: Direction)
    requires Valid(start) && start.transitionDuration == StandardDuration
    ensures var settled := Flush(start, ReleaseTimers(dir, 0));
      settled == start.(wasDragged := false)
  {
    var ts := ReleaseTimers(dir, 0);
    assert ts[1..] == [];
  }

  /** A tap (press and release without moving) never navigates. */
  lemma TapDoesNotNavigate(c: Carousel, x: real, now: int)
    requires Valid(c)
    ensures Plan(DragStart(c, x, now)).1 == 0
    ensures DragEnd(DragStart(c, x, now)).carousel.currentIndex == c.currentIndex
  {
  }

  // ---------------------------------------------------------------------------
  // Pointer, hover and click handlers
  // ---------------------------------------------------------------------------

  /** Auto-advance runs only while the carousel is neither dragged nor hovered. */
  predicate AutoAdvanceArmed(c: Carousel) {
    !c.drag.isDragging && !c.hovered
  }

  /** One tick of the three-second auto-advance interval. */
  function AutoAdvance(c: Carousel): (r: Carousel)
    requires Valid(c)
    ensures Valid(r)
    ensures AutoAdvanceArmed(c) ==>
      r.currentIndex == Next(c.currentIndex, c.len) && r.(currentIndex := c.currentIndex) == c
    ensures !AutoAdvanceArmed(c) ==> r == c
  {
    if AutoAdvanceArmed(c) then HandleNext(c) else c
  }

  function MouseEnter(c: Carousel): (r: Carousel)
    requires Valid(c)
    ensures Valid(r) && r.hovered && !AutoAdvanceArmed(r)
    ensures r.(hovered := c.hovered) == c
  {
    c.(hovered := true)
  }

  /** Leaving the carousel un-hovers it and ends a drag that is in progress:
      apart from the hover flag, the outcome is exactly the release's. */
  function MouseLeave(c: Carousel): (r: Outcome)
    requires Valid(c)
    ensures Valid(r.carousel) && !r.carousel.hovered && !r.carousel.drag.isDragging
    ensures AutoAdvanceArmed(r.carousel)
    ensures r.carousel.(hovered := c.hovered) == DragEnd(c).carousel
    ensures r.pending == DragEnd(c).pending
  {
    DragEnd(c.(hovered := false))
  }

  /** A touch hovers the carousel and starts a drag as a mouse press does. */
  function TouchStart(c: Carousel, x: real, now: int): (r: Carousel)
    requires Valid(c)
    ensures Valid(r) && r.hovered && r.drag == DragInfo(true, x, x)
    ensures r.currentIndex == c.currentIndex && r.len == c.len && !r.wasDragged
    ensures r.velocity == 0.0 && r.transitionDuration == 0
    ensures r.lastDragX == x && r.lastDragTime == now
    ensures r.(hovered := c.hovered) == DragStart(c, x, now)
  {
    DragStart(c.(hovered := true), x, now)
  }

  /** Lifting a finger ends the drag and un-hovers three seconds later, after
      every momentum callback. */
  function TouchEnd(c: Carousel): (r: Outcome)
    requires Valid(c)
    ensures Valid(r.carousel) && !r.carousel.drag.isDragging
    ensures InFiringOrder(r.pending)
    ensures |r.pending| > 0 && r.pending[|r.pending| - 1] == Timer(TouchHoverDelay, EndHover)
    ensures r.carousel == DragEnd(c).carousel && r.pending[..|r.pending| - 1] == DragEnd(c).pending
  {
    var o := DragEnd(c);
    PendingBefore(c, o);
    Outcome(o.carousel, o.pending + [Timer(TouchHoverDelay, EndHover)])
  }

  lemma PendingBefore(c: Carousel, o: Outcome)
    requires Valid(c) && o == DragEnd(c)
    ensures forall i :: 0 <= i < |o.pending| ==> o.pending[i].at < TouchHoverDelay
  {
  }

  datatype Click = Click(carousel: Carousel, selected: Option<int>)

  /** `handleCardClick(index, offset)`: ignored right after a drag. The centre
      card opens the lightbox on `index`, its neighbours step the carousel,
      any other card does nothing. */
  function CardClick(c: Carousel, index: int, offset: int): (r: Click)
    requires Valid(c) && InRange(index, c.len)
    ensures Valid(r.carousel)
    ensures c.wasDragged ==> r == Click(c, None)
    ensures r.selected.Some? <==> !c.wasDragged && offset == 0
    ensures r.selected.Some? ==> r.selected.value == index && r.carousel == c
    ensures !c.wasDragged && offset == 1 ==>
      r.carousel == c.(transitionDuration := StandardDuration, currentIndex := Next(c.currentIndex, c.len))
    ensures !c.wasDragged && offset == -1 ==>
      r.carousel == c.(transitionDuration := StandardDuration, currentIndex := Prev(c.currentIndex, c.len))
    ensures offset != 0 && offset != 1 && offset != -1 ==> r == Click(c, None)
  {
    if c.wasDragged then Click(c, None)
    else if offset == 0 then Click(c, Some(index))
    else if offset == -1 then Click(HandlePrev(c.(transitionDuration := StandardDuration)), None)
    else if offset == 1 then Click(HandleNext(c.(transitionDuration := StandardDuration)), None)
    else Click(c, None)
  }

  /** Clicking a neighbour card, with the offset the carousel rendered it at,
      brings exactly that card to the centre. */
  lemma ClickNeighbourCentresIt(c: Carousel, index: int)
    requires Valid(c) && InRange(index, c.len) && !c.wasDragged
    requires Offset(c, index) == 1 || Offset(c, index) == -1
    ensures CardClick(c, index, Offset(c, index)).carousel.currentIndex == index
  {
    NeighbourOffsets(c, index);
  }

  /** A progress dot jumps straight to its image. */
  function DotClick(c: Carousel, index: int): (r: Carousel)
    requires Valid(c) && InRange(index, c.len)
    ensures Valid(r) && r.currentIndex == index && r.transitionDuration == StandardDuration
    ensures r.(currentIndex := c.currentIndex, transitionDuration := c.transitionDuration) == c
  {
    c.(transitionDuration := StandardDuration, currentIndex := index)
  }

  /** The previous/next arrow buttons. */
  function ArrowClick(c: Carousel, d: Direction): (r: Carousel)
    requires Valid(c)
    ensures Valid(r) && r.currentIndex == Step(c.currentIndex, c.len, d)
    ensures r.transitionDuration == StandardDuration
    ensures r.(currentIndex := c.currentIndex, transitionDuration := c.transitionDuration) == c
  {
    Move(c.(transitionDuration := StandardDuration), d)
  }
}
