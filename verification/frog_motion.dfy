/**
 * The per-frog animation state machine of `tick` (src/script.js, `updateEntering`)
 * and the entry transitions the day/night button and the model load set up.
 *
 * The source keeps an `entering` flag and a `phase` string in `userData`.
 * Every write that starts or ends a motion sets both; the end of the hop
 * changes only `phase` while `entering` stays true, and the load clears
 * `entering` on a mesh that never had a phase. So the pair is one `Motion`
 * value here, and the parameters a phase reads (`hopStart`, `baseY`, `walkStart`, `walkDuration`,
 * `speed`, `slideDir`) live in the phase that reads them.
 */
module FrogMotion {
  import opened Optional
  import opened Geometry

  /** What the walk that follows a hop will do; fixed when the hop starts. */
  datatype WalkPlan = WalkPlan(duration: real, speed: real, dir: Option<Vec3>)

  datatype Motion =
    | Idle
    | Hop(start: real, baseY: real, walk: WalkPlan)
    | WalkBack(start: real, walk: WalkPlan)
    | SlideOut(baseY: real)

  /** A bound frog mesh: its position, the position recorded at load, and its motion. */
  datatype Frog = Frog(pos: Vec3, home: Option<Vec3>, motion: Motion)

  /** One clock reading per tick: `clock.getElapsedTime()` and `clock.getDelta()`. */
  datatype Sample = Sample(now: real, delta: real)

  /*
   * Factors that multiply or divide (the hop's 0.6 s and 0.15 height, the
   * slide's 0.5 speed, Math.PI) are written as literals in the formulas that
   * use them, so that the products stay linear for the verifier.
   */

  /** The floor `Math.max(delta, 0.016)` puts under the frame time. */
  const MinDelta: real := 0.016
  const SnapDistance: real := 0.02
  /** The walk direction used when `slideDir` is unset. */
  const DefaultWalkDir := Vec3(0.0, 0.0, -1.0)

  /** The plan the day/night button gives a frog entering the night. */
  const NightWalkDuration: real := 1.8
  const NightWalkSpeed: real := 0.4
  /** The plan the load callback gives a frog when the scene is already at night. */
  const LoadWalkDuration: real := 2.0
  const LoadWalkSpeed: real := 0.8

  function SafeDelta(delta: real): (r: real)
    ensures r >= MinDelta && r >= delta
  {
    Max(delta, MinDelta)
  }

  /** The floored frame time is exactly `Math.max(delta, 0.016)`. */
  lemma SafeDeltaIsMax(delta: real)
    ensures delta >= 0.016 ==> SafeDelta(delta) == delta
    ensures delta < 0.016 ==> SafeDelta(delta) == 0.016
  {
  }

  /** `t` of the hop: the elapsed fraction of the hop, capped at 1. */
  function HopProgress(now: real, start: real): (t: real)
    ensures t <= 1.0
    ensures now >= start ==> 0.0 <= t
    ensures t == 1.0 <==> now - start >= 0.6
  {
    Min(1.0, (now - start) / 0.6)
  }

  function WalkDir(plan: WalkPlan): Vec3 {
    plan.dir.GetOr(DefaultWalkDir)
  }

  /** The `hop` branch: a sine arc over `baseY`, then on to `walkBack`. */
  function StepHop(f: Frog, now: real, m: Maths): (r: Frog)
    requires f.motion.Hop?
    ensures r.pos.x == f.pos.x && r.pos.z == f.pos.z && r.home == f.home
    ensures r.motion.Hop? || r.motion.WalkBack?
    ensures r.motion.WalkBack? <==> now - f.motion.start >= 0.6
    ensures r.motion.WalkBack? ==> r.motion == WalkBack(now, f.motion.walk) && r.pos.y == f.motion.baseY
    ensures r.motion.Hop? ==> r.motion == f.motion
    ensures m.Valid() && now >= f.motion.start ==>
              f.motion.baseY <= r.pos.y <= f.motion.baseY + 0.15
  {
    var t := HopProgress(now, f.motion.start);
    var y := f.motion.baseY + m.sin(t * 3.141592653589793) * 0.15;
    if t >= 1.0 then
      Frog(f.pos.(y := f.motion.baseY), f.home, WalkBack(now, f.motion.walk))
    else
      Frog(f.pos.(y := y), f.home, f.motion)
  }

  /** The `walkBack` branch: a fixed step along the walk direction, then idle once time is up. */
  function StepWalk(f: Frog, now: real, delta: real): (r: Frog)
    requires f.motion.WalkBack?
    ensures r.home == f.home
    ensures r.pos == AddScaled(f.pos, WalkDir(f.motion.walk), f.motion.walk.speed * SafeDelta(delta))
    ensures r.motion.Idle? <==> now - f.motion.start > f.motion.walk.duration
    ensures !r.motion.Idle? ==> r.motion == f.motion
  {
    var plan := f.motion.walk;
    var pos := AddScaled(f.pos, WalkDir(plan), plan.speed * SafeDelta(delta));
    if now - f.motion.start > plan.duration then Frog(pos, f.home, Idle)
    else Frog(pos, f.home, f.motion)
  }

  /** The `slideOut` branch: glide horizontally home at a fixed speed, snapping once close. */
  function StepSlide(f: Frog, delta: real, m: Maths): (r: Frog)
    requires f.motion.SlideOut?
    ensures r.home == f.home
    ensures r.motion.Idle? || r.motion == f.motion
    ensures f.home.None? ==> r == f.(motion := Idle)
    ensures f.home.Some? ==>
              (r.motion.Idle? <==> FlatDistance(f.pos, f.home.value, m) <= SnapDistance)
    ensures f.home.Some? && r.motion.Idle? ==>
              r.pos == Vec3(f.home.value.x, f.motion.baseY, f.home.value.z)
    ensures r.motion == f.motion ==> r.pos.y == f.pos.y
  {
    match f.home
    case None => f.(motion := Idle)
    case Some(target) =>
      var toTarget := FlatOffset(f.pos, target);
      if Length(toTarget, m) > SnapDistance then
        f.(pos := AddScaled(f.pos, Normalize(toTarget, m), 0.5 * SafeDelta(delta)))
      else
        Frog(Vec3(target.x, f.motion.baseY, target.z), f.home, Idle)
  }

  /** `updateEntering`: one tick of one frog. */
  function StepFrog(f: Frog, now: real, delta: real, m: Maths): (r: Frog)
    ensures r.home == f.home
    ensures f.motion.Idle? ==> r == f
    ensures f.motion.Hop? ==> !r.motion.Idle?
  {
    match f.motion
    case Idle => f
    case Hop(_, _, _) => StepHop(f, now, m)
    case WalkBack(_, _) => StepWalk(f, now, delta)
    case SlideOut(_) => StepSlide(f, delta, m)
  }

  /** A sequence of ticks, oldest first. */
  function Run(f: Frog, ticks: seq<Sample>, m: Maths): Frog
    decreases |ticks|
  {
    if |ticks| == 0 then f
    else Run(StepFrog(f, ticks[0].now, ticks[0].delta, m), ticks[1..], m)
  }

  /** `startEnter` of the day/night button: hop now, then walk towards the origin. */
  function EnterNight(f: Frog, now: real, m: Maths): (r: Frog)
    ensures r.pos == f.pos && r.home == f.home
    ensures r.motion.Hop? && r.motion.start == now && r.motion.baseY == f.pos.y
    ensures r.motion.walk.duration == NightWalkDuration && r.motion.walk.speed == NightWalkSpeed
  {
    var dir := Normalize(Vec3(0.0 - f.pos.x, 0.0, 0.0 - f.pos.z), m);
    f.(motion := Hop(now, f.pos.y, WalkPlan(NightWalkDuration, NightWalkSpeed, Some(dir))))
  }

  /**
   * `startEnter` of the load callback: hop now, then walk against the world
   * direction the mesh faces (`getWorldDirection`, supplied as `facing`).
   */
  function EnterNightOnLoad(f: Frog, now: real, facing: Vec3, m: Maths): (r: Frog)
    ensures r.pos == f.pos && r.home == f.home
    ensures r.motion.Hop? && r.motion.start == now && r.motion.baseY == f.pos.y
    ensures r.motion.walk.duration == LoadWalkDuration && r.motion.walk.speed == LoadWalkSpeed
  {
    var dir := Normalize(Scale(facing, -1.0), m);
    f.(motion := Hop(now, f.pos.y, WalkPlan(LoadWalkDuration, LoadWalkSpeed, Some(dir))))
  }

  /** The day branch of the button: slide home if a home was recorded, else stop. */
  function EnterDay(f: Frog): (r: Frog)
    ensures r.pos == f.pos && r.home == f.home
    ensures f.home.Some? <==> r.motion.SlideOut?
    ensures r.motion.SlideOut? ==> r.motion.baseY == f.pos.y
    ensures f.home.None? ==> r.motion.Idle?
  {
    if f.home.Some? then f.(motion := SlideOut(f.pos.y)) else f.(motion := Idle)
  }

  /** An idle frog is not moved by any number of ticks. */
  lemma {:induction false} RunIdle(f: Frog, ticks: seq<Sample>, m: Maths)
    requires f.motion.Idle?
    ensures Run(f, ticks, m) == f
    decreases |ticks|
  {
    if |ticks| > 0 {
      RunIdle(f, ticks[1..], m);
    }
  }

  /** The hop leaves the ground at `baseY`. */
  lemma HopStartsAtBase(f: Frog, m: Maths)
    requires m.Valid() && f.motion.Hop?
    ensures StepFrog(f, f.motion.start, 0.0, m).pos.y == f.motion.baseY
  {
  }

  /** Half way through the hop the frog is at its highest, 0.15 above `baseY`. */
  lemma HopPeak(f: Frog, m: Maths)
    requires m.Valid() && f.motion.Hop?
    ensures StepFrog(f, f.motion.start + 0.3, 0.0, m).pos.y == f.motion.baseY + 0.15
  {
    assert HopProgress(f.motion.start + 0.3, f.motion.start) == 0.5;
    assert 0.5 * 3.141592653589793 == PI / 2.0;
  }

  /** The total of the floored frame times of a run. */
  function TotalSafeDelta(ticks: seq<Sample>): real {
    if |ticks| == 0 then 0.0 else SafeDelta(ticks[0].delta) + TotalSafeDelta(ticks[1..])
  }

  /** A sample taken while the walk is still under way. */
  predicate Walking(walkStart: real, plan: WalkPlan, s: Sample) {
    s.now - walkStart <= plan.duration
  }

  /**
   * While the walk lasts the frog moves along one fixed direction, by
   * `speed` times the floored frame times: the distance walked depends on
   * the number of frames, not on the wall-clock time.
   */
  lemma {:induction false} WalkTravel(f: Frog, ticks: seq<Sample>, m: Maths)
    requires f.motion.WalkBack?
    requires forall i :: 0 <= i < |ticks| ==> Walking(f.motion.start, f.motion.walk, ticks[i])
    ensures Run(f, ticks, m).motion == f.motion
    ensures Run(f, ticks, m).home == f.home
    ensures Run(f, ticks, m).pos == AddScaled(f.pos, WalkDir(f.motion.walk), Travelled(f.motion.walk.speed, ticks))
    ensures Travelled(f.motion.walk.speed, ticks) == f.motion.walk.speed * TotalSafeDelta(ticks)
  {
    WalkSteps(f, ticks, m);
    StepsAddUp(f.pos, f.motion.walk, ticks);
    TravelledIsSpeedTimesTime(f.motion.walk.speed, ticks);
  }

  /** The sum of the per-tick walk steps `speed * safeDelta`. */
  function Travelled(speed: real, ticks: seq<Sample>): real
    decreases |ticks|
  {
    if |ticks| == 0 then 0.0 else speed * SafeDelta(ticks[0].delta) + Travelled(speed, ticks[1..])
  }

  lemma {:induction false} TravelledIsSpeedTimesTime(speed: real, ticks: seq<Sample>)
    ensures Travelled(speed, ticks) == speed * TotalSafeDelta(ticks)
    decreases |ticks|
  {
    if |ticks| > 0 {
      TravelledIsSpeedTimesTime(speed, ticks[1..]);
      Distribute(speed, SafeDelta(ticks[0].delta), TotalSafeDelta(ticks[1..]));
    }
  }

  /** The position after one walk step per tick. */
  function Steps(p: Vec3, plan: WalkPlan, ticks: seq<Sample>): Vec3
    decreases |ticks|
  {
    if |ticks| == 0 then p
    else Steps(AddScaled(p, WalkDir(plan), plan.speed * SafeDelta(ticks[0].delta)), plan, ticks[1..])
  }

  lemma {:induction false} WalkSteps(f: Frog, ticks: seq<Sample>, m: Maths)
    requires f.motion.WalkBack?
    requires forall i :: 0 <= i < |ticks| ==> Walking(f.motion.start, f.motion.walk, ticks[i])
    ensures Run(f, ticks, m).pos == Steps(f.pos, f.motion.walk, ticks)
    ensures Run(f, ticks, m).home == f.home && Run(f, ticks, m).motion == f.motion
    decreases |ticks|
  {
    if |ticks| > 0 {
      var g := StepWalk(f, ticks[0].now, ticks[0].delta);
      assert Walking(f.motion.start, f.motion.walk, ticks[0]);
      WalkSteps(g, ticks[1..], m);
    }
  }

  lemma {:induction false} StepsAddUp(p: Vec3, plan: WalkPlan, ticks: seq<Sample>)
    ensures Steps(p, plan, ticks) == AddScaled(p, WalkDir(plan), Travelled(plan.speed, ticks))
    decreases |ticks|
  {
    if |ticks| == 0 {
      AddScaledZero(p, WalkDir(plan), Travelled(plan.speed, ticks));
    } else {
      var a := plan.speed * SafeDelta(ticks[0].delta);
      StepsAddUp(AddScaled(p, WalkDir(plan), a), plan, ticks[1..]);
      AddScaledTwice(p, WalkDir(plan), a, Travelled(plan.speed, ticks[1..]));
    }
  }

  /** Once the walk's time is up, the next tick stops the frog. */
  lemma WalkEnds(f: Frog, s: Sample, m: Maths)
    requires f.motion.WalkBack? && !Walking(f.motion.start, f.motion.walk, s)
    ensures StepFrog(f, s.now, s.delta, m).motion.Idle?
  {
  }

  /**
   * One slide tick farther than `SnapDistance` from home moves the frog
   * straight towards home by `0.5 * safeDelta`: the new horizontal distance
   * is the absolute difference of the old distance and the step.
   */
  lemma SlideStep(f: Frog, delta: real, m: Maths)
    requires m.Valid() && f.motion.SlideOut? && f.home.Some?
    requires FlatDistance(f.pos, f.home.value, m) > SnapDistance
    ensures var r := StepFrog(f, 0.0, delta, m);
            r.motion == f.motion && r.pos.y == f.pos.y &&
            FlatDistance(r.pos, f.home.value, m) ==
              Abs(FlatDistance(f.pos, f.home.value, m) - 0.5 * SafeDelta(delta))
  {
    FlatStepTowards(f.pos, f.home.value, 0.5 * SafeDelta(delta), m);
  }

  /** Frame times small enough that one slide step never passes home. */
  predicate ShortFrames(ticks: seq<Sample>) {
    forall i :: 0 <= i < |ticks| ==> ticks[i].delta <= 0.04
  }

  /**
   * With frame times of at most 0.04 s the slide ends at home: after enough
   * ticks (each moves at least `0.5 * 0.016`) the frog is idle at the
   * recorded x and z, at the height it had when the slide began.
   */
  lemma {:induction false} SlideArrives(f: Frog, ticks: seq<Sample>, m: Maths)
    requires m.Valid() && f.motion.SlideOut? && f.home.Some?
    requires ShortFrames(ticks) && |ticks| >= 1
    requires 0.008 * (|ticks| - 1) as real >= FlatDistance(f.pos, f.home.value, m)
    ensures Run(f, ticks, m) == Frog(Vec3(f.home.value.x, f.motion.baseY, f.home.value.z), f.home, Idle)
    decreases |ticks|
  {
    var home := f.home.value;
    var d := FlatDistance(f.pos, home, m);
    var g := StepFrog(f, ticks[0].now, ticks[0].delta, m);
    if d <= SnapDistance {
      RunIdle(g, ticks[1..], m);
    } else {
      var step := 0.5 * SafeDelta(ticks[0].delta);
      assert ticks[0].delta <= 0.04;
      assert 0.008 <= step <= SnapDistance;
      SlideStep(f, ticks[0].delta, m);
      assert FlatDistance(g.pos, home, m) == d - step;
      SlideArrives(g, ticks[1..], m);
    }
  }

  /**
   * The slide home is not monotone for long frames: a frame of 2 s moves
   * the frog 1 unit, past a home 0.3 away to 0.7 away on the other side,
   * and the next such frame brings it back to 0.3, still sliding.
   */
  lemma SlideCanOvershoot(m: Maths)
    requires m.Valid()
    ensures var f := Frog(Vec3(0.0, 0.0, 0.0), Some(Vec3(0.3, 0.0, 0.0)), SlideOut(0.0));
            var f1 := StepFrog(f, 0.0, 2.0, m);
            var f2 := StepFrog(f1, 0.0, 2.0, m);
            FlatDistance(f.pos, f.home.value, m) == 0.3 &&
            f1.motion.SlideOut? && FlatDistance(f1.pos, f1.home.value, m) == 0.7 &&
            f2.motion.SlideOut? && FlatDistance(f2.pos, f2.home.value, m) == 0.3
  {
    var f := Frog(Vec3(0.0, 0.0, 0.0), Some(Vec3(0.3, 0.0, 0.0)), SlideOut(0.0));
    SqrtOfSquare(m, 0.3, 0.09);
    assert FlatDistance(f.pos, f.home.value, m) == 0.3;
    SlideStep(f, 2.0, m);
    var f1 := StepFrog(f, 0.0, 2.0, m);
    assert FlatDistance(f1.pos, f1.home.value, m) == 0.7;
    SlideStep(f1, 2.0, m);
  }

  /**
   * Entering the night aims the walk horizontally at the origin: the
   * direction has no vertical part, points the way of `(-x, 0, -z)`, and
   * has unit length unless the frog stands on the vertical axis.
   */
  lemma NightAimsAtOrigin(f: Frog, now: real, m: Maths)
    requires m.Valid()
    ensures var dir := WalkDir(EnterNight(f, now, m).motion.walk);
            var toOrigin := FlatOffset(f.pos, Vec3(0.0, 0.0, 0.0));
            dir.y == 0.0 && SameDirection(dir, toOrigin) &&
            (FlatDistance(f.pos, Vec3(0.0, 0.0, 0.0), m) != 0.0 ==> IsUnit(dir))
  {
    var toOrigin := FlatOffset(f.pos, Vec3(0.0, 0.0, 0.0));
    NormalizeUnit(toOrigin, m);
    assert Normalize(toOrigin, m) == Scale(toOrigin, NormalizeFactor(toOrigin, m));
  }

  /** The load-time entry walks against the facing direction, with unit length unless it is zero. */
  lemma LoadAimsBackwards(f: Frog, now: real, facing: Vec3, m: Maths)
    requires m.Valid()
    ensures var dir := WalkDir(EnterNightOnLoad(f, now, facing, m).motion.walk);
            SameDirection(dir, Scale(facing, -1.0)) &&
            (Length(Scale(facing, -1.0), m) != 0.0 ==> IsUnit(dir))
  {
    var back := Scale(facing, -1.0);
    NormalizeUnit(back, m);
    assert Normalize(back, m) == Scale(back, NormalizeFactor(back, m));
  }

  /**
   * Interrupting a hop keeps the frog raised: pressing for day at the top of
   * a hop makes the current height the slide's base, so a frog already over
   * its home snaps there 0.15 above the height it hopped from.
   */
  lemma InterruptedHopStaysRaised(f: Frog, now: real, delta: real, m: Maths)
    requires m.Valid() && f.motion.Hop? && f.home.Some?
    requires f.pos.x == f.home.value.x && f.pos.z == f.home.value.z
    ensures var top := StepFrog(f, f.motion.start + 0.3, 0.0, m);
            var done := StepFrog(EnterDay(top), now, delta, m);
            done.motion.Idle? && done.pos.y == f.motion.baseY + 0.15
  {
    HopPeak(f, m);
    var top := StepFrog(f, f.motion.start + 0.3, 0.0, m);
    assert top.pos.x == f.pos.x && top.pos.z == f.pos.z && top.home == f.home;
    SlideAtHome(EnterDay(top), now, delta, m);
  }

  /** A sliding frog standing over its home snaps at once, to the slide's base height. */
  lemma SlideAtHome(f: Frog, now: real, delta: real, m: Maths)
    requires m.Valid() && f.motion.SlideOut? && f.home.Some?
    requires f.pos.x == f.home.value.x && f.pos.z == f.home.value.z
    ensures var r := StepFrog(f, now, delta, m);
            r.motion.Idle? && r.pos == Vec3(f.pos.x, f.motion.baseY, f.pos.z)
  {
    assert FlatOffset(f.pos, f.home.value) == Zero;
    SqrtZero(m);
    SnapsWhenClose(f, now, delta, m);
  }

  /** A slide tick within `SnapDistance` of home snaps to home at the slide's base height. */
  lemma SnapsWhenClose(f: Frog, now: real, delta: real, m: Maths)
    requires f.motion.SlideOut? && f.home.Some?
    requires FlatDistance(f.pos, f.home.value, m) <= SnapDistance
    ensures var r := StepFrog(f, now, delta, m);
            r.motion.Idle? && r.pos == Vec3(f.home.value.x, f.motion.baseY, f.home.value.z)
  {
  }
}
