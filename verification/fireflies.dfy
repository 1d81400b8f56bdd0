/**
 * The fireflies (src/script.js, the spawning loop and the firefly pass of
 * `tick`): fifteen glowing points drifting at a fixed speed in x and z,
 * bouncing back when they stray more than three units from where they
 * started, bobbing and flickering with a sine, and moving only at night.
 */
module Fireflies {
  import opened Geometry

  /**
   * A firefly: its position, the per-tick speeds of its `userData`
   * (`speedY` is drawn but never read), the x and z it started at, whether
   * it is shown, and its emissive intensity.
   */
  datatype Firefly = Firefly(
    pos: Vec3,
    speedX: real, speedY: real, speedZ: real,
    rangeX: real, rangeZ: real,
    visible: bool,
    glow: real)

  /** The six `Math.random()` draws behind one firefly, in call order. */
  datatype Draws = Draws(px: real, py: real, pz: real, sx: real, sy: real, sz: real) {
    predicate Valid() {
      && 0.0 <= px < 1.0 && 0.0 <= py < 1.0 && 0.0 <= pz < 1.0
      && 0.0 <= sx < 1.0 && 0.0 <= sy < 1.0 && 0.0 <= sz < 1.0
    }
  }

  /** `fireflyCount` */
  const Count: nat := 15

  /** How far a firefly may stray from its start before it turns; 3 in `tick`. */
  const Range: real := 3.0

  /*
   * The spawn spreads (6, 1.5 + 0.2), the speed spreads (0.02, 0.01), the
   * bob (10, 0.005) and the flicker (1.5, 5, 100, 0.5) are literals in the
   * formulas that use them, which keeps every product linear for the
   * verifier.
   */

  /** One firefly of the spawning loop: hidden, at full glow, speed at most 0.01 per axis. */
  function Spawn(d: Draws): (f: Firefly)
    ensures d.Valid() ==> -3.0 <= f.pos.x < 3.0 && 0.2 <= f.pos.y < 1.7 && -3.0 <= f.pos.z < 3.0
    ensures d.Valid() ==> Abs(f.speedX) <= 0.01 && Abs(f.speedZ) <= 0.01
    ensures f.rangeX == f.pos.x && f.rangeZ == f.pos.z
    ensures !f.visible && f.glow == 2.0
  {
    var pos := Vec3((d.px - 0.5) * 6.0, d.py * 1.5 + 0.2, (d.pz - 0.5) * 6.0);
    Firefly(pos, (d.sx - 0.5) * 0.02, (d.sy - 0.5) * 0.01, (d.sz - 0.5) * 0.02, pos.x, pos.z, false, 2.0)
  }

  /** The speed after the range check of one axis: reversed once `offset` exceeds the range. */
  function Bounce(offset: real, speed: real): (r: real)
    ensures Abs(r) == Abs(speed)
    ensures Abs(offset) <= Range ==> r == speed
    ensures Abs(offset) > Range ==> r + speed == 0.0
  {
    if Abs(offset) > Range then speed * -1.0 else speed
  }

  /**
   * One firefly in one night tick at time `now`: drift in x and z, bob in y
   * with a sine of the new x, reverse a speed whose axis is out of range,
   * and flicker.
   */
  function Step(f: Firefly, now: real, m: Maths): (r: Firefly)
    ensures r.pos.x == f.pos.x + f.speedX && r.pos.z == f.pos.z + f.speedZ
    ensures m.Valid() ==> Abs(r.pos.y - f.pos.y) <= 0.005
    ensures m.Valid() ==> 1.0 <= r.glow <= 2.0
    ensures Abs(r.speedX) == Abs(f.speedX) && Abs(r.speedZ) == Abs(f.speedZ)
    ensures r.speedY == f.speedY && r.rangeX == f.rangeX && r.rangeZ == f.rangeZ
    ensures r.visible == f.visible
  {
    var x := f.pos.x + f.speedX;
    var y := f.pos.y + m.sin(now + x * 10.0) * 0.005;
    var z := f.pos.z + f.speedZ;
    var glow := 1.5 + m.sin(now * 5.0 + x * 100.0) * 0.5;
    f.(pos := Vec3(x, y, z),
       speedX := Bounce(x - f.rangeX, f.speedX),
       speedZ := Bounce(z - f.rangeZ, f.speedZ),
       glow := glow)
  }

  /**
   * The box invariant of one axis: the offset from the start is at most
   * the range plus one step, and outside the range the speed points back.
   */
  predicate AxisOk(offset: real, speed: real) {
    && Abs(speed) <= Range
    && Abs(offset) <= Range + Abs(speed)
    && (offset > Range ==> speed <= 0.0)
    && (offset < -Range ==> speed >= 0.0)
  }

  predicate InBox(f: Firefly) {
    AxisOk(f.pos.x - f.rangeX, f.speedX) && AxisOk(f.pos.z - f.rangeZ, f.speedZ)
  }

  /** One axis: a move and a range check keep the box invariant. */
  lemma AxisStep(offset: real, speed: real)
    requires AxisOk(offset, speed)
    ensures AxisOk(offset + speed, Bounce(offset + speed, speed))
  {
  }

  /** A night tick keeps a firefly within one step of its box. */
  lemma StepInBox(f: Firefly, now: real, m: Maths)
    requires InBox(f)
    ensures InBox(Step(f, now, m))
  {
    AxisStep(f.pos.x - f.rangeX, f.speedX);
    AxisStep(f.pos.z - f.rangeZ, f.speedZ);
    var r := Step(f, now, m);
    assert r.pos.x - r.rangeX == (f.pos.x - f.rangeX) + f.speedX;
    assert r.pos.z - r.rangeZ == (f.pos.z - f.rangeZ) + f.speedZ;
  }

  /** A fresh firefly starts at the centre of its box. */
  lemma SpawnInBox(d: Draws)
    requires d.Valid()
    ensures InBox(Spawn(d))
  {
  }

  predicate AllInBox(swarm: seq<Firefly>) {
    forall i :: 0 <= i < |swarm| ==> InBox(swarm[i])
  }

  /** The spawning loop: one firefly per set of draws. */
  function SpawnAll(draws: seq<Draws>): (swarm: seq<Firefly>)
    requires |draws| == Count
    ensures |swarm| == Count
    ensures forall i :: 0 <= i < Count ==> !swarm[i].visible
    ensures (forall i :: 0 <= i < Count ==> draws[i].Valid()) ==> AllInBox(swarm)
  {
    var swarm := seq(Count, i requires 0 <= i < Count => Spawn(draws[i]));
    assert (forall i :: 0 <= i < Count ==> draws[i].Valid()) ==> AllInBox(swarm) by {
      forall i | 0 <= i < Count && draws[i].Valid()
        ensures InBox(swarm[i])
      {
        SpawnInBox(draws[i]);
      }
    }
    swarm
  }

  /** `fireflies.forEach(firefly => firefly.visible = shown)` */
  function Show(swarm: seq<Firefly>, shown: bool): (r: seq<Firefly>)
    ensures |r| == |swarm|
    ensures forall i :: 0 <= i < |r| ==> r[i] == swarm[i].(visible := shown)
  {
    seq(|swarm|, i requires 0 <= i < |swarm| => swarm[i].(visible := shown))
  }

  /** The firefly pass of `tick`: every firefly steps at night, none by day. */
  function Wander(swarm: seq<Firefly>, isDay: bool, now: real, m: Maths): (r: seq<Firefly>)
    ensures |r| == |swarm|
    ensures isDay ==> r == swarm
    ensures !isDay ==> forall i :: 0 <= i < |r| ==> r[i] == Step(swarm[i], now, m)
  {
    if isDay then swarm
    else seq(|swarm|, i requires 0 <= i < |swarm| => Step(swarm[i], now, m))
  }

  /** Showing or hiding the swarm changes nothing but visibility. */
  lemma ShowKeepsBox(swarm: seq<Firefly>, shown: bool)
    requires AllInBox(swarm)
    ensures AllInBox(Show(swarm, shown))
  {
    var r := Show(swarm, shown);
    forall i | 0 <= i < |r|
      ensures InBox(r[i])
    {
      assert InBox(swarm[i]);
    }
  }

  /** A tick, day or night, keeps every firefly within one step of its box. */
  lemma WanderKeepsBox(swarm: seq<Firefly>, isDay: bool, now: real, m: Maths)
    requires AllInBox(swarm)
    ensures AllInBox(Wander(swarm, isDay, now, m))
  {
    if !isDay {
      forall i | 0 <= i < |swarm|
        ensures InBox(Wander(swarm, isDay, now, m)[i])
      {
        StepInBox(swarm[i], now, m);
      }
    }
  }

  /** One firefly over a run of night ticks, one time reading per tick. */
  function Drift(f: Firefly, times: seq<real>, m: Maths): Firefly
    decreases |times|
  {
    if |times| == 0 then f else Drift(Step(f, times[0], m), times[1..], m)
  }

  /**
   * However long the night, a firefly never strays more than three units
   * plus one step from where it started, on either axis, and its speeds keep
   * their magnitude.
   */
  lemma {:induction false} DriftStaysNear(f: Firefly, times: seq<real>, m: Maths)
    requires InBox(f)
    ensures var g := Drift(f, times, m);
            && Abs(g.pos.x - f.rangeX) <= Range + Abs(f.speedX)
            && Abs(g.pos.z - f.rangeZ) <= Range + Abs(f.speedZ)
            && Abs(g.speedX) == Abs(f.speedX) && Abs(g.speedZ) == Abs(f.speedZ)
            && g.rangeX == f.rangeX && g.rangeZ == f.rangeZ && InBox(g)
    decreases |times|
  {
    if |times| > 0 {
      var g := Step(f, times[0], m);
      StepInBox(f, times[0], m);
      DriftStaysNear(g, times[1..], m);
    }
  }
}
