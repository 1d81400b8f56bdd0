/**
 * The scene as a whole (src/script.js): the day/night state with its
 * lights, the smoke pool, the fireflies, the two frog references, the house
 * and the clickable meshes. The model load, the day/night button and a
 * frame of `tick` change it; a click only picks a target among the ray's hits.
 */
module Scene {
  import opened Optional
  import opened Geometry
  import FrogMotion
  import Picking
  import Smoke
  import Fireflies

  /**
   * The day/night flag and what the button sets with it: the fog and
   * background colour, the ambient light, which of sun, moon light and moon
   * are shown, and the light from below.
   */
  datatype Env = Env(
    isDay: bool,
    fogColor: string,
    ambientIntensity: real,
    ambientColor: string,
    sunVisible: bool,
    moonLightVisible: bool,
    moonVisible: bool,
    bottomIntensity: real)

  /** The lighting the script sets up before the first frame. */
  const StartEnv := Env(true, "#87CEEB", 0.8, "#ffffff", true, false, false, 0.5)

  /** The day branch of the button. */
  const DayEnv := Env(true, "#87CEEB", 0.8, "#ffffff", true, false, false, 0.5)

  /** The night branch of the button. */
  const NightEnv := Env(false, "#0a1628", 0.4, "#4a5f8f", false, true, true, 0.1)

  function EnvFor(isDay: bool): (e: Env)
    ensures e.isDay == isDay
    ensures e.sunVisible == isDay && e.moonLightVisible == !isDay && e.moonVisible == !isDay
  {
    if isDay then DayEnv else NightEnv
  }

  datatype World = World(
    env: Env,
    smoke: seq<Smoke.Particle>,
    swarm: seq<Fireflies.Firefly>,
    male: Option<FrogMotion.Frog>,
    female: Option<FrogMotion.Frog>,
    house: Option<Picking.Mesh>,
    clickable: seq<Picking.Mesh>)

  /** The scene before the model has loaded: day, a fresh smoke pool, hidden fireflies, no frogs. */
  function Initial(smokeDraws: seq<Smoke.Draws>, flyDraws: seq<Fireflies.Draws>): (w: World)
    requires |smokeDraws| == Smoke.Count && |flyDraws| == Fireflies.Count
  {
    World(StartEnv, Smoke.Init(smokeDraws), Fireflies.SpawnAll(flyDraws), None, None, None, [])
  }

  /** Every firefly is shown exactly at night. */
  predicate ShownAtNight(swarm: seq<Fireflies.Firefly>, isDay: bool) {
    forall i :: 0 <= i < |swarm| ==> swarm[i].visible == !isDay
  }

  /** Every clickable mesh is a frog by name: never the house. */
  predicate OnlyFrogs(clickable: seq<Picking.Mesh>) {
    forall i :: 0 <= i < |clickable| ==> Picking.IsFrogNamed(clickable[i])
  }

  /** A bound frog had its home recorded when it was bound. */
  predicate HasHome(f: Option<FrogMotion.Frog>) {
    f.Some? ==> f.value.home.Some?
  }

  /** What holds between any two events of the scene. */
  predicate Inv(w: World) {
    && w.env == EnvFor(w.env.isDay)
    && |w.smoke| == Smoke.Count && Smoke.AllWellFormed(w.smoke)
    && |w.swarm| == Fireflies.Count && Fireflies.AllInBox(w.swarm)
    && ShownAtNight(w.swarm, w.env.isDay)
    && |w.clickable| <= 2 && OnlyFrogs(w.clickable)
    && HasHome(w.male) && HasHome(w.female)
  }

  /** The script starts in a state of the invariant, lit exactly as the day branch lights it. */
  lemma InitialInv(smokeDraws: seq<Smoke.Draws>, flyDraws: seq<Fireflies.Draws>)
    requires |smokeDraws| == Smoke.Count && Smoke.AllValid(smokeDraws)
    requires |flyDraws| == Fireflies.Count && forall i :: 0 <= i < |flyDraws| ==> flyDraws[i].Valid()
    ensures var w := Initial(smokeDraws, flyDraws);
            Inv(w) && w.env.isDay && w.env == DayEnv
  {
  }

  // ---------------------------------------------------------------------
  // The day/night button

  function DayFrog(f: Option<FrogMotion.Frog>): Option<FrogMotion.Frog> {
    if f.Some? then Some(FrogMotion.EnterDay(f.value)) else None
  }

  function NightFrog(f: Option<FrogMotion.Frog>, now: real, m: Maths): Option<FrogMotion.Frog> {
    if f.Some? then Some(FrogMotion.EnterNight(f.value, now, m)) else None
  }

  /**
   * The button at time `now`: flip day and night, relight, show or hide the
   * fireflies, and start the frogs sliding home (day) or hopping towards the
   * house (night).
   */
  function Toggle(w: World, now: real, m: Maths): (r: World)
    ensures r.env.isDay == !w.env.isDay
    ensures r.env.sunVisible == r.env.isDay
    ensures r.env.moonLightVisible == !r.env.isDay && r.env.moonVisible == !r.env.isDay
    ensures |r.swarm| == |w.swarm| && ShownAtNight(r.swarm, r.env.isDay)
    ensures forall i :: 0 <= i < |r.swarm| ==> r.swarm[i].pos == w.swarm[i].pos
    ensures r.smoke == w.smoke && r.house == w.house && r.clickable == w.clickable
    ensures r.male.Some? == w.male.Some? && r.female.Some? == w.female.Some?
  {
    var isDay := !w.env.isDay;
    if isDay then
      w.(env := DayEnv, swarm := Fireflies.Show(w.swarm, false),
         male := DayFrog(w.male), female := DayFrog(w.female))
    else
      w.(env := NightEnv, swarm := Fireflies.Show(w.swarm, true),
         male := NightFrog(w.male, now, m), female := NightFrog(w.female, now, m))
  }

  /** How the night branch leaves a bound frog, whatever it was doing. */
  predicate EnteredNight(before: FrogMotion.Frog, after: FrogMotion.Frog, now: real) {
    && after.pos == before.pos && after.home == before.home
    && after.motion.Hop? && after.motion.start == now && after.motion.baseY == before.pos.y
    && after.motion.walk.duration == 1.8 && after.motion.walk.speed == 0.4
    && after.motion.walk.dir.Some? && after.motion.walk.dir.value.y == 0.0
  }

  /** How the day branch leaves a bound frog. */
  predicate EnteredDay(before: FrogMotion.Frog, after: FrogMotion.Frog) {
    && after.pos == before.pos && after.home == before.home
    && (before.home.Some? ==> after.motion == FrogMotion.SlideOut(before.pos.y))
    && (before.home.None? ==> after.motion.Idle?)
  }

  predicate Entered(before: Option<FrogMotion.Frog>, after: Option<FrogMotion.Frog>, isDay: bool, now: real) {
    && before.Some? == after.Some?
    && (before.Some? && isDay ==> EnteredDay(before.value, after.value))
    && (before.Some? && !isDay ==> EnteredNight(before.value, after.value, now))
  }

  /**
   * Both frogs follow the new mode: at night each bound frog hops from where
   * it stands (its current height becomes the hop's base) and will then walk
   * for 1.8 s at 0.4 horizontally; by day each slides home from its current
   * height. Unbound frogs stay unbound.
   */
  lemma ToggleFrogs(w: World, now: real, m: Maths)
    ensures var r := Toggle(w, now, m);
            Entered(w.male, r.male, r.env.isDay, now) && Entered(w.female, r.female, r.env.isDay, now)
  {
  }

  /** The button keeps the invariant. */
  lemma ToggleInv(w: World, now: real, m: Maths)
    requires Inv(w)
    ensures Inv(Toggle(w, now, m))
  {
    var r := Toggle(w, now, m);
    Fireflies.ShowKeepsBox(w.swarm, !r.env.isDay);
  }

  /**
   * Pressing the button twice restores the lighting and the fireflies; the
   * frogs end up sliding home from wherever the first press left them.
   */
  lemma ToggleTwice(w: World, t1: real, t2: real, m: Maths)
    requires Inv(w)
    ensures var r := Toggle(Toggle(w, t1, m), t2, m);
            r.env == w.env && r.swarm == w.swarm && r.smoke == w.smoke && r.clickable == w.clickable
  {
    var r := Toggle(Toggle(w, t1, m), t2, m);
    assert |r.swarm| == |w.swarm|;
    forall i | 0 <= i < |w.swarm|
      ensures r.swarm[i] == w.swarm[i]
    {
    }
  }

  /** Pressing the button at night and then by day leaves every bound frog sliding home. */
  lemma NightThenDay(w: World, t1: real, t2: real, m: Maths)
    requires Inv(w) && w.env.isDay
    ensures var r := Toggle(Toggle(w, t1, m), t2, m);
            && r.env.isDay
            && (w.male.Some? ==> r.male.Some? && r.male.value.motion.SlideOut? && r.male.value.home == w.male.value.home)
            && (w.female.Some? ==> r.female.Some? && r.female.value.motion.SlideOut? && r.female.value.home == w.female.value.home)
  {
  }

  // ---------------------------------------------------------------------
  // The model load

  /** A picked mesh becomes a frog at rest, remembering where it was placed. */
  function Bind(mesh: Option<Picking.Mesh>): (f: Option<FrogMotion.Frog>)
    ensures f.Some? <==> mesh.Some?
    ensures f.Some? ==> f.value.pos == mesh.value.pos && f.value.home == Some(mesh.value.pos) && f.value.motion.Idle?
  {
    if mesh.Some? then Some(FrogMotion.Frog(mesh.value.pos, Some(mesh.value.pos), FrogMotion.Idle)) else None
  }

  function LoadNightFrog(f: Option<FrogMotion.Frog>, now: real, facing: Vec3, m: Maths): Option<FrogMotion.Frog> {
    if f.Some? then Some(FrogMotion.EnterNightOnLoad(f.value, now, facing, m)) else None
  }

  /**
   * The load callback at time `now` on the model's meshes in traversal
   * order: find the house, pick at most two frog meshes and make them the
   * clickable set, bind the first picked "ranito" and "ranita" unless a
   * frog is already bound, and, if it is night, start the bound frogs
   * hopping. `facingMale` and `facingFemale` are the meshes' world
   * directions.
   */
  function Load(w: World, meshes: seq<Picking.Mesh>, now: real, facingMale: Vec3, facingFemale: Vec3, m: Maths): (r: World)
    ensures r.env == w.env && r.smoke == w.smoke && r.swarm == w.swarm
    ensures r.house == if w.house.Some? then w.house else Picking.FirstNamed(meshes, Picking.HouseName)
    ensures r.clickable == Picking.Pick(meshes)
    ensures w.male.Some? ==> r.male.Some? && r.male.value.home == w.male.value.home
    ensures w.female.Some? ==> r.female.Some? && r.female.value.home == w.female.value.home
  {
    var house := if w.house.Some? then w.house else Picking.FirstNamed(meshes, Picking.HouseName);
    var picked := Picking.Pick(meshes);
    var bound := Picking.Assign(None, None, picked);
    var male := if w.male.Some? then w.male else Bind(bound.0);
    var female := if w.female.Some? then w.female else Bind(bound.1);
    if w.env.isDay then
      w.(house := house, clickable := picked, male := male, female := female)
    else
      w.(house := house, clickable := picked,
         male := LoadNightFrog(male, now, facingMale, m),
         female := LoadNightFrog(female, now, facingFemale, m))
  }

  /**
   * A load into a scene without frogs binds the first picked "ranito" and
   * the first picked "ranita", at rest by day and hopping by night (then
   * walking for 2 s at 0.8), each remembering where the model placed it.
   */
  lemma LoadBinds(w: World, meshes: seq<Picking.Mesh>, now: real, fm: Vec3, ff: Vec3, m: Maths)
    requires w.male.None? && w.female.None?
    ensures var r := Load(w, meshes, now, fm, ff, m);
            var picked := Picking.Pick(meshes);
            && BoundTo(r.male, Picking.FirstNamed(picked, Picking.MaleName), w.env.isDay, now)
            && BoundTo(r.female, Picking.FirstNamed(picked, Picking.FemaleName), w.env.isDay, now)
  {
  }

  /** `f` is the frog bound to `mesh` by a load at time `now`. */
  predicate BoundTo(f: Option<FrogMotion.Frog>, mesh: Option<Picking.Mesh>, isDay: bool, now: real) {
    && (f.Some? <==> mesh.Some?)
    && (f.Some? ==> f.value.pos == mesh.value.pos && f.value.home == Some(mesh.value.pos))
    && (f.Some? && isDay ==> f.value.motion.Idle?)
    && (f.Some? && !isDay ==>
          && f.value.motion.Hop? && f.value.motion.start == now
          && f.value.motion.baseY == mesh.value.pos.y
          && f.value.motion.walk.duration == 2.0 && f.value.motion.walk.speed == 0.8)
  }

  /** The load keeps the invariant: at most two clickable meshes, all frogs by name. */
  lemma LoadInv(w: World, meshes: seq<Picking.Mesh>, now: real, fm: Vec3, ff: Vec3, m: Maths)
    requires Inv(w)
    ensures Inv(Load(w, meshes, now, fm, ff, m))
  {
    var picked := Picking.Pick(meshes);
    forall i | 0 <= i < |picked|
      ensures Picking.IsFrogNamed(picked[i])
    {
      assert picked[i] in picked;
    }
  }

  // ---------------------------------------------------------------------
  // A click

  /** The click handler's choice among the ray's hits, nearest first: the first frog by name. */
  function ClickTarget(hits: seq<Picking.Mesh>): (r: Option<Picking.Mesh>)
    ensures r.Some? ==> r.value in hits && Picking.IsFrogNamed(r.value)
    ensures r.None? <==> forall i :: 0 <= i < |hits| ==> !Picking.IsFrogNamed(hits[i])
    ensures r.Some? ==> exists i :: 0 <= i < |hits| && hits[i] == r.value &&
                          forall j :: 0 <= j < i ==> !Picking.IsFrogNamed(hits[j])
  {
    if |hits| == 0 then None
    else if Picking.IsFrogNamed(hits[0]) then
      Some(hits[0])
    else
      var r := ClickTarget(hits[1..]);
      assert forall i :: 1 <= i < |hits| ==> hits[i] == hits[1..][i - 1];
      if r.Some? then
        var k :| 0 <= k < |hits[1..]| && hits[1..][k] == r.value &&
                 forall j :: 0 <= j < k ==> !Picking.IsFrogNamed(hits[1..][j]);
        assert hits[k + 1] == r.value;
        r
      else r
  }

  /** The house is never a click target: its lower-cased name is not a frog's. */
  lemma HouseNeverClicked(hits: seq<Picking.Mesh>)
    ensures var r := ClickTarget(hits);
            r.Some? ==> !Picking.NamedAs(r.value, Picking.HouseName)
  {
  }

  /**
   * A ray cast against the clickable meshes hits only frogs, so a click on
   * any of them shows the heart for the nearest one.
   */
  lemma ClickHitsNearest(w: World, hits: seq<Picking.Mesh>)
    requires Inv(w) && |hits| > 0
    requires forall i :: 0 <= i < |hits| ==> hits[i] in w.clickable
    ensures ClickTarget(hits) == Some(hits[0])
  {
    assert hits[0] in w.clickable;
  }

  // ---------------------------------------------------------------------
  // A frame

  function TickFrog(f: Option<FrogMotion.Frog>, now: real, delta: real, m: Maths): Option<FrogMotion.Frog> {
    if f.Some? then Some(FrogMotion.StepFrog(f.value, now, delta, m)) else None
  }

  /**
   * One frame of `tick` at elapsed time `now` with frame time `delta`: the
   * smoke rises (respawning from `draws`), the fireflies wander if it is
   * night, and each bound frog takes one step of its motion.
   */
  function Tick(w: World, now: real, delta: real, draws: seq<Smoke.Draws>, m: Maths): (r: World)
    requires |draws| == |w.smoke|
    ensures r.env == w.env && r.house == w.house && r.clickable == w.clickable
    ensures |r.smoke| == |w.smoke| && |r.swarm| == |w.swarm|
    ensures w.env.isDay ==> r.swarm == w.swarm
    ensures r.male.Some? == w.male.Some? && r.female.Some? == w.female.Some?
    ensures w.male.Some? ==> r.male.value.home == w.male.value.home
    ensures w.female.Some? ==> r.female.value.home == w.female.value.home
  {
    w.(smoke := Smoke.Tick(w.smoke, draws),
       swarm := Fireflies.Wander(w.swarm, w.env.isDay, now, m),
       male := TickFrog(w.male, now, delta, m),
       female := TickFrog(w.female, now, delta, m))
  }

  /** A frame keeps the invariant. */
  lemma TickInv(w: World, now: real, delta: real, draws: seq<Smoke.Draws>, m: Maths)
    requires Inv(w) && |draws| == |w.smoke| && Smoke.AllValid(draws)
    ensures Inv(Tick(w, now, delta, draws, m))
  {
    var r := Tick(w, now, delta, draws, m);
    Fireflies.WanderKeepsBox(w.swarm, w.env.isDay, now, m);
    forall i | 0 <= i < |r.swarm|
      ensures r.swarm[i].visible == !r.env.isDay
    {
      assert w.swarm[i].visible == !w.env.isDay;
    }
  }
}
