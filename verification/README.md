# Casita Ranitas: the scene logic in Dafny

This project models the state and animation logic of the interactive
"frog house" scene, which lives in the single three.js script `src/script.js`:

- **Frog motion state machine.** Each frog reference (`frogMale`, `frogFemale`)
  moves through hop → walkBack → idle after the day/night button switches to
  night, or through slideOut → idle when it switches back to day (`updateEntering`
  inside `tick`). The script stores this state as an `entering` flag plus a
  `phase` string. Every write that starts or ends a motion sets both. The end
  of the hop changes only `phase` while `entering` stays true
  (src/script.js:550). The load clears `entering` on a mesh that never had a
  phase (src/script.js:155). So the pair is one `FrogMotion.Motion` value.
- **Day/night button.** It flips `isDay`, relights the scene, shows or hides
  the moon and the fireflies, and starts the frogs' entry (`Scene.Toggle`).
  There is also a second night entry that runs when the model finishes loading
  at night (`FrogMotion.EnterNightOnLoad`).
- **Chimney smoke.** A pool of 80 particles rises, drifts sideways ever more
  slowly, and respawns at the chimney (`Smoke`).
- **Fireflies.** Fifteen points drift in x and z and turn back when they stray
  more than 3 units. They move only at night (`Fireflies`).
- **Mesh classification and frog picking.** The load callback does this
  (`Picking`):
  - it finds the house and the frogs by lower-cased name;
  - it filters the frog candidates by bounding radius, sorts them stably by
    radius and keeps at most two;
  - if no candidate survives, it falls back to name-only matches;
  - it binds the male and female references.

The modules follow that split:

- `Optional`: an option type.
- `Geometry`: vectors; the `Vector3` operations the script uses; the host's
  square root, sine and reciprocal.
- `FrogMotion`, `Picking`, `Smoke`, `Fireflies`: one module per part above.
- `Scene`: the whole state and the events on it. The load, the button and a
  frame change it; a click picks a target.

Everything is pure functions over immutable datatypes, with reals for
coordinates. The inputs a frame depends on are parameters:

- the elapsed time `now`;
- the frame time `delta`;
- every `Math.random()` draw, as a record of draws in [0, 1);
- `Math.sin`, `Math.sqrt` and the division inside `normalize`, as functions in
  a `Geometry.Maths` value.

`Maths.Valid()` states all the model relies on about those functions:

- an exact non-negative square root;
- an exact reciprocal of a positive number;
- a sine bounded by 1, non-negative on [0, π], with sin 0 = 0 and sin π/2 = 1.

About `delta`: `tick` reads `clock.getDelta()` right after
`clock.getElapsedTime()`, which itself advances the clock. So the frame time the
script sees is close to 0, and the 0.016 floor (`FrogMotion.SafeDelta`) is what
actually drives the walk and the slide. The model takes `delta` as an arbitrary
real, which covers both.

## Model

| member | source | states |
|---|---|---|
| `Geometry.NormalizeUnit` | src/script.js:374-376 | `normalize` scales by a positive factor; it gives a unit vector, except that a zero vector stays zero |
| `Geometry.FlatStepTowards` | src/script.js:581-587 | a step of length s along the normalised horizontal offset to a target leaves a horizontal distance of abs(d − s) and keeps y |
| `FrogMotion.SafeDelta` | src/script.js:559 | the frame time used by the walk and the slide is at least 0.016 and at least `delta` |
| `FrogMotion.SafeDeltaIsMax` | src/script.js:559 | the frame time used by the walk and the slide is exactly max(delta, 0.016): `delta` itself from 0.016 up, 0.016 below it |
| `FrogMotion.HopProgress` | src/script.js:546 | the hop's progress t is at most 1, is non-negative once the hop has started, and equals 1 exactly when 0.6 s have passed |
| `FrogMotion.StepHop` | src/script.js:545-554 | x, z and home are unchanged; once 0.6 s have passed the phase becomes walkBack (never idle) with walkStart = now and y = baseY exactly; before that the phase is kept and y stays within [baseY, baseY + 0.15] |
| `FrogMotion.StepWalk` | src/script.js:555-576 | every walk tick, the last one included, moves the position by dir · speed · max(delta, 0.016) on all three axes; the frog becomes idle exactly when now − walkStart > walkDuration |
| `FrogMotion.StepSlide` | src/script.js:577-603 | with no recorded home the frog goes idle at once; otherwise it goes idle exactly when the horizontal distance is at most 0.02, snapping x and z to home and y to baseY; while sliding y never changes |
| `FrogMotion.StepFrog` | src/script.js:542-605 | one tick of `updateEntering`: home never changes, an idle frog is untouched, a hopping frog never goes straight to idle |
| `FrogMotion.EnterNight` | src/script.js:359-377 | the button's night entry: hop from now with baseY = current y, then walk 1.8 s at speed 0.4; position and home are kept |
| `FrogMotion.EnterNightOnLoad` | src/script.js:161-175 | the load-time night entry: hop from now with baseY = current y, then walk 2.0 s at speed 0.8 |
| `FrogMotion.EnterDay` | src/script.js:326-339 | the day entry: slideOut with baseY = current y if a home was recorded, idle otherwise; position and home are kept |
| `FrogMotion.RunIdle` | src/script.js:543 | an idle frog is unchanged by any number of ticks |
| `FrogMotion.HopStartsAtBase` | src/script.js:546-548 | at the hop's start time the frog is at baseY |
| `FrogMotion.HopPeak` | src/script.js:546-548 | 0.3 s into the hop the frog is 0.15 above baseY |
| `FrogMotion.WalkTravel` | src/script.js:557-563 | while the walk lasts, the frog moves along one fixed direction by speed times the sum of the floored frame times, and keeps its phase and home |
| `FrogMotion.WalkEnds` | src/script.js:565-576 | the first tick after the walk's duration makes the frog idle |
| `FrogMotion.SlideStep` | src/script.js:581-587 | a slide tick farther than 0.02 from home keeps y and the phase, and leaves horizontal distance abs(d − 0.5 · max(delta, 0.016)) |
| `FrogMotion.SlideArrives` | src/script.js:577-598 | with frame times of at most 0.04 s, enough ticks bring a sliding frog to rest exactly at home's x and z and at the slide's baseY |
| `FrogMotion.SlideCanOvershoot` | src/script.js:583-587 | with 2 s frames, a frog 0.3 from home moves to 0.7 on the other side and back to 0.3, still sliding: the distance is not monotone |
| `FrogMotion.SlideAtHome` | src/script.js:592-597 | a sliding frog standing over its home snaps at once, going idle at the slide's baseY |
| `FrogMotion.SnapsWhenClose` | src/script.js:583-597 | a slide tick within 0.02 of home, measured horizontally, ends the slide with the frog exactly at home's x and z and at the slide's base height |
| `FrogMotion.InterruptedHopStaysRaised` | src/script.js:326-334 | pressing for day at the top of a hop makes the raised height the slide's base, so the frog comes to rest 0.15 above the height it hopped from |
| `FrogMotion.NightAimsAtOrigin` | src/script.js:374-377 | the night walk direction has y = 0, points the same way as the horizontal offset to the origin, and is a unit vector unless the frog stands on the vertical axis |
| `FrogMotion.LoadAimsBackwards` | src/script.js:172-174 | the load-time walk direction points the same way as the negated facing direction, and is a unit vector unless that is zero |
| `Picking.FilterMembers` | src/script.js:122-123 | a mesh is kept exactly when it occurs in the input and passes the test, and it is kept no more often than it occurs |
| `Picking.FirstNamed` | src/script.js:114-117 | a result exists exactly when some mesh has the name; the result is the first mesh with the name |
| `Picking.Traverse` | src/script.js:99-126 | the traversal collects exactly the size-tested frog candidates in order, and keeps an already known house or else takes the first mesh named "casita" |
| `Picking.Insert` | src/script.js:129 | inserting into a sorted list keeps it sorted and adds exactly the one element |
| `Picking.SortByRadius` | src/script.js:129 | the candidates come out sorted by ascending radius, as a permutation of the input |
| `Picking.SortStable` | src/script.js:129 | the sort is stable: for every radius, the meshes of that radius keep their traversal order |
| `Picking.SortedSplit` | src/script.js:129-133 | in a sorted list nothing before a position is larger than anything from that position on |
| `Picking.Smallest` | src/script.js:133 | at most two picked meshes, all of them candidates, none exactly when there are no candidates |
| `Picking.Fallback` | src/script.js:135-146 | all the meshes taken are frog-named; as many are taken as there are frog-named meshes, up to two; none exactly when no mesh is frog-named |
| `Picking.FallbackTakesFirst` | src/script.js:135-146 | the fallback takes the frog-named meshes in traversal order: what it picks is exactly the frog-named meshes of some prefix of the traversal |
| `Picking.Pick` | src/script.js:128-146 | at most two picked meshes, all from the model and named "ranito" or "ranita", none exactly when no mesh has a frog's name |
| `Picking.PickSmallest` | src/script.js:128-133 | when some mesh passes the size test, min(2, number of candidates) candidates are picked, and none left over is smaller than a picked one |
| `Picking.Assign` | src/script.js:148-151 | the male reference is kept if set, else becomes the first picked "ranito"; the same holds for the female reference and "ranita" |
| `Smoke.Spawn` | src/script.js:52-60 | a respawn puts the particle within 0.06 of the chimney sideways and in [chimney.y, chimney.y + 0.15) vertically, rising at 0.008 to 0.014 per tick and drifting at most 0.001 |
| `Smoke.StepParticle` | src/script.js:507-516 | a particle that climbs above the ceiling is respawned; otherwise it moves by its velocity, stays at or under chimney.y + 2, keeps its rise rate, and its sideways speed does not grow |
| `Smoke.StepWellFormed` | src/script.js:505-517 | one tick keeps a particle between chimney and ceiling with its rise rate and drift in bounds |
| `Smoke.Init` | src/script.js:47-64 | the pool starts with 80 well-formed particles |
| `Smoke.Tick` | src/script.js:505-517 | a tick keeps the pool size and keeps every particle well formed |
| `Smoke.TicksKeepPool` | src/script.js:47-64 | over any number of ticks the pool keeps 80 particles, all well formed |
| `Smoke.Climbs` | src/script.js:508 | without a respawn a particle climbs at least 0.008 per tick |
| `Smoke.Recycled` | src/script.js:514-516 | no particle survives 251 consecutive ticks without being respawned |
| `Fireflies.Spawn` | src/script.js:258-277 | a new firefly is hidden, at full glow 2, inside [−3, 3) × [0.2, 1.7) × [−3, 3), at the centre of its box, with speed at most 0.01 per axis |
| `Fireflies.Bounce` | src/script.js:529-534 | the speed's magnitude is kept; it is reversed exactly when the offset from the start exceeds 3 |
| `Fireflies.Step` | src/script.js:524-537 | x and z advance by their speeds; y moves by at most 0.005; glow stays within [1, 2]; speed magnitudes, start point, `speedY` and visibility are kept |
| `Fireflies.AxisStep` | src/script.js:524-534 | the box invariant of one axis (at most 3 plus one step away, and pointing back when outside) survives a tick |
| `Fireflies.StepInBox` | src/script.js:522-538 | a night tick keeps a firefly within its box invariant |
| `Fireflies.SpawnAll` | src/script.js:245-280 | fifteen fireflies, all hidden, all inside their boxes |
| `Fireflies.Wander` | src/script.js:521-539 | by day nothing moves; at night every firefly takes one step |
| `Fireflies.WanderKeepsBox` | src/script.js:521-539 | a frame, by day or night, keeps every firefly within its box invariant |
| `Fireflies.DriftStaysNear` | src/script.js:521-534 | however long the night lasts, a firefly stays within 3 plus one step of where it started, and its speeds keep their magnitude |
| `Scene.EnvFor` | src/script.js:309-357 | the sun is shown exactly by day; the moon light and the moon exactly by night |
| `Scene.InitialInv` | src/script.js:9-14 | the scene starts at day, lit exactly as the day branch lights it, in a state of the invariant |
| `Scene.Toggle` | src/script.js:306-387 | the button flips day and night, shows the sun exactly by day and the moon and the fireflies exactly by night, moves no firefly, and changes neither the smoke, the house, the clickable set nor which frogs are bound |
| `Scene.ToggleFrogs` | src/script.js:326-382 | at night every bound frog, whatever its phase, hops from where it stands and will walk 1.8 s at 0.4 horizontally; by day it slides home from its current height, or stops if it has no home |
| `Scene.ToggleInv` | src/script.js:306-387 | the button keeps the scene invariant |
| `Scene.ToggleTwice` | src/script.js:306-357 | two presses restore the lighting, the fireflies, the smoke and the clickable set |
| `Scene.NightThenDay` | src/script.js:326-382 | pressing for night and then for day leaves every bound frog sliding home |
| `Scene.Load` | src/script.js:99-179 | loading leaves lighting, smoke and fireflies alone, keeps a known house or else finds the first "casita", makes the picked meshes the clickable set, and keeps frogs already bound |
| `Scene.LoadBinds` | src/script.js:148-179 | into a scene without frogs, the first picked "ranito" and "ranita" are bound: at rest by day, hopping by night and then walking 2 s at 0.8 |
| `Scene.LoadInv` | src/script.js:128-158 | the load keeps the invariant: at most two clickable meshes, all named as frogs |
| `Scene.ClickTarget` | src/script.js:444-447 | the click picks the nearest hit named as a frog; no target exactly when no hit is named as a frog |
| `Scene.HouseNeverClicked` | src/script.js:444-447 | a mesh named "casita" is never the click target |
| `Scene.ClickHitsNearest` | src/script.js:442-447 | when the ray hits only clickable meshes, the click goes to the nearest one |
| `Scene.Tick` | src/script.js:497-611 | a frame changes neither the lighting, the house nor the clickable set; it moves no firefly by day and keeps each frog bound with its home |
| `Scene.TickInv` | src/script.js:497-611 | a frame keeps the scene invariant |

## Behaviours of the code worth knowing

Some consequences of `src/script.js` are easy to miss when reading it. The
model follows the code and states each one as a lemma:

- **Night entry restarts the hop whatever the phase.** The night branch of
  the button (src/script.js:359-372) sets a fresh hop for every bound frog
  without looking at its phase (`Scene.ToggleFrogs`). In practice the frog is
  idle or still sliding home when it meets this branch.
- **Day entry keeps the height of an interrupted hop.** The day branch takes
  the slide's base height from the frog's current height (src/script.js:333).
  Pressing for day in mid-hop therefore makes the raised height the slide's
  base, and the frog comes to rest 0.15 above the height it hopped from
  (`FrogMotion.InterruptedHopStaysRaised`).
- **Distance walked is per frame.** The walk adds speed · max(delta, 0.016)
  once per frame (src/script.js:563). The distance walked depends on the
  number of frames, not only on the elapsed time (`FrogMotion.WalkTravel`).
- **The walk moves on all three axes.** The walk step (src/script.js:563)
  moves x, y and z. The load-time direction is the negated facing direction
  (src/script.js:172-174), which can have a vertical part
  (`FrogMotion.LoadAimsBackwards`).
- **The slide can overshoot.** The slide moves a fixed step per frame
  (src/script.js:583-587) and can pass home when a frame is long, so the
  distance to home can grow (`FrogMotion.SlideCanOvershoot`). With frames of
  at most 0.04 s it does arrive (`FrogMotion.SlideArrives`).

## Left out

- Rendering and the DOM are not modelled: scene graph, renderer, camera, orbit controls, resize handling, shadows, the water texture scroll, the smoke canvas texture, and the button's label text. They are library calls with no logic of their own.
- GLTF loading with its progress and error callbacks is I/O. `Scene.Load` receives the model's meshes as (name, bounding radius, position) records in traversal order; computing a bounding sphere is left to the library.
- The raycast itself, the heart emote's screen placement, the audio and the `setTimeout` removal are not modelled. `Scene.ClickTarget` receives the ray's hits, nearest first.
- Console logging, the `Math.random()` calls that only gate logging, and `requestAnimationFrame` scheduling are left out.
- Float32 rounding of the smoke arrays and double rounding elsewhere are left out: all arithmetic is on reals.
- `Math.sin`, `Math.sqrt` and the division inside `normalize` are not computed: they are the functions of a `Geometry.Maths` value, constrained only by `Maths.Valid()`.
- The clock is not modelled: `now` and `delta` are parameters of each event.
- Object identity is not modelled: a frog is a value, not a reference to a mesh. `Scene.Load` keeps a frog that is already bound as it is. It does not re-record that frog's home if the same mesh is picked again. This matters only if the model loads twice, and the script loads it once.
- The `initialPosition`, `initialY` and `entering = false` that the load writes on a picked mesh which becomes neither frog are not modelled. Nothing reads them for such a mesh.
- `f.visible = true` in the day branch is not modelled: nothing ever hides a frog.
- `Picking.Lower`: lower-cases ASCII letters only. `toLowerCase` also folds non-ASCII letters, but the names compared against ("casita", "ranito", "ranita") are ASCII. A non-ASCII name whose full lower-casing equals one of them is therefore not covered.
- `Smoke.Tick`: takes one set of six draws per particle on every frame, and uses a set only if that particle respawns. The script draws lazily, only on a respawn, so the draws line up with the script's random stream only as a set of values, not in call order.
