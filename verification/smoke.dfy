/**
 * The chimney smoke (src/script.js, `resetSmokeParticle` and the first loop
 * of `tick`): a fixed pool of particles rising from the chimney, drifting
 * sideways ever more slowly, and respawned at the chimney once they climb
 * two units above it.
 */
module Smoke {
  import opened Geometry

  datatype Particle = Particle(pos: Vec3, vel: Vec3)

  /** The six `Math.random()` draws one respawn consumes, in call order. */
  datatype Draws = Draws(px: real, py: real, pz: real, vx: real, vy: real, vz: real) {
    predicate Valid() {
      && 0.0 <= px < 1.0 && 0.0 <= py < 1.0 && 0.0 <= pz < 1.0
      && 0.0 <= vx < 1.0 && 0.0 <= vy < 1.0 && 0.0 <= vz < 1.0
    }
  }

  /** `smokeCount` */
  const Count: nat := 80

  /** `chimneyPosition` */
  const Chimney := Vec3(0.1, 0.7, -0.1)

  /** A particle is respawned once its height exceeds this. */
  function Ceiling(): real {
    Chimney.y + 2.0
  }

  /*
   * The spawn spreads (0.12 wide, 0.15 high), the velocity terms (0.002,
   * 0.008, 0.006) and the damping 0.995 are literals in the formulas that
   * use them, which keeps every product linear for the verifier.
   */

  /** `resetSmokeParticle`: a fresh particle just above the chimney, rising. */
  function Spawn(d: Draws): (p: Particle)
    ensures d.Valid() ==> Chimney.y <= p.pos.y < Chimney.y + 0.15
    ensures d.Valid() ==> Abs(p.pos.x - Chimney.x) <= 0.06 && Abs(p.pos.z - Chimney.z) <= 0.06
    ensures d.Valid() ==> 0.008 <= p.vel.y < 0.014
    ensures d.Valid() ==> Abs(p.vel.x) <= 0.001 && Abs(p.vel.z) <= 0.001
  {
    Particle(
      Vec3(Chimney.x + (d.px - 0.5) * 0.12, Chimney.y + d.py * 0.15, Chimney.z + (d.pz - 0.5) * 0.12),
      Vec3((d.vx - 0.5) * 0.002, 0.008 + d.vy * 0.006, (d.vz - 0.5) * 0.002))
  }

  /** The respawn test of `tick`, applied to the moved particle. */
  predicate Escapes(p: Particle) {
    p.pos.y + p.vel.y > Ceiling()
  }

  /**
   * One particle in one tick: move by the velocity, damp the sideways
   * velocity by 0.995, and respawn from `d` if the new height is above the
   * ceiling. The draws are only consumed by a respawn.
   */
  function StepParticle(p: Particle, d: Draws): (r: Particle)
    ensures Escapes(p) ==> r == Spawn(d)
    ensures !Escapes(p) ==> r.pos == Add(p.pos, p.vel) && r.pos.y <= Ceiling()
    ensures !Escapes(p) ==> r.vel.y == p.vel.y
    ensures !Escapes(p) ==> Abs(r.vel.x) <= Abs(p.vel.x) && Abs(r.vel.z) <= Abs(p.vel.z)
  {
    var moved := Add(p.pos, p.vel);
    var damped := Vec3(p.vel.x * 0.995, p.vel.y, p.vel.z * 0.995);
    if moved.y > Ceiling() then Spawn(d) else Particle(moved, damped)
  }

  /**
   * What holds of every particle between ticks: between the chimney and the
   * ceiling, rising at least 0.008 per tick, drifting at most 0.001 sideways.
   */
  predicate WellFormed(p: Particle) {
    && Chimney.y <= p.pos.y <= Ceiling()
    && 0.008 <= p.vel.y < 0.014
    && Abs(p.vel.x) <= 0.001 && Abs(p.vel.z) <= 0.001
  }

  predicate AllWellFormed(pool: seq<Particle>) {
    forall i :: 0 <= i < |pool| ==> WellFormed(pool[i])
  }

  predicate AllValid(draws: seq<Draws>) {
    forall i :: 0 <= i < |draws| ==> draws[i].Valid()
  }

  /** A tick keeps a particle well formed, whether it moves or respawns. */
  lemma StepWellFormed(p: Particle, d: Draws)
    requires WellFormed(p) && d.Valid()
    ensures WellFormed(StepParticle(p, d))
  {
  }

  /** The pool the script starts with: one spawn per slot. */
  function Init(draws: seq<Draws>): (pool: seq<Particle>)
    requires |draws| == Count
    ensures |pool| == Count
    ensures AllValid(draws) ==> AllWellFormed(pool)
  {
    seq(Count, i requires 0 <= i < Count => Spawn(draws[i]))
  }

  /** The smoke loop of `tick`: every particle takes one step, each with its own draws. */
  function Tick(pool: seq<Particle>, draws: seq<Draws>): (r: seq<Particle>)
    requires |draws| == |pool|
    ensures |r| == |pool|
    ensures forall i :: 0 <= i < |pool| ==> r[i] == StepParticle(pool[i], draws[i])
    ensures AllWellFormed(pool) && AllValid(draws) ==> AllWellFormed(r)
  {
    var r := seq(|pool|, i requires 0 <= i < |pool| => StepParticle(pool[i], draws[i]));
    assert AllWellFormed(pool) && AllValid(draws) ==> AllWellFormed(r) by {
      if AllWellFormed(pool) && AllValid(draws) {
        forall i | 0 <= i < |pool|
          ensures WellFormed(r[i])
        {
          StepWellFormed(pool[i], draws[i]);
        }
      }
    }
    r
  }

  /** Draws for a run of ticks: one row per tick, one entry per particle. */
  predicate Fits(rows: seq<seq<Draws>>, n: nat) {
    forall k :: 0 <= k < |rows| ==> |rows[k]| == n && AllValid(rows[k])
  }

  function Ticks(pool: seq<Particle>, rows: seq<seq<Draws>>): seq<Particle>
    requires Fits(rows, |pool|)
    decreases |rows|
  {
    if |rows| == 0 then pool else Ticks(Tick(pool, rows[0]), rows[1..])
  }

  /**
   * Over any number of ticks the pool keeps its 80 particles, and every one
   * of them stays between the chimney and the ceiling with its rise rate and
   * drift in bounds.
   */
  lemma {:induction false} TicksKeepPool(draws: seq<Draws>, rows: seq<seq<Draws>>)
    requires |draws| == Count && AllValid(draws) && Fits(rows, Count)
    ensures |Ticks(Init(draws), rows)| == Count
    ensures AllWellFormed(Ticks(Init(draws), rows))
  {
    TicksWellFormed(Init(draws), rows);
  }

  lemma {:induction false} TicksWellFormed(pool: seq<Particle>, rows: seq<seq<Draws>>)
    requires AllWellFormed(pool) && Fits(rows, |pool|)
    ensures |Ticks(pool, rows)| == |pool|
    ensures AllWellFormed(Ticks(pool, rows))
    decreases |rows|
  {
    if |rows| > 0 {
      var next := Tick(pool, rows[0]);
      assert Fits(rows[1..], |next|) by {
        forall k | 0 <= k < |rows[1..]|
          ensures |rows[1..][k]| == |next| && AllValid(rows[1..][k])
        {
          assert rows[1..][k] == rows[k + 1];
        }
      }
      TicksWellFormed(next, rows[1..]);
    }
  }

  /** One particle over a run of ticks, one set of draws per tick. */
  function Follow(p: Particle, ds: seq<Draws>): Particle
    decreases |ds|
  {
    if |ds| == 0 then p else Follow(StepParticle(p, ds[0]), ds[1..])
  }

  /** The particle is not respawned during the run. */
  predicate NeverEscapes(p: Particle, ds: seq<Draws>)
    decreases |ds|
  {
    |ds| == 0 || (!Escapes(p) && NeverEscapes(StepParticle(p, ds[0]), ds[1..]))
  }

  /** Without a respawn a well-formed particle climbs at least 0.008 per tick. */
  lemma {:induction false} Climbs(p: Particle, ds: seq<Draws>)
    requires WellFormed(p) && NeverEscapes(p, ds)
    ensures Follow(p, ds).pos.y >= p.pos.y + 0.008 * |ds| as real
    ensures WellFormed(Follow(p, ds))
    decreases |ds|
  {
    if |ds| > 0 {
      var q := StepParticle(p, ds[0]);
      assert q.pos.y >= p.pos.y + 0.008;
      Climbs(q, ds[1..]);
    }
  }

  /**
   * Every particle is recycled: no well-formed particle survives 251
   * consecutive ticks without a respawn, since the ceiling is two units up
   * and it climbs at least 0.008 per tick.
   */
  lemma Recycled(p: Particle, ds: seq<Draws>)
    requires WellFormed(p) && |ds| >= 251
    ensures !NeverEscapes(p, ds)
  {
    if NeverEscapes(p, ds) {
      Climbs(p, ds);
    }
  }
}
