/** The particle store shared by both programs: the global array
    `particles[MAX_PARTICLES]` with its live count `particleCount`, the
    `AddParticle` operation, and the two integration passes of one tick.
    Vector arithmetic and the gravity law are floating point in the programs;
    here they are the uninterpreted operations of a `Physics` record, so
    what is proved is the structure of the passes, not their numerics. */
module Particles {
  import opened Trails

  const MAX_PARTICLES: nat := 1024

  /** The C struct `Particle`; `trail` groups `trail[]` with `trailCount`. */
  datatype Particle<V> = Particle(pos: V, vel: V, mass: real, trail: Trail<V>)

  /** The floating-point operations a tick uses: the zero vector, vector sum,
      scaling by a scalar, and `pull(pos_i, pos_j, mass_j)`, the softened
      gravitational acceleration particle j exerts on particle i. */
  datatype Physics<!V> = Physics(
    zero: V,
    add: (V, V) -> V,
    scale: (V, real) -> V,
    pull: (V, V, real) -> V)

  /** Acceleration of particle i summed over j = 0 .. n-1 in index order,
      skipping j == i, as the inner loop of the velocity pass adds it up. */
  function AccelFrom<V>(ph: Physics<V>, ps: seq<Particle<V>>, i: nat, n: nat): V
    requires i < |ps| && n <= |ps|
  {
    if n == 0 then ph.zero
    else
      var a := AccelFrom(ph, ps, i, n - 1);
      if n - 1 == i then a else ph.add(a, ph.pull(ps[i].pos, ps[n - 1].pos, ps[n - 1].mass))
  }

  function Accel<V>(ph: Physics<V>, ps: seq<Particle<V>>, i: nat): V
    requires i < |ps|
  {
    AccelFrom(ph, ps, i, |ps|)
  }

  /** The acceleration depends on nothing but the positions and masses of the
      live particles: velocities and trails may change without affecting it. */
  lemma {:induction false} AccelFrame<V>(ph: Physics<V>, ps: seq<Particle<V>>, qs: seq<Particle<V>>, i: nat, n: nat)
    requires |ps| == |qs| && i < |ps| && n <= |ps|
    requires forall j :: 0 <= j < |ps| ==> ps[j].pos == qs[j].pos && ps[j].mass == qs[j].mass
    ensures AccelFrom(ph, ps, i, n) == AccelFrom(ph, qs, i, n)
  {
    if n > 0 {
      AccelFrame(ph, ps, qs, i, n - 1);
    }
  }

  /** Self-interaction is skipped: particle i's own mass has no part in its
      acceleration. */
  lemma {:induction false} OwnMassIgnored<V>(ph: Physics<V>, ps: seq<Particle<V>>, i: nat, m: real, n: nat)
    requires i < |ps| && n <= |ps|
    ensures AccelFrom(ph, ps[i := ps[i].(mass := m)], i, n) == AccelFrom(ph, ps, i, n)
  {
    if n > 0 {
      OwnMassIgnored(ph, ps, i, m, n - 1);
    }
  }

  /** The first pass of a tick: every velocity is advanced by an acceleration
      computed from the positions and masses as they were before the pass. */
  function VelocityPass<V>(ph: Physics<V>, dt: real, ps: seq<Particle<V>>): (qs: seq<Particle<V>>)
    ensures |qs| == |ps|
    ensures forall i :: 0 <= i < |ps| ==>
      qs[i].pos == ps[i].pos && qs[i].mass == ps[i].mass && qs[i].trail == ps[i].trail
    ensures forall i :: 0 <= i < |ps| ==> qs[i].vel == ph.add(ps[i].vel, ph.scale(Accel(ph, ps, i), dt))
  {
    seq(|ps|, i requires 0 <= i < |ps| => ps[i].(vel := ph.add(ps[i].vel, ph.scale(Accel(ph, ps, i), dt))))
  }

  /** The second pass: every position moves by its (already updated) velocity
      and the new position is written to the particle's trail. */
  function PositionPass<V>(ph: Physics<V>, dt: real, ps: seq<Particle<V>>): (qs: seq<Particle<V>>)
    requires forall i :: 0 <= i < |ps| ==> WellFormed(ps[i].trail)
    ensures |qs| == |ps|
    ensures forall i :: 0 <= i < |ps| ==> qs[i].vel == ps[i].vel && qs[i].mass == ps[i].mass
    ensures forall i :: 0 <= i < |ps| ==> qs[i].pos == ph.add(ps[i].pos, ph.scale(ps[i].vel, dt))
    ensures forall i :: 0 <= i < |ps| ==> qs[i].trail == Record(ps[i].trail, qs[i].pos)
  {
    seq(|ps|, i requires 0 <= i < |ps| =>
      var pos := ph.add(ps[i].pos, ph.scale(ps[i].vel, dt));
      ps[i].(pos := pos, trail := Record(ps[i].trail, pos)))
  }

  /** One full tick on the live particles: every particle's new velocity uses
      the acceleration of the starting snapshot, and its new position uses that
      new velocity. */
  lemma TickStep<V>(ph: Physics<V>, dt: real, ps: seq<Particle<V>>, i: nat)
    requires forall j :: 0 <= j < |ps| ==> WellFormed(ps[j].trail)
    requires i < |ps|
    ensures var qs := PositionPass(ph, dt, VelocityPass(ph, dt, ps));
      |qs| == |ps| &&
      qs[i].vel == ph.add(ps[i].vel, ph.scale(Accel(ph, ps, i), dt)) &&
      qs[i].pos == ph.add(ps[i].pos, ph.scale(qs[i].vel, dt)) &&
      qs[i].mass == ps[i].mass &&
      qs[i].trail == Record(ps[i].trail, qs[i].pos)
  {
  }

  /** The live count after one `AddParticle` call: one more, unless full. */
  function Grown(c: nat): nat {
    if c < MAX_PARTICLES then c + 1 else c
  }

  function GrownBy(c: nat, k: nat): nat {
    if k == 0 then c else Grown(GrownBy(c, k - 1))
  }

  /** However many particles are added (seeding, or a mouse click per frame),
      the count is capped at the capacity and otherwise grows by one per call. */
  lemma {:induction false} GrownByCapped(c: nat, k: nat)
    requires c <= MAX_PARTICLES
    ensures GrownBy(c, k) == Min(c + k, MAX_PARTICLES)
  {
    if k > 0 {
      GrownByCapped(c, k - 1);
    }
  }

  /** Which initial position and velocity particle i of n receives. The ring
      (circle in 2D, Fibonacci sphere in 3D) computes it from i and n; the
      random arrangement takes the i-th draw of the random source. */
  function Arranged<V>(circle: bool, ring: (nat, nat) -> (V, V), random: nat -> (V, V), n: nat, i: nat): (V, V) {
    if circle then ring(i, n) else random(i)
  }

  class Store<V> {
    /** `particles[MAX_PARTICLES]`; slots at and beyond `count` are unused. */
    const particles: array<Particle<V>>
    /** `particleCount`. */
    var count: nat
    /** For each live particle, every position written to its trail since it
        was added. */
    ghost var histories: seq<seq<V>>

    ghost predicate Valid()
      reads this, particles
    {
      particles.Length == MAX_PARTICLES && count <= MAX_PARTICLES && |histories| == count &&
      (forall i :: 0 <= i < MAX_PARTICLES ==> WellFormed(particles[i].trail)) &&
      (forall i :: 0 <= i < count ==> Holds(particles[i].trail, histories[i])) &&
      (forall i :: 0 <= i < count && histories[i] != [] ==> histories[i][|histories[i]| - 1] == particles[i].pos)
    }

    /** The zero-initialised global array: every slot holds `blank`. */
    constructor (blank: V)
      ensures Valid() && fresh(particles)
      ensures count == 0 && histories == []
    {
      particles := new Particle<V>[MAX_PARTICLES](_ => Particle(blank, blank, 0.0, Trail(seq(MAX_TRAIL, _ => blank), 0)));
      count := 0;
      histories := [];
    }

    /** `AddParticle`: fills slot `count` and resets its trail counter (the
        trail slots keep whatever they held); a full store is left alone. */
    method Add(pos: V, vel: V, mass: real)
      requires Valid()
      modifies this, particles
      ensures Valid()
      ensures count == Grown(old(count))
      ensures old(count) < MAX_PARTICLES ==>
        particles[old(count)] == Particle(pos, vel, mass, old(particles[count]).trail.(count := 0)) &&
        histories == old(histories) + [[]] &&
        TrailView(particles[old(count)].trail) == []
      ensures old(count) == MAX_PARTICLES ==> histories == old(histories)
      ensures forall i :: 0 <= i < MAX_PARTICLES && i != old(count) ==> particles[i] == old(particles[i])
    {
      if count < MAX_PARTICLES {
        var p := particles[count];
        particles[count] := p.(pos := pos, vel := vel, mass := mass, trail := p.trail.(count := 0));
        ResetHolds(p.trail.slots);
        histories := histories + [[]];
        count := count + 1;
      }
    }

    /** The inner loop of the velocity pass: particle i's acceleration from
        the current positions and masses. */
    method Acceleration(ph: Physics<V>, i: nat) returns (a: V)
      requires Valid() && i < count
      ensures a == Accel(ph, particles[..count], i)
    {
      a := ph.zero;
      var j := 0;
      while j < count
        invariant 0 <= j <= count
        invariant a == AccelFrom(ph, particles[..count], i, j)
      {
        if i != j {
          a := ph.add(a, ph.pull(particles[i].pos, particles[j].pos, particles[j].mass));
        }
        j := j + 1;
      }
    }

    /** The first loop of a tick. It writes velocities only, so each
        particle's acceleration sees the positions of the tick's start. */
    method UpdateVelocities(ph: Physics<V>, dt: real)
      requires Valid()
      modifies particles
      ensures Valid()
      ensures particles[..count] == VelocityPass(ph, dt, old(particles[..count]))
      ensures forall i :: count <= i < MAX_PARTICLES ==> particles[i] == old(particles[i])
    {
      ghost var snapshot := particles[..count];
      ghost var next := VelocityPass(ph, dt, snapshot);
      var i := 0;
      while i < count
        invariant 0 <= i <= count
        invariant forall j :: 0 <= j < i ==> particles[j] == next[j]
        invariant forall j :: i <= j < MAX_PARTICLES ==> particles[j] == old(particles[j])
      {
        var a := Acceleration(ph, i);
        AccelFrame(ph, particles[..count], snapshot, i, count);
        var p := particles[i];
        particles[i] := p.(vel := ph.add(p.vel, ph.scale(a, dt)));
        i := i + 1;
      }
      assert particles[..count] == next;
    }

    /** The second loop of a tick: move each position by its velocity, then
        write it at `trailCount % MAX_TRAIL` and bump the counter. */
    method UpdatePositions(ph: Physics<V>, dt: real)
      requires Valid()
      modifies this, particles
      ensures Valid() && count == old(count)
      ensures particles[..count] == PositionPass(ph, dt, old(particles[..count]))
      ensures forall i :: count <= i < MAX_PARTICLES ==> particles[i] == old(particles[i])
      ensures forall i :: 0 <= i < count ==> histories[i] == old(histories[i]) + [particles[i].pos]
    {
      ghost var snapshot := particles[..count];
      ghost var next := PositionPass(ph, dt, snapshot);
      var i := 0;
      while i < count
        invariant 0 <= i <= count == old(count) && |histories| == count
        invariant forall j :: 0 <= j < MAX_PARTICLES ==> WellFormed(particles[j].trail)
        invariant forall j :: 0 <= j < i ==> particles[j] == next[j]
        invariant forall j :: 0 <= j < i ==> histories[j] == old(histories[j]) + [particles[j].pos]
        invariant forall j :: 0 <= j < count ==> Holds(particles[j].trail, histories[j])
        invariant forall j :: i <= j < MAX_PARTICLES ==> particles[j] == old(particles[j])
        invariant forall j :: i <= j < count ==> histories[j] == old(histories[j])
      {
        var p := particles[i];
        var pos := ph.add(p.pos, ph.scale(p.vel, dt));
        var t := p.trail;
        RecordHolds(t, histories[i], pos);
        particles[i] := p.(pos := pos, trail := Trail(t.slots[t.count % MAX_TRAIL := pos], t.count + 1));
        histories := histories[i := histories[i] + [pos]];
        i := i + 1;
      }
      assert particles[..count] == next;
    }

    /** One tick: the velocity pass over all particles, then the position
        and trail pass. */
    method Tick(ph: Physics<V>, dt: real)
      requires Valid()
      modifies this, particles
      ensures Valid() && count == old(count)
      ensures particles[..count] == PositionPass(ph, dt, VelocityPass(ph, dt, old(particles[..count])))
      ensures forall i :: count <= i < MAX_PARTICLES ==> particles[i] == old(particles[i])
      ensures forall i :: 0 <= i < count ==> histories[i] == old(histories[i]) + [particles[i].pos]
    {
      UpdateVelocities(ph, dt);
      UpdatePositions(ph, dt);
    }

    /** The startup loop: `n` calls of `AddParticle`, the i-th with the i-th
        position and velocity of the chosen arrangement and the shared mass. */
    method Seed(n: nat, circle: bool, ring: (nat, nat) -> (V, V), random: nat -> (V, V), mass: real)
      requires Valid()
      modifies this, particles
      ensures Valid()
      ensures count == Min(old(count) + n, MAX_PARTICLES)
      ensures forall i :: 0 <= i < old(count) ==> particles[i] == old(particles[i])
      ensures histories[..old(count)] == old(histories)
      ensures forall i :: old(count) <= i < count ==>
        (particles[i].pos, particles[i].vel) == Arranged(circle, ring, random, n, i - old(count)) &&
        particles[i].mass == mass && particles[i].trail.count == 0 && histories[i] == []
    {
      var i := 0;
      while i < n
        invariant 0 <= i <= n && Valid()
        invariant count == Min(old(count) + i, MAX_PARTICLES)
        invariant forall j :: 0 <= j < old(count) ==> particles[j] == old(particles[j])
        invariant histories[..old(count)] == old(histories)
        invariant forall j :: old(count) <= j < count ==>
          (particles[j].pos, particles[j].vel) == Arranged(circle, ring, random, n, j - old(count)) &&
          particles[j].mass == mass && particles[j].trail.count == 0 && histories[j] == []
      {
        var pv := if circle then ring(i, n) else random(i);
        Add(pv.0, pv.1, mass);
        i := i + 1;
      }
    }

    /** The render loop over all live trails. */
    method DrawTrails() returns (drawn: seq<seq<(V, V)>>)
      requires Valid()
      ensures |drawn| == count
      ensures forall i :: 0 <= i < count ==> Traces(drawn[i], TrailView(particles[i].trail))
    {
      drawn := [];
      var i := 0;
      while i < count
        invariant 0 <= i <= count && |drawn| == i
        invariant forall j :: 0 <= j < i ==> Traces(drawn[j], TrailView(particles[j].trail))
      {
        var segs := DrawnSegments(particles[i].trail);
        drawn := drawn + [segs];
        i := i + 1;
      }
    }
  }

  /** What the renderer shows of a live particle's trail is the latest
      `min(n, MAX_TRAIL)` of its n recorded positions, oldest first, ending at
      its current position. */
  lemma TrailShowsNewest<V>(s: Store<V>, i: nat)
    requires s.Valid() && i < s.count
    ensures TrailView(s.particles[i].trail) == Newest(s.histories[i])
    ensures s.histories[i] != [] ==>
      TrailView(s.particles[i].trail)[Min(|s.histories[i]|, MAX_TRAIL) - 1] == s.particles[i].pos
  {
    ViewIsNewest(s.particles[i].trail, s.histories[i]);
  }
}
