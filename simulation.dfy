/** How `main` drives the store: seed it once from the command line, then
    run one frame per iteration of the window loop. Window, input and drawing
    calls are outside the model; a frame's mouse click arrives as a value and
    its trail drawing is returned as line segments. */
module Simulation {
  import opened Trails
  import opened Particles
  import opened CommandLine

  /** The fixed step `1.0f / 60.0f` of every tick. */
  const DT: real := 1.0 / 60.0

  /** A left click in this frame, with the position it picked and the
      randomly drawn velocity of the particle it spawns. */
  datatype Click<V> = NoClick | Click(pos: V, vel: V)

  /** Start-up: parse the settings, then seed an empty store with
      `initialCount` particles of the chosen arrangement. */
  method Start<V>(v: Variant, inv: Invocation, blank: V, ring: (nat, nat) -> (V, V), random: nat -> (V, V))
    returns (store: Store<V>, cfg: Config)
    ensures cfg == Configure(v, inv)
    ensures fresh(store) && fresh(store.particles) && store.Valid()
    ensures 1 <= store.count == cfg.initialCount <= MAX_PARTICLES
    ensures forall i :: 0 <= i < store.count ==>
      (store.particles[i].pos, store.particles[i].vel) == Arranged(IsCircle(cfg.arrangement), ring, random, cfg.initialCount, i) &&
      store.particles[i].mass == cfg.mass &&
      TrailView(store.particles[i].trail) == []
  {
    cfg := Configure(v, inv);
    store := new Store(blank);
    store.Seed(cfg.initialCount, IsCircle(cfg.arrangement), ring, random, cfg.mass);
  }

  /** One iteration of the window loop: a tick, then the click's spawn, then
      the trail drawing. */
  method Frame<V>(store: Store<V>, ph: Physics<V>, click: Click<V>, mass: real) returns (drawn: seq<seq<(V, V)>>)
    requires store.Valid()
    modifies store, store.particles
    ensures store.Valid()
    ensures store.count == if click.Click? then Grown(old(store.count)) else old(store.count)
    ensures click.Click? && old(store.count) < MAX_PARTICLES ==>
      store.particles[old(store.count)].pos == click.pos &&
      store.particles[old(store.count)].vel == click.vel &&
      store.particles[old(store.count)].mass == mass &&
      store.histories[old(store.count)] == [] &&
      TrailView(store.particles[old(store.count)].trail) == []
    ensures store.particles[..old(store.count)] ==
      PositionPass(ph, DT, VelocityPass(ph, DT, old(store.particles[..store.count])))
    ensures forall i :: 0 <= i < old(store.count) ==>
      store.histories[i] == old(store.histories[i]) + [store.particles[i].pos]
    ensures |drawn| == store.count
    ensures forall i :: 0 <= i < store.count ==> Traces(drawn[i], TrailView(store.particles[i].trail))
  {
    store.Tick(ph, DT);
    if click.Click? {
      store.Add(click.pos, click.vel, mass);
    }
    drawn := store.DrawTrails();
  }
}
