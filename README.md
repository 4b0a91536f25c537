# n-body: particle store, trail ring buffer and tick structure

The repository holds two near-identical real-time gravity simulators:
`main.c` works in the plane (raylib `Vector2`), `3d.c` in space (`Vector3`).
Both keep every particle in a global array `particles[MAX_PARTICLES]`
(1024 slots) with a live count `particleCount`. New particles enter only
through `AddParticle`, which is a silent no-op on a full store. The startup
loops and the mouse-click spawn both go through it. Each particle records its
recent positions in a ring `trail[MAX_TRAIL]` (100 slots) driven by an
ever-growing `trailCount`. Every frame runs two passes: a velocity pass, in
which each acceleration is summed over all other particles, and then a
position pass that also writes the trail. After that the trails are drawn
oldest-first.

This project models that shared core once, generic in the vector type `V`,
so the same model stands for both programs:

- `trails.dfy` (module `Trails`): the ring buffer as a value (`Trail`: 100
  slots plus a `nat` counter). `Record` is the per-tick write, `TrailView` the
  chronological read-back, `DrawnSegments` the render loop with its running
  `prev`. The main lemma, `ViewIsNewest`, proves that the read-back is exactly
  the latest `min(n, 100)` writes in order, however often the ring wrapped.
- `particles.dfy` (module `Particles`): the store as a class over an
  `array<Particle<V>>` of 1024 slots with a `count` field. It also holds the
  two passes, as pure functions (`VelocityPass`, `PositionPass`) and as the
  in-place loops that are proved against them (`UpdateVelocities`,
  `UpdatePositions`). A ghost `histories` field keeps every live particle's
  write history; `Valid()` ties each trail to its history.
- `commandline.dfy` (module `CommandLine`): the clamp of the requested count
  and the per-program defaults. 3d.c starts with 3 particles on a "circle";
  main.c starts with 50 "random" ones.
- `simulation.dfy` (module `Simulation`): start-up (configure, then seed) and
  one iteration of the window loop (tick, optional click spawn, trail drawing).

Floating point does not appear. Vector addition, scaling and the softened
pairwise pull are the fields of a `Physics<V>` record of uninterpreted
functions. What is proved is therefore the structure of the passes, not
their numerics. In particular, the velocity pass computes every acceleration
from the positions as they were at the start of the tick. `mass` is a `real`
that is only stored and handed to `pull`.

Behaviour worth noting:
- `AddParticle` returns `void`. On a full store the call has no effect.
- Any arrangement name other than "circle" selects the random cloud
  (3d.c:92, main.c:75).
- Neither program has particle diameters, collision merging, particle removal
  or a solar-system preset, so the model has none of them.

Each row below cites one of the two programs. The other has the same code:
`AddParticle` and the count clamp sit on the same lines in both (23-31 and
49-51). The seeding loops are main.c:65-81 and 3d.c:73-106. The two passes are
main.c:85-106 and 3d.c:110-137. The trail read-back is main.c:157-168 and
3d.c:191-202.

## Model

| member | source | states |
|---|---|---|
| `Trails.StartIndex` | main.c:160 | the start offset is the slot of the oldest write still shown, write number `trailCount - min(trailCount, MAX_TRAIL)`, whether or not the ring has wrapped |
| `Trails.Record` | 3d.c:135-136 | a trail write puts the position at slot `trailCount % MAX_TRAIL`, increments the counter by one and leaves the other 99 slots unchanged |
| `Trails.TrailView` | 3d.c:192-200 | the read-back visits `min(trailCount, MAX_TRAIL)` entries, the k-th at slot `(startIndex + k) % MAX_TRAIL`; its contents are given by `Trails.ViewIsNewest` |
| `Trails.RecordHolds` | main.c:104-105 | a write preserves the ring invariant "every one of the last MAX_TRAIL writes is still in its slot", with the written position appended to the history |
| `Trails.ViewIsNewest` | 3d.c:191-201 | for any trail whose history is `h`, the read-back equals the last `min(n, 100)` entries of an n-entry `h`, oldest first, however many times the ring wrapped |
| `Trails.ResetHolds` | main.c:28 | a trail whose counter was just reset to 0 has an empty view and satisfies the invariant for the empty history, whatever its stale slots hold |
| `Trails.RecordAll` | 3d.c:135-136 | the run of writes one trail receives over successive ticks: n writes add n to the counter and keep the 100 slots |
| `Trails.RecordAllHolds` | 3d.c:135-136 | after a reset and any sequence of writes, the trail satisfies the ring invariant for exactly that sequence |
| `Trails.ViewAfterWrites` | main.c:157-167 | after a reset and writes `ps`, the view is the last `min(n, 100)` of the n writes `ps` in order, and its final entry is the latest write |
| `Trails.ViewAfterThreeWraps` | 3d.c:192-200 | after 3·100+5 writes the view holds exactly the latest 100 writes in order |
| `Trails.DrawnSegments` | main.c:158-167 | the render loop visits `min(trailCount, MAX_TRAIL)` entries; it draws nothing when fewer than two exist, and otherwise draws one segment from each view entry to its successor, in chronological order |
| `Particles.AccelFrame` | 3d.c:112-125 | a particle's acceleration depends only on the positions and masses of the live particles, not on velocities or trails |
| `Particles.OwnMassIgnored` | main.c:88 | the self term is skipped: particle i's own mass does not affect its acceleration |
| `Particles.VelocityPass` | 3d.c:110-129 | the first pass changes velocities only; each new velocity is the old one plus dt times the acceleration from the unchanged position snapshot |
| `Particles.PositionPass` | 3d.c:131-137 | the second pass keeps velocity and mass, moves each position by its velocity, and records the new position in the trail |
| `Particles.TickStep` | main.c:85-106 | over a whole tick, each particle's new velocity uses the start-of-tick acceleration and its new position uses that new velocity; its mass is kept and its trail gains the new position |
| `Particles.GrownByCapped` | main.c:120-124 | k calls of `AddParticle` from count c ≤ 1024 leave `min(c + k, 1024)` particles, so repeated click spawns never exceed capacity |
| `Particles.Store.constructor` | 3d.c:20-21 | the zero-initialised global array: 1024 slots with well-formed trails, no live particle |
| `Particles.Store.Add` | 3d.c:23-31 | with room, it writes pos/vel/mass to slot `count`, sets that slot's trail counter to 0 (stale slots kept, empty view) and adds one to the count; when full, nothing changes; other slots are untouched and `count <= 1024` is preserved |
| `Particles.Store.Acceleration` | main.c:86-96 | the inner loop sums the pull of every j ≠ i in index order over the current live particles |
| `Particles.Store.UpdateVelocities` | main.c:85-99 | the in-place velocity loop yields `VelocityPass` of the state before the loop, so no acceleration sees a position updated in the same pass; slots past the count are untouched |
| `Particles.Store.UpdatePositions` | main.c:101-106 | the in-place position loop yields `PositionPass` of the prior state, and every live history gains that particle's new position |
| `Particles.Store.Tick` | 3d.c:108-137 | a tick is the velocity pass followed by the position pass; the count is unchanged and every trail history gains the new position |
| `Particles.Store.Seed` | 3d.c:77-105 | n seeding calls leave `min(old count + n, 1024)` particles; the i-th new one takes the i-th ring or random placement, the shared mass, counter 0 and an empty history; earlier particles and their histories are unchanged |
| `Particles.Store.DrawTrails` | 3d.c:191-202 | for every live particle, the drawn segments join consecutive entries of its trail view |
| `Particles.TrailShowsNewest` | 3d.c:132-136 | in a valid store, each live particle's view is the newest `min(n, 100)` of its n recorded positions and ends at its current position |
| `CommandLine.ClampCount` | 3d.c:49-51 | a given count below 1 becomes 50, one above 1024 becomes 1024, one in range is kept; the result is always in [1, 1024] |
| `CommandLine.Configure` | main.c:45-58 | the start count is always in [1, 1024]: the clamped argument when given, else the program's default; arrangement and mass come from the arguments when given, else the defaults |
| `Simulation.Start` | main.c:44-81 | start-up seeds an empty store with exactly the configured count, each particle placed by the arrangement "circle" selects (else random), with the configured mass and an empty trail |
| `Simulation.Frame` | 3d.c:108-202 | one loop iteration: the tick applied to the live particles; a click on a store with room adds a particle with the click's position and velocity, the configured mass and an empty trail and history, while a full store stays at 1024; then every live trail is drawn |

## Left out

- Floating-point physics is not modelled: the softened inverse-square pull (`distSqr`, `sqrtf`, `G`, `SOFTENING`), vector addition and scaling are uninterpreted functions of `Physics<V>`. The concrete `Vector2`/`Vector3` types are the type parameter `V`.
- `ComputeCurvature` and the GRID drawing loops are display-only floating-point code and are not modelled.
- The BOX wall bounce (`vel *= -0.9`) is floating point behind a compile-time switch and is not modelled. `Simulation.Frame` is the loop iteration without it.
- The ring/Fibonacci-sphere placements and tangent velocities are trigonometry. They are the parameter `ring(i, n)`. `GetRandomValue` draws are the parameter `random(i)`.
- Mouse-ray picking, the click test, window, camera and drawing calls are not modelled. A click arrives as `Click(pos, vel)`. Drawn lines are returned as segments.
- `atoi`, `atof` and `strcmp` are not modelled: the model takes already parsed values, and the name test is equality with "circle".
- `trailCount` is an unbounded `nat`. The C `int` would overflow after about 2^31 ticks of one particle.
- `particleCount` is a `nat`. It never exceeds 1024, so its C width never matters.
