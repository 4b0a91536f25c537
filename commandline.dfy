/** The command line of both programs: `prog [count [arrangement [mass]]]`.
    Turning the text into numbers (`atoi`, `atof`) is not modelled; an
    invocation carries `argc` and the already parsed arguments. */
module CommandLine {
  import opened Particles

  /** main.c draws in the plane, 3d.c in space; they differ only in defaults. */
  datatype Variant = Planar | Spatial

  /** `argc`, `atoi(argv[1])`, `argv[2]` and `atof(argv[3])`; an argument is
      only looked at when `argc` says it was given. */
  datatype Invocation = Invocation(argc: nat, countArg: int, arrangementArg: string, massArg: real)

  datatype Config = Config(initialCount: nat, arrangement: string, mass: real)

  const DEFAULT_MASS: real := 250000000.0

  /** The count used when the given one is below 1. */
  const FALLBACK_COUNT: nat := 50

  function DefaultCount(v: Variant): nat {
    match v
    case Planar => 50
    case Spatial => 3
  }

  function DefaultArrangement(v: Variant): string {
    match v
    case Planar => "random"
    case Spatial => "circle"
  }

  /** The two successive clamps applied to a given count. */
  function ClampCount(n: int): (r: nat)
    ensures 1 <= r <= MAX_PARTICLES
    ensures n < 1 ==> r == FALLBACK_COUNT
    ensures n > MAX_PARTICLES ==> r == MAX_PARTICLES
    ensures 1 <= n <= MAX_PARTICLES ==> r == n
  {
    var c := if n < 1 then FALLBACK_COUNT else n;
    if c > MAX_PARTICLES then MAX_PARTICLES else c
  }

  /** The settings `main` starts from. */
  function Configure(v: Variant, inv: Invocation): (c: Config)
    ensures 1 <= c.initialCount <= MAX_PARTICLES
    ensures inv.argc >= 2 ==> c.initialCount == ClampCount(inv.countArg)
    ensures inv.argc >= 2 && 1 <= inv.countArg <= MAX_PARTICLES ==> c.initialCount == inv.countArg
    ensures inv.argc < 2 ==> c.initialCount == DefaultCount(v)
    ensures inv.argc < 3 ==> c.arrangement == DefaultArrangement(v)
    ensures inv.argc >= 3 ==> c.arrangement == inv.arrangementArg
    ensures inv.argc < 4 ==> c.mass == DEFAULT_MASS
    ensures inv.argc >= 4 ==> c.mass == inv.massArg
  {
    Config(
      if inv.argc >= 2 then ClampCount(inv.countArg) else DefaultCount(v),
      if inv.argc >= 3 then inv.arrangementArg else DefaultArrangement(v),
      if inv.argc >= 4 then inv.massArg else DEFAULT_MASS)
  }

  /** `strcmp(arrangement, "circle") == 0`; every other name, "random"
      included, selects the random cloud. */
  predicate IsCircle(name: string) {
    name == "circle"
  }
}
