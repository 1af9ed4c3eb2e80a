/**
 The deterministic clock (runtime/src/deterministic/clock.rs). Times are microseconds in 64
 bits and additions wrap, as in a release build. The wall clock is an input of each reading.
 */
module Clock {
  import opened Prelude

  datatype ClockMode = Live | Frozen | Stepping(stepUs: Word64)

  datatype ClockState = ClockState(mode: ClockMode, virtualUs: Word64, callCount: Word64)

  function Plus(a: Word64, b: nat): Word64 {
    (a + b) % U64
  }

  /** What a reading returns, and the clock after it. */
  function Read(c: ClockState, wallUs: Word64): (ClockState, Word64) {
    var counted := c.(callCount := Plus(c.callCount, 1));
    match c.mode
    case Live => (counted, wallUs)
    case Frozen => (counted, c.virtualUs)
    case Stepping(stepUs) => (counted.(virtualUs := Plus(c.virtualUs, stepUs)), c.virtualUs)
  }

  datatype Operation = NowUs(wallUs: Word64) | Advance(deltaUs: nat) | SetTime(us: Word64) | Freeze(wallUs: Word64)

  function Perform(c: ClockState, op: Operation): ClockState {
    match op
    case NowUs(wallUs) => Read(c, wallUs).0
    case Advance(deltaUs) => if c.mode.Live? then c else c.(virtualUs := Plus(c.virtualUs, deltaUs % U64))
    case SetTime(us) => c.(virtualUs := us)
    case Freeze(wallUs) => c.(mode := Frozen, virtualUs := if c.mode.Live? then wallUs else c.virtualUs)
  }

  class DeterministicClock {
    var mode: ClockMode
    var virtualUs: Word64
    var callCount: Word64

    constructor (mode: ClockMode, startUs: Word64)
      ensures State() == ClockState(mode, startUs, 0)
    {
      this.mode, virtualUs, callCount := mode, startUs, 0;
    }

    function State(): ClockState
      reads this
    {
      ClockState(mode, virtualUs, callCount)
    }

    method NowUs(wallUs: Word64) returns (us: Word64)
      modifies this
      ensures (State(), us) == Read(old(State()), wallUs)
    {
      callCount := (callCount + 1) % U64;
      match mode {
        case Live => us := wallUs;
        case Frozen => us := virtualUs;
        case Stepping(stepUs) =>
          us := virtualUs;
          virtualUs := (virtualUs + stepUs) % U64;
      }
    }

    method Advance(deltaUs: nat)
      modifies this
      ensures State() == Perform(old(State()), Operation.Advance(deltaUs))
    {
      match mode {
        case Frozen => virtualUs := (virtualUs + deltaUs % U64) % U64;
        case Stepping(_) => virtualUs := (virtualUs + deltaUs % U64) % U64;
        case Live =>
      }
    }

    method SetTime(us: Word64)
      modifies this
      ensures State() == Perform(old(State()), Operation.SetTime(us))
    {
      virtualUs := us;
    }

    method Freeze(wallUs: Word64)
      modifies this
      ensures State() == Perform(old(State()), Operation.Freeze(wallUs))
    {
      var current := if mode.Live? then wallUs else virtualUs;
      mode := Frozen;
      virtualUs := current;
    }
  }

  // ---------- Whole runs ----------

  function RunClock(c: ClockState, walls: seq<Word64>): ClockState {
    if |walls| == 0 then c else Read(RunClock(c, walls[..|walls| - 1]), walls[|walls| - 1]).0
  }

  /** The readings taken one after the other, given the wall-clock time at each. */
  function Readings(c: ClockState, walls: seq<Word64>): (rs: seq<Word64>)
    ensures |rs| == |walls|
  {
    if |walls| == 0 then []
    else
      var n := |walls| - 1;
      Readings(c, walls[..n]) + [Read(RunClock(c, walls[..n]), walls[n]).1]
  }

  lemma ModPlus(a: nat, b: nat)
    ensures Plus(a % U64, b) == (a + b) % U64
  {
  }

  lemma OneMore(n: nat, step: nat)
    ensures (n + 1) * step == n * step + step
  {
  }

  lemma OneStepOn(start: Word64, step: Word64, n: nat)
    ensures Plus(Plus(start, n * step), step) == Plus(start, (n + 1) * step)
  {
    OneMore(n, step);
    ModPlus(start + n * step, step);
  }

  /** A stepping clock has moved one step for each reading so far. */
  lemma {:induction false} SteppingState(start: Word64, step: Word64, count: Word64, walls: seq<Word64>)
    ensures RunClock(ClockState(Stepping(step), start, count), walls)
         == ClockState(Stepping(step), Plus(start, |walls| * step), Plus(count, |walls|))
  {
    if |walls| > 0 {
      var n := |walls| - 1;
      SteppingState(start, step, count, walls[..n]);
      OneStepOn(start, step, n);
      ModPlus(count + n, 1);
    }
  }

  /** The i-th reading of a stepping clock is `start + i * step`, in 64 bits. */
  lemma {:induction false} SteppingReading(start: Word64, step: Word64, count: Word64, walls: seq<Word64>, i: nat)
    requires i < |walls|
    ensures Readings(ClockState(Stepping(step), start, count), walls)[i] == Plus(start, i * step)
    decreases |walls|
  {
    var n := |walls| - 1;
    if i < n {
      SteppingReading(start, step, count, walls[..n], i);
    } else {
      SteppingState(start, step, count, walls[..n]);
    }
  }

  lemma SteppingReadsNext(start: Word64, step: Word64, count: Word64, walls: seq<Word64>, k: nat, wall: Word64)
    requires |walls| == k
    ensures Read(RunClock(ClockState(Stepping(step), start, count), walls), wall).1 == Plus(start, k * step)
  {
    SteppingState(start, step, count, walls);
  }

  /** A frozen clock always reads the same, and only counts. */
  lemma {:induction false} FrozenState(at: Word64, count: Word64, walls: seq<Word64>)
    ensures RunClock(ClockState(Frozen, at, count), walls) == ClockState(Frozen, at, Plus(count, |walls|))
  {
    if |walls| > 0 {
      FrozenState(at, count, walls[..|walls| - 1]);
      ModPlus(count + |walls| - 1, 1);
    }
  }

  lemma {:induction false} LiveState(at: Word64, count: Word64, walls: seq<Word64>)
    ensures RunClock(ClockState(Live, at, count), walls) == ClockState(Live, at, Plus(count, |walls|))
  {
    if |walls| > 0 {
      LiveState(at, count, walls[..|walls| - 1]);
      ModPlus(count + |walls| - 1, 1);
    }
  }

  lemma {:induction false} FrozenReading(at: Word64, count: Word64, walls: seq<Word64>, i: nat)
    requires i < |walls|
    ensures Readings(ClockState(Frozen, at, count), walls)[i] == at
    decreases |walls|
  {
    var n := |walls| - 1;
    if i < n {
      FrozenReading(at, count, walls[..n], i);
    } else {
      FrozenState(at, count, walls[..n]);
    }
  }

  /** A live clock reads the wall clock. */
  lemma {:induction false} LiveReadings(at: Word64, count: Word64, walls: seq<Word64>)
    ensures Readings(ClockState(Live, at, count), walls) == walls
  {
    if |walls| > 0 {
      var n := |walls| - 1;
      LiveReadings(at, count, walls[..n]);
      LiveState(at, count, walls[..n]);
      assert walls == walls[..n] + [walls[n]];
    }
  }

  /** What the next reading is after the clock was set, advanced or frozen. */
  lemma NextReadingAfter(c: ClockState, us: Word64, delta: nat, wall: Word64, later: Word64)
    ensures !c.mode.Live? ==> Read(Perform(c, SetTime(us)), later).1 == us
    ensures !c.mode.Live? ==> Read(Perform(c, Advance(delta)), later).1 == (c.virtualUs + delta) % U64
    ensures Perform(c, SetTime(us)).mode == c.mode == Perform(c, Advance(delta)).mode
    ensures c.mode.Live? ==> Perform(c, Advance(delta)) == c
    ensures Read(Perform(c, Freeze(wall)), later).1 == Read(c, wall).1 && Perform(c, Freeze(wall)).mode == Frozen
  {
    AddMod(c.virtualUs, delta);
  }

  lemma AddMod(a: Word64, b: nat)
    ensures (a + b % U64) % U64 == (a + b) % U64
  {
  }

  function RunOperations(c: ClockState, ops: seq<Operation>): ClockState {
    if |ops| == 0 then c else Perform(RunOperations(c, ops[..|ops| - 1]), ops[|ops| - 1])
  }

  /** The operations differ at most in the wall-clock times they were given. */
  ghost predicate SameButWallClock(a: seq<Operation>, b: seq<Operation>) {
    && |a| == |b|
    && forall i :: 0 <= i < |a| ==> a[i] == b[i] || (a[i].NowUs? && b[i].NowUs?) || (a[i].Freeze? && b[i].Freeze?)
  }

  /** Once frozen or stepping, a clock never depends on the wall clock again, whatever is done to it. */
  lemma {:induction false} DeterministicIgnoresWallClock(c: ClockState, a: seq<Operation>, b: seq<Operation>)
    requires !c.mode.Live? && SameButWallClock(a, b)
    ensures RunOperations(c, a) == RunOperations(c, b) && !RunOperations(c, a).mode.Live?
    ensures forall v, w :: Read(RunOperations(c, a), v).1 == Read(RunOperations(c, b), w).1
  {
    if |a| > 0 {
      var n := |a| - 1;
      DeterministicIgnoresWallClock(c, a[..n], b[..n]);
      assert a[n] == b[n] || (a[n].NowUs? && b[n].NowUs?) || (a[n].Freeze? && b[n].Freeze?);
    }
  }
}
