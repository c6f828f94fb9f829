/** The lock-guarded timing state of an Animator as a value, the guarded
    block of every control operation as a function on it, and the per-tick
    fraction computation with its three branches. The clock is a parameter
    `now` (nanoseconds); durations are in nanoseconds. */
module Timeline {
  import opened AnimatorEnums
  import Arith

  /** The fields of the animator that are guarded by its lock. */
  datatype TimingState = TimingState(
    startTime: int,       // start of the run, shifted by pauses and reversals
    cycleStart: int,      // start of the current cycle
    pauseBegin: int,      // when the current pause began; 0 when not paused
    running: bool,
    direction: Direction,
    timeToStop: bool,     // set by a tick whose repeats are exhausted
    tellRepeat: bool)     // set by a tick that crossed a cycle boundary

  /** A freshly constructed animator: Java's zero defaults, and the current
      direction set to the start direction. */
  function Initial(cfg: Config): TimingState
  {
    TimingState(0, 0, 0, false, cfg.startDirection, false, false)
  }

  function CycleElapsed(s: TimingState, now: int): int
  {
    now - s.cycleStart
  }

  function TotalElapsed(s: TimingState, now: int): int
  {
    now - s.startTime
  }

  /** Paused means running with a pause begin time recorded. */
  predicate IsPaused(s: TimingState)
  {
    s.running && s.pauseBegin > 0
  }

  /** The number of whole cycles between the start of the run and the start of
      the current cycle. */
  function CompletedCycles(cfg: Config, s: TimingState): int
    requires cfg.duration >= 1
  {
    (s.cycleStart - s.startTime) / cfg.duration
  }

  /** What holds of the guarded state throughout, even inside a tick between
      the fraction computation and the inline stop. The current cycle begins a
      whole number of cycles after the run began (every re-phasing keeps the
      phase), and with a finite repeat count fewer cycles than the count have
      been completed. */
  ghost predicate Phased(cfg: Config, s: TimingState)
  {
    && ValidConfig(cfg)
    && s.startTime <= s.cycleStart
    && (s.cycleStart - s.startTime) % cfg.duration == 0
    && (cfg.repeatCount != INFINITE ==> CompletedCycles(cfg, s) < cfg.repeatCount)
    && s.pauseBegin >= 0
    && (!s.running ==> s.direction == cfg.startDirection)
    && !s.tellRepeat
  }

  /** What holds of the guarded state between two operations: in addition, a
      raised stop flag means the run has ended. */
  ghost predicate Inv(cfg: Config, s: TimingState)
  {
    Phased(cfg, s) && (s.timeToStop ==> !s.running)
  }

  lemma {:induction false} InitialInv(cfg: Config)
    requires ValidConfig(cfg)
    ensures Inv(cfg, Initial(cfg))
  {
    Arith.DivModUnique(0, cfg.duration, 0, 0);
  }

  /** The current cycle starts `CompletedCycles` whole durations after the run. */
  lemma Aligned(cfg: Config, s: TimingState)
    requires Inv(cfg, s)
    ensures s.cycleStart - s.startTime == CompletedCycles(cfg, s) * cfg.duration
    ensures CompletedCycles(cfg, s) >= 0
  {
    var a := s.cycleStart - s.startTime;
    assert a == (a / cfg.duration) * cfg.duration + a % cfg.duration;
  }

  // ---------------------------------------------------------------------
  // Control operations: the guarded block of each

  /** startHelper on an animator that is not running: a new run begins now. */
  function Start(dir: Direction, now: int): (r: TimingState)
    ensures r.running && !IsPaused(r) && r.direction == dir
    ensures CycleElapsed(r, now) == 0 && TotalElapsed(r, now) == 0
    ensures !r.timeToStop && !r.tellRepeat
  {
    TimingState(now, now, 0, true, dir, false, false)
  }

  lemma {:induction false} StartInv(cfg: Config, dir: Direction, now: int)
    requires ValidConfig(cfg)
    ensures Inv(cfg, Start(dir, now))
  {
    Arith.DivModUnique(0, cfg.duration, 0, 0);
  }

  /** stopHelper on a running animator: the run ends and the direction returns
      to the start direction. The timing fields and the pause begin time are
      left as they were. */
  function Stop(cfg: Config, s: TimingState): (r: TimingState)
    ensures !r.running && !IsPaused(r) && r.direction == cfg.startDirection
    ensures r.startTime == s.startTime && r.cycleStart == s.cycleStart
    ensures r.pauseBegin == s.pauseBegin
    ensures r.timeToStop == s.timeToStop && r.tellRepeat == s.tellRepeat
  {
    s.(running := false, direction := cfg.startDirection)
  }

  /** pause: only a running, unpaused animation is paused; the clock fields
      are not touched, so nothing about elapsed time changes. */
  function Pause(s: TimingState, now: int): (r: TimingState)
    requires now > 0
    ensures IsPaused(r) <==> s.running
    ensures r.startTime == s.startTime && r.cycleStart == s.cycleStart
    ensures r.running == s.running && r.direction == s.direction
    ensures r.timeToStop == s.timeToStop && r.tellRepeat == s.tellRepeat
    ensures !s.running || IsPaused(s) ==> r == s
    ensures s.running && !IsPaused(s) ==> r.pauseBegin == now
  {
    if s.running && !IsPaused(s) then s.(pauseBegin := now) else s
  }

  /** resume: a paused animation continues as if the pause had not happened:
      at the moment of resuming, cycle and total elapsed time are what they
      were when the pause began. */
  function Resume(s: TimingState, now: int): (r: TimingState)
    ensures !IsPaused(r)
    ensures r.running == s.running && r.direction == s.direction
    ensures r.timeToStop == s.timeToStop && r.tellRepeat == s.tellRepeat
    ensures IsPaused(s) ==> r.pauseBegin == 0
    ensures IsPaused(s) ==> CycleElapsed(r, now) == CycleElapsed(s, s.pauseBegin)
    ensures IsPaused(s) ==> TotalElapsed(r, now) == TotalElapsed(s, s.pauseBegin)
    ensures !IsPaused(s) ==> r == s
  {
    if IsPaused(s) then
      var pauseDelta := now - s.pauseBegin;
      s.(startTime := s.startTime + pauseDelta,
         cycleStart := s.cycleStart + pauseDelta,
         pauseBegin := 0)
    else
      s
  }

  /** reverseNow is refused when the animation is not running or is paused. */
  predicate CanReverse(s: TimingState)
  {
    s.running && !IsPaused(s)
  }

  /** reverseNow: the direction flips and the cycle is re-phased so that the
      time elapsed in it becomes the time that was left in it; both clock
      fields move by the same amount, so the cycle count is kept. */
  function ReverseNow(cfg: Config, s: TimingState, now: int): (r: TimingState)
    requires ValidConfig(cfg)
    ensures CanReverse(s) ==> CycleElapsed(r, now) == cfg.duration - CycleElapsed(s, now)
    ensures CanReverse(s) ==> r.direction == Opposite(s.direction)
    ensures CanReverse(s) ==> r.cycleStart - r.startTime == s.cycleStart - s.startTime
    ensures CanReverse(s) ==> CanReverse(r) && r.pauseBegin == s.pauseBegin
    ensures r.timeToStop == s.timeToStop && r.tellRepeat == s.tellRepeat
    ensures !CanReverse(s) ==> r == s
  {
    if !s.running || IsPaused(s) then
      s
    else
      var cycleElapsed := CycleElapsed(s, now);
      var timeLeft := cfg.duration - cycleElapsed;
      var delta := (now - timeLeft) - s.cycleStart;
      s.(cycleStart := s.cycleStart + delta,
         startTime := s.startTime + delta,
         direction := Opposite(s.direction))
  }

  // ---------------------------------------------------------------------
  // The fraction of a tick

  /** Math.min(x, 1.0) followed by Math.max(_, 0.0). */
  function Clamp(x: real): (y: real)
    ensures 0.0 <= y <= 1.0
    ensures 0.0 <= x <= 1.0 ==> y == x
    ensures x > 1.0 ==> y == 1.0
    ensures x < 0.0 ==> y == 0.0
  {
    var m := if x < 1.0 then x else 1.0;
    if m > 0.0 then m else 0.0
  }

  /** `n / d` in exact arithmetic (Java divides doubles here). */
  function Ratio(n: int, d: int): real
    requires d >= 1
  {
    n as real / d as real
  }

  lemma RatioBounds(n: int, d: int)
    requires d >= 1
    ensures 0 <= n ==> 0.0 <= Ratio(n, d)
    ensures n <= d ==> Ratio(n, d) <= 1.0
    ensures n < d ==> Ratio(n, d) < 1.0
    ensures n == d ==> Ratio(n, d) == 1.0
  {
    var x, y := n as real, d as real;
    assert x == Ratio(n, d) * y;
  }

  /** A backward cycle reports the inverse fraction. */
  function Oriented(f: real, dir: Direction): real
  {
    if dir == Backward then 1.0 - f else f
  }

  /** The mid-cycle branch: the elapsed share of the cycle, inverted for a
      backward cycle, clamped to the unit interval. */
  function MidCycleFraction(cycleElapsed: int, duration: int, dir: Direction): (f: real)
    requires duration >= 1
    ensures 0.0 <= f <= 1.0
  {
    Clamp(Oriented(Ratio(cycleElapsed, duration), dir))
  }

  /** Within a cycle the reported fraction moves one way: it never decreases
      as the cycle's elapsed time grows in a forward cycle, and never
      increases in a backward one. */
  lemma MidCycleMonotone(ce1: int, ce2: int, d: int)
    requires d >= 1 && ce1 <= ce2
    ensures MidCycleFraction(ce1, d, Forward) <= MidCycleFraction(ce2, d, Forward)
    ensures MidCycleFraction(ce1, d, Backward) >= MidCycleFraction(ce2, d, Backward)
  {
    var y := d as real;
    assert ce2 as real - ce1 as real >= 0.0;
    assert Ratio(ce2, d) - Ratio(ce1, d) == (ce2 as real - ce1 as real) / y;
    assert Ratio(ce1, d) <= Ratio(ce2, d);
  }

  /** The fraction shown once the repeats are exhausted: HOLD keeps the edge
      last reached, RESET goes back to the start. */
  function EndFraction(cfg: Config, dir: Direction): (f: real)
    ensures f == 1.0 <==> cfg.endBehavior.Hold? && dir.Forward?
    ensures f == 0.0 <==> !(cfg.endBehavior.Hold? && dir.Forward?)
  {
    match cfg.endBehavior
    case Hold => if dir == Backward then 0.0 else 1.0
    case Reset => 0.0
  }

  /** The first branch: a finite repeat count whose cycles have all elapsed. */
  predicate Exhausted(cfg: Config, s: TimingState, now: int)
    requires cfg.duration >= 1
  {
    cfg.repeatCount != INFINITE
    && JavaDiv(TotalElapsed(s, now), cfg.duration) >= cfg.repeatCount
  }

  /** The second branch: the tick overshot the end of the current cycle. */
  predicate CrossesBoundary(cfg: Config, s: TimingState, now: int)
    requires cfg.duration >= 1
  {
    !Exhausted(cfg, s, now) && CycleElapsed(s, now) > cfg.duration
  }

  /** The fraction of a tick and the guarded state it leaves behind. */
  datatype Step = Step(fraction: real, next: TimingState)

  /** calcInterpolatedTimingFraction, with the identity interpolator. Only the
      cycle start, the direction and the two one-tick flags can change; the
      fraction always lies in the unit interval. */
  function CalcFraction(cfg: Config, s: TimingState, now: int): (t: Step)
    requires ValidConfig(cfg)
    ensures 0.0 <= t.fraction <= 1.0
    ensures t.next.startTime == s.startTime && t.next.pauseBegin == s.pauseBegin
    ensures t.next.running == s.running
  {
    var cycleElapsed := CycleElapsed(s, now);
    if Exhausted(cfg, s, now) then
      Step(EndFraction(cfg, s.direction), s.(timeToStop := true))
    else if cycleElapsed > cfg.duration then
      // cycleElapsed is positive here, so Java's % agrees with Dafny's
      var overCycle := cycleElapsed % cfg.duration;
      var dir := if cfg.repeatBehavior == Reverse then Opposite(s.direction) else s.direction;
      RatioBounds(overCycle, cfg.duration);
      Step(Oriented(Ratio(overCycle, cfg.duration), dir),
           s.(cycleStart := now - overCycle, direction := dir, tellRepeat := true))
    else
      Step(MidCycleFraction(cycleElapsed, cfg.duration, s.direction), s)
  }

  /** The guarded effect of timingSourceTick: nothing unless running;
      otherwise the fraction is computed, the repeat flag is consumed, and a
      tick that found the repeats exhausted stops the run inline. */
  function Tick(cfg: Config, s: TimingState, now: int): (r: TimingState)
    requires ValidConfig(cfg)
    ensures !s.running ==> r == s
    ensures s.running ==> !r.tellRepeat
    ensures r.startTime == s.startTime
  {
    if !s.running then
      s
    else
      var next := CalcFraction(cfg, s, now).next.(tellRepeat := false);
      if next.timeToStop then Stop(cfg, next) else next
  }

  /** Whether the tick notifies the repeat callbacks. */
  predicate RepeatNotified(cfg: Config, s: TimingState, now: int)
    requires ValidConfig(cfg)
  {
    s.running && CalcFraction(cfg, s, now).next.tellRepeat
  }

  /** Whether the tick ends the run (and so notifies the end callbacks). */
  predicate StopsRun(cfg: Config, s: TimingState, now: int)
    requires ValidConfig(cfg)
  {
    s.running && CalcFraction(cfg, s, now).next.timeToStop
  }

  // ---------------------------------------------------------------------
  // Properties of a tick

  /** Exhausted repeats: the fraction is the end fraction, the stop flag is
      raised, and the tick ends the run with the start direction restored. */
  lemma ExhaustedEndsRun(cfg: Config, s: TimingState, now: int)
    requires Inv(cfg, s) && s.running && Exhausted(cfg, s, now)
    ensures CalcFraction(cfg, s, now).fraction
            == (if cfg.endBehavior == Hold && s.direction == Forward then 1.0 else 0.0)
    ensures StopsRun(cfg, s, now) && !RepeatNotified(cfg, s, now)
    ensures !Tick(cfg, s, now).running
    ensures Tick(cfg, s, now).direction == cfg.startDirection
    ensures Tick(cfg, s, now).cycleStart == s.cycleStart
  {
  }

  /** With an INFINITE repeat count no tick ever raises the stop flag. */
  lemma InfiniteNeverStops(cfg: Config, s: TimingState, now: int)
    requires ValidConfig(cfg) && cfg.repeatCount == INFINITE
    ensures !Exhausted(cfg, s, now)
    ensures CalcFraction(cfg, s, now).next.timeToStop == s.timeToStop
  {
  }

  /** A crossed boundary re-phases the cycle start to `now` minus the
      overshoot, so the new cycle's elapsed time lies in [0, duration); the
      phase stays aligned with the run's start and the cycle count becomes the
      run's total elapsed time in whole cycles. REVERSE flips the direction,
      LOOP keeps it, and the repeat flag is raised. */
  lemma {:induction false} BoundaryRephases(cfg: Config, s: TimingState, now: int)
    requires Inv(cfg, s) && s.running && CrossesBoundary(cfg, s, now)
    ensures var t := CalcFraction(cfg, s, now);
      && CycleElapsed(t.next, now) == CycleElapsed(s, now) % cfg.duration
      && 0 <= CycleElapsed(t.next, now) < cfg.duration
      && TotalElapsed(t.next, now) == TotalElapsed(s, now)
      && t.next.direction == (if cfg.repeatBehavior == Reverse then Opposite(s.direction) else s.direction)
      && t.next.tellRepeat && !t.next.timeToStop
      && t.fraction == Oriented(Ratio(CycleElapsed(t.next, now), cfg.duration), t.next.direction)
      && s.startTime <= t.next.cycleStart
      && (t.next.cycleStart - t.next.startTime) % cfg.duration == 0
      && CompletedCycles(cfg, t.next) == JavaDiv(TotalElapsed(s, now), cfg.duration)
      && CompletedCycles(cfg, t.next) >= CompletedCycles(cfg, s) + 1
  {
    var d := cfg.duration;
    var t := CalcFraction(cfg, s, now);
    var ce := CycleElapsed(s, now);
    var k := CompletedCycles(cfg, s);
    Aligned(cfg, s);
    var qc, over := ce / d, ce % d;
    assert ce == qc * d + over;
    assert qc >= 1;
    assert t.next.cycleStart == now - over;
    var shift := t.next.cycleStart - s.startTime;
    assert shift == (qc + k) * d by {
      assert shift == ce - over + (s.cycleStart - s.startTime);
      assert (qc + k) * d == qc * d + k * d;
    }
    Arith.DivModUnique(shift, d, qc + k, 0);
    Arith.MulAtLeast(qc + k, d);
    var total := TotalElapsed(s, now);
    assert total == (qc + k) * d + over;
    Arith.DivModUnique(total, d, qc + k, over);
  }

  /** Mid-cycle: nothing in the state changes, the fraction is the clamped
      oriented share, and within the cycle no clamping is needed. */
  lemma MidCycle(cfg: Config, s: TimingState, now: int)
    requires ValidConfig(cfg)
    requires !Exhausted(cfg, s, now) && CycleElapsed(s, now) <= cfg.duration
    ensures CalcFraction(cfg, s, now).next == s
    ensures CalcFraction(cfg, s, now).fraction
            == MidCycleFraction(CycleElapsed(s, now), cfg.duration, s.direction)
    ensures 0 <= CycleElapsed(s, now) ==>
      CalcFraction(cfg, s, now).fraction
      == Oriented(Ratio(CycleElapsed(s, now), cfg.duration), s.direction)
  {
    RatioBounds(CycleElapsed(s, now), cfg.duration);
  }

  /** The fraction computation, once the repeat flag is consumed, keeps the
      phase; the stop flag it may raise is dealt with by the inline stop. */
  lemma {:induction false} CalcPhased(cfg: Config, s: TimingState, now: int)
    requires Inv(cfg, s) && s.running
    ensures Phased(cfg, CalcFraction(cfg, s, now).next.(tellRepeat := false))
    ensures !Exhausted(cfg, s, now) ==> !CalcFraction(cfg, s, now).next.timeToStop
  {
    if CrossesBoundary(cfg, s, now) {
      BoundaryRephases(cfg, s, now);
    }
  }

  /** Every tick keeps the invariant. */
  lemma {:induction false} TickInv(cfg: Config, s: TimingState, now: int)
    requires Inv(cfg, s)
    ensures Inv(cfg, Tick(cfg, s, now))
  {
    if s.running {
      CalcPhased(cfg, s, now);
    }
  }

  // ---------------------------------------------------------------------
  // Properties of the control operations

  /** Pause and resume exclude the paused interval: after resuming at `t2`
      the elapsed times are those at the pause instant `t1`, and resuming at
      the instant of pausing restores the state exactly. */
  lemma PauseThenResume(cfg: Config, s: TimingState, t1: int, t2: int)
    requires Inv(cfg, s) && s.running && !IsPaused(s) && t1 > 0
    ensures var r := Resume(Pause(s, t1), t2);
      && CycleElapsed(r, t2) == CycleElapsed(s, t1)
      && TotalElapsed(r, t2) == TotalElapsed(s, t1)
      && r.running && !IsPaused(r) && r.direction == s.direction
      && (t1 == t2 ==> r == s)
  {
  }

  /** Reversing mirrors the position in the cycle: the unoriented share
      becomes its complement, and with the direction flipped the reported
      mid-cycle fraction is the same as just before, so the animation turns
      round where it stands. */
  lemma {:induction false} ReverseKeepsPosition(cfg: Config, s: TimingState, now: int)
    requires ValidConfig(cfg) && CanReverse(s)
    ensures var r := ReverseNow(cfg, s, now);
      && Ratio(CycleElapsed(r, now), cfg.duration) == 1.0 - Ratio(CycleElapsed(s, now), cfg.duration)
      && MidCycleFraction(CycleElapsed(r, now), cfg.duration, r.direction)
         == MidCycleFraction(CycleElapsed(s, now), cfg.duration, s.direction)
  {
    var d := cfg.duration;
    var ce := CycleElapsed(s, now);
    var x, y := ce as real, d as real;
    assert CycleElapsed(ReverseNow(cfg, s, now), now) == d - ce;
    assert (d - ce) as real == y - x;
    assert (y - x) / y == y / y - x / y;
    assert y / y == 1.0;
  }

  /** Reversing twice at the same instant gives back the state. */
  lemma ReverseTwice(cfg: Config, s: TimingState, now: int)
    requires ValidConfig(cfg) && CanReverse(s)
    ensures ReverseNow(cfg, ReverseNow(cfg, s, now), now) == s
  {
    OppositeInvolutive(s.direction);
  }

  /** The control operations keep the invariant. */
  lemma ControlInv(cfg: Config, s: TimingState, now: int)
    requires Inv(cfg, s)
    ensures now > 0 ==> Inv(cfg, Pause(s, now))
    ensures Inv(cfg, Resume(s, now))
    ensures Inv(cfg, ReverseNow(cfg, s, now))
    ensures Inv(cfg, Stop(cfg, s))
  {
  }
}
