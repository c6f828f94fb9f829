/** What a sequence of ticks does to a run: the timing source calls
    timingSourceTick at the instants `nows`, in order, and nothing else
    happens in between. */
module Runs {
  import opened AnimatorEnums
  import opened Timeline
  import Arith

  /** The guarded state after ticks at each of `nows`. */
  function Run(cfg: Config, s: TimingState, nows: seq<int>): TimingState
    requires ValidConfig(cfg)
    decreases |nows|
  {
    if nows == [] then s else Run(cfg, Tick(cfg, s, nows[0]), nows[1..])
  }

  /** How many of those ticks notify the repeat callbacks. */
  function Repeats(cfg: Config, s: TimingState, nows: seq<int>): nat
    requires ValidConfig(cfg)
    decreases |nows|
  {
    if nows == [] then 0
    else (if RepeatNotified(cfg, s, nows[0]) then 1 else 0)
         + Repeats(cfg, Tick(cfg, s, nows[0]), nows[1..])
  }

  /** How many of those ticks end the run (each notifies the end callbacks). */
  function Ends(cfg: Config, s: TimingState, nows: seq<int>): nat
    requires ValidConfig(cfg)
    decreases |nows|
  {
    if nows == [] then 0
    else (if StopsRun(cfg, s, nows[0]) then 1 else 0)
         + Ends(cfg, Tick(cfg, s, nows[0]), nows[1..])
  }

  /** `d` turned round `n` times. */
  function Turned(d: Direction, n: nat): Direction
  {
    if n % 2 == 0 then d else Opposite(d)
  }

  lemma TurnedOnceMore(d: Direction, n: nat)
    ensures Turned(Opposite(d), n) == Turned(d, n + 1)
  {
    OppositeInvolutive(d);
  }

  /** Ticks delivered to an animation that is not running change nothing. */
  lemma {:induction false} RunIdle(cfg: Config, s: TimingState, nows: seq<int>)
    requires ValidConfig(cfg) && !s.running
    ensures Run(cfg, s, nows) == s
    ensures Repeats(cfg, s, nows) == 0 && Ends(cfg, s, nows) == 0
    decreases |nows|
  {
    if nows != [] {
      RunIdle(cfg, s, nows[1..]);
    }
  }

  lemma {:induction false} RunInv(cfg: Config, s: TimingState, nows: seq<int>)
    requires Inv(cfg, s)
    ensures Inv(cfg, Run(cfg, s, nows))
    decreases |nows|
  {
    if nows != [] {
      TickInv(cfg, s, nows[0]);
      RunInv(cfg, Tick(cfg, s, nows[0]), nows[1..]);
    }
  }

  /** One tick that leaves the animation running turns it round exactly when
      it notifies a repeat under REVERSE. */
  lemma OneTickDirection(cfg: Config, s: TimingState, now: int)
    requires Inv(cfg, s) && Tick(cfg, s, now).running
    ensures s.running && !StopsRun(cfg, s, now)
    ensures Tick(cfg, s, now).direction
            == (if RepeatNotified(cfg, s, now) && cfg.repeatBehavior == Reverse
                then Opposite(s.direction) else s.direction)
  {
  }

  /** While a run lasts, its direction is the direction it had, turned once
      per repeat under REVERSE and never under LOOP: after N repeats from
      FORWARD it is FORWARD exactly when N is even. */
  lemma {:induction false} DirectionParity(cfg: Config, s: TimingState, nows: seq<int>)
    requires Inv(cfg, s) && Run(cfg, s, nows).running
    ensures Run(cfg, s, nows).direction
            == Turned(s.direction, if cfg.repeatBehavior == Reverse then Repeats(cfg, s, nows) else 0)
    decreases |nows|
  {
    if nows != [] {
      var s' := Tick(cfg, s, nows[0]);
      if !s'.running {
        RunIdle(cfg, s', nows[1..]);
      }
      OneTickDirection(cfg, s, nows[0]);
      TickInv(cfg, s, nows[0]);
      DirectionParity(cfg, s', nows[1..]);
      var rest := if cfg.repeatBehavior == Reverse then Repeats(cfg, s', nows[1..]) else 0;
      if RepeatNotified(cfg, s, nows[0]) && cfg.repeatBehavior == Reverse {
        TurnedOnceMore(s.direction, rest);
      }
    }
  }

  /** Each repeat completes at least one more cycle, and with a finite repeat
      count the completed cycles stay below the count; so from any state the
      ticks notify at most `repeatCount - 1 - CompletedCycles` repeats. */
  lemma {:induction false} RepeatsBounded(cfg: Config, s: TimingState, nows: seq<int>)
    requires Inv(cfg, s) && cfg.repeatCount != INFINITE
    ensures CompletedCycles(cfg, s) + Repeats(cfg, s, nows) <= CompletedCycles(cfg, Run(cfg, s, nows))
    ensures CompletedCycles(cfg, Run(cfg, s, nows)) < cfg.repeatCount
    decreases |nows|
  {
    RunInv(cfg, s, nows);
    if nows != [] {
      var now := nows[0];
      if s.running && CrossesBoundary(cfg, s, now) {
        BoundaryRephases(cfg, s, now);
      }
      TickInv(cfg, s, now);
      RepeatsBounded(cfg, Tick(cfg, s, now), nows[1..]);
    }
  }

  /** A run that has just started notifies fewer repeats than the repeat
      count, whatever the ticks: `repeatCount - 1` at most, one per internal
      cycle boundary. */
  lemma RepeatsPerRun(cfg: Config, dir: Direction, now: int, nows: seq<int>)
    requires ValidConfig(cfg) && cfg.repeatCount != INFINITE
    ensures Repeats(cfg, Start(dir, now), nows) < cfg.repeatCount
  {
    StartInv(cfg, dir, now);
    RepeatsBounded(cfg, Start(dir, now), nows);
  }

  /** The ticks end a run exactly when it was running and is no longer: the
      end callbacks of a naturally completed run are notified once. */
  lemma {:induction false} EndsOnce(cfg: Config, s: TimingState, nows: seq<int>)
    requires Inv(cfg, s)
    ensures Ends(cfg, s, nows) == (if s.running && !Run(cfg, s, nows).running then 1 else 0)
    decreases |nows|
  {
    if nows != [] {
      var s' := Tick(cfg, s, nows[0]);
      TickInv(cfg, s, nows[0]);
      EndsOnce(cfg, s', nows[1..]);
      if !s'.running {
        RunIdle(cfg, s', nows[1..]);
      }
    }
  }

  /** With an INFINITE repeat count a running animation is never ended by its
      ticks. */
  lemma {:induction false} InfiniteRunsOn(cfg: Config, s: TimingState, nows: seq<int>)
    requires Inv(cfg, s) && cfg.repeatCount == INFINITE && s.running
    ensures Run(cfg, s, nows).running && Ends(cfg, s, nows) == 0
    decreases |nows|
  {
    if nows != [] {
      InfiniteNeverStops(cfg, s, nows[0]);
      TickInv(cfg, s, nows[0]);
      InfiniteRunsOn(cfg, Tick(cfg, s, nows[0]), nows[1..]);
    }
  }

  /** A two-cycle REVERSE/HOLD run of duration 10 started at 100: the tick at
      115 crosses into the second cycle, turns backward and shows 0.5; the
      tick at 125 finds both cycles used up, shows the backward edge 0.0 and
      ends the run, back in the start direction. One repeat, one end. */
  lemma TwoCycleScenario()
    ensures var cfg := Config(10, Hold, Reverse, 2, Forward);
      var s0 := Start(Forward, 100);
      var s1 := Tick(cfg, s0, 115);
      && CalcFraction(cfg, s0, 115).fraction == 0.5
      && s1.running && s1.direction == Backward && s1.cycleStart == 110
      && CalcFraction(cfg, s1, 125).fraction == 0.0
      && !Tick(cfg, s1, 125).running && Tick(cfg, s1, 125).direction == Forward
      && Repeats(cfg, s0, [115, 125]) == 1 && Ends(cfg, s0, [115, 125]) == 1
  {
    var cfg := Config(10, Hold, Reverse, 2, Forward);
    var s0 := Start(Forward, 100);
    assert JavaDiv(15, 10) == 1 && 15 % 10 == 5;
    var s1 := Tick(cfg, s0, 115);
    assert s1 == TimingState(100, 110, 0, true, Backward, false, false);
    assert JavaDiv(25, 10) == 2;
    assert [115, 125][1..] == [125];
  }

  /** Repeats are counted per tick that crosses a boundary, not per completed
      cycle. A four-cycle REVERSE/HOLD run of duration 10 started at 100 and
      ticked at 110, 120, 130 and 140: at 110 the cycle has elapsed exactly
      its duration, which is not yet past it; at 120 two cycles are complete
      but the run turns round once, showing 1.0 where a forward third cycle
      would start at 0.0; at 140 the repeats are used up. One repeat is
      notified, not three, and after two completed cycles the direction is
      BACKWARD. */
  lemma SkippedBoundaryScenario()
    ensures var cfg := Config(10, Hold, Reverse, 4, Forward);
      var s0 := Start(Forward, 100);
      var s2 := Run(cfg, s0, [110, 120]);
      && CalcFraction(cfg, s0, 110).fraction == 1.0 && Tick(cfg, s0, 110) == s0
      && CalcFraction(cfg, s0, 120).fraction == 1.0
      && s2.running && CompletedCycles(cfg, s2) == 2 && s2.direction == Backward
      && CalcFraction(cfg, s2, 130).fraction == 0.0
      && Repeats(cfg, s0, [110, 120, 130, 140]) == 1
      && Ends(cfg, s0, [110, 120, 130, 140]) == 1
  {
    var cfg := Config(10, Hold, Reverse, 4, Forward);
    var s0 := Start(Forward, 100);
    assert JavaDiv(10, 10) == 1 && JavaDiv(20, 10) == 2 && 20 % 10 == 0;
    assert Tick(cfg, s0, 110) == s0;
    var s2 := Tick(cfg, s0, 120);
    assert s2 == TimingState(100, 120, 0, true, Backward, false, false);
    assert CompletedCycles(cfg, s2) == 2;
    assert JavaDiv(30, 10) == 3 && JavaDiv(40, 10) == 4;
    assert Tick(cfg, s2, 130) == s2;
    assert [110, 120][1..] == [120] && [120][1..] == [];
    assert [110, 120, 130, 140][1..] == [120, 130, 140];
    assert [120, 130, 140][1..] == [130, 140] && [130, 140][1..] == [140];
    assert [140][1..] == [];
  }

  /** Fine ticks: each tick comes less than one duration `d` after the
      previous instant, the first one less than `d` after `last`. */
  predicate Fine(d: int, last: int, nows: seq<int>)
    decreases |nows|
  {
    nows == [] || (nows[0] - last < d && Fine(d, nows[0], nows[1..]))
  }

  /** One fine tick of a run whose cycle had not overrun at the previous
      instant `last`: the cycle still has not overrun at `now`, a crossed
      boundary completes exactly one more cycle, and a tick that finds the
      repeats used up comes when exactly `repeatCount - 1` cycles have been
      completed. */
  lemma {:induction false} OneTickFine(cfg: Config, s: TimingState, last: int, now: int)
    requires Inv(cfg, s) && s.running && CycleElapsed(s, last) <= cfg.duration
    requires now - last < cfg.duration
    ensures var t := Tick(cfg, s, now);
      && (t.running ==> CycleElapsed(t, now) <= cfg.duration)
      && CompletedCycles(cfg, t) == CompletedCycles(cfg, s) + (if RepeatNotified(cfg, s, now) then 1 else 0)
      && (!t.running ==> cfg.repeatCount != INFINITE && CompletedCycles(cfg, t) == cfg.repeatCount - 1)
  {
    var d := cfg.duration;
    var ce := CycleElapsed(s, now);
    var k := CompletedCycles(cfg, s);
    var total := TotalElapsed(s, now);
    Aligned(cfg, s);
    assert total == k * d + ce;
    assert ce < 2 * d;
    if Exhausted(cfg, s, now) {
      if total < 0 {
        JavaDivTruncates(total, d);
        assert false;
      }
      assert total < (k + 2) * d;
      Arith.DivBelow(total, d, k + 2);
    } else if ce > d {
      Arith.DivModUnique(ce, d, 1, ce - d);
      assert total == (k + 1) * d + (ce - d);
      Arith.DivModUnique(total, d, k + 1, ce - d);
      BoundaryRephases(cfg, s, now);
    } else {
      MidCycle(cfg, s, now);
    }
  }

  /** Under fine ticks every notified repeat completes exactly one cycle, and
      a run that ends has completed exactly `repeatCount - 1` cycles. */
  lemma {:induction false} FineRun(cfg: Config, s: TimingState, last: int, nows: seq<int>)
    requires Inv(cfg, s) && Fine(cfg.duration, last, nows)
    requires s.running ==> CycleElapsed(s, last) <= cfg.duration
    ensures CompletedCycles(cfg, Run(cfg, s, nows)) == CompletedCycles(cfg, s) + Repeats(cfg, s, nows)
    ensures s.running && !Run(cfg, s, nows).running ==>
      cfg.repeatCount != INFINITE && CompletedCycles(cfg, Run(cfg, s, nows)) == cfg.repeatCount - 1
    decreases |nows|
  {
    if nows == [] {
    } else if !s.running {
      RunIdle(cfg, s, nows);
    } else {
      var now := nows[0];
      var t := Tick(cfg, s, now);
      OneTickFine(cfg, s, last, now);
      TickInv(cfg, s, now);
      FineRun(cfg, t, now, nows[1..]);
      if !t.running {
        RunIdle(cfg, t, nows[1..]);
      }
    }
  }

  /** Under fine ticks a completed run notifies exactly `repeatCount - 1`
      repeats: one at each internal cycle boundary. */
  lemma ExactRepeatsPerRun(cfg: Config, dir: Direction, start: int, nows: seq<int>)
    requires ValidConfig(cfg) && Fine(cfg.duration, start, nows)
    requires !Run(cfg, Start(dir, start), nows).running
    ensures cfg.repeatCount != INFINITE
    ensures Repeats(cfg, Start(dir, start), nows) == cfg.repeatCount - 1
  {
    StartInv(cfg, dir, start);
    FineRun(cfg, Start(dir, start), start, nows);
    Arith.DivModUnique(0, cfg.duration, 0, 0);
  }

  /** Under fine ticks and REVERSE, while the run lasts its direction is the
      start direction turned once per completed cycle: a run started FORWARD
      is FORWARD exactly after an even number of completed cycles. */
  lemma CycleParity(cfg: Config, dir: Direction, start: int, nows: seq<int>)
    requires ValidConfig(cfg) && cfg.repeatBehavior == Reverse && Fine(cfg.duration, start, nows)
    requires Run(cfg, Start(dir, start), nows).running
    ensures CompletedCycles(cfg, Run(cfg, Start(dir, start), nows)) >= 0
    ensures Run(cfg, Start(dir, start), nows).direction
            == Turned(dir, CompletedCycles(cfg, Run(cfg, Start(dir, start), nows)))
  {
    StartInv(cfg, dir, start);
    FineRun(cfg, Start(dir, start), start, nows);
    DirectionParity(cfg, Start(dir, start), nows);
    RunInv(cfg, Start(dir, start), nows);
    Aligned(cfg, Run(cfg, Start(dir, start), nows));
    Arith.DivModUnique(0, cfg.duration, 0, 0);
  }
}
