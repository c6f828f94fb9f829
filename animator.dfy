/** The Animator object: its immutable configuration, its lock-guarded timing
    state as fields that the control operations update in place, its set of
    timing targets, and the callbacks it makes, recorded in two logs. Each
    method is one atomic step; the lock is not modelled. */
module Animation {
  import opened AnimatorEnums
  import opened Timeline
  import opened Notification

  /** startHelper either starts a run or throws IllegalStateException. */
  datatype StartOutcome = Started | AlreadyRunning

  class Animator {
    const cfg: Config

    // Guarded by the lock
    var startTime: int
    var cycleStart: int
    var timeToStop: bool
    var tellRepeat: bool
    var pauseBegin: int
    var running: bool
    var direction: Direction
    ghost var latchLive: bool      // the await latch of the current run has not been released

    // The timing source's view of this animator
    ghost var listening: bool      // registered as a tick listener

    var targets: set<Target>

    // What the animator has done with its callbacks, in order
    ghost var submitted: seq<Call> // handed to the timing source as tasks
    ghost var delivered: seq<Call> // made directly on the tick thread

    /** The guarded fields as a value. */
    function State(): TimingState
      reads this`startTime, this`cycleStart, this`pauseBegin, this`running
      reads this`direction, this`timeToStop, this`tellRepeat
    {
      TimingState(startTime, cycleStart, pauseBegin, running, direction, timeToStop, tellRepeat)
    }

    /** What holds even inside a tick, before its inline stop. */
    ghost predicate Consistent()
      reads this`startTime, this`cycleStart, this`pauseBegin, this`running
      reads this`direction, this`timeToStop, this`tellRepeat
      reads this`latchLive, this`listening
    {
      && Phased(cfg, State())
      && latchLive == running
      && listening == (running && pauseBegin == 0)
    }

    /** The object invariant: a run has a live latch and ticks arrive exactly
        while it runs unpaused. */
    ghost predicate Valid()
      reads this`startTime, this`cycleStart, this`pauseBegin, this`running
      reads this`direction, this`timeToStop, this`tellRepeat
      reads this`latchLive, this`listening
    {
      Consistent() && Inv(cfg, State())
    }

    constructor (config: Config)
      requires ValidConfig(config)
      ensures Valid() && cfg == config && State() == Initial(config)
      ensures targets == {} && submitted == [] && delivered == []
    {
      cfg := config;
      startTime, cycleStart := 0, 0;
      timeToStop, tellRepeat := false, false;
      pauseBegin := 0;
      running := false;
      direction := config.startDirection;
      latchLive, listening := false, false;
      targets, submitted, delivered := {}, [], [];
      InitialInv(config);
    }

    // -------------------------------------------------------------------
    // Targets

    /** A null target is ignored; a target already present is not added twice. */
    method AddTarget(target: Option<Target>)
      modifies this`targets
      ensures target.Some? ==> targets == old(targets) + {target.value}
      ensures target.None? ==> targets == old(targets)
    {
      if target.Some? {
        targets := targets + {target.value};
      }
    }

    method RemoveTarget(target: Target)
      modifies this`targets
      ensures targets == old(targets) - {target}
    {
      targets := targets - {target};
    }

    method ClearTargets()
      modifies this`targets
      ensures targets == {}
    {
      targets := {};
    }

    // -------------------------------------------------------------------
    // Queries

    predicate IsRunning()
      reads this
      requires Valid()
      ensures IsRunning() <==> latchLive
    {
      running
    }

    predicate IsPaused()
      reads this
      ensures IsPaused() ==> running
      ensures IsPaused() == Timeline.IsPaused(State())
    {
      running && pauseBegin > 0
    }

    /** When no run is in progress the current direction is the start
        direction. */
    function GetCurrentDirection(): (d: Direction)
      reads this
      requires Valid()
      ensures !running ==> d == cfg.startDirection
    {
      direction
    }

    /** The cycle's elapsed time is the run's elapsed time less a whole number
        of cycles. */
    function GetCycleElapsedTime(now: int): (e: int)
      reads this
      requires Valid()
      ensures e <= GetTotalElapsedTime(now)
      ensures (GetTotalElapsedTime(now) - e) % cfg.duration == 0
    {
      now - cycleStart
    }

    function GetTotalElapsedTime(now: int): int
      reads this
    {
      now - startTime
    }

    // -------------------------------------------------------------------
    // Starting and stopping

    method StartHelper(dir: Direction, now: int) returns (outcome: StartOutcome)
      requires Valid()
      modifies this
      ensures Valid() && targets == old(targets) && delivered == old(delivered)
      ensures old(running) ==> outcome == AlreadyRunning && unchanged(this)
      ensures !old(running) ==> outcome == Started && State() == Timeline.Start(dir, now)
      ensures !old(running) ==> latchLive && listening
      ensures !old(running) ==> Appended(old(submitted), submitted, OnBegin, targets)
    {
      if running {
        return AlreadyRunning;
      }
      startTime, cycleStart := now, now;
      direction := dir;
      timeToStop, tellRepeat := false, false;
      pauseBegin := 0;
      running := true;
      latchLive := true;
      var calls := Broadcast(OnBegin, targets);
      submitted := submitted + calls;
      listening := true;
      StartInv(cfg, dir, now);
      return Started;
    }

    method Start(now: int) returns (outcome: StartOutcome)
      requires Valid()
      modifies this
      ensures Valid() && targets == old(targets) && delivered == old(delivered)
      ensures old(running) ==> outcome == AlreadyRunning && unchanged(this)
      ensures !old(running) ==> outcome == Started && State() == Timeline.Start(cfg.startDirection, now)
      ensures !old(running) ==> latchLive && listening
      ensures !old(running) ==> Appended(old(submitted), submitted, OnBegin, targets)
    {
      outcome := StartHelper(cfg.startDirection, now);
    }

    method StartReverse(now: int) returns (outcome: StartOutcome)
      requires Valid()
      modifies this
      ensures Valid() && targets == old(targets) && delivered == old(delivered)
      ensures old(running) ==> outcome == AlreadyRunning && unchanged(this)
      ensures !old(running) ==> outcome == Started
      ensures !old(running) ==> State() == Timeline.Start(Opposite(cfg.startDirection), now)
      ensures !old(running) ==> latchLive && listening
      ensures !old(running) ==> Appended(old(submitted), submitted, OnBegin, targets)
    {
      outcome := StartHelper(Opposite(cfg.startDirection), now);
    }

    /** Ends a running animation: the latch is released, the animator leaves
        the timing source, and with `notify` the end callbacks are made, inline
        when called from the tick thread and as a submitted task otherwise. */
    method StopHelper(notify: bool, inCallbackContext: bool) returns (stopped: bool)
      requires Consistent()
      modifies this
      ensures Valid() && stopped == old(running)
      ensures !stopped ==> unchanged(this)
      ensures stopped ==> State() == Timeline.Stop(cfg, old(State()))
      ensures stopped ==> !latchLive && !listening && targets == old(targets)
      ensures !(stopped && notify) ==> submitted == old(submitted) && delivered == old(delivered)
      ensures stopped && notify && inCallbackContext ==>
        && submitted == old(submitted)
        && Appended(old(delivered), delivered, OnEnd, targets)
      ensures stopped && notify && !inCallbackContext ==>
        && delivered == old(delivered)
        && Appended(old(submitted), submitted, OnEnd, targets)
    {
      if !running {
        return false;
      }
      running := false;
      direction := cfg.startDirection;
      latchLive := false;
      listening := false;
      if notify {
        var calls := Broadcast(OnEnd, targets);
        if inCallbackContext {
          delivered := delivered + calls;
        } else {
          submitted := submitted + calls;
        }
      }
      return true;
    }

    method Stop() returns (stopped: bool)
      requires Valid()
      modifies this
      ensures Valid() && stopped == old(running)
      ensures !stopped ==> unchanged(this)
      ensures stopped ==> State() == Timeline.Stop(cfg, old(State()))
      ensures stopped ==> !latchLive && !listening && targets == old(targets)
      ensures delivered == old(delivered)
      ensures stopped ==> Appended(old(submitted), submitted, OnEnd, targets)
    {
      stopped := StopHelper(true, false);
    }

    method Cancel() returns (stopped: bool)
      requires Valid()
      modifies this
      ensures Valid() && stopped == old(running)
      ensures !stopped ==> unchanged(this)
      ensures stopped ==> State() == Timeline.Stop(cfg, old(State()))
      ensures stopped ==> !latchLive && !listening && targets == old(targets)
      ensures submitted == old(submitted) && delivered == old(delivered)
    {
      stopped := StopHelper(false, false);
    }

    // -------------------------------------------------------------------
    // Pausing and reversing

    /** The clock must be positive: a pause begin time of 0 means "not paused". */
    method Pause(now: int)
      requires Valid() && now > 0
      modifies this`pauseBegin, this`listening
      ensures Valid() && State() == Timeline.Pause(old(State()), now)
      ensures !listening
      ensures !old(running) || old(IsPaused()) ==> unchanged(this)
    {
      var canPause := running && !IsPaused();
      if canPause {
        pauseBegin := now;
      }
      if canPause {
        listening := false;
      }
    }

    method Resume(now: int)
      requires Valid()
      modifies this`startTime, this`cycleStart, this`pauseBegin, this`listening
      ensures Valid() && State() == Timeline.Resume(old(State()), now)
      ensures listening == running
      ensures !old(IsPaused()) ==> unchanged(this)
    {
      var paused := IsPaused();
      if paused {
        var pauseDelta := now - pauseBegin;
        startTime := startTime + pauseDelta;
        cycleStart := cycleStart + pauseDelta;
        pauseBegin := 0;
      }
      if paused {
        listening := true;
      }
    }

    method ReverseNow(now: int) returns (reversed: bool)
      requires Valid()
      modifies this`startTime, this`cycleStart, this`direction, this`submitted
      ensures Valid() && reversed == CanReverse(old(State()))
      ensures State() == Timeline.ReverseNow(cfg, old(State()), now)
      ensures !reversed ==> submitted == old(submitted)
      ensures reversed ==> Appended(old(submitted), submitted, OnReverse, targets)
    {
      if !running || IsPaused() {
        return false;
      }
      var cycleElapsedTime := GetCycleElapsedTime(now);
      var timeLeft := cfg.duration - cycleElapsedTime;
      var delta := (now - timeLeft) - cycleStart;
      cycleStart := cycleStart + delta;
      startTime := startTime + delta;
      direction := Opposite(direction);
      var calls := Broadcast(OnReverse, targets);
      submitted := submitted + calls;
      return true;
    }

    // -------------------------------------------------------------------
    // Ticks

    /** The three branches of the fraction computation, with the identity
        interpolator; specified by the pure CalcFraction. */
    method CalcInterpolatedTimingFraction(now: int) returns (fraction: real)
      requires ValidConfig(cfg)
      modifies this`cycleStart, this`direction, this`timeToStop, this`tellRepeat
      ensures fraction == CalcFraction(cfg, old(State()), now).fraction
      ensures State() == CalcFraction(cfg, old(State()), now).next
    {
      var cycleElapsedTime := now - cycleStart;
      var totalElapsedTime := now - startTime;
      var currentCycleCount := JavaDiv(totalElapsedTime, cfg.duration);
      if cfg.repeatCount != INFINITE && currentCycleCount >= cfg.repeatCount {
        match cfg.endBehavior {
          case Hold =>
            fraction := if direction == Backward then 0.0 else 1.0;
          case Reset =>
            fraction := 0.0;
        }
        timeToStop := true;
      } else if cycleElapsedTime > cfg.duration {
        var overCycleTime := cycleElapsedTime % cfg.duration;
        fraction := Ratio(overCycleTime, cfg.duration);
        cycleStart := now - overCycleTime;
        if cfg.repeatBehavior == Reverse {
          direction := Opposite(direction);
        }
        if direction == Backward {
          fraction := 1.0 - fraction;
        }
        tellRepeat := true;
      } else {
        fraction := Ratio(cycleElapsedTime, cfg.duration);
        if direction == Backward {
          fraction := 1.0 - fraction;
        }
        fraction := if fraction < 1.0 then fraction else 1.0;
        fraction := if fraction > 0.0 then fraction else 0.0;
      }
    }

    /** The part of a tick done under the lock: the fraction is computed and
        the two flags are read, the repeat flag being consumed. */
    method ComputeUnderLock(now: int) returns (fraction: real, stopNow: bool, notifyRepeat: bool)
      requires Valid() && running
      modifies this`cycleStart, this`direction, this`timeToStop, this`tellRepeat
      ensures Consistent()
      ensures State() == CalcFraction(cfg, old(State()), now).next.(tellRepeat := false)
      ensures fraction == CalcFraction(cfg, old(State()), now).fraction
      ensures notifyRepeat == RepeatNotified(cfg, old(State()), now)
      ensures stopNow == StopsRun(cfg, old(State()), now) == timeToStop
    {
      CalcPhased(cfg, State(), now);
      fraction := CalcInterpolatedTimingFraction(now);
      stopNow := timeToStop;
      notifyRepeat := tellRepeat;
      tellRepeat := false;
    }

    /** The part of a tick done outside the lock: repeat callbacks when
        flagged, then the timing event, then the inline stop with its end
        callbacks when it is time to stop. */
    method Dispatch(fraction: real, stopNow: bool, notifyRepeat: bool)
      requires Consistent() && stopNow == timeToStop && (stopNow ==> running)
      modifies this
      ensures Valid()
      ensures State() == if stopNow then Timeline.Stop(cfg, old(State())) else old(State())
      ensures targets == old(targets) && submitted == old(submitted)
      ensures TickAppended(old(delivered), delivered, notifyRepeat, fraction, stopNow, targets)
    {
      var repeats: seq<Call> := [];
      if notifyRepeat {
        repeats := Broadcast(OnRepeat, targets);
      }
      var timing := Broadcast(OnTimingEvent(fraction), targets);
      delivered := delivered + repeats + timing;
      ghost var log1 := delivered;
      ghost var ends: seq<Call> := [];
      if stopNow {
        var _ := StopHelper(true, true);
        ends := delivered[|log1|..];
        assert delivered == log1 + ends;
      }
      assert IsBroadcast(timing, OnTimingEvent(fraction), targets);
      TickDeliveryOf(old(delivered), repeats, timing, ends, notifyRepeat, fraction, stopNow, targets);
      assert delivered == old(delivered) + repeats + timing + ends;
    }

    /** One tick of a running animation, specified by the pure Tick. */
    method NotifyListenersAboutATimingSourceTick(now: int)
      requires Valid() && running
      modifies this
      ensures Valid() && State() == Tick(cfg, old(State()), now)
      ensures targets == old(targets) && submitted == old(submitted)
      ensures running == !StopsRun(cfg, old(State()), now)
      ensures TickAppended(old(delivered), delivered,
                           RepeatNotified(cfg, old(State()), now),
                           CalcFraction(cfg, old(State()), now).fraction,
                           StopsRun(cfg, old(State()), now), targets)
    {
      var fraction, stopNow, notifyRepeat := ComputeUnderLock(now);
      Dispatch(fraction, stopNow, notifyRepeat);
    }

    /** The tick listener's entry point: nothing happens unless running. */
    method TimingSourceTick(now: int)
      requires Valid()
      modifies this
      ensures Valid() && State() == Tick(cfg, old(State()), now)
      ensures !old(running) ==> unchanged(this)
      ensures targets == old(targets) && submitted == old(submitted)
      ensures old(running) ==>
        TickAppended(old(delivered), delivered,
                     RepeatNotified(cfg, old(State()), now),
                     CalcFraction(cfg, old(State()), now).fraction,
                     StopsRun(cfg, old(State()), now), targets)
    {
      if running {
        NotifyListenersAboutATimingSourceTick(now);
      }
    }
  }

  /** A second stop finds nothing to stop: stop returns true, then false, and
      the end callbacks are submitted once. */
  method StopTwice(a: Animator) returns (first: bool, second: bool)
    requires a.Valid() && a.running
    modifies a
    ensures first && !second
    ensures Appended(old(a.submitted), a.submitted, OnEnd, a.targets)
  {
    first := a.Stop();
    second := a.Stop();
  }
}
