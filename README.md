# Animator timing engine

A Dafny model of the timing engine of the Timing Framework's `Animator`
(`org.jdesktop.core.animation.timing.Animator`). An Animator runs one or
more cycles of a fixed duration. On every tick of its timing source it computes
a fraction in [0, 1] and notifies its timing targets. It handles
repeats (LOOP or REVERSE), a finite or INFINITE repeat count, and the
end behaviour (HOLD or RESET). It can also be paused, resumed, reversed
mid-cycle, stopped and cancelled.

The project has six modules:

- `Arith`: four helper lemmas about integer division and remainder.
- `AnimatorEnums`: the `Direction`, `EndBehavior` and `RepeatBehavior`
  enums, the immutable builder configuration `Config` with `INFINITE = -1`,
  and Java's truncating `long` division `JavaDiv`.
- `Timeline`: the lock-guarded fields as a value `TimingState`. It has:
  - the guarded block of each control operation as a function on that value;
  - `CalcFraction`, the three-branch fraction computation (repeats exhausted,
    cycle boundary crossed, mid-cycle);
  - `Tick`, the guarded effect of one tick;
  - the invariant `Inv`, which every operation keeps: the current cycle starts
    a whole number of cycles after the run, and with a finite repeat count
    fewer than `repeatCount` cycles have been completed.
- `Runs`: a sequence of ticks folded into a run. It proves the direction
  parity, the bound on repeats, and that a completed run ends exactly once.
- `Notification`: targets and callbacks. `Broadcast` is the `for` loop over
  the target set. A callback is recorded as `Call(kind, target)`.
- `Animation`: the class `Animator`. Its fields are the lock-guarded Java
  fields and the target set, which its methods update in place, plus ghost
  fields for what the animator's collaborators see: whether the await latch
  is live, whether the animator is registered with the timing source, and the
  two callback logs. Each method's postcondition ties the new
  state (`State()`) to the `Timeline` function applied to the old state.
  The callbacks go to two logs:
  - `submitted`: tasks handed to the timing source (begin, reverse, and the
    end of `stop`);
  - `delivered`: callbacks made inline on the tick thread (repeat, timing
    event, and the end of a run that completes on a tick).

The clock is a parameter `now`, in nanoseconds. The duration in `Config` is
already in nanoseconds. The fraction is an exact `real`. The interpolator is
the identity.

Two behaviours of the code are easy to misread:

- `stopHelper` (Animator.java:812-822) keeps `f_pauseBeginTimeNanos`. A run
  stopped while paused keeps its pause begin time until the next `start`
  clears it. It is nevertheless not paused, because `isPaused` requires
  running (`Timeline.Stop` states both).
- `reverseNow` (Animator.java:521-533) makes the new cycle elapsed time
  `duration - old` and flips the direction, so the mid-cycle fraction just
  after the reversal is the one just before: the animation turns round where
  it stands instead of jumping to `1 - f` (`Timeline.ReverseKeepsPosition`).

## Model

| member | source | states |
|---|---|---|
| AnimatorEnums.Opposite | JCool-master/JCool-master/lib/timingframework-swing-3.0/org/jdesktop/core/animation/timing/Animator.java:84-99 | getOppositeDirection never returns its own direction |
| AnimatorEnums.OppositeInvolutive | JCool-master/JCool-master/lib/timingframework-swing-3.0/org/jdesktop/core/animation/timing/Animator.java:84-99 | turning round twice gives back the original direction |
| AnimatorEnums.JavaDivTruncates | JCool-master/JCool-master/lib/timingframework-swing-3.0/org/jdesktop/core/animation/timing/Animator.java:682 | the `long` quotient of total elapsed time by duration is the multiple nearest zero: below a non-negative dividend, above a negative one |
| Timeline.InitialInv | JCool-master/JCool-master/lib/timingframework-swing-3.0/org/jdesktop/core/animation/timing/Animator.java:315-325 | a fresh animator (Java zero defaults, current direction = start direction) satisfies the invariant |
| Timeline.Aligned | JCool-master/JCool-master/lib/timingframework-swing-3.0/org/jdesktop/core/animation/timing/Animator.java:711-731 | under the invariant the cycle start lies a non-negative whole number of durations after the run start |
| Timeline.Start | JCool-master/JCool-master/lib/timingframework-swing-3.0/org/jdesktop/core/animation/timing/Animator.java:767-777 | a started run is running and unpaused, faces the requested direction, has zero cycle and total elapsed time at `now`, and has both one-tick flags false |
| Timeline.StartInv | JCool-master/JCool-master/lib/timingframework-swing-3.0/org/jdesktop/core/animation/timing/Animator.java:767-777 | a freshly started run satisfies the invariant |
| Timeline.Stop | JCool-master/JCool-master/lib/timingframework-swing-3.0/org/jdesktop/core/animation/timing/Animator.java:812-822 | a stop ends the run, which is then neither running nor paused, and restores the start direction; the clock fields, the pause begin time and the flags are kept |
| Timeline.Pause | JCool-master/JCool-master/lib/timingframework-swing-3.0/org/jdesktop/core/animation/timing/Animator.java:468-477 | afterwards paused exactly when running; a running, unpaused animation records `now` as its pause begin; otherwise nothing changes; the clock fields are never touched |
| Timeline.Resume | JCool-master/JCool-master/lib/timingframework-swing-3.0/org/jdesktop/core/animation/timing/Animator.java:497-507 | afterwards not paused; when it was paused, cycle and total elapsed time at `now` equal their values at the pause instant and the pause begin is cleared; otherwise a no-op |
| Timeline.ReverseNow | JCool-master/JCool-master/lib/timingframework-swing-3.0/org/jdesktop/core/animation/timing/Animator.java:521-533 | when running and unpaused, the new cycle elapsed time is duration minus the old one, the direction is the opposite, the completed-cycle span is kept, and it can be reversed again; otherwise a no-op |
| Timeline.Clamp | JCool-master/JCool-master/lib/timingframework-swing-3.0/org/jdesktop/core/animation/timing/Animator.java:748-749 | min-then-max lies in [0, 1], keeps values already in [0, 1], and maps values above 1 to 1 and below 0 to 0 |
| Timeline.RatioBounds | JCool-master/JCool-master/lib/timingframework-swing-3.0/org/jdesktop/core/animation/timing/Animator.java:716 | elapsed/duration is non-negative for non-negative elapsed time, at most 1 up to the duration, below 1 before it and exactly 1 at it |
| Timeline.MidCycleFraction | JCool-master/JCool-master/lib/timingframework-swing-3.0/org/jdesktop/core/animation/timing/Animator.java:737-749 | the mid-cycle fraction lies in [0, 1] |
| Timeline.MidCycleMonotone | JCool-master/JCool-master/lib/timingframework-swing-3.0/org/jdesktop/core/animation/timing/Animator.java:737-749 | within a cycle the reported fraction never decreases as elapsed time grows in a forward cycle, and never increases in a backward one |
| Timeline.EndFraction | JCool-master/JCool-master/lib/timingframework-swing-3.0/org/jdesktop/core/animation/timing/Animator.java:690-709 | the end fraction is 1 exactly for HOLD and FORWARD, and 0 exactly otherwise |
| Timeline.CalcFraction | JCool-master/JCool-master/lib/timingframework-swing-3.0/org/jdesktop/core/animation/timing/Animator.java:678-752 | the fraction lies in [0, 1]; the run start, the pause begin and the running flag are never changed by the computation |
| Timeline.Tick | JCool-master/JCool-master/lib/timingframework-swing-3.0/org/jdesktop/core/animation/timing/Animator.java:633-663 | a tick of a stopped animation changes nothing; a tick of a running one leaves the repeat flag cleared; the run start is never moved |
| Timeline.ExhaustedEndsRun | JCool-master/JCool-master/lib/timingframework-swing-3.0/org/jdesktop/core/animation/timing/Animator.java:682-710 | with the repeats used up the fraction is 1 for HOLD+FORWARD and 0 otherwise, the stop flag is raised, no repeat is notified, and the tick ends the run in the start direction without re-phasing |
| Timeline.InfiniteNeverStops | JCool-master/JCool-master/lib/timingframework-swing-3.0/org/jdesktop/core/animation/timing/Animator.java:686 | with an INFINITE repeat count the exhausted branch never fires and the stop flag is never raised |
| Timeline.BoundaryRephases | JCool-master/JCool-master/lib/timingframework-swing-3.0/org/jdesktop/core/animation/timing/Animator.java:711-731 | a crossed boundary re-phases the cycle start to `now` minus (elapsed mod duration), so the new cycle elapsed time lies in [0, duration); the total elapsed time is kept; REVERSE flips the direction and LOOP keeps it; the repeat flag is raised; the fraction is the oriented overshoot share; the completed-cycle count grows by at least one and becomes total elapsed / duration |
| Timeline.MidCycle | JCool-master/JCool-master/lib/timingframework-swing-3.0/org/jdesktop/core/animation/timing/Animator.java:732-750 | inside a cycle nothing in the state changes and the fraction is the clamped oriented share; for a non-negative elapsed time no clamping is needed |
| Timeline.CalcPhased | JCool-master/JCool-master/lib/timingframework-swing-3.0/org/jdesktop/core/animation/timing/Animator.java:641-650 | the computation under the lock, with the repeat flag consumed, keeps the phase invariant; only the exhausted branch raises the stop flag |
| Timeline.TickInv | JCool-master/JCool-master/lib/timingframework-swing-3.0/org/jdesktop/core/animation/timing/Animator.java:633-663 | every tick keeps the invariant |
| Timeline.PauseThenResume | JCool-master/JCool-master/lib/timingframework-swing-3.0/org/jdesktop/core/animation/timing/Animator.java:468-507 | pausing at t1 and resuming at t2 excludes the paused interval: both elapsed times at t2 equal those at t1, the run goes on unpaused in the same direction, and with t1 = t2 the state is restored exactly |
| Timeline.ReverseKeepsPosition | JCool-master/JCool-master/lib/timingframework-swing-3.0/org/jdesktop/core/animation/timing/Animator.java:521-533 | reversing makes the unoriented share of the cycle its complement, so the reported mid-cycle fraction is unchanged by the reversal |
| Timeline.ReverseTwice | JCool-master/JCool-master/lib/timingframework-swing-3.0/org/jdesktop/core/animation/timing/Animator.java:521-533 | reversing twice at the same instant gives back the state |
| Timeline.ControlInv | JCool-master/JCool-master/lib/timingframework-swing-3.0/org/jdesktop/core/animation/timing/Animator.java:468-533 | pause (with a positive clock), resume, reverseNow and stop keep the invariant |
| Runs.RunIdle | JCool-master/JCool-master/lib/timingframework-swing-3.0/org/jdesktop/core/animation/timing/Animator.java:846-849 | ticks delivered to an animation that is not running change nothing and notify neither repeats nor ends |
| Runs.RunInv | JCool-master/JCool-master/lib/timingframework-swing-3.0/org/jdesktop/core/animation/timing/Animator.java:633-663 | any sequence of ticks keeps the invariant |
| Runs.TurnedOnceMore | JCool-master/JCool-master/lib/timingframework-swing-3.0/org/jdesktop/core/animation/timing/Animator.java:84-99 | turning the opposite direction n times is turning the original direction n + 1 times |
| Runs.OneTickDirection | JCool-master/JCool-master/lib/timingframework-swing-3.0/org/jdesktop/core/animation/timing/Animator.java:722-727 | a tick that leaves the run going turns it round exactly when it notifies a repeat under REVERSE |
| Runs.DirectionParity | JCool-master/JCool-master/lib/timingframework-swing-3.0/org/jdesktop/core/animation/timing/Animator.java:722-727 | while the run lasts its direction is the original one turned once per notified repeat under REVERSE and never under LOOP |
| Runs.RepeatsBounded | JCool-master/JCool-master/lib/timingframework-swing-3.0/org/jdesktop/core/animation/timing/Animator.java:682-731 | with a finite repeat count each notified repeat completes at least one more cycle, and the completed cycles stay below the repeat count |
| Runs.RepeatsPerRun | JCool-master/JCool-master/lib/timingframework-swing-3.0/org/jdesktop/core/animation/timing/Animator.java:682-731 | a run that has just started notifies fewer repeats than the repeat count, whatever the ticks |
| Runs.EndsOnce | JCool-master/JCool-master/lib/timingframework-swing-3.0/org/jdesktop/core/animation/timing/Animator.java:660-662 | the ticks notify the end exactly once if they end a running run, and never otherwise |
| Runs.InfiniteRunsOn | JCool-master/JCool-master/lib/timingframework-swing-3.0/org/jdesktop/core/animation/timing/Animator.java:686 | with an INFINITE repeat count a running animation is never ended by its ticks |
| Runs.TwoCycleScenario | JCool-master/JCool-master/lib/timingframework-swing-3.0/org/jdesktop/core/animation/timing/Animator.java:678-752 | a two-cycle REVERSE/HOLD run of duration 10 started at 100 shows 0.5 backward at 115, then 0.0 and ends at 125 in the start direction, with one repeat and one end |
| Runs.SkippedBoundaryScenario | JCool-master/JCool-master/lib/timingframework-swing-3.0/org/jdesktop/core/animation/timing/Animator.java:711-731 | a four-cycle REVERSE/HOLD run of duration 10 ticked at 110, 120, 130, 140 completes two cycles at 120 with a single turn to BACKWARD and notifies one repeat in all, not three |
| Runs.OneTickFine | JCool-master/JCool-master/lib/timingframework-swing-3.0/org/jdesktop/core/animation/timing/Animator.java:711-731 | a tick less than one duration after the previous instant keeps the cycle from overrunning, completes exactly one more cycle when it notifies a repeat and none otherwise, and when it ends the run exactly `repeatCount - 1` cycles are complete |
| Runs.FineRun | JCool-master/JCool-master/lib/timingframework-swing-3.0/org/jdesktop/core/animation/timing/Animator.java:682-731 | under ticks less than one duration apart the completed cycles grow by exactly the notified repeats, and a run that ends has completed exactly `repeatCount - 1` cycles |
| Runs.ExactRepeatsPerRun | JCool-master/JCool-master/lib/timingframework-swing-3.0/org/jdesktop/core/animation/timing/Animator.java:682-731 | under ticks less than one duration apart a run that ends has a finite repeat count and notifies exactly `repeatCount - 1` repeats |
| Runs.CycleParity | JCool-master/JCool-master/lib/timingframework-swing-3.0/org/jdesktop/core/animation/timing/Animator.java:722-727 | under ticks less than one duration apart and REVERSE, the direction of a running run is the start direction turned once per completed cycle |
| Notification.RecipientsAppend | JCool-master/JCool-master/lib/timingframework-swing-3.0/org/jdesktop/core/animation/timing/Animator.java:652-659 | the targets reached by two call sequences one after the other are those of the first followed by those of the second |
| Notification.BroadcastSize | JCool-master/JCool-master/lib/timingframework-swing-3.0/org/jdesktop/core/animation/timing/Animator.java:652-659 | a broadcast makes one call per target and reaches exactly the targets of the set |
| Notification.Broadcast | JCool-master/JCool-master/lib/timingframework-swing-3.0/org/jdesktop/core/animation/timing/Animator.java:657-659 | the loop over the target set makes the given callback once on every target and on nothing else |
| Notification.TickDeliveryOf | JCool-master/JCool-master/lib/timingframework-swing-3.0/org/jdesktop/core/animation/timing/Animator.java:651-662 | the repeat, timing-event and end broadcasts, one after the other, form what a tick delivers, in that order |
| Animation.Animator.constructor | JCool-master/JCool-master/lib/timingframework-swing-3.0/org/jdesktop/core/animation/timing/Animator.java:315-325 | a new animator is in its initial state, satisfies the invariant, and has no targets and no callbacks |
| Animation.Animator.AddTarget | JCool-master/JCool-master/lib/timingframework-swing-3.0/org/jdesktop/core/animation/timing/Animator.java:340-343 | a non-null target joins the set; null is ignored |
| Animation.Animator.RemoveTarget | JCool-master/JCool-master/lib/timingframework-swing-3.0/org/jdesktop/core/animation/timing/Animator.java:356-358 | the target leaves the set |
| Animation.Animator.ClearTargets | JCool-master/JCool-master/lib/timingframework-swing-3.0/org/jdesktop/core/animation/timing/Animator.java:367-369 | the set becomes empty |
| Animation.Animator.IsRunning | JCool-master/JCool-master/lib/timingframework-swing-3.0/org/jdesktop/core/animation/timing/Animator.java:403-407 | running exactly while the run's await latch has not been released |
| Animation.Animator.IsPaused | JCool-master/JCool-master/lib/timingframework-swing-3.0/org/jdesktop/core/animation/timing/Animator.java:485-489 | paused implies running, and agrees with the timeline's notion of paused |
| Animation.Animator.GetCurrentDirection | JCool-master/JCool-master/lib/timingframework-swing-3.0/org/jdesktop/core/animation/timing/Animator.java:416-420 | with no run in progress the current direction is the start direction |
| Animation.Animator.GetCycleElapsedTime | JCool-master/JCool-master/lib/timingframework-swing-3.0/org/jdesktop/core/animation/timing/Animator.java:594-598 | cycle elapsed time is total elapsed time less a non-negative whole number of durations |
| Animation.Animator.StartHelper | JCool-master/JCool-master/lib/timingframework-swing-3.0/org/jdesktop/core/animation/timing/Animator.java:767-791 | starting while running is refused and changes nothing; otherwise the state is a fresh run in the given direction, the latch is live, the animator listens for ticks, and one begin broadcast is submitted |
| Animation.Animator.Start | JCool-master/JCool-master/lib/timingframework-swing-3.0/org/jdesktop/core/animation/timing/Animator.java:378-380 | as StartHelper, in the start direction |
| Animation.Animator.StartReverse | JCool-master/JCool-master/lib/timingframework-swing-3.0/org/jdesktop/core/animation/timing/Animator.java:389-391 | as StartHelper, in the opposite of the start direction |
| Animation.Animator.StopHelper | JCool-master/JCool-master/lib/timingframework-swing-3.0/org/jdesktop/core/animation/timing/Animator.java:812-840 | returns whether it was running; if not, nothing changes; otherwise the run ends as Timeline.Stop, the latch is released, the animator stops listening, and with `notify` one end broadcast is made inline in callback context or submitted otherwise |
| Animation.Animator.Stop | JCool-master/JCool-master/lib/timingframework-swing-3.0/org/jdesktop/core/animation/timing/Animator.java:436-438 | as StopHelper with the end broadcast submitted |
| Animation.Animator.Cancel | JCool-master/JCool-master/lib/timingframework-swing-3.0/org/jdesktop/core/animation/timing/Animator.java:453-455 | as StopHelper with no callback at all |
| Animation.Animator.Pause | JCool-master/JCool-master/lib/timingframework-swing-3.0/org/jdesktop/core/animation/timing/Animator.java:468-477 | the state becomes Timeline.Pause of the old one and the animator no longer listens for ticks; nothing changes unless running and unpaused |
| Animation.Animator.Resume | JCool-master/JCool-master/lib/timingframework-swing-3.0/org/jdesktop/core/animation/timing/Animator.java:497-510 | the state becomes Timeline.Resume of the old one and the animator listens exactly while running; nothing changes unless paused |
| Animation.Animator.ReverseNow | JCool-master/JCool-master/lib/timingframework-swing-3.0/org/jdesktop/core/animation/timing/Animator.java:521-544 | returns whether it could reverse; the state becomes Timeline.ReverseNow of the old one; one reverse broadcast is submitted exactly when it reversed |
| Animation.Animator.CalcInterpolatedTimingFraction | JCool-master/JCool-master/lib/timingframework-swing-3.0/org/jdesktop/core/animation/timing/Animator.java:678-752 | the in-place computation returns CalcFraction's fraction and leaves CalcFraction's state |
| Animation.Animator.ComputeUnderLock | JCool-master/JCool-master/lib/timingframework-swing-3.0/org/jdesktop/core/animation/timing/Animator.java:638-650 | the fraction and the two flags read under the lock are those of CalcFraction, and the repeat flag is consumed |
| Animation.Animator.Dispatch | JCool-master/JCool-master/lib/timingframework-swing-3.0/org/jdesktop/core/animation/timing/Animator.java:651-662 | delivers the repeat broadcast if flagged, then the timing event, then stops inline with one end broadcast if the stop flag is up |
| Animation.Animator.NotifyListenersAboutATimingSourceTick | JCool-master/JCool-master/lib/timingframework-swing-3.0/org/jdesktop/core/animation/timing/Animator.java:633-663 | the state becomes Tick of the old one, the run keeps going exactly when the tick does not end it, and the tick delivers repeat (if notified), timing event and end (if ended), in that order, inline |
| Animation.Animator.TimingSourceTick | JCool-master/JCool-master/lib/timingframework-swing-3.0/org/jdesktop/core/animation/timing/Animator.java:846-849 | a tick of a stopped animator changes nothing; otherwise as NotifyListenersAboutATimingSourceTick |
| Animation.StopTwice | JCool-master/JCool-master/lib/timingframework-swing-3.0/org/jdesktop/core/animation/timing/Animator.java:436-438 | stop followed by stop returns true then false, and the end broadcast is submitted once |

## Left out

- The lock (`f_lock`), `@RegionLock` and the concurrent iteration of the
  `CopyOnWriteArraySet` are not modelled. Each method is one atomic step, and
  a broadcast sees the target set as it is when the method runs, not when a
  submitted task later runs.
- `await` and the `CountDownLatch` are not modelled: blocking and interruption
  have no sequential meaning. The latch is modelled only as the flag
  `latchLive`, which is live exactly while running.
- `TimingSource` is not part of this model. `submit` appends to the
  `submitted` log. `addTickListener`/`removeTickListener` become the flag
  `listening`. Ticks arrive as calls of `TimingSourceTick(now)`.
- The `Interpolator` is not part of this model; it is taken to be the identity.
- Double arithmetic is modelled as exact `real` division, with no rounding.
- `TimeUnit.toNanos` is left out: the duration in `Config` is already in
  nanoseconds. `ValidConfig` requires a duration of at least 1 and a repeat
  count that is positive or INFINITE. The `getDuration` Javadoc
  (Animator.java:143-145) also allows an INFINITE duration. The model
  excludes that case: with a negative duration in nanoseconds, every tick
  would take the boundary branch of lines 711-731.
- `System.nanoTime` is a parameter `now`.
- Java `long` overflow is not modelled; all times are unbounded integers.
- `I18N` message text is left out; an illegal start becomes the outcome
  `AlreadyRunning` instead of an exception.
- The configuration getters (`getDuration` and the others) and the
  no-argument elapsed-time getters are plain reads of immutable or clock
  values, and are not modelled separately.
- Timeline.Pause, Animation.Animator.Pause: both require `now > 0`, because
  a pause begin time of 0 means "not paused". `System.nanoTime` may
  legitimately be zero or negative, and the Java code does not guard against
  it. A pause at such a reading still removes the tick listener
  (Animator.java:475-476), but `isPaused()` stays false, so a `resume()`
  right after it is a no-op (line 500). The model does not cover this case.
  In the code, the run gets no more ticks until one of two things happens:
  - a later `pause()` at a positive reading records a pause (lines 471-473)
    and a `resume()` re-registers it (line 509). The time since the first
    pause is then counted as elapsed, so the animation jumps forward;
  - `stop` or `cancel` ends it.
- Animation.Animator.Dispatch, Animation.Animator.NotifyListenersAboutATimingSourceTick:
  callbacks are recorded, not run, so a target that calls back into the
  animator from inside a callback (`stop`, `start`, `pause`, `reverseNow`) is
  not modelled. The lock is released before the callbacks for this purpose
  (Animator.java:634-636). Java keeps the stop decision in a local read under
  the lock (line 643) and acts on it after the callbacks (lines 660-661). If
  a final tick's `timingEvent` callback calls `stop()` and then `start()`,
  that stale decision makes `stopHelper(true, true)` stop the new run at
  once, with an inline `end` delivered before that run's submitted `begin`.
  The contracts of these two methods assume no such re-entry.
- `GetTotalElapsedTime` has no contract of its own; `GetCycleElapsedTime`
  states its relation to it.
- Runs.DirectionParity, Runs.RepeatsPerRun: for arbitrary ticks the direction
  turns once per notified repeat, and a run notifies fewer than `repeatCount`
  repeats. The per-cycle versions (FORWARD after N completed cycles exactly
  when N is even; exactly `repeatCount - 1` repeats in a completed run) hold
  whenever the ticks come less than one duration apart (`Runs.CycleParity`,
  `Runs.ExactRepeatsPerRun`). They fail only when a gap between ticks reaches
  a whole duration: such a tick re-phases across two boundaries at once with
  one turn and one repeat, as `Runs.SkippedBoundaryScenario` shows. A coarse
  tick that finds the repeats used up also skips every internal boundary it
  passes, with no repeat at all: with a duration of 10 and a repeat count of 4, ticks at 105 and
  145 after a start at 100 notify no repeat. A tick exactly at the end of a
  cycle before the last is still mid-cycle, since the boundary test is strict
  (Animator.java:711); at the end of the last cycle the exhausted test
  (line 686) fires first.
