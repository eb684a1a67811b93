/**
 * The compositor's watchdog over the shell process: restarts with exponential backoff.
 *
 * Times are nanoseconds of a monotonic clock.  A poll of the child reads the clock up to three times, and
 * what the system answers is arbitrary.
 */
module Watchdog {

  const SECOND := 1_000_000_000
  const MIN_DELAY := 2 * SECOND
  const MAX_DELAY := 30 * SECOND
  const STABLE_AFTER := 10 * SECOND

  /** `saturating_mul` never saturates here: a delay is at most half a minute. */
  function NextDelay(current: nat): nat {
    var doubled := 2 * current;
    if doubled < MIN_DELAY then MIN_DELAY else if doubled > MAX_DELAY then MAX_DELAY else doubled
  }

  /** What `try_wait` reports. */
  datatype Poll = Exited | StillRunning | WaitError

  /** Clock readings of one tick, in the order they are taken. */
  datatype Readings = Readings(polled: int, checked: int, started: int)

  datatype State = State(tracked: bool, lastStart: int, delay: nat, shuttingDown: bool)

  function New(now: int): State {
    State(false, now - 5 * SECOND, MIN_DELAY, false)
  }

  function Started(s: State, spawned: bool, now: int): State {
    if s.shuttingDown then s
    else if spawned then s.(tracked := true, lastStart := now)
    else s.(delay := NextDelay(s.delay))
  }

  function AfterPoll(s: State, poll: Poll, now: int): State {
    if !s.tracked then s
    else match poll
      case Exited =>
        s.(tracked := false, delay := if now - s.lastStart >= STABLE_AFTER then MIN_DELAY else NextDelay(s.delay))
      case StillRunning => s
      case WaitError => s.(tracked := false)
  }

  /** A tick tries to start the shell once no child is tracked and the delay has passed. */
  predicate Tries(s: State, poll: Poll, r: Readings) {
    var polled := AfterPoll(s, poll, r.polled);
    !s.shuttingDown && !polled.tracked && r.checked - polled.lastStart >= polled.delay
  }

  function Watched(s: State, poll: Poll, r: Readings, spawned: bool): State {
    if s.shuttingDown then s
    else
      var polled := AfterPoll(s, poll, r.polled);
      if Tries(s, poll, r) then Started(polled, spawned, r.started) else polled
  }

  function Stopped(s: State): State {
    s.(tracked := false, shuttingDown := true)
  }

  class ShellWatchdog {
    var child: bool
    var lastStart: int
    var restartDelay: nat
    var shuttingDown: bool

    ghost function Model(): State
      reads this
    {
      State(child, lastStart, restartDelay, shuttingDown)
    }

    constructor (now: int)
      ensures Model() == New(now)
    {
      child, lastStart, restartDelay, shuttingDown := false, now - 5 * SECOND, MIN_DELAY, false;
    }

    method Start(spawned: bool, now: int)
      modifies this
      ensures Model() == Started(old(Model()), spawned, now)
    {
      if shuttingDown {
        return;
      }
      if spawned {
        child := true;
        lastStart := now;
      } else {
        BumpRestartDelay();
      }
    }

    method Watch(poll: Poll, r: Readings, spawned: bool)
      modifies this
      ensures Model() == Watched(old(Model()), poll, r, spawned)
    {
      if shuttingDown {
        return;
      }
      if child {
        match poll {
          case Exited =>
            var uptime := r.polled - lastStart;
            if uptime >= STABLE_AFTER {
              restartDelay := MIN_DELAY;
            } else {
              BumpRestartDelay();
            }
            child := false;
          case StillRunning =>
            return;
          case WaitError =>
            child := false;
        }
      }
      if !child && r.checked - lastStart >= restartDelay {
        Start(spawned, r.started);
      }
    }

    method BumpRestartDelay()
      modifies `restartDelay
      ensures restartDelay == NextDelay(old(restartDelay))
    {
      restartDelay := NextDelay(restartDelay);
    }

    method Stop()
      modifies this
      ensures Model() == Stopped(old(Model()))
    {
      shuttingDown := true;
      child := false;
    }
  }

  // ----- Runs -----

  datatype Step = WatchStep(poll: Poll, r: Readings, spawned: bool) | StopStep

  function Next(s: State, step: Step): State {
    match step
    case WatchStep(poll, r, spawned) => Watched(s, poll, r, spawned)
    case StopStep => Stopped(s)
  }

  /** The first start, then ticks and stops.  `run[k]` is the state before step `k`. */
  ghost predicate IsRun(created: int, spawned: bool, first: int, run: seq<State>, steps: seq<Step>) {
    && |run| == |steps| + 1
    && created <= first && run[0] == Started(New(created), spawned, first)
    && (forall k :: 0 <= k < |steps| ==> run[k + 1] == Next(run[k], steps[k]))
    && ClockAdvances(first, steps)
  }

  /** The clock never runs backwards, within a tick or from tick to tick. */
  ghost predicate ClockAdvances(first: int, steps: seq<Step>) {
    && (forall k :: 0 <= k < |steps| && steps[k].WatchStep? ==>
          first <= steps[k].r.polled <= steps[k].r.checked <= steps[k].r.started)
    && (forall j, k :: 0 <= j < k < |steps| && steps[j].WatchStep? && steps[k].WatchStep? ==>
          steps[j].r.started <= steps[k].r.polled)
  }

  /** Step `k` starts a shell. */
  predicate Starts(s: State, step: Step) {
    step.WatchStep? && Tries(s, step.poll, step.r) && step.spawned
  }

  /** The delay that applied when step `k` looked at it. */
  function DelayAt(s: State, step: Step): nat
    requires step.WatchStep?
  {
    AfterPoll(s, step.poll, step.r.polled).delay
  }

  lemma {:induction false} DelayInRange(created: int, spawned: bool, first: int, run: seq<State>, steps: seq<Step>,
      k: nat)
    requires IsRun(created, spawned, first, run, steps) && k < |run|
    ensures MIN_DELAY <= run[k].delay <= MAX_DELAY
    decreases k
  {
    if k > 0 {
      DelayInRange(created, spawned, first, run, steps, k - 1);
      assert run[k - 1 + 1] == Next(run[k - 1], steps[k - 1]);
    } else {
      assert run[k] == run[0];
    }
  }

  /** A start never happens while a child is tracked, nor after a stop. */
  lemma {:induction false} StartsOnlyWhenFree(s: State, step: Step)
    requires Starts(s, step)
    ensures !s.shuttingDown && (s.tracked ==> step.poll != StillRunning)
    ensures !AfterPoll(s, step.poll, step.r.polled).tracked && Next(s, step).tracked
    ensures Next(s, step).lastStart == step.r.started
  {
  }

  /** Step `k` ends the tracking of a shell: it exited, could not be waited for, or was stopped. */
  predicate Ends(s: State, step: Step) {
    s.tracked && (step.StopStep? || (!s.shuttingDown && step.poll != StillRunning))
  }

  /** Between two starts the earlier shell was seen to end. */
  lemma {:induction false} EndBetweenStarts(created: int, spawned: bool, first: int, run: seq<State>, steps: seq<Step>,
                                           j: nat, k: nat) returns (i: nat)
    requires IsRun(created, spawned, first, run, steps) && j < k < |steps|
    requires Starts(run[j], steps[j]) && Starts(run[k], steps[k])
    ensures j < i <= k && Ends(run[i], steps[i]) && steps[i].WatchStep?
  {
    StartsOnlyWhenFree(run[j], steps[j]);
    assert run[j + 1] == Next(run[j], steps[j]);
    i := FirstEnd(created, spawned, first, run, steps, j + 1, k);
    if steps[i] == StopStep {
      assert i < k;
      NothingAfterStop(created, spawned, first, run, steps, i, k);
      assert false;
    }
  }

  lemma {:induction false} FirstEnd(created: int, spawned: bool, first: int, run: seq<State>, steps: seq<Step>,
                                   i: nat, k: nat) returns (end: nat)
    requires IsRun(created, spawned, first, run, steps) && i <= k < |steps|
    requires run[i].tracked && Starts(run[k], steps[k])
    ensures i <= end <= k && Ends(run[end], steps[end])
    decreases k - i
  {
    if Ends(run[i], steps[i]) {
      end := i;
    } else {
      assert run[i + 1] == Next(run[i], steps[i]);
      end := FirstEnd(created, spawned, first, run, steps, i + 1, k);
    }
  }

  function StartsSoFar(spawned: bool, run: seq<State>, steps: seq<Step>, k: nat): nat
    requires k <= |steps| < |run|
  {
    if k == 0 then if spawned then 1 else 0
    else StartsSoFar(spawned, run, steps, k - 1) + if Starts(run[k - 1], steps[k - 1]) then 1 else 0
  }

  function EndsSoFar(run: seq<State>, steps: seq<Step>, k: nat): nat
    requires k <= |steps| < |run|
  {
    if k == 0 then 0
    else EndsSoFar(run, steps, k - 1) + if Ends(run[k - 1], steps[k - 1]) then 1 else 0
  }

  /** Every shell started has ended, except the one that is tracked. */
  lemma {:induction false} StartsMatchEnds(created: int, spawned: bool, first: int, run: seq<State>, steps: seq<Step>,
                                          k: nat)
    requires IsRun(created, spawned, first, run, steps) && k < |run|
    ensures StartsSoFar(spawned, run, steps, k) == EndsSoFar(run, steps, k) + if run[k].tracked then 1 else 0
    decreases k
  {
    if k == 0 {
      assert run[k] == Started(New(created), spawned, first);
    } else {
      StartsMatchEnds(created, spawned, first, run, steps, k - 1);
      assert run[k - 1 + 1] == Next(run[k - 1], steps[k - 1]);
    }
  }

  /**
   * An ended shell comes back: until a stop, the first tick later than the delay in force after the last start
   * whose spawn succeeds starts it, unless a tick before did.
   */
  lemma {:induction false} RestartsInTime(created: int, spawned: bool, first: int, run: seq<State>, steps: seq<Step>,
                                         i: nat, k: nat) returns (j: nat)
    requires IsRun(created, spawned, first, run, steps) && i <= k < |steps|
    requires !run[i].tracked && !run[k].shuttingDown && steps[k].WatchStep? && steps[k].spawned
    requires steps[k].r.checked - run[i].lastStart >= DelayAt(run[k], steps[k])
    ensures i <= j <= k && Starts(run[j], steps[j])
    decreases k - i
  {
    StillOpen(created, spawned, first, run, steps, i, k);
    if i == k || Starts(run[i], steps[i]) {
      j := i;
    } else {
      assert run[i + 1] == Next(run[i], steps[i]);
      j := RestartsInTime(created, spawned, first, run, steps, i + 1, k);
    }
  }

  lemma {:induction false} StillOpen(created: int, spawned: bool, first: int, run: seq<State>, steps: seq<Step>,
                                    i: nat, k: nat)
    requires IsRun(created, spawned, first, run, steps) && i <= k < |run| && !run[k].shuttingDown
    ensures !run[i].shuttingDown
    decreases k - i
  {
    if i < k {
      assert run[k - 1 + 1] == Next(run[k - 1], steps[k - 1]);
      StillOpen(created, spawned, first, run, steps, i, k - 1);
    }
  }

  lemma {:induction false} NothingAfterStop(created: int, spawned: bool, first: int, run: seq<State>, steps: seq<Step>,
                                           stop: nat, k: nat)
    requires IsRun(created, spawned, first, run, steps) && stop < k < |run| && steps[stop] == StopStep
    ensures run[k].shuttingDown && !run[k].tracked
    ensures k < |steps| ==> !Starts(run[k], steps[k]) && Next(run[k], steps[k]) == run[k]
    decreases k
  {
    assert run[k - 1 + 1] == Next(run[k - 1], steps[k - 1]);
    if k > stop + 1 {
      NothingAfterStop(created, spawned, first, run, steps, stop, k - 1);
    }
  }

  /** Without a start in between, the time of the last start stands. */
  lemma {:induction false} LastStartStands(created: int, spawned: bool, first: int, run: seq<State>, steps: seq<Step>,
                                          j: nat, k: nat)
    requires IsRun(created, spawned, first, run, steps) && j <= k < |run|
    requires forall i :: j <= i < k ==> !Starts(run[i], steps[i])
    ensures run[k].lastStart == run[j].lastStart
    decreases k
  {
    if j < k {
      LastStartStands(created, spawned, first, run, steps, j, k - 1);
      assert run[k - 1 + 1] == Next(run[k - 1], steps[k - 1]);
      assert !Starts(run[k - 1], steps[k - 1]);
    }
  }

  /** Two successive starts are at least the delay apart that applies at the later one, hence two seconds. */
  lemma {:induction false} StartsAreSpaced(created: int, spawned: bool, first: int, run: seq<State>, steps: seq<Step>,
                                          j: nat, k: nat)
    requires IsRun(created, spawned, first, run, steps) && j < k < |steps|
    requires Starts(run[j], steps[j]) && Starts(run[k], steps[k])
    requires forall i :: j < i < k ==> !Starts(run[i], steps[i])
    ensures steps[k].r.started - steps[j].r.started >= DelayAt(run[k], steps[k]) >= MIN_DELAY
  {
    StartsOnlyWhenFree(run[j], steps[j]);
    LastStartStands(created, spawned, first, run, steps, j + 1, k);
    assert run[j + 1] == Next(run[j], steps[j]);
    DelayInRange(created, spawned, first, run, steps, k);
  }

  /** The same holds between the first start, made outside the ticks, and the next. */
  lemma {:induction false} FirstStartIsSpaced(created: int, first: int, run: seq<State>, steps: seq<Step>, k: nat)
    requires IsRun(created, true, first, run, steps) && k < |steps|
    requires Starts(run[k], steps[k]) && forall i :: 0 <= i < k ==> !Starts(run[i], steps[i])
    ensures steps[k].r.started - first >= DelayAt(run[k], steps[k]) >= MIN_DELAY
  {
    LastStartStands(created, true, first, run, steps, 0, k);
    DelayInRange(created, true, first, run, steps, k);
  }

  // ----- The delay as a function of the history -----

  /** What a step does to the delay. */
  datatype Effect = Bumps(times: nat) | Resets(times: nat)

  /** A short-lived exit and a failed spawn each double the delay; a stable exit resets it first. */
  function EffectOf(s: State, step: Step): Effect {
    if step.StopStep? || s.shuttingDown then Bumps(0)
    else
      var exited := s.tracked && step.poll == Exited;
      var stable := exited && step.r.polled - s.lastStart >= STABLE_AFTER;
      var failed := if Tries(s, step.poll, step.r) && !step.spawned then 1 else 0;
      if stable then Resets(failed) else Bumps((if exited then 1 else 0) + failed)
  }

  /** Short-lived exits and failed spawns since the last stable exit, before step `k`. */
  function BumpsSoFar(spawned: bool, run: seq<State>, steps: seq<Step>, k: nat): nat
    requires k <= |steps| < |run|
  {
    if k == 0 then if spawned then 0 else 1
    else
      match EffectOf(run[k - 1], steps[k - 1])
      case Bumps(n) => BumpsSoFar(spawned, run, steps, k - 1) + n
      case Resets(n) => n
  }

  function Power(n: nat): nat {
    if n == 0 then 1 else 2 * Power(n - 1)
  }

  function Backoff(bumps: nat): nat {
    if Power(bumps + 1) > 30 then MAX_DELAY else Power(bumps + 1) * SECOND
  }

  lemma {:induction false} BackoffNext(bumps: nat)
    ensures NextDelay(Backoff(bumps)) == Backoff(bumps + 1)
  {
    assert Power(bumps + 2) == 2 * Power(bumps + 1);
    PowerPositive(bumps);
  }

  lemma {:induction false} PowerPositive(n: nat)
    ensures Power(n) >= 1
    decreases n
  {
    if n > 0 { PowerPositive(n - 1); }
  }

  lemma {:induction false} StepBacksOff(s: State, step: Step, bumps: nat)
    requires s.delay == Backoff(bumps)
    ensures Next(s, step).delay
         == match EffectOf(s, step) case Bumps(n) => Backoff(bumps + n) case Resets(n) => Backoff(n)
  {
    assert Backoff(0) == MIN_DELAY by { assert Power(1) == 2; }
    BackoffNext(0);
    BackoffNext(bumps);
    BackoffNext(bumps + 1);
    hide Backoff, NextDelay;
  }

  /**
   * In every state of every run the delay is min(30, 2^(b+1)) seconds, where b counts the short-lived exits
   * and failed spawns since the last stable exit.  Wait errors leave it alone.
   */
  lemma {:induction false} DelayIsBackoff(created: int, spawned: bool, first: int, run: seq<State>,
      steps: seq<Step>, k: nat)
    requires IsRun(created, spawned, first, run, steps) && k < |run|
    ensures run[k].delay == Backoff(BumpsSoFar(spawned, run, steps, k))
    decreases k
  {
    if k == 0 {
      assert run[k] == Started(New(created), spawned, first);
      assert Power(1) == 2 && Power(2) == 4;
    } else {
      DelayIsBackoff(created, spawned, first, run, steps, k - 1);
      assert run[k - 1 + 1] == Next(run[k - 1], steps[k - 1]);
      StepBacksOff(run[k - 1], steps[k - 1], BumpsSoFar(spawned, run, steps, k - 1));
      hide Next, EffectOf, Backoff;
    }
  }

  // ----- Exactly when a shell is started -----

  lemma {:induction false} ShutDownIff(created: int, spawned: bool, first: int, run: seq<State>, steps: seq<Step>,
                                      k: nat)
    requires IsRun(created, spawned, first, run, steps) && k < |run|
    ensures run[k].shuttingDown <==> StopStep in steps[..k]
    decreases k
  {
    if k == 0 {
      assert run[k] == run[0];
    } else {
      ShutDownIff(created, spawned, first, run, steps, k - 1);
      assert run[k - 1 + 1] == Next(run[k - 1], steps[k - 1]);
      assert steps[..k] == steps[..k - 1] + [steps[k - 1]];
    }
  }

  /** When the last start was that succeeded, before step `k`; at first, five seconds before the watchdog was made. */
  function LastStartBefore(created: int, spawned: bool, first: int, run: seq<State>, steps: seq<Step>, k: nat): int
    requires k <= |steps| < |run|
  {
    if k == 0 then if spawned then first else created - 5 * SECOND
    else if Starts(run[k - 1], steps[k - 1]) then steps[k - 1].r.started
    else LastStartBefore(created, spawned, first, run, steps, k - 1)
  }

  lemma {:induction false} LastStartIs(created: int, spawned: bool, first: int, run: seq<State>, steps: seq<Step>,
                                      k: nat)
    requires IsRun(created, spawned, first, run, steps) && k < |run|
    ensures run[k].lastStart == LastStartBefore(created, spawned, first, run, steps, k)
    decreases k
  {
    if k == 0 {
      assert run[k] == Started(New(created), spawned, first);
    } else {
      LastStartIs(created, spawned, first, run, steps, k - 1);
      assert run[k - 1 + 1] == Next(run[k - 1], steps[k - 1]);
    }
  }

  /** Short-lived exits and failed spawns since the last stable exit, when step `k` has polled the child. */
  function BumpsPolled(spawned: bool, run: seq<State>, steps: seq<Step>, k: nat, lastStart: int): nat
    requires k < |steps| < |run| && steps[k].WatchStep?
  {
    var bumps := BumpsSoFar(spawned, run, steps, k);
    if !run[k].tracked || steps[k].poll != Exited then bumps
    else if steps[k].r.polled - lastStart >= STABLE_AFTER then 0
    else bumps + 1
  }

  /**
   * A tick starts a shell exactly if none was stopped, the poll leaves no child, the spawn succeeds, and at least
   * min(30, 2^(b+1)) seconds have passed since the last start, where b counts the short-lived exits and failed
   * spawns since the last stable exit, up to this poll.
   */
  lemma {:induction false} StartsExactlyWhenDue(created: int, spawned: bool, first: int, run: seq<State>,
                                               steps: seq<Step>, k: nat)
    requires IsRun(created, spawned, first, run, steps) && k < |steps|
    ensures
      var lastStart := LastStartBefore(created, spawned, first, run, steps, k);
      Starts(run[k], steps[k]) <==>
      && StopStep !in steps[..k] && steps[k].WatchStep? && steps[k].spawned
      && (StartsSoFar(spawned, run, steps, k) > EndsSoFar(run, steps, k) ==> steps[k].poll != StillRunning)
      && steps[k].r.checked - lastStart >= Backoff(BumpsPolled(spawned, run, steps, k, lastStart))
  {
    ShutDownIff(created, spawned, first, run, steps, k);
    LastStartIs(created, spawned, first, run, steps, k);
    StartsMatchEnds(created, spawned, first, run, steps, k);
    DelayIsBackoff(created, spawned, first, run, steps, k);
    BackoffNext(BumpsSoFar(spawned, run, steps, k));
    assert Backoff(0) == MIN_DELAY by { assert Power(1) == 2; }
    hide Backoff, NextDelay, LastStartBefore, StartsSoFar, EndsSoFar, BumpsSoFar;
  }
}
