/**
 * The countdown of src/Timer.js as values: the derived full length `fullSeconds`,
 * the `progress` fraction, and the four state variables with one pure transition per
 * thing that changes them (the start/pause button, the reset button, the minutes
 * selector, and one firing of the one-second interval together with the completion
 * effect it triggers). These functions are the specification of the `Timer` class in
 * module PomodoroTimer; the properties of the widget are proved about them here.
 */
module Countdown {

  /** The durations, in minutes, that the minutes selector offers. */
  const MenuMinutes: seq<int> := [5, 10, 15, 20, 25, 30, 45, 60]

  /** The selector's initial value. */
  const DefaultMinutes: int := 25

  /**
   * `fullSeconds = Math.max(1, minutes) * 60`: the length of one session in seconds.
   * It is a whole number of minutes, at least one, and exactly `minutes` when that is positive.
   */
  function FullSeconds(minutes: int): (r: int)
    ensures r >= 60 && r % 60 == 0
    ensures minutes >= 1 ==> r / 60 == minutes
    ensures minutes <= 1 ==> r == 60
  {
    (if minutes >= 1 then minutes else 1) * 60
  }

  /** Every menu choice gives a session of exactly that many minutes. */
  lemma FullSecondsOfMenu(m: int)
    requires m in MenuMinutes
    ensures FullSeconds(m) == m * 60
  {
  }

  /** Among positive durations (every menu choice is one), different choices give different session lengths. */
  lemma FullSecondsInjective(a: int, b: int)
    requires a >= 1 && b >= 1
    ensures FullSeconds(a) == FullSeconds(b) <==> a == b
  {
  }

  /** The widget's state: the selected minutes, the seconds left, whether it counts down, and the completed sessions. */
  datatype TimerState = TimerState(minutes: int, secondsLeft: int, running: bool, completed: nat)

  /** Between steps, some time is always left and never more than a full session. */
  predicate Valid(s: TimerState) {
    0 < s.secondsLeft <= FullSeconds(s.minutes)
  }

  /** `progress = fullSeconds > 0 ? 1 - secondsLeft / fullSeconds : 0`, as an exact ratio. */
  function Progress(s: TimerState): real {
    var full := FullSeconds(s.minutes);
    if full > 0 then 1.0 - s.secondsLeft as real / full as real else 0.0
  }

  /** The state at mount: 25 minutes selected, a full session left, paused, nothing completed. */
  function Initial(): (s: TimerState)
    ensures Valid(s) && Progress(s) == 0.0
    ensures s.minutes == DefaultMinutes && !s.running && s.completed == 0
  {
    TimerState(DefaultMinutes, FullSeconds(DefaultMinutes), false, 0)
  }

  /** The start/pause button: `setRunning(r => !r)`. */
  function Toggle(s: TimerState): TimerState {
    s.(running := !s.running)
  }

  /** The reset button: `setSecondsLeft(fullSeconds); setRunning(false)`. */
  function Reset(s: TimerState): TimerState {
    s.(secondsLeft := FullSeconds(s.minutes), running := false)
  }

  /**
   * The minutes selector: `setMinutes(m)`, after which the effect keyed on `fullSeconds`
   * refills and pauses the timer, but only if `fullSeconds` actually changed.
   */
  function SelectMinutes(s: TimerState, m: int): TimerState {
    if FullSeconds(m) != FullSeconds(s.minutes) then
      s.(minutes := m, secondsLeft := FullSeconds(m), running := false)
    else
      s.(minutes := m)
  }

  /** The interval callback's update `prev => prev <= 1 ? 0 : prev - 1`: one second less, clamped at zero. */
  function Decrement(prev: int): (r: int)
    ensures r >= 0
    ensures prev >= 1 ==> r == prev - 1
    ensures prev <= 1 ==> r == 0
  {
    if prev <= 1 then 0 else prev - 1
  }

  /** The effect keyed on `secondsLeft`: at zero, pause, count the session and refill. */
  function Complete(s: TimerState): TimerState {
    if s.secondsLeft == 0 then
      s.(running := false, completed := s.completed + 1, secondsLeft := FullSeconds(s.minutes))
    else
      s
  }

  /** One firing of the one-second interval, which exists only while running, followed by the completion effect. */
  function Tick(s: TimerState): TimerState {
    if s.running then Complete(s.(secondsLeft := Decrement(s.secondsLeft))) else s
  }

  /** The widget's inputs: a button press, a menu choice, or one second elapsing. */
  datatype Event = StartPausePressed | ResetPressed | MinutesChosen(minutes: int) | SecondElapsed

  function Step(s: TimerState, e: Event): TimerState {
    match e
    case StartPausePressed => Toggle(s)
    case ResetPressed => Reset(s)
    case MinutesChosen(m) => SelectMinutes(s, m)
    case SecondElapsed => Tick(s)
  }

  /** The state after a sequence of events, in order. */
  function Run(s: TimerState, events: seq<Event>): TimerState
    decreases |events|
  {
    if events == [] then s else Run(Step(s, events[0]), events[1..])
  }

  /** The state after n seconds elapse with no other input. */
  function Ticks(s: TimerState, n: nat): TimerState
    decreases n
  {
    if n == 0 then s else Ticks(Tick(s), n - 1)
  }

  // ---------------------------------------------------------------------------
  // The start/pause button

  /** Toggle flips `running` and nothing else, so pressing it twice changes nothing, and it keeps the invariant. */
  lemma ToggleFlipsRunning(s: TimerState)
    ensures Toggle(s).running == !s.running
    ensures Toggle(s).minutes == s.minutes && Toggle(s).secondsLeft == s.secondsLeft
    ensures Toggle(s).completed == s.completed
    ensures Toggle(Toggle(s)) == s
    ensures Valid(s) ==> Valid(Toggle(s))
  {
  }

  // ---------------------------------------------------------------------------
  // The reset button

  /**
   * Reset refills to a full session and pauses, keeps the minutes and the completed count,
   * leaves progress at zero, and a second reset changes nothing.
   */
  lemma ResetRefills(s: TimerState)
    ensures Reset(s).secondsLeft == FullSeconds(s.minutes) && !Reset(s).running
    ensures Reset(s).minutes == s.minutes && Reset(s).completed == s.completed
    ensures Valid(Reset(s)) && Progress(Reset(s)) == 0.0
    ensures Reset(Reset(s)) == Reset(s)
  {
  }

  // ---------------------------------------------------------------------------
  // The minutes selector

  /**
   * Choosing a menu value d that changes the session length starts a fresh, paused
   * session of d minutes; the completed count is kept.
   */
  lemma SelectNewDuration(s: TimerState, d: int)
    requires d in MenuMinutes && FullSeconds(d) != FullSeconds(s.minutes)
    ensures SelectMinutes(s, d).minutes == d
    ensures SelectMinutes(s, d).secondsLeft == d * 60 && !SelectMinutes(s, d).running
    ensures SelectMinutes(s, d).completed == s.completed
    ensures Valid(SelectMinutes(s, d)) && Progress(SelectMinutes(s, d)) == 0.0
  {
  }

  /**
   * The effect depends only on the session length: a choice with the same length only
   * records the new minutes, and choosing the current value changes nothing.
   */
  lemma SelectSameLength(s: TimerState, m: int)
    requires FullSeconds(m) == FullSeconds(s.minutes)
    ensures SelectMinutes(s, m) == s.(minutes := m)
    ensures SelectMinutes(s, s.minutes) == s
    ensures Valid(s) ==> Valid(SelectMinutes(s, m))
  {
  }

  // ---------------------------------------------------------------------------
  // One second

  /** While paused, a second changes nothing. */
  lemma TickWhilePaused(s: TimerState)
    requires !s.running
    ensures Tick(s) == s
  {
  }

  /** While running with at least two seconds left, a second takes exactly one second off and changes nothing else. */
  lemma TickCountsDown(s: TimerState)
    requires s.running && s.secondsLeft >= 2
    ensures Tick(s) == s.(secondsLeft := s.secondsLeft - 1)
    ensures Progress(Tick(s)) > Progress(s)
  {
    var full := FullSeconds(s.minutes) as real;
    assert (s.secondsLeft - 1) as real / full < s.secondsLeft as real / full by {
      DivideMonotone((s.secondsLeft - 1) as real, s.secondsLeft as real, full);
    }
  }

  lemma DivideMonotone(a: real, b: real, c: real)
    requires a < b && c > 0.0
    ensures a / c < b / c
  {
    assert b / c - a / c == (b - a) / c;
  }

  /**
   * While running with one second (or, defensively, none) left, the second that reaches
   * zero completes the session: the timer pauses, the completed count rises by exactly
   * one and a full session is left.
   */
  lemma TickCompletes(s: TimerState)
    requires s.running && s.secondsLeft <= 1
    ensures Tick(s) == s.(secondsLeft := FullSeconds(s.minutes), running := false, completed := s.completed + 1)
  {
  }

  // ---------------------------------------------------------------------------
  // Invariants of every input

  /**
   * Every input keeps some time left and never more than a full session, and the
   * completed count never falls and rises by at most one, only when a second elapses.
   */
  lemma StepPreservesValid(s: TimerState, e: Event)
    requires Valid(s)
    ensures Valid(Step(s, e))
    ensures s.completed <= Step(s, e).completed <= s.completed + 1
    ensures !e.SecondElapsed? ==> Step(s, e).completed == s.completed
  {
  }

  /**
   * Over any sequence of inputs the invariant holds throughout, and the completed count
   * never falls and rises by at most the number of inputs.
   */
  lemma {:induction false} RunPreservesValid(s: TimerState, events: seq<Event>)
    requires Valid(s)
    ensures Valid(Run(s, events))
    ensures s.completed <= Run(s, events).completed <= s.completed + |events|
    decreases |events|
  {
    if events != [] {
      StepPreservesValid(s, events[0]);
      RunPreservesValid(Step(s, events[0]), events[1..]);
    }
  }

  /** Between steps the progress fraction lies in [0, 1), and it is zero exactly when a full session is left. */
  lemma ProgressBounds(s: TimerState)
    requires Valid(s)
    ensures 0.0 <= Progress(s) < 1.0
    ensures Progress(s) == 0.0 <==> s.secondsLeft == FullSeconds(s.minutes)
  {
    var left, full := s.secondsLeft as real, FullSeconds(s.minutes) as real;
    assert 0.0 < left / full <= 1.0 by {
      DivideMonotone(0.0, left, full);
      assert full / full == 1.0;
      if left < full {
        DivideMonotone(left, full, full);
      }
    }
    assert left / full == 1.0 ==> left == full by {
      if left / full == 1.0 {
        assert left == (left / full) * full;
      }
    }
  }

  // ---------------------------------------------------------------------------
  // Whole sessions

  /** With nothing else pressed, a paused timer stays as it is however many seconds elapse. */
  lemma {:induction false} TicksWhilePaused(s: TimerState, n: nat)
    requires !s.running
    ensures Ticks(s, n) == s
    decreases n
  {
    if n > 0 {
      TickWhilePaused(s);
      TicksWhilePaused(s, n - 1);
    }
  }

  /** Running, n seconds before the end of the session take exactly n seconds off and leave it running. */
  lemma {:induction false} TicksCountDown(s: TimerState, n: nat)
    requires s.running && n < s.secondsLeft
    ensures Ticks(s, n) == s.(secondsLeft := s.secondsLeft - n)
    decreases n
  {
    if n > 0 {
      TickCountsDown(s);
      TicksCountDown(Tick(s), n - 1);
    }
  }

  /**
   * Running with k seconds left, exactly k seconds finish the session once: paused, one
   * more session completed, a full session left.
   */
  lemma {:induction false} TicksComplete(s: TimerState)
    requires s.running && s.secondsLeft >= 1
    ensures Ticks(s, s.secondsLeft) ==
      s.(secondsLeft := FullSeconds(s.minutes), running := false, completed := s.completed + 1)
  {
    var k := s.secondsLeft;
    TicksCountDown(s, k - 1);
    TicksSplit(s, k - 1, 1);
    TickCompletes(Ticks(s, k - 1));
  }

  /** Seconds elapse one after another: a + b of them are a of them followed by b. */
  lemma {:induction false} TicksSplit(s: TimerState, a: nat, b: nat)
    ensures Ticks(s, a + b) == Ticks(Ticks(s, a), b)
    decreases a
  {
    if a > 0 {
      TicksSplit(Tick(s), a - 1, b);
    }
  }

  /**
   * From a fresh, paused session, pressing start and letting a full session of seconds
   * elapse, plus any number of stray seconds after it, ends paused with a full session
   * left and exactly one more session completed.
   */
  lemma FullSession(s: TimerState, extra: nat)
    requires s.secondsLeft == FullSeconds(s.minutes) && !s.running
    ensures Ticks(Toggle(s), FullSeconds(s.minutes) + extra) == s.(completed := s.completed + 1)
  {
    TicksComplete(Toggle(s));
    TicksSplit(Toggle(s), FullSeconds(s.minutes), extra);
    TicksWhilePaused(s.(completed := s.completed + 1), extra);
  }

  /**
   * From mount: choose 5 minutes, start, let 300 seconds pass, then start again, let 10
   * seconds pass and reset.
   */
  lemma FiveMinuteScenario()
    ensures var chosen := SelectMinutes(Initial(), 5);
      && chosen.secondsLeft == 300 && !chosen.running
      && var done := Ticks(Toggle(chosen), 300);
      && done.completed == 1 && done.secondsLeft == 300 && !done.running
      && var partway := Ticks(Toggle(done), 10);
      && partway.secondsLeft == 290 && partway.running
      && var reset := Reset(partway);
      && reset.secondsLeft == 300 && !reset.running && reset.completed == 1
  {
    var chosen := SelectMinutes(Initial(), 5);
    FullSession(chosen, 0);
    var done := Ticks(Toggle(chosen), 300);
    TicksCountDown(Toggle(done), 10);
  }
}
