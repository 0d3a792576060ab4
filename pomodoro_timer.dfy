/**
 * The `Timer` component of src/Timer.js as an object: its four pieces of React state
 * are fields, and each thing that updates them is a method. Every method keeps the
 * invariant `0 < secondsLeft <= fullSeconds` and moves the state exactly as the
 * matching transition of module Countdown, where the widget's properties are proved.
 */
module PomodoroTimer {
  import Countdown
  import TimeFormat

  class Timer {
    var minutes: int
    var secondsLeft: int
    var running: bool
    var completed: nat

    /** The four fields as one value. */
    function State(): Countdown.TimerState
      reads this
    {
      Countdown.TimerState(minutes, secondsLeft, running, completed)
    }

    /** The object invariant: some time is left, never more than a full session. */
    predicate Valid()
      reads this
    {
      Countdown.Valid(State())
    }

    /** `fullSeconds`, recomputed from `minutes` (the `useMemo`). */
    function FullSeconds(): int
      reads this
    {
      Countdown.FullSeconds(minutes)
    }

    /** The progress fraction that drives the ring: in [0, 1), and zero exactly on a full session. */
    function Progress(): (p: real)
      reads this
      requires Valid()
      ensures 0.0 <= p < 1.0
      ensures p == 0.0 <==> secondsLeft == FullSeconds()
    {
      Countdown.ProgressBounds(State());
      Countdown.Progress(State())
    }

    /** The time shown in the middle of the ring, `formatTime(secondsLeft)`; it reads back as `secondsLeft`. */
    function Display(): (r: string)
      reads this
      requires Valid()
      ensures TimeFormat.ParseTime(r) == TimeFormat.Some(secondsLeft)
    {
      TimeFormat.FormatTime(secondsLeft)
    }

    /** Mounting the component: 25 minutes, a full session left, paused, nothing completed. */
    constructor ()
      ensures Valid() && State() == Countdown.Initial()
      ensures minutes == 25 && secondsLeft == 1500 && !running && completed == 0
    {
      minutes := Countdown.DefaultMinutes;
      secondsLeft := Countdown.FullSeconds(Countdown.DefaultMinutes);
      running := false;
      completed := 0;
    }

    /** The start/pause button. */
    method Toggle()
      requires Valid()
      modifies this
      ensures Valid() && State() == Countdown.Toggle(old(State()))
      ensures running == !old(running)
      ensures minutes == old(minutes) && secondsLeft == old(secondsLeft) && completed == old(completed)
    {
      running := !running;
    }

    /** The reset button. */
    method Reset()
      requires Valid()
      modifies this
      ensures Valid() && State() == Countdown.Reset(old(State()))
      ensures secondsLeft == FullSeconds() && !running
      ensures minutes == old(minutes) && completed == old(completed)
    {
      secondsLeft := FullSeconds();
      running := false;
    }

    /**
     * The minutes selector: records the choice, then, if the session length changed,
     * refills to the new length and pauses.
     */
    method SelectMinutes(m: int)
      requires Valid()
      modifies this
      ensures Valid() && State() == Countdown.SelectMinutes(old(State()), m)
      ensures minutes == m && completed == old(completed)
      ensures FullSeconds() != old(FullSeconds()) ==> secondsLeft == FullSeconds() && !running
      ensures FullSeconds() == old(FullSeconds()) ==> secondsLeft == old(secondsLeft) && running == old(running)
    {
      var before := FullSeconds();
      minutes := m;
      if FullSeconds() != before {
        secondsLeft := FullSeconds();
        running := false;
      }
    }

    /**
     * One second of the interval, which fires only while running, and the completion
     * effect that follows it when the count reaches zero.
     */
    method Tick()
      requires Valid()
      modifies this
      ensures Valid() && State() == Countdown.Tick(old(State()))
      ensures minutes == old(minutes)
      ensures !old(running) ==> State() == old(State())
      ensures old(running) && old(secondsLeft) >= 2 ==>
        running && secondsLeft == old(secondsLeft) - 1 && completed == old(completed)
      ensures old(running) && old(secondsLeft) == 1 ==>
        !running && secondsLeft == FullSeconds() && completed == old(completed) + 1
    {
      if running {
        secondsLeft := if secondsLeft <= 1 then 0 else secondsLeft - 1;
        if secondsLeft == 0 {
          running := false;
          completed := completed + 1;
          secondsLeft := FullSeconds();
        }
      }
    }
  }
}
