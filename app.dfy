/** The application object: the timer fields of `MyApp`, updated in place by
    the per-frame tick and by the buttons and settings of the window. Each
    method follows the field assignments of `MyApp::update` statement by
    statement and is proved to produce the state the `Timer` functions
    describe, so every property proved about those functions holds of it. */
module App {
  import Timer

  class MyApp {
    var minutes: nat
    var remainingSecs: nat
    var endTime: Timer.Option<nat>
    var isPaused: bool
    var lastTick: nat

    /** The timer fields as one value. */
    function State(): Timer.TimerState
      reads this
    {
      Timer.TimerState(minutes, remainingSecs, endTime, isPaused, lastTick)
    }

    ghost predicate Valid()
      reads this
    {
      Timer.Valid(State())
    }

    /** `MyApp::default`: idle, 25 minutes configured, clock stamped now. */
    constructor (now: nat)
      ensures Valid() && State() == Timer.Init(now)
    {
      minutes := Timer.DefaultMinutes;
      remainingSecs := 0;
      endTime := Timer.None;
      isPaused := false;
      lastTick := now;
    }

    /** The countdown step run on every frame. */
    method Tick(now: nat)
      requires Valid()
      modifies this
      ensures Valid() && State() == Timer.Tick(old(State()), now)
    {
      if !isPaused {
        if Timer.Elapsed(lastTick, now) >= Timer.OneSecond {
          if remainingSecs > 0 {
            remainingSecs := remainingSecs - 1;
            lastTick := now;
          } else {
            endTime := Timer.None;
          }
        }
      }
    }

    /** The play/pause button. */
    method PlayClicked(now: nat)
      requires Valid()
      modifies this
      ensures Valid() && State() == Timer.PlayClicked(old(State()), now)
    {
      if endTime.None? && !isPaused {
        remainingSecs := minutes * Timer.SecsPerMinute;
        endTime := Timer.Some(now);
        lastTick := now;
        isPaused := false;
      } else {
        isPaused := !isPaused;
        if !isPaused {
          lastTick := now;
        }
      }
    }

    /** The stop button; it is drawn only while a session is under way. */
    method StopClicked(now: nat)
      requires Valid()
      modifies this
      ensures Valid() && State() == Timer.StopClicked(old(State()), now)
    {
      if endTime.Some? {
        remainingSecs := 0;
        endTime := Timer.None;
        isPaused := false;
        lastTick := now;
      }
    }

    /** The minutes field of the settings dialog, reachable only while paused
        or idle. */
    method SetMinutes(m: int)
      requires Valid()
      modifies this
      ensures Valid() && State() == Timer.SetMinutes(old(State()), m)
    {
      if isPaused || endTime.None? {
        minutes := Timer.Clamp(m);
      }
    }
  }
}
