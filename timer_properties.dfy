/** Properties of the session timer: what each input does, the invariant they
    all keep, how fast the countdown can run, and how long a session lasts. */
module TimerProperties {
  import opened Timer
  import Display

  /** While paused, a frame's tick changes nothing at all. */
  lemma TickWhilePaused(s: TimerState, now: nat)
    requires s.isPaused
    ensures Tick(s, now) == s
  {
  }

  /** A tick takes off at most one second, and does so exactly when the timer
      is not paused, a full second has passed since the last stamp and some
      time is left; it then restamps to `now`. Otherwise the time left and the
      stamp stay as they were. A tick never starts a session: it either keeps
      `endTime` or clears it. */
  lemma TickCountsOneSecond(s: TimerState, now: nat)
    ensures var t := Tick(s, now);
      && t.minutes == s.minutes && t.isPaused == s.isPaused
      && (t.endTime == s.endTime || t.endTime == None)
      && s.remainingSecs - 1 <= t.remainingSecs <= s.remainingSecs
      && (t.remainingSecs < s.remainingSecs
          <==> !s.isPaused && Elapsed(s.lastTick, now) >= OneSecond && s.remainingSecs > 0)
      && (t.remainingSecs < s.remainingSecs ==> t.lastTick == now)
      && (t.remainingSecs == s.remainingSecs ==> t.lastTick == s.lastTick)
  {
  }

  /** A tick ends a session exactly when it runs unpaused with nothing left and
      a full second has passed; the timer is then idle and shows no badge. */
  lemma TickExpires(s: TimerState, now: nat)
    requires Valid(s)
    ensures var t := Tick(s, now);
      && (PhaseOf(s) != Idle && PhaseOf(t) == Idle
          <==> PhaseOf(s) == Running && s.remainingSecs == 0 && Elapsed(s.lastTick, now) >= OneSecond)
      && (PhaseOf(s) == Idle ==> PhaseOf(t) == Idle)
      && (PhaseOf(t) == Idle ==> Display.StatusLabel(t) == None)
  {
    Display.StatusLabelByPhase(Tick(s, now));
  }

  /** Once a session has ended, further ticks keep the timer idle with nothing
      left: a tick of a valid idle state changes nothing. */
  lemma TickWhileIdle(s: TimerState, now: nat)
    requires Valid(s) && PhaseOf(s) == Idle
    ensures Tick(s, now) == s
    ensures PhaseOf(Tick(s, now)) == Idle && Tick(s, now).remainingSecs == 0
  {
  }

  /** A second tick at the same frame time changes nothing. */
  lemma TickIdempotent(s: TimerState, now: nat)
    ensures Tick(Tick(s, now), now) == Tick(s, now)
  {
  }

  /** The play/pause button moves idle to running, running to paused and
      paused to running. Starting loads the configured minutes and stamps the
      clock; pausing and resuming keep the time left, and only resuming
      restamps the clock. */
  lemma PlayClickedTransitions(s: TimerState, now: nat)
    requires Valid(s)
    ensures var t := PlayClicked(s, now);
      && t.minutes == s.minutes
      && (PhaseOf(s) == Idle ==>
            PhaseOf(t) == Running && t.remainingSecs == s.minutes * SecsPerMinute && t.lastTick == now)
      && (PhaseOf(s) == Running ==>
            PhaseOf(t) == Paused && t.remainingSecs == s.remainingSecs && t.lastTick == s.lastTick)
      && (PhaseOf(s) == Paused ==>
            PhaseOf(t) == Running && t.remainingSecs == s.remainingSecs && t.lastTick == now)
  {
  }

  /** No second is taken off within a second of resuming, however long the
      pause lasted. */
  lemma NoTickRightAfterResume(s: TimerState, resumeAt: nat, now: nat)
    requires Valid(s) && PhaseOf(s) == Paused
    requires now < resumeAt + OneSecond
    ensures var t := PlayClicked(s, resumeAt);
      PhaseOf(t) == Running && Tick(t, now) == t
  {
  }

  /** Stopping a session returns to idle with nothing left, clock stamped,
      minutes kept; with no session there is no stop button and nothing
      changes. */
  lemma StopClickedResets(s: TimerState, now: nat)
    ensures var t := StopClicked(s, now);
      && (PhaseOf(s) != Idle ==>
            PhaseOf(t) == Idle && !t.isPaused && t.remainingSecs == 0 && t.lastTick == now && t.minutes == s.minutes)
      && (PhaseOf(s) == Idle ==> t == s)
  {
  }

  /** The minutes setting takes effect only while paused or idle, always lands
      in 1..=60, and never touches the countdown. */
  lemma SetMinutesGated(s: TimerState, m: int)
    ensures var t := SetMinutes(s, m);
      && t.remainingSecs == s.remainingSecs && PhaseOf(t) == PhaseOf(s) && t.lastTick == s.lastTick
      && (PhaseOf(s) == Running ==> t == s)
      && (PhaseOf(s) != Running ==>
            MinMinutes <= t.minutes <= MaxMinutes && (MinMinutes <= m <= MaxMinutes ==> t.minutes == m))
  {
  }

  /** The time left grows only when the play button starts a session. */
  lemma RemainingGrowsOnlyOnStart(s: TimerState, c: Command)
    ensures Step(s, c).remainingSecs > s.remainingSecs ==> c.Play? && PhaseOf(s) == Idle
  {
  }

  /** Every input keeps the invariant. */
  lemma StepPreservesValid(s: TimerState, c: Command)
    requires Valid(s)
    ensures Valid(Step(s, c))
  {
  }

  /** Any sequence of inputs keeps the invariant. */
  lemma {:induction false} RunPreservesValid(s: TimerState, cs: seq<Command>)
    requires Valid(s)
    ensures Valid(Run(s, cs))
    decreases |cs|
  {
    if cs != [] {
      StepPreservesValid(s, cs[0]);
      RunPreservesValid(Step(s, cs[0]), cs[1..]);
    }
  }

  /** In every state the window can reach, the break theme is on exactly while
      paused, a pause belongs to a session, and the badge follows the phase. */
  lemma ReachableStates(t0: nat, cs: seq<Command>)
    ensures var s := Run(Init(t0), cs);
      && Valid(s)
      && Display.IsBreak(s) == s.isPaused
      && (Display.StatusLabel(s) == None <==> PhaseOf(s) == Idle)
  {
    var s := Run(Init(t0), cs);
    RunPreservesValid(Init(t0), cs);
    Display.IsBreakIsPaused(s);
    Display.StatusLabelByPhase(s);
  }

  /** Over frames that never go back in time, the countdown loses at most one
      second per frame and at most one second per full second of clock time
      from the starting stamp to the last frame. */
  lemma {:induction false} CountdownNoFasterThanClock(s: TimerState, nows: seq<nat>)
    requires Monotone(s.lastTick, nows)
    ensures var t := TickAll(s, nows);
      && t.remainingSecs <= s.remainingSecs
      && s.remainingSecs - t.remainingSecs <= |nows|
      && s.lastTick <= t.lastTick
      && (s.remainingSecs - t.remainingSecs) * OneSecond <= t.lastTick - s.lastTick
      && (nows != [] ==> t.lastTick <= nows[|nows| - 1])
    decreases |nows|
  {
    if nows != [] {
      var init := nows[..|nows| - 1];
      var now := nows[|nows| - 1];
      assert Monotone(s.lastTick, init);
      CountdownNoFasterThanClock(s, init);
      var u := TickAll(s, init);
      assert u.lastTick <= now by {
        if init != [] {
          assert init[|init| - 1] == nows[|nows| - 2];
        }
      }
    }
  }

  /** Ticking once per full second from the last stamp takes one second off
      per frame, for as many frames as there are seconds left. */
  lemma {:induction false} SteadyCountdown(s: TimerState, n: nat)
    requires PhaseOf(s) == Running && n <= s.remainingSecs
    ensures TickAll(s, Beats(s.lastTick, n))
      == s.(remainingSecs := s.remainingSecs - n, lastTick := s.lastTick + n * OneSecond)
  {
    if n > 0 {
      SteadyCountdown(s, n - 1);
      var b := Beats(s.lastTick, n);
      assert b[..|b| - 1] == Beats(s.lastTick, n - 1);
    }
  }

  /** A session started from idle and ticked once per second counts down to
      zero in as many frames as it has seconds, still showing "Focus" and the
      configured minutes over "00"; one second later it is idle again. */
  lemma SessionLength(s: TimerState, start: nat)
    requires Valid(s) && PhaseOf(s) == Idle
    ensures var r := PlayClicked(s, start);
      var n := s.minutes * SecsPerMinute;
      var atZero := TickAll(r, Beats(start, n));
      var after := TickAll(r, Beats(start, n + 1));
      && PhaseOf(atZero) == Running && atZero.remainingSecs == 0
      && Display.StatusLabel(atZero) == Some("Focus")
      && Display.ReadTimeMessage(Display.TimeMessage(atZero)) == Some((s.minutes, 0))
      && PhaseOf(after) == Idle && Display.StatusLabel(after) == None
  {
    var r := PlayClicked(s, start);
    var n := s.minutes * SecsPerMinute;
    SteadyCountdown(r, n);
    var atZero := TickAll(r, Beats(start, n));
    var b := Beats(start, n + 1);
    assert b[..|b| - 1] == Beats(start, n);
    Display.TimeMessageMeaning(atZero);
  }
}

/** Worked timelines in milliseconds. */
module TimerScenarios {
  import opened Timer
  import TimerProperties

  /** Frames 0.7 s apart over 4.2 s take off three seconds, not four: each
      decrement restamps the clock to the frame time, so the fraction of a
      second past the boundary is dropped. */
  lemma IrregularFrames()
    ensures var s := TimerState(1, 10, Some(0), false, 0);
      TickAll(s, [700, 1400, 2100, 2800, 3500, 4200]).remainingSecs == 7
  {
    var s := TimerState(1, 10, Some(0), false, 0);
    var nows := [700, 1400, 2100, 2800, 3500, 4200];
    assert TickAll(s, nows[..1]) == s by { assert nows[..1][..0] == []; }
    assert TickAll(s, nows[..2]) == s.(remainingSecs := 9, lastTick := 1400) by { assert nows[..2][..1] == nows[..1]; }
    assert TickAll(s, nows[..3]) == s.(remainingSecs := 9, lastTick := 1400) by { assert nows[..3][..2] == nows[..2]; }
    assert TickAll(s, nows[..4]) == s.(remainingSecs := 8, lastTick := 2800) by { assert nows[..4][..3] == nows[..3]; }
    assert TickAll(s, nows[..5]) == s.(remainingSecs := 8, lastTick := 2800) by { assert nows[..5][..4] == nows[..4]; }
    assert nows[..6] == nows && nows[..5] == nows[..|nows| - 1];
  }

  /** A frame that arrives five seconds late takes off one second only. */
  lemma StalledFrame()
    ensures var s := TimerState(1, 10, Some(0), false, 0);
      Tick(s, 5000).remainingSecs == 9
  {
  }

  /** A one-minute session: five seconds counted once per second, paused for
      over a minute and a half, resumed, five more seconds counted; 50 seconds
      are left and the session is still running. */
  lemma PauseIsNotCounted()
    ensures var configured := SetMinutes(Init(0), 1);
      var counted := TickAll(PlayClicked(configured, 0), Beats(0, 5));
      var paused := PlayClicked(counted, 5500);
      var resumed := PlayClicked(Tick(paused, 100000), 105500);
      var s := TickAll(resumed, Beats(105500, 5));
      s.remainingSecs == 50 && PhaseOf(s) == Running
  {
    var configured := SetMinutes(Init(0), 1);
    var started := PlayClicked(configured, 0);
    assert started.remainingSecs == 60 && started.lastTick == 0;
    TimerProperties.SteadyCountdown(started, 5);
    var counted := TickAll(started, Beats(0, 5));
    var paused := PlayClicked(counted, 5500);
    var resumed := PlayClicked(Tick(paused, 100000), 105500);
    assert resumed.remainingSecs == 55 && resumed.lastTick == 105500 && PhaseOf(resumed) == Running;
    TimerProperties.SteadyCountdown(resumed, 5);
  }
}
