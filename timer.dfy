/** The session timer of the focus-timer window, as values: the five fields of
    `MyApp` that drive the countdown and one function per thing that changes
    them (the per-frame tick, the play/pause button, the stop button and the
    minutes setting). Timestamps are natural numbers of milliseconds; the
    host's monotonic clock becomes the `now` argument. */
module Timer {

  datatype Option<T> = None | Some(value: T)

  /** Session length a freshly opened window offers, in minutes. */
  const DefaultMinutes: nat := 25
  /** Bounds of the minutes setting (the settings field clamps to 1..=60). */
  const MinMinutes: nat := 1
  const MaxMinutes: nat := 60
  const SecsPerMinute: nat := 60
  /** `Duration::from_secs(1)` in the millisecond timestamps of this model. */
  const OneSecond: nat := 1000

  /** The timer fields of `MyApp`. `endTime` holds the instant the session was
      started; the application only ever asks whether it is set. */
  datatype TimerState = TimerState(
    minutes: nat,
    remainingSecs: nat,
    endTime: Option<nat>,
    isPaused: bool,
    lastTick: nat)
  {
    /** A session is under way (started and neither stopped nor expired). */
    predicate Active() {
      endTime.Some?
    }
  }

  /** The three situations the window distinguishes. */
  datatype Phase = Idle | Running | Paused

  function PhaseOf(s: TimerState): Phase {
    if !s.Active() then Idle else if s.isPaused then Paused else Running
  }

  /** What every reachable state satisfies: the minutes setting stays in range,
      the countdown fits the longest session, a pause belongs to a session,
      and an idle timer has nothing left to count. */
  predicate Valid(s: TimerState) {
    && MinMinutes <= s.minutes <= MaxMinutes
    && s.remainingSecs <= MaxMinutes * SecsPerMinute
    && (s.isPaused ==> s.Active())
    && (!s.Active() ==> s.remainingSecs == 0)
  }

  /** The state of a newly created window (`MyApp::default`). */
  function Init(now: nat): (s: TimerState)
    ensures Valid(s) && PhaseOf(s) == Idle
    ensures s.minutes == DefaultMinutes && s.remainingSecs == 0 && s.lastTick == now
  {
    TimerState(DefaultMinutes, 0, None, false, now)
  }

  /** Time from `since` to `now`; zero when `now` is earlier, as
      `Instant::duration_since` saturates. */
  function Elapsed(since: nat, now: nat): nat {
    if now >= since then now - since else 0
  }

  /** The per-frame countdown step: when not paused and a full second has
      passed since the last stamp, take one second off and restamp, or, with
      nothing left, end the session. */
  function Tick(s: TimerState, now: nat): TimerState {
    if s.isPaused || Elapsed(s.lastTick, now) < OneSecond then s
    else if s.remainingSecs > 0 then s.(remainingSecs := s.remainingSecs - 1, lastTick := now)
    else s.(endTime := None)
  }

  /** The play/pause button: start a session from idle, otherwise toggle the
      pause, restamping the clock only on resume. */
  function PlayClicked(s: TimerState, now: nat): TimerState {
    if !s.Active() && !s.isPaused then
      s.(remainingSecs := s.minutes * SecsPerMinute, endTime := Some(now), lastTick := now, isPaused := false)
    else
      var paused := !s.isPaused;
      s.(isPaused := paused, lastTick := if !paused then now else s.lastTick)
  }

  /** The stop button, which is only shown while a session is under way. */
  function StopClicked(s: TimerState, now: nat): TimerState {
    if !s.Active() then s
    else s.(remainingSecs := 0, endTime := None, isPaused := false, lastTick := now)
  }

  /** The settings button is usable while paused or idle. */
  predicate SettingsEnabled(s: TimerState) {
    s.isPaused || !s.Active()
  }

  /** Distance between two integers. */
  function Dist(a: int, b: int): nat {
    if a < b then b - a else a - b
  }

  /** The minutes field's clamp: the value of 1..=60 nearest to `m`. */
  function Clamp(m: int): (r: nat)
    ensures MinMinutes <= r <= MaxMinutes
    ensures forall k: int :: MinMinutes <= k <= MaxMinutes ==> Dist(r, m) <= Dist(k, m)
  {
    if m < MinMinutes then MinMinutes else if m > MaxMinutes then MaxMinutes else m
  }

  /** Editing the minutes in the settings dialog. */
  function SetMinutes(s: TimerState, m: int): TimerState {
    if SettingsEnabled(s) then s.(minutes := Clamp(m)) else s
  }

  /** One input to the timer: a frame's tick or a user action. */
  datatype Command = TickAt(now: nat) | Play(now: nat) | Stop(now: nat) | ChooseMinutes(m: int)

  function Step(s: TimerState, c: Command): TimerState {
    match c
    case TickAt(now) => Tick(s, now)
    case Play(now) => PlayClicked(s, now)
    case Stop(now) => StopClicked(s, now)
    case ChooseMinutes(m) => SetMinutes(s, m)
  }

  /** The state after a sequence of inputs. */
  function Run(s: TimerState, cs: seq<Command>): TimerState
    decreases |cs|
  {
    if cs == [] then s else Run(Step(s, cs[0]), cs[1..])
  }

  /** The state after ticks at each of the frame times `nows`, in order. */
  function TickAll(s: TimerState, nows: seq<nat>): TimerState
    decreases |nows|
  {
    if nows == [] then s else Tick(TickAll(s, nows[..|nows| - 1]), nows[|nows| - 1])
  }

  /** Frame times one second apart: start + 1 s, start + 2 s, ..., start + n s. */
  function Beats(start: nat, n: nat): seq<nat> {
    if n == 0 then [] else Beats(start, n - 1) + [start + n * OneSecond]
  }

  /** Frame times that never go back in time, and none before `from`. */
  predicate Monotone(from: nat, nows: seq<nat>) {
    && (forall i :: 0 <= i < |nows| ==> from <= nows[i])
    && (forall i, j :: 0 <= i < j < |nows| ==> nows[i] <= nows[j])
  }
}
