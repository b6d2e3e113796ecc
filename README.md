# Ticktoro session timer in Dafny

Ticktoro is a desktop focus timer (Pomodoro style) written in Rust on eframe/egui.
Its logic is a countdown kept in five fields of the application object `MyApp`:
the configured `minutes`, the `remaining_secs` of the session, `end_time` (set while
a session is under way), `is_paused`, and `last_tick`, the instant the countdown was
last stamped. Every frame the window ticks the countdown and redraws a status badge
and a two-line time message. The play/pause button, the stop button and the
minutes setting change the fields.

This project models that timer and proves what it does.

- `decimal.dfy` (module `Decimal`): decimal numerals as Rust's `{}` formatting prints
  them, and their reading back.
- `timer.dfy` (module `Timer`): the timer fields as a value (`TimerState`) and one
  function per input: `Tick`, `PlayClicked`, `StopClicked` and `SetMinutes`. It also
  holds the invariant `Valid`, the phases Idle/Running/Paused, and runs of inputs
  (`Run`, `TickAll`).
- `display.dfy` (module `Display`): the derived views `StatusLabel`, `IsBreak` and
  `TimeMessage`, and what they mean.
- `timer_properties.dfy` (modules `TimerProperties` and `TimerScenarios`): the effect
  of each input, the invariant over any run, the bound on countdown speed, and the
  length of a session. It also holds three worked timelines.
- `app.dfy` (module `App`): the class `MyApp`. Its fields are updated in place by
  `Tick`, `PlayClicked`, `StopClicked` and `SetMinutes`, statement by statement as in
  the Rust code. Each method is proved to produce exactly the state given by the
  matching `Timer` function, so the lemmas about those functions hold of the class.

Time is a natural number of milliseconds, and "one second" is `OneSecond = 1000`.
The host's clock reading becomes a `now` argument. `Elapsed` saturates at zero, as
`Instant::duration_since` does, so no method needs `now` to be later than the last stamp.
`end_time` is modelled as `Option<nat>` and holds the start instant. The application
only ever asks whether it is set.

Points where the code behaves differently from what one might expect of such a timer:

- A tick takes off at most one second, and it sets `last_tick` to the frame time. It
  does not catch up on several elapsed seconds. The part of a second past the
  boundary is dropped (`IrregularFrames`, `StalledFrame`).
- There is no separate Expired state. When the countdown reaches 0, the session keeps
  showing "Focus" and the configured minutes over "00". The next tick at least one
  second later clears `end_time` and the timer is idle (`SessionLength`).
- Pausing does not clear `last_tick`. Resuming stamps it to the resume time.
- The minutes can be changed while paused as well as while idle. The value is
  clamped to 1..=60 rather than rejected.
- While a session is under way, the minutes line shows `remaining_secs / 60`. When
  `remaining_secs` is 0 it shows the configured minutes.

## Model

| member | source | states |
|---|---|---|
| `Timer.Init` | src/main.rs:41-45 | the initial state is idle and valid, with 25 minutes configured, nothing remaining and the clock stamped at `now` |
| `Timer.Clamp` | src/main.rs:396 | the minutes setting lands in 1..=60, on the value of that range nearest to the one entered |
| `Decimal.Show` | src/main.rs:85 | a number prints as a non-empty string of digits with no leading zero except for 0 itself |
| `Decimal.ReadShow` | src/main.rs:85 | reading a printed number back gives the number |
| `Decimal.ShowLength` | src/main.rs:85 | a number prints as one digit exactly when it is below 10, and as two digits from 10 to 99 |
| `Display.ReadJoined` | src/main.rs:89 | a message made of two numerals around " \n " reads back as the two values |
| `Display.SecondsFieldMeaning` | src/main.rs:82-86 | the seconds line reads as `remaining_secs % 60`; it is "00" exactly on a whole minute, a single unpadded digit exactly for 1..9, and two digits for 10..59 |
| `Display.TimeMessageMeaning` | src/main.rs:81-92 | the time message always reads back as (minutes, seconds) with seconds < 60; minutes*60+seconds is the time left when some is left, else it reads as the configured minutes and 0 |
| `Display.StatusLabelByPhase` | src/main.rs:73-79 | in a valid state the badge is "Paused" iff paused, "Focus" iff running, and absent iff idle |
| `Display.IsBreakIsPaused` | src/main.rs:53 | in a valid state the break theme is on exactly while paused |
| `Display.InitialDisplay` | src/main.rs:39-44 | a new window shows no badge, the focus theme, and "25 \n 00" |
| `TimerProperties.TickWhilePaused` | src/main.rs:100 | while paused a tick leaves the whole state unchanged |
| `TimerProperties.TickCountsOneSecond` | src/main.rs:100-110 | a tick takes off exactly one second, and stamps `now`, iff unpaused with at least 1 s elapsed and time left; otherwise time left and stamp are unchanged; it never takes off more than one, and never starts a session |
| `TimerProperties.TickExpires` | src/main.rs:106-108 | a tick ends a session iff it is running with nothing left and at least 1 s elapsed; the timer is then idle with no badge; a tick never takes an idle timer out of idle |
| `TimerProperties.TickWhileIdle` | src/main.rs:100-110 | once a session has ended, further ticks change nothing: the timer stays idle with nothing left |
| `TimerProperties.TickIdempotent` | src/main.rs:100-110 | a second tick at the same frame time changes nothing |
| `TimerProperties.PlayClickedTransitions` | src/main.rs:183-196 | play moves idle to running (loading minutes*60 and stamping `now`), running to paused (time and stamp kept), paused to running (time kept, stamp `now`) |
| `TimerProperties.NoTickRightAfterResume` | src/main.rs:190-194 | after a resume no tick within the next second changes anything, however long the pause was |
| `TimerProperties.StopClickedResets` | src/main.rs:200-223 | stop during a session returns to idle, unpaused, nothing left, stamp `now`, minutes kept; with no session there is no button and nothing changes |
| `TimerProperties.SetMinutesGated` | src/main.rs:148-157 | the minutes change only while paused or idle, always within 1..=60, and the countdown, phase and stamp are untouched |
| `TimerProperties.RemainingGrowsOnlyOnStart` | src/main.rs:185 | the time left increases only through play from idle |
| `TimerProperties.StepPreservesValid` | src/main.rs:100-223 | every input keeps the invariant: minutes in 1..=60, time left at most 3600, paused only during a session, nothing left when idle |
| `TimerProperties.RunPreservesValid` | src/main.rs:100-223 | any sequence of inputs keeps the invariant |
| `TimerProperties.ReachableStates` | src/main.rs:53-79 | every state reachable from the initial one is valid (so paused only during a session), uses the break theme exactly while paused and shows no badge exactly when idle |
| `TimerProperties.CountdownNoFasterThanClock` | src/main.rs:100-110 | over frames that never go back in time, the countdown loses at most one second per frame and at most one per 1000 ms between the first stamp and the last frame |
| `TimerProperties.SteadyCountdown` | src/main.rs:102-105 | frames exactly one second apart each take one second off while time is left |
| `TimerProperties.SessionLength` | src/main.rs:100-196 | a session of m minutes ticked once per second reaches 0 after m*60 frames, still "Focus" and showing m over "00", and is idle with no badge one frame later |
| `TimerScenarios.IrregularFrames` | src/main.rs:102-105 | frames 0.7 s apart over 4.2 s take off 3 seconds, not 4 |
| `TimerScenarios.StalledFrame` | src/main.rs:102-105 | a frame 5 s late takes off one second |
| `TimerScenarios.PauseIsNotCounted` | src/main.rs:183-195 | 5 s counted, a pause of about 100 s, resume, 5 s counted: 50 of 60 s remain |
| `App.MyApp.constructor` | src/main.rs:30-48 | the new object is in the initial state |
| `App.MyApp.Tick` | src/main.rs:100-110 | updates the fields in place to `Timer.Tick` of the old state and keeps the invariant |
| `App.MyApp.PlayClicked` | src/main.rs:183-196 | updates the fields in place to `Timer.PlayClicked` of the old state and keeps the invariant |
| `App.MyApp.StopClicked` | src/main.rs:200-223 | updates the fields in place to `Timer.StopClicked` of the old state and keeps the invariant |
| `App.MyApp.SetMinutes` | src/main.rs:155-157 | updates the fields in place to `Timer.SetMinutes` of the old state and keeps the invariant |

## Left out

- Rendering with egui/eframe is not modelled: panels, spacing, text sizes, repaint
  requests, image buttons, the badge geometry, cursor icons and the colour values.
  These are calls into a UI library, or floating-point layout. `IsBreak` models only
  which theme is chosen.
- SVG and texture loading and the embedded image assets are not modelled. They are
  I/O and foreign calls.
- `main` and the window options are not modelled.
- The settings dialog is reduced to its effect on `minutes`. Its open flag
  `show_settings`, the close button and the input-blocking layer are not modelled.
  Editing is gated by the condition of the settings button (paused or idle). The
  `DragValue` widget is reduced to its 1..=60 clamp.
- The `status_label` and `left_time_message` fields are not kept as fields. They are
  the functions `StatusLabel` and `TimeMessage` of the state. The model does not
  capture that in one frame they are computed before that frame's tick and clicks.
- The clock is not modelled. Each read of `Instant::now()` becomes a `now` argument.
  The two reads made when a session starts are taken as one instant.
- Integer widths are not modelled as wrapping: `minutes` and `remaining_secs` are `u64`
  in the source. The invariant `Valid` keeps them at or below 60 and 3600, so
  `minutes * 60` cannot overflow. The decrement is guarded by `remaining_secs > 0`,
  so it cannot underflow.
