/** What the window shows of the timer, recomputed every frame from the timer
    fields: the status badge, the break flag that picks the colour theme, and
    the two-line time message. */
module Display {
  import opened Timer
  import Decimal

  /** The badge text: "Paused" while paused, "Focus" during a running session,
      no badge otherwise. */
  function StatusLabel(s: TimerState): Option<string> {
    if s.isPaused then Some("Paused")
    else if !s.isPaused && s.Active() then Some("Focus")
    else None
  }

  /** The break theme is used while a session is paused. */
  function IsBreak(s: TimerState): bool {
    s.isPaused && s.Active()
  }

  /** The seconds line: "00" on a whole minute, else the unpadded number. */
  function SecondsField(remainingSecs: nat): string {
    if remainingSecs % SecsPerMinute == 0 then "00"
    else Decimal.Show(remainingSecs % SecsPerMinute)
  }

  /** What separates the minutes line from the seconds line. */
  const Separator: string := " \n "

  /** The time message: minutes left (or the configured minutes when nothing
      is left) over the seconds line. */
  function TimeMessage(s: TimerState): string {
    var mins := if s.remainingSecs > 0 then s.remainingSecs / SecsPerMinute else s.minutes;
    Decimal.Show(mins) + Separator + SecondsField(s.remainingSecs)
  }

  /** Index of the first space of `m`, or |m| when there is none. */
  function FirstSpace(m: string): (k: nat)
    ensures k <= |m|
    ensures forall i :: 0 <= i < k ==> m[i] != ' '
    ensures k < |m| ==> m[k] == ' '
  {
    if m == [] || m[0] == ' ' then 0 else 1 + FirstSpace(m[1..])
  }

  /** Reads a time message back as (minutes, seconds); None for any string
      that is not two decimal numerals around the separator. */
  function ReadTimeMessage(m: string): Option<(nat, nat)> {
    var k := FirstSpace(m);
    if 0 < k && k + |Separator| < |m| && m[k..k + |Separator|] == Separator
       && Decimal.AllDigits(m[..k]) && Decimal.AllDigits(m[k + |Separator|..])
    then Some((Decimal.Read(m[..k]), Decimal.Read(m[k + |Separator|..])))
    else None
  }

  /** Two numerals joined by the separator read back as their values. */
  lemma ReadJoined(a: string, b: string)
    requires 0 < |a| && 0 < |b| && Decimal.AllDigits(a) && Decimal.AllDigits(b)
    ensures ReadTimeMessage(a + Separator + b) == Some((Decimal.Read(a), Decimal.Read(b)))
  {
    var m := a + Separator + b;
    assert m[|a|] == ' ';
    assert forall i :: 0 <= i < |a| ==> m[i] == a[i] && m[i] != ' ';
    assert FirstSpace(m) == |a|;
    assert m[..|a|] == a;
    assert m[|a|..|a| + |Separator|] == Separator;
    assert m[|a| + |Separator|..] == b;
  }

  /** The seconds line is a numeral worth the seconds past the whole minute:
      two characters ("00" or 10..59), one character for 1..9 (no padding). */
  lemma SecondsFieldMeaning(remainingSecs: nat)
    ensures var f := SecondsField(remainingSecs);
      && 0 < |f| && Decimal.AllDigits(f)
      && Decimal.Read(f) == remainingSecs % SecsPerMinute
      && (|f| == 1 <==> 0 < remainingSecs % SecsPerMinute < 10)
      && (10 <= remainingSecs % SecsPerMinute ==> |f| == 2)
      && (remainingSecs % SecsPerMinute == 0 <==> f == "00")
  {
    var r := remainingSecs % SecsPerMinute;
    if r != 0 {
      Decimal.ReadShow(r);
      Decimal.ShowLength(r);
      assert Decimal.Show(r)[0] != '0';
    } else {
      var f := "00";
      assert f[..1] == "0";
    }
  }

  /** The time message reads back as the time left, split into minutes and
      seconds; with nothing left it reads as the configured minutes and 0. */
  lemma TimeMessageMeaning(s: TimerState)
    ensures ReadTimeMessage(TimeMessage(s)).Some?
    ensures var (mins, secs) := ReadTimeMessage(TimeMessage(s)).value;
      && secs < SecsPerMinute
      && (s.remainingSecs > 0 ==> mins * SecsPerMinute + secs == s.remainingSecs)
      && (s.remainingSecs == 0 ==> mins == s.minutes && secs == 0)
  {
    var mins := if s.remainingSecs > 0 then s.remainingSecs / SecsPerMinute else s.minutes;
    SecondsFieldMeaning(s.remainingSecs);
    Decimal.ReadShow(mins);
    ReadJoined(Decimal.Show(mins), SecondsField(s.remainingSecs));
  }

  /** In a valid state the badge follows the phase exactly. */
  lemma StatusLabelByPhase(s: TimerState)
    requires Valid(s)
    ensures StatusLabel(s) == Some("Paused") <==> PhaseOf(s) == Paused
    ensures StatusLabel(s) == Some("Focus") <==> PhaseOf(s) == Running
    ensures StatusLabel(s) == None <==> PhaseOf(s) == Idle
  {
  }

  /** In a valid state the break theme is shown exactly while paused. */
  lemma IsBreakIsPaused(s: TimerState)
    requires Valid(s)
    ensures IsBreak(s) == s.isPaused
    ensures IsBreak(s) <==> PhaseOf(s) == Paused
  {
  }

  /** A new window shows no badge, the focus theme, and "25" over "00". */
  lemma InitialDisplay(now: nat)
    ensures StatusLabel(Init(now)) == None && !IsBreak(Init(now))
    ensures TimeMessage(Init(now)) == "25 \n 00"
  {
  }
}
