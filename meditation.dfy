/**
 * src/components/MeditationApp.tsx: a guided session with a countdown of
 * the chosen number of minutes and, in the breathing session, a breath cycle
 * of inhale, hold and exhale. The one-second and four-second intervals are
 * modelled as the events `OnSecond` and `OnBreath`; the effect that ends a
 * session at zero runs after every change of `isActive` or `timeLeft`.
 */
module Meditation {
  import opened Wrappers
  import opened Numbers

  datatype Session = Breathing | Focus | Stress

  datatype Phase = Inhale | Hold | Exhale

  /** The durations, in minutes, the picker offers. */
  const Durations: set<nat> := {3, 5, 10, 15}

  // ---------------------------------------------------------------------------
  // The countdown

  /** The cells the countdown reads and writes. */
  datatype Timer = Timer(active: bool, timeLeft: nat, session: Option<Session>)

  /** The effect on `[isActive, timeLeft]`: at zero the session ends. */
  function Settle(t: Timer): (r: Timer)
    ensures r.timeLeft == t.timeLeft
    ensures t.timeLeft == 0 ==> r == Timer(false, 0, None)
    ensures t.timeLeft > 0 ==> r == t
  {
    if t.timeLeft == 0 then Timer(false, 0, None) else t
  }

  /** One tick of the one-second interval, which exists while active with time left. */
  function Tick(t: Timer): Timer {
    if t.active && t.timeLeft > 0 then Settle(t.(timeLeft := t.timeLeft - 1)) else t
  }

  /** `n` ticks in a row. */
  function Ticks(t: Timer, n: nat): Timer {
    if n == 0 then t else Tick(Ticks(t, n - 1))
  }

  // ---------------------------------------------------------------------------
  // The breath cycle

  /** One step of the four-second interval: inhale, hold, exhale, and a counted breath back to inhale. */
  function BreathStep(phase: Phase, count: nat): (Phase, nat) {
    match phase
    case Inhale => (Hold, count)
    case Hold => (Exhale, count)
    case Exhale => (Inhale, count + 1)
  }

  /** `n` breath steps in a row. */
  function BreathSteps(phase: Phase, count: nat, n: nat): (Phase, nat) {
    if n == 0 then (phase, count)
    else
      var (p, c) := BreathSteps(phase, count, n - 1);
      BreathStep(p, c)
  }

  /** The phase `k` steps after an inhale, for `k < 3`. */
  function PhaseAt(k: nat): Phase
    requires k < 3
  {
    if k == 0 then Inhale else if k == 1 then Hold else Exhale
  }

  // ---------------------------------------------------------------------------
  // formatTime

  /** `secs.toString().padStart(2, '0')` for a number of seconds below 60. */
  function TwoDigits(n: nat): (s: string)
    requires n < 60
    ensures |s| == 2 && AllDigits(s) && DigitsValue(s) == n
  {
    var s := [DigitChar(n / 10), DigitChar(n % 10)];
    assert DigitValue(s[0]) == n / 10 && DigitValue(s[1]) == n % 10;
    assert s[..1] == [s[0]] && s[..1][..0] == [];
    assert DigitsValue(s[..1]) == n / 10;
    s
  }

  /** `formatTime`: minutes, a colon, and the seconds on two digits. */
  function FormatTime(seconds: nat): string {
    NatToString(seconds / 60) + ":" + TwoDigits(seconds % 60)
  }

  /** Reads `m:ss` back as a number of seconds; `None` for any other text. */
  function ParseTime(t: string): Option<nat> {
    if |t| >= 4 && t[|t| - 3] == ':' && AllDigits(t[..|t| - 3]) && AllDigits(t[|t| - 2..])
       && DigitsValue(t[|t| - 2..]) < 60
    then Some(DigitsValue(t[..|t| - 3]) * 60 + DigitsValue(t[|t| - 2..]))
    else None
  }

  // ---------------------------------------------------------------------------
  // The component

  class MeditationApp {
    var session: Option<Session>
    var active: bool
    var timeLeft: nat
    var phase: Phase
    var breathCount: nat
    var selectedDuration: nat

    /** A duration from the picker, and a session that can be running only with time left. */
    ghost predicate Valid()
      reads this
    {
      selectedDuration in Durations && (timeLeft == 0 ==> !active && session.None?)
    }

    function TimerState(): Timer
      reads this
    {
      Timer(active, timeLeft, session)
    }

    /** The initial state: no session, paused, five minutes selected and 300 seconds shown. */
    constructor ()
      ensures Valid()
      ensures session.None? && !active && timeLeft == 300 && phase == Inhale && breathCount == 0
      ensures selectedDuration == 5
    {
      session := None;
      active := false;
      timeLeft := 300;
      phase := Inhale;
      breathCount := 0;
      selectedDuration := 5;
    }

    /** A duration button. */
    method SelectDuration(d: nat)
      requires Valid() && d in Durations
      modifies this
      ensures Valid()
      ensures selectedDuration == d
      ensures session == old(session) && active == old(active) && timeLeft == old(timeLeft)
      ensures phase == old(phase) && breathCount == old(breathCount)
    {
      selectedDuration := d;
    }

    /** `startSession`: the full duration on the clock, running, from the first inhale. */
    method Start(s: Session)
      requires Valid()
      modifies this
      ensures Valid()
      ensures session == Some(s) && active && timeLeft == selectedDuration * 60
      ensures breathCount == 0 && phase == Inhale && selectedDuration == old(selectedDuration)
    {
      session := Some(s);
      timeLeft := selectedDuration * 60;
      active := true;
      breathCount := 0;
      phase := Inhale;
    }

    /** The one-second interval fires. */
    method OnSecond()
      requires Valid()
      modifies this
      ensures Valid()
      ensures TimerState() == Tick(old(TimerState()))
      ensures phase == old(phase) && breathCount == old(breathCount) && selectedDuration == old(selectedDuration)
    {
      if active && timeLeft > 0 {
        timeLeft := timeLeft - 1;
        if timeLeft == 0 {
          active := false;
          session := None;
        }
      }
    }

    /** The four-second interval fires; it runs only while active in the breathing session. */
    method OnBreath()
      requires Valid()
      modifies this
      ensures Valid()
      ensures old(active && session == Some(Breathing)) ==> (phase, breathCount) == BreathStep(old(phase), old(breathCount))
      ensures !old(active && session == Some(Breathing)) ==> phase == old(phase) && breathCount == old(breathCount)
      ensures TimerState() == old(TimerState()) && selectedDuration == old(selectedDuration)
    {
      if active && session == Some(Breathing) {
        var next := BreathStep(phase, breathCount);
        phase, breathCount := next.0, next.1;
      }
    }

    /** `pauseResume`: toggles running with time left; the clock and the breath state stay. */
    method PauseResume()
      requires Valid()
      modifies this
      ensures Valid()
      ensures timeLeft == old(timeLeft)
      ensures TimerState() == Settle(old(TimerState()).(active := !old(active)))
      ensures timeLeft > 0 ==> active == !old(active) && session == old(session)
      ensures phase == old(phase) && breathCount == old(breathCount) && selectedDuration == old(selectedDuration)
    {
      active := !active;
      if timeLeft == 0 {
        active := false;
        session := None;
      }
    }

    /** `resetSession`: paused, the full duration back on the clock, the count cleared; the session stays. */
    method Reset()
      requires Valid()
      modifies this
      ensures Valid()
      ensures !active && timeLeft == selectedDuration * 60 && breathCount == 0 && phase == Inhale
      ensures session == old(session) && selectedDuration == old(selectedDuration)
    {
      active := false;
      timeLeft := selectedDuration * 60;
      breathCount := 0;
      phase := Inhale;
    }

    /** The back button: the picker is shown again while the clock keeps its state. */
    method Back()
      requires Valid()
      modifies this
      ensures Valid()
      ensures session.None? && active == old(active) && timeLeft == old(timeLeft)
      ensures phase == old(phase) && breathCount == old(breathCount) && selectedDuration == old(selectedDuration)
    {
      session := None;
    }
  }

  // ---------------------------------------------------------------------------
  // Properties

  /** A tick takes exactly one second off a running clock, and ends the session when it reaches zero. */
  lemma TickSpec(t: Timer)
    ensures t.active && t.timeLeft > 0 ==> Tick(t).timeLeft == t.timeLeft - 1
    ensures t.active && t.timeLeft > 1 ==> Tick(t) == t.(timeLeft := t.timeLeft - 1)
    ensures t.active && t.timeLeft == 1 ==> Tick(t) == Timer(false, 0, None)
    ensures !t.active ==> Tick(t) == t
  {
  }

  /**
   * Left running, a session with `n` seconds on the clock counts down one
   * second per tick and ends after exactly `n` ticks.
   */
  lemma {:induction false} TicksCountDown(t: Timer, k: nat)
    requires t.active && k < t.timeLeft
    ensures Ticks(t, k) == t.(timeLeft := t.timeLeft - k)
  {
    if k > 0 {
      TicksCountDown(t, k - 1);
    }
  }

  lemma TicksEnd(t: Timer)
    requires t.active && t.timeLeft > 0
    ensures Ticks(t, t.timeLeft) == Timer(false, 0, None)
  {
    TicksCountDown(t, t.timeLeft - 1);
  }

  /** A paused clock never moves. */
  lemma {:induction false} PausedStays(t: Timer, n: nat)
    requires !t.active
    ensures Ticks(t, n) == t
  {
    if n > 0 {
      PausedStays(t, n - 1);
    }
  }

  /** Every third step returns to inhale, with one more breath counted per full cycle. */
  lemma {:induction false} BreathCycle(count: nat, n: nat)
    ensures BreathSteps(Inhale, count, n) == (PhaseAt(n % 3), count + n / 3)
  {
    if n > 0 {
      BreathCycle(count, n - 1);
    }
  }

  /** Every step changes the phase, three steps come back to it, and only exhale to inhale counts a breath. */
  lemma BreathCountsOnlyOnExhale(phase: Phase, count: nat)
    ensures BreathStep(phase, count).1 == if phase == Exhale then count + 1 else count
    ensures BreathStep(phase, count).0 != phase
    ensures BreathSteps(phase, count, 3).0 == phase
  {
    assert BreathSteps(phase, count, 1) == BreathStep(phase, count);
    assert BreathSteps(phase, count, 2) == BreathStep(BreathStep(phase, count).0, BreathStep(phase, count).1);
  }

  /** `formatTime` is read back as the number it shows: minutes·60 + seconds. */
  lemma FormatTimeRoundTrip(seconds: nat)
    ensures ParseTime(FormatTime(seconds)) == Some(seconds)
  {
    var m := NatToString(seconds / 60);
    var ss := TwoDigits(seconds % 60);
    var t := FormatTime(seconds);
    assert t == m + [':'] + ss;
    assert t[..|t| - 3] == m;
    assert t[|t| - 2..] == ss;
    assert t[|t| - 3] == ':';
    DigitsValueOfNatToString(seconds / 60);
  }

  /** Two different times never show the same text. */
  lemma FormatTimeInjective(a: nat, b: nat)
    requires FormatTime(a) == FormatTime(b)
    ensures a == b
  {
    FormatTimeRoundTrip(a);
    FormatTimeRoundTrip(b);
  }

  /** A session of `d` minutes starts at `d:00`. */
  lemma StartShowsMinutes(d: nat)
    ensures FormatTime(d * 60) == NatToString(d) + ":00"
  {
    assert (d * 60) / 60 == d;
    assert (d * 60) % 60 == 0;
  }
}
