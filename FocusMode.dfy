/** The countdown of components/FocusMode.tsx: the seconds left and whether
    the timer runs, the transition one interval tick or one effect run
    makes, the pause/resume toggle, and the `mm:ss` display. */
module FocusMode {
  import opened Text

  /** The countdown's state as a value. */
  datatype Timer = Timer(timeLeft: int, isActive: bool)

  /** What happens to the state between two renders: a running timer with
      time left loses one second; a timer at zero stops; any other state,
      paused or with a negative count, stays as it is. */
  function Step(t: Timer): (u: Timer)
    ensures t.isActive && t.timeLeft > 0 ==> u == Timer(t.timeLeft - 1, true)
    ensures t.timeLeft == 0 ==> u == Timer(0, false)
    ensures !(t.isActive && t.timeLeft > 0) && t.timeLeft != 0 ==> u == t
  {
    if t.isActive && t.timeLeft > 0 then t.(timeLeft := t.timeLeft - 1)
    else if t.timeLeft == 0 then t.(isActive := false)
    else t
  }

  /** `n` steps in a row. */
  function Steps(t: Timer, n: nat): Timer
    decreases n
  {
    if n == 0 then t else Steps(Step(t), n - 1)
  }

  /** A count that starts at zero or above never goes below zero. */
  lemma {:induction false} NeverNegative(t: Timer, n: nat)
    requires t.timeLeft >= 0
    ensures Steps(t, n).timeLeft >= 0
    ensures Steps(t, n).timeLeft <= t.timeLeft
    decreases n
  {
    if n > 0 {
      NeverNegative(Step(t), n - 1);
    }
  }

  /** A running timer counts down one second per step. */
  lemma {:induction false} CountsDown(s: nat, k: nat)
    requires k <= s
    ensures Steps(Timer(s, true), k) == Timer(s - k, true)
    decreases k
  {
    if k > 0 {
      CountsDown(s - 1, k - 1);
    }
  }

  /** A countdown from `s` seconds reaches zero after `s` steps, still
      running, and the next step stops it for good. */
  lemma TimeIsUp(s: nat, n: nat)
    ensures Steps(Timer(s, true), s) == Timer(0, true)
    ensures Steps(Timer(s, true), s + 1 + n) == Timer(0, false)
  {
    CountsDown(s, s);
    StoppedStaysStopped(n);
    assert Steps(Timer(s, true), s + 1 + n) == Steps(Steps(Timer(s, true), s), 1 + n) by {
      StepsAdd(Timer(s, true), s, 1 + n);
    }
  }

  lemma {:induction false} StepsAdd(t: Timer, a: nat, b: nat)
    ensures Steps(t, a + b) == Steps(Steps(t, a), b)
    decreases a
  {
    if a > 0 {
      StepsAdd(Step(t), a - 1, b);
    }
  }

  /** A stopped timer at zero stays stopped at zero. */
  lemma {:induction false} StoppedStaysStopped(n: nat)
    ensures Steps(Timer(0, false), n) == Timer(0, false)
    decreases n
  {
    if n > 0 {
      StoppedStaysStopped(n - 1);
    }
  }

  /** A paused timer with time left keeps it for any number of steps. */
  lemma {:induction false} PausedHolds(t: Timer, n: nat)
    requires !t.isActive && t.timeLeft > 0
    ensures Steps(t, n) == t
    decreases n
  {
    if n > 0 {
      PausedHolds(t, n - 1);
    }
  }

  /** The live countdown of the focus screen. */
  class Countdown {
    var timeLeft: int
    var isActive: bool

    function State(): Timer
      reads this
    {
      Timer(timeLeft, isActive)
    }

    /** The screen opens with the task's whole duration, in seconds, running. */
    constructor (durationMinutes: int)
      ensures timeLeft == durationMinutes * 60 && isActive
    {
      timeLeft := durationMinutes * 60;
      isActive := true;
    }

    /** The interval's tick, or the effect stopping the timer at zero. */
    method Tick()
      modifies this
      ensures State() == Step(old(State()))
    {
      if isActive && timeLeft > 0 {
        timeLeft := timeLeft - 1;
      } else if timeLeft == 0 {
        isActive := false;
      }
    }

    /** The Pause / Resume button. */
    method Toggle()
      modifies this
      ensures isActive == !old(isActive)
      ensures timeLeft == old(timeLeft)
    {
      isActive := !isActive;
    }
  }

  /** `formatTime(seconds)`: whole minutes padded to at least two digits, a
      colon, then the remaining seconds as two digits. */
  function FormatClock(seconds: nat): (shown: string)
    ensures |shown| >= 5
    ensures var k := |shown| - 3;
      && AllDigits(shown[..k]) && shown[k] == ':' && AllDigits(shown[k + 1..])
      && DecimalValue(shown[..k]) == seconds / 60
      && DecimalValue(shown[k + 1..]) == seconds % 60 < 60
      && 60 * DecimalValue(shown[..k]) + DecimalValue(shown[k + 1..]) == seconds
    ensures seconds < 6000 ==> |shown| == 5
    ensures seconds >= 600 ==> shown[0] != '0'
  {
    var m, s := seconds / 60, seconds % 60;
    Pad2Small(s);
    Pad2Value(m);
    Pad2Value(s);
    Pad2Width(m);
    Pad2NoLeadingZero(m);
    ClockJoin(Pad2(m), Pad2(s), m, s);
    Pad2(m) + ":" + Pad2(s)
  }

  /** Any minutes part and two-digit seconds part, joined by a colon, read
      back as the parts they were made of. */
  lemma ClockJoin(mm: string, ss: string, m: nat, s: nat)
    requires AllDigits(mm) && |mm| >= 2 && DecimalValue(mm) == m
    requires AllDigits(ss) && |ss| == 2 && DecimalValue(ss) == s && s < 60
    requires m < 100 ==> |mm| == 2
    requires m >= 10 ==> mm[0] != '0'
    ensures var shown := mm + ":" + ss; var k := |shown| - 3;
      && |shown| >= 5 && k == |mm|
      && AllDigits(shown[..k]) && shown[k] == ':' && AllDigits(shown[k + 1..])
      && DecimalValue(shown[..k]) == m && DecimalValue(shown[k + 1..]) == s
      && (m < 100 ==> |shown| == 5)
      && (m >= 10 ==> shown[0] != '0')
  {
    var shown := mm + ":" + ss;
    assert shown[..|mm|] == mm && shown[|mm| + 1..] == ss;
  }

  /** Below 100 the padding gives exactly two digits. */
  lemma Pad2Width(n: nat)
    ensures n < 100 ==> |Pad2(n)| == 2
  {
    if n < 100 {
      Pad2Small(n);
    }
  }

  /** A 25-minute session shows "25:00" when it opens. */
  lemma FormatClockExample()
    ensures FormatClock(1500) == "25:00"
  {
    assert 1500 / 60 == 25 && 1500 % 60 == 0;
    Pad2Small(25);
    Pad2Small(0);
  }

  /** A two-hour session shows "120:00": minutes are not cut to two digits. */
  lemma FormatClockLongExample()
    ensures FormatClock(7200) == "120:00"
  {
    assert 7200 / 60 == 120 && 7200 % 60 == 0;
    assert Decimal(120) == Decimal(12) + [DigitChar(0)];
    assert Decimal(12) == Decimal(1) + [DigitChar(2)];
    Pad2Small(0);
  }
}
