/** The focus-timer modal: a countdown of `secondsLeft` that runs while
    `isRunning`, ticking once a second, with play/pause and reset, and an
    `MM:SS` display. The progress ring's floating-point geometry is not
    modelled. */
module TimerModal {
  import opened JsText

  datatype TimerState = TimerState(secondsLeft: int, isRunning: bool)

  /** The condition under which the tick effect starts the one-second
      interval when it runs: the timer runs with time left. The effect runs
      whenever `isRunning` or `secondsLeft` changes; the open effect's
      cleanup also clears the interval, so an interval can be gone while
      this condition holds (see `FocusTimer.intervalLive`). */
  predicate IntervalActive(s: TimerState)
  {
    s.isRunning && s.secondsLeft > 0
  }

  /** One second of wall-clock time with the interval live. While the
      interval is active the
      updater runs: at one second or less it sets the count to 0, stops the
      timer and reports completion (`onComplete` fires); otherwise it takes
      exactly one second off. While inactive nothing changes. */
  function SecondElapsed(s: TimerState): (r: (TimerState, bool))
    ensures r.1 <==> IntervalActive(s) && s.secondsLeft == 1
    ensures r.1 ==> r.0 == TimerState(0, false)
    ensures IntervalActive(s) && !r.1 ==> r.0 == TimerState(s.secondsLeft - 1, true) && r.0.secondsLeft > 0
    ensures !IntervalActive(s) ==> r.0 == s
    ensures r.0.secondsLeft <= s.secondsLeft
    ensures s.secondsLeft >= 0 ==> r.0.secondsLeft >= 0
  {
    if !IntervalActive(s) then (s, false)
    else if s.secondsLeft <= 1 then (TimerState(0, false), true)
    else (TimerState(s.secondsLeft - 1, true), false)
  }

  /** The state after `k` seconds, and how many times `onComplete` fired. */
  function Run(s: TimerState, k: nat): (TimerState, nat)
    decreases k
  {
    if k == 0 then (s, 0)
    else
      var (next, fired) := SecondElapsed(s);
      var (last, count) := Run(next, k - 1);
      (last, count + if fired then 1 else 0)
  }

  predicate IsFinished(secondsLeft: int)
  {
    secondsLeft == 0
  }

  /** A stopped timer stays as it is however much time passes. */
  lemma {:induction false} StoppedStaysPut(s: TimerState, k: nat)
    requires !IntervalActive(s)
    ensures Run(s, k) == (s, 0)
  {
    if k > 0 {
      StoppedStaysPut(s, k - 1);
    }
  }

  /** Started with `n` seconds left, the timer is unfinished and running
      for the first `n - 1` seconds, and after exactly `n` seconds it has
      finished, stopped, and fired `onComplete` once; after that it fires no
      more. */
  lemma {:induction false} CountdownCompletesOnce(n: nat, extra: nat)
    requires n > 0
    ensures Run(TimerState(n, true), n) == (TimerState(0, false), 1)
    ensures Run(TimerState(n, true), n + extra) == (TimerState(0, false), 1)
    ensures forall k :: 0 <= k < n ==> Run(TimerState(n, true), k) == (TimerState(n - k, true), 0)
    ensures forall k :: 0 <= k < n ==> !IsFinished(Run(TimerState(n, true), k).0.secondsLeft)
  {
    if n == 1 {
      StoppedStaysPut(TimerState(0, false), 0);
      StoppedStaysPut(TimerState(0, false), extra);
    } else {
      CountdownCompletesOnce(n - 1, extra);
      forall k | 0 <= k < n ensures Run(TimerState(n, true), k) == (TimerState(n - k, true), 0) {
        if k > 0 {
          assert SecondElapsed(TimerState(n, true)) == (TimerState(n - 1, true), false);
        }
      }
    }
  }

  // ---------------------------------------------------------------------
  // Display

  /** `MM:SS`: `Math.floor(secondsLeft / 60)` and `secondsLeft % 60`, each
      padded to at least two characters. */
  function TimeDisplay(secondsLeft: int): string
  {
    PadStart2(IntToString(secondsLeft / 60)) + ":" + PadStart2(IntToString(JsRem(secondsLeft, 60)))
  }

  /** `d` is `<minutes>:<ss>` with seconds below 60, and minutes * 60 +
      seconds is `n`. */
  predicate ReadsBackAs(d: string, n: int)
  {
    |d| >= 5 && d[|d| - 3] == ':' &&
    AllDigits(d[..|d| - 3]) && AllDigits(d[|d| - 2..]) &&
    DigitsValue(d[|d| - 2..]) < 60 &&
    DigitsValue(d[..|d| - 3]) * 60 + DigitsValue(d[|d| - 2..]) == n
  }

  /** For a count that is not negative the display reads back as the count:
      the part before the last ':' is the minutes, the two digits after it
      the seconds, below 60, and minutes * 60 + seconds is the count. */
  lemma TimeDisplayReadsBack(secondsLeft: nat)
    ensures ReadsBackAs(TimeDisplay(secondsLeft), secondsLeft)
  {
    var minutes, seconds := secondsLeft / 60, secondsLeft % 60;
    var mm := PadStart2(NatToString(minutes));
    var ss := PadStart2(NatToString(seconds));
    DisplayOfCount(secondsLeft);
    PaddedValue(minutes);
    PaddedValue(seconds);
    var d := TimeDisplay(secondsLeft);
    JoinedAtColon(mm, ss);
    assert d[..|d| - 3] == mm && d[|d| - 2..] == ss;
  }

  /** The display of a count that is not negative, in terms of its whole
      minutes and the seconds left over. */
  lemma DisplayOfCount(secondsLeft: nat)
    ensures TimeDisplay(secondsLeft) ==
      PadStart2(NatToString(secondsLeft / 60)) + ":" + PadStart2(NatToString(secondsLeft % 60))
    ensures secondsLeft / 60 * 60 + secondsLeft % 60 == secondsLeft && secondsLeft % 60 < 60
  {
    assert JsRem(secondsLeft, 60) == secondsLeft % 60;
  }

  /** The two halves of `a + ":" + b`, for a two-character `b`. */
  lemma JoinedAtColon(a: string, b: string)
    requires |b| == 2
    ensures var d := a + ":" + b;
      |d| == |a| + 3 && d[|d| - 3] == ':' && d[..|d| - 3] == a && d[|d| - 2..] == b
  {
  }

  // ---------------------------------------------------------------------
  // The modal's state

  class FocusTimer {
    var durationMinutes: int
    var secondsLeft: int
    var isRunning: bool
    /** Whether the one-second interval is currently scheduled. */
    var intervalLive: bool

    function State(): TimerState
      reads this
    {
      TimerState(secondsLeft, isRunning)
    }

    function TotalSeconds(): int
      reads this
    {
      durationMinutes * 60
    }

    /** A live interval only exists while the timer runs with time left. */
    predicate Valid()
      reads this
    {
      intervalLive ==> IntervalActive(State())
    }

    /** A new timer holds the whole session, is stopped and has no
        interval. */
    constructor (durationMinutes: int)
      ensures Valid()
      ensures this.durationMinutes == durationMinutes
      ensures secondsLeft == durationMinutes * 60 && !isRunning && !intervalLive
    {
      this.durationMinutes := durationMinutes;
      secondsLeft := durationMinutes * 60;
      isRunning := false;
      intervalLive := false;
    }

    /** A change of `visible` or of the session length. The open effect's
        cleanup clears any live interval first. Becoming visible restores
        the whole session and stops the timer; while hidden the count and
        the running flag stay as they are, but with the interval gone the
        timer is frozen until play/pause or reset. */
    method OnOpen(visible: bool, durationMinutes: int)
      modifies this
      ensures Valid() && !intervalLive
      ensures this.durationMinutes == durationMinutes
      ensures visible ==> secondsLeft == durationMinutes * 60 && !isRunning
      ensures !visible ==> secondsLeft == old(secondsLeft) && isRunning == old(isRunning)
    {
      intervalLive := false;
      this.durationMinutes := durationMinutes;
      if visible {
        secondsLeft := durationMinutes * 60;
        isRunning := false;
      }
    }

    /** One second passes; `completed` says whether `onComplete` fired.
        Without a live interval nothing happens. With one, the updater runs,
        and since it changes the state the tick effect re-runs and keeps an
        interval exactly while the timer still runs with time left. */
    method Tick() returns (completed: bool)
      requires Valid()
      modifies this
      ensures Valid()
      ensures old(intervalLive) ==> (State(), completed) == SecondElapsed(old(State()))
      ensures !old(intervalLive) ==> State() == old(State()) && !completed
      ensures intervalLive == (old(intervalLive) && IntervalActive(State()))
      ensures durationMinutes == old(durationMinutes)
      ensures secondsLeft <= old(secondsLeft)
      ensures old(secondsLeft) >= 0 ==> secondsLeft >= 0
    {
      completed := false;
      if intervalLive {
        var (next, fired) := SecondElapsed(State());
        secondsLeft, isRunning := next.secondsLeft, next.isRunning;
        completed := fired;
        intervalLive := IntervalActive(State());
      }
    }

    /** Play/pause flips whether the timer runs; the tick effect re-runs and
        schedules an interval exactly when the timer now runs with time
        left. */
    method PlayPause()
      modifies this
      ensures Valid()
      ensures isRunning == !old(isRunning)
      ensures secondsLeft == old(secondsLeft) && durationMinutes == old(durationMinutes)
      ensures intervalLive == IntervalActive(State())
    {
      isRunning := !isRunning;
      intervalLive := IntervalActive(State());
    }

    /** Reset stops the timer, clears the interval and restores the whole
        session. */
    method Reset()
      requires Valid()
      modifies this
      ensures Valid() && !intervalLive
      ensures !isRunning && secondsLeft == TotalSeconds()
      ensures durationMinutes == old(durationMinutes)
    {
      isRunning := false;
      secondsLeft := TotalSeconds();
      intervalLive := false;
    }

    /** The big button closes the modal once the countdown has finished and
        plays or pauses it before that. */
    method PressMainButton() returns (closeRequested: bool)
      requires Valid()
      modifies this
      ensures Valid()
      ensures closeRequested <==> IsFinished(old(secondsLeft))
      ensures closeRequested ==> isRunning == old(isRunning) && intervalLive == old(intervalLive)
      ensures !closeRequested ==> isRunning == !old(isRunning) && intervalLive == IntervalActive(State())
      ensures secondsLeft == old(secondsLeft) && durationMinutes == old(durationMinutes)
    {
      closeRequested := IsFinished(secondsLeft);
      if !closeRequested {
        PlayPause();
      }
    }
  }
}
