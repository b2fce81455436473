/** The modal that edits a habit's due time and reminder time. A JavaScript
    `Date` is used only through `getHours`/`getMinutes`, so it is modelled
    as a time of day in minutes since midnight, or as the invalid date that
    `setHours` produces from a part that is not a number. */
module EditTimesModal {
  import opened Types
  import opened JsText

  const MinutesPerDay := 1440

  type MinuteOfDay = t: int | 0 <= t < MinutesPerDay

  datatype Clock = At(minuteOfDay: MinuteOfDay) | InvalidDate

  /** `d.setHours(h, m, 0, 0)` as seen by `getHours`/`getMinutes`: minutes
      past 59 carry into the hour, hours past 23 into the next day, and
      negative minutes borrow from the previous hour (and day). */
  function SetHours(h: int, m: int): (c: Clock)
    ensures c.At? && (c.minuteOfDay - (h * 60 + m)) % MinutesPerDay == 0
    ensures 0 <= h < 24 && 0 <= m < 60 ==> c.minuteOfDay == h * 60 + m
  {
    At((h * 60 + m) % MinutesPerDay)
  }

  // ---------------------------------------------------------------------
  // Parsing `HH:MM`

  /** `s.split(':').map(Number)` keeping the first two parts: the hour part
      before the first ':' and the minute part up to the next ':' or the end.
      An empty part reads as 0, as `Number("")` does; a missing minute part
      or a part that is not all digits reads as NaN, reported as `None`. */
  function ParseHM(s: string): (r: Option<(nat, nat)>)
    ensures r.Some? ==> ':' in s
  {
    var i := IndexOf(s, ':');
    if i == |s| then None
    else
      var hPart := s[..i];
      var rest := s[i + 1..];
      var mPart := rest[..IndexOf(rest, ':')];
      if AllDigits(hPart) && AllDigits(mPart) then Some((DigitsValue(hPart), DigitsValue(mPart)))
      else None
  }

  /** The first two `:`-separated parts give the hour and the minute, an
      empty part giving 0, and whatever follows a second ':' is ignored. */
  lemma ParseHMParts(hh: string, mm: string, rest: string)
    requires AllDigits(hh) && AllDigits(mm)
    ensures ParseHM(hh + ":" + mm) == Some((DigitsValue(hh), DigitsValue(mm)))
    ensures ParseHM(hh + ":" + mm + ":" + rest) == Some((DigitsValue(hh), DigitsValue(mm)))
    ensures ParseHM(hh + ":" + mm) == ParseHM(hh + ":" + mm + ":" + rest)
  {
    ParseTwoParts(hh, mm);
    ParseIgnoresRest(hh, mm, rest);
  }

  lemma ParseTwoParts(hh: string, mm: string)
    requires AllDigits(hh) && AllDigits(mm)
    ensures ParseHM(hh + ":" + mm) == Some((DigitsValue(hh), DigitsValue(mm)))
  {
    NoColonInDigits(mm);
    assert mm[..|mm|] == mm;
    ParseAfterColon(hh, mm);
  }

  lemma ParseIgnoresRest(hh: string, mm: string, rest: string)
    requires AllDigits(hh) && AllDigits(mm)
    ensures ParseHM(hh + ":" + mm + ":" + rest) == Some((DigitsValue(hh), DigitsValue(mm)))
  {
    var tail := mm + ":" + rest;
    ColonAfterDigits(mm, rest);
    assert tail[..IndexOf(tail, ':')] == mm;
    ParseAfterColon(hh, tail);
    assert hh + ":" + mm + ":" + rest == hh + ":" + tail;
  }

  /** After an all-digit hour part, the minute part runs to the next ':'. */
  lemma ParseAfterColon(hh: string, tail: string)
    requires AllDigits(hh)
    ensures var mPart := tail[..IndexOf(tail, ':')];
      ParseHM(hh + ":" + tail) ==
        if AllDigits(mPart) then Some((DigitsValue(hh), DigitsValue(mPart))) else None
  {
    ColonAfterDigits(hh, tail);
  }

  /** A digit string followed by ':' and anything: the first ':' is the one
      after the digits. */
  lemma ColonAfterDigits(a: string, b: string)
    requires AllDigits(a)
    ensures var s := a + ":" + b;
      IndexOf(s, ':') == |a| && s[..|a|] == a && s[|a| + 1..] == b
  {
    var s := a + ":" + b;
    assert s[..|a|] == a;
    assert s[|a| + 1..] == b;
    if |a| > 0 {
      assert s[1..] == a[1..] + ":" + b;
      ColonAfterDigits(a[1..], b);
    }
  }

  lemma NoColonInDigits(a: string)
    requires AllDigits(a)
    ensures IndexOf(a, ':') == |a|
  {
    if |a| > 0 {
      NoColonInDigits(a[1..]);
    }
  }

  /** The two parts `ParseHM` reads: `s` is `hh:mm`, or `hh:mm:` followed by
      anything, for digit strings `hh` and `mm`. */
  predicate HMShape(s: string, hh: string, mm: string)
  {
    AllDigits(hh) && AllDigits(mm) &&
    (s == hh + ":" + mm || (|s| > |hh| + |mm| + 1 && s == hh + ":" + mm + ":" + s[|hh| + |mm| + 2..]))
  }

  /** A time is read exactly from a string of that shape, as its two parts;
      any other string (no ':', or a part that `Number` makes NaN) gives no
      time. */
  lemma ParseHMShape(s: string)
    ensures ParseHM(s).Some? <==> exists hh, mm :: HMShape(s, hh, mm)
    ensures forall hh, mm :: HMShape(s, hh, mm) ==> ParseHM(s) == Some((DigitsValue(hh), DigitsValue(mm)))
  {
    forall hh, mm | HMShape(s, hh, mm)
      ensures ParseHM(s) == Some((DigitsValue(hh), DigitsValue(mm)))
    {
      ShapeParses(s, hh, mm);
    }
    if ParseHM(s).Some? {
      ParsedHasShape(s);
    }
  }

  lemma ShapeParses(s: string, hh: string, mm: string)
    requires HMShape(s, hh, mm)
    ensures ParseHM(s) == Some((DigitsValue(hh), DigitsValue(mm)))
  {
    if s == hh + ":" + mm {
      ParseTwoParts(hh, mm);
    } else {
      ParseIgnoresRest(hh, mm, s[|hh| + |mm| + 2..]);
    }
  }

  /** The parts `ParseHM` reads are a witness of the shape. */
  lemma ParsedHasShape(s: string)
    requires ParseHM(s).Some?
    ensures var i := IndexOf(s, ':'); var rest := s[i + 1..];
      HMShape(s, s[..i], rest[..IndexOf(rest, ':')])
  {
    var i := IndexOf(s, ':');
    var rest := s[i + 1..];
    PartsHaveShape(s[..i], rest, IndexOf(rest, ':'));
    SplitAtColon(s, i);
  }

  /** `hh:rest`, where `rest` has its next ':' (if any) at `j`, has the shape
      with the minute part `rest[..j]`. */
  lemma PartsHaveShape(hh: string, rest: string, j: nat)
    requires j <= |rest| && (j < |rest| ==> rest[j] == ':')
    requires AllDigits(hh) && AllDigits(rest[..j])
    ensures HMShape(hh + ":" + rest, hh, rest[..j])
  {
    var s, mm := hh + ":" + rest, rest[..j];
    if j < |rest| {
      SplitAtColon(rest, j);
      var after := rest[j + 1..];
      assert s == hh + ":" + mm + ":" + after;
      assert after == s[|hh| + |mm| + 2..];
    } else {
      assert rest == mm;
    }
  }

  /** A string is its part before a ':' at `i`, the ':', and its part after. */
  lemma SplitAtColon(s: string, i: nat)
    requires i < |s| && s[i] == ':'
    ensures s == s[..i] + ":" + s[i + 1..]
  {
  }

  /** A new `Date` set from an `HH:MM` string. */
  function ClockOf(s: string): Clock
  {
    match ParseHM(s)
    case None => InvalidDate
    case Some((h, m)) => SetHours(h, m)
  }

  /** The time of day written as `HH:MM`, each part padded to two digits;
      an invalid date renders its NaN parts. */
  function FormatClock(c: Clock): (s: string)
    ensures c.At? ==> |s| == 5 && s[2] == ':'
    ensures c.At? ==>
      AllDigits(s[..2]) && AllDigits(s[3..]) &&
      DigitsValue(s[..2]) == c.minuteOfDay / 60 && DigitsValue(s[3..]) == c.minuteOfDay % 60
  {
    match c
    case InvalidDate => "NaN:NaN"
    case At(t) =>
      var hs, ms := PadStart2(NatToString(t / 60)), PadStart2(NatToString(t % 60));
      PaddedValue(t / 60);
      PaddedValue(t % 60);
      ColonJoined(hs, ms);
      hs + ":" + ms
  }

  /** Formatting a time and parsing it back gives the same hour and minute,
      hence the same time of day. */
  lemma FormatParseRoundTrip(t: MinuteOfDay)
    ensures ParseHM(FormatClock(At(t))) == Some((t / 60, t % 60))
    ensures ClockOf(FormatClock(At(t))) == At(t)
  {
    var hs, ms := PadStart2(NatToString(t / 60)), PadStart2(NatToString(t % 60));
    PaddedValue(t / 60);
    PaddedValue(t % 60);
    assert FormatClock(At(t)) == hs + ":" + ms;
    ColonJoined(hs, ms);
  }

  /** Where the parts of `hh:mm` sit, for two-digit `hh` and `mm`. */
  lemma ColonJoined(hs: string, ms: string)
    requires |hs| == 2 && |ms| == 2 && AllDigits(hs) && AllDigits(ms)
    ensures var s := hs + ":" + ms;
      IndexOf(s, ':') == 2 && s[..2] == hs && s[3..] == ms && IndexOf(ms, ':') == 2 && ms[..2] == ms
  {
    var s := hs + ":" + ms;
    assert IndexOf(s, ':') == 2 by {
      assert s[0] == hs[0] && s[1] == hs[1] && s[2] == ':';
      assert IsDigit(hs[0]) && IsDigit(hs[1]);
    }
    assert s[3..] == ms;
    assert IndexOf(ms, ':') == 2 by {
      assert IsDigit(ms[0]) && IsDigit(ms[1]);
    }
    assert s[..2] == hs;
  }

  // ---------------------------------------------------------------------
  // Initial values

  /** `!!x` for an optional string: given, and not empty. */
  predicate Given(o: Option<string>)
  {
    o.Some? && |o.value| > 0
  }

  /** The due time the modal opens with: the given one, else 09:00. */
  function InitialDue(initialDueTime: Option<string>): Clock
  {
    if Given(initialDueTime) then ClockOf(initialDueTime.value) else SetHours(9, 0)
  }

  /** The reminder time the modal opens with: the given one, else 15
      minutes before the given due time, else 08:45. */
  function InitialReminder(initialDueTime: Option<string>, initialReminderTime: Option<string>): Clock
  {
    if Given(initialReminderTime) then ClockOf(initialReminderTime.value)
    else if Given(initialDueTime) then
      match ParseHM(initialDueTime.value)
      case None => InvalidDate
      case Some((h, m)) => SetHours(h, m - 15)
    else SetHours(8, 45)
  }

  /** Without a given reminder, the reminder starts 15 minutes before the
      due time on a 24-hour clock (00:10 gives 23:55), and with neither time
      given the defaults are 09:00 and 08:45. */
  lemma DefaultReminderPrecedesDue(initialDueTime: Option<string>, initialReminderTime: Option<string>)
    requires !Given(initialReminderTime)
    ensures InitialDue(initialDueTime).At? <==> InitialReminder(initialDueTime, initialReminderTime).At?
    ensures InitialDue(initialDueTime).At? ==>
      InitialReminder(initialDueTime, initialReminderTime).minuteOfDay ==
      (InitialDue(initialDueTime).minuteOfDay - 15) % MinutesPerDay
    ensures !Given(initialDueTime) ==>
      InitialDue(initialDueTime) == At(9 * 60) &&
      InitialReminder(initialDueTime, initialReminderTime) == At(8 * 60 + 45)
  {
    if Given(initialDueTime) && ParseHM(initialDueTime.value).Some? {
      var (h, m) := ParseHM(initialDueTime.value).value;
      var x := h * 60 + m;
      assert InitialDue(initialDueTime) == At(x % MinutesPerDay);
      assert InitialReminder(initialDueTime, initialReminderTime) == At((x - 15) % MinutesPerDay);
      QuarterHourEarlier(x);
    }
  }

  /** Going back 15 minutes from `x` lands on the same time of day as going
      back 15 minutes from `x`'s time of day. */
  lemma QuarterHourEarlier(x: int)
    ensures (x - 15) % MinutesPerDay == (x % MinutesPerDay - 15) % MinutesPerDay
  {
    var q, r := x / MinutesPerDay, x % MinutesPerDay;
    assert x == q * MinutesPerDay + r;
    if r >= 15 {
      assert x - 15 == q * MinutesPerDay + (r - 15);
      assert (x - 15) % MinutesPerDay == r - 15;
    } else {
      assert x - 15 == (q - 1) * MinutesPerDay + (r - 15 + MinutesPerDay);
      assert (x - 15) % MinutesPerDay == r - 15 + MinutesPerDay;
      assert (r - 15) % MinutesPerDay == r - 15 + MinutesPerDay;
    }
  }

  // ---------------------------------------------------------------------
  // The modal's state

  /** What `onSave` receives: the habit id and, when switched on, the times
      as `HH:MM`; `closeAfter` records that the modal then closes. */
  datatype SaveRequest = SaveRequest(
    habitId: string,
    dueTime: Option<string>,
    reminderTime: Option<string>,
    closeAfter: bool)

  class TimeEditor {
    var hasDue: bool
    var hasReminder: bool
    var dueTime: Clock
    var reminderTime: Clock

    /** The switches are on exactly when the corresponding time is given;
        the times start at their initial values. */
    constructor (initialDueTime: Option<string>, initialReminderTime: Option<string>)
      ensures hasDue == Given(initialDueTime) && hasReminder == Given(initialReminderTime)
      ensures dueTime == InitialDue(initialDueTime)
      ensures reminderTime == InitialReminder(initialDueTime, initialReminderTime)
    {
      hasDue := Given(initialDueTime);
      hasReminder := Given(initialReminderTime);
      dueTime := InitialDue(initialDueTime);
      reminderTime := InitialReminder(initialDueTime, initialReminderTime);
    }

    /** When the modal becomes visible (or its initial times change while it
        is), the switches are re-derived from the initial times, and each
        time is overwritten only when its initial value is given; otherwise
        the previous time stays. Nothing happens while hidden. */
    method OnVisibleChange(visible: bool, initialDueTime: Option<string>, initialReminderTime: Option<string>)
      modifies this
      ensures !visible ==>
        hasDue == old(hasDue) && hasReminder == old(hasReminder) &&
        dueTime == old(dueTime) && reminderTime == old(reminderTime)
      ensures visible ==>
        hasDue == Given(initialDueTime) && hasReminder == Given(initialReminderTime) &&
        dueTime == (if Given(initialDueTime) then ClockOf(initialDueTime.value) else old(dueTime)) &&
        reminderTime == (if Given(initialReminderTime) then ClockOf(initialReminderTime.value) else old(reminderTime))
    {
      if visible {
        hasDue := Given(initialDueTime);
        hasReminder := Given(initialReminderTime);
        if Given(initialDueTime) {
          dueTime := ClockOf(initialDueTime.value);
        }
        if Given(initialReminderTime) {
          reminderTime := ClockOf(initialReminderTime.value);
        }
      }
    }

    /** The due-time switch. */
    method SetHasDue(on: bool)
      modifies this
      ensures hasDue == on && hasReminder == old(hasReminder)
      ensures dueTime == old(dueTime) && reminderTime == old(reminderTime)
    {
      hasDue := on;
    }

    /** The reminder switch (shown only while a due time is on). */
    method SetHasReminder(on: bool)
      modifies this
      ensures hasReminder == on && hasDue == old(hasDue)
      ensures dueTime == old(dueTime) && reminderTime == old(reminderTime)
    {
      hasReminder := on;
    }

    /** Save: a due time is passed exactly when its switch is on, and a
        reminder exactly when both switches are on, so a reminder never goes
        out without a due time. Each time passed reads back as the time on
        screen. The modal then closes. */
    method HandleSave(habitId: string) returns (r: SaveRequest)
      ensures r.habitId == habitId && r.closeAfter
      ensures r.dueTime.Some? <==> hasDue
      ensures r.reminderTime.Some? <==> hasReminder && hasDue
      ensures r.reminderTime.Some? ==> r.dueTime.Some?
      ensures r.dueTime == if hasDue then Some(FormatClock(dueTime)) else None
      ensures r.reminderTime == if hasReminder && hasDue then Some(FormatClock(reminderTime)) else None
      ensures r.dueTime.Some? && dueTime.At? ==> ClockOf(r.dueTime.value) == dueTime
      ensures r.reminderTime.Some? && reminderTime.At? ==> ClockOf(r.reminderTime.value) == reminderTime
      ensures r.dueTime.Some? && dueTime.InvalidDate? ==> r.dueTime.value == "NaN:NaN"
    {
      var due: Option<string> := None;
      var reminder: Option<string> := None;
      if hasDue {
        due := Some(FormatClock(dueTime));
        if dueTime.At? { FormatParseRoundTrip(dueTime.minuteOfDay); }
      }
      if hasReminder && hasDue {
        reminder := Some(FormatClock(reminderTime));
        if reminderTime.At? { FormatParseRoundTrip(reminderTime.minuteOfDay); }
      }
      r := SaveRequest(habitId, due, reminder, true);
    }
  }
}
