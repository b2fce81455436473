# HabitFlow core, modelled in Dafny

HabitFlow is a mobile habit tracker. The user ticks off habits and earns each
habit's points. A streak ledger counts consecutive days on which the app was
opened. This project models the logic behind that and proves what it promises:

- **Habit store** (`HabitContext`). The list of habits and the user's ledger
  are the fields of the class `HabitStore`. Its methods are load, add, toggle,
  reset and the day-boundary check. Each method is specified by a pure copy
  transform (`Toggled`, `PointsDelta`, `ResetAll`, `NewHabit`, `DailyStats`).
  Around them are lemmas:
  - unknown ids change nothing;
  - a double toggle restores both the list and the points;
  - the points booked equal the change in completed points;
  - reset is idempotent;
  - `longestStreak >= currentStreak >= 0` is kept;
  - replaying the daily check over increasing days makes the current streak
    the trailing run of consecutive days, and the longest streak the longest
    such run.
- **Record shapes** (`Types`): habits, habit drafts, the ledger and health
  metrics. The category and metric-type tags round-trip.
- **Sign-in / sign-up validation** (`Login`):
  - the email pattern, proved equal to a plain-words shape;
  - the password rules;
  - form completeness and the inline error flags;
  - the early-return checks of `handleAuth`. An enabled submit button always
    gets past those checks.
- **Time editing** (`EditTimesModal`):
  - `HH:MM` parsing with JavaScript's `split(':').map(Number)` semantics;
  - `Date.setHours` wrap-around on a 24-hour clock;
  - zero-padded formatting, proved to parse back;
  - the default due and reminder times;
  - the visible-reset effect;
  - the save rule: no reminder is saved without a due time.
- **Focus timer** (`TimerModal`). The countdown is the class `FocusTimer` and
  the one-second step is `SecondElapsed`. Lemmas cover a whole countdown:
  exactly one completion, after exactly `n` seconds. The `MM:SS` display reads
  back as the count.
- **Health banner** (`HealthConnectBanner`). The lookup of the first metric of
  a type defaults to 0. Sleep minutes split into hours and minutes, and the
  `<h>h <m>m` display reads back as exactly that pair of hours and minutes.

`JsText` holds the JavaScript string and number behaviour the components rely
on:
- `Number.prototype.toString` for integers;
- `padStart(2, '0')`;
- reading a digit string;
- `indexOf`;
- the truncating `%`.

Dates are whole day numbers. `lastLoginDate` and "today" are
`YYYY-MM-DD` strings read at UTC midnight, so their difference in days is
always whole. The current day, the launch day and the id of a new habit are
parameters.

A habit carries only `isCompleted`; the record has no status, recurrence or
reminder fields (src/models/types.ts:1-7).

## Model

| member | source | states |
|---|---|---|
| Types.CategoryFromName | src/models/types.ts:4 | a tag read back as a category is that category's tag; any other string is no category |
| Types.CategoryNameRoundTrip | src/models/types.ts:4 | each of the five categories reads back from its tag |
| Types.MetricTypeFromName | src/models/types.ts:17 | a tag read back as a metric type is that type's tag |
| Types.MetricTypeNameRoundTrip | src/models/types.ts:17 | steps, sleep and workout each read back from their tag |
| JsText.NatToStringRoundTrip | components/HealthConnectBanner.tsx:30 | the decimal rendering of a non-negative integer is all digits and reads back as the integer |
| JsText.PaddedValue | components/EditTimesModal.tsx:66 | padding a number's rendering to two characters keeps it all digits and its value; it is exactly two characters for numbers below 100 |
| JsText.JsRem | components/TimerModal.tsx:58 | `a % b` differs from `a` by a multiple of `b`; it lies in [0, b) for a non-negative `a` and in (-b, 0] for a negative one, which fixes it uniquely |
| HabitContext.DefaultHabits | src/context/HabitContext.tsx:6-12 | five morning habits, all uncompleted, positive points, distinct ids |
| HabitContext.DefaultStats | src/context/HabitContext.tsx:14-19 | all three counters 0, dated the launch day, streaks ordered |
| HabitContext.Toggled | src/context/HabitContext.tsx:111-119 | same length; a habit's completion flips exactly when it carries the id; every other field is unchanged |
| HabitContext.ResetAll | src/context/HabitContext.tsx:131-134 | same length; every completion cleared; every other field unchanged |
| HabitContext.NewHabit | src/context/HabitContext.tsx:100-105 | the added habit is uncompleted, carries the given id and the draft's title, category and points |
| HabitContext.DailyStats | src/context/HabitContext.tsx:61-80 | same day: unchanged; otherwise the date moves to today and points stay; a one-day gap extends the streak and the record follows it; a longer gap breaks the streak and keeps the record; a gap below one keeps both; `0 <= current <= longest` is preserved |
| HabitContext.HabitStore.constructor | src/context/HabitContext.tsx:32-34 | no habits, the default ledger, not loaded |
| HabitContext.HabitStore.LoadData | src/context/HabitContext.tsx:39-47 | stored habits replace the list, else the defaults do; a stored ledger replaces the current one; the store is loaded |
| HabitContext.HabitStore.AddHabit | src/context/HabitContext.tsx:100-107 | the list is the old list plus the new habit at the end; the ledger is unchanged; unique ids stay unique for a fresh id |
| HabitContext.HabitStore.ToggleHabitCompletion | src/context/HabitContext.tsx:109-129 | the list becomes `Toggled`; only `totalPoints` changes in the ledger, by `PointsDelta` |
| HabitContext.HabitStore.ResetDailyProgression | src/context/HabitContext.tsx:131-134 | the list becomes `ResetAll`; the ledger is unchanged |
| HabitContext.HabitStore.CheckDailyReset | src/context/HabitContext.tsx:56-88 | before loading or on the same day nothing changes; on a new day the ledger becomes `DailyStats` and every completion is cleared; ordered streaks stay ordered |
| HabitContext.ToggleUnknownId | src/context/HabitContext.tsx:111-119 | toggling an id no habit carries leaves the list unchanged and books 0 points |
| HabitContext.ToggleUniqueDelta | src/context/HabitContext.tsx:113-114 | with one habit carrying the id, the toggle books +points when completing it and -points when un-completing it |
| HabitContext.ToggleDeltaInverse | src/context/HabitContext.tsx:113-114 | the second toggle books the negation of what the first booked |
| HabitContext.ToggleTwiceRestores | src/context/HabitContext.tsx:109-129 | two toggles of the same id restore the list and the point total |
| HabitContext.ToggleKeepsLedgerBalance | src/context/HabitContext.tsx:109-129 | with unique ids, the points booked equal the change in the points of completed habits |
| HabitContext.ToggleNewHabit | src/context/HabitContext.tsx:100-129 | after adding under a fresh id, toggling it completes only the new habit and books the draft's points |
| HabitContext.ResetIdempotent | src/context/HabitContext.tsx:131-134 | resetting twice equals resetting once; a reset list holds no completed points |
| HabitContext.NoCompletedNoPoints | src/context/HabitContext.tsx:132 | a list with no completed habit holds no completed points |
| HabitContext.ReplayCountsConsecutiveDays | src/context/HabitContext.tsx:61-78 | after daily checks on strictly increasing days: the current streak is the trailing run of consecutive days, the longest streak is the longest run, the date is the last day, the points are unchanged |
| Login.EmailValidIffShape | app/login.tsx:24-27 | a non-empty email is valid iff it has no whitespace and exactly one '@' with a character before it, followed by a '.' with a character on each side |
| Login.PatternGivesShape | app/login.tsx:26 | an email the pattern matches has that shape |
| Login.ShapeGivesPattern | app/login.tsx:26 | an email of that shape matches the pattern |
| Login.Utf16Length | app/login.tsx:32 | `.length` counts UTF-16 code units: one character counts 1 inside the Basic Multilingual Plane and 2 outside it; the count lies between the number of characters and twice it, and equals it when every character is in the plane |
| Login.Utf16LengthAppend | app/login.tsx:32 | the code units of a concatenation add up, which with the single-character count fixes `.length` of every string |
| Login.StrongPasswordNeedsNoDigit | app/login.tsx:29-33 | every password is valid in sign-in mode; a strong sign-up password has at least 6 UTF-16 code units; "Abcde!" is strong and has no digit, although the alert at line 57 asks for numbers |
| Login.FiveCharacterStrongPassword | app/login.tsx:29-33 | "Aa!b" followed by an emoji has five characters but six code units, so it passes the length rule and is strong |
| Login.TrimStart | app/login.tsx:43 | the result is a suffix of the input, everything removed is whitespace, and a non-empty result does not start with whitespace |
| Login.TrimEnd | app/login.tsx:43 | the result is a prefix of the input, everything removed is whitespace, and a non-empty result does not end with whitespace |
| Login.TrimNonEmpty | app/login.tsx:43 | a trimmed name is non-empty iff the name holds a non-whitespace character |
| Login.TrimStartKeepsContent | app/login.tsx:43 | trimming the start removes no non-whitespace character: the result holds one iff the input does |
| Login.TrimEndKeepsContent | app/login.tsx:43 | trimming the end removes no non-whitespace character: the result holds one iff the input does |
| Login.SignInFormValid | app/login.tsx:41-42 | the sign-in form is valid iff the email is non-empty and well shaped and the password is non-empty |
| Login.SignUpFormValid | app/login.tsx:43 | the sign-up form is valid iff the name is not blank, the email is non-empty and well shaped, the password has upper, lower, symbol and at least 6 UTF-16 code units, and the confirmation equals it |
| Login.ErrorFlagsInvalidateForm | app/login.tsx:36-43 | any error flag that shows makes the form invalid; in sign-in mode the rules and mismatch errors never show |
| Login.HandleAuth | app/login.tsx:45-68 | an alert exactly when a field is empty or, in sign-up, the passwords differ or are weak; otherwise sign-in, or sign-up under the trimmed name, with the form's email and password |
| Login.HandleAuthOrder | app/login.tsx:46-59 | empty fields are reported first; in sign-up a mismatch is reported before weakness, and matching passwords that break the strength rules get the weak-password alert |
| Login.EnabledSubmitReachesAuth | app/login.tsx:203 | an enabled submit button always passes the checks of `handleAuth`, and a sign-up then carries a non-empty display name |
| EditTimesModal.SetHours | components/EditTimesModal.tsx:24 | the time of day is congruent to h*60+m modulo a day, and is exactly that within range |
| EditTimesModal.ParseHM | components/EditTimesModal.tsx:23 | a time is read only from a string containing ':'; without one there is no time |
| EditTimesModal.ParseHMShape | components/EditTimesModal.tsx:23 | a time is read exactly when the string is `hh:mm` or `hh:mm:` plus anything, for digit strings `hh` and `mm`, and then as their values; a part that `Number` makes NaN gives no time |
| EditTimesModal.ShapeParses | components/EditTimesModal.tsx:23 | a string of that shape reads as its two parts' values |
| EditTimesModal.ParsedHasShape | components/EditTimesModal.tsx:23 | the parts a read time comes from are digit strings around the first ':', followed by nothing or by a ':' |
| EditTimesModal.ParseHMParts | components/EditTimesModal.tsx:23 | `hh:mm`, with or without further `:`-separated parts, reads as the hour `hh` and the minute `mm`; the extra parts are ignored |
| EditTimesModal.ParseTwoParts | components/EditTimesModal.tsx:23 | `hh:mm` of two digit strings reads as the pair of their values |
| EditTimesModal.ParseIgnoresRest | components/EditTimesModal.tsx:23 | parts after the second are ignored |
| EditTimesModal.FormatClock | components/EditTimesModal.tsx:66 | a valid time formats as five characters: two digits whose value is the hour, ':', and two digits whose value is the minute |
| EditTimesModal.FormatParseRoundTrip | components/EditTimesModal.tsx:23-66 | the formatted time parses back to the same hour and minute, hence the same time of day |
| EditTimesModal.QuarterHourEarlier | components/EditTimesModal.tsx:38 | taking 15 minutes off before or after wrapping to a day gives the same minute of the day |
| EditTimesModal.DefaultReminderPrecedesDue | components/EditTimesModal.tsx:20-43 | without a given reminder, the reminder starts 15 minutes before the due time modulo a day (invalid exactly when the due time is); with neither given, 09:00 and 08:45 |
| EditTimesModal.TimeEditor.constructor | components/EditTimesModal.tsx:17-43 | the switches are on iff the times are given; the times start at their initial values |
| EditTimesModal.TimeEditor.OnVisibleChange | components/EditTimesModal.tsx:48-63 | on becoming visible the switches are re-derived and each time is overwritten only when given; nothing changes while hidden |
| EditTimesModal.TimeEditor.SetHasDue | components/EditTimesModal.tsx:90 | only the due switch changes |
| EditTimesModal.TimeEditor.SetHasReminder | components/EditTimesModal.tsx:142 | only the reminder switch changes |
| EditTimesModal.TimeEditor.HandleSave | components/EditTimesModal.tsx:65-73 | a due time is sent iff its switch is on, as the zero-padded `HH:MM` of the time on screen; a reminder likewise iff both switches are on, so never without a due time; each sent time reads back as the time on screen; the modal closes |
| TimerModal.SecondElapsed | components/TimerModal.tsx:34-54 | while running with time left, the last second stops the timer at 0 and completes; any other second takes exactly one off; otherwise nothing changes; the count never rises and never goes negative |
| TimerModal.StoppedStaysPut | components/TimerModal.tsx:34-50 | a stopped or finished timer stays as it is and never completes |
| TimerModal.CountdownCompletesOnce | components/TimerModal.tsx:34-54 | from n seconds running, the timer is unfinished for n-1 seconds, finished and stopped after n seconds with one completion, and completes no more afterwards |
| TimerModal.TimeDisplayReadsBack | components/TimerModal.tsx:57-59 | the display is minutes, ':', two-digit seconds below 60, and minutes*60 + seconds is the count |
| TimerModal.DisplayOfCount | components/TimerModal.tsx:57-59 | the display of a non-negative count is its padded minutes, ':', and its padded seconds |
| TimerModal.FocusTimer.constructor | components/TimerModal.tsx:19-21 | the whole session is left, the timer is stopped and no interval is scheduled |
| TimerModal.FocusTimer.OnOpen | components/TimerModal.tsx:24-32 | the effect's cleanup clears the interval; opening restores the whole session and stops the timer; while hidden the count and the running flag are kept, so a running timer is frozen |
| TimerModal.FocusTimer.Tick | components/TimerModal.tsx:34-54 | with a live interval, the new state and completion are those of `SecondElapsed` and the interval lives on exactly while the timer runs with time left; without one nothing changes and nothing completes; the count never rises |
| TimerModal.FocusTimer.PlayPause | components/TimerModal.tsx:34-66 | only whether the timer runs flips, and an interval is scheduled exactly when it now runs with time left |
| TimerModal.FocusTimer.Reset | components/TimerModal.tsx:68-72 | the timer stops with the whole session left and no interval |
| TimerModal.FocusTimer.PressMainButton | components/TimerModal.tsx:150 | the button asks to close iff the countdown has finished, and otherwise plays or pauses |
| HealthConnectBanner.FirstValue | components/HealthConnectBanner.tsx:24-25 | the value of the first metric of the type, or 0 when there is none |
| HealthConnectBanner.OtherTypesIgnored | components/HealthConnectBanner.tsx:24-25 | inserting a metric of another type anywhere leaves the lookup unchanged |
| HealthConnectBanner.SleepSplitExact | components/HealthConnectBanner.tsx:28-29 | for non-negative minutes, hours*60 + mins is the minutes and 0 <= mins < 60 |
| HealthConnectBanner.SleepDisplay | components/HealthConnectBanner.tsx:30 | the display is the two unpadded numbers plus three characters |
| HealthConnectBanner.SleepDisplayRoundTrip | components/HealthConnectBanner.tsx:28-30 | the display of non-negative minutes reads back as the pair (whole hours, minutes left over), whose minutes are below 60 and which adds up to the minutes |
| HealthConnectBanner.ParseJoined | components/HealthConnectBanner.tsx:30 | two digit strings joined as `<a>h <b>m` read back as the pair (a, b) |
| HealthConnectBanner.Banner | components/HealthConnectBanner.tsx:9-30 | without access only the prompt shows; with access, the first steps reading, the first sleep reading's hours, truncating remainder and unpadded `<h>h <m>m` display for any reading, and for a non-negative reading a display that reads back as (sleepHours, sleepMins), with sleepMins below 60 and sleepHours*60 + sleepMins equal to the reading |
| HealthConnectBanner.BannerShowsUnpadded | components/HealthConnectBanner.tsx:28-30 | a sleep reading of 425 minutes shows as "7h 5m", with no zero padding |

## Left out

- Persistence (AsyncStorage and JSON) is not modelled. Stored values arrive
  as `Option` parameters of `LoadData`, and a save is the new field value.
  Read and parse failures, which the source only logs, are not modelled.
- Clocks and id generation are parameters: `Date.now()` for the new habit's
  id, and `new Date()` for today and the launch day.
- React hooks, context plumbing, render batching and `setInterval` timing
  are not modelled. Each effect or handler is a sequential method, and one
  second of wall time is one `Tick`. Whether the timer's interval is
  scheduled is the field `intervalLive`, not a handle.
- Emptiness checks on form fields use the number of characters; it is zero
  exactly when the UTF-16 length is.
- Haptics, alerts, the Firebase sign-in and sign-up calls and their error
  handling (app/login.tsx:62-80) are left out. `HandleAuth` ends at the
  service call it would make.
- The loading flag and the password-visibility toggles of the login screen
  are not modelled. The login-error message, which is cleared on typing, is
  not modelled either.
- src/utils/notifications.ts is not part of this model. It is a wrapper over
  the notification service and relies on fields the habit record does not
  have.
- src/context/HealthContext.tsx (random mock data), HabitItem, the stats
  banner, navigation, date pickers, styles and locale formatting are not
  part of this model.
- The timer's progress ring uses floating point and is not modelled.
- `EditTimesModal.ParseHM` treats a part as a number only when it is all
  ASCII digits (the empty part is 0). It does not model the other forms
  `Number` accepts: surrounding whitespace, signs, decimals, exponents,
  `0x`/`0o`/`0b` literals and "Infinity". These read as an invalid time
  instead; for example "0x9:00" is 09:00 in the source but an invalid time
  here ("Infinity" gives an invalid date in both).
- `EditTimesModal.SetHours` always gives a valid time of day. In the source,
  an hour or minute part large enough to take the date outside JavaScript's
  Date range (plus or minus 8.64e15 ms; an hour part of 2400000000 or more)
  gives an Invalid Date, which is then saved as "NaN:NaN". The model gives a
  valid time instead, because the cutoff depends on the current date, which
  is not modelled.
- A JavaScript `Date` is modelled only through `getHours` and `getMinutes`,
  as a minute of the day. The calendar date that `setHours` may roll into is
  not modelled. Daylight-saving gaps are not modelled either.
- `HealthConnectBanner.SleepDisplayRoundTrip` is stated only for
  non-negative sleep minutes. Negative readings are split with JavaScript's
  truncating `%`, which is modelled, but their display is not proved to read
  back.
- `HealthConnectBanner.Banner` states the read-back of its sleep display only
  for a non-negative reading. A negative reading still gets the fields of
  `SleepHours`, `SleepMins` and `SleepDisplay`.
- Record values are unbounded integers. The JavaScript numbers behind points,
  streaks and seconds are doubles, and their precision limits are not
  modelled.
