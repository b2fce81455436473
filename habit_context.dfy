/** The habit store: a list of habits with completion flags and the user's
    streak and points ledger. The React provider's state becomes the fields
    of `HabitStore`; the copy transforms it applies are the functions below.
    Storage, clocks and id generation are outside: the stored values, the
    current day and the new habit's id are parameters. */
module HabitContext {
  import opened Types

  // ---------------------------------------------------------------------
  // Initial state

  /** The habits a first run starts with. */
  function DefaultHabits(): (r: seq<Habit>)
    ensures |r| == 5
    ensures forall i :: 0 <= i < |r| ==> !r[i].isCompleted && r[i].pointsValue > 0
    ensures forall i :: 0 <= i < |r| ==> r[i].category == Morning
    ensures UniqueIds(r)
  {
    [ Habit.Habit("1", "Breathing Exercises", Morning, false, 10),
      Habit.Habit("2", "Drink Water", Morning, false, 5),
      Habit.Habit("3", "Stretching", Morning, false, 15),
      Habit.Habit("4", "Cold Shower", Morning, false, 20),
      Habit.Habit("5", "Healthy Breakfast", Morning, false, 10) ]
  }

  /** The ledger a first run starts with, dated the day the app started. */
  function DefaultStats(launchDay: Day): (r: UserStats)
    ensures r.currentStreak == 0 && r.longestStreak == 0 && r.totalPoints == 0
    ensures r.lastLoginDate == launchDay
    ensures StreaksOrdered(r)
  {
    UserStats(0, 0, 0, launchDay)
  }

  // ---------------------------------------------------------------------
  // Invariants

  /** `longestStreak >= currentStreak >= 0`. */
  predicate StreaksOrdered(s: UserStats)
  {
    0 <= s.currentStreak <= s.longestStreak
  }

  predicate UniqueIds(hs: seq<Habit>)
  {
    forall i, j :: 0 <= i < j < |hs| ==> hs[i].id != hs[j].id
  }

  predicate HasId(hs: seq<Habit>, id: string)
  {
    exists i :: 0 <= i < |hs| && hs[i].id == id
  }

  // ---------------------------------------------------------------------
  // Habit list transforms

  /** One habit after a toggle of `id`: flipped if it carries that id. */
  function ToggleIf(h: Habit, id: string): Habit
  {
    if h.id == id then h.(isCompleted := !h.isCompleted) else h
  }

  /** The list after toggling `id`: every habit carrying the id has its
      completion flipped; nothing else changes. */
  function Toggled(hs: seq<Habit>, id: string): (r: seq<Habit>)
    ensures |r| == |hs|
    ensures forall i :: 0 <= i < |hs| ==>
      r[i].isCompleted == (hs[i].isCompleted != (hs[i].id == id))
    ensures forall i :: 0 <= i < |hs| ==> r[i].(isCompleted := hs[i].isCompleted) == hs[i]
  {
    seq(|hs|, i requires 0 <= i < |hs| => ToggleIf(hs[i], id))
  }

  /** The points a toggle of `id` books: plus the value of a habit being
      completed, minus the value of one being un-completed. The source
      overwrites its running delta at every habit carrying the id, so the
      last such habit decides; with no such habit the delta is 0. */
  function PointsDelta(hs: seq<Habit>, id: string): int
  {
    if |hs| == 0 then 0
    else
      var h := hs[|hs| - 1];
      if h.id == id then (if !h.isCompleted then h.pointsValue else -h.pointsValue)
      else PointsDelta(hs[..|hs| - 1], id)
  }

  /** The list with every completion cleared. */
  function ResetAll(hs: seq<Habit>): (r: seq<Habit>)
    ensures |r| == |hs|
    ensures forall i :: 0 <= i < |hs| ==> !r[i].isCompleted
    ensures forall i :: 0 <= i < |hs| ==> r[i].(isCompleted := hs[i].isCompleted) == hs[i]
  {
    seq(|hs|, i requires 0 <= i < |hs| => hs[i].(isCompleted := false))
  }

  /** The habit a draft becomes when added. */
  function NewHabit(draft: HabitDraft, id: string): (h: Habit)
    ensures !h.isCompleted && h.id == id
    ensures h.title == draft.title && h.category == draft.category
    ensures h.pointsValue == draft.pointsValue
  {
    Habit.Habit(id, draft.title, draft.category, false, draft.pointsValue)
  }

  /** The sum of the points of the completed habits. */
  function CompletedPoints(hs: seq<Habit>): int
  {
    if |hs| == 0 then 0
    else CompletedPoints(hs[..|hs| - 1]) + (if hs[|hs| - 1].isCompleted then hs[|hs| - 1].pointsValue else 0)
  }

  // ---------------------------------------------------------------------
  // The day-boundary ledger update

  function Max(a: int, b: int): int { if a < b then b else a }

  /** The ledger after the daily check on day `today`. On the same day it is
      unchanged. Otherwise the login date moves to `today`, the points stay,
      and the streak depends on the whole-day gap: one day extends it (and
      possibly the record), more than one day breaks it, and a gap below one
      (the clock moved back) leaves both counters alone. */
  function DailyStats(s: UserStats, today: Day): (r: UserStats)
    ensures s.lastLoginDate == today ==> r == s
    ensures r.lastLoginDate == today && r.totalPoints == s.totalPoints
    ensures s.lastLoginDate != today && today - s.lastLoginDate == 1 ==>
      r.currentStreak == s.currentStreak + 1 && r.longestStreak == Max(s.longestStreak, r.currentStreak)
    ensures s.lastLoginDate != today && today - s.lastLoginDate > 1 ==>
      r.currentStreak == 0 && r.longestStreak == s.longestStreak
    ensures today - s.lastLoginDate < 1 ==>
      r.currentStreak == s.currentStreak && r.longestStreak == s.longestStreak
    ensures StreaksOrdered(s) ==> StreaksOrdered(r)
  {
    if s.lastLoginDate == today then s
    else
      var daysDiff := today - s.lastLoginDate;
      var next := s.(lastLoginDate := today);
      if daysDiff == 1 then
        var streak := next.currentStreak + 1;
        next.(currentStreak := streak,
              longestStreak := if streak > next.longestStreak then streak else next.longestStreak)
      else if daysDiff > 1 then
        next.(currentStreak := 0)
      else
        next
  }

  // ---------------------------------------------------------------------
  // The store

  class HabitStore {
    var habits: seq<Habit>
    var userStats: UserStats
    var isLoaded: bool

    /** The provider before storage has been read: no habits and the default
        ledger dated the day the app started. */
    constructor (launchDay: Day)
      ensures habits == [] && userStats == DefaultStats(launchDay) && !isLoaded
    {
      habits := [];
      userStats := DefaultStats(launchDay);
      isLoaded := false;
    }

    /** Loading: stored habits replace the list, or the defaults do when
        nothing is stored; a stored ledger replaces the current one. */
    method LoadData(storedHabits: Option<seq<Habit>>, storedStats: Option<UserStats>)
      modifies this
      ensures habits == if storedHabits.Some? then storedHabits.value else DefaultHabits()
      ensures userStats == if storedStats.Some? then storedStats.value else old(userStats)
      ensures isLoaded
    {
      if storedHabits.Some? {
        habits := storedHabits.value;
      } else {
        habits := DefaultHabits();
      }
      if storedStats.Some? {
        userStats := storedStats.value;
      }
      isLoaded := true;
    }

    /** Appends an uncompleted habit built from the draft. */
    method AddHabit(draft: HabitDraft, newId: string)
      modifies this
      ensures habits == old(habits) + [NewHabit(draft, newId)]
      ensures userStats == old(userStats) && isLoaded == old(isLoaded)
      ensures UniqueIds(old(habits)) && !HasId(old(habits), newId) ==> UniqueIds(habits)
    {
      habits := habits + [NewHabit(draft, newId)];
    }

    /** Flips the habits carrying `id` and books the points into the ledger;
        no other ledger field changes. */
    method ToggleHabitCompletion(id: string)
      modifies this
      ensures habits == Toggled(old(habits), id)
      ensures userStats == old(userStats).(totalPoints := old(userStats).totalPoints + PointsDelta(old(habits), id))
      ensures isLoaded == old(isLoaded)
    {
      var pointsToAdd := 0;
      var updated: seq<Habit> := [];
      var i := 0;
      while i < |habits|
        invariant 0 <= i <= |habits|
        invariant |updated| == i
        invariant forall k :: 0 <= k < i ==> updated[k] == ToggleIf(habits[k], id)
        invariant pointsToAdd == PointsDelta(habits[..i], id)
      {
        var h := habits[i];
        assert habits[..i + 1][..i] == habits[..i];
        if h.id == id {
          pointsToAdd := if !h.isCompleted then h.pointsValue else -h.pointsValue;
          updated := updated + [h.(isCompleted := !h.isCompleted)];
        } else {
          updated := updated + [h];
        }
        i := i + 1;
      }
      assert habits[..i] == habits;
      habits := updated;
      if pointsToAdd != 0 {
        userStats := userStats.(totalPoints := userStats.totalPoints + pointsToAdd);
      }
    }

    /** Clears every completion. */
    method ResetDailyProgression()
      modifies this
      ensures habits == ResetAll(old(habits))
      ensures userStats == old(userStats) && isLoaded == old(isLoaded)
    {
      habits := ResetAll(habits);
    }

    /** The check that runs once storage has loaded: on a new day the ledger
        is advanced and every completion cleared; on the same day, or before
        loading, nothing happens. */
    method CheckDailyReset(today: Day)
      modifies this
      ensures !old(isLoaded) || old(userStats).lastLoginDate == today ==>
        habits == old(habits) && userStats == old(userStats)
      ensures old(isLoaded) && old(userStats).lastLoginDate != today ==>
        userStats == DailyStats(old(userStats), today) && habits == ResetAll(old(habits))
      ensures isLoaded == old(isLoaded)
      ensures StreaksOrdered(old(userStats)) ==> StreaksOrdered(userStats)
    {
      if !isLoaded {
        return;
      }
      if userStats.lastLoginDate != today {
        userStats := DailyStats(userStats, today);
        ResetDailyProgression();
      }
    }
  }

  // ---------------------------------------------------------------------
  // Properties of the toggle

  /** Toggling an id no habit carries changes nothing and books nothing. */
  lemma {:induction false} ToggleUnknownId(hs: seq<Habit>, id: string)
    requires !HasId(hs, id)
    ensures Toggled(hs, id) == hs
    ensures PointsDelta(hs, id) == 0
  {
    if |hs| > 0 {
      ToggleUnknownId(hs[..|hs| - 1], id);
    }
  }

  /** With the id carried by exactly one habit, the toggle books that
      habit's value: plus when completing it, minus when un-completing it. */
  lemma {:induction false} ToggleUniqueDelta(hs: seq<Habit>, id: string, k: nat)
    requires k < |hs| && hs[k].id == id
    requires forall i :: 0 <= i < |hs| && i != k ==> hs[i].id != id
    ensures PointsDelta(hs, id) == if hs[k].isCompleted then -hs[k].pointsValue else hs[k].pointsValue
  {
    if k < |hs| - 1 {
      ToggleUniqueDelta(hs[..|hs| - 1], id, k);
    }
  }

  /** The toggle's delta on the toggled list is the opposite of the first
      delta: a second toggle takes back exactly what the first booked. */
  lemma {:induction false} ToggleDeltaInverse(hs: seq<Habit>, id: string)
    ensures PointsDelta(Toggled(hs, id), id) == -PointsDelta(hs, id)
  {
    if |hs| > 0 {
      var t := Toggled(hs, id);
      assert t[..|t| - 1] == Toggled(hs[..|hs| - 1], id);
      ToggleDeltaInverse(hs[..|hs| - 1], id);
    }
  }

  /** Toggling the same id twice restores every habit and the points. */
  lemma ToggleTwiceRestores(hs: seq<Habit>, id: string, points: int)
    ensures Toggled(Toggled(hs, id), id) == hs
    ensures points + PointsDelta(hs, id) + PointsDelta(Toggled(hs, id), id) == points
  {
    ToggleDeltaInverse(hs, id);
    var tt := Toggled(Toggled(hs, id), id);
    assert forall i :: 0 <= i < |hs| ==> tt[i] == hs[i];
  }

  /** The points a toggle books equal the change it makes to the points of
      completed habits, provided ids are unique. So `totalPoints` minus the
      completed habits' points is the same before and after any toggle. */
  lemma {:induction false} ToggleKeepsLedgerBalance(hs: seq<Habit>, id: string)
    requires UniqueIds(hs)
    ensures CompletedPoints(Toggled(hs, id)) == CompletedPoints(hs) + PointsDelta(hs, id)
  {
    if |hs| > 0 {
      var init := hs[..|hs| - 1];
      var t := Toggled(hs, id);
      assert t[..|t| - 1] == Toggled(init, id);
      ToggleKeepsLedgerBalance(init, id);
      if hs[|hs| - 1].id == id {
        assert !HasId(init, id) by {
          forall i | 0 <= i < |init| ensures init[i].id != id {
            assert hs[i].id != hs[|hs| - 1].id;
          }
        }
        ToggleUnknownId(init, id);
      }
    }
  }

  /** After adding a habit under a fresh id, toggling that id flips only the
      new habit and books its points. */
  lemma ToggleNewHabit(hs: seq<Habit>, draft: HabitDraft, id: string)
    requires !HasId(hs, id)
    ensures var added := hs + [NewHabit(draft, id)];
      Toggled(added, id) == hs + [NewHabit(draft, id).(isCompleted := true)] &&
      PointsDelta(added, id) == draft.pointsValue
  {
    var added := hs + [NewHabit(draft, id)];
    assert added[..|added| - 1] == hs;
    ToggleUnknownId(hs, id);
    var t := Toggled(added, id);
    assert forall i :: 0 <= i < |hs| ==> t[i] == hs[i];
  }

  // ---------------------------------------------------------------------
  // Properties of the daily reset

  /** Clearing completions twice is the same as clearing them once. */
  lemma ResetIdempotent(hs: seq<Habit>)
    ensures ResetAll(ResetAll(hs)) == ResetAll(hs)
    ensures CompletedPoints(ResetAll(hs)) == 0
  {
    NoCompletedNoPoints(ResetAll(hs));
  }

  lemma {:induction false} NoCompletedNoPoints(hs: seq<Habit>)
    requires forall i :: 0 <= i < |hs| ==> !hs[i].isCompleted
    ensures CompletedPoints(hs) == 0
  {
    if |hs| > 0 {
      NoCompletedNoPoints(hs[..|hs| - 1]);
    }
  }

  // ---------------------------------------------------------------------
  // The streak as a count of consecutive login days

  /** The ledger after the daily check has run on each of `days` in turn. */
  function Replay(s: UserStats, days: seq<Day>): UserStats
  {
    if |days| == 0 then s else DailyStats(Replay(s, days[..|days| - 1]), days[|days| - 1])
  }

  predicate StrictlyIncreasing(days: seq<Day>)
  {
    forall i, j :: 0 <= i < j < |days| ==> days[i] < days[j]
  }

  /** How many of the last steps between the days are exactly one day. */
  function TrailingRun(days: seq<Day>): nat
  {
    if |days| < 2 || days[|days| - 1] - days[|days| - 2] != 1 then 0
    else TrailingRun(days[..|days| - 1]) + 1
  }

  /** The longest stretch of consecutive one-day steps anywhere in `days`. */
  function LongestRun(days: seq<Day>): nat
  {
    if |days| < 2 then 0 else Max(LongestRun(days[..|days| - 1]), TrailingRun(days)) as nat
  }

  /** Starting from a fresh ledger dated the first of `days`, after a daily
      check on each later day in increasing order the current streak is the
      number of consecutive days logged in at the end, and the longest
      streak is the longest such stretch ever. */
  lemma {:induction false} ReplayCountsConsecutiveDays(s: UserStats, days: seq<Day>)
    requires |days| >= 1 && StrictlyIncreasing(days)
    requires s.lastLoginDate == days[0] && s.currentStreak == 0 && s.longestStreak == 0
    ensures Replay(s, days).currentStreak == TrailingRun(days)
    ensures Replay(s, days).longestStreak == LongestRun(days)
    ensures Replay(s, days).lastLoginDate == days[|days| - 1]
    ensures Replay(s, days).totalPoints == s.totalPoints
  {
    var n := |days|;
    var init := days[..n - 1];
    if n == 1 {
      assert init == [];
    } else {
      assert StrictlyIncreasing(init);
      ReplayCountsConsecutiveDays(s, init);
      assert init[..n - 2] == days[..n - 2];
      if n > 2 {
        assert TrailingRun(init) <= LongestRun(init);
      }
    }
  }
}
