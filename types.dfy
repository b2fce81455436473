/** The record shapes of the habit tracker: habits, the user's streak and
    points ledger, and health metrics. Dates are whole day numbers (the
    source stores `YYYY-MM-DD` strings that it parses at UTC midnight). */
module Types {

  datatype Option<+T> = None | Some(value: T)

  /** A calendar day, counted in whole days from a fixed epoch. */
  type Day = int

  /** The five display categories a habit may belong to. */
  datatype Category = Morning | Work | Health | Chore | Habit

  /** A trackable habit. Completion is a single boolean; the record has no
      status enumeration, recurrence rule or reminder field. */
  datatype Habit = Habit(
    id: string,
    title: string,
    category: Category,
    isCompleted: bool,
    pointsValue: int)

  /** What a caller supplies to add a habit: every field except the id and
      the completion flag. */
  datatype HabitDraft = HabitDraft(title: string, category: Category, pointsValue: int)

  /** The streak and points ledger. */
  datatype UserStats = UserStats(
    currentStreak: int,
    longestStreak: int,
    totalPoints: int,
    lastLoginDate: Day)

  datatype MetricType = Steps | Sleep | Workout

  /** One health reading: a step count, minutes of sleep, or a workout. */
  datatype HealthMetric = HealthMetric(kind: MetricType, value: int, date: string)

  /** The string tag each category carries in stored data. */
  function CategoryName(c: Category): string
  {
    if c.Morning? then "morning"
    else if c.Work? then "work"
    else if c.Health? then "health"
    else if c.Chore? then "chore"
    else "habit"
  }

  /** Reads a stored category tag back; any other string is not a category. */
  function CategoryFromName(s: string): (r: Option<Category>)
    ensures r.Some? ==> CategoryName(r.value) == s
  {
    if s == "morning" then Some(Morning)
    else if s == "work" then Some(Work)
    else if s == "health" then Some(Health)
    else if s == "chore" then Some(Chore)
    else if s == "habit" then Some(Category.Habit)
    else None
  }

  /** Every category is named by exactly one tag, and reading the tag
      back gives the category. */
  lemma CategoryNameRoundTrip(c: Category)
    ensures CategoryFromName(CategoryName(c)) == Some(c)
  {
    var n := CategoryName(c);
    if c.Work? {
      assert n != "morning";
    } else if c.Health? {
      assert n != "morning" && n != "work";
    } else if c.Chore? {
      assert n != "morning" && n != "work" && n != "health";
    } else if c.Habit? {
      assert n != "morning" && n != "work" && n != "health" && n != "chore";
    }
  }

  /** The string tag each metric type carries. */
  function MetricTypeName(t: MetricType): string
  {
    match t
    case Steps => "steps"
    case Sleep => "sleep"
    case Workout => "workout"
  }

  function MetricTypeFromName(s: string): (r: Option<MetricType>)
    ensures r.Some? ==> MetricTypeName(r.value) == s
  {
    if s == "steps" then Some(Steps)
    else if s == "sleep" then Some(Sleep)
    else if s == "workout" then Some(Workout)
    else None
  }

  lemma MetricTypeNameRoundTrip(t: MetricType)
    ensures MetricTypeFromName(MetricTypeName(t)) == Some(t)
  {
    match t
    case Steps =>
    case Sleep => assert MetricTypeName(t) != "steps";
    case Workout => assert MetricTypeName(t) != "steps" && MetricTypeName(t) != "sleep";
  }
}
