/** The health banner: a prompt to connect health data while access is not
    granted, and otherwise today's steps and sleep, the sleep minutes shown
    as hours and minutes. */
module HealthConnectBanner {
  import opened Types
  import opened JsText

  /** Index `i` holds the first metric of type `t`. */
  predicate FirstOfType(metrics: seq<HealthMetric>, t: MetricType, i: int)
  {
    0 <= i < |metrics| && metrics[i].kind == t && forall j :: 0 <= j < i ==> metrics[j].kind != t
  }

  /** `metrics.find(m => m.type === t)?.value || 0`: the value of the first
      metric of that type, or 0 when there is none (a found value of 0 also
      gives 0, which is the same number). */
  function FirstValue(metrics: seq<HealthMetric>, t: MetricType): (v: int)
    ensures (forall i :: 0 <= i < |metrics| ==> metrics[i].kind != t) ==> v == 0
    ensures forall i :: FirstOfType(metrics, t, i) ==> v == metrics[i].value
  {
    if |metrics| == 0 then 0
    else if metrics[0].kind == t then (if metrics[0].value != 0 then metrics[0].value else 0)
    else FirstValue(metrics[1..], t)
  }

  /** Metrics of other types, wherever they stand, do not change the lookup. */
  lemma {:induction false} OtherTypesIgnored(metrics: seq<HealthMetric>, m: HealthMetric, t: MetricType, k: nat)
    requires k <= |metrics| && m.kind != t
    ensures FirstValue(metrics[..k] + [m] + metrics[k..], t) == FirstValue(metrics, t)
  {
    var longer := metrics[..k] + [m] + metrics[k..];
    if k == 0 {
      assert longer == [m] + metrics;
      assert longer[1..] == metrics;
    } else {
      InsertAfterHead(metrics, m, k);
      if metrics[0].kind != t {
        OtherTypesIgnored(metrics[1..], m, t, k - 1);
      }
    }
  }

  /** Inserting behind the head keeps the head and inserts into the rest. */
  lemma InsertAfterHead<T>(s: seq<T>, x: T, k: nat)
    requires 0 < k <= |s|
    ensures var longer := s[..k] + [x] + s[k..];
      longer[0] == s[0] && longer[1..] == s[1..][..k - 1] + [x] + s[1..][k - 1..]
  {
    var longer := s[..k] + [x] + s[k..];
    assert longer[1..] == s[1..][..k - 1] + [x] + s[1..][k - 1..];
  }

  /** `Math.floor(sleep / 60)` and `sleep % 60`. */
  function SleepHours(sleep: int): int { sleep / 60 }

  function SleepMins(sleep: int): int { JsRem(sleep, 60) }

  /** The split is exact for a non-negative number of minutes: whole hours
      and the minutes left over, fewer than 60. */
  lemma SleepSplitExact(sleep: int)
    requires sleep >= 0
    ensures SleepHours(sleep) * 60 + SleepMins(sleep) == sleep
    ensures 0 <= SleepMins(sleep) < 60 && SleepHours(sleep) >= 0
  {
  }

  /** `${sleepHours}h ${sleepMins}m`, with no zero padding. */
  function SleepDisplay(sleep: int): (d: string)
    ensures sleep >= 0 ==> |d| == |NatToString(sleep / 60)| + |NatToString(sleep % 60)| + 3
  {
    IntToString(SleepHours(sleep)) + "h " + IntToString(SleepMins(sleep)) + "m"
  }

  /** Reads `<hours>h <mins>m` back into the hours and minutes it shows. */
  function ParseSleepDisplay(d: string): Option<(nat, nat)>
  {
    var i := IndexOf(d, 'h');
    if 0 < i && i + 3 < |d| && d[i + 1] == ' ' && d[|d| - 1] == 'm'
    then ReadHoursMinutes(d[..i], d[i + 2..|d| - 1])
    else None
  }

  /** The hour and minute digits, as numbers. */
  function ReadHoursMinutes(hours: string, mins: string): Option<(nat, nat)>
  {
    if AllDigits(hours) && AllDigits(mins) then Some((DigitsValue(hours), DigitsValue(mins))) else None
  }

  /** The sleep display of a non-negative number of minutes shows the whole
      hours and the minutes left over: it reads back as exactly that pair,
      whose minutes are below 60 and which adds up to the number. */
  lemma SleepDisplayRoundTrip(sleep: int)
    requires sleep >= 0
    ensures ParseSleepDisplay(SleepDisplay(sleep)) == Some((sleep / 60, sleep % 60))
    ensures var (h, m) := ParseSleepDisplay(SleepDisplay(sleep)).value; h * 60 + m == sleep && m < 60
  {
    var hours, mins := sleep / 60, sleep % 60;
    var hs, ms := NatToString(hours), NatToString(mins);
    NatToStringRoundTrip(hours);
    NatToStringRoundTrip(mins);
    assert SleepDisplay(sleep) == hs + "h " + ms + "m";
    ParseJoined(hs, ms);
  }

  /** Two digit strings joined as `<a>h <b>m` read back as the pair of their
      values. */
  lemma ParseJoined(a: string, b: string)
    requires |a| >= 1 && |b| >= 1 && AllDigits(a) && AllDigits(b)
    ensures ParseSleepDisplay(a + "h " + b + "m") == Some((DigitsValue(a), DigitsValue(b)))
  {
    var d := a + "h " + b + "m";
    JoinedPieces(a, b);
    assert ParseSleepDisplay(d) == ReadHoursMinutes(d[..|a|], d[|a| + 2..|d| - 1]);
  }

  /** Where the pieces of `<a>h <b>m` sit, for an `a` without an 'h'. */
  lemma JoinedPieces(a: string, b: string)
    requires |a| >= 1 && |b| >= 1 && AllDigits(a)
    ensures var d := a + "h " + b + "m";
      IndexOf(d, 'h') == |a| && |a| + 3 < |d| && d[|a| + 1] == ' ' && d[|d| - 1] == 'm' &&
      d[..|a|] == a && d[|a| + 2..|d| - 1] == b
  {
    var tail := "h " + b + "m";
    var d := a + tail;
    assert a + "h " + b + "m" == d;
    assert d[..|a|] == a;
    assert tail[2..|tail| - 1] == b;
    assert d[|a| + 2..|d| - 1] == b;
    assert forall k :: 0 <= k < |a| ==> d[k] != 'h' by {
      forall k | 0 <= k < |a| ensures d[k] != 'h' {
        assert d[k] == d[..|a|][k];
      }
    }
    IndexOfFirst(d, 'h', |a|);
  }

  /** `IndexOf` finds the first occurrence. */
  lemma IndexOfFirst(s: string, c: char, i: nat)
    requires i < |s| && s[i] == c
    requires forall k :: 0 <= k < i ==> s[k] != c
    ensures IndexOf(s, c) == i
  {
  }

  /** What the banner shows. */
  datatype BannerView =
    | ConnectPrompt
    | Metrics(steps: int, sleepHours: int, sleepMins: int, sleepDisplay: string)

  /** Without access only the connect prompt shows and the metrics are not
      looked at; with access, the first steps reading, and the first sleep
      reading split into hours and minutes, shown as the unpadded
      `<h>h <m>m` of `SleepDisplay`. */
  function Banner(isAuthorized: bool, metrics: seq<HealthMetric>): (v: BannerView)
    ensures !isAuthorized ==> v == ConnectPrompt
    ensures isAuthorized ==> v.Metrics? && v.steps == FirstValue(metrics, Steps)
    ensures isAuthorized ==>
      var sleep := FirstValue(metrics, Sleep);
      v.sleepHours == SleepHours(sleep) && v.sleepMins == SleepMins(sleep) &&
      v.sleepDisplay == SleepDisplay(sleep)
    ensures isAuthorized && FirstValue(metrics, Sleep) >= 0 ==>
      ParseSleepDisplay(v.sleepDisplay) == Some((v.sleepHours, v.sleepMins)) &&
      v.sleepHours * 60 + v.sleepMins == FirstValue(metrics, Sleep) && 0 <= v.sleepMins < 60
  {
    if !isAuthorized then ConnectPrompt
    else
      var steps := FirstValue(metrics, Steps);
      var sleep := FirstValue(metrics, Sleep);
      var view := Metrics(steps, SleepHours(sleep), SleepMins(sleep), SleepDisplay(sleep));
      if sleep >= 0 then SleepDisplayRoundTrip(sleep); view else view
  }

  /** 425 minutes of sleep show as "7h 5m", without zero padding. */
  lemma BannerShowsUnpadded(date: string)
    ensures Banner(true, [HealthMetric(Sleep, 425, date)]).sleepDisplay == "7h 5m"
  {
    assert NatToString(7) == "7" && NatToString(5) == "5";
  }
}
