/**
 * The daily theme scheduler: a catalogue of themes, a calendar that assigns
 * at most one theme to each date, the cached `current_theme_id` setting that
 * the daily reset keeps in step with the calendar, the `last_reset_date`
 * marker used to catch a reset missed while the server was down, and the
 * single cron job that fires the reset at midnight.
 *
 * The SQL tables are sequences of rows in insertion order; "today" is a
 * parameter, and a firing of the midnight job is an explicit call to Tick.
 */
module ThemeService {
  import opened Common
  import JsString

  /** A row of `themes`. */
  datatype Theme = Theme(id: nat, title: string, description: Option<string>, active: bool)

  /** A row of `scheduled_themes`. */
  datatype Assignment = Assignment(id: nat, themeId: nat, date: Date)

  /** A row returned by getScheduledThemes: an assignment joined with its theme. */
  datatype CalendarEntry = CalendarEntry(assignmentId: nat, date: Date, themeId: nat, title: string, description: Option<string>)

  /** The error scheduleTheme throws for an unknown or inactive theme. */
  const NotFoundOrInactive := "Theme not found or inactive"

  // ----- table invariants -----

  /** Theme ids increase in insertion order (so they are distinct). */
  ghost predicate IdsIncreasing(themes: seq<Theme>) {
    forall i, j :: 0 <= i < j < |themes| ==> themes[i].id < themes[j].id
  }

  /** Theme ids are positive serial numbers below `nextId`, increasing in insertion order. */
  ghost predicate CatalogueWellFormed(themes: seq<Theme>, nextId: nat) {
    && 0 < nextId
    && IdsIncreasing(themes)
    && (forall k :: 0 <= k < |themes| ==> 0 < themes[k].id < nextId)
  }

  /** No two assignments fall on the same date. */
  ghost predicate OnePerDate(schedule: seq<Assignment>) {
    forall i, j :: 0 <= i < j < |schedule| ==> schedule[i].date != schedule[j].date
  }

  /** Assignment ids are distinct serial numbers below `nextId`, and no date has two assignments. */
  ghost predicate CalendarWellFormed(schedule: seq<Assignment>, nextId: nat) {
    && OnePerDate(schedule)
    && (forall i, j :: 0 <= i < j < |schedule| ==> schedule[i].id != schedule[j].id)
    && (forall k :: 0 <= k < |schedule| ==> schedule[k].id < nextId)
  }

  // ----- the queries -----

  /** `SELECT ... FROM themes WHERE id = $1 AND active = true`. */
  function ActiveTheme(themes: seq<Theme>, id: int): (r: Option<Theme>)
    ensures r.Some? ==> r.value in themes && r.value.id == id && r.value.active
    ensures r.None? ==> forall t :: t in themes && t.id == id ==> !t.active
  {
    if themes == [] then None
    else if themes[0].id == id && themes[0].active then Some(themes[0])
    else ActiveTheme(themes[1..], id)
  }

  /**
   * The query shared by updateCurrentTheme and getScheduledTheme: an active
   * theme that has an assignment for `today`, or None when there is none.
   */
  function ScheduledTheme(themes: seq<Theme>, schedule: seq<Assignment>, today: Date): (r: Option<Theme>)
    ensures r.Some? ==> r.value in themes && r.value.active
                        && exists a :: a in schedule && a.date == today && a.themeId == r.value.id
    ensures r.None? ==> forall a, t :: a in schedule && a.date == today && t in themes && t.id == a.themeId ==> !t.active
  {
    if schedule == [] then None
    else if schedule[0].date == today && ActiveTheme(themes, schedule[0].themeId).Some? then
      ActiveTheme(themes, schedule[0].themeId)
    else ScheduledTheme(themes, schedule[1..], today)
  }

  /** With one assignment per date and distinct theme ids, the theme scheduled today is determined. */
  lemma ScheduledThemeIsTheAssignedOne(themes: seq<Theme>, schedule: seq<Assignment>, today: Date, a: Assignment, t: Theme)
    requires IdsIncreasing(themes)
    requires OnePerDate(schedule)
    requires a in schedule && a.date == today && t in themes && t.id == a.themeId && t.active
    ensures ScheduledTheme(themes, schedule, today) == Some(t)
  {
    var r := ScheduledTheme(themes, schedule, today);
    assert r.Some?;
    var b :| b in schedule && b.date == today && b.themeId == r.value.id;
    var i :| 0 <= i < |schedule| && schedule[i] == a;
    var j :| 0 <= j < |schedule| && schedule[j] == b;
    assert i == j;
    var p :| 0 <= p < |themes| && themes[p] == t;
    var q :| 0 <= q < |themes| && themes[q] == r.value;
    assert p == q;
  }

  // ----- the cached current theme -----

  /** The text updateCurrentTheme writes into `current_theme_id`: the theme id in decimal, or ''. */
  function CacheValue(resolved: Option<Theme>): string {
    if resolved.Some? then JsString.NatToString(resolved.value.id) else ""
  }

  /**
   * The `current_theme_id` setting after updateCurrentTheme. The statement is
   * an UPDATE, so an absent row (None) stays absent.
   */
  function Refreshed(setting: Option<string>, themes: seq<Theme>, schedule: seq<Assignment>, today: Date): Option<string> {
    if setting.None? then None else Some(CacheValue(ScheduledTheme(themes, schedule, today)))
  }

  /** The cached text names a theme exactly when a theme is resolved, and then it is that theme's id in decimal. */
  lemma CacheValueNamesResolvedTheme(resolved: Option<Theme>)
    ensures CacheValue(resolved) == "" <==> resolved.None?
    ensures resolved.Some? ==> JsString.ParseInt(CacheValue(resolved)) == Some(resolved.value.id)
  {
    if resolved.Some? {
      JsString.ParseIntOfNatToString(resolved.value.id);
    }
  }

  /** Refreshing twice with no change in between writes the same value as refreshing once. */
  lemma {:induction false} RefreshIdempotent(setting: Option<string>, themes: seq<Theme>, schedule: seq<Assignment>, today: Date)
    ensures Refreshed(Refreshed(setting, themes, schedule, today), themes, schedule, today) == Refreshed(setting, themes, schedule, today)
  {
  }

  // ----- the calendar upsert -----

  /** Whether some assignment falls on `date` (the SELECT that scheduleTheme runs first). */
  predicate HasAssignmentOn(schedule: seq<Assignment>, date: Date) {
    exists k :: 0 <= k < |schedule| && schedule[k].date == date
  }

  /** The theme ids assigned to `date`. */
  ghost function ThemesOn(schedule: seq<Assignment>, date: Date): set<nat> {
    set a | a in schedule && a.date == date :: a.themeId
  }

  /**
   * scheduleTheme's write: `UPDATE scheduled_themes SET theme_id WHERE scheduled_date`
   * when the date already has an assignment, otherwise one INSERT with the next serial id.
   */
  function Upsert(schedule: seq<Assignment>, themeId: nat, date: Date, freshId: nat): seq<Assignment> {
    if HasAssignmentOn(schedule, date) then
      seq(|schedule|, k requires 0 <= k < |schedule| =>
        if schedule[k].date == date then schedule[k].(themeId := themeId) else schedule[k])
    else schedule + [Assignment(freshId, themeId, date)]
  }

  /** The position of the first assignment on `date`. */
  function IndexOn(schedule: seq<Assignment>, date: Date): (k: nat)
    requires HasAssignmentOn(schedule, date)
    ensures k < |schedule| && schedule[k].date == date
  {
    if schedule[0].date == date then 0
    else
      assert HasAssignmentOn(schedule[1..], date) by {
        var k :| 0 <= k < |schedule| && schedule[k].date == date;
        assert schedule[1..][k - 1] == schedule[k];
      }
      1 + IndexOn(schedule[1..], date)
  }

  /** The row scheduleTheme returns (`RETURNING id, theme_id, scheduled_date`). */
  function UpsertedRow(schedule: seq<Assignment>, themeId: nat, date: Date, freshId: nat): (a: Assignment)
    ensures a.themeId == themeId && a.date == date
  {
    if HasAssignmentOn(schedule, date) then schedule[IndexOn(schedule, date)].(themeId := themeId)
    else Assignment(freshId, themeId, date)
  }

  /**
   * Upsert keeps the calendar well formed, puts exactly `themeId` on `date`,
   * leaves every other date as it was, and adds a row only when `date` had none.
   */
  lemma UpsertSpec(schedule: seq<Assignment>, themeId: nat, date: Date, freshId: nat)
    requires CalendarWellFormed(schedule, freshId)
    ensures CalendarWellFormed(Upsert(schedule, themeId, date, freshId), freshId + 1)
    ensures HasAssignmentOn(schedule, date) ==> CalendarWellFormed(Upsert(schedule, themeId, date, freshId), freshId)
    ensures ThemesOn(Upsert(schedule, themeId, date, freshId), date) == {themeId}
    ensures forall d :: d != date ==> ThemesOn(Upsert(schedule, themeId, date, freshId), d) == ThemesOn(schedule, d)
    ensures |Upsert(schedule, themeId, date, freshId)| == |schedule| + (if HasAssignmentOn(schedule, date) then 0 else 1)
    ensures UpsertedRow(schedule, themeId, date, freshId) in Upsert(schedule, themeId, date, freshId)
    ensures UpsertedRow(schedule, themeId, date, freshId).id
            == if HasAssignmentOn(schedule, date) then schedule[IndexOn(schedule, date)].id else freshId
  {
    var s' := Upsert(schedule, themeId, date, freshId);
    var row := UpsertedRow(schedule, themeId, date, freshId);
    if HasAssignmentOn(schedule, date) {
      var k := IndexOn(schedule, date);
      assert s'[k] == row;
      forall d | d != date
        ensures ThemesOn(s', d) == ThemesOn(schedule, d)
      {
        forall x | x in ThemesOn(s', d) ensures x in ThemesOn(schedule, d) {
          var a :| a in s' && a.date == d && a.themeId == x;
          var i :| 0 <= i < |s'| && s'[i] == a;
          assert schedule[i] == a;
        }
        forall x | x in ThemesOn(schedule, d) ensures x in ThemesOn(s', d) {
          var a :| a in schedule && a.date == d && a.themeId == x;
          var i :| 0 <= i < |schedule| && schedule[i] == a;
          assert s'[i] == a;
        }
      }
      forall x | x in ThemesOn(s', date) ensures x == themeId {
        var a :| a in s' && a.date == date && a.themeId == x;
      }
      assert themeId in ThemesOn(s', date);
    } else {
      assert s'[|schedule|] == row;
      forall d | d != date
        ensures ThemesOn(s', d) == ThemesOn(schedule, d)
      {
        assert forall a :: a in s' <==> a in schedule || a == row;
      }
      forall x | x in ThemesOn(s', date) ensures x == themeId {
        var a :| a in s' && a.date == date && a.themeId == x;
        var i :| 0 <= i < |s'| && s'[i] == a;
        assert i == |schedule|;
      }
      assert themeId in ThemesOn(s', date);
    }
  }

  /** Right after an upsert of an active theme for `today`, today's resolved theme is that theme. */
  lemma ScheduledAfterUpsert(themes: seq<Theme>, schedule: seq<Assignment>, t: Theme, today: Date, freshId: nat)
    requires IdsIncreasing(themes) && CalendarWellFormed(schedule, freshId)
    requires t in themes && t.active
    ensures ScheduledTheme(themes, Upsert(schedule, t.id, today, freshId), today) == Some(t)
  {
    UpsertSpec(schedule, t.id, today, freshId);
    var s' := Upsert(schedule, t.id, today, freshId);
    assert t.id in ThemesOn(s', today);
    var a :| a in s' && a.date == today && a.themeId == t.id;
    ScheduledThemeIsTheAssignedOne(themes, s', today, a, t);
  }

  // ----- the admin listings -----

  /**
   * getAllThemes: the catalogue, restricted to active themes when `activeOnly`,
   * newest row first (the order of `ORDER BY id DESC` for serial ids).
   */
  function AllThemes(themes: seq<Theme>, activeOnly: bool): (r: seq<Theme>)
    ensures forall t :: t in r <==> t in themes && (activeOnly ==> t.active)
  {
    if themes == [] then []
    else AllThemes(themes[1..], activeOnly) + (if !activeOnly || themes[0].active then [themes[0]] else [])
  }

  /** getAllThemes lists ids in strictly descending order. */
  lemma {:induction false} AllThemesDescending(themes: seq<Theme>, activeOnly: bool)
    requires IdsIncreasing(themes)
    ensures forall i, j :: 0 <= i < j < |AllThemes(themes, activeOnly)| ==>
              AllThemes(themes, activeOnly)[i].id > AllThemes(themes, activeOnly)[j].id
  {
    if themes != [] {
      var rest := AllThemes(themes[1..], activeOnly);
      AllThemesDescending(themes[1..], activeOnly);
      forall t | t in rest ensures t.id > themes[0].id {
        var k :| 0 <= k < |themes[1..]| && themes[1..][k] == t;
        assert themes[k + 1] == t;
      }
    }
  }

  /** Dates in non-decreasing order. */
  ghost predicate SortedByDate(rows: seq<CalendarEntry>) {
    forall i, j :: 0 <= i < j < |rows| ==> rows[i].date <= rows[j].date
  }

  /** The join rows of one assignment: one per theme whose id it references. */
  function JoinOne(a: Assignment, themes: seq<Theme>): (r: seq<CalendarEntry>)
    ensures forall e :: e in r <==> exists t :: t in themes && a.themeId == t.id
                                              && e == CalendarEntry(a.id, a.date, t.id, t.title, t.description)
  {
    if themes == [] then []
    else
      var t := themes[0];
      assert forall x :: x in themes <==> x == t || x in themes[1..];
      (if t.id == a.themeId then [CalendarEntry(a.id, a.date, t.id, t.title, t.description)] else [])
      + JoinOne(a, themes[1..])
  }

  /** `scheduled_themes JOIN themes` restricted to dates in [from, to], in table order. */
  function JoinInRange(themes: seq<Theme>, schedule: seq<Assignment>, from: Date, to: Date): (r: seq<CalendarEntry>)
    ensures forall e :: e in r <==> exists a, t :: a in schedule && t in themes && a.themeId == t.id
                                        && from <= a.date <= to && e == CalendarEntry(a.id, a.date, t.id, t.title, t.description)
  {
    if schedule == [] then []
    else
      var a := schedule[0];
      assert forall x :: x in schedule <==> x == a || x in schedule[1..];
      (if from <= a.date <= to then JoinOne(a, themes) else [])
      + JoinInRange(themes, schedule[1..], from, to)
  }

  /** Insert `e` into `rows` before the first row dated on or after it. */
  function InsertByDate(e: CalendarEntry, rows: seq<CalendarEntry>): seq<CalendarEntry> {
    if rows == [] then [e]
    else if e.date <= rows[0].date then [e] + rows
    else [rows[0]] + InsertByDate(e, rows[1..])
  }

  lemma {:induction false} InsertByDateKeepsRows(e: CalendarEntry, rows: seq<CalendarEntry>)
    ensures multiset(InsertByDate(e, rows)) == multiset(rows) + multiset{e}
  {
    if rows != [] && e.date > rows[0].date {
      InsertByDateKeepsRows(e, rows[1..]);
      assert rows == [rows[0]] + rows[1..];
    }
  }

  lemma {:induction false} InsertByDateSorted(e: CalendarEntry, rows: seq<CalendarEntry>)
    requires SortedByDate(rows)
    ensures SortedByDate(InsertByDate(e, rows))
  {
    if rows == [] {
    } else if e.date <= rows[0].date {
      forall k | 0 <= k < |rows| ensures e.date <= rows[k].date {
        assert k == 0 || rows[0].date <= rows[k].date;
      }
      PrependSorted(e, rows);
    } else {
      var rest := rows[1..];
      assert SortedByDate(rest) by {
        forall i, j | 0 <= i < j < |rest| ensures rest[i].date <= rest[j].date {
          assert rest[i] == rows[i + 1] && rest[j] == rows[j + 1];
        }
      }
      forall k | 0 <= k < |rest| ensures rows[0].date <= rest[k].date {
        assert rest[k] == rows[k + 1];
      }
      InsertByDateSorted(e, rest);
      InsertByDateLowerBound(e, rest, rows[0].date);
      PrependSorted(rows[0], InsertByDate(e, rest));
    }
  }

  /** A row dated no later than every row of a sorted list keeps it sorted when put in front. */
  lemma PrependSorted(x: CalendarEntry, rows: seq<CalendarEntry>)
    requires SortedByDate(rows)
    requires forall k :: 0 <= k < |rows| ==> x.date <= rows[k].date
    ensures SortedByDate([x] + rows)
  {
    var r := [x] + rows;
    forall i, j | 0 <= i < j < |r| ensures r[i].date <= r[j].date {
      assert r[j] == rows[j - 1];
      if i > 0 {
        assert r[i] == rows[i - 1];
      }
    }
  }

  /** Inserting keeps every row dated on or after a common lower bound. */
  lemma {:induction false} InsertByDateLowerBound(e: CalendarEntry, rows: seq<CalendarEntry>, d: Date)
    requires d <= e.date
    requires forall k :: 0 <= k < |rows| ==> d <= rows[k].date
    ensures forall k :: 0 <= k < |InsertByDate(e, rows)| ==> d <= InsertByDate(e, rows)[k].date
  {
    if rows != [] && e.date > rows[0].date {
      var rest := rows[1..];
      forall k | 0 <= k < |rest| ensures d <= rest[k].date {
        assert rest[k] == rows[k + 1];
      }
      InsertByDateLowerBound(e, rest, d);
      var r := InsertByDate(e, rows);
      assert r == [rows[0]] + InsertByDate(e, rest);
      forall k | 0 <= k < |r| ensures d <= r[k].date {
        if k > 0 {
          assert r[k] == InsertByDate(e, rest)[k - 1];
        }
      }
    }
  }

  /** ORDER BY scheduled_date, as an insertion sort. */
  function SortByDate(rows: seq<CalendarEntry>): seq<CalendarEntry> {
    if rows == [] then [] else InsertByDate(rows[0], SortByDate(rows[1..]))
  }

  /** Sorting yields a date-ordered permutation of its input. */
  lemma {:induction false} SortByDateSpec(rows: seq<CalendarEntry>)
    ensures SortedByDate(SortByDate(rows)) && multiset(SortByDate(rows)) == multiset(rows)
  {
    if rows != [] {
      SortByDateSpec(rows[1..]);
      InsertByDateSorted(rows[0], SortByDate(rows[1..]));
      InsertByDateKeepsRows(rows[0], SortByDate(rows[1..]));
      assert rows == [rows[0]] + rows[1..];
    }
  }

  /** getScheduledThemes: the assignments dated in [from, to] with their themes, by date. */
  function ScheduledThemes(themes: seq<Theme>, schedule: seq<Assignment>, from: Date, to: Date): seq<CalendarEntry> {
    SortByDate(JoinInRange(themes, schedule, from, to))
  }

  /**
   * getScheduledThemes returns, in date order, exactly the join rows of the
   * assignments dated from `from` to `to` inclusive; one per date when the
   * calendar holds one per date.
   */
  lemma ScheduledThemesSpec(themes: seq<Theme>, schedule: seq<Assignment>, from: Date, to: Date)
    ensures SortedByDate(ScheduledThemes(themes, schedule, from, to))
    ensures forall e :: e in ScheduledThemes(themes, schedule, from, to) <==>
              exists a, t :: a in schedule && t in themes && a.themeId == t.id
                             && from <= a.date <= to && e == CalendarEntry(a.id, a.date, t.id, t.title, t.description)
  {
    var j := JoinInRange(themes, schedule, from, to);
    var r := ScheduledThemes(themes, schedule, from, to);
    SortByDateSpec(j);
    forall e ensures e in r <==> e in j {
      assert e in r <==> e in multiset(r);
      assert e in j <==> e in multiset(j);
    }
  }

  // ----- the scheduler state -----

  /**
   * The theme service's state: the `themes` and `scheduled_themes` tables,
   * the two `app_settings` rows (None when the row is absent), and the
   * module-level `dailyResetJob` together with the cron jobs that are live.
   */
  class Service {
    var themes: seq<Theme>
    var schedule: seq<Assignment>
    var currentThemeSetting: Option<string>
    var lastResetSetting: Option<Date>
    var resetJob: Option<nat>
    var liveJobs: set<nat>
    var nextThemeId: nat
    var nextAssignmentId: nat
    var nextJobId: nat

    ghost predicate Valid()
      reads this
    {
      && CatalogueWellFormed(themes, nextThemeId)
      && CalendarWellFormed(schedule, nextAssignmentId)
      && liveJobs == (if resetJob.Some? then {resetJob.value} else {})
      && (resetJob.Some? ==> resetJob.value < nextJobId)
    }

    /** The cached setting already holds what a refresh for `today` would write. */
    ghost predicate CacheFresh(today: Date)
      reads this
    {
      currentThemeSetting == Refreshed(currentThemeSetting, themes, schedule, today)
    }

    /** A store holding a well-formed catalogue and calendar, the given settings rows, and no job scheduled. */
    constructor (themes: seq<Theme>, nextThemeId: nat, schedule: seq<Assignment>, nextAssignmentId: nat,
                 currentThemeSetting: Option<string>, lastResetSetting: Option<Date>)
      requires CatalogueWellFormed(themes, nextThemeId) && CalendarWellFormed(schedule, nextAssignmentId)
      ensures Valid()
      ensures this.themes == themes && this.schedule == schedule && resetJob == None && liveJobs == {}
      ensures this.currentThemeSetting == currentThemeSetting && this.lastResetSetting == lastResetSetting
    {
      this.themes, this.schedule := themes, schedule;
      this.currentThemeSetting, this.lastResetSetting := currentThemeSetting, lastResetSetting;
      resetJob, liveJobs := None, {};
      this.nextThemeId, this.nextAssignmentId, nextJobId := nextThemeId, nextAssignmentId, 0;
    }

    /**
     * updateCurrentTheme: write today's resolved theme id (or '') into the
     * `current_theme_id` row. A second call with nothing changed in between is a no-op.
     */
    method UpdateCurrentTheme(today: Date)
      requires Valid()
      modifies this`currentThemeSetting
      ensures Valid()
      ensures currentThemeSetting == Refreshed(old(currentThemeSetting), themes, schedule, today)
      ensures currentThemeSetting.Some? <==> old(currentThemeSetting).Some?
      ensures CacheFresh(today)
      ensures old(CacheFresh(today)) ==> currentThemeSetting == old(currentThemeSetting)
    {
      var theme := ScheduledTheme(themes, schedule, today);
      if theme.Some? {
        if currentThemeSetting.Some? {
          currentThemeSetting := Some(JsString.NatToString(theme.value.id));
        }
      } else {
        if currentThemeSetting.Some? {
          currentThemeSetting := Some("");
        }
      }
    }

    /** performDailyReset: the reset is a refresh of the current theme. */
    method PerformDailyReset(today: Date)
      requires Valid()
      modifies this`currentThemeSetting
      ensures Valid()
      ensures currentThemeSetting == Refreshed(old(currentThemeSetting), themes, schedule, today)
      ensures CacheFresh(today)
    {
      UpdateCurrentTheme(today);
    }

    /** The midnight cron firing: only a live job runs the reset. */
    method Tick(today: Date)
      requires Valid()
      modifies this`currentThemeSetting
      ensures Valid()
      ensures currentThemeSetting == if resetJob.Some? then Refreshed(old(currentThemeSetting), themes, schedule, today)
                                     else old(currentThemeSetting)
    {
      if resetJob.Some? {
        PerformDailyReset(today);
      }
    }

    /**
     * initializeScheduler: stop and drop the existing job, schedule a new one
     * (so exactly one job is live), then refresh the current theme.
     */
    method InitializeScheduler(today: Date)
      requires Valid()
      modifies this`resetJob, this`liveJobs, this`nextJobId, this`currentThemeSetting
      ensures Valid()
      ensures resetJob == Some(old(nextJobId)) && liveJobs == {old(nextJobId)}
      ensures old(resetJob).Some? ==> old(resetJob).value !in liveJobs
      ensures currentThemeSetting == Refreshed(old(currentThemeSetting), themes, schedule, today)
    {
      if resetJob.Some? {
        liveJobs := liveJobs - {resetJob.value};
        resetJob := None;
      }
      var job := nextJobId;
      nextJobId := nextJobId + 1;
      liveJobs := liveJobs + {job};
      resetJob := Some(job);
      UpdateCurrentTheme(today);
    }

    /**
     * scheduleTheme: fail with "Theme not found or inactive" and change nothing
     * unless `themeId` names an active theme; otherwise upsert the assignment
     * for `date` and refresh the current theme exactly when `date` is today.
     */
    method ScheduleTheme(themeId: int, date: Date, today: Date) returns (r: Result<Assignment, string>)
      requires Valid()
      modifies this`schedule, this`nextAssignmentId, this`currentThemeSetting
      ensures Valid()
      ensures ActiveTheme(themes, themeId).None? ==>
                r == Failure(NotFoundOrInactive) && unchanged(this)
      ensures ActiveTheme(themes, themeId).Some? ==>
                && themeId >= 0
                && schedule == Upsert(old(schedule), themeId as nat, date, old(nextAssignmentId))
                && r == Success(UpsertedRow(old(schedule), themeId as nat, date, old(nextAssignmentId)))
                && currentThemeSetting == (if date == today then Refreshed(old(currentThemeSetting), themes, schedule, today)
                                           else old(currentThemeSetting))
                && nextAssignmentId == old(nextAssignmentId) + (if HasAssignmentOn(old(schedule), date) then 0 else 1)
    {
      var theme := ActiveTheme(themes, themeId);
      if theme.None? {
        return Failure(NotFoundOrInactive);
      }
      var id := theme.value.id;
      UpsertSpec(schedule, id, date, nextAssignmentId);
      r := Success(UpsertedRow(schedule, id, date, nextAssignmentId));
      var inserts := !HasAssignmentOn(schedule, date);
      schedule := Upsert(schedule, id, date, nextAssignmentId);
      if inserts {
        nextAssignmentId := nextAssignmentId + 1;
      }
      if date == today {
        UpdateCurrentTheme(today);
      }
    }

    /**
     * manuallyActivateTheme: false, changing nothing, for an unknown or
     * inactive theme; otherwise scheduleTheme(themeId, today) and true.
     * Afterwards today's resolved theme is that theme.
     */
    method ManuallyActivateTheme(themeId: int, today: Date) returns (ok: bool)
      requires Valid()
      modifies this`schedule, this`nextAssignmentId, this`currentThemeSetting
      ensures Valid()
      ensures ok <==> ActiveTheme(themes, themeId).Some?
      ensures !ok ==> unchanged(this)
      ensures ok ==> && schedule == Upsert(old(schedule), themeId as nat, today, old(nextAssignmentId))
                     && currentThemeSetting == Refreshed(old(currentThemeSetting), themes, schedule, today)
                     && ScheduledTheme(themes, schedule, today) == ActiveTheme(themes, themeId)
                     && nextAssignmentId == old(nextAssignmentId) + (if HasAssignmentOn(old(schedule), today) then 0 else 1)
    {
      var theme := ActiveTheme(themes, themeId);
      if theme.None? {
        return false;
      }
      ScheduledAfterUpsert(themes, schedule, theme.value, today, nextAssignmentId);
      var _ := ScheduleTheme(themeId, today, today);
      ok := true;
    }

    /**
     * checkForMissedReset: when the `last_reset_date` marker is missing or is
     * not today, run the reset and set the marker to today; otherwise do
     * nothing. A second call on the same day is therefore a no-op.
     */
    method CheckForMissedReset(today: Date)
      requires Valid()
      modifies this`currentThemeSetting, this`lastResetSetting
      ensures Valid()
      ensures lastResetSetting == Some(today)
      ensures old(lastResetSetting) == Some(today) ==> unchanged(this)
      ensures old(lastResetSetting) != Some(today) ==>
                currentThemeSetting == Refreshed(old(currentThemeSetting), themes, schedule, today)
    {
      if lastResetSetting.None? || lastResetSetting.value != today {
        PerformDailyReset(today);
        lastResetSetting := Some(today);
      }
    }
  }
}
