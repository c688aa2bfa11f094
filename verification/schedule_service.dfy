/**
 * The decisions `fetchSchedule` and `getCalendarInfo` make once the three JSON
 * files (today, tomorrow, history) are loaded: which file a date is read from,
 * which schedule in it is chosen, which errors are raised, and the calendar's
 * list of known dates.
 */
module ScheduleService {
  import opened Wrappers
  import opened JsStrings
  import opened Timeline

  /** A day's schedule: queue name to its list of "HH:MM-HH:MM" off ranges. */
  type Schedule = map<string, seq<string>>

  /** One key of the today or tomorrow file: a date and its `schedule` field, absent or null as `None`. */
  datatype DayEntry = DayEntry(date: string, schedule: Option<Schedule>)

  /** The today or tomorrow file: an object keyed by date, in key order. A parsed JSON object has
      each key once; a list repeating a date stands for no file, and lookups take its first entry. */
  type Feed = seq<DayEntry>

  /** One element of the history array. */
  datatype HistoryEntry = HistoryEntry(scheduleDate: string, schedule: Option<Schedule>)

  /** The three files as loaded; `None` when a file could not be fetched or read (for history: is not an array). */
  datatype Catalog = Catalog(today: Option<Feed>, tomorrow: Option<Feed>, history: Option<seq<HistoryEntry>>)

  datatype Source = Today | Tomorrow | History

  datatype CalendarInfo = CalendarInfo(todayDate: Option<string>, availableDates: seq<string>)

  datatype FetchError =
    | SourceUnavailable(source: Source)
    | ScheduleNotFound(date: string)
    | QueueNotFound(group: string)

  datatype ScheduleView = ScheduleView(region: string, group: string, day: string, timeline: seq<Segment>, stats: Stats)

  const Region: string := "Черкаська область"

  // ---------------------------------------------------------------------
  // getCalendarInfo

  /** `Object.keys(data)[0]`. */
  function FirstKey(f: Feed): Option<string>
  {
    if f == [] then None else Some(f[0].date)
  }

  /** The anchor date: the first key of the today file, if it was loaded and has one. */
  function TodayDate(c: Catalog): Option<string>
  {
    if c.today.Some? then FirstKey(c.today.value) else None
  }

  /** The `schedule_date` of every history entry, in order. */
  function HistoryDates(h: seq<HistoryEntry>): seq<string>
  {
    seq(|h|, i requires 0 <= i < |h| => h[i].scheduleDate)
  }

  /** The dates `getCalendarInfo` pushes, in order: today's first key, tomorrow's first key when
      it is a non-empty string, then every history date. */
  function CollectedDates(c: Catalog): seq<string>
  {
    TodayPart(c) + TomorrowPart(c) + HistoryPart(c)
  }

  function TodayPart(c: Catalog): seq<string>
  {
    if TodayDate(c).Some? then [TodayDate(c).value] else []
  }

  function TomorrowPart(c: Catalog): seq<string>
  {
    if c.tomorrow.Some? && FirstKey(c.tomorrow.value).Some? && FirstKey(c.tomorrow.value).value != ""
    then [FirstKey(c.tomorrow.value).value] else []
  }

  function HistoryPart(c: Catalog): seq<string>
  {
    if c.history.Some? then HistoryDates(c.history.value) else []
  }

  /** `[...new Set(dates)].sort()`. */
  function AvailableDates(c: Catalog): seq<string>
  {
    SortStrings(Dedupe(CollectedDates(c)))
  }

  /** The calendar's dates are strictly ascending, hence free of duplicates, and are exactly the
      collected dates. */
  lemma AvailableDatesAscending(c: Catalog)
    ensures StrictlyAscending(AvailableDates(c))
    ensures forall d :: d in AvailableDates(c) <==> d in CollectedDates(c)
  {
    SortStringsAscending(Dedupe(CollectedDates(c)));
  }

  /** No other order is possible: any strictly ascending list of the collected dates is the calendar's list. */
  lemma AvailableDatesAreCanonical(c: Catalog, dates: seq<string>)
    requires StrictlyAscending(dates)
    requires forall d :: d in dates <==> d in CollectedDates(c)
    ensures dates == AvailableDates(c)
  {
    AvailableDatesAscending(c);
    AscendingUnique(dates, AvailableDates(c));
  }

  /** `getCalendarInfo`: push the dates file by file, then deduplicate and sort. */
  method GetCalendarInfo(c: Catalog) returns (info: CalendarInfo)
    ensures info.todayDate == TodayDate(c)
    ensures info.availableDates == AvailableDates(c)
    ensures StrictlyAscending(info.availableDates)
    ensures forall d :: d in info.availableDates <==> d in CollectedDates(c)
  {
    var todayDate: Option<string> := None;
    var dates: seq<string> := [];
    if c.today.Some? {
      todayDate := FirstKey(c.today.value);
      if todayDate.Some? {
        dates := dates + [todayDate.value];
      }
    }
    assert dates == TodayPart(c);
    if c.tomorrow.Some? {
      var tmrDate := FirstKey(c.tomorrow.value);
      if tmrDate.Some? && tmrDate.value != "" {
        dates := dates + [tmrDate.value];
      }
    }
    assert dates == TodayPart(c) + TomorrowPart(c);
    if c.history.Some? {
      dates := dates + HistoryDates(c.history.value);
    }
    assert dates == CollectedDates(c);
    AvailableDatesAscending(c);
    info := CalendarInfo(todayDate, SortStrings(Dedupe(dates)));
  }

  // ---------------------------------------------------------------------
  // determineSourceForDate

  /** Equal to the anchor: today; after it in string order: tomorrow; anything else, a missing
      anchor included (a comparison with `null` is false), history. */
  function DetermineSourceForDate(date: string, todayDate: Option<string>): (s: Source)
    ensures s == Today <==> todayDate == Some(date)
    ensures s == Tomorrow <==> todayDate.Some? && LexLess(todayDate.value, date)
    ensures s == History <==> todayDate.None? || LexLess(date, todayDate.value)
  {
    if todayDate.Some? then
      LexTotal(date, todayDate.value);
      LexIrreflexive(date);
      if LexLess(date, todayDate.value) then LexAsymmetric(date, todayDate.value); History
      else if date == todayDate.value then Today
      else Tomorrow
    else History
  }

  // ---------------------------------------------------------------------
  // fetchSchedule

  /** `data[date]`: the entry with that key. */
  function FeedLookup(f: Feed, date: string): (e: Option<DayEntry>)
    ensures e.Some? ==> e.value in f && e.value.date == date
    ensures e.None? ==> forall i :: 0 <= i < |f| ==> f[i].date != date
  {
    if f == [] then None
    else if f[0].date == date then Some(f[0])
    else FeedLookup(f[1..], date)
  }

  /** `data[date]?.schedule || Object.values(data)[0]?.schedule`. */
  function FromFeed(f: Feed, date: string): Option<Schedule>
  {
    var e := FeedLookup(f, date);
    if e.Some? && e.value.schedule.Some? then e.value.schedule
    else if f != [] then f[0].schedule
    else None
  }

  /** `historyArr.find(d => d.schedule_date === date)`. */
  function FindHistory(h: seq<HistoryEntry>, date: string): (e: Option<nat>)
    ensures e.Some? ==>
      && e.value < |h| && h[e.value].scheduleDate == date
      && forall j :: 0 <= j < e.value ==> h[j].scheduleDate != date
    ensures e.None? ==> forall j :: 0 <= j < |h| ==> h[j].scheduleDate != date
  {
    if h == [] then None
    else if h[0].scheduleDate == date then Some(0)
    else
      var r := FindHistory(h[1..], date);
      if r.Some? then Some(r.value + 1) else None
  }

  /** Steps 1 and 2 of `fetchSchedule`: pick the file, then the schedule in it. */
  function SelectSchedule(c: Catalog, date: string): Result<Schedule, FetchError>
  {
    match DetermineSourceForDate(date, TodayDate(c))
    case History =>
      if c.history.None? then Err(SourceUnavailable(History))
      else
        var i := FindHistory(c.history.value, date);
        if i.Some? && c.history.value[i.value].schedule.Some? then Ok(c.history.value[i.value].schedule.value)
        else Err(ScheduleNotFound(date))
    case Today =>
      if c.today.None? then Err(SourceUnavailable(Today))
      else
        var s := FromFeed(c.today.value, date);
        if s.Some? then Ok(s.value) else Err(ScheduleNotFound(date))
    case Tomorrow =>
      if c.tomorrow.None? then Err(SourceUnavailable(Tomorrow))
      else
        var s := FromFeed(c.tomorrow.value, date);
        if s.Some? then Ok(s.value) else Err(ScheduleNotFound(date))
  }

  ghost predicate WellFormedSchedule(s: Schedule)
  {
    forall q :: q in s ==> WellFormedRanges(s[q])
  }

  /** Every schedule in every file lists well-formed "HH:MM-HH:MM" ranges. */
  ghost predicate WellFormedCatalog(c: Catalog)
  {
    && (c.today.Some? ==> forall e :: e in c.today.value && e.schedule.Some? ==> WellFormedSchedule(e.schedule.value))
    && (c.tomorrow.Some? ==> forall e :: e in c.tomorrow.value && e.schedule.Some? ==> WellFormedSchedule(e.schedule.value))
    && (c.history.Some? ==> forall e :: e in c.history.value && e.schedule.Some? ==> WellFormedSchedule(e.schedule.value))
  }

  /** A catalog whose every range is well formed meets what `FetchSchedule` needs for any date. */
  lemma SelectedIsWellFormed(c: Catalog, date: string)
    requires WellFormedCatalog(c)
    ensures SelectSchedule(c, date).Ok? ==> WellFormedSchedule(SelectSchedule(c, date).value)
  {
    var src := DetermineSourceForDate(date, TodayDate(c));
    if src == History && c.history.Some? {
      var i := FindHistory(c.history.value, date);
      if i.Some? {
        assert c.history.value[i.value] in c.history.value;
      }
    }
    if src != History {
      var f := if src == Today then c.today else c.tomorrow;
      if f.Some? && f.value != [] {
        assert f.value[0] in f.value;
      }
    }
  }

  /** `fetchSchedule`: a schedule must be found (else "not found"), the queue must be in it (else
      "queue missing"), and then the view carries the region, the queue, the date and the queue's
      exact timeline. */
  function FetchSchedule(c: Catalog, date: string, group: string): (r: Result<ScheduleView, FetchError>)
    requires SelectSchedule(c, date).Ok? && group in SelectSchedule(c, date).value
      ==> WellFormedRanges(SelectSchedule(c, date).value[group])
    ensures r.Ok? <==> SelectSchedule(c, date).Ok? && group in SelectSchedule(c, date).value
    ensures r.Ok? ==>
      && r.value.region == Region && r.value.group == group && r.value.day == date
      && DayTimeline(r.value.timeline, r.value.stats) == ExactTimeline(SelectSchedule(c, date).value[group])
    ensures SelectSchedule(c, date).Err? ==> r == Err(SelectSchedule(c, date).error)
    ensures SelectSchedule(c, date).Ok? && r.Err? ==> r.error == QueueNotFound(group)
  {
    match SelectSchedule(c, date)
    case Err(e) => Err(e)
    case Ok(schedule) =>
      if group !in schedule then Err(QueueNotFound(group))
      else
        var day := ExactTimeline(schedule[group]);
        Ok(ScheduleView(Region, group, date, day.timeline, day.stats))
  }

  // ---------------------------------------------------------------------
  // Which file answers which date

  /** A date equal to the anchor is answered from the today file alone: the tomorrow and history
      files make no difference. */
  lemma TodayTakesPrecedence(c: Catalog, c': Catalog, date: string)
    requires c'.today == c.today && TodayDate(c) == Some(date)
    ensures SelectSchedule(c, date) == SelectSchedule(c', date)
  {
  }

  /** A date after the anchor is answered from the tomorrow file alone: its own entry when that has
      a schedule, otherwise the file's first entry, whatever date that is. */
  lemma FutureDateReadsTomorrow(c: Catalog, date: string, f: Feed)
    requires TodayDate(c).Some? && LexLess(TodayDate(c).value, date)
    requires c.tomorrow == Some(f)
    ensures var e := FeedLookup(f, date);
      SelectSchedule(c, date) ==
        if e.Some? && e.value.schedule.Some? then Ok(e.value.schedule.value)
        else if f != [] && f[0].schedule.Some? then Ok(f[0].schedule.value)
        else Err(ScheduleNotFound(date))
  {
  }

  /** The fallback in particular: a later date the tomorrow file does not list still gets the
      file's first schedule. */
  lemma UnlistedFutureDateGetsFirstEntry(c: Catalog, date: string, f: Feed, s: Schedule)
    requires TodayDate(c).Some? && LexLess(TodayDate(c).value, date)
    requires c.tomorrow == Some(f) && f != [] && f[0].schedule == Some(s)
    requires forall i :: 0 <= i < |f| ==> f[i].date != date
    ensures SelectSchedule(c, date) == Ok(s)
  {
    FutureDateReadsTomorrow(c, date, f);
  }

  /** A date before the anchor, or any date when there is no anchor, is answered from the first
      history entry with that date, and is "not found" when there is none. */
  lemma PastDateReadsFirstHistoryMatch(c: Catalog, date: string, h: seq<HistoryEntry>)
    requires TodayDate(c).None? || LexLess(date, TodayDate(c).value)
    requires c.history == Some(h)
    ensures forall i ::
      (&& 0 <= i < |h| && h[i].scheduleDate == date && h[i].schedule.Some?
       && (forall j :: 0 <= j < i ==> h[j].scheduleDate != date))
      ==> SelectSchedule(c, date) == Ok(h[i].schedule.value)
    ensures (forall i :: 0 <= i < |h| ==> h[i].scheduleDate != date) ==> SelectSchedule(c, date) == Err(ScheduleNotFound(date))
  {
    var r := FindHistory(h, date);
    forall i | 0 <= i < |h| && h[i].scheduleDate == date && h[i].schedule.Some?
      && (forall j :: 0 <= j < i ==> h[j].scheduleDate != date)
      ensures SelectSchedule(c, date) == Ok(h[i].schedule.value)
    {
      assert r.Some?;
      assert r.value == i;
    }
  }
}
