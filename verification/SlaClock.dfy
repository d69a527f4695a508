/** The operational calendar behind service-level due dates.

    Instants are local wall-clock microseconds, the resolution of the program's
    date-times.  Instant 0 is midnight of Monday 1 January of year 1, so day `d`
    starts at `d * DAY` and falls on weekday `d % 7` with Monday as 0.

    `Worked` counts, one microsecond at a time, the instants that lie inside
    working hours.  It knows nothing of the day-by-day loop that adds minutes;
    everything below proves that loop against it. */
module SlaClock {
  import opened Wrappers

  const MINUTE: int := 60_000_000
  const DAY: int := 1440 * MINUTE
  const HORIZON: nat := 3700

  datatype ClockTime = ClockTime(hour: int, minute: int) {
    predicate Valid() { 0 <= hour < 24 && 0 <= minute < 60 }

    function Offset(): int { (60 * hour + minute) * MINUTE }
  }

  /** A weekly calendar after parsing: working weekdays, holiday dates as day
      numbers, and the daily window. */
  datatype Calendar = Calendar(days: set<int>, holidays: set<int>, start: ClockTime, end: ClockTime) {
    predicate Valid() { start.Valid() && end.Valid() }

    predicate WorkingDay(d: int) { d % 7 in days && d !in holidays && start.Offset() < end.Offset() }

    function Opening(d: int): int { d * DAY + start.Offset() }

    function Closing(d: int): int { d * DAY + end.Offset() }

    /** The instant lies strictly inside working hours: on a listed weekday that is no
        holiday, at a time of day from the start and before the end. */
    predicate InHours(t: int) {
      && (t / DAY) % 7 in days && t / DAY !in holidays
      && (60 * start.hour + start.minute) * MINUTE <= t % DAY < (60 * end.hour + end.minute) * MINUTE
    }

    /** The instant lies in a working day's window, closing time included. */
    predicate InWindow(t: int) {
      && (t / DAY) % 7 in days && t / DAY !in holidays
      && 60 * start.hour + start.minute < 60 * end.hour + end.minute
      && (60 * start.hour + start.minute) * MINUTE <= t % DAY <= (60 * end.hour + end.minute) * MINUTE
    }

    /** The number of working microseconds from `a` up to `b`. */
    ghost function Worked(a: int, b: int): nat
      decreases b - a
    {
      if b <= a then 0 else (if InHours(a) then 1 else 0) + Worked(a + 1, b)
    }

    /** The instant at which work can resume on the day of `t`. */
    function Resume(t: int): int {
      if t < Opening(DayOf(t)) then Opening(DayOf(t)) else t
    }

    /** Some of the day's window is still ahead of `t`. */
    predicate HasTime(t: int) {
      WorkingDay(DayOf(t)) && Resume(t) < Closing(DayOf(t))
    }

    /** Whole minutes left in the day's window. */
    function Available(t: int): nat {
      if HasTime(t) then (Closing(DayOf(t)) - Resume(t)) / MINUTE else 0
    }

    /** The instant reached by working `remaining` minutes from `t`, looking at
        `span` days at most. */
    function Advance(t: int, remaining: nat, span: nat): Option<int>
      decreases span
    {
      if span == 0 then None
      else if HasTime(t) && remaining <= Available(t) then Some(Resume(t) + remaining * MINUTE)
      else Advance(NextDay(t), remaining - Min(Available(t), remaining), span - 1)
    }

    /** The number of working days from day `lo` up to day `hi`. */
    ghost function WorkingDays(lo: int, hi: int): nat
      decreases hi - lo
    {
      if hi <= lo then 0 else (if WorkingDay(lo) then 1 else 0) + WorkingDays(lo + 1, hi)
    }

    /** The length of the daily window in minutes. */
    function DailyMinutes(): int {
      60 * (end.hour - start.hour) + end.minute - start.minute
    }
  }

  function DayOf(t: int): int { t / DAY }

  function NextDay(t: int): int { (DayOf(t) + 1) * DAY }

  function Min(a: int, b: int): int { if a <= b then a else b }

  function Max(a: int, b: int): int { if a <= b then b else a }

  // ---------------------------------------------------------------- working time

  lemma {:induction false} WorkedSplits(cal: Calendar, a: int, b: int, c: int)
    requires a <= b <= c
    ensures cal.Worked(a, c) == cal.Worked(a, b) + cal.Worked(b, c)
    decreases b - a
  {
    if a < b {
      WorkedSplits(cal, a + 1, b, c);
    }
  }

  lemma {:induction false} WorkedInside(cal: Calendar, a: int, b: int)
    requires a <= b
    requires forall t | a <= t < b :: cal.InHours(t)
    ensures cal.Worked(a, b) == b - a
    decreases b - a
  {
    if a < b {
      WorkedInside(cal, a + 1, b);
    }
  }

  lemma {:induction false} WorkedOutside(cal: Calendar, a: int, b: int)
    requires forall t | a <= t < b :: !cal.InHours(t)
    ensures cal.Worked(a, b) == 0
    decreases b - a
  {
    if a < b {
      WorkedOutside(cal, a + 1, b);
    }
  }

  lemma DayBounds(t: int, d: int)
    ensures DayOf(t) == d <==> d * DAY <= t < (d + 1) * DAY
  {
  }

  /** Hours and window as the search tells them, by opening and closing time. */
  lemma OpenInstant(cal: Calendar, x: int)
    ensures cal.InHours(x) <==> cal.WorkingDay(DayOf(x)) && cal.Opening(DayOf(x)) <= x < cal.Closing(DayOf(x))
    ensures cal.InWindow(x) <==> cal.WorkingDay(DayOf(x)) && cal.Opening(DayOf(x)) <= x <= cal.Closing(DayOf(x))
  {
    assert x % DAY == x - DayOf(x) * DAY;
  }

  /** Within one day, hours are the stretch between opening and closing. */
  lemma HoursOfDay(cal: Calendar, t: int, x: int)
    requires t <= x < NextDay(t)
    ensures cal.InHours(x) <==>
      cal.WorkingDay(DayOf(t)) && cal.Opening(DayOf(t)) <= x < cal.Closing(DayOf(t))
  {
    hide Calendar.InHours, Calendar.InWindow;
    DayBounds(t, DayOf(t));
    DayBounds(x, DayOf(t));
    OpenInstant(cal, x);
  }

  /** What is left of a day holds exactly the stretch from resuming to closing. */
  lemma WorkedRestOfDay(cal: Calendar, t: int, r: int)
    requires cal.Valid()
    requires t <= r < NextDay(t)
    ensures cal.Worked(t, r) ==
      if cal.WorkingDay(DayOf(t)) then Max(0, Min(r, cal.Closing(DayOf(t))) - cal.Resume(t)) else 0
  {
    hide Calendar.Worked, Calendar.InHours, Calendar.WorkingDay, Calendar.Opening, Calendar.Closing, DayOf, NextDay;
    var d := DayOf(t);
    forall x | t <= x <= r
      ensures cal.InHours(x) <==> cal.WorkingDay(d) && cal.Opening(d) <= x < cal.Closing(d)
    {
      HoursOfDay(cal, t, x);
    }
    if cal.WorkingDay(d) {
      var from := Min(cal.Resume(t), r);
      var to := Min(Max(cal.Closing(d), from), r);
      WorkedSplits(cal, t, from, r);
      WorkedSplits(cal, from, to, r);
      WorkedOutside(cal, t, from);
      WorkedInside(cal, from, to);
      WorkedOutside(cal, to, r);
    } else {
      WorkedOutside(cal, t, r);
    }
  }

  // ---------------------------------------------------------------- one search

  /** Giving the search more days never changes an answer it already has. */
  lemma {:induction false} LongerSpan(cal: Calendar, t: int, m: nat, span: nat, longer: nat)
    requires span <= longer && cal.Advance(t, m, span).Some?
    ensures cal.Advance(t, m, longer) == cal.Advance(t, m, span)
    decreases span
  {
    if !(cal.HasTime(t) && m <= cal.Available(t)) {
      LongerSpan(cal, NextDay(t), m - Min(cal.Available(t), m), span - 1, longer - 1);
    }
  }

  /** The answer when the minutes fit into what is left of today. */
  lemma ReachedToday(cal: Calendar, t: int, m: nat)
    requires cal.Valid() && cal.HasTime(t) && m <= cal.Available(t)
    ensures var r := cal.Resume(t) + m * MINUTE;
      && t <= r && DayOf(r) == DayOf(t)
      && cal.InWindow(r)
      && cal.Worked(t, r) == m * MINUTE
      && (if m == 0 then cal.InHours(r) else cal.InHours(r - 1))
  {
    hide Calendar.InHours, Calendar.InWindow, Calendar.Worked;
    var d := DayOf(t);
    var r := cal.Resume(t) + m * MINUTE;
    assert r <= cal.Closing(d);
    OpenInstant(cal, r);
    OpenInstant(cal, r - 1);
    DayBounds(t, d);
    DayBounds(r, d);
    DayBounds(r - 1, d);
    WorkedRestOfDay(cal, t, r);
  }

  /** Whole minutes fall short of a stretch of time by less than a minute. */
  lemma WholeMinutes(stretch: nat)
    ensures (stretch / MINUTE) * MINUTE <= stretch < (stretch / MINUTE + 1) * MINUTE
    ensures stretch % MINUTE == 0 ==> (stretch / MINUTE) * MINUTE == stretch
  {
  }

  lemma WindowIsAligned(cal: Calendar, d: int)
    ensures cal.Opening(d) % MINUTE == 0 && cal.Closing(d) % MINUTE == 0
  {
    assert cal.Opening(d) == (1440 * d + 60 * cal.start.hour + cal.start.minute) * MINUTE;
    assert cal.Closing(d) == (1440 * d + 60 * cal.end.hour + cal.end.minute) * MINUTE;
  }

  lemma AvailableBounds(cal: Calendar, t: int)
    requires cal.Valid() && cal.HasTime(t)
    ensures var left := cal.Closing(DayOf(t)) - cal.Resume(t);
      && cal.Available(t) * MINUTE <= left < (cal.Available(t) + 1) * MINUTE
      && (t % MINUTE == 0 ==> cal.Available(t) * MINUTE == left)
  {
    hide Calendar.Opening, Calendar.Closing, Calendar.WorkingDay, DayOf;
    var closing, from := cal.Closing(DayOf(t)), cal.Resume(t);
    WholeMinutes(closing - from);
    WindowIsAligned(cal, DayOf(t));
    if t % MINUTE == 0 {
      assert from % MINUTE == 0;
      assert closing - from == (closing / MINUTE - from / MINUTE) * MINUTE;
    }
  }

  lemma NextDayIsAligned(t: int)
    ensures NextDay(t) % MINUTE == 0
  {
    var d := DayOf(t) + 1;
    assert NextDay(t) == (d * 1440) * MINUTE;
  }

  lemma WorkedToday(cal: Calendar, t: int)
    requires cal.Valid()
    ensures cal.Worked(t, NextDay(t)) == if cal.HasTime(t) then cal.Closing(DayOf(t)) - cal.Resume(t) else 0
  {
    hide Calendar.InHours, Calendar.InWindow;
    var last := NextDay(t) - 1;
    OpenInstant(cal, last);
    DayBounds(t, DayOf(t));
    DayBounds(last, DayOf(t));
    WorkedRestOfDay(cal, t, last);
    WorkedSplits(cal, t, last, last + 1);
    WorkedOutside(cal, last, last + 1);
  }

  /** Leaving today behind forfeits less than one minute of working time, and
      nothing when today started on a whole minute. */
  lemma RestOfToday(cal: Calendar, t: int)
    requires cal.Valid()
    ensures var next := NextDay(t);
      && t < next && DayOf(next) == DayOf(t) + 1 && next % MINUTE == 0
      && cal.Available(t) * MINUTE <= cal.Worked(t, next) < (cal.Available(t) + 1) * MINUTE
      && (t % MINUTE == 0 ==> cal.Worked(t, next) == cal.Available(t) * MINUTE)
      && (!cal.HasTime(t) ==> cal.Worked(t, next) == 0)
  {
    hide Calendar.Worked, Calendar.InHours, Calendar.Resume, Calendar.Closing, Calendar.WorkingDay, DayOf;
    DayBounds(t, DayOf(t));
    DayBounds(NextDay(t), DayOf(t) + 1);
    NextDayIsAligned(t);
    WorkedToday(cal, t);
    if cal.HasTime(t) {
      AvailableBounds(cal, t);
    }
  }

  /** Working time is conserved: the instant reached lies in a working day's
      window, and the working time up to it is the minutes asked for, give or
      take the fraction of a minute a start between two minutes can lose. */
  lemma {:induction false} WorkConserved(cal: Calendar, t: int, m: nat, span: nat)
    requires cal.Valid() && cal.Advance(t, m, span).Some?
    ensures var r := cal.Advance(t, m, span).value;
      && t <= r && DayOf(t) <= DayOf(r) < DayOf(t) + span
      && cal.InWindow(r)
      && m * MINUTE <= cal.Worked(t, r) < (m + 1) * MINUTE
      && (t % MINUTE == 0 ==> cal.Worked(t, r) == m * MINUTE)
      && (if m == 0 then cal.InHours(r) else cal.InHours(r - 1))
    decreases span
  {
    if cal.HasTime(t) && m <= cal.Available(t) {
      ReachedToday(cal, t, m);
    } else {
      RestOfToday(cal, t);
      WorkConserved(cal, NextDay(t), m - Min(cal.Available(t), m), span - 1);
      WorkedSplits(cal, t, NextDay(t), cal.Advance(t, m, span).value);
    }
  }

  /** From a whole minute, with at least one minute to work, the answer is the
      first instant at which that much work has been done. */
  lemma FirstInstantWorked(cal: Calendar, t: int, m: nat, span: nat, x: int)
    requires cal.Valid() && cal.Advance(t, m, span).Some?
    requires 0 < m && t % MINUTE == 0 && t <= x
    ensures m * MINUTE <= cal.Worked(t, x) <==> cal.Advance(t, m, span).value <= x
  {
    var r := cal.Advance(t, m, span).value;
    WorkConserved(cal, t, m, span);
    if r <= x {
      WorkedSplits(cal, t, r, x);
    } else {
      WorkedSplits(cal, t, x, r);
      WorkedSplits(cal, x, r - 1, r);
    }
  }

  /** Working `m + n` minutes is working `m` minutes and then `n` more, from any
      start: inside or outside hours, on a whole minute or not, and also when the
      first stretch ends exactly at closing time. */
  lemma {:induction false} WorkComposes(cal: Calendar, t: int, m: nat, n: nat, span: nat)
    requires cal.Valid() && 0 < n && cal.Advance(t, m + n, span).Some?
    ensures cal.Advance(t, m, span).Some?
    ensures cal.Advance(cal.Advance(t, m, span).value, n, span) == cal.Advance(t, m + n, span)
    decreases span
  {
    hide Calendar.WorkingDay, Calendar.Resume, Calendar.Closing, DayOf;
    if cal.HasTime(t) && m <= cal.Available(t) {
      ResumedToday(cal, t, m);
    } else {
      var rest := m - Min(cal.Available(t), m);
      WorkComposes(cal, NextDay(t), rest, n, span - 1);
      LongerSpan(cal, cal.Advance(NextDay(t), rest, span - 1).value, n, span - 1, span);
    }
  }

  /** Adding no minutes to an answer leaves it alone exactly inside hours; an answer
      at closing time is carried over to the next opening, or not found again. */
  lemma NothingMoreMoves(cal: Calendar, t: int, m: nat, span: nat)
    requires cal.Valid() && cal.Advance(t, m, span).Some?
    ensures var r := cal.Advance(t, m, span).value;
      cal.Advance(r, 0, span) == Some(r) <==> cal.InHours(r)
  {
    var r := cal.Advance(t, m, span).value;
    WorkConserved(cal, t, m, span);
    if cal.Advance(r, 0, span) == Some(r) {
      WorkConserved(cal, r, 0, span);
    }
  }

  /** On every working day of every calendar: the day's minutes, counted from opening,
      end at closing time, and zero minutes from there end later or are not found. */
  lemma ClosingTimeMoves(cal: Calendar, d: int, span: nat)
    requires cal.Valid() && cal.WorkingDay(d) && 0 < span
    ensures cal.Advance(cal.Opening(d), cal.DailyMinutes(), span) == Some(cal.Closing(d))
    ensures var again := cal.Advance(cal.Closing(d), 0, span);
      again.Some? ==> cal.Closing(d) < again.value
  {
    var t, r := cal.Opening(d), cal.Closing(d);
    DayBounds(t, d);
    DayBounds(r, d);
    assert r - t == cal.DailyMinutes() * MINUTE;
    assert cal.Available(t) == cal.DailyMinutes();
    NothingMoreMoves(cal, t, cal.DailyMinutes(), span);
    if cal.Advance(r, 0, span).Some? {
      WorkConserved(cal, r, 0, span);
    }
  }

  /** Days without work are passed over until the first working day, if the span
      reaches it. */
  lemma {:induction false} IdleDays(cal: Calendar, d: int, e: int, span: nat)
    requires cal.Valid() && d <= e && cal.WorkingDay(e) && forall x | d <= x < e :: !cal.WorkingDay(x)
    ensures cal.Advance(d * DAY, 0, span) == if e - d < span then Some(cal.Opening(e)) else None
    decreases e - d
  {
    DayBounds(d * DAY, d);
    if 0 < span && d < e {
      IdleDays(cal, d + 1, e, span - 1);
    }
  }

  /** Zero minutes from the closing time of any working day end at the opening of the
      next working day, if the span reaches it. */
  lemma ClosingTimeReopens(cal: Calendar, d: int, e: int, span: nat)
    requires cal.Valid() && cal.WorkingDay(d)
    requires d < e && cal.WorkingDay(e) && forall x | d < x < e :: !cal.WorkingDay(x)
    ensures cal.Advance(cal.Closing(d), 0, span) == if e - d < span then Some(cal.Opening(e)) else None
  {
    DayBounds(cal.Closing(d), d);
    if 0 < span {
      IdleDays(cal, d + 1, e, span - 1);
    }
  }

  /** Monday to Friday, eight to five. */
  const OFFICE := Calendar({0, 1, 2, 3, 4}, {}, ClockTime(8, 0), ClockTime(17, 0))

  lemma OfficeDays()
    ensures OFFICE.Valid() && OFFICE.WorkingDay(0) && OFFICE.WorkingDay(1) && OFFICE.DailyMinutes() == 540
  {
  }

  /** Two hours from Friday at four end on Monday at nine. */
  lemma FridayAfternoon()
    ensures OFFICE.Advance(4 * DAY + 960 * MINUTE, 120, HORIZON) == Some(7 * DAY + 540 * MINUTE)
  {
    hide Calendar.Advance;
    var friday := 4 * DAY + 960 * MINUTE;
    DayBounds(friday, 4);
    assert OFFICE.Available(friday) == 60;
    OneDay(OFFICE, friday, 120, HORIZON);
    forall d | d in {5, 6}
      ensures !OFFICE.WorkingDay(d) && OFFICE.Available(d * DAY) == 0 && NextDay(d * DAY) == (d + 1) * DAY
    {
      DayBounds(d * DAY, d);
    }
    OneDay(OFFICE, 5 * DAY, 60, HORIZON - 1);
    OneDay(OFFICE, 6 * DAY, 60, HORIZON - 2);
    DayBounds(7 * DAY, 7);
    OneDay(OFFICE, 7 * DAY, 60, HORIZON - 3);
  }

  /** Zero minutes from Monday at five end on Tuesday at eight. */
  lemma MondayEvening()
    ensures OFFICE.Advance(OFFICE.Opening(0), 540, HORIZON) == Some(OFFICE.Closing(0))
    ensures OFFICE.Advance(OFFICE.Closing(0), 0, HORIZON) == Some(OFFICE.Opening(1))
  {
    hide Calendar.WorkingDay, Calendar.Advance, Calendar.Valid, Calendar.Opening, Calendar.Closing, OFFICE;
    hide Calendar.DailyMinutes;
    OfficeDays();
    ClosingTimeMoves(OFFICE, 0, HORIZON);
    ClosingTimeReopens(OFFICE, 0, 1, HORIZON);
  }

  /** After working `m` of today's minutes the rest of them are still there. */
  lemma ResumedToday(cal: Calendar, t: int, m: nat)
    requires cal.Valid() && cal.HasTime(t) && m <= cal.Available(t)
    ensures var r := cal.Resume(t) + m * MINUTE;
      && NextDay(r) == NextDay(t)
      && cal.Available(r) == cal.Available(t) - m
      && (cal.HasTime(r) ==> cal.Resume(r) == r)
      && (!cal.HasTime(r) ==> m == cal.Available(t))
  {
    ReachedToday(cal, t, m);
  }

  /** More minutes are never done sooner, and fewer minutes are always found. */
  lemma MoreMinutesLater(cal: Calendar, t: int, m: nat, more: nat, span: nat)
    requires cal.Valid() && m <= more && cal.Advance(t, more, span).Some?
    ensures cal.Advance(t, m, span).Some?
    ensures cal.Advance(t, m, span).value <= cal.Advance(t, more, span).value
  {
    if m < more {
      WorkComposes(cal, t, m, more - m, span);
      WorkConserved(cal, cal.Advance(t, m, span).value, more - m, span);
    }
  }

  /** A later start is never done sooner: the start may lie between two minutes,
      outside hours or on another day. */
  lemma {:induction false} LaterStartLater(cal: Calendar, s: int, t: int, m: nat, spanS: nat, spanT: nat)
    requires cal.Valid() && s <= t
    requires cal.Advance(s, m, spanS).Some? && cal.Advance(t, m, spanT).Some?
    ensures cal.Advance(s, m, spanS).value <= cal.Advance(t, m, spanT).value
    decreases spanS
  {
    hide Calendar.Worked, Calendar.InWindow, Calendar.InHours, Calendar.HasTime, Calendar.Available, Calendar.Resume;
    if cal.HasTime(s) && m <= cal.Available(s) {
      FirstDayFirst(cal, s, t, m, spanT);
    } else {
      var rest := m - Min(cal.Available(s), m);
      if DayOf(s) < DayOf(t) {
        DayBounds(t, DayOf(t));
        MoreMinutesLater(cal, t, rest, m, spanT);
        LaterStartLater(cal, NextDay(s), t, rest, spanS - 1, spanT);
      } else {
        LessTimeLater(cal, s, t);
        var restT := m - Min(cal.Available(t), m);
        NotToday(cal, t, m, spanT);
        MoreMinutesLater(cal, NextDay(t), rest, restT, spanT - 1);
        LaterStartLater(cal, NextDay(s), NextDay(t), rest, spanS - 1, spanT - 1);
      }
    }
  }

  /** On the same day a later instant has less time left. */
  lemma LessTimeLater(cal: Calendar, s: int, t: int)
    requires cal.Valid() && s <= t && DayOf(s) == DayOf(t)
    ensures cal.Available(t) <= cal.Available(s)
    ensures cal.HasTime(t) ==> cal.HasTime(s) && cal.Resume(s) <= cal.Resume(t)
  {
  }

  /** Minutes that do not fit into today are done after today. */
  lemma NotToday(cal: Calendar, t: int, m: nat, span: nat)
    requires cal.Valid() && cal.Advance(t, m, span).Some? && !(cal.HasTime(t) && m <= cal.Available(t))
    ensures 0 < span
    ensures cal.Advance(t, m, span) == cal.Advance(NextDay(t), m - Min(cal.Available(t), m), span - 1)
    ensures NextDay(t) <= cal.Advance(t, m, span).value
  {
    WorkConserved(cal, NextDay(t), m - Min(cal.Available(t), m), span - 1);
  }

  lemma DoneToday(cal: Calendar, t: int, m: nat, span: nat)
    requires 0 < span && cal.HasTime(t) && m <= cal.Available(t)
    ensures cal.Advance(t, m, span) == Some(cal.Resume(t) + m * MINUTE)
  {
  }

  /** Work done on the day of `s` is done no later than the same work from `t`. */
  lemma FirstDayFirst(cal: Calendar, s: int, t: int, m: nat, span: nat)
    requires cal.Valid() && s <= t && cal.HasTime(s) && m <= cal.Available(s)
    requires cal.Advance(t, m, span).Some?
    ensures cal.Resume(s) + m * MINUTE <= cal.Advance(t, m, span).value
  {
    hide Calendar.Worked, Calendar.InWindow, Calendar.InHours, Calendar.HasTime, Calendar.Available, Calendar.Resume;
    hide Calendar.Advance, DayOf;
    var reached := cal.Resume(s) + m * MINUTE;
    ReachedToday(cal, s, m);
    DayBounds(reached, DayOf(s));
    WorkConserved(cal, t, m, span);
    if DayOf(s) < DayOf(t) {
      DayBounds(t, DayOf(t));
    } else {
      DayOrder(s, t);
      if cal.HasTime(t) && m <= cal.Available(t) {
        LessTimeLater(cal, s, t);
        DoneToday(cal, t, m, span);
      } else {
        NotToday(cal, t, m, span);
      }
    }
  }

  lemma DayOrder(s: int, t: int)
    requires s <= t
    ensures DayOf(s) <= DayOf(t)
  {
  }

  // ---------------------------------------------------------------- the horizon

  /** The minutes of the full working days from day `lo` up to day `hi`. */
  ghost function FullMinutes(cal: Calendar, lo: int, hi: int): int {
    cal.WorkingDays(lo, hi) * cal.DailyMinutes()
  }

  lemma FirstFullDay(cal: Calendar, lo: int, hi: int)
    requires cal.Valid() && lo < hi
    ensures FullMinutes(cal, lo, hi) == cal.Available(lo * DAY) + FullMinutes(cal, lo + 1, hi)
  {
    DayBounds(lo * DAY, lo);
    FullDay(cal, lo);
    var later := cal.WorkingDays(lo + 1, hi);
    assert (later + 1) * cal.DailyMinutes() == later * cal.DailyMinutes() + cal.DailyMinutes();
  }

  /** A full working day holds the daily minutes, any other day none. */
  lemma FullDay(cal: Calendar, d: int)
    requires cal.Valid()
    ensures cal.Available(d * DAY) == if cal.WorkingDay(d) then cal.DailyMinutes() else 0
  {
    DayBounds(d * DAY, d);
  }

  lemma {:induction false} FullMinutesNotNegative(cal: Calendar, lo: int, hi: int)
    requires cal.Valid()
    ensures 0 <= FullMinutes(cal, lo, hi)
    decreases hi - lo
  {
    if lo < hi {
      FirstFullDay(cal, lo, hi);
      FullMinutesNotNegative(cal, lo + 1, hi);
    }
  }

  /** The search succeeds exactly when the minutes left today, and the full days
      after it inside the span, hold the minutes asked for. */
  lemma {:induction false} SpanSuffices(cal: Calendar, t: int, m: nat, span: nat)
    requires cal.Valid() && 0 < m && 0 < span
    ensures cal.Advance(t, m, span).Some? <==>
      m <= cal.Available(t) + FullMinutes(cal, DayOf(t) + 1, DayOf(t) + span)
    decreases span
  {
    FullMinutesNotNegative(cal, DayOf(t) + 1, DayOf(t) + span);
    if cal.Available(t) < m && 1 < span {
      DayBounds(NextDay(t), DayOf(t) + 1);
      SpanSuffices(cal, NextDay(t), m - cal.Available(t), span - 1);
      FirstFullDay(cal, DayOf(t) + 1, DayOf(t) + span);
    }
  }

  /** Zero minutes only need a day with time left in it. */
  lemma {:induction false} SpanSufficesForNothing(cal: Calendar, t: int, span: nat)
    requires cal.Valid() && 0 < span
    ensures cal.Advance(t, 0, span).Some? <==>
      cal.HasTime(t) || 0 < cal.WorkingDays(DayOf(t) + 1, DayOf(t) + span)
    decreases span
  {
    if !cal.HasTime(t) && 1 < span {
      var next := NextDay(t);
      DayBounds(next, DayOf(t) + 1);
      assert cal.HasTime(next) <==> cal.WorkingDay(DayOf(next));
      SpanSufficesForNothing(cal, next, span - 1);
    }
  }

  lemma {:induction false} WorkedAtMost(cal: Calendar, a: int, b: int)
    requires a <= b
    ensures cal.Worked(a, b) <= b - a
    decreases b - a
  {
    if a < b {
      WorkedAtMost(cal, a + 1, b);
    }
  }

  /** The next whole minute, or the instant itself. */
  function RoundUp(t: int): int { t + (-t) % MINUTE }

  lemma RoundUpAligns(t: int)
    ensures t <= RoundUp(t) < t + MINUTE && RoundUp(t) % MINUTE == 0 && RoundUp(t) <= NextDay(t)
  {
    NextDayIsAligned(t);
    DayBounds(t, DayOf(t));
    assert RoundUp(t) == -((-t) / MINUTE) * MINUTE;
    var minutes, next := -((-t) / MINUTE), NextDay(t) / MINUTE;
    assert NextDay(t) == next * MINUTE;
    assert minutes * MINUTE < t + MINUTE <= (next + 1) * MINUTE;
  }

  /** The whole minutes left today are those worked from the next whole minute on. */
  lemma AvailableIsWorked(cal: Calendar, t: int)
    requires cal.Valid()
    ensures cal.Worked(RoundUp(t), NextDay(t)) == cal.Available(t) * MINUTE
  {
    hide Calendar.Worked, Calendar.InHours, Calendar.Available, Calendar.HasTime, RoundUp, NextDay, DayOf;
    var start, next := RoundUp(t), NextDay(t);
    RoundUpAligns(t);
    RestOfToday(cal, t);
    WorkedSplits(cal, t, start, next);
    WorkedAtMost(cal, t, start);
    if start < next {
      SameDay(t, start);
      RestOfToday(cal, start);
      Multiples(cal.Available(start), cal.Available(t), cal.Worked(t, start));
    } else {
      NothingWorked(cal, start, next);
    }
  }

  lemma SameDay(t: int, x: int)
    requires t <= x < NextDay(t)
    ensures DayOf(x) == DayOf(t) && NextDay(x) == NextDay(t)
  {
    DayBounds(t, DayOf(t));
    DayBounds(x, DayOf(t));
  }

  lemma NothingWorked(cal: Calendar, a: int, b: int)
    requires b <= a
    ensures cal.Worked(a, b) == 0
  {
  }

  lemma Multiples(a: nat, b: nat, rest: nat)
    requires rest < MINUTE && b * MINUTE <= rest + a * MINUTE < (b + 1) * MINUTE
    ensures a == b
  {
  }

  /** The working time of whole days. */
  lemma {:induction false} WorkedDays(cal: Calendar, lo: int, hi: int)
    requires cal.Valid() && lo <= hi
    ensures cal.Worked(lo * DAY, hi * DAY) == FullMinutes(cal, lo, hi) * MINUTE
    decreases hi - lo
  {
    hide Calendar.Worked, Calendar.InHours, Calendar.Available, Calendar.HasTime, FullMinutes, NextDay, DayOf;
    if lo < hi {
      DayStart(lo);
      RestOfToday(cal, lo * DAY);
      FirstFullDay(cal, lo, hi);
      WorkedDays(cal, lo + 1, hi);
      WorkedSplits(cal, lo * DAY, (lo + 1) * DAY, hi * DAY);
    } else {
      NothingWorked(cal, lo * DAY, hi * DAY);
      NoFullDays(cal, lo, hi);
    }
  }

  lemma NoFullDays(cal: Calendar, lo: int, hi: int)
    requires hi <= lo
    ensures FullMinutes(cal, lo, hi) == 0
  {
  }

  lemma DayStart(d: int)
    ensures DayOf(d * DAY) == d && NextDay(d * DAY) == (d + 1) * DAY && (d * DAY) % MINUTE == 0
  {
    DayBounds(d * DAY, d);
    NextDayIsAligned(d * DAY - 1);
    DayBounds(d * DAY - 1, d - 1);
  }

  /** The cut-off is exact: at least one minute is found if and only if that much
      working time lies between the next whole minute and the end of the span. */
  lemma FoundExactly(cal: Calendar, t: int, m: nat, span: nat)
    requires cal.Valid() && 0 < m && 0 < span
    ensures cal.Advance(t, m, span).Some? <==> m * MINUTE <= cal.Worked(RoundUp(t), (DayOf(t) + span) * DAY)
  {
    hide Calendar.Worked, Calendar.Available, Calendar.Advance, FullMinutes, RoundUp;
    var next, end := DayOf(t) + 1, DayOf(t) + span;
    RoundUpAligns(t);
    AvailableIsWorked(cal, t);
    WorkedDays(cal, next, end);
    WorkedSplits(cal, RoundUp(t), next * DAY, end * DAY);
    SpanSuffices(cal, t, m, span);
  }

  /** Zero minutes are found if and only if any working time is left in the span. */
  lemma FoundExactlyForNothing(cal: Calendar, t: int, span: nat)
    requires cal.Valid() && 0 < span
    ensures cal.Advance(t, 0, span).Some? <==> 0 < cal.Worked(t, (DayOf(t) + span) * DAY)
  {
    hide Calendar.Worked, Calendar.Advance;
    var next, end := DayOf(t) + 1, DayOf(t) + span;
    DayBounds(t, DayOf(t));
    WorkedToday(cal, t);
    WorkedDays(cal, next, end);
    WorkedSplits(cal, t, next * DAY, end * DAY);
    SpanSufficesForNothing(cal, t, span);
    FullMinutesPositive(cal, next, end);
  }

  lemma {:induction false} FullMinutesPositive(cal: Calendar, lo: int, hi: int)
    requires cal.Valid()
    ensures 0 < FullMinutes(cal, lo, hi) <==> 0 < cal.WorkingDays(lo, hi)
    decreases hi - lo
  {
    if lo < hi {
      FullMinutesPositive(cal, lo + 1, hi);
      FirstFullDay(cal, lo, hi);
      FullDay(cal, lo);
      FullMinutesNotNegative(cal, lo + 1, hi);
    }
  }

  /** The weekdays the calendar opens on. */
  ghost function Weekdays(cal: Calendar): set<int> { set d | d in cal.days && 0 <= d < 7 }

  /** The number of days from `lo` up to `hi` on an open weekday, holiday or not. */
  ghost function OpenWeekdays(cal: Calendar, lo: int, hi: int): nat
    decreases hi - lo
  {
    if hi <= lo then 0 else (if lo % 7 in cal.days then 1 else 0) + OpenWeekdays(cal, lo + 1, hi)
  }

  /** How many days after day `lo` the weekday `d` comes round. */
  ghost function Distance(d: int, lo: int): int { (d - lo) % 7 }

  ghost function OpenWithin(cal: Calendar, lo: int, n: nat): set<int> {
    set d | d in Weekdays(cal) && Distance(d, lo) < n
  }

  /** The distance to a weekday shrinks by one with every day, until that day. */
  lemma DistanceStep(d: int, lo: int)
    requires 0 <= d < 7
    ensures Distance(d, lo) == if d == lo % 7 then 0 else Distance(d, lo + 1) + 1
    ensures d == lo % 7 ==> Distance(d, lo + 1) == 6
  {
    var q, r := lo / 7, lo % 7;
    assert d - lo == (d - r) + 7 * -q;
    assert d - (lo + 1) == (d - r - 1) + 7 * -q;
  }

  lemma {:induction false} OpenWithinWeek(cal: Calendar, lo: int, n: nat)
    requires n <= 7
    ensures OpenWeekdays(cal, lo, lo + n) == |OpenWithin(cal, lo, n)|
    decreases n
  {
    if 0 < n {
      OpenWithinWeek(cal, lo + 1, n - 1);
      OpenWithinStep(cal, lo, n);
    } else {
      assert OpenWithin(cal, lo, n) == {};
    }
  }

  lemma OpenWithinStep(cal: Calendar, lo: int, n: nat)
    requires 0 < n <= 7
    ensures lo % 7 !in OpenWithin(cal, lo + 1, n - 1)
    ensures OpenWithin(cal, lo, n) ==
      (if lo % 7 in cal.days then {lo % 7} else {}) + OpenWithin(cal, lo + 1, n - 1)
  {
    forall d | 0 <= d < 7
      ensures Distance(d, lo) == if d == lo % 7 then 0 else Distance(d, lo + 1) + 1
      ensures d == lo % 7 ==> Distance(d, lo + 1) == 6
    {
      DistanceStep(d, lo);
    }
  }

  lemma {:induction false} OpenWeekdaysSplit(cal: Calendar, lo: int, mid: int, hi: int)
    requires lo <= mid <= hi
    ensures OpenWeekdays(cal, lo, hi) == OpenWeekdays(cal, lo, mid) + OpenWeekdays(cal, mid, hi)
    decreases mid - lo
  {
    if lo < mid {
      OpenWeekdaysSplit(cal, lo + 1, mid, hi);
    }
  }

  lemma WholeWeek(cal: Calendar, lo: int)
    ensures OpenWithin(cal, lo, 7) == Weekdays(cal)
  {
  }

  /** Every full week holds each open weekday once. */
  lemma {:induction false} WeeksHold(cal: Calendar, lo: int, weeks: nat)
    ensures OpenWeekdays(cal, lo, lo + 7 * weeks) == weeks * |Weekdays(cal)|
    decreases weeks
  {
    if 0 < weeks {
      WeeksHold(cal, lo + 7, weeks - 1);
      WeekMore(cal, lo, weeks - 1);
    }
  }

  lemma WeekMore(cal: Calendar, lo: int, weeks: nat)
    requires OpenWeekdays(cal, lo + 7, lo + 7 + 7 * weeks) == weeks * |Weekdays(cal)|
    ensures OpenWeekdays(cal, lo, lo + 7 * (weeks + 1)) == (weeks + 1) * |Weekdays(cal)|
  {
    hide OpenWithin, Weekdays, OpenWeekdays;
    OpenWithinWeek(cal, lo, 7);
    WholeWeek(cal, lo);
    OpenWeekdaysSplit(cal, lo, lo + 7, lo + 7 * (weeks + 1));
  }

  ghost function HolidaysWithin(cal: Calendar, lo: int, hi: int): set<int> {
    set d | d in cal.holidays && lo <= d < hi
  }

  /** Holidays remove at most themselves. */
  lemma {:induction false} HolidaysRemove(cal: Calendar, lo: int, hi: int)
    requires cal.start.Offset() < cal.end.Offset()
    ensures OpenWeekdays(cal, lo, hi) <= cal.WorkingDays(lo, hi) + |HolidaysWithin(cal, lo, hi)|
    decreases hi - lo
  {
    if lo < hi {
      HolidaysRemove(cal, lo + 1, hi);
      var rest := HolidaysWithin(cal, lo + 1, hi);
      if lo in cal.holidays {
        assert HolidaysWithin(cal, lo, hi) == {lo} + rest;
      } else {
        assert HolidaysWithin(cal, lo, hi) == rest;
      }
    }
  }

  ghost function OpenHolidays(cal: Calendar, lo: int, hi: int): set<int> {
    set d | d in cal.holidays && lo <= d < hi && d % 7 in cal.days
  }

  /** Working days are counted exactly: the open weekdays less the holidays among
      them. */
  lemma {:induction false} WorkingDaysExactly(cal: Calendar, lo: int, hi: int)
    requires cal.start.Offset() < cal.end.Offset()
    ensures cal.WorkingDays(lo, hi) == OpenWeekdays(cal, lo, hi) - |OpenHolidays(cal, lo, hi)|
    decreases hi - lo
  {
    if lo < hi {
      WorkingDaysExactly(cal, lo + 1, hi);
      var rest := OpenHolidays(cal, lo + 1, hi);
      if lo in cal.holidays && lo % 7 in cal.days {
        assert OpenHolidays(cal, lo, hi) == {lo} + rest;
      } else {
        assert OpenHolidays(cal, lo, hi) == rest;
      }
    } else {
      assert OpenHolidays(cal, lo, hi) == {};
    }
  }

  lemma {:induction false} SubsetNotLarger<T>(a: set<T>, b: set<T>)
    requires a <= b
    ensures |a| <= |b|
    decreases a
  {
    if a != {} {
      var x :| x in a;
      SubsetNotLarger(a - {x}, b - {x});
    }
  }

  /** The working days among the days after the first of the horizon. */
  lemma WorkingDaysInHorizon(cal: Calendar, d: int)
    requires cal.start.Offset() < cal.end.Offset()
    ensures 528 * |Weekdays(cal)| - |cal.holidays| <= cal.WorkingDays(d + 1, d + HORIZON)
  {
    WeeksHold(cal, d + 1, 528);
    OpenWeekdaysSplit(cal, d + 1, d + 1 + 7 * 528, d + HORIZON);
    HolidaysRemove(cal, d + 1, d + HORIZON);
    SubsetNotLarger(HolidaysWithin(cal, d + 1, d + HORIZON), cal.holidays);
  }

  /** The cut-off is generous: with `w` working weekdays, a daily window of `L`
      minutes and `H` holidays, no start is refused `(528 w - H) L` minutes. */
  lemma HorizonIsGenerous(cal: Calendar, t: int, m: nat)
    requires cal.Valid() && cal.start.Offset() < cal.end.Offset() && 0 < m
    requires m <= (528 * |Weekdays(cal)| - |cal.holidays|) * cal.DailyMinutes()
    ensures cal.Advance(t, m, HORIZON).Some?
  {
    WorkingDaysInHorizon(cal, DayOf(t));
    Scale(528 * |Weekdays(cal)| - |cal.holidays|,
          cal.WorkingDays(DayOf(t) + 1, DayOf(t) + HORIZON), cal.DailyMinutes());
    SpanSuffices(cal, t, m, HORIZON);
  }

  lemma Scale(a: int, b: int, c: int)
    requires a <= b && 0 <= c
    ensures a * c <= b * c
  {
  }

  // ---------------------------------------------------------------- the program

  datatype Outcome = Due(at: int) | NoUsableTime | MalformedHours

  /** What the program promises about the instant it finds for `m` minutes, in terms of
      counted working time alone: the right instant, within 3700 days, or a refusal
      only when those days do not hold the minutes. */
  ghost predicate MeetsPromise(cal: Calendar, start: int, m: nat, found: Option<int>) {
    && (found.Some? ==>
          && start <= found.value && cal.InWindow(found.value)
          && m * MINUTE <= cal.Worked(start, found.value) < (m + 1) * MINUTE
          && (start % MINUTE == 0 ==> cal.Worked(start, found.value) == m * MINUTE)
          && (if m == 0 then cal.InHours(found.value) else cal.InHours(found.value - 1)))
    && var limit := (start / DAY + 3700) * DAY;
       found.Some? <==> if m == 0 then 0 < cal.Worked(start, limit) else m * MINUTE <= cal.Worked(RoundUp(start), limit)
  }

  lemma PromiseMet(cal: Calendar, start: int, m: nat)
    requires cal.Valid()
    ensures MeetsPromise(cal, start, m, cal.Advance(start, m, HORIZON))
  {
    hide Calendar.Worked, Calendar.Advance, RoundUp;
    if cal.Advance(start, m, HORIZON).Some? {
      WorkConserved(cal, start, m, HORIZON);
    }
    if 0 < m {
      FoundExactly(cal, start, m, HORIZON);
    } else {
      FoundExactlyForNothing(cal, start, HORIZON);
    }
  }

  /** A calendar setting: closed hours, or none at all. */
  datatype Schedule = AlwaysOpen | Weekly(calendar: Calendar)

  /** The instant `minutes` operational minutes after `start`; a negative count
      only moves the clock back when no hours are closed. */
  function Reached(start: int, minutes: int, schedule: Schedule): Outcome {
    match schedule
    case AlwaysOpen => Due(start + minutes * MINUTE)
    case Weekly(cal) =>
      if !cal.Valid() then MalformedHours
      else match cal.Advance(start, Max(0, minutes), HORIZON)
        case Some(at) => Due(at)
        case None => NoUsableTime
  }

  /** One round of the search. */
  lemma OneDay(cal: Calendar, t: int, m: nat, span: nat)
    requires 0 < span
    ensures cal.Advance(t, m, span) ==
      if cal.HasTime(t) && m <= cal.Available(t) then Some(cal.Resume(t) + m * MINUTE)
      else cal.Advance(NextDay(t), m - Min(cal.Available(t), m), span - 1)
  {
  }

  lemma NoDay(cal: Calendar, t: int, m: nat)
    ensures cal.Advance(t, m, 0).None?
  {
  }

  /** Adds operational minutes to an instant, day by day. */
  method AddOperationalMinutes(start: int, minutes: int, schedule: Schedule) returns (r: Outcome)
    ensures r == Reached(start, minutes, schedule)
    ensures schedule.AlwaysOpen? ==> r == Due(start + 60_000_000 * minutes)
    ensures schedule.Weekly? ==>
      var from, to := schedule.calendar.start, schedule.calendar.end;
      r.MalformedHours? <==>
        !(0 <= from.hour < 24 && 0 <= from.minute < 60 && 0 <= to.hour < 24 && 0 <= to.minute < 60)
    ensures schedule.Weekly? && !r.MalformedHours? ==>
      MeetsPromise(schedule.calendar, start, if minutes < 0 then 0 else minutes, if r.Due? then Some(r.at) else None)
  {
    hide Calendar.Worked, Calendar.InWindow, Calendar.Advance, MeetsPromise;
    if schedule.AlwaysOpen? {
      return Due(start + minutes * MINUTE);
    }
    var cal := schedule.calendar;
    if !cal.Valid() {
      return MalformedHours;
    }
    var current, remaining := start, Max(0, minutes);
    PromiseMet(cal, start, remaining);
    ghost var answer := cal.Advance(start, remaining, HORIZON);
    for i := 0 to HORIZON
      invariant 0 <= remaining
      invariant answer == cal.Advance(current, remaining, HORIZON - i)
    {
      OneDay(cal, current, remaining, HORIZON - i);
      var day := DayOf(current);
      var working := day % 7 in cal.days && day !in cal.holidays;
      var opening, closing := cal.Opening(day), cal.Closing(day);
      if working && opening < closing {
        if current < opening {
          current := opening;
        }
        if current < closing {
          var available := (closing - current) / MINUTE;
          if remaining <= available {
            return Due(current + remaining * MINUTE);
          }
          remaining := remaining - available;
        }
      }
      current := (day + 1) * DAY;
    }
    NoDay(cal, current, remaining);
    r := NoUsableTime;
  }

  /** Due instants never move back when the start is later or the minutes more;
      and minutes that are found leave every smaller number findable. */
  lemma DueIsMonotone(s: int, t: int, m: int, n: int, schedule: Schedule)
    requires s <= t && m <= n && Reached(t, n, schedule).Due?
    ensures Reached(t, m, schedule).Due?
    ensures Reached(s, m, schedule).Due? ==> Reached(s, m, schedule).at <= Reached(t, n, schedule).at
  {
    if schedule.Weekly? {
      var cal := schedule.calendar;
      MoreMinutesLater(cal, t, Max(0, m), Max(0, n), HORIZON);
      if Reached(s, m, schedule).Due? {
        LaterStartLater(cal, s, t, Max(0, m), HORIZON, HORIZON);
      }
    }
  }
}
