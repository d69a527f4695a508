/** The choice of a service-level policy and the two due dates it resolves. */
module SlaPolicy {
  import opened Wrappers
  import opened SlaClock
  import opened Text

  const HOUR: int := 60 * MINUTE

  /** A configured policy.  Absent text is empty, absent minutes are `None`. */
  datatype Policy = Policy(active: bool, priority: string, key: string, calendar: string,
                           response: Option<int>, resolution: Option<int>)

  datatype CalendarEntry = CalendarEntry(key: string, alwaysOpen: bool, hours: Calendar)

  datatype SlaConfig = SlaConfig(policies: seq<Policy>, calendars: seq<CalendarEntry>)

  datatype Resolved =
    | Dates(first: int, resolution: int, policyKey: string)
    | Refused(reason: Outcome)

  /** The hours to respond and to resolve when no policy is configured. */
  function PriorityHours(priority: string): (int, int) {
    if priority == "Critical" then (1, 4)
    else if priority == "High" then (4, 16)
    else if priority == "Low" then (16, 80)
    else (8, 40)
  }

  /** The first active policy for the priority. */
  function FindPolicy(policies: seq<Policy>, priority: string): (r: Option<Policy>)
    ensures r.Some? ==> exists i | 0 <= i < |policies| ::
      && r.value == policies[i] && policies[i].active && policies[i].priority == priority
      && forall j | 0 <= j < i :: !(policies[j].active && policies[j].priority == priority)
    ensures r.None? ==> forall i | 0 <= i < |policies| :: !(policies[i].active && policies[i].priority == priority)
  {
    if policies == [] then None
    else if policies[0].active && policies[0].priority == priority then Some(policies[0])
    else FindPolicy(policies[1..], priority)
  }

  /** The first calendar with the key. */
  function FindCalendar(calendars: seq<CalendarEntry>, key: string): (r: Option<CalendarEntry>)
    ensures r.Some? ==> exists i | 0 <= i < |calendars| ::
      && r.value == calendars[i] && calendars[i].key == key && forall j | 0 <= j < i :: calendars[j].key != key
    ensures r.None? ==> forall i | 0 <= i < |calendars| :: calendars[i].key != key
  {
    if calendars == [] then None
    else if calendars[0].key == key then Some(calendars[0])
    else FindCalendar(calendars[1..], key)
  }

  function ScheduleOf(entry: Option<CalendarEntry>): Schedule {
    match entry
    case None => AlwaysOpen
    case Some(e) => if e.alwaysOpen || e.key == "24x7" then AlwaysOpen else Weekly(e.hours)
  }

  /** The schedule a policy names, falling back to the organisation calendar. */
  function PolicySchedule(policy: Policy, calendars: seq<CalendarEntry>, fallback: Option<CalendarEntry>): Schedule {
    var key := if policy.calendar == "" then "24x7" else policy.calendar;
    var named := FindCalendar(calendars, key);
    ScheduleOf(if named.None? && key != "24x7" then fallback else named)
  }

  function ResponseMinutes(policy: Policy): (r: int)
    ensures policy.response.None? ==> r == 60
    ensures policy.response.Some? ==> r == if policy.response.value < 1 then 1 else policy.response.value
  {
    Max(1, if policy.response.Some? then policy.response.value else 60)
  }

  function ResolutionMinutes(policy: Policy): (r: int)
    ensures 1 <= r && ResponseMinutes(policy) <= r
    ensures var wanted := if policy.resolution.None? then 240 else policy.resolution.value;
      wanted <= r && r in {wanted, ResponseMinutes(policy)}
  {
    Max(ResponseMinutes(policy), if policy.resolution.Some? then policy.resolution.value else 240)
  }

  /** Resolves the due dates of a priority.  Whatever integers are configured, the
      first response is due after the start and no later than the resolution; the
      request is refused exactly when the resolution minutes cannot be found. */
  method ConfiguredSlaDates(config: SlaConfig, fallback: Option<CalendarEntry>, priority: string, start: int)
    returns (r: Resolved)
    ensures r.Dates? ==> start < r.first <= r.resolution
    ensures var policy := FindPolicy(config.policies, priority);
      match policy
      case None =>
        r == Dates(start + PriorityHours(priority).0 * HOUR, start + PriorityHours(priority).1 * HOUR, "legacy-default")
      case Some(p) =>
        var schedule := PolicySchedule(p, config.calendars, fallback);
        && (r.Refused? <==> !Reached(start, ResolutionMinutes(p), schedule).Due?)
        && (r.Refused? ==> r.reason == Reached(start, ResolutionMinutes(p), schedule))
        && (r.Dates? ==>
              && r.policyKey == (if p.key == "" then Lower(priority) else p.key)
              && Due(r.first) == Reached(start, ResponseMinutes(p), schedule)
              && Due(r.resolution) == Reached(start, ResolutionMinutes(p), schedule))
  {
    var policy := FindPolicy(config.policies, priority);
    if policy.None? {
      var (first, resolution) := PriorityHours(priority);
      return Dates(start + first * HOUR, start + resolution * HOUR, "legacy-default");
    }
    var p := policy.value;
    var schedule := PolicySchedule(p, config.calendars, fallback);
    var first := AddOperationalMinutes(start, ResponseMinutes(p), schedule);
    if !first.Due? {
      UnreachableStays(start, ResponseMinutes(p), ResolutionMinutes(p), schedule);
      return Refused(first);
    }
    var resolution := AddOperationalMinutes(start, ResolutionMinutes(p), schedule);
    if !resolution.Due? {
      return Refused(resolution);
    }
    DueIsMonotone(start, start, ResponseMinutes(p), ResolutionMinutes(p), schedule);
    DueAfterStart(start, ResponseMinutes(p), schedule);
    r := Dates(first.at, resolution.at, if p.key == "" then Lower(priority) else p.key);
  }

  lemma UnreachableStays(start: int, m: int, n: int, schedule: Schedule)
    requires m <= n && !Reached(start, m, schedule).Due?
    ensures Reached(start, n, schedule) == Reached(start, m, schedule)
  {
    if Reached(start, n, schedule).Due? {
      DueIsMonotone(start, start, m, n, schedule);
    }
  }

  lemma DueAfterStart(start: int, m: int, schedule: Schedule)
    requires 0 < m && Reached(start, m, schedule).Due?
    ensures start < Reached(start, m, schedule).at
  {
    if schedule.Weekly? {
      WorkConserved(schedule.calendar, start, m, HORIZON);
    }
  }

  /** The hours without a policy: more urgent priorities are due earlier, and a priority
      the program does not know counts as medium. */
  lemma LegacyHours(priority: string)
    ensures PriorityHours("Critical") == (1, 4) && PriorityHours("High") == (4, 16)
    ensures PriorityHours("Medium") == (8, 40) && PriorityHours("Low") == (16, 80)
    ensures priority !in {"Critical", "High", "Medium", "Low"} ==> PriorityHours(priority) == PriorityHours("Medium")
  {
  }

  /** Which hours a policy gets: none closed when it names no calendar or "24x7"; those
      of the first calendar it names, unless that is always open; and the
      organisation's when it names an unknown one. */
  lemma ScheduleChosen(policy: Policy, calendars: seq<CalendarEntry>, fallback: Option<CalendarEntry>, i: nat)
    ensures policy.calendar in {"", "24x7"} ==> PolicySchedule(policy, calendars, fallback).AlwaysOpen?
    ensures
      && policy.calendar !in {"", "24x7"} && i < |calendars| && calendars[i].key == policy.calendar
      && (forall j | 0 <= j < i :: calendars[j].key != policy.calendar) ==>
      PolicySchedule(policy, calendars, fallback) ==
        if calendars[i].alwaysOpen then AlwaysOpen else Weekly(calendars[i].hours)
    ensures
      && policy.calendar !in {"", "24x7"}
      && (forall j | 0 <= j < |calendars| :: calendars[j].key != policy.calendar) ==>
      PolicySchedule(policy, calendars, fallback) ==
        if fallback.None? || fallback.value.alwaysOpen || fallback.value.key == "24x7" then AlwaysOpen
        else Weekly(fallback.value.hours)
  {
  }
}
