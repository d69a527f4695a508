/** Pausing and resuming the service-level clock of a ticket.

    A pause moves both due dates by wall-clock time when it ends, not by working
    time, so nothing here depends on the operational calendar.  Instants are
    microseconds. */
module SlaPause {
  import opened Wrappers
  import opened Text

  const MINUTE: int := 60_000_000

  datatype PauseEvent = PauseEvent(startedAt: int, status: string, endedAt: Option<int>)

  /** The part of a ticket the transition reads and writes. */
  datatype Clock = Clock(firstDue: int, resolutionDue: int, pausedAt: Option<int>, pausedMinutes: int,
                         events: seq<PauseEvent>)

  datatype PausePolicy = PausePolicy(key: string, pauseStatuses: seq<string>)

  const DEFAULT_PAUSES: seq<string> := ["On Hold", "Waiting on User", "Waiting on Vendor", "Waiting on Approval"]

  function FindPolicy(policies: seq<PausePolicy>, key: string): Option<PausePolicy> {
    if policies == [] then None
    else if policies[0].key == key then Some(policies[0])
    else FindPolicy(policies[1..], key)
  }

  function AllPauses(policies: seq<PausePolicy>): seq<string> {
    if policies == [] then [] else policies[0].pauseStatuses + AllPauses(policies[1..])
  }

  /** The statuses that pause a ticket: its policy's own, else every policy's, else the
      defaults. */
  function PauseNames(policies: seq<PausePolicy>, key: string): seq<string> {
    var policy := FindPolicy(policies, key);
    var own := if policy.Some? then policy.value.pauseStatuses else [];
    var configured := if own != [] then own else AllPauses(policies);
    if configured != [] then configured else DEFAULT_PAUSES
  }

  /** The same in lower case. */
  function PausedStatuses(policies: seq<PausePolicy>, key: string): set<string> {
    set name | name in PauseNames(policies, key) :: Lower(name)
  }

  /** One status change: the statuses that pause at that moment, the new status,
      and the clock readings taken for the duration and for the event's end. */
  datatype Change = Change(paused: set<string>, next: string, now: int, end: int)

  /** The change to a status under the policies configured at that moment. */
  function ChangeTo(policies: seq<PausePolicy>, key: string, next: string, now: int, end: int): Change {
    Change(PausedStatuses(policies, key), next, now, end)
  }

  predicate Pauses(c: Change, status: string) { Lower(status) in c.paused }

  function Elapsed(start: int, now: int): int { if start <= now then now - start else 0 }

  /** The clock after a status change, or `None` where looking up the last pause
      event would fail. */
  function Transition(clock: Clock, previous: string, c: Change): Option<Clock> {
    if Pauses(c, c.next) && !Pauses(c, previous) && clock.pausedAt.None? then
      Some(clock.(pausedAt := Some(c.now), events := clock.events + [PauseEvent(c.now, c.next, None)]))
    else if Pauses(c, previous) && !Pauses(c, c.next) && clock.pausedAt.Some? then
      var duration := Elapsed(clock.pausedAt.value, c.now);
      var last := |clock.events| - 1;
      if last < 0 then None
      else Some(Clock(clock.firstDue + duration, clock.resolutionDue + duration, None,
                      clock.pausedMinutes + duration / MINUTE,
                      clock.events[last := clock.events[last].(endedAt := Some(c.end))]))
    else Some(clock)
  }

  class Ticket {
    var status: string
    var policyKey: string
    var firstResponseDue: int
    var resolutionDue: int
    var pausedAt: Option<int>
    var pausedMinutes: int
    var pauseEvents: seq<PauseEvent>

    constructor (status: string, policyKey: string, first: int, resolution: int)
      ensures this.status == status && this.policyKey == policyKey
      ensures State() == Clock(first, resolution, None, 0, [])
    {
      this.status, this.policyKey := status, policyKey;
      firstResponseDue, resolutionDue := first, resolution;
      pausedAt, pausedMinutes, pauseEvents := None, 0, [];
    }

    function State(): Clock
      reads this
    {
      Clock(firstResponseDue, resolutionDue, pausedAt, pausedMinutes, pauseEvents)
    }

    /** The status change of a ticket update under the configured policies; the old
        status pauses or resumes. */
    method UpdateStatus(policies: seq<PausePolicy>, next: string, now: int, end: int) returns (ok: bool)
      modifies this
      ensures policyKey == old(policyKey)
      ensures var c := ChangeTo(policies, policyKey, next, now, end);
        && (ok <==> Transition(old(State()), old(status), c).Some?)
        && (ok ==> status == next && Some(State()) == Transition(old(State()), old(status), c))
        && (!ok ==> unchanged(this))
    {
      var c := ChangeTo(policies, policyKey, next, now, end);
      var wasPaused, isPaused := Pauses(c, status), Pauses(c, c.next);
      if isPaused && !wasPaused && pausedAt.None? {
        pausedAt := Some(c.now);
        pauseEvents := pauseEvents + [PauseEvent(c.now, c.next, None)];
      } else if wasPaused && !isPaused && pausedAt.Some? {
        if |pauseEvents| == 0 {
          return false;
        }
        var duration := Elapsed(pausedAt.value, c.now);
        firstResponseDue := firstResponseDue + duration;
        resolutionDue := resolutionDue + duration;
        pausedMinutes := pausedMinutes + duration / MINUTE;
        var last := |pauseEvents| - 1;
        pauseEvents := pauseEvents[last := pauseEvents[last].(endedAt := Some(c.end))];
        pausedAt := None;
      }
      status := c.next;
      ok := true;
    }
  }

  // ---------------------------------------------------------------- runs

  datatype Snapshot = Snapshot(status: string, clock: Clock)

  /** The ticket after a run of status changes, or `None` if one of them failed. */
  function After(start: Snapshot, run: seq<Change>): Option<Snapshot>
    decreases |run|
  {
    if run == [] then Some(start)
    else
      var before := After(start, run[..|run| - 1]);
      var c := run[|run| - 1];
      if before.None? then None
      else match Transition(before.value.clock, before.value.status, c)
        case None => None
        case Some(clock) => Some(Snapshot(c.next, clock))
  }

  /** Readings never run backwards, within a change and from one to the next. */
  ghost predicate Timely(run: seq<Change>) {
    && (forall i | 0 <= i < |run| :: run[i].now <= run[i].end)
    && (forall i, j | 0 <= i < j < |run| :: run[i].end <= run[j].now)
  }

  /** A running ticket that was never paused. */
  ghost predicate NeverPaused(s: Snapshot) {
    s.clock.pausedAt.None? && s.clock.events == [] && s.clock.pausedMinutes == 0
  }

  /** The total length of the closed pause events. */
  ghost function ClosedTime(events: seq<PauseEvent>): int {
    if events == [] then 0
    else
      var e := events[|events| - 1];
      ClosedTime(events[..|events| - 1]) + if e.endedAt.Some? then e.endedAt.value - e.startedAt else 0
  }

  ghost function ClosedCount(events: seq<PauseEvent>): nat {
    if events == [] then 0
    else ClosedCount(events[..|events| - 1]) + if events[|events| - 1].endedAt.Some? then 1 else 0
  }

  /** Events are disjoint, in order, over by `now`, and only the last may be open. */
  ghost predicate EventsOk(events: seq<PauseEvent>, now: int) {
    && (forall i | 0 <= i < |events| :: events[i].startedAt <= now)
    && (forall i | 0 <= i < |events| - 1 :: events[i].endedAt.Some?)
    && (forall i | 0 <= i < |events| && events[i].endedAt.Some? ::
          events[i].startedAt <= events[i].endedAt.value <= now)
    && (forall i, j | 0 <= i < j < |events| ::
          events[i].endedAt.Some? && events[i].endedAt.value <= events[j].startedAt)
  }

  /** The pause marker is set exactly while the last event is open. */
  ghost predicate MarkerOk(clock: Clock) {
    && (clock.pausedAt.Some? <==> clock.events != [] && clock.events[|clock.events| - 1].endedAt.None?)
    && (clock.pausedAt.Some? ==> clock.pausedAt.value == clock.events[|clock.events| - 1].startedAt)
  }

  /** The time between the two readings of the changes that ended a pause. */
  ghost function Skew(start: Snapshot, run: seq<Change>): int
    decreases |run|
  {
    if run == [] then 0
    else
      var before := After(start, run[..|run| - 1]);
      var c := run[|run| - 1];
      Skew(start, run[..|run| - 1]) +
      if before.Some? && Resumes(before.value, c) then c.end - c.now else 0
  }

  ghost predicate Resumes(s: Snapshot, c: Change) {
    Pauses(c, s.status) && !Pauses(c, c.next) && s.clock.pausedAt.Some?
  }

  ghost predicate ClockOk(start: Clock, clock: Clock, skew: int, now: int) {
    && EventsOk(clock.events, now) && MarkerOk(clock)
    && clock.firstDue - start.firstDue == clock.resolutionDue - start.resolutionDue
    && clock.firstDue - start.firstDue + skew == ClosedTime(clock.events)
    && MINUTE * clock.pausedMinutes <= clock.firstDue - start.firstDue
    && clock.firstDue - start.firstDue <= MINUTE * clock.pausedMinutes + (MINUTE - 1) * ClosedCount(clock.events)
  }

  lemma EventOpened(events: seq<PauseEvent>, e: PauseEvent, now: int, end: int)
    requires EventsOk(events, now) && (events != [] ==> events[|events| - 1].endedAt.Some?)
    requires e.endedAt.None? && now <= e.startedAt <= end
    ensures EventsOk(events + [e], end)
  {
    hide ClosedTime, ClosedCount;
    var after := events + [e];
    forall i, j | 0 <= i < j < |after|
      ensures after[i].endedAt.Some? && after[i].endedAt.value <= after[j].startedAt
    {
      assert after[i] == events[i];
    }
  }

  lemma OpenAddsNothing(events: seq<PauseEvent>, e: PauseEvent)
    requires e.endedAt.None?
    ensures ClosedTime(events + [e]) == ClosedTime(events) && ClosedCount(events + [e]) == ClosedCount(events)
  {
    assert (events + [e])[..|events|] == events;
  }

  lemma EventClosed(events: seq<PauseEvent>, now: int, end: int)
    requires EventsOk(events, now) && now <= end && events != [] && events[|events| - 1].endedAt.None?
    ensures var last := |events| - 1;
      var after := events[last := events[last].(endedAt := Some(end))];
      && EventsOk(after, end) && ClosedCount(after) == ClosedCount(events) + 1
      && ClosedTime(after) == ClosedTime(events) + end - events[last].startedAt
  {
    var last := |events| - 1;
    assert events[last := events[last].(endedAt := Some(end))][..last] == events[..last];
  }

  lemma TransitionKeepsClock(start: Clock, s: Snapshot, c: Change, skew: int, now: int)
    requires ClockOk(start, s.clock, skew, now) && now <= c.now <= c.end
    ensures Transition(s.clock, s.status, c).Some?
    ensures ClockOk(start, Transition(s.clock, s.status, c).value,
                    skew + (if Resumes(s, c) then c.end - c.now else 0), c.end)
  {
    hide ClosedTime, ClosedCount, Pauses;
    var events := s.clock.events;
    if Resumes(s, c) {
      assert events[|events| - 1].startedAt <= now;
      EventClosed(events, now, c.end);
    } else if Transition(s.clock, s.status, c).value.events != events {
      EventOpened(events, PauseEvent(c.now, c.next, None), now, c.end);
      OpenAddsNothing(events, PauseEvent(c.now, c.next, None));
    }
  }

  /** Pauses conserve the budget.  Over any run of status changes from a ticket
      never paused, looking up the last event never fails, both due dates move
      together by the closed pause time less the skew between readings, and the
      recorded minutes fall short by less than a minute for each closed pause. */
  lemma {:induction false} PausesConserveBudget(start: Snapshot, run: seq<Change>, now: int)
    requires NeverPaused(start) && Timely(run)
    requires forall i | 0 <= i < |run| :: now <= run[i].now
    ensures After(start, run).Some?
    ensures ClockOk(start.clock, After(start, run).value.clock, Skew(start, run),
                    if run == [] then now else run[|run| - 1].end)
    decreases |run|
  {
    if run != [] {
      var prefix, c := run[..|run| - 1], run[|run| - 1];
      PausesConserveBudget(start, prefix, now);
      TransitionKeepsClock(start.clock, After(start, prefix).value, c, Skew(start, prefix),
                           if prefix == [] then now else prefix[|prefix| - 1].end);
    }
  }

  /** With one reading per change nothing is lost between readings. */
  lemma {:induction false} OneReadingNoSkew(start: Snapshot, run: seq<Change>)
    requires forall i | 0 <= i < |run| :: run[i].end == run[i].now
    ensures Skew(start, run) == 0
    decreases |run|
  {
    if run != [] {
      OneReadingNoSkew(start, run[..|run| - 1]);
    }
  }

  /** Change `i` of the run ends a pause. */
  ghost predicate ResumesAt(start: Snapshot, run: seq<Change>, i: nat)
    requires i < |run|
  {
    After(start, run[..i]).Some? && Resumes(After(start, run[..i]).value, run[i])
  }

  /** There is no skew exactly when every change that ends a pause took a single
      reading. */
  lemma {:induction false} NoSkewExactly(start: Snapshot, run: seq<Change>)
    requires forall i | 0 <= i < |run| :: run[i].now <= run[i].end
    ensures 0 <= Skew(start, run)
    ensures Skew(start, run) == 0 <==> forall i | 0 <= i < |run| && ResumesAt(start, run, i) :: run[i].end == run[i].now
    decreases |run|
  {
    hide After, Resumes;
    if run != [] {
      var last := |run| - 1;
      var before := run[..last];
      NoSkewExactly(start, before);
      forall i | 0 <= i < last ensures ResumesAt(start, before, i) <==> ResumesAt(start, run, i) {
        assert before[..i] == run[..i];
      }
      SkewOfLast(start, run);
    }
  }

  lemma SkewOfLast(start: Snapshot, run: seq<Change>)
    requires run != []
    ensures var last := |run| - 1;
      Skew(start, run) ==
        Skew(start, run[..last]) + if ResumesAt(start, run, last) then run[last].end - run[last].now else 0
  {
  }

  // ---------------------------------------------------------------- a fixed pause set

  /** The time the ticket spent in paused statuses between its status changes,
      read off the run alone. */
  ghost function PausedTime(paused: set<string>, run: seq<Change>): int
    decreases |run|
  {
    if |run| <= 1 then 0
    else
      var last := |run| - 1;
      PausedTime(paused, run[..last]) +
      if Lower(run[last - 1].next) in paused then run[last].now - run[last - 1].now else 0
  }

  /** The ticket is marked paused exactly in the paused statuses, and its due date has
      moved by `total`, less the stay that is still open. */
  ghost predicate ShiftOk(firstDue: int, s: Snapshot, paused: set<string>, now: int, total: int) {
    && (s.clock.pausedAt.Some? <==> Lower(s.status) in paused)
    && (s.clock.pausedAt.Some? ==> s.clock.pausedAt.value <= now)
    && s.clock.firstDue - firstDue + (if s.clock.pausedAt.Some? then now - s.clock.pausedAt.value else 0) == total
  }

  lemma TransitionShifts(firstDue: int, s: Snapshot, c: Change, now: int, total: int)
    requires ShiftOk(firstDue, s, c.paused, now, total) && now <= c.now
    requires Transition(s.clock, s.status, c).Some?
    ensures ShiftOk(firstDue, Snapshot(c.next, Transition(s.clock, s.status, c).value), c.paused, c.now,
                    total + if Lower(s.status) in c.paused then c.now - now else 0)
  {
    hide Lower;
  }

  /** While the pause statuses stay the same, the ticket is marked paused exactly
      in those statuses, and the due dates have moved by the time spent in them,
      less the stay that is still open. */
  lemma {:induction false} ShiftIsPausedTime(start: Snapshot, run: seq<Change>, paused: set<string>)
    requires NeverPaused(start) && Timely(run) && run != []
    requires Lower(start.status) !in paused
    requires forall i | 0 <= i < |run| :: run[i].paused == paused
    ensures After(start, run).Some?
    ensures After(start, run).value.status == run[|run| - 1].next
    ensures ShiftOk(start.clock.firstDue, After(start, run).value, paused, run[|run| - 1].now, PausedTime(paused, run))
    decreases |run|
  {
    hide Lower, Transition, ShiftOk, ClockOk;
    var last := |run| - 1;
    PausesConserveBudget(start, run, run[0].now);
    if 0 < last {
      assert run[..last][last - 1] == run[last - 1];
      ShiftIsPausedTime(start, run[..last], paused);
      TransitionShifts(start.clock.firstDue, After(start, run[..last]).value, run[last], run[last - 1].now,
                       PausedTime(paused, run[..last]));
    } else {
      assert After(start, run[..last]) == Some(start);
      NeverShifted(start, paused, run[0].now);
      TransitionShifts(start.clock.firstDue, start, run[last], run[0].now, 0);
    }
  }

  lemma NeverShifted(start: Snapshot, paused: set<string>, now: int)
    requires NeverPaused(start) && Lower(start.status) !in paused
    ensures ShiftOk(start.clock.firstDue, start, paused, now, 0)
  {
  }

  function StatusBefore(initial: string, run: seq<Change>, i: nat): string
    requires i < |run|
  {
    if i == 0 then initial else run[i - 1].next
  }

  /** Change `i` leads from a paused status to a running one. */
  ghost predicate LeavesPause(initial: string, run: seq<Change>, paused: set<string>, i: nat)
    requires i < |run|
  {
    Lower(StatusBefore(initial, run, i)) in paused && Lower(run[i].next) !in paused
  }

  lemma LeavesWhenResumes(start: Snapshot, run: seq<Change>, paused: set<string>, i: nat)
    requires NeverPaused(start) && Timely(run) && i < |run|
    requires Lower(start.status) !in paused
    requires forall j | 0 <= j < |run| :: run[j].paused == paused
    ensures ResumesAt(start, run, i) <==> LeavesPause(start.status, run, paused, i)
  {
    hide Timely, NeverPaused, PausedTime;
    if 0 < i {
      TimelyPrefix(run, i);
      ShiftIsPausedTime(start, run[..i], paused);
    } else {
      NeverMarked(start);
    }
  }

  lemma NeverMarked(start: Snapshot)
    ensures NeverPaused(start) ==> start.clock.pausedAt.None?
  {
  }

  lemma TimelyPrefix(run: seq<Change>, i: nat)
    requires Timely(run) && i <= |run|
    ensures Timely(run[..i])
  {
  }

  /** While the pause statuses stay the same, the due dates move by exactly the closed
      pause time if and only if every change from a paused status to a running one
      took a single reading of the clock. */
  lemma DatesMatchPausesExactly(start: Snapshot, run: seq<Change>, paused: set<string>)
    requires NeverPaused(start) && Timely(run)
    requires Lower(start.status) !in paused
    requires forall i | 0 <= i < |run| :: run[i].paused == paused
    ensures After(start, run).Some?
    ensures var clock := After(start, run).value.clock;
      clock.firstDue - start.clock.firstDue == ClosedTime(clock.events) <==>
        forall i | 0 <= i < |run| && LeavesPause(start.status, run, paused, i) :: run[i].end == run[i].now
  {
    hide After, Skew, ClosedTime, ResumesAt, LeavesPause, NeverPaused, EventsOk, MarkerOk;
    PausesConserveBudget(start, run, if run == [] then 0 else run[0].now);
    NoSkewExactly(start, run);
    forall i | 0 <= i < |run| ensures ResumesAt(start, run, i) <==> LeavesPause(start.status, run, paused, i) {
      LeavesWhenResumes(start, run, paused, i);
    }
  }

  /** A pause and a resume: the due dates fall behind the recorded pause by the time
      between the two readings of the resume. */
  lemma TwoReadingsFallBehind(start: Snapshot, pause: Change, resume: Change)
    requires NeverPaused(start) && pause.now <= pause.end <= resume.now <= resume.end
    requires !Pauses(pause, start.status) && Pauses(pause, pause.next)
    requires resume.paused == pause.paused && !Pauses(resume, resume.next)
    ensures var after := After(start, [pause, resume]);
      && after.Some?
      && after.value.clock.firstDue - start.clock.firstDue == resume.now - pause.now
      && ClosedTime(after.value.clock.events) == resume.end - pause.now
  {
    var run := [pause, resume];
    assert run[..1] == [pause] && [pause][..0] == [];
    assert After(start, [pause]).Some?;
    var e := PauseEvent(pause.now, pause.next, Some(resume.end));
    assert After(start, run).value.clock.events == [e];
    assert [e][..0] == [];
    assert ClosedTime([e]) == resume.end - pause.now;
  }

  // ---------------------------------------------------------------- what is recorded

  /** The stays in paused statuses, read off the statuses and readings of a run: each
      starts where a running status gave way to a paused one, under that status, and ends
      where a running one came back. */
  ghost function Stays(initial: string, paused: set<string>, run: seq<Change>): seq<PauseEvent> {
    if run == [] then []
    else
      var last := |run| - 1;
      StaysWith(Stays(initial, paused, run[..last]), Lower(StatusBefore(initial, run, last)) in paused,
                Lower(run[last].next) in paused, run[last])
  }

  /** The stays after one more change, from and to a paused status or not. */
  ghost function StaysWith(stays: seq<PauseEvent>, wasPaused: bool, isPaused: bool, c: Change): seq<PauseEvent> {
    if isPaused && !wasPaused then stays + [PauseEvent(c.now, c.next, None)]
    else if wasPaused && !isPaused && stays != [] then
      stays[|stays| - 1 := stays[|stays| - 1].(endedAt := Some(c.end))]
    else stays
  }

  lemma TransitionRecords(s: Snapshot, c: Change)
    requires MarkerOk(s.clock) && (s.clock.pausedAt.Some? <==> Lower(s.status) in c.paused)
    requires Transition(s.clock, s.status, c).Some?
    ensures Transition(s.clock, s.status, c).value.events ==
      StaysWith(s.clock.events, Lower(s.status) in c.paused, Lower(c.next) in c.paused, c)
  {
    hide Lower;
  }

  /** While the pause statuses stay the same, the recorded events are the stays in
      them, whatever else changes. */
  lemma {:induction false} EventsAreStays(start: Snapshot, run: seq<Change>, paused: set<string>)
    requires NeverPaused(start) && Timely(run)
    requires Lower(start.status) !in paused
    requires forall i | 0 <= i < |run| :: run[i].paused == paused
    ensures After(start, run).Some? && After(start, run).value.clock.events == Stays(start.status, paused, run)
    decreases |run|
  {
    hide Lower, PausedTime, EventsOk, ClosedTime, ClosedCount, Transition, StaysWith, MarkerOk;
    if run != [] {
      var last := |run| - 1;
      var before := run[..last];
      TimelyPrefix(run, last);
      EventsAreStays(start, before, paused);
      PausesConserveBudget(start, run, run[0].now);
      PausesConserveBudget(start, before, run[0].now);
      if 0 < last {
        ShiftIsPausedTime(start, before, paused);
      } else {
        NeverMarked(start);
      }
      TransitionRecords(After(start, before).value, run[last]);
    }
  }

  /** A change never moves a due date back, however the clock is set: both dates move by
      the time since the pause began when it ends and the clock is past that, and stay
      otherwise. */
  lemma DatesNeverMoveBack(clock: Clock, previous: string, c: Change)
    requires Transition(clock, previous, c).Some?
    ensures var after := Transition(clock, previous, c).value;
      var ends := Lower(previous) in c.paused && Lower(c.next) !in c.paused && clock.pausedAt.Some?;
      var moved := if ends && clock.pausedAt.value < c.now then c.now - clock.pausedAt.value else 0;
      && after.firstDue == clock.firstDue + moved && after.resolutionDue == clock.resolutionDue + moved
  {
  }

  lemma {:induction false} AllPausesAre(policies: seq<PausePolicy>, name: string)
    ensures name in AllPauses(policies) <==> exists i :: 0 <= i < |policies| && name in policies[i].pauseStatuses
  {
    if policies != [] {
      AllPausesAre(policies[1..], name);
      assert policies == [policies[0]] + policies[1..];
      if i :| 0 <= i < |policies[1..]| && name in policies[1..][i].pauseStatuses {
        assert name in policies[i + 1].pauseStatuses;
      }
      if i :| 0 <= i < |policies| && name in policies[i].pauseStatuses {
        assert i == 0 || name in policies[1..][i - 1].pauseStatuses;
      }
    }
  }

  lemma {:induction false} NoNames(policies: seq<PausePolicy>)
    requires AllPauses(policies) == []
    ensures forall i | 0 <= i < |policies| :: policies[i].pauseStatuses == []
  {
    if policies != [] {
      NoNames(policies[1..]);
      assert |policies[0].pauseStatuses + AllPauses(policies[1..])| == 0;
    }
  }

  lemma {:induction false} FirstPolicy(policies: seq<PausePolicy>, key: string)
    ensures match FindPolicy(policies, key)
      case None => forall i | 0 <= i < |policies| :: policies[i].key != key
      case Some(p) => exists i :: 0 <= i < |policies| && policies[i] == p && p.key == key
                                  && forall j | 0 <= j < i :: policies[j].key != key
  {
    if policies != [] && policies[0].key != key {
      FirstPolicy(policies[1..], key);
      if FindPolicy(policies, key).Some? {
        var i :| 0 <= i < |policies[1..]| && policies[1..][i] == FindPolicy(policies, key).value
          && forall j | 0 <= j < i :: policies[1..][j].key != key;
        assert forall j | 0 <= j < i + 1 :: 0 < j ==> policies[j] == policies[1..][j - 1];
        assert policies[i + 1] == policies[1..][i];
      }
    }
  }

  /** Some policy's pause statuses name the status, in any letter case. */
  ghost predicate NamedBy(statuses: seq<string>, status: string) {
    exists name :: name in statuses && Lower(name) == Lower(status)
  }

  /** The first policy with the key, `i`, names its own pause statuses. */
  ghost predicate HasOwn(policies: seq<PausePolicy>, key: string, i: nat) {
    && i < |policies| && policies[i].key == key && policies[i].pauseStatuses != []
    && forall j | 0 <= j < i :: policies[j].key != key
  }

  lemma OwnNames(policies: seq<PausePolicy>, key: string, i: nat)
    requires HasOwn(policies, key, i)
    ensures PauseNames(policies, key) == policies[i].pauseStatuses
  {
    FirstPolicy(policies, key);
  }

  lemma OwnExists(policies: seq<PausePolicy>, key: string)
    requires FindPolicy(policies, key).Some? && FindPolicy(policies, key).value.pauseStatuses != []
    ensures exists i: nat :: HasOwn(policies, key, i)
  {
    FirstPolicy(policies, key);
    var i: nat :| i < |policies| && policies[i] == FindPolicy(policies, key).value && policies[i].key == key
      && forall j | 0 <= j < i :: policies[j].key != key;
    assert HasOwn(policies, key, i);
  }

  lemma OtherNames(policies: seq<PausePolicy>, key: string)
    requires forall i: nat :: !HasOwn(policies, key, i)
    ensures PauseNames(policies, key) == if AllPauses(policies) != [] then AllPauses(policies) else DEFAULT_PAUSES
  {
    if FindPolicy(policies, key).Some? && FindPolicy(policies, key).value.pauseStatuses != [] {
      OwnExists(policies, key);
    }
  }

  lemma NamedInLowerCase(policies: seq<PausePolicy>, key: string, status: string)
    ensures Lower(status) in PausedStatuses(policies, key) <==> NamedBy(PauseNames(policies, key), status)
  {
    hide Lower, PauseNames;
  }

  /** Some policy names pause statuses. */
  ghost predicate AnyNamed(policies: seq<PausePolicy>) {
    exists i :: 0 <= i < |policies| && policies[i].pauseStatuses != []
  }

  lemma AnyIsAll(policies: seq<PausePolicy>)
    ensures AnyNamed(policies) <==> AllPauses(policies) != []
  {
    if AllPauses(policies) == [] {
      NoNames(policies);
    } else {
      AllPausesAre(policies, AllPauses(policies)[0]);
      assert AllPauses(policies)[0] in AllPauses(policies);
    }
  }

  lemma AllNamed(policies: seq<PausePolicy>, status: string)
    ensures NamedBy(AllPauses(policies), status) <==>
      exists i :: 0 <= i < |policies| && NamedBy(policies[i].pauseStatuses, status)
  {
    hide Lower, AllPauses;
    if name :| name in AllPauses(policies) && Lower(name) == Lower(status) {
      AllPausesAre(policies, name);
      var i :| 0 <= i < |policies| && name in policies[i].pauseStatuses;
      assert NamedBy(policies[i].pauseStatuses, status);
    }
    if i :| 0 <= i < |policies| && NamedBy(policies[i].pauseStatuses, status) {
      var name :| name in policies[i].pauseStatuses && Lower(name) == Lower(status);
      AllPausesAre(policies, name);
    }
  }

  /** Which statuses pause a ticket, in any letter case: those its own policy names, or
      else those that any policy names, or else the four waiting statuses. */
  lemma PausedExactly(policies: seq<PausePolicy>, key: string, status: string)
    ensures forall i: nat | HasOwn(policies, key, i) ::
      Lower(status) in PausedStatuses(policies, key) <==> NamedBy(policies[i].pauseStatuses, status)
    ensures (forall i: nat :: !HasOwn(policies, key, i)) && AnyNamed(policies) ==>
      (Lower(status) in PausedStatuses(policies, key) <==>
       exists i :: 0 <= i < |policies| && NamedBy(policies[i].pauseStatuses, status))
    ensures (forall i: nat :: !HasOwn(policies, key, i)) && !AnyNamed(policies) ==>
      (Lower(status) in PausedStatuses(policies, key) <==>
       Lower(status) in {"on hold", "waiting on user", "waiting on vendor", "waiting on approval"})
  {
    hide Lower, PausedStatuses, PauseNames, NamedBy, AnyNamed, AllPauses, DEFAULT_PAUSES;
    NamedInLowerCase(policies, key, status);
    AllNamed(policies, status);
    AnyIsAll(policies);
    DefaultNames(status);
    if i: nat :| HasOwn(policies, key, i) {
      forall k: nat | HasOwn(policies, key, k) ensures PauseNames(policies, key) == policies[k].pauseStatuses {
        OwnNames(policies, key, k);
      }
    } else {
      OtherNames(policies, key);
    }
  }

  lemma DefaultNames(status: string)
    ensures NamedBy(DEFAULT_PAUSES, status) <==>
      Lower(status) in {"on hold", "waiting on user", "waiting on vendor", "waiting on approval"}
  {
    hide Lower;
    DefaultsInLowerCase();
    var lowered := set name | name in DEFAULT_PAUSES :: Lower(name);
    assert Lower(status) in lowered <==> NamedBy(DEFAULT_PAUSES, status);
  }

  lemma DefaultsInLowerCase()
    ensures (set name | name in DEFAULT_PAUSES :: Lower(name)) ==
      {"on hold", "waiting on user", "waiting on vendor", "waiting on approval"}
  {
    hide Lower;
    HoldInLowerCase();
    VendorInLowerCase();
    ApprovalInLowerCase();
  }

  lemma HoldInLowerCase()
    ensures Lower("On Hold") == "on hold" && Lower("Waiting on User") == "waiting on user"
  {
  }

  lemma VendorInLowerCase()
    ensures Lower("Waiting on Vendor") == "waiting on vendor"
  {
  }

  lemma ApprovalInLowerCase()
    ensures Lower("Waiting on Approval") == "waiting on approval"
  {
  }
}
