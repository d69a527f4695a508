/** Why endpoint actions are in the state they are: every change of a row goes back to
    a request that was entitled to make it, and every such request has its effect. */
module EndpointCauses {
  import opened Wrappers
  import opened Text
  import opened EndpointActions
  import opened EndpointSafety

  // ---------------------------------------------------------------- one row swept

  predicate Covered(row: Action, scope: Scope) {
    scope.agent in {None, Some(row.agent)} && scope.ticket in {None, Some(row.ticket)}
  }

  /** The row was last delivered more than so many seconds ago. */
  predicate OlderThan(row: Action, now: int, seconds: int) {
    row.dispatchedAt.Some? && row.dispatchedAt.value + 1_000_000 * seconds < now
  }

  /** A sweep gives up on the row: no answer for three minutes, or none for one minute
      after the fifth attempt. */
  predicate GivenUp(row: Action, now: int, scope: Scope) {
    && Covered(row, scope)
    && ((row.status == Approved && OlderThan(row, now, 180))
        || (row.status in {Approved, Dispatched} && 5 <= row.retryCount && OlderThan(row, now, 60)))
  }

  /** A sweep queues the row again: a legacy delivery of over a minute ago. */
  predicate Requeued(row: Action, now: int, scope: Scope) {
    Covered(row, scope) && row.status == Dispatched && row.retryCount < 5 && OlderThan(row, now, 60)
  }

  /** What the two passes of a sweep do to a row, as one decision. */
  lemma SweptExactly(row: Action, now: int, scope: Scope)
    ensures Swept(row, now, scope) ==
      if GivenUp(row, now, scope) then row.(status := Failed, completedAt := Some(now))
      else if Requeued(row, now, scope) then row.(status := Approved, retryCount := row.retryCount + 1)
      else row
  {
    assert row.DispatchedBefore(now - NO_RESPONSE) <==> OlderThan(row, now, 180);
    assert row.DispatchedBefore(now - STALE) <==> OlderThan(row, now, 60);
    assert scope.Covers(row) <==> Covered(row, scope);
    hide Action.DispatchedBefore, OlderThan, Scope.Covers, Covered;
  }

  // ---------------------------------------------------------------- effects

  /** The staff member may act on the ticket: its technician, or a lead, manager or
      administrator, and never an end user. */
  predicate Entitled(actor: User, ticket: TicketView) {
    actor.role in {TeamLead, Manager, Admin} || (actor.role != EndUser && ticket.assignee == Some(actor.id))
  }

  /** The same request is pending or executing already. */
  ghost predicate Taken(rows: seq<Action>, agent: int, ticket: int, kind: Kind, target: string) {
    exists i :: 0 <= i < |rows| && rows[i].agent == agent && rows[i].ticket == ticket && rows[i].kind == kind
                && Lower(rows[i].target) == Lower(target) && rows[i].status in {Pending, Approved, Dispatched}
  }

  /** A request is granted. */
  ghost predicate Granted(requesters: map<int, int>, rows: seq<Action>, actor: User, ticket: TicketView,
                          agent: Option<int>, kind: Kind, target: string) {
    && ticket.id in requesters && Entitled(actor, ticket) && ticket.open
    && agent.Some? && !Taken(rows, agent.value, ticket.id, kind, target)
  }

  lemma GrantedExactly(requesters: map<int, int>, rows: seq<Action>, actor: User, ticket: TicketView,
                       agent: Option<int>, kind: Kind, target: string)
    ensures RequestReply(requesters, rows, actor, ticket, agent, kind, target) == Accepted <==>
      Granted(requesters, rows, actor, ticket, agent, kind, target)
    ensures RequestReply(requesters, rows, actor, ticket, agent, kind, target) == NotFound <==>
      !(ticket.id in requesters && Entitled(actor, ticket))
  {
    hide Lower;
    if agent.Some? {
      assert HasOpenTwin(rows, agent.value, ticket.id, kind, target) <==>
             Taken(rows, agent.value, ticket.id, kind, target);
    }
  }

  /** A granted request adds a row that waits for the requester's approval, a granted
      closure one that the staff member approved; any other one changes nothing. */
  lemma RequestEffect(requesters: map<int, int>, rows: seq<Action>, now: int, step: Step, rows': seq<Action>,
                      out: Option<nat>)
    requires Next(requesters, rows, now, step, rows', out) && (step.Request? || step.AutoClose?)
    ensures |rows| < |rows'| ==> step.agent.Some?
    ensures step.Request? ==>
      rows' == if Granted(requesters, rows, step.actor, step.ticket, step.agent, step.kind, step.target)
               then rows + [Action(step.agent.value, step.ticket.id, step.kind, step.target, Pending, step.actor.id,
                                   None, None, None, None, false, 0)] else rows
    ensures step.AutoClose? ==>
      rows' == if Granted(requesters, rows, step.actor, step.ticket, step.agent, TerminateProcess, step.target)
               then rows + [Action(step.agent.value, step.ticket.id, TerminateProcess, step.target, Approved,
                                   step.actor.id, Some(step.actor.id), Some(now), None, None, true, 0)] else rows
  {
    hide RequestReply, Granted;
    var kind := if step.Request? then step.kind else TerminateProcess;
    GrantedExactly(requesters, rows, step.actor, step.ticket, step.agent, kind, step.target);
    GrantedHasAgent(requesters, rows, step.actor, step.ticket, step.agent, kind, step.target);
  }

  lemma GrantedHasAgent(requesters: map<int, int>, rows: seq<Action>, actor: User, ticket: TicketView,
                        agent: Option<int>, kind: Kind, target: string)
    ensures Granted(requesters, rows, actor, ticket, agent, kind, target) ==> agent.Some?
  {
  }

  /** The requester's decision on a pending row of the ticket is recorded in that row,
      with who decided and when; any other decision changes nothing. */
  lemma DecisionEffect(requesters: map<int, int>, rows: seq<Action>, now: int, step: Step, rows': seq<Action>,
                       out: Option<nat>)
    requires Next(requesters, rows, now, step, rows', out) && step.Decide?
    ensures
      if step.id < |rows| && rows[step.id].status == Pending && rows[step.id].ticket == step.ticketId
         && step.ticketId in requesters && step.user == requesters[step.ticketId]
      then rows' == rows[step.id := rows[step.id].(status := if step.approve then Approved else Declined,
                                                   approvedBy := Some(step.user), approvedAt := Some(now))]
      else rows' == rows
  {
  }

  /** A result from the row's own agent finishes a live row, completed on success and
      failed otherwise; any other result changes nothing. */
  lemma ResultEffect(requesters: map<int, int>, rows: seq<Action>, now: int, step: Step, rows': seq<Action>,
                     out: Option<nat>)
    requires Next(requesters, rows, now, step, rows', out) && step.Report?
    ensures
      if step.id < |rows| && rows[step.id].agent == step.reporter && rows[step.id].status in {Approved, Dispatched}
      then rows' == rows[step.id := rows[step.id].(status := if step.succeeded then Completed else Failed,
                                                   completedAt := Some(now))]
      else rows' == rows
  {
  }

  /** The row may be handed out. */
  predicate Ready(row: Action, agent: int) {
    row.agent == agent && row.status == Approved && row.retryCount < 5
  }

  /** How decisions and results are answered. */
  lemma RepliesExactly(requesters: map<int, int>, rows: seq<Action>, actor: int, ticket: int, agent: int, id: nat)
    ensures DecisionReply(requesters, rows, actor, ticket, id) == NotFound <==>
      !(ticket in requesters && actor == requesters[ticket] && id < |rows| && rows[id].ticket == ticket)
    ensures DecisionReply(requesters, rows, actor, ticket, id) != NotFound ==>
      DecisionReply(requesters, rows, actor, ticket, id) == if rows[id].status == Pending then Accepted else Conflict
    ensures ReportReply(rows, agent, id) == NotFound <==> !(id < |rows| && rows[id].agent == agent)
    ensures ReportReply(rows, agent, id) != NotFound ==>
      ReportReply(rows, agent, id) ==
        if rows[id].status in {Completed, Failed} then AlreadyRecorded
        else if rows[id].status in {Approved, Dispatched} then Accepted
        else Conflict
  {
  }

  /** A poll hands a row out exactly when, after the sweep of the agent's rows, one is
      approved with attempts left; no ready row was approved before it, its delivery is
      timed and counted, and no other row differs from the swept one. */
  lemma PollEffect(requesters: map<int, int>, rows: seq<Action>, now: int, agent: int, rows': seq<Action>,
                   out: Option<nat>)
    requires Next(requesters, rows, now, Poll(agent), rows', out)
    ensures |rows'| == |rows|
    ensures forall i | 0 <= i < |rows| && out != Some(i) :: rows'[i] == Swept(rows[i], now, Scope(Some(agent), None))
    ensures out.None? <==> forall i | 0 <= i < |rows| :: !Ready(Swept(rows[i], now, Scope(Some(agent), None)), agent)
    ensures out.Some? ==> out.value < |rows|
    ensures out.Some? ==>
      var row := Swept(rows[out.value], now, Scope(Some(agent), None));
      && Ready(row, agent) && rows'[out.value] == row.(dispatchedAt := Some(now), retryCount := row.retryCount + 1)
      && forall j | 0 <= j < |rows| && Ready(Swept(rows[j], now, Scope(Some(agent), None)), agent) ::
           !EarlierApproved(Swept(rows[j], now, Scope(Some(agent), None)), row)
  {
    hide Swept;
    var swept := SweptTable(rows, now, Scope(Some(agent), None));
    assert forall i | 0 <= i < |rows| :: swept[i] == Swept(rows[i], now, Scope(Some(agent), None));
    forall i: nat ensures Deliverable(swept, agent, i) <==> i < |rows| && Ready(swept[i], agent) {
    }
  }

  predicate EarlierApproved(row: Action, other: Action) {
    row.approvedAt.Some? && other.approvedAt.Some? && row.approvedAt.value < other.approvedAt.value
  }

  // ---------------------------------------------------------------- causes

  /** The event made row `i`: a granted request, or a granted closure. */
  ghost predicate Created(requesters: map<int, int>, rows: seq<Action>, e: Event, row: Action) {
    && row.completedAt.None? && row.dispatchedAt.None? && row.retryCount == 0
    && ((e.step.Request? && row.status == Pending
         && Granted(requesters, rows, e.step.actor, e.step.ticket, Some(row.agent), row.kind, row.target)
         && e.step.ticket.id == row.ticket && e.step.actor.id == row.requestedBy)
        || (e.step.AutoClose? && row.status == Approved && row.kind == TerminateProcess && row.autoApproved
            && Granted(requesters, rows, e.step.actor, e.step.ticket, Some(row.agent), TerminateProcess, row.target)
            && e.step.ticket.id == row.ticket && e.step.actor.id == row.requestedBy
            && row.approvedBy == Some(e.step.actor.id) && row.approvedAt == Some(e.now)))
  }

  /** The rows an event sweeps. */
  function SweepOf(step: Step): Option<Scope> {
    match step
    case Poll(agent) => Some(Scope(Some(agent), None))
    case Sweep(scope) => Some(scope)
    case _ => None
  }

  /** The event gave the row its new status, and was entitled to. */
  ghost predicate Caused(requesters: map<int, int>, i: nat, before: Action, e: Event, after: Action) {
    match after.status
    case Pending => false
    case Dispatched => false
    case Approved =>
      || (before.status == Pending && before.ticket in requesters
          && e.step == Decide(requesters[before.ticket], before.ticket, i, true))
      || (SweepOf(e.step).Some? && Requeued(before, e.now, SweepOf(e.step).value))
    case Declined =>
      && before.status == Pending && before.ticket in requesters
      && e.step == Decide(requesters[before.ticket], before.ticket, i, false)
    case Completed =>
      before.status in {Approved, Dispatched} && e.step == Report(before.agent, i, true)
    case Failed =>
      || (before.status in {Approved, Dispatched} && e.step == Report(before.agent, i, false))
      || (SweepOf(e.step).Some? && GivenUp(before, e.now, SweepOf(e.step).value))
  }

  lemma RequestCreates(requesters: map<int, int>, rows: seq<Action>, e: Event, rows': seq<Action>, i: nat)
    requires Next(requesters, rows, e.now, e.step, rows', e.out) && i < |rows'|
    requires e.step.Request? || e.step.AutoClose?
    ensures |rows| <= i ==> Created(requesters, rows, e, rows'[i])
    ensures i < |rows| ==> rows'[i] == rows[i]
  {
    hide Granted, RequestReply, Next;
    RequestEffect(requesters, rows, e.now, e.step, rows', e.out);
  }

  lemma StepCauses(requesters: map<int, int>, rows: seq<Action>, e: Event, rows': seq<Action>, i: nat)
    requires Next(requesters, rows, e.now, e.step, rows', e.out) && i < |rows'|
    ensures |rows| <= i ==> Created(requesters, rows, e, rows'[i])
    ensures i < |rows| && rows'[i].status != rows[i].status ==> Caused(requesters, i, rows[i], e, rows'[i])
  {
    hide Granted, Swept, RequestReply, DecisionReply, ReportReply, GivenUp, Requeued;
    match e.step
    case Request(_, _, _, _, _) => RequestCreates(requesters, rows, e, rows', i);
    case AutoClose(_, _, _, _) => RequestCreates(requesters, rows, e, rows', i);
    case Decide(_, _, _, _) => DecisionEffect(requesters, rows, e.now, e.step, rows', e.out);
    case Report(_, _, _) => ResultEffect(requesters, rows, e.now, e.step, rows', e.out);
    case Poll(agent) =>
      PollEffect(requesters, rows, e.now, agent, rows', e.out);
      SweptExactly(rows[i], e.now, Scope(Some(agent), None));
    case Sweep(scope) => SweptExactly(rows[i], e.now, scope);
  }

  /** Row `i` has its status in table `l` because of event `k`, and has had it since. */
  ghost predicate CausedBy(requesters: map<int, int>, tables: seq<seq<Action>>, events: seq<Event>, k: nat, l: nat,
                           i: nat)
    requires |tables| == |events| + 1 && l < |tables|
  {
    && k < l && i < |tables[k + 1]| && i < |tables[l]| && tables[k + 1][i].status == tables[l][i].status
    && if i < |tables[k]| then
         tables[k][i].status != tables[l][i].status && Caused(requesters, i, tables[k][i], events[k], tables[k + 1][i])
       else Created(requesters, tables[k], events[k], tables[k + 1][i])
  }

  /** Every row of every table of a run has the status it started the run with, or an
      entitled event gave it that status: a completed row was reported as a success by
      its agent while it was live, a failed one as a failure or given up by a sweep past
      a limit, a declined one was declined by the requester, an approved one approved by
      the requester, queued again by a sweep or made by a granted closure, and a pending
      one was requested by entitled staff. */
  lemma {:induction false} EveryStatusHasACause(requesters: map<int, int>, tables: seq<seq<Action>>, events: seq<Event>,
                                                l: nat, i: nat)
    requires Run(requesters, tables, events) && l < |tables| && i < |tables[l]|
    ensures
      || (i < |tables[0]| && tables[0][i].status == tables[l][i].status)
      || exists k: nat :: CausedBy(requesters, tables, events, k, l, i)
    decreases l
  {
    hide Next, Caused, Created;
    if 0 < l {
      var e := events[l - 1];
      StepCauses(requesters, tables[l - 1], e, tables[l], i);
      if |tables[l - 1]| <= i || tables[l - 1][i].status != tables[l][i].status {
        assert CausedBy(requesters, tables, events, l - 1, l, i);
      } else {
        EveryStatusHasACause(requesters, tables, events, l - 1, i);
        var earlier := l - 1;
        if k: nat :| CausedBy(requesters, tables, events, k, earlier, i) {
          assert CausedBy(requesters, tables, events, k, l, i);
        }
      }
    }
  }
}
