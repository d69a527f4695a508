/** Remediation actions on endpoints: staff request them, requesters approve or
    decline them, agents poll for them and report results, and a recovery sweep
    fails or revives deliveries that went quiet.

    The table is a sequence of rows and a row's index is its id; rows are never
    removed.  Every request is one atomic step at one clock reading. */
module EndpointActions {
  import opened Wrappers
  import opened Text

  const SECOND: int := 1_000_000
  const MAX_ATTEMPTS: nat := 5
  const STALE: int := 60 * SECOND
  const NO_RESPONSE: int := 180 * SECOND

  datatype Role = EndUser | Technician | TeamLead | Manager | Admin | Auditor

  datatype User = User(id: int, role: Role)

  datatype Kind = TerminateProcess | RestartService

  datatype Status = Pending | Approved | Dispatched | Completed | Failed | Declined

  datatype Action = Action(agent: int, ticket: int, kind: Kind, target: string, status: Status, requestedBy: int,
                           approvedBy: Option<int>, approvedAt: Option<int>, dispatchedAt: Option<int>,
                           completedAt: Option<int>, autoApproved: bool, retryCount: nat)
  {
    /** Still pending or executing. */
    predicate Open() { status in {Pending, Approved, Dispatched} }

    /** Approved and not yet finished. */
    predicate Live() { status in {Approved, Dispatched} }

    predicate Finished() { status in {Completed, Failed, Declined} }

    predicate SameRequest(a: int, t: int, k: Kind, text: string) {
      agent == a && ticket == t && kind == k && Lower(target) == Lower(text)
    }

    predicate DispatchedBefore(instant: int) { dispatchedAt.Some? && dispatchedAt.value < instant }

    predicate ApprovedBefore(other: Action) {
      approvedAt.Some? && other.approvedAt.Some? && approvedAt.value < other.approvedAt.value
    }
  }

  /** What is known of a ticket when staff act on it. */
  datatype TicketView = TicketView(id: int, assignee: Option<int>, open: bool)

  /** The rows a sweep looks at: one agent's, one ticket's, or all. */
  datatype Scope = Scope(agent: Option<int>, ticket: Option<int>) {
    predicate Covers(row: Action) {
      && (agent.None? || agent.value == row.agent)
      && (ticket.None? || ticket.value == row.ticket)
    }
  }

  datatype Reply = Accepted | AlreadyRecorded | NotFound | Conflict

  // ---------------------------------------------------------------- single rows

  /** First pass of a sweep: a delivery without any answer has failed. */
  function FailUnresponsive(row: Action, now: int, scope: Scope): Action {
    if scope.Covers(row) && row.status == Approved && row.DispatchedBefore(now - NO_RESPONSE)
    then row.(status := Failed, completedAt := Some(now))
    else row
  }

  predicate IsStale(row: Action, now: int, scope: Scope) {
    && scope.Covers(row)
    && (row.status == Dispatched || (row.status == Approved && MAX_ATTEMPTS <= row.retryCount))
    && row.DispatchedBefore(now - STALE)
  }

  /** Second pass: a stale legacy delivery is queued again while attempts remain. */
  function ReviveStale(row: Action, now: int, scope: Scope): Action {
    if !IsStale(row, now, scope) then row
    else if row.status == Dispatched && row.retryCount < MAX_ATTEMPTS
    then row.(status := Approved, retryCount := row.retryCount + 1)
    else row.(status := Failed, completedAt := Some(now))
  }

  function Swept(row: Action, now: int, scope: Scope): Action {
    ReviveStale(FailUnresponsive(row, now, scope), now, scope)
  }

  function SweptTable(rows: seq<Action>, now: int, scope: Scope): (r: seq<Action>)
    ensures |r| == |rows|
  {
    seq(|rows|, i requires 0 <= i < |rows| => Swept(rows[i], now, scope))
  }

  // ---------------------------------------------------------------- guards

  predicate StaffMayAct(requesters: map<int, int>, actor: User, ticket: TicketView) {
    && ticket.id in requesters
    && actor.role != EndUser
    && (ticket.assignee == Some(actor.id) || actor.role in {TeamLead, Manager, Admin})
  }

  predicate HasOpenTwin(rows: seq<Action>, agent: int, ticket: int, kind: Kind, target: string) {
    exists i | 0 <= i < |rows| :: rows[i].Open() && rows[i].SameRequest(agent, ticket, kind, target)
  }

  function RequestReply(requesters: map<int, int>, rows: seq<Action>, actor: User, ticket: TicketView,
                        agent: Option<int>, kind: Kind, target: string): Reply {
    if !StaffMayAct(requesters, actor, ticket) then NotFound
    else if !ticket.open || agent.None? then Conflict
    else if HasOpenTwin(rows, agent.value, ticket.id, kind, target) then Conflict
    else Accepted
  }

  function DecisionReply(requesters: map<int, int>, rows: seq<Action>, actor: int, ticket: int, id: nat): Reply {
    if !(ticket in requesters && id < |rows| && rows[id].ticket == ticket && actor == requesters[ticket]) then NotFound
    else if rows[id].status != Pending then Conflict
    else Accepted
  }

  function ReportReply(rows: seq<Action>, agent: int, id: nat): Reply {
    if !(id < |rows| && rows[id].agent == agent) then NotFound
    else if rows[id].status in {Completed, Failed} then AlreadyRecorded
    else if !rows[id].Live() then Conflict
    else Accepted
  }

  predicate Deliverable(rows: seq<Action>, agent: int, i: nat) {
    i < |rows| && rows[i].agent == agent && rows[i].status == Approved && rows[i].retryCount < MAX_ATTEMPTS
  }

  /** Row `i` may be handed out next: nothing deliverable was approved earlier. */
  ghost predicate NextUp(rows: seq<Action>, agent: int, i: nat) {
    && Deliverable(rows, agent, i)
    && forall j: nat | Deliverable(rows, agent, j) :: !rows[j].ApprovedBefore(rows[i])
  }

  // ---------------------------------------------------------------- steps

  datatype Step =
    | Request(actor: User, ticket: TicketView, agent: Option<int>, kind: Kind, target: string)
    | AutoClose(actor: User, ticket: TicketView, agent: Option<int>, target: string)
    | Decide(user: int, ticketId: int, id: nat, approve: bool)
    | Poll(poller: int)
    | Report(reporter: int, id: nat, succeeded: bool)
    | Sweep(scope: Scope)

  function NewAction(agent: int, ticket: int, kind: Kind, target: string, actor: int): Action {
    Action(agent, ticket, kind, target, Pending, actor, None, None, None, None, false, 0)
  }

  function NewAutoAction(agent: int, ticket: int, target: string, actor: int, now: int): Action {
    Action(agent, ticket, TerminateProcess, target, Approved, actor, Some(actor), Some(now), None, None, true, 0)
  }

  function Decided(row: Action, actor: int, approve: bool, now: int): Action {
    row.(status := if approve then Approved else Declined, approvedBy := Some(actor), approvedAt := Some(now))
  }

  function Delivered(row: Action, now: int): Action {
    row.(dispatchedAt := Some(now), retryCount := row.retryCount + 1)
  }

  function Reported(row: Action, succeeded: bool, now: int): Action {
    row.(status := if succeeded then Completed else Failed, completedAt := Some(now))
  }

  /** One request: `out` is the row a poll hands out. */
  ghost predicate Next(requesters: map<int, int>, rows: seq<Action>, now: int, step: Step, rows': seq<Action>,
                       out: Option<nat>) {
    match step
    case Request(actor, ticket, agent, kind, target) =>
      && out.None?
      && rows' == if RequestReply(requesters, rows, actor, ticket, agent, kind, target) == Accepted
                  then rows + [NewAction(agent.value, ticket.id, kind, target, actor.id)] else rows
    case AutoClose(actor, ticket, agent, target) =>
      && out.None?
      && rows' == if RequestReply(requesters, rows, actor, ticket, agent, TerminateProcess, target) == Accepted
                  then rows + [NewAutoAction(agent.value, ticket.id, target, actor.id, now)] else rows
    case Decide(user, ticketId, id, approve) =>
      && out.None?
      && rows' == if DecisionReply(requesters, rows, user, ticketId, id) == Accepted
                  then rows[id := Decided(rows[id], user, approve, now)] else rows
    case Poll(agent) =>
      var swept := SweptTable(rows, now, Scope(Some(agent), None));
      (match out
       case None => rows' == swept && forall i: nat :: !Deliverable(swept, agent, i)
       case Some(i) => NextUp(swept, agent, i) && rows' == swept[i := Delivered(swept[i], now)])
    case Report(agent, id, succeeded) =>
      && out.None?
      && rows' == if ReportReply(rows, agent, id) == Accepted
                  then rows[id := Reported(rows[id], succeeded, now)] else rows
    case Sweep(scope) =>
      out.None? && rows' == SweptTable(rows, now, scope)
  }

  /** The table and the requests that change it. */
  class ActionTable {
    const requesters: map<int, int>
    var rows: seq<Action>

    constructor (requesters: map<int, int>, legacy: seq<Action>)
      ensures this.requesters == requesters && rows == legacy
    {
      this.requesters := requesters;
      rows := legacy;
    }

    method RequestAction(actor: User, ticket: TicketView, agent: Option<int>, kind: Kind, target: string, now: int)
      returns (reply: Reply)
      modifies this
      ensures Next(requesters, old(rows), now, Request(actor, ticket, agent, kind, target), rows, None)
      ensures reply == RequestReply(requesters, old(rows), actor, ticket, agent, kind, target)
    {
      if !StaffMayAct(requesters, actor, ticket) {
        return NotFound;
      }
      if !ticket.open || agent.None? || HasOpenTwin(rows, agent.value, ticket.id, kind, target) {
        return Conflict;
      }
      rows := rows + [NewAction(agent.value, ticket.id, kind, target, actor.id)];
      reply := Accepted;
    }

    method AutoCloseApplication(actor: User, ticket: TicketView, agent: Option<int>, target: string, now: int)
      returns (reply: Reply)
      modifies this
      ensures Next(requesters, old(rows), now, AutoClose(actor, ticket, agent, target), rows, None)
      ensures reply == RequestReply(requesters, old(rows), actor, ticket, agent, TerminateProcess, target)
    {
      if !StaffMayAct(requesters, actor, ticket) {
        return NotFound;
      }
      if !ticket.open || agent.None? || HasOpenTwin(rows, agent.value, ticket.id, TerminateProcess, target) {
        return Conflict;
      }
      rows := rows + [NewAutoAction(agent.value, ticket.id, target, actor.id, now)];
      reply := Accepted;
    }

    method DecideAction(user: int, ticketId: int, id: nat, approve: bool, now: int) returns (reply: Reply)
      modifies this
      ensures Next(requesters, old(rows), now, Decide(user, ticketId, id, approve), rows, None)
      ensures reply == DecisionReply(requesters, old(rows), user, ticketId, id)
    {
      reply := DecisionReply(requesters, rows, user, ticketId, id);
      if reply == Accepted {
        rows := rows[id := Decided(rows[id], user, approve, now)];
      }
    }

    method ReportResult(agent: int, id: nat, succeeded: bool, now: int) returns (reply: Reply)
      modifies this
      ensures Next(requesters, old(rows), now, Report(agent, id, succeeded), rows, None)
      ensures reply == ReportReply(old(rows), agent, id)
    {
      reply := ReportReply(rows, agent, id);
      if reply == Accepted {
        rows := rows[id := Reported(rows[id], succeeded, now)];
      }
    }

    method RecoverStale(scope: Scope, now: int)
      modifies this
      ensures Next(requesters, old(rows), now, Sweep(scope), rows, None)
    {
      var i := 0;
      while i < |rows|
        invariant i <= |rows| == |old(rows)|
        invariant forall j | 0 <= j < |rows| ::
          rows[j] == if j < i then FailUnresponsive(old(rows)[j], now, scope) else old(rows)[j]
      {
        if scope.Covers(rows[i]) && rows[i].status == Approved && rows[i].DispatchedBefore(now - NO_RESPONSE) {
          rows := rows[i := rows[i].(status := Failed, completedAt := Some(now))];
        }
        i := i + 1;
      }
      i := 0;
      while i < |rows|
        invariant i <= |rows| == |old(rows)|
        invariant forall j | 0 <= j < |rows| ::
          rows[j] == if j < i then Swept(old(rows)[j], now, scope) else FailUnresponsive(old(rows)[j], now, scope)
      {
        var row := rows[i];
        if IsStale(row, now, scope) {
          if row.status == Dispatched && row.retryCount < MAX_ATTEMPTS {
            rows := rows[i := row.(status := Approved, retryCount := row.retryCount + 1)];
          } else {
            rows := rows[i := row.(status := Failed, completedAt := Some(now))];
          }
        }
        i := i + 1;
      }
    }

    method PollNext(agent: int, now: int) returns (out: Option<nat>)
      modifies this
      ensures Next(requesters, old(rows), now, Poll(agent), rows, out)
    {
      RecoverStale(Scope(Some(agent), None), now);
      ghost var swept := rows;
      out := None;
      var i := 0;
      while i < |rows|
        invariant i <= |rows| && rows == swept
        invariant out.None? ==> forall j: nat | j < i :: !Deliverable(rows, agent, j)
        invariant out.Some? ==>
          && out.value < i && Deliverable(rows, agent, out.value)
          && forall j: nat | j < i && Deliverable(rows, agent, j) :: !rows[j].ApprovedBefore(rows[out.value])
      {
        if Deliverable(rows, agent, i) && (out.None? || rows[i].ApprovedBefore(rows[out.value])) {
          out := Some(i);
        }
        i := i + 1;
      }
      if out.Some? {
        rows := rows[out.value := Delivered(rows[out.value], now)];
      }
    }
  }
}
