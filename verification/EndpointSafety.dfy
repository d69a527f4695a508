/** What every reachable table of endpoint actions keeps, and how soon an
    approved action is delivered. */
module EndpointSafety {
  import opened Wrappers
  import opened Text
  import opened EndpointActions

  // ---------------------------------------------------------------- the invariant

  /** The action was approved by someone entitled to: the requester, or the staff
      member who closed a frozen application. */
  ghost predicate Authorised(requesters: map<int, int>, row: Action) {
    && row.ticket in requesters
    && row.approvedAt.Some?
    && (row.approvedBy == Some(requesters[row.ticket])
        || (row.autoApproved && row.kind == TerminateProcess && row.approvedBy == Some(row.requestedBy)))
  }

  ghost predicate RowOk(requesters: map<int, int>, row: Action) {
    && row.retryCount <= MAX_ATTEMPTS
    && (row.Live() ==> Authorised(requesters, row))
    && (row.status == Pending ==> row.dispatchedAt.None? && row.retryCount == 0)
  }

  ghost predicate Twins(a: Action, b: Action) {
    a.Open() && b.Open() && a.SameRequest(b.agent, b.ticket, b.kind, b.target)
  }

  ghost predicate TableOk(requesters: map<int, int>, rows: seq<Action>) {
    && (forall i | 0 <= i < |rows| :: RowOk(requesters, rows[i]))
    && (forall i, j | 0 <= i < j < |rows| :: !Twins(rows[i], rows[j]))
  }

  /** What any step may do to an existing row. */
  ghost predicate RowEvolves(row: Action, row': Action) {
    && row'.agent == row.agent && row'.ticket == row.ticket && row'.kind == row.kind && row'.target == row.target
    && row'.requestedBy == row.requestedBy && row'.autoApproved == row.autoApproved
    && row.retryCount <= row'.retryCount
    && (row'.Open() ==> row.Open())
    && (row.Finished() ==> row' == row)
    && (row.status != Pending ==> row'.status != Pending)
    && (row.status != Pending ==> row'.approvedBy == row.approvedBy && row'.approvedAt == row.approvedAt)
  }

  lemma SweepEvolves(requesters: map<int, int>, row: Action, now: int, scope: Scope)
    ensures RowEvolves(row, Swept(row, now, scope))
    ensures RowOk(requesters, row) ==> RowOk(requesters, Swept(row, now, scope))
  {
  }

  /** No step loses a row, gives one up once it is finished, or rewrites what was
      requested or who approved it. */
  lemma RowsEvolve(requesters: map<int, int>, rows: seq<Action>, now: int, step: Step, rows': seq<Action>,
                   out: Option<nat>, i: nat)
    requires Next(requesters, rows, now, step, rows', out) && i < |rows|
    ensures i < |rows'| && RowEvolves(rows[i], rows'[i])
  {
    match step
    case Poll(agent) => SweepEvolves(requesters, rows[i], now, Scope(Some(agent), None));
    case Sweep(scope) => SweepEvolves(requesters, rows[i], now, scope);
    case _ =>
  }

  lemma RowsStayOk(requesters: map<int, int>, rows: seq<Action>, now: int, step: Step, rows': seq<Action>,
                   out: Option<nat>, i: nat)
    requires Next(requesters, rows, now, step, rows', out) && TableOk(requesters, rows) && i < |rows'|
    ensures RowOk(requesters, rows'[i])
  {
    match step
    case Poll(agent) => SweepEvolves(requesters, rows[i], now, Scope(Some(agent), None));
    case Sweep(scope) => SweepEvolves(requesters, rows[i], now, scope);
    case _ =>
  }

  lemma TwinsStayApart(requesters: map<int, int>, rows: seq<Action>, now: int, step: Step, rows': seq<Action>,
                       out: Option<nat>, i: nat, j: nat)
    requires Next(requesters, rows, now, step, rows', out) && TableOk(requesters, rows) && i < j < |rows'|
    ensures !Twins(rows'[i], rows'[j])
  {
    RowsEvolve(requesters, rows, now, step, rows', out, i);
    if j < |rows| {
      RowsEvolve(requesters, rows, now, step, rows', out, j);
      assert !Twins(rows[i], rows[j]);
    }
  }

  /** Every step keeps the table's invariant. */
  lemma StepKeepsTable(requesters: map<int, int>, rows: seq<Action>, now: int, step: Step, rows': seq<Action>,
                       out: Option<nat>)
    requires Next(requesters, rows, now, step, rows', out) && TableOk(requesters, rows)
    ensures TableOk(requesters, rows')
  {
    forall i | 0 <= i < |rows'| ensures RowOk(requesters, rows'[i]) {
      RowsStayOk(requesters, rows, now, step, rows', out, i);
    }
    forall i, j | 0 <= i < j < |rows'| ensures !Twins(rows'[i], rows'[j]) {
      TwinsStayApart(requesters, rows, now, step, rows', out, i, j);
    }
  }

  /** A poll hands out a live row of the polling agent and counts the attempt. */
  lemma DeliveryCounts(requesters: map<int, int>, rows: seq<Action>, now: int, step: Step, rows': seq<Action>,
                       out: Option<nat>)
    requires Next(requesters, rows, now, step, rows', out) && out.Some?
    ensures step.Poll? && out.value < |rows| == |rows'|
    ensures rows[out.value].Live() && rows[out.value].agent == step.poller
    ensures rows[out.value].retryCount < rows'[out.value].retryCount
  {
    SweepEvolves(requesters, rows[out.value], now, Scope(Some(step.poller), None));
  }

  // ---------------------------------------------------------------- runs

  datatype Event = Event(now: int, step: Step, out: Option<nat>)

  /** A run: the tables before and after each event, under a clock that never
      runs backwards. */
  ghost predicate Run(requesters: map<int, int>, tables: seq<seq<Action>>, events: seq<Event>) {
    && |tables| == |events| + 1
    && (forall k | 0 <= k < |events| ::
          Next(requesters, tables[k], events[k].now, events[k].step, tables[k + 1], events[k].out))
    && (forall k, l | 0 <= k < l < |events| :: events[k].now <= events[l].now)
  }

  /** A starting table: legacy rows left in the blocking state by older agents,
      approved by the requester and within the attempts. */
  ghost predicate LegacyTable(requesters: map<int, int>, rows: seq<Action>) {
    && (forall i | 0 <= i < |rows| ::
          && rows[i].status == Dispatched && rows[i].retryCount <= MAX_ATTEMPTS
          && rows[i].approvedAt.Some? && rows[i].ticket in requesters
          && rows[i].approvedBy == Some(requesters[rows[i].ticket]))
    && (forall i, j | 0 <= i < j < |rows| :: !Twins(rows[i], rows[j]))
  }

  lemma LegacyTableOk(requesters: map<int, int>, rows: seq<Action>)
    requires LegacyTable(requesters, rows)
    ensures TableOk(requesters, rows)
  {
    forall i | 0 <= i < |rows| ensures RowOk(requesters, rows[i]) {
      assert rows[i].status == Dispatched;
    }
  }

  lemma {:induction false} RunKeepsTable(requesters: map<int, int>, tables: seq<seq<Action>>, events: seq<Event>,
                                         k: nat)
    requires Run(requesters, tables, events) && TableOk(requesters, tables[0]) && k < |tables|
    ensures TableOk(requesters, tables[k])
    decreases k
  {
    if 0 < k {
      RunKeepsTable(requesters, tables, events, k - 1);
      var e := events[k - 1];
      StepKeepsTable(requesters, tables[k - 1], e.now, e.step, tables[k], e.out);
    }
  }

  lemma {:induction false} RunEvolves(requesters: map<int, int>, tables: seq<seq<Action>>, events: seq<Event>,
                                      k: nat, l: nat, i: nat)
    requires Run(requesters, tables, events) && k <= l < |tables| && i < |tables[k]|
    ensures i < |tables[l]| && RowEvolves(tables[k][i], tables[l][i])
    decreases l
  {
    if k < l {
      RunEvolves(requesters, tables, events, k, l - 1, i);
      var e := events[l - 1];
      RowsEvolve(requesters, tables[l - 1], e.now, e.step, tables[l], e.out, i);
    }
  }

  /** How often the first `k` events of a run hand out row `i`. */
  ghost function Deliveries(events: seq<Event>, k: nat, i: nat): nat
    requires k <= |events|
  {
    if k == 0 then 0 else Deliveries(events, k - 1, i) + (if events[k - 1].out == Some(i) then 1 else 0)
  }

  /** The attempts counted on row `i`, none if it does not exist yet. */
  ghost function Attempts(rows: seq<Action>, i: nat): nat {
    if i < |rows| then rows[i].retryCount else 0
  }

  lemma AttemptsCount(requesters: map<int, int>, rows: seq<Action>, now: int, step: Step, rows': seq<Action>,
                      out: Option<nat>, i: nat)
    requires Next(requesters, rows, now, step, rows', out)
    ensures Attempts(rows, i) + (if out == Some(i) then 1 else 0) <= Attempts(rows', i)
  {
    if i < |rows| {
      RowsEvolve(requesters, rows, now, step, rows', out, i);
    }
    if out.Some? {
      DeliveryCounts(requesters, rows, now, step, rows', out);
    }
  }

  lemma {:induction false} DeliveriesCounted(requesters: map<int, int>, tables: seq<seq<Action>>, events: seq<Event>,
                                             k: nat, i: nat)
    requires Run(requesters, tables, events) && k < |tables|
    ensures Deliveries(events, k, i) <= Attempts(tables[k], i)
    decreases k
  {
    if 0 < k {
      DeliveriesCounted(requesters, tables, events, k - 1, i);
      var e := events[k - 1];
      AttemptsCount(requesters, tables[k - 1], e.now, e.step, tables[k], e.out, i);
    }
  }

  /** No action is ever handed out more than five times. */
  lemma AtMostFiveDeliveries(requesters: map<int, int>, tables: seq<seq<Action>>, events: seq<Event>, i: nat)
    requires Run(requesters, tables, events) && TableOk(requesters, tables[0])
    ensures Deliveries(events, |events|, i) <= 5
  {
    DeliveriesCounted(requesters, tables, events, |events|, i);
    RunKeepsTable(requesters, tables, events, |events|);
  }

  /** Completed, failed and declined actions never change again. */
  lemma FinishedForever(requesters: map<int, int>, tables: seq<seq<Action>>, events: seq<Event>, k: nat, l: nat, i: nat)
    requires Run(requesters, tables, events) && k <= l < |tables| && i < |tables[k]|
    requires tables[k][i].status in {Completed, Failed, Declined}
    ensures i < |tables[l]| && tables[l][i] == tables[k][i]
  {
    RunEvolves(requesters, tables, events, k, l, i);
  }

  /** Only approved actions are handed out, to their own agent; a service restart
      only when the ticket's requester approved it. */
  lemma DeliveredOnlyAuthorised(requesters: map<int, int>, tables: seq<seq<Action>>, events: seq<Event>, k: nat)
    requires Run(requesters, tables, events) && TableOk(requesters, tables[0])
    requires k < |events| && events[k].out.Some?
    ensures events[k].step.Poll? && events[k].out.value < |tables[k]|
    ensures var row := tables[k][events[k].out.value];
      && row.status in {Approved, Dispatched} && Authorised(requesters, row) && row.agent == events[k].step.poller
      && (row.kind == RestartService ==> row.approvedBy == Some(requesters[row.ticket]))
  {
    RunKeepsTable(requesters, tables, events, k);
    DeliveryCounts(requesters, tables[k], events[k].now, events[k].step, tables[k + 1], events[k].out);
    assert RowOk(requesters, tables[k][events[k].out.value]);
  }

  /** At most one open action per agent, ticket, kind and target, ignoring the
      letter case of the target. */
  lemma OneOpenAction(requesters: map<int, int>, tables: seq<seq<Action>>, events: seq<Event>, k: nat, i: nat, j: nat)
    requires Run(requesters, tables, events) && TableOk(requesters, tables[0]) && k < |tables|
    requires i < |tables[k]| && j < |tables[k]|
    requires tables[k][i].status in {Pending, Approved, Dispatched}
    requires tables[k][j].status in {Pending, Approved, Dispatched}
    requires tables[k][i].agent == tables[k][j].agent && tables[k][i].ticket == tables[k][j].ticket
    requires tables[k][i].kind == tables[k][j].kind && Lower(tables[k][i].target) == Lower(tables[k][j].target)
    ensures i == j
  {
    RunKeepsTable(requesters, tables, events, k);
    assert Twins(tables[k][i], tables[k][j]) && Twins(tables[k][j], tables[k][i]);
  }

  // ---------------------------------------------------------------- delivery

  /** The action is approved, may still be handed out and never was. */
  ghost predicate Waiting(row: Action) {
    row.status == Approved && row.approvedAt.Some? && row.dispatchedAt.None? && row.retryCount < MAX_ATTEMPTS
  }

  /** Row `i` may still be handed out before the waiting row `a`. */
  ghost predicate Ahead(rows: seq<Action>, a: nat, i: nat)
    requires a < |rows| && i < |rows|
  {
    i != a && rows[i].agent == rows[a].agent && rows[i].Live() && !rows[a].ApprovedBefore(rows[i])
  }

  /** The number of live rows of the same agent that were approved before row `a`. */
  ghost function CountAhead(rows: seq<Action>, a: nat, n: nat): nat
    requires a < |rows| && n <= |rows|
  {
    if n == 0 then 0 else CountAhead(rows, a, n - 1) + (if Ahead(rows, a, n - 1) then 1 else 0)
  }

  /** The attempts row `i` may still take before row `a`. */
  ghost function Share(rows: seq<Action>, a: nat, i: nat): nat
    requires a < |rows| && i < |rows|
  {
    if Ahead(rows, a, i) && rows[i].retryCount < MAX_ATTEMPTS then MAX_ATTEMPTS - rows[i].retryCount else 0
  }

  ghost function Budget(rows: seq<Action>, a: nat, n: nat): nat
    requires a < |rows| && n <= |rows|
  {
    if n == 0 then 0 else Budget(rows, a, n - 1) + Share(rows, a, n - 1)
  }

  lemma {:induction false} BudgetBounded(rows: seq<Action>, a: nat, n: nat)
    requires a < |rows| && n <= |rows|
    ensures Budget(rows, a, n) <= MAX_ATTEMPTS * CountAhead(rows, a, n)
    decreases n
  {
    if 0 < n {
      BudgetBounded(rows, a, n - 1);
    }
  }

  /** Budgets compare row by row; `spent` is a row that lost at least one attempt. */
  lemma {:induction false} BudgetShrinks(rows: seq<Action>, rows': seq<Action>, a: nat, n: nat, spent: Option<nat>)
    requires a < |rows| <= |rows'| && n <= |rows'|
    requires forall i: nat | i < n :: Share(rows', a, i) <= if i < |rows| then Share(rows, a, i) else 0
    requires spent.Some? ==> spent.value < |rows| && Share(rows', a, spent.value) < Share(rows, a, spent.value)
    ensures Budget(rows', a, n) + (if spent.Some? && spent.value < n then 1 else 0) <=
            Budget(rows, a, if n <= |rows| then n else |rows|)
    decreases n
  {
    if 0 < n {
      BudgetShrinks(rows, rows', a, n - 1, spent);
    }
  }

  /** A result that finishes the waiting row. */
  ghost predicate Answers(step: Step, agent: int, a: nat) {
    step.Report? && step.reporter == agent && step.id == a
  }

  predicate Approves(step: Step) { step.AutoClose? || (step.Decide? && step.approve) }

  /** While it is neither handed out nor answered, a waiting row keeps waiting,
      nothing new gets ahead of it, and each poll of its agent spends an attempt
      of some row ahead. */
  lemma WaitingStep(requesters: map<int, int>, rows: seq<Action>, now: int, step: Step, rows': seq<Action>,
                    out: Option<nat>, a: nat, i: nat)
    requires Next(requesters, rows, now, step, rows', out)
    requires a < |rows| && Waiting(rows[a]) && i < |rows'|
    requires out != Some(a) && !Answers(step, rows[a].agent, a)
    requires Approves(step) ==> rows[a].approvedAt.value < now
    ensures a < |rows| <= |rows'| && rows'[a] == rows[a]
    ensures Share(rows', a, i) <= if i < |rows| then Share(rows, a, i) else 0
    ensures step == Poll(rows[a].agent) ==>
      out.Some? && out.value < |rows| && (i == out.value ==> Share(rows', a, i) < Share(rows, a, i))
  {
    match step
    case Poll(agent) =>
      WaitingPoll(rows, now, agent, rows', out, a);
      SweptShare(rows, now, Scope(Some(agent), None), a, i);
    case Sweep(scope) => SweptShare(rows, now, scope, a, i);
    case _ =>
  }

  /** A sweep leaves a waiting row alone and only takes attempts from the others. */
  lemma SweptShare(rows: seq<Action>, now: int, scope: Scope, a: nat, i: nat)
    requires a < |rows| && Waiting(rows[a]) && i < |rows|
    ensures SweptTable(rows, now, scope)[a] == rows[a]
    ensures Share(SweptTable(rows, now, scope), a, i) <= Share(rows, a, i)
  {
    SweepEvolves(map[], rows[i], now, scope);
  }

  lemma WaitingPoll(rows: seq<Action>, now: int, agent: int, rows': seq<Action>, out: Option<nat>, a: nat)
    requires Next(map[], rows, now, Poll(agent), rows', out) && a < |rows| && Waiting(rows[a]) && out != Some(a)
    ensures rows'[a] == rows[a]
    ensures agent == rows[a].agent ==> out.Some?
    ensures out.Some? && agent == rows[a].agent ==>
      Share(rows', a, out.value) < Share(SweptTable(rows, now, Scope(Some(agent), None)), a, out.value)
  {
    var swept := SweptTable(rows, now, Scope(Some(agent), None));
    assert swept[a] == rows[a];
    assert agent == rows[a].agent ==> Deliverable(swept, agent, a);
  }

  ghost function Polls(events: seq<Event>, k: nat, agent: int): nat
    requires k <= |events|
    decreases |events| - k
  {
    if k == |events| then 0 else (if events[k].step == Poll(agent) then 1 else 0) + Polls(events, k + 1, agent)
  }

  ghost predicate StaysUnanswered(events: seq<Event>, k: nat, agent: int, a: nat) {
    forall l | k <= l < |events| :: events[l].out != Some(a) && !Answers(events[l].step, agent, a)
  }

  ghost predicate LaterApprovals(events: seq<Event>, instant: int) {
    forall l | 0 <= l < |events| :: Approves(events[l].step) ==> instant < events[l].now
  }

  lemma {:induction false} PollsWithinBudget(requesters: map<int, int>, tables: seq<seq<Action>>, events: seq<Event>,
                                             k: nat, a: nat)
    requires Run(requesters, tables, events) && k <= |events|
    requires a < |tables[k]| && Waiting(tables[k][a])
    requires StaysUnanswered(events, k, tables[k][a].agent, a)
    requires LaterApprovals(events, tables[k][a].approvedAt.value)
    ensures Polls(events, k, tables[k][a].agent) <= Budget(tables[k], a, |tables[k]|)
    decreases |events| - k
  {
    if k < |events| {
      var e, rows, rows' := events[k], tables[k], tables[k + 1];
      RowsEvolve(requesters, rows, e.now, e.step, rows', e.out, a);
      forall i: nat | i < |rows'|
        ensures rows'[a] == rows[a] && Share(rows', a, i) <= if i < |rows| then Share(rows, a, i) else 0
      {
        WaitingStep(requesters, rows, e.now, e.step, rows', e.out, a, i);
      }
      var spent: Option<nat> := None;
      if e.step == Poll(rows[a].agent) {
        WaitingStep(requesters, rows, e.now, e.step, rows', e.out, a, 0);
        WaitingStep(requesters, rows, e.now, e.step, rows', e.out, a, e.out.value);
        spent := e.out;
      }
      BudgetShrinks(rows, rows', a, |rows'|, spent);
      PollsWithinBudget(requesters, tables, events, k + 1, a);
    }
  }

  /** Delivery in time: with `j - 1` live actions of the agent approved before it,
      a waiting action is handed out or answered within `5 (j - 1) + 1` polls of
      its agent, whatever else happens in between.  Approval times are distinct:
      an approval during the run is later than the waiting row's own. */
  lemma DeliveredInTime(requesters: map<int, int>, tables: seq<seq<Action>>, events: seq<Event>, a: nat)
    requires Run(requesters, tables, events)
    requires a < |tables[0]| && Waiting(tables[0][a])
    requires LaterApprovals(events, tables[0][a].approvedAt.value)
    requires 5 * CountAhead(tables[0], a, |tables[0]|) + 1 <= Polls(events, 0, tables[0][a].agent)
    ensures exists k | 0 <= k < |events| ::
      events[k].out == Some(a) || Answers(events[k].step, tables[0][a].agent, a)
  {
    if StaysUnanswered(events, 0, tables[0][a].agent, a) {
      PollsWithinBudget(requesters, tables, events, 0, a);
      BudgetBounded(tables[0], a, |tables[0]|);
    }
  }

  // ---------------------------------------------------------------- sweeping again

  /** A stale legacy delivery with an attempt left, which a sweep revives, but which is
      so old or so near its last attempt that another sweep fails it. */
  predicate RevivedToFail(row: Action, now: int, scope: Scope) {
    && scope.Covers(row) && row.status == Dispatched && row.retryCount < MAX_ATTEMPTS
    && row.DispatchedBefore(now - STALE)
    && (row.DispatchedBefore(now - NO_RESPONSE) || row.retryCount + 1 == MAX_ATTEMPTS)
  }

  lemma SweptTwice(row: Action, now: int, scope: Scope)
    ensures Swept(Swept(row, now, scope), now, scope) == Swept(row, now, scope) <==> !RevivedToFail(row, now, scope)
  {
  }

  /** Sweeping the table again at the same instant changes nothing exactly when the
      first sweep found no delivery that it revived only for the second to fail. */
  lemma SweepTwiceSame(rows: seq<Action>, now: int, scope: Scope)
    ensures var once := SweptTable(rows, now, scope);
      SweptTable(once, now, scope) == once <==>
        forall i | 0 <= i < |rows| :: !RevivedToFail(rows[i], now, scope)
  {
    hide Swept, RevivedToFail;
    var once := SweptTable(rows, now, scope);
    var twice := SweptTable(once, now, scope);
    forall i | 0 <= i < |rows| ensures twice[i] == once[i] <==> !RevivedToFail(rows[i], now, scope) {
      SweptTwice(rows[i], now, scope);
    }
    if forall i | 0 <= i < |rows| :: twice[i] == once[i] {
      assert twice == once;
    }
  }

  /** A delivery by an older agent, four minutes ago and never answered, is approved
      again by one sweep and failed by the next at the same instant. */
  lemma RevivedThenFailed(row: Action, now: int)
    requires row.status == Dispatched && row.retryCount == 1 && row.dispatchedAt == Some(now - 240 * SECOND)
    ensures var all := Scope(None, None);
      && Swept(row, now, all) == row.(status := Approved, retryCount := 2)
      && Swept(Swept(row, now, all), now, all).status == Failed
  {
  }
}
