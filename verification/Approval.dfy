/** The approval of a submitted form: one decision per workflow step, in order. */
module Approval {
  import opened Wrappers

  datatype Status = Pending | Approved | Rejected

  datatype TicketStatus = WaitingApproval | Cancelled | Assigned | New

  datatype Decision = Decision(step: nat, approver: int, approve: bool)

  datatype State = State(status: Status, currentStep: nat, approver: Option<int>, decisions: seq<Decision>,
                         ticket: TicketStatus)

  /** An attempt to decide; `next` is the eligible approver of the following step
      and `staffed` whether the ticket has a technician. */
  datatype Attempt = Attempt(user: int, admin: bool, approve: bool, next: Option<int>, staffed: bool)

  datatype Reply = Recorded | NotFound | Forbidden

  function Answer(s: State, a: Attempt): Reply {
    if s.status != Pending then NotFound
    else if s.approver != Some(a.user) && !a.admin then Forbidden
    else Recorded
  }

  /** The request after an attempt, in a workflow of `steps` steps. */
  function Decided(s: State, a: Attempt, steps: nat): State {
    if Answer(s, a) != Recorded then s
    else
      var recorded := s.(decisions := s.decisions + [Decision(s.currentStep, a.user, a.approve)]);
      if !a.approve then recorded.(status := Rejected, ticket := Cancelled)
      else if s.currentStep + 1 < steps then recorded.(currentStep := s.currentStep + 1, approver := a.next)
      else recorded.(status := Approved, approver := None, ticket := if a.staffed then Assigned else New)
  }

  class ApprovalRequest {
    var status: Status
    var currentStep: nat
    var currentApprover: Option<int>
    var decisions: seq<Decision>
    var ticketStatus: TicketStatus

    /** Created with the form's ticket, waiting for the first step's approver. */
    constructor (approver: Option<int>)
      ensures Current() == State(Pending, 0, approver, [], WaitingApproval)
    {
      status, currentStep, currentApprover := Pending, 0, approver;
      decisions, ticketStatus := [], WaitingApproval;
    }

    function Current(): State
      reads this
    {
      State(status, currentStep, currentApprover, decisions, ticketStatus)
    }

    method Decide(a: Attempt, steps: nat) returns (reply: Reply)
      modifies this
      ensures reply == Answer(old(Current()), a)
      ensures Current() == Decided(old(Current()), a, steps)
    {
      if status != Pending {
        return NotFound;
      }
      if currentApprover != Some(a.user) && !a.admin {
        return Forbidden;
      }
      decisions := decisions + [Decision(currentStep, a.user, a.approve)];
      if !a.approve {
        status, ticketStatus := Rejected, Cancelled;
      } else if currentStep + 1 < steps {
        currentStep, currentApprover := currentStep + 1, a.next;
      } else {
        status, currentApprover := Approved, None;
        ticketStatus := if a.staffed then Assigned else New;
      }
      reply := Recorded;
    }
  }

  // ---------------------------------------------------------------- runs

  function After(s: State, run: seq<Attempt>, steps: nat): State {
    if run == [] then s else Decided(After(s, run[..|run| - 1], steps), run[|run| - 1], steps)
  }

  ghost predicate AllApprove(decisions: seq<Decision>) {
    forall i | 0 <= i < |decisions| :: decisions[i].approve
  }

  /** The outcome that a list of decisions stands for. */
  ghost predicate ApprovedBy(decisions: seq<Decision>, steps: nat) {
    |decisions| == steps && AllApprove(decisions)
  }

  ghost predicate RejectedBy(decisions: seq<Decision>) {
    decisions != [] && !decisions[|decisions| - 1].approve && AllApprove(decisions[..|decisions| - 1])
  }

  ghost predicate RequestOk(s: State, steps: nat) {
    && (forall i | 0 <= i < |s.decisions| :: s.decisions[i].step == i)
    && |s.decisions| <= steps
    && (s.status == Approved <==> ApprovedBy(s.decisions, steps))
    && (s.status == Rejected <==> RejectedBy(s.decisions))
    && (s.status == Pending ==> AllApprove(s.decisions))
    && (s.status == Pending ==> s.currentStep == |s.decisions| < steps && s.ticket == WaitingApproval)
    && (s.status != Pending ==> s.currentStep == |s.decisions| - 1)
    && (s.status == Rejected ==> s.ticket == Cancelled)
    && (s.status == Approved ==> s.ticket in {Assigned, New} && s.approver == None)
  }

  lemma DecisionKeepsRequest(s: State, a: Attempt, steps: nat)
    requires RequestOk(s, steps)
    ensures RequestOk(Decided(s, a, steps), steps)
  {
    var s' := Decided(s, a, steps);
    if Answer(s, a) == Recorded {
      var d := Decision(s.currentStep, a.user, a.approve);
      assert s'.decisions == s.decisions + [d];
      assert s'.decisions[..|s.decisions|] == s.decisions;
      assert AllApprove(s'.decisions) <==> d.approve by {
        assert s'.decisions[|s.decisions|] == d;
      }
    }
  }

  /** Over any run of attempts on a workflow of at least one step, the decisions
      are recorded at steps 0, 1, 2 and so on; the request is approved exactly when
      every step approved, and rejected exactly when the last decision rejects and
      all before it approve. */
  lemma {:induction false} RequestFollowsDecisions(approver: Option<int>, run: seq<Attempt>, steps: nat)
    requires 0 < steps
    ensures RequestOk(After(State(Pending, 0, approver, [], WaitingApproval), run, steps), steps)
    decreases |run|
  {
    if run != [] {
      RequestFollowsDecisions(approver, run[..|run| - 1], steps);
      DecisionKeepsRequest(After(State(Pending, 0, approver, [], WaitingApproval), run[..|run| - 1], steps),
                           run[|run| - 1], steps);
    }
  }

  /** A finished request never changes again. */
  lemma {:induction false} FinishedForever(s: State, run: seq<Attempt>, steps: nat)
    requires s.status != Pending
    ensures After(s, run, steps) == s
    decreases |run|
  {
    if run != [] {
      FinishedForever(s, run[..|run| - 1], steps);
    }
  }

  /** The votes that were recorded decide the request: two runs that recorded the
      same votes end in the same status at the same step, whoever tried in vain in
      between. */
  lemma SameVotesSameOutcome(approver: Option<int>, run: seq<Attempt>, other: seq<Attempt>, steps: nat)
    requires 0 < steps
    requires var start := State(Pending, 0, approver, [], WaitingApproval);
      var a, b := After(start, run, steps).decisions, After(start, other, steps).decisions;
      |a| == |b| && forall i | 0 <= i < |a| :: a[i].approve == b[i].approve
    ensures var start := State(Pending, 0, approver, [], WaitingApproval);
      && After(start, run, steps).status == After(start, other, steps).status
      && After(start, run, steps).currentStep == After(start, other, steps).currentStep
  {
    RequestFollowsDecisions(approver, run, steps);
    RequestFollowsDecisions(approver, other, steps);
  }

  // ---------------------------------------------------------------- authority

  /** The attempts of a run after which there was one decision more. */
  ghost function Effective(s: State, run: seq<Attempt>, steps: nat): seq<Attempt> {
    if run == [] then []
    else
      var last := |run| - 1;
      Effective(s, run[..last], steps) +
      if |After(s, run[..last], steps).decisions| < |After(s, run, steps).decisions| then [run[last]] else []
  }

  /** Who may take step `k`, after the effective attempts before it. */
  ghost function ApproverOf(first: Option<int>, effective: seq<Attempt>, k: nat): Option<int>
    requires k <= |effective|
  {
    if k == 0 then first else effective[k - 1].next
  }

  /** Every decision is by an administrator or by the approver of its step, and a pending
      request waits for the approver of the next one. */
  ghost predicate AuthorityOk(first: Option<int>, s: State, effective: seq<Attempt>) {
    && |effective| == |s.decisions|
    && (forall k | 0 <= k < |effective| ::
          s.decisions[k].approver == effective[k].user && s.decisions[k].approve == effective[k].approve)
    && (forall k | 0 <= k < |effective| ::
          effective[k].admin || ApproverOf(first, effective, k) == Some(effective[k].user))
    && (s.status == Pending ==> s.approver == ApproverOf(first, effective, |effective|))
    && (s.status == Approved ==> effective != [])
    && (s.status == Approved ==> s.ticket == if effective[|effective| - 1].staffed then Assigned else New)
  }

  lemma AttemptKeepsAuthority(first: Option<int>, s: State, a: Attempt, steps: nat, effective: seq<Attempt>)
    requires AuthorityOk(first, s, effective)
    ensures var s' := Decided(s, a, steps);
      AuthorityOk(first, s', effective + if |s.decisions| < |s'.decisions| then [a] else [])
  {
    var s' := Decided(s, a, steps);
    if |s.decisions| < |s'.decisions| {
      var more := effective + [a];
      forall k | 0 <= k < |more| ensures more[k].admin || ApproverOf(first, more, k) == Some(more[k].user) {
        if k < |effective| {
          assert ApproverOf(first, more, k) == ApproverOf(first, effective, k);
        }
      }
    } else {
      assert effective + [] == effective;
    }
  }

  /** Over any run, every recorded decision was made by an administrator or by the
      approver of its step: the one the request was created with for step 0, and the one
      named when the step before was approved after that.  An approved ticket is assigned
      exactly when it had a technician at the last decision. */
  lemma {:induction false} OnlyApproversDecide(approver: Option<int>, run: seq<Attempt>, steps: nat)
    ensures var start := State(Pending, 0, approver, [], WaitingApproval);
      AuthorityOk(approver, After(start, run, steps), Effective(start, run, steps))
    decreases |run|
  {
    if run != [] {
      var start := State(Pending, 0, approver, [], WaitingApproval);
      var last := |run| - 1;
      OnlyApproversDecide(approver, run[..last], steps);
      AttemptKeepsAuthority(approver, After(start, run[..last], steps), run[last], steps,
                            Effective(start, run[..last], steps));
    }
  }

  /** An attempt is refused exactly when the request is finished or the user is neither
      its approver nor an administrator; a refused attempt changes nothing, and any other
      one records the user's decision at the current step. */
  lemma RefusedExactly(s: State, a: Attempt, steps: nat)
    ensures Answer(s, a) == NotFound <==> s.status != Pending
    ensures Answer(s, a) == Forbidden <==> s.status == Pending && !a.admin && s.approver != Some(a.user)
    ensures Answer(s, a) != Recorded ==> Decided(s, a, steps) == s
    ensures Answer(s, a) == Recorded ==>
      Decided(s, a, steps).decisions == s.decisions + [Decision(s.currentStep, a.user, a.approve)]
  {
  }
}
