/** What every chat request does, in terms of the tables alone, and what that makes of
    whole runs: who may do what, and how fast. */
module ChatCauses {
  import opened Wrappers
  import opened Text
  import opened Chat

  // ---------------------------------------------------------------- reading

  /** The messages a poll can return are the session's public ones after the cursor. */
  lemma {:induction false} PublicExactly(messages: seq<Message>, session: nat, after: nat, id: nat)
    ensures id in PublicAfter(messages, session, after) <==>
      && after < id <= |messages| && messages[id - 1].public && messages[id - 1].session == Some(session)
  {
    if messages != [] {
      PublicExactly(messages[..|messages| - 1], session, after, id);
      PublicAscends(messages[..|messages| - 1], session, after);
    }
  }

  // ---------------------------------------------------------------- requests

  /** The user is the requester of the ticket or the technician it is assigned to. */
  predicate Party(d: Desk, ticket: int, user: int) {
    ticket in d.tickets && (d.tickets[ticket].requester == user || d.tickets[ticket].assignee == Some(user))
  }

  /** The session exists and the user is a party to its ticket. */
  predicate PartyTo(d: Desk, session: nat, user: int) {
    session < |d.sessions| && Party(d, d.sessions[session].ticket, user)
  }

  ghost predicate HasOpenSession(d: Desk, ticket: int) {
    exists i :: 0 <= i < |d.sessions| && d.sessions[i].ticket == ticket && d.sessions[i].status in {Requested, Active}
  }

  /** A party to an open ticket with a technician opens a session unless one is open; the
      conversation starts with a public message in the user's name. */
  lemma RequestEffect(d: Desk, ticket: int, user: int, now: int)
    ensures Apply(d, RequestChat(ticket, user, now)) ==
      if Party(d, ticket, user) && d.tickets[ticket].open && d.tickets[ticket].assignee.Some?
         && !HasOpenSession(d, ticket)
      then d.(sessions := d.sessions + [Session(ticket, user, None, Requested)],
              messages := d.messages + [Message(ticket, Some(|d.sessions|), Some(user), None, Started, true, now)])
      else d
    ensures var reply, after := Answer(d, RequestChat(ticket, user, now)), Apply(d, RequestChat(ticket, user, now));
      && (reply == NotFound <==> !Party(d, ticket, user))
      && (reply.Done? <==> Party(d, ticket, user) && d.tickets[ticket].open && d.tickets[ticket].assignee.Some?)
      && (reply.Done? ==> reply.id < |after.sessions| && after.sessions[reply.id].ticket == ticket
                          && after.sessions[reply.id].status in {Requested, Active})
  {
    var open := OpenSession(d.sessions, ticket);
    if open.Some? {
      assert d.sessions[open.value].status in {Requested, Active};
    }
  }

  /** A requested session becomes active when the other party accepts it, and in no other
      way. */
  lemma AcceptEffect(d: Desk, session: nat, user: int, now: int)
    ensures Apply(d, Accept(session, user, now)) ==
      if PartyTo(d, session, user) && d.sessions[session].requestedBy != user && d.sessions[session].status == Requested
      then d.(sessions := d.sessions[session := d.sessions[session].(status := Active, acceptedBy := Some(user))],
              messages := d.messages + [Message(d.sessions[session].ticket, Some(session), Some(user), None, Joined,
                                                true, now)])
      else d
    ensures Answer(d, Accept(session, user, now)).Done? <==>
      PartyTo(d, session, user) && d.sessions[session].requestedBy != user && d.sessions[session].status != Closed
  {
  }

  /** Either party closes an open session. */
  lemma CloseEffect(d: Desk, session: nat, user: int, now: int)
    ensures Apply(d, Close(session, user, now)) ==
      if PartyTo(d, session, user) && d.sessions[session].status in {Requested, Active}
      then d.(sessions := d.sessions[session := d.sessions[session].(status := Closed)],
              messages := d.messages + [Message(d.sessions[session].ticket, Some(session), Some(user), None, Ended,
                                                true, now)])
      else d
    ensures Answer(d, Close(session, user, now)).Done? <==> PartyTo(d, session, user)
  {
  }

  /** A party to an open session of an open ticket sends text that is not blank. */
  predicate Sendable(d: Desk, session: nat, user: int, text: string) {
    && PartyTo(d, session, user) && d.sessions[session].status in {Requested, Active}
    && d.tickets[d.sessions[session].ticket].open && Strip(text) != ""
  }

  ghost predicate Sent(d: Desk, session: nat, clientId: string) {
    exists i :: 0 <= i < |d.messages| && d.messages[i].session == Some(session)
                && d.messages[i].clientId == Some(clientId)
  }

  /** A chat message of the user in the session is less than three quarters of a second
      old. */
  ghost predicate Hasty(d: Desk, session: nat, user: int, now: int) {
    exists i :: 0 <= i < |d.messages| && d.messages[i].session == Some(session) && d.messages[i].author == Some(user)
                && d.messages[i].clientId.Some? && now < d.messages[i].createdAt + 750_000
  }

  /** A sendable text is stored, stripped and public, in the user's name and under its
      client id, exactly when that id is new in the session and the user is not hasty. */
  lemma SendEffect(d: Desk, session: nat, user: int, text: string, clientId: string, now: int)
    ensures Apply(d, Send(session, user, text, clientId, now)) ==
      if Sendable(d, session, user, text) && !Sent(d, session, clientId) && !Hasty(d, session, user, now)
      then d.(messages := d.messages + [Message(d.sessions[session].ticket, Some(session), Some(user), Some(clientId),
                                                Words(Strip(text)), true, now)])
      else d
    ensures Answer(d, Send(session, user, text, clientId, now)) == NotFound <==> !PartyTo(d, session, user)
    ensures Answer(d, Send(session, user, text, clientId, now)) == Blank <==>
      PartyTo(d, session, user) && d.sessions[session].status in {Requested, Active}
      && d.tickets[d.sessions[session].ticket].open && Strip(text) == ""
    ensures Answer(d, Send(session, user, text, clientId, now)) == TooSoon <==>
      Sendable(d, session, user, text) && !Sent(d, session, clientId) && Hasty(d, session, user, now)
  {
    hide Strip;
    var found := Duplicate(d.messages, session, clientId);
    if found.Some? {
      assert SentAs(d.messages[found.value - 1], session, clientId);
      assert Sent(d, session, clientId);
    }
    HastyIsJustSent(d, session, user, now);
  }

  lemma HastyIsJustSent(d: Desk, session: nat, user: int, now: int)
    ensures JustSent(d.messages, session, user, now) <==> Hasty(d, session, user, now)
  {
    if Hasty(d, session, user, now) {
      var i :| 0 <= i < |d.messages| && d.messages[i].session == Some(session) && d.messages[i].author == Some(user)
        && d.messages[i].clientId.Some? && now < d.messages[i].createdAt + 750_000;
      assert d.messages[i] in d.messages;
    }
  }

  // ---------------------------------------------------------------- runs

  /** Two chat messages of one author in one session are three quarters of a second
      apart or more. */
  ghost predicate Spaced(messages: seq<Message>) {
    forall i, j | 0 <= i < j < |messages| && SameAuthor(messages[i], messages[j]) ::
      messages[i].createdAt + 750_000 <= messages[j].createdAt
  }

  ghost predicate SameAuthor(a: Message, b: Message) {
    && a.session.Some? && a.session == b.session && a.author.Some? && a.author == b.author
    && a.clientId.Some? && b.clientId.Some?
  }

  /** A session that is active was accepted, and not by whoever asked for it. */
  ghost predicate AcceptedByOther(s: Session) {
    && (s.status == Active ==> s.acceptedBy.Some?)
    && (s.acceptedBy.Some? ==> s.acceptedBy != Some(s.requestedBy))
  }

  /** Chat messages are public, signed, and not blank. */
  ghost predicate WellSent(m: Message) {
    m.clientId.Some? ==> m.public && m.session.Some? && m.author.Some? && m.body.Words? && m.body.text != ""
                         && Trim(m.body.text)
  }

  ghost predicate Orderly(d: Desk) {
    && Spaced(d.messages) && (forall i | 0 <= i < |d.sessions| :: AcceptedByOther(d.sessions[i]))
    && forall i | 0 <= i < |d.messages| :: WellSent(d.messages[i])
  }

  lemma StepKeepsOrder(d: Desk, step: Step)
    requires Orderly(d)
    ensures Orderly(Apply(d, step))
  {
    hide Strip, Trim, Apply, Duplicate, OpenSession, HasOpenSession, Sent;
    match step
    case RequestChat(ticket, user, now) => RequestEffect(d, ticket, user, now);
    case Accept(session, user, now) => AcceptEffect(d, session, user, now);
    case Close(session, user, now) => CloseEffect(d, session, user, now);
    case Send(session, user, text, clientId, now) =>
      SendEffect(d, session, user, text, clientId, now);
      StripIsTrim(text);
    case _ => OtherSteps(d, step);
  }

  lemma OtherSteps(d: Desk, step: Step)
    requires step.CloseTicket? || step.ChangeTicket? || step.OtherMessage?
    ensures |Apply(d, step).sessions| == |d.sessions|
    ensures forall i | 0 <= i < |d.sessions| ::
      Apply(d, step).sessions[i] in {d.sessions[i], d.sessions[i].(status := Closed)}
    ensures d.messages <= Apply(d, step).messages
    ensures forall i | |d.messages| <= i < |Apply(d, step).messages| :: Apply(d, step).messages[i].clientId.None?
  {
  }

  /** Over any run from an empty desk, chat messages of one author are spaced, signed and
      never blank, and no session is active that its own requester accepted. */
  lemma {:induction false} RunKeepsOrder(d: Desk, run: seq<Step>)
    requires Orderly(d)
    ensures Orderly(After(d, run))
    decreases |run|
  {
    hide Apply;
    if run != [] {
      StepKeepsOrder(d, run[0]);
      RunKeepsOrder(Apply(d, run[0]), run[1..]);
    }
  }

  /** The requester closes an open ticket: the ticket and its sessions are closed, with a
      public note, and nothing else changes. */
  lemma TicketClosureEffect(d: Desk, ticket: int, now: int, i: nat)
    requires ticket in d.tickets && d.tickets[ticket].open && i < |d.sessions|
    ensures var after := Apply(d, CloseTicket(ticket, now));
      && after.tickets == d.tickets[ticket := Ticket(d.tickets[ticket].requester, d.tickets[ticket].assignee, false)]
      && |after.sessions| == |d.sessions|
      && after.sessions[i].status == (if d.sessions[i].ticket == ticket then Closed else d.sessions[i].status)
      && after.messages == d.messages + [Message(ticket, None, None, None, Note("closed"), true, now)]
  {
  }
}
