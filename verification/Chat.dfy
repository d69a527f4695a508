/** Live chat on tickets: sessions, messages sent at most once, and polling with a
    cursor.

    A session's index is its id; a message's id is its index plus one, so ids grow
    and every id is above the cursor a reader starts with.  Every request is one
    atomic step. */
module Chat {
  import opened Wrappers
  import opened Text

  const SEND_GAP: int := 750_000 // microseconds

  datatype Ticket = Ticket(requester: int, assignee: Option<int>, open: bool) {
    predicate Participant(user: int) { user == requester || assignee == Some(user) }
  }

  datatype SessionStatus = Requested | Active | Closed

  datatype Session = Session(ticket: int, requestedBy: int, acceptedBy: Option<int>, status: SessionStatus) {
    predicate Open() { status != Closed }
  }

  /** User text, or one of the markers the program writes itself. */
  datatype Body = Words(text: string) | Started | Joined | Ended | Note(text: string)

  datatype Message = Message(ticket: int, session: Option<nat>, author: Option<int>, clientId: Option<string>,
                             body: Body, public: bool, createdAt: int)

  datatype Desk = Desk(tickets: map<int, Ticket>, sessions: seq<Session>, messages: seq<Message>)

  datatype Reply = Done(id: nat) | NotFound | Conflict | Blank | TooSoon

  // ---------------------------------------------------------------- queries

  /** The latest open session of a ticket. */
  function OpenSession(sessions: seq<Session>, ticket: int): (r: Option<nat>)
    ensures r.Some? ==> r.value < |sessions| && sessions[r.value].ticket == ticket && sessions[r.value].Open()
    ensures r.None? ==> forall i | 0 <= i < |sessions| :: !(sessions[i].ticket == ticket && sessions[i].Open())
  {
    if sessions == [] then None
    else
      var last := |sessions| - 1;
      if sessions[last].ticket == ticket && sessions[last].Open() then Some(last)
      else OpenSession(sessions[..last], ticket)
  }

  predicate SentAs(m: Message, session: nat, clientId: string) {
    m.session == Some(session) && m.clientId == Some(clientId)
  }

  /** The id of the message already sent under the client's id. */
  function Duplicate(messages: seq<Message>, session: nat, clientId: string): (r: Option<nat>)
    ensures r.Some? ==> 0 < r.value <= |messages| && SentAs(messages[r.value - 1], session, clientId)
    ensures r.None? ==> forall i | 0 <= i < |messages| :: !SentAs(messages[i], session, clientId)
  {
    if messages == [] then None
    else
      var earlier := Duplicate(messages[..|messages| - 1], session, clientId);
      if earlier.Some? then earlier
      else if SentAs(messages[|messages| - 1], session, clientId) then Some(|messages|) else None
  }

  /** The author's latest chat message in the session is less than the gap old. */
  predicate JustSent(messages: seq<Message>, session: nat, author: int, now: int) {
    exists m | m in messages ::
      m.session == Some(session) && m.author == Some(author) && m.clientId.Some? && now - m.createdAt < SEND_GAP
  }

  predicate Seen(m: Message, session: nat) { m.session == Some(session) && m.public }

  /** The ids above `after` of the session's public messages, in order. */
  function PublicAfter(messages: seq<Message>, session: nat, after: nat): seq<nat> {
    if messages == [] then []
    else
      var id := |messages|;
      PublicAfter(messages[..id - 1], session, after) +
      if Seen(messages[id - 1], session) && after < id then [id] else []
  }

  function Take(ids: seq<nat>, limit: nat): seq<nat> {
    if |ids| <= limit then ids else ids[..limit]
  }

  // ---------------------------------------------------------------- requests

  datatype Step =
    | RequestChat(ticket: int, user: int, now: int)
    | Accept(session: nat, user: int, now: int)
    | Send(session: nat, user: int, text: string, clientId: string, now: int)
    | Close(session: nat, user: int, now: int)
    | CloseTicket(ticket: int, now: int)
    | ChangeTicket(ticket: int, assignee: Option<int>, open: bool)
    | OtherMessage(ticket: int, author: Option<int>, text: string, public: bool, now: int)

  function Marker(ticket: int, session: nat, user: int, body: Body, now: int): Message {
    Message(ticket, Some(session), Some(user), None, body, true, now)
  }

  predicate MayUse(d: Desk, session: nat, user: int) {
    && session < |d.sessions|
    && d.sessions[session].ticket in d.tickets
    && d.tickets[d.sessions[session].ticket].Participant(user)
  }

  /** A participant sends text to an open session of an open ticket. */
  predicate MaySend(d: Desk, session: nat, user: int, text: string) {
    && MayUse(d, session, user) && d.sessions[session].Open() && d.tickets[d.sessions[session].ticket].open
    && Strip(text) != []
  }

  function Answer(d: Desk, step: Step): Reply {
    match step
    case RequestChat(ticket, user, _) =>
      if !(ticket in d.tickets && d.tickets[ticket].Participant(user)) then NotFound
      else if !d.tickets[ticket].open || d.tickets[ticket].assignee.None? then Conflict
      else var open := OpenSession(d.sessions, ticket); Done(if open.Some? then open.value else |d.sessions|)
    case Accept(session, user, _) =>
      if !MayUse(d, session, user) || d.sessions[session].requestedBy == user then NotFound
      else if d.sessions[session].status == Closed then Conflict
      else Done(session)
    case Send(session, user, text, clientId, now) =>
      if !MayUse(d, session, user) then NotFound
      else if !d.sessions[session].Open() || !d.tickets[d.sessions[session].ticket].open then Conflict
      else if Strip(text) == [] then Blank
      else
        var sent := Duplicate(d.messages, session, clientId);
        if sent.Some? then Done(sent.value)
        else if JustSent(d.messages, session, user, now) then TooSoon
        else Done(|d.messages| + 1)
    case Close(session, user, _) =>
      if !MayUse(d, session, user) then NotFound else Done(session)
    case _ => Done(0)
  }

  function ClosedSessions(sessions: seq<Session>, ticket: int): (r: seq<Session>)
    ensures |r| == |sessions|
  {
    seq(|sessions|, i requires 0 <= i < |sessions| =>
      if sessions[i].ticket == ticket then sessions[i].(status := Closed) else sessions[i])
  }

  /** The tables after a request. */
  function Apply(d: Desk, step: Step): Desk {
    var reply := Answer(d, step);
    match step
    case RequestChat(ticket, user, now) =>
      if reply != Done(|d.sessions|) then d
      else d.(sessions := d.sessions + [Session(ticket, user, None, Requested)],
              messages := d.messages + [Marker(ticket, |d.sessions|, user, Started, now)])
    case Accept(session, user, now) =>
      if !reply.Done? || d.sessions[session].status != Requested then d
      else d.(sessions := d.sessions[session := d.sessions[session].(status := Active, acceptedBy := Some(user))],
              messages := d.messages + [Marker(d.sessions[session].ticket, session, user, Joined, now)])
    case Send(session, user, text, clientId, now) =>
      if reply != Done(|d.messages| + 1) then d
      else d.(messages := d.messages + [Message(d.sessions[session].ticket, Some(session), Some(user), Some(clientId),
                                                Words(Strip(text)), true, now)])
    case Close(session, user, now) =>
      if !reply.Done? || d.sessions[session].status == Closed then d
      else d.(sessions := d.sessions[session := d.sessions[session].(status := Closed)],
              messages := d.messages + [Marker(d.sessions[session].ticket, session, user, Ended, now)])
    case CloseTicket(ticket, now) =>
      if !(ticket in d.tickets && d.tickets[ticket].open) then d
      else Desk(d.tickets[ticket := d.tickets[ticket].(open := false)], ClosedSessions(d.sessions, ticket),
                d.messages + [Message(ticket, None, None, None, Note("closed"), true, now)])
    case ChangeTicket(ticket, assignee, open) =>
      if ticket !in d.tickets then d
      else d.(tickets := d.tickets[ticket := d.tickets[ticket].(assignee := assignee, open := open)])
    case OtherMessage(ticket, author, text, public, now) =>
      d.(messages := d.messages + [Message(ticket, None, author, None, Note(text), public, now)])
  }

  class ChatDesk {
    var tickets: map<int, Ticket>
    var sessions: seq<Session>
    var messages: seq<Message>

    constructor (tickets: map<int, Ticket>)
      ensures State() == Desk(tickets, [], [])
    {
      this.tickets, sessions, messages := tickets, [], [];
    }

    function State(): Desk
      reads this
    {
      Desk(tickets, sessions, messages)
    }

    method Request(ticket: int, user: int, now: int) returns (reply: Reply)
      modifies this
      ensures reply == Answer(old(State()), RequestChat(ticket, user, now))
      ensures State() == Apply(old(State()), RequestChat(ticket, user, now))
    {
      if ticket !in tickets || !tickets[ticket].Participant(user) {
        return NotFound;
      }
      if !tickets[ticket].open || tickets[ticket].assignee.None? {
        return Conflict;
      }
      var existing := OpenSession(sessions, ticket);
      if existing.Some? {
        return Done(existing.value);
      }
      reply := Done(|sessions|);
      messages := messages + [Marker(ticket, |sessions|, user, Started, now)];
      sessions := sessions + [Session(ticket, user, None, Requested)];
    }

    method AcceptChat(session: nat, user: int, now: int) returns (reply: Reply)
      modifies this
      ensures reply == Answer(old(State()), Accept(session, user, now))
      ensures State() == Apply(old(State()), Accept(session, user, now))
    {
      if !MayUse(State(), session, user) || sessions[session].requestedBy == user {
        return NotFound;
      }
      if sessions[session].status == Closed {
        return Conflict;
      }
      if sessions[session].status == Requested {
        sessions := sessions[session := sessions[session].(status := Active, acceptedBy := Some(user))];
        messages := messages + [Marker(sessions[session].ticket, session, user, Joined, now)];
      }
      reply := Done(session);
    }

    method SendMessage(session: nat, user: int, text: string, clientId: string, now: int) returns (reply: Reply)
      modifies this
      ensures reply == Answer(old(State()), Send(session, user, text, clientId, now))
      ensures State() == Apply(old(State()), Send(session, user, text, clientId, now))
    {
      if !MayUse(State(), session, user) {
        return NotFound;
      }
      if !sessions[session].Open() || !tickets[sessions[session].ticket].open {
        return Conflict;
      }
      if Strip(text) == [] {
        return Blank;
      }
      var sent := Duplicate(messages, session, clientId);
      if sent.Some? {
        return Done(sent.value);
      }
      if JustSent(messages, session, user, now) {
        return TooSoon;
      }
      messages := messages + [Message(sessions[session].ticket, Some(session), Some(user), Some(clientId),
                                      Words(Strip(text)), true, now)];
      reply := Done(|messages|);
    }

    method CloseChat(session: nat, user: int, now: int) returns (reply: Reply)
      modifies this
      ensures reply == Answer(old(State()), Close(session, user, now))
      ensures State() == Apply(old(State()), Close(session, user, now))
    {
      if !MayUse(State(), session, user) {
        return NotFound;
      }
      if sessions[session].status != Closed {
        sessions := sessions[session := sessions[session].(status := Closed)];
        messages := messages + [Marker(sessions[session].ticket, session, user, Ended, now)];
      }
      reply := Done(session);
    }

    /** The requester closes the ticket; its open sessions close with it. */
    method CloseTicketByRequester(ticket: int, now: int)
      modifies this
      ensures State() == Apply(old(State()), CloseTicket(ticket, now))
    {
      if ticket !in tickets || !tickets[ticket].open {
        return;
      }
      tickets := tickets[ticket := tickets[ticket].(open := false)];
      var i := 0;
      while i < |sessions|
        invariant i <= |sessions| == |old(sessions)|
        invariant messages == old(messages)
        invariant tickets == old(tickets)[ticket := old(tickets)[ticket].(open := false)]
        invariant forall j | 0 <= j < |sessions| ::
          sessions[j] == if j < i then ClosedSessions(old(sessions), ticket)[j] else old(sessions)[j]
      {
        if sessions[i].ticket == ticket && sessions[i].Open() {
          sessions := sessions[i := sessions[i].(status := Closed)];
        }
        i := i + 1;
      }
      assert sessions == ClosedSessions(old(sessions), ticket);
      messages := messages + [Message(ticket, None, None, None, Note("closed"), true, now)];
    }

    /** One poll by a participant: the next public messages after the cursor,
        `limit` at most. */
    method Poll(session: nat, user: int, after: nat, limit: nat) returns (r: Option<seq<nat>>)
      ensures r == if MayUse(State(), session, user) then Some(Take(PublicAfter(messages, session, after), limit))
                   else None
    {
      if !MayUse(State(), session, user) {
        return None;
      }
      var ids: seq<nat> := [];
      for i := 0 to |messages|
        invariant ids == Take(PublicAfter(messages[..i], session, after), limit)
      {
        assert messages[..i + 1][..i] == messages[..i];
        if Seen(messages[i], session) && after < i + 1 && |ids| < limit {
          ids := ids + [i + 1];
        }
      }
      assert messages[..|messages|] == messages;
      r := Some(ids);
    }
  }

  // ---------------------------------------------------------------- invariants

  ghost predicate Rivals(a: Session, b: Session) { a.Open() && b.Open() && a.ticket == b.ticket }

  ghost predicate SameSend(a: Message, b: Message) {
    a.session.Some? && a.session == b.session && a.clientId.Some? && a.clientId == b.clientId
  }

  ghost predicate DeskOk(d: Desk) {
    && (forall i | 0 <= i < |d.sessions| :: d.sessions[i].ticket in d.tickets)
    && (forall i | 0 <= i < |d.messages| && d.messages[i].session.Some? :: d.messages[i].session.value < |d.sessions|)
    && (forall i, j | 0 <= i < j < |d.sessions| :: !Rivals(d.sessions[i], d.sessions[j]))
    && (forall i, j | 0 <= i < j < |d.messages| :: !SameSend(d.messages[i], d.messages[j]))
  }

  /** At most one open session per ticket, and at most one message per client id
      in a session: every request keeps both. */
  lemma StepKeepsDesk(d: Desk, step: Step)
    requires DeskOk(d)
    ensures DeskOk(Apply(d, step))
  {
    var d' := Apply(d, step);
    SessionsStayApart(d, step);
    SendsStayApart(d, step);
    match step
    case CloseTicket(ticket, now) =>
    case _ =>
  }

  lemma SessionsStayApart(d: Desk, step: Step)
    requires DeskOk(d)
    ensures forall i, j | 0 <= i < j < |Apply(d, step).sessions| ::
      !Rivals(Apply(d, step).sessions[i], Apply(d, step).sessions[j])
  {
    var after := Apply(d, step).sessions;
    forall i, j | 0 <= i < j < |after| ensures !Rivals(after[i], after[j]) {
      if j < |d.sessions| {
        assert !Rivals(d.sessions[i], d.sessions[j]);
      }
    }
  }

  lemma SendsStayApart(d: Desk, step: Step)
    requires DeskOk(d)
    ensures forall i, j | 0 <= i < j < |Apply(d, step).messages| ::
      !SameSend(Apply(d, step).messages[i], Apply(d, step).messages[j])
  {
    var after := Apply(d, step).messages;
    forall i, j | 0 <= i < j < |after| ensures !SameSend(after[i], after[j]) {
      if j < |d.messages| {
        assert !SameSend(d.messages[i], d.messages[j]);
      }
    }
  }

  /** What a request may do to a session that exists: closed stays closed, with
      the messages it has, and the message table only grows. */
  lemma ClosedStaysClosed(d: Desk, step: Step, s: nat)
    requires DeskOk(d) && s < |d.sessions|
    ensures |d.sessions| <= |Apply(d, step).sessions|
    ensures d.sessions[s].status == Closed ==> Apply(d, step).sessions[s] == d.sessions[s]
    ensures d.messages <= Apply(d, step).messages
    ensures d.sessions[s].status == Closed ==>
      forall i | |d.messages| <= i < |Apply(d, step).messages| :: Apply(d, step).messages[i].session != Some(s)
  {
    hide Strip, JustSent, Duplicate;
    match step
    case RequestChat(_, _, _) =>
    case Accept(_, _, _) =>
    case Send(_, _, _, _, _) =>
    case Close(_, _, _) =>
    case CloseTicket(_, _) =>
    case ChangeTicket(_, _, _) =>
    case OtherMessage(_, _, _, _, _) =>
  }

  /** The tables after a run of requests. */
  function After(d: Desk, run: seq<Step>): Desk
    decreases |run|
  {
    if run == [] then d else After(Apply(d, run[0]), run[1..])
  }

  lemma {:induction false} RunKeepsDesk(d: Desk, run: seq<Step>)
    requires DeskOk(d)
    ensures DeskOk(After(d, run))
    decreases |run|
  {
    if run != [] {
      StepKeepsDesk(d, run[0]);
      RunKeepsDesk(Apply(d, run[0]), run[1..]);
    }
  }

  /** Over any run from an empty desk a ticket never has two open sessions, and a
      client id is never stored twice in a session. */
  lemma OneOpenSession(tickets: map<int, Ticket>, run: seq<Step>)
    ensures var d := After(Desk(tickets, [], []), run);
      && (forall i, j | 0 <= i < j < |d.sessions| :: !Rivals(d.sessions[i], d.sessions[j]))
      && (forall i, j | 0 <= i < j < |d.messages| :: !SameSend(d.messages[i], d.messages[j]))
  {
    RunKeepsDesk(Desk(tickets, [], []), run);
  }

  /** A closed session never reopens and never takes another message. */
  lemma {:induction false} ClosedForever(d: Desk, run: seq<Step>, s: nat)
    requires DeskOk(d) && s < |d.sessions| && d.sessions[s].status == Closed
    ensures s < |After(d, run).sessions| && After(d, run).sessions[s] == d.sessions[s]
    ensures d.messages <= After(d, run).messages
    ensures forall i | |d.messages| <= i < |After(d, run).messages| :: After(d, run).messages[i].session != Some(s)
    decreases |run|
  {
    if run != [] {
      var next, last := Apply(d, run[0]), After(d, run);
      ClosedStaysClosed(d, run[0], s);
      StepKeepsDesk(d, run[0]);
      ClosedForever(next, run[1..], s);
      forall i | |d.messages| <= i < |last.messages| ensures last.messages[i].session != Some(s) {
        if i < |next.messages| {
          assert last.messages[i] == next.messages[i];
        }
      }
    }
  }

  /** Once a client id is stored in a session, sending it again adds nothing.  While
      the chat is open, and then only, the answer is the stored message: a resend is
      never too soon. */
  lemma StoredOnce(d: Desk, id: nat, session: nat, clientId: string, again: Step)
    requires DeskOk(d) && 0 < id <= |d.messages| && SentAs(d.messages[id - 1], session, clientId)
    requires again.Send? && again.session == session && again.clientId == clientId
    ensures Apply(d, again) == d
    ensures if MaySend(d, session, again.user, again.text) then Answer(d, again) == Done(id)
            else !Answer(d, again).Done?
    ensures Answer(d, again) != TooSoon
  {
    hide Strip, JustSent;
    var found := Duplicate(d.messages, session, clientId);
    assert found.Some?;
    var stored, other := d.messages[id - 1], d.messages[found.value - 1];
    assert SameSend(stored, other) && SameSend(other, stored);
  }

  lemma SendStores(d: Desk, step: Step)
    requires step.Send? && Answer(d, step).Done?
    ensures 0 < Answer(d, step).id <= |Apply(d, step).messages|
    ensures SentAs(Apply(d, step).messages[Answer(d, step).id - 1], step.session, step.clientId)
  {
    hide Strip, JustSent;
    match step
    case Send(session, user, text, clientId, now) =>
      assert Apply(d, step).messages in {d.messages, Apply(d, step).messages};
  }

  /** A message that was accepted can be sent again under its client id at any later
      time: nothing is added, and while the chat is open the answer is that message. */
  lemma ResendAddsNothing(d: Desk, first: Step, run: seq<Step>, again: Step)
    requires DeskOk(d) && first.Send? && Answer(d, first).Done?
    requires again.Send? && again.session == first.session && again.clientId == first.clientId
    ensures var later := After(Apply(d, first), run);
      && Apply(later, again) == later
      && (if MaySend(later, again.session, again.user, again.text) then Answer(later, again) == Answer(d, first)
          else !Answer(later, again).Done?)
      && Answer(later, again) != TooSoon
  {
    var next := Apply(d, first);
    StepKeepsDesk(d, first);
    RunKeepsDesk(next, run);
    MessagesGrow(next, run);
    var later, id := After(next, run), Answer(d, first).id;
    SendStores(d, first);
    assert later.messages[id - 1] == next.messages[id - 1];
    StoredOnce(later, id, first.session, first.clientId, again);
  }

  lemma StepAddsMessages(d: Desk, step: Step)
    ensures d.messages <= Apply(d, step).messages
  {
    hide Strip, JustSent, Duplicate, OpenSession, ClosedSessions;
  }

  lemma {:induction false} MessagesGrow(d: Desk, run: seq<Step>)
    ensures d.messages <= After(d, run).messages
    decreases |run|
  {
    hide Apply;
    if run != [] {
      StepAddsMessages(d, run[0]);
      MessagesGrow(Apply(d, run[0]), run[1..]);
    }
  }

  // ---------------------------------------------------------------- polling

  /** One poll of a reader: the message table it sees and the limit it asks for. */
  datatype Read = Read(messages: seq<Message>, limit: nat)

  /** What a reader has received, polling each time after the last id it saw. */
  function Received(polls: seq<Read>, session: nat): seq<nat> {
    if polls == [] then []
    else
      var before := Received(polls[..|polls| - 1], session);
      var read := polls[|polls| - 1];
      before + Take(PublicAfter(read.messages, session, Cursor(before)), read.limit)
  }

  function Cursor(ids: seq<nat>): nat {
    if ids == [] then 0 else ids[|ids| - 1]
  }

  /** Messages are only ever added between two polls. */
  ghost predicate Growing(polls: seq<Read>) {
    forall i, j | 0 <= i < j < |polls| :: polls[i].messages <= polls[j].messages
  }

  ghost predicate AscendingWithin(ids: seq<nat>, lo: nat, hi: nat) {
    && (forall i | 0 <= i < |ids| :: lo < ids[i] <= hi)
    && (forall i, j | 0 <= i < j < |ids| :: ids[i] < ids[j])
  }

  lemma {:induction false} PublicAscends(messages: seq<Message>, session: nat, after: nat)
    ensures AscendingWithin(PublicAfter(messages, session, after), after, |messages|)
  {
    if messages != [] {
      PublicAscends(messages[..|messages| - 1], session, after);
    }
  }

  lemma {:induction false} PublicGrows(messages: seq<Message>, more: seq<Message>, session: nat)
    requires messages <= more
    ensures PublicAfter(messages, session, 0) <= PublicAfter(more, session, 0)
    decreases |more|
  {
    if |messages| < |more| {
      PublicGrows(messages, more[..|more| - 1], session);
    } else {
      assert messages == more;
    }
  }

  /** What lies after the cursor is what was not taken yet. */
  lemma {:induction false} PublicAfterPrefix(messages: seq<Message>, session: nat, k: nat)
    requires k <= |PublicAfter(messages, session, 0)|
    ensures var all := PublicAfter(messages, session, 0);
      PublicAfter(messages, session, Cursor(all[..k])) == all[k..]
    decreases |messages|
  {
    if messages != [] {
      var all := PublicAfter(messages, session, 0);
      var rest := messages[..|messages| - 1];
      var before := PublicAfter(rest, session, 0);
      PublicAscends(rest, session, 0);
      if k <= |before| {
        PublicAfterPrefix(rest, session, k);
        assert all[..k] == before[..k];
        assert Cursor(before[..k]) <= |rest|;
        assert all == before + all[|before|..];
        assert all[k..] == before[k..] + all[|before|..];
      } else {
        PublicAfterNothing(messages, session, Cursor(all[..k]));
      }
    }
  }

  lemma {:induction false} PublicAfterNothing(messages: seq<Message>, session: nat, after: nat)
    requires |messages| <= after
    ensures PublicAfter(messages, session, after) == []
  {
    if messages != [] {
      PublicAfterNothing(messages[..|messages| - 1], session, after);
    }
  }

  /** One poll from a reader that has received a beginning of the messages. */
  lemma OnePoll(messages: seq<Message>, session: nat, before: seq<nat>, limit: nat)
    requires before <= PublicAfter(messages, session, 0)
    ensures var got := Take(PublicAfter(messages, session, Cursor(before)), limit);
      && before + got <= PublicAfter(messages, session, 0)
      && (|got| < limit ==> before + got == PublicAfter(messages, session, 0))
  {
    var all := PublicAfter(messages, session, 0);
    PublicAfterPrefix(messages, session, |before|);
    assert all[..|before|] == before;
    assert before + all[|before|..] == all;
  }

  /** Polling delivers the session's public messages exactly once and in order: for
      any limits and whatever is sent in between, what was received so far is the
      beginning of what there is. */
  lemma {:induction false} PollingIsExact(polls: seq<Read>, session: nat)
    requires Growing(polls) && polls != []
    ensures Received(polls, session) <= PublicAfter(polls[|polls| - 1].messages, session, 0)
    decreases |polls|
  {
    var read := polls[|polls| - 1];
    ReceivedBefore(polls, session);
    OnePoll(read.messages, session, Received(polls[..|polls| - 1], session), read.limit);
  }

  lemma {:induction false} ReceivedBefore(polls: seq<Read>, session: nat)
    requires Growing(polls) && polls != []
    ensures Received(polls[..|polls| - 1], session) <= PublicAfter(polls[|polls| - 1].messages, session, 0)
    decreases |polls|, 0
  {
    if 1 < |polls| {
      var earlier := polls[..|polls| - 1];
      PollingIsExact(earlier, session);
      PublicGrows(earlier[|earlier| - 1].messages, polls[|polls| - 1].messages, session);
    }
  }

  /** A poll that returns fewer messages than its limit has delivered everything. */
  lemma ShortPollCatchesUp(polls: seq<Read>, session: nat)
    requires Growing(polls) && polls != []
    requires |Received(polls, session)| < |Received(polls[..|polls| - 1], session)| + polls[|polls| - 1].limit
    ensures Received(polls, session) == PublicAfter(polls[|polls| - 1].messages, session, 0)
  {
    var read := polls[|polls| - 1];
    ReceivedBefore(polls, session);
    OnePoll(read.messages, session, Received(polls[..|polls| - 1], session), read.limit);
  }

  // ---------------------------------------------------------------- polling during a run

  lemma {:induction false} AfterConcat(d: Desk, a: seq<Step>, b: seq<Step>)
    ensures After(d, a + b) == After(After(d, a), b)
    decreases |a|
  {
    hide Apply;
    if a == [] {
      assert a + b == b;
    } else {
      assert (a + b)[1..] == a[1..] + b;
      AfterConcat(Apply(d, a[0]), a[1..], b);
    }
  }

  /** The polls of a reader during a run: poll `i` comes after the first `times[i]`
      requests and sees the messages of that moment. */
  ghost predicate DuringRun(d: Desk, run: seq<Step>, times: seq<nat>, polls: seq<Read>) {
    && |times| == |polls|
    && (forall i | 0 <= i < |times| :: times[i] <= |run|)
    && (forall i, j | 0 <= i < j < |times| :: times[i] <= times[j])
    && (forall i | 0 <= i < |polls| :: polls[i].messages == After(d, run[..times[i]]).messages)
  }

  lemma LaterHasMore(d: Desk, run: seq<Step>, k: nat, l: nat)
    requires k <= l <= |run|
    ensures After(d, run[..k]).messages <= After(d, run[..l]).messages
  {
    assert run[..l] == run[..k] + run[k..l];
    AfterConcat(d, run[..k], run[k..l]);
    MessagesGrow(After(d, run[..k]), run[k..l]);
  }

  lemma PollsOfRunGrow(d: Desk, run: seq<Step>, times: seq<nat>, polls: seq<Read>)
    requires DuringRun(d, run, times, polls)
    ensures Growing(polls)
  {
    hide After;
    forall i, j | 0 <= i < j < |polls| ensures polls[i].messages <= polls[j].messages {
      LaterHasMore(d, run, times[i], times[j]);
    }
  }

  /** Whatever requests come in between, a reader has always received a beginning of
      the public messages that the session has at its last poll. */
  lemma PollingDuringRun(d: Desk, run: seq<Step>, times: seq<nat>, polls: seq<Read>, session: nat)
    requires DuringRun(d, run, times, polls) && polls != []
    ensures Received(polls, session) <= PublicAfter(After(d, run[..times[|times| - 1]]).messages, session, 0)
  {
    hide After, Received, PublicAfter;
    PollsOfRunGrow(d, run, times, polls);
    PollingIsExact(polls, session);
  }

  /** While nothing is sent, every poll of at least one message delivers a missing one,
      so as many polls as messages are missing catch up. */
  lemma {:induction false} QuietPollsCatchUp(polls: seq<Read>, session: nat, k: nat, messages: seq<Message>)
    requires Growing(polls) && k < |polls|
    requires forall i | k <= i < |polls| :: polls[i].messages == messages && 0 < polls[i].limit
    ensures var all := PublicAfter(messages, session, 0);
      var before, got := Received(polls[..k], session), Received(polls, session);
      && got <= all
      && (|all| - |before| <= |polls| - k ==> got == all)
      && |got| >= if |all| - |before| <= |polls| - k then |all| else |before| + |polls| - k
    decreases |polls|
  {
    hide PublicAfter;
    var last := |polls| - 1;
    var earlier, read := polls[..last], polls[last];
    ReceivedBefore(polls, session);
    OnePoll(messages, session, Received(earlier, session), read.limit);
    if k < last {
      assert earlier[..k] == polls[..k];
      QuietPollsCatchUp(earlier, session, k, messages);
    }
  }
}
