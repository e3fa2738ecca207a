/** The in-memory store and the turn handler around `next_reply`: where the
    prior state comes from, when a callback ticket is issued, and what a
    session reset removes. The store is a value threaded through the
    operations instead of module-level globals. */
module Store {

  import opened Wrappers
  import opened Text
  import opened State
  import opened Policy
  import opened Dialogue
  import opened Tickets

  /** `IncomingMessage`, with the fields the handler reads. */
  datatype Incoming = Incoming(
    sessionId: string,
    userMessage: string,
    practiceName: string,
    priorState: Option<SessionState>,
    state: Option<SessionState>)

  /** `OutgoingMessage`: the reply, the new state and the ticket, if one was
      created on this turn. */
  datatype Outgoing = Outgoing(reply: Reply, state: SessionState, ticket: Option<TicketInfo>)

  /** `SESSION_DB`, `TICKET_DB` (newest first) and `TICKET_COUNTER`. */
  datatype Db = Db(sessions: map<string, SessionState>, tickets: seq<Ticket>, counter: nat)

  const EmptyDb := Db(map[], [], 0)

  // ---------------------------------------------------------------------------
  // get_state

  /** `get_state`: the state sent with the message wins, then the prior state
      sent with it, then the stored one, then a fresh default. */
  function GetState(p: Incoming, db: Db): (r: SessionState)
    ensures p.state.Some? ==> r == p.state.value
    ensures p.state.None? && p.priorState.Some? ==> r == p.priorState.value
    ensures p.state.None? && p.priorState.None? && p.sessionId in db.sessions ==> r == db.sessions[p.sessionId]
    ensures p.state.None? && p.priorState.None? && p.sessionId !in db.sessions ==> r == DefaultState
  {
    if p.state.Some? then p.state.value
    else if p.priorState.Some? then p.priorState.value
    else if p.sessionId in db.sessions then db.sessions[p.sessionId]
    else DefaultState
  }

  // ---------------------------------------------------------------------------
  // create_ticket

  datatype Issued = Issued(ticket: Ticket, db: Db)

  /** `create_ticket`: bump the counter, build an OPEN ticket named after the
      new counter value with the collected details (unset ones as ""), and
      put it at the head of the ticket list. `createdAt` stands for the
      clock reading. */
  function CreateTicket(db: Db, sessionId: string, practiceName: string, s: SessionState,
                        summary: string, createdAt: string): (r: Issued)
    ensures r.db.counter == db.counter + 1
    ensures r.db.sessions == db.sessions
    ensures r.db.tickets == [r.ticket] + db.tickets
    ensures IsTicketId(r.ticket.ticketId) && TicketNumber(r.ticket.ticketId) == r.db.counter
    ensures r.ticket.ticketId == TicketId(r.db.counter)
    ensures r.ticket.sessionId == sessionId && r.ticket.practiceName == practiceName
    ensures r.ticket.summary == summary && r.ticket.createdAt == createdAt
    ensures r.ticket.status == OpenStatus
    ensures !Unset(s.collected.name) ==> Some(r.ticket.name) == s.collected.name
    ensures Unset(s.collected.name) ==> r.ticket.name == ""
    ensures !Unset(s.collected.phone) ==> Some(r.ticket.phone) == s.collected.phone
    ensures Unset(s.collected.phone) ==> r.ticket.phone == ""
    ensures !Unset(s.collected.bestTime) ==> Some(r.ticket.bestTime) == s.collected.bestTime
    ensures Unset(s.collected.bestTime) ==> r.ticket.bestTime == ""
  {
    var n := db.counter + 1;
    var t := Ticket(TicketId(n), createdAt, sessionId, practiceName,
                    s.collected.name.GetOr(""), s.collected.phone.GetOr(""),
                    s.collected.bestTime.GetOr(""), summary, OpenStatus);
    Issued(t, Db(db.sessions, [t] + db.tickets, n))
  }

  // ---------------------------------------------------------------------------
  // webchat_message

  datatype Response = Response(out: Outgoing, db: Db)

  /** The turn handler of `webchat_message`: read the prior state, snapshot
      its step, run `next_reply`, save the new state, and issue a ticket
      exactly when this turn crossed into HANDOFF from another step. */
  function WebchatMessage(db: Db, p: Incoming, createdAt: string): (r: Response)
    ensures
      var before := GetState(p, db);
      var turn := NextReply(p.practiceName, p.userMessage, before);
      && r.out.reply == turn.reply && r.out.state == turn.state
      && r.db.sessions == db.sessions[p.sessionId := turn.state]
      && (r.out.ticket.Some? <==> before.step != Handoff && turn.state.step == Handoff)
    ensures r.out.ticket.None? ==> r.db.tickets == db.tickets && r.db.counter == db.counter
    ensures r.out.ticket.Some? ==>
      && r.db.counter == db.counter + 1
      && |r.db.tickets| == |db.tickets| + 1 && r.db.tickets[1..] == db.tickets
      && r.out.ticket.value == Info(r.db.tickets[0])
      && r.db.tickets[0].ticketId == TicketId(r.db.counter)
      && r.db.tickets[0].sessionId == p.sessionId
      && r.db.tickets[0].summary == Summary(p.userMessage)
    // the ticket carries the details as they stand after this turn
    ensures r.out.ticket.Some? ==>
      var after := NextReply(p.practiceName, p.userMessage, GetState(p, db)).state.collected;
      && r.db.tickets[0].name == after.name.GetOr("")
      && r.db.tickets[0].phone == after.phone.GetOr("")
      && r.db.tickets[0].bestTime == after.bestTime.GetOr("")
      && r.db.tickets[0].practiceName == p.practiceName
      && r.db.tickets[0].createdAt == createdAt
      && r.db.tickets[0].status == OpenStatus
  {
    var before := GetState(p, db);
    var turn := NextReply(p.practiceName, p.userMessage, before);
    var saved := db.(sessions := db.sessions[p.sessionId := turn.state]);
    if before.step != Handoff && turn.state.step == Handoff then
      var issued := CreateTicket(saved, p.sessionId, p.practiceName, turn.state,
                                 Summary(p.userMessage), createdAt);
      Response(Outgoing(turn.reply, turn.state, Some(Info(issued.ticket))), issued.db)
    else
      Response(Outgoing(turn.reply, turn.state, None), saved)
  }

  /** The `ticket` entry of the response: the new ticket's identifier, made
      from the advanced counter, the status `OPEN` and the creation time. */
  lemma IssuedInfo(db: Db, p: Incoming, createdAt: string)
    ensures var r := WebchatMessage(db, p, createdAt);
            r.out.ticket.Some? ==> r.out.ticket.value == TicketInfo(TicketId(db.counter + 1), OpenStatus, createdAt)
  {
  }

  // ---------------------------------------------------------------------------
  // reset_session

  /** `b` contains the elements of `a` in the same relative order. */
  ghost predicate IsSubsequence<T>(a: seq<T>, b: seq<T>)
    decreases |b|
  {
    if a == [] then true
    else if b == [] then false
    else if a[0] == b[0] then IsSubsequence(a[1..], b[1..])
    else IsSubsequence(a, b[1..])
  }

  /** `[t for t in tickets if t.session_id != session_id]`: every ticket of
      the session goes, every other ticket stays, in its original order. */
  function DropSession(tickets: seq<Ticket>, sessionId: string): (r: seq<Ticket>)
    ensures forall i :: 0 <= i < |r| ==> r[i].sessionId != sessionId
    ensures forall t :: t in tickets && t.sessionId != sessionId ==> t in r
    ensures forall t :: t in r ==> t in tickets
    ensures IsSubsequence(r, tickets)
    ensures (forall i :: 0 <= i < |tickets| ==> tickets[i].sessionId != sessionId) ==> r == tickets
  {
    if tickets == [] then []
    else
      var rest := DropSession(tickets[1..], sessionId);
      if tickets[0].sessionId != sessionId then [tickets[0]] + rest
      else
        assert rest == [] || rest[0] != tickets[0];
        rest
  }

  /** Counted with multiplicity: each ticket of another session is kept as
      many times as it occurs, and no ticket of the session is left. */
  lemma {:induction false} DropSessionCounts(tickets: seq<Ticket>, sessionId: string)
    ensures forall t :: multiset(DropSession(tickets, sessionId))[t]
                        == if t.sessionId != sessionId then multiset(tickets)[t] else 0
  {
    if tickets != [] {
      DropSessionCounts(tickets[1..], sessionId);
      assert tickets == [tickets[0]] + tickets[1..];
      assert multiset(tickets) == multiset([tickets[0]]) + multiset(tickets[1..]);
    }
  }

  /** `reset_session`: forget the session and its tickets; other sessions,
      other tickets and the counter are untouched. */
  function ResetSession(db: Db, sessionId: string): (r: Db)
    ensures sessionId !in r.sessions
    ensures r.sessions.Keys == db.sessions.Keys - {sessionId}
    ensures forall k :: k in r.sessions ==> r.sessions[k] == db.sessions[k]
    ensures r.tickets == DropSession(db.tickets, sessionId)
    ensures r.counter == db.counter
  {
    Db(db.sessions - {sessionId}, DropSession(db.tickets, sessionId), db.counter)
  }

  /** Resetting twice is resetting once; resetting an unknown session with no
      tickets changes nothing. */
  lemma ResetIdempotent(db: Db, sessionId: string)
    ensures ResetSession(ResetSession(db, sessionId), sessionId) == ResetSession(db, sessionId)
    ensures sessionId !in db.sessions && (forall t :: t in db.tickets ==> t.sessionId != sessionId)
            ==> ResetSession(db, sessionId) == db
  {
    var once := ResetSession(db, sessionId);
    assert once.sessions - {sessionId} == once.sessions;
    if sessionId !in db.sessions && (forall t :: t in db.tickets ==> t.sessionId != sessionId) {
      assert db.sessions - {sessionId} == db.sessions;
    }
  }

  /** After a reset, a message for that session that carries no state of its
      own starts from the default state. */
  lemma ResetThenDefault(db: Db, p: Incoming)
    requires p.state.None? && p.priorState.None?
    ensures GetState(p, ResetSession(db, p.sessionId)) == DefaultState
  {
  }

  // ---------------------------------------------------------------------------
  // store invariant

  /** Every stored ticket is named after a counter value already handed out,
      and the list runs from newest to oldest. */
  predicate Valid(db: Db) {
    && (forall i :: 0 <= i < |db.tickets| ==>
          IsTicketId(db.tickets[i].ticketId) && 1 <= TicketNumber(db.tickets[i].ticketId) <= db.counter)
    && Descending(db.tickets)
  }

  predicate Descending(ts: seq<Ticket>) {
    forall i, j :: 0 <= i < j < |ts| ==> Number(ts[i]) > Number(ts[j])
  }

  /** In a valid store no two tickets share an identifier. */
  lemma ValidIdsDistinct(db: Db)
    requires Valid(db)
    ensures forall i, j :: 0 <= i < j < |db.tickets| ==> db.tickets[i].ticketId != db.tickets[j].ticketId
  {
  }

  /** Ticket number of a stored ticket. */
  function Number(t: Ticket): nat {
    TicketNumber(t.ticketId)
  }

  lemma DescendingHeadAbove(ts: seq<Ticket>)
    requires ts != [] && Descending(ts)
    ensures forall x :: x in ts[1..] ==> Number(ts[0]) > Number(x)
  {
    forall x | x in ts[1..]
      ensures Number(ts[0]) > Number(x)
    {
      var k :| 0 <= k < |ts[1..]| && ts[1..][k] == x;
      assert ts[k + 1] == x;
    }
  }

  lemma DescendingCons(t: Ticket, rest: seq<Ticket>)
    requires Descending(rest)
    requires forall x :: x in rest ==> Number(t) > Number(x)
    ensures Descending([t] + rest)
  {
    var r := [t] + rest;
    forall i, j | 0 <= i < j < |r|
      ensures Number(r[i]) > Number(r[j])
    {
      assert r[j] == rest[j - 1];
      if i > 0 {
        assert r[i] == rest[i - 1];
      }
    }
  }

  lemma {:induction false} DropKeepsDescending(ts: seq<Ticket>, sessionId: string)
    requires Descending(ts)
    ensures Descending(DropSession(ts, sessionId))
  {
    if ts != [] {
      assert Descending(ts[1..]) by {
        forall i, j | 0 <= i < j < |ts[1..]|
          ensures Number(ts[1..][i]) > Number(ts[1..][j])
        {
          assert ts[1..][i] == ts[i + 1] && ts[1..][j] == ts[j + 1];
        }
      }
      DropKeepsDescending(ts[1..], sessionId);
      if ts[0].sessionId != sessionId {
        DescendingHeadAbove(ts);
        DescendingCons(ts[0], DropSession(ts[1..], sessionId));
      }
    }
  }

  lemma EmptyValid()
    ensures Valid(EmptyDb)
  {
  }

  lemma CreateKeepsValid(db: Db, sessionId: string, practiceName: string, s: SessionState,
                         summary: string, createdAt: string)
    requires Valid(db)
    ensures Valid(CreateTicket(db, sessionId, practiceName, s, summary, createdAt).db)
  {
    var r := CreateTicket(db, sessionId, practiceName, s, summary, createdAt);
    PushKeepsValid(db, r.ticket);
  }

  /** Putting a ticket numbered one past the counter at the head, and
      advancing the counter, keeps the store invariant. */
  lemma PushKeepsValid(db: Db, t: Ticket)
    requires Valid(db)
    requires IsTicketId(t.ticketId) && Number(t) == db.counter + 1
    ensures Valid(db.(tickets := [t] + db.tickets, counter := db.counter + 1))
  {
    var ts := [t] + db.tickets;
    assert forall x :: x in db.tickets ==> Number(x) <= db.counter;
    DescendingCons(t, db.tickets);
    forall i | 0 <= i < |ts|
      ensures IsTicketId(ts[i].ticketId) && 1 <= Number(ts[i]) <= db.counter + 1
    {
      if i > 0 {
        assert ts[i] == db.tickets[i - 1];
      }
    }
  }

  lemma ResetKeepsValid(db: Db, sessionId: string)
    requires Valid(db)
    ensures Valid(ResetSession(db, sessionId))
  {
    DropKeepsDescending(db.tickets, sessionId);
  }

  lemma WebchatKeepsValid(db: Db, p: Incoming, createdAt: string)
    requires Valid(db)
    ensures Valid(WebchatMessage(db, p, createdAt).db)
  {
    var before := GetState(p, db);
    var turn := NextReply(p.practiceName, p.userMessage, before);
    var saved := db.(sessions := db.sessions[p.sessionId := turn.state]);
    if before.step != Handoff && turn.state.step == Handoff {
      CreateKeepsValid(saved, p.sessionId, p.practiceName, turn.state, Summary(p.userMessage), createdAt);
    }
  }

  // ---------------------------------------------------------------------------
  // ticket edge

  /** Edge-triggered issuing: once a turn has handed the session off, the
      next turn that reads the saved state issues no ticket, whatever the
      message. */
  lemma NoSecondTicket(db: Db, p: Incoming, c1: string, q: Incoming, c2: string)
    requires WebchatMessage(db, p, c1).out.state.step == Handoff
    requires q.sessionId == p.sessionId && q.state.None? && q.priorState.None?
    ensures WebchatMessage(WebchatMessage(db, p, c1).db, q, c2).out.ticket.None?
    ensures WebchatMessage(WebchatMessage(db, p, c1).db, q, c2).db.tickets == WebchatMessage(db, p, c1).db.tickets
  {
  }

  /** The medical gate also applies to a handed-off session and moves it back
      to LIMITED_RESPONSE. Its details are still complete, so the next
      non-medical message hands it off again and issues another ticket for
      the same session. */
  lemma TicketAgainAfterMedicalDetour(db: Db, sessionId: string, m1: Incoming, m2: Incoming, c1: string, c2: string)
    requires sessionId in db.sessions
    requires db.sessions[sessionId].step == Handoff && Complete(db.sessions[sessionId].collected)
    requires m1.sessionId == sessionId && m1.state.None? && m1.priorState.None? && IsMedical(m1.userMessage)
    requires m2.sessionId == sessionId && m2.state.None? && m2.priorState.None? && !IsMedical(m2.userMessage)
    ensures WebchatMessage(db, m1, c1).out.ticket.None?
    ensures WebchatMessage(WebchatMessage(db, m1, c1).db, m2, c2).out.ticket.Some?
  {
    var s := db.sessions[sessionId];
    var db1 := WebchatMessage(db, m1, c1).db;
    assert db1.sessions[sessionId] == s.(step := LimitedResponse);
    var turn := NextReply(m2.practiceName, m2.userMessage, s.(step := LimitedResponse));
    assert Keeps(s.collected, turn.state.collected);
    assert Complete(turn.state.collected);
  }
}
