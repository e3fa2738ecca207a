/** Callback tickets: the record `create_ticket` builds, its identifier
    format and the summary line written for it. */
module Tickets {

  import opened Text
  import opened Decimal

  /** `Ticket`: immutable once created. */
  datatype Ticket = Ticket(
    ticketId: string,
    createdAt: string,
    sessionId: string,
    practiceName: string,
    name: string,
    phone: string,
    bestTime: string,
    summary: string,
    status: string)

  /** The part of a ticket returned to the chat client. */
  datatype TicketInfo = TicketInfo(ticketId: string, status: string, createdAt: string)

  const TicketPrefix := "T-"
  const OpenStatus := "OPEN"
  const SummaryPrefix := "Callback requested. Latest user message: "
  const SummaryLength := 140

  function Info(t: Ticket): TicketInfo {
    TicketInfo(t.ticketId, t.status, t.createdAt)
  }

  /** `f"T-{n:04d}"`: a well-formed identifier that reads back as `n`. */
  function TicketId(n: nat): (r: string)
    ensures IsTicketId(r) && TicketNumber(r) == n
  {
    var r := TicketPrefix + Format04(n);
    assert r[..2] == TicketPrefix;
    assert r[2..] == Format04(n);
    r
  }

  /** Shape of an identifier: "T-" followed by at least four digits. */
  predicate IsTicketId(id: string) {
    |id| >= 6 && id[..2] == TicketPrefix && AllDigits(id[2..])
  }

  /** The counter value an identifier was made from (0 for a malformed one). */
  function TicketNumber(id: string): nat {
    if IsTicketId(id) then Parse(id[2..]) else 0
  }

  /** An identifier is "T-" and the counter zero-padded to at least four
      digits, and the counter can be read back from it; so distinct counter
      values never share an identifier. */
  lemma TicketIdRoundTrip(n: nat)
    ensures IsTicketId(TicketId(n)) && TicketNumber(TicketId(n)) == n
    ensures |TicketId(n)| == 2 + Max(4, |ToDecimal(n)|)
    ensures n < 10000 ==> |TicketId(n)| == 6
  {
    var id := TicketId(n);
    assert id[..2] == TicketPrefix;
    assert id[2..] == Format04(n);
  }

  /** The first ticket is T-0001; past 9999 the number widens instead of
      being cut. */
  lemma TicketIdExamples()
    ensures TicketId(1) == "T-0001"
    ensures TicketId(42) == "T-0042"
    ensures TicketId(12345) == "T-12345"
  {
  }

  lemma TicketIdInjective(a: nat, b: nat)
    requires TicketId(a) == TicketId(b)
    ensures a == b
  {
    TicketIdRoundTrip(a);
    TicketIdRoundTrip(b);
  }

  /** The summary: the fixed prefix and at most the first 140 characters of
      the message; a message that fits is quoted whole. */
  function Summary(message: string): (r: string)
    ensures |r| == |SummaryPrefix| + Min(SummaryLength, |message|)
    ensures r[..|SummaryPrefix|] == SummaryPrefix
    ensures r[|SummaryPrefix|..] == message[..|r| - |SummaryPrefix|]
    ensures |message| <= SummaryLength ==> r == SummaryPrefix + message
  {
    SummaryPrefix + Take(message, SummaryLength)
  }
}
