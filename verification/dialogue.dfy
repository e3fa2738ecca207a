/** `next_reply`: the three-state dialogue machine. The medical gate is
    applied first at every step; otherwise a session that is not yet handed
    off collects contact details, and a handed-off session only gets an
    acknowledgment. */
module Dialogue {

  import opened Wrappers
  import opened Text
  import opened State
  import opened Policy
  import opened Extraction

  /** The replies of `next_reply`, by kind, with the values they mention. */
  datatype Reply =
    | LimitedPolicy(practiceName: string)
    | StillNeed(missing: seq<string>)
    | DetailsCaptured(name: string, phone: string, bestTime: string, practiceName: string)
    | WithTeam(practiceName: string)

  /** A reply together with the session state after the turn. */
  datatype Turn = Turn(reply: Reply, state: SessionState)

  const NameLabel := "name"
  const PhoneLabel := "phone number"
  const BestTimeLabel := "best time to call"

  /** Position of a label in the fixed order name, phone, best time. */
  function LabelRank(l: string): nat {
    if l == NameLabel then 0 else if l == PhoneLabel then 1 else 2
  }

  predicate InLabelOrder(labels: seq<string>) {
    forall i, j :: 0 <= i < j < |labels| ==> LabelRank(labels[i]) < LabelRank(labels[j])
  }

  /** The `missing` list: one label per unset field, in the fixed order name,
      phone number, best time to call; empty exactly when all three details
      are present. */
  function Missing(c: Collected): (r: seq<string>)
    ensures r == [] <==> Complete(c)
    ensures NameLabel in r <==> Unset(c.name)
    ensures PhoneLabel in r <==> Unset(c.phone)
    ensures BestTimeLabel in r <==> Unset(c.bestTime)
    ensures |r| <= 3 && InLabelOrder(r)
    ensures forall l :: l in r ==> l == NameLabel || l == PhoneLabel || l == BestTimeLabel
  {
    (if Unset(c.name) then [NameLabel] else [])
    + (if Unset(c.phone) then [PhoneLabel] else [])
    + (if Unset(c.bestTime) then [BestTimeLabel] else [])
  }

  /** The collection branch of `next_reply`: extract from the message, then
      ask for what is still missing or hand off when nothing is. */
  function Collect(practiceName: string, userText: string, s: SessionState): (r: Turn)
    ensures r.state.collected == UpdateCollected(s.collected, userText)
    ensures r.state.procedure == s.procedure && r.state.intent == s.intent
    ensures r.state.step == Handoff <==> Complete(r.state.collected)
    ensures r.state.step == CollectContact <==> !Complete(r.state.collected)
    ensures r.reply.StillNeed? <==> !Complete(r.state.collected)
    ensures r.reply.StillNeed? ==> r.reply.missing == Missing(r.state.collected)
    ensures !r.reply.StillNeed? ==>
      r.reply == DetailsCaptured(r.state.collected.name.value, r.state.collected.phone.value,
                                 r.state.collected.bestTime.value, practiceName)
  {
    var c := UpdateCollected(s.collected, userText);
    var missing := Missing(c);
    if missing != [] then
      Turn(StillNeed(missing), s.(step := CollectContact, collected := c))
    else
      Turn(DetailsCaptured(c.name.value, c.phone.value, c.bestTime.value, practiceName),
           s.(step := Handoff, collected := c))
  }

  /** `next_reply(practice_name, user_text, state)`. */
  function NextReply(practiceName: string, userText: string, s: SessionState): (r: Turn)
    // the gate wins at every step, handed off or not, and touches no detail
    ensures IsMedical(userText) ==> r == Turn(LimitedPolicy(practiceName), s.(step := LimitedResponse))
    // a handed-off session is left exactly as it was
    ensures !IsMedical(userText) && s.step == Handoff ==> r == Turn(WithTeam(practiceName), s)
    // otherwise the details are extracted and the step follows completeness
    ensures !IsMedical(userText) && s.step != Handoff ==> r == Collect(practiceName, userText, s)
    ensures Keeps(s.collected, r.state.collected)
    ensures s.step != Handoff && r.state.step == Handoff ==> Complete(r.state.collected)
  {
    if IsMedical(userText) then
      Turn(LimitedPolicy(practiceName), s.(step := LimitedResponse))
    else if s.step != Handoff then  // LIMITED_RESPONSE or COLLECT_CONTACT
      Collect(practiceName, userText, s)
    else
      Turn(WithTeam(practiceName), s)
  }

  /** The state after a whole conversation: `next_reply` applied to each
      message in turn. */
  function Converse(practiceName: string, messages: seq<string>, s: SessionState): SessionState
    decreases |messages|
  {
    if messages == [] then s
    else Converse(practiceName, messages[1..], NextReply(practiceName, messages[0], s).state)
  }

  /** First write wins over a whole conversation: no detail that was set at
      the start is different at the end. */
  lemma {:induction false} ConverseKeeps(practiceName: string, messages: seq<string>, s: SessionState)
    ensures Keeps(s.collected, Converse(practiceName, messages, s).collected)
    decreases |messages|
  {
    if messages != [] {
      var next := NextReply(practiceName, messages[0], s).state;
      ConverseKeeps(practiceName, messages[1..], next);
    }
  }

  /** Once a session is handed off, only a medical message moves it, and
      then only back to the limited response; the details stay put. */
  lemma {:induction false} HandoffLeftOnlyByGate(practiceName: string, messages: seq<string>, s: SessionState)
    requires s.step == Handoff
    requires forall i :: 0 <= i < |messages| ==> !IsMedical(messages[i])
    ensures Converse(practiceName, messages, s) == s
    decreases |messages|
  {
    if messages != [] {
      HandoffLeftOnlyByGate(practiceName, messages[1..], s);
    }
  }
}
