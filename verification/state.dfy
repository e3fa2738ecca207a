/** The conversation records of the dental front desk: the step of the
    callback workflow, the contact details collected so far, and the session
    state that carries both between turns. */
module State {

  import opened Wrappers

  /** `Step`: the stage of a session's callback workflow. */
  datatype Step = LimitedResponse | CollectContact | Handoff

  /** `Collected`: the callback details gathered so far, each optional. */
  datatype Collected = Collected(name: Option<string>, phone: Option<string>, bestTime: Option<string>)

  /** `SessionState`; `procedure` and `intent` are placeholders the core
      carries through untouched. */
  datatype SessionState = SessionState(
    step: Step,
    procedure: Option<string>,
    intent: Option<string>,
    collected: Collected)

  const NoContact := Collected(None, None, None)

  /** `SessionState()`: the state of a session seen for the first time. */
  const DefaultState := SessionState(LimitedResponse, None, None, NoContact)

  /** Python's `not field`: a field is unset when it is `None` or the empty
      string. */
  predicate Unset(o: Option<string>) {
    o.None? || o.value == ""
  }

  /** All three callback details are present. */
  predicate Complete(c: Collected) {
    !Unset(c.name) && !Unset(c.phone) && !Unset(c.bestTime)
  }

  /** A field keeps its value once it is set. */
  predicate FieldKept(before: Option<string>, after: Option<string>) {
    !Unset(before) ==> after == before
  }

  /** `after` overwrites none of the details already present in `before`. */
  predicate Keeps(before: Collected, after: Collected) {
    && FieldKept(before.name, after.name)
    && FieldKept(before.phone, after.phone)
    && FieldKept(before.bestTime, after.bestTime)
  }
}
