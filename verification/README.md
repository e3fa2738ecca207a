# Dental front-desk dialogue core, modelled in Dafny

This project models the rule-based dialogue core of a dental clinic's chat
front desk (`main.py`). A user message and the prior session state go in; a
reply and the new state come out. A callback ticket is issued when the
conversation reaches hand-off.

The core has four parts:

- **The medical gate** (`Policy`). `is_medical_or_medication_question` is a
  case-insensitive substring test against thirteen fixed keywords. It has no
  word boundaries.
- **The contact extractor** (`Extraction`). `update_collected_from_text`
  strips the message once and then runs three heuristics. Phone: every digit
  and `+` of the message, kept when there are at least nine digits. Best time:
  the whole stripped message, when one of six time words occurs. Name: the
  text after the first of `"my name is "`, `"i am "`, `"i'm "` that occurs. It
  is cut at `.`, `,`, `;` and `" and "`, kept when it has at least two
  characters, and cut to eighty. Each heuristic fills its field only while the
  field is unset. "Unset" means `None` or the empty string, as Python's `not`
  sees it.
- **The three-state machine** (`Dialogue`). `next_reply` moves between
  `LIMITED_RESPONSE`, `COLLECT_CONTACT` and `HANDOFF`. The gate comes first at
  every step. Otherwise a session that is not handed off collects details.
  A handed-off session only gets an acknowledgment.
- **The store** (`Tickets`, `Store`). `create_ticket` issues `T-0001`,
  `T-0002`, … newest first. `get_state` picks the prior state in priority
  order. `webchat_message` issues a ticket only on the turn that crosses into
  `HANDOFF`. `reset_session` drops a session and its tickets.

Shared pieces are in `Text` (ASCII `lower`, `strip`, `find`, `in` and the
character filters), `Decimal` (`{:04d}` formatting and its parser), `State`
(the records) and `Wrappers` (`Option`).

The Python code changes the state object in place and keeps the store in
module globals. The model uses immutable values instead. Each operation takes
the state or the store (`Db`) as input and returns a new one.

Three consequences of `main.py` as written are worth stating up front:

- There is no FAQ routing. Every non-medical message goes through the
  contact collection or, once handed off, gets the acknowledgment.
- There is no label-based extraction (`phone:`, `name:`, `best time`). So a
  message like "Name: Alex Smith, Phone: 555 123 4567, Best time: tomorrow
  morning" fills the phone and the best time, but not the name, because none
  of `"my name is "`, `"i am "`, `"i'm "` occurs in it.
- The medical gate also applies in `HANDOFF`, and it moves the session back
  to `LIMITED_RESPONSE`. The next non-medical message then hands off again,
  and `webchat_message` issues a second ticket for the same session.
  `Store.TicketAgainAfterMedicalDetour` proves this.

## Model

| member | source | states |
|---|---|---|
| `Text.StripBounds` | main.py:168 | `strip` keeps one slice. Everything cut off on either side is whitespace. The kept part neither starts nor ends with whitespace. It is empty exactly when the message is all whitespace. |
| `Text.StripIdempotent` | main.py:168 | Stripping a stripped message changes nothing. |
| `Text.StripTrims` | main.py:168 | `strip` removes only whitespace, and only at the two ends: the result sits in the message with nothing but whitespace before and after it. |
| `Text.LowerStr` | main.py:169 | ASCII `lower` keeps the length and lower-cases each character in place. |
| `Text.LowerSlice` | main.py:169 | Lower-casing commutes with slicing. So the index `t.find` returns in the lower-cased text is valid in the original text. |
| `Text.Find` | main.py:187 | `find` returns -1 exactly when the pattern occurs nowhere. Otherwise it returns a non-negative index where the pattern occurs, with no occurrence before it. |
| `Text.PrefixBeforeFirstAvoids` | main.py:191-192 | The part before the first occurrence of a non-empty stop contains no stop. |
| `Text.ContainsAny` | main.py:145 | `any(k in t for k in keywords)` holds exactly when some keyword of the list occurs in `t`. |
| `Text.FirstContainedFrom` | main.py:186-188 | Returns the first list entry that occurs, with no earlier entry occurring. Returns nothing when no entry occurs. |
| `Text.PhoneChars` | main.py:172 | The digit/`+` filter keeps only digits and `+`. It is the identity on a string of such characters and empty on a string without any. |
| `Text.PhoneCharsAppend` | main.py:172 | The digit/`+` filter of a concatenation is the filter of each part, in order. Together with the filter's contract this fixes its value on any message, character by character. |
| `Text.PhoneDigitCount` | main.py:173 | `len(digits.replace("+", ""))` is the number of digits in the message. |
| `Text.PhoneCharsOfStrip` | main.py:168-172 | Stripping the message does not change the phone characters. |
| `Decimal.ParseToDecimal` | main.py:85 | Reading back the decimal rendering of `n` gives `n`. |
| `Decimal.Format04` | main.py:85 | `{:04d}` gives only digits. The result has four characters below 10000 and is never truncated. It reads back as the number. |
| `Tickets.TicketIdRoundTrip` | main.py:85 | An id is `T-` followed by at least four digits, and the counter value can be read back from it. |
| `Tickets.TicketIdInjective` | main.py:81-85 | Different counter values never share an id. |
| `Tickets.TicketIdExamples` | main.py:85 | Counter 1 gives `T-0001`, 42 gives `T-0042`, and 12345 gives `T-12345`. |
| `Tickets.TicketId` | main.py:85 | `f"T-{n:04d}"` is a well-formed identifier (`T-` and at least four digits) that reads back as `n`. |
| `Tickets.Summary` | main.py:267 | The summary is the fixed prefix plus the first `min(140, len)` characters of the message. A message that fits is quoted whole. |
| `Policy.IsMedical` | main.py:138-145 | A message is flagged exactly when one of the thirteen keywords occurs in its lower-cased form. |
| `Policy.MedicalIgnoresCase` | main.py:139 | A message and its lower-cased form are judged alike. |
| `Policy.MedicalInfix` | main.py:145 | There are no word boundaries. Any message that contains a flagged text is flagged itself. |
| `Policy.FlaggedAnywhere` | main.py:140-145 | Any keyword, with any text around it, flags the message. |
| `Extraction.ExtractPhone` | main.py:171-174 | The phone is set exactly when it was unset and the message has at least nine digits. Its value is then the in-order digits and `+` of the message. Otherwise it is unchanged. |
| `Extraction.ExtractBestTime` | main.py:176-181 | The best time becomes the whole stripped message exactly when it was unset and one of the six time words occurs in the lower-cased message. Otherwise it is unchanged. |
| `Extraction.CutAt` | main.py:190-192 | One stop step never lengthens the name. Without the stop the name is unchanged. With it, the result is stripped and is a piece of the text before the first occurrence of the stop. |
| `Extraction.CutAtTrimsPrefix` | main.py:191-192 | When the stop occurs, the cut is the whole text before its first occurrence, minus only surrounding whitespace. |
| `Extraction.CutAtAvoids` | main.py:190-192 | Cutting at a stop leaves a piece of the name that no longer contains that stop. |
| `Extraction.CutAtAll` | main.py:190-192 | The stop loop never lengthens the candidate. |
| `Extraction.CutAtAllNoStops` | main.py:190-192 | A candidate that contains none of the stops leaves the loop unchanged. |
| `Extraction.CutAtAllNameThen` | main.py:190-192 | If the text opens with a trimmed, stop-free name followed by a character `c` that is itself a stop, the stop loop ends at exactly that name. This holds whatever follows, provided no stop has `c` past its first character. |
| `Extraction.NameBeforePunctuation` | main.py:190-192 | A trimmed, stop-free name followed by `.`, `,` or `;` is cut back to exactly the name, whatever follows. |
| `Extraction.CutAtAllAvoids` | main.py:190-192 | After the stop loop, the candidate is a piece of the text and contains none of the stops. |
| `Extraction.CandidateStart` | main.py:185-189 | The search finds a start exactly when some pattern occurs. The start lies just after the first occurrence of the first pattern in list order that occurs; no earlier pattern occurs. |
| `Extraction.FirstPatternCandidate` | main.py:185-189 | There is a candidate exactly when one of the three patterns occurs in the lower-cased message. |
| `Extraction.CandidateOfRest` | main.py:189-192 | The candidate is a piece of the stripped text after the first pattern's occurrence (the start `CandidateStart` gives). When that text holds no stop, the candidate is all of it. |
| `Extraction.CandidateShape` | main.py:189-192 | The candidate is a piece of the message and contains no stop. |
| `Extraction.ExtractName` | main.py:183-195 | A name that is set is kept. An unset name is filled exactly when the first pattern's candidate has at least two characters, so a rejected candidate ends the search. A new name has 2 to 80 characters and is a piece of the message. It contains none of `.`, `,`, `;`, `" and "`. It is the candidate cut to eighty characters. |
| `Extraction.NameSentence` | main.py:185-194 | "My name is <n>" yields exactly `n` when `n` is a plain name. |
| `Extraction.PromptedFormatName` | main.py:185-194 | A reply in the format the bot asks for, "My name is <n>, ...", stores exactly `n` when `n` is a plain name of 2 to 80 characters. |
| `Extraction.RejectedCandidateEndsSearch` | main.py:186-195 | The search stops at the first pattern that occurs, even when its candidate is rejected. "My name is X. I am Robert" gives no name. |
| `Extraction.UpdateCollected` | main.py:163-197 | No field that was set changes. A field that changes becomes non-empty. The phone rule is stated on the raw message, and each field follows its own heuristic. |
| `Extraction.UpdateIdempotent` | main.py:163-197 | Running the extractor twice on the same message is the same as running it once. |
| `Dialogue.Missing` | main.py:214-220 | The missing list holds only the three labels, one per unset field, in the order name, phone number, best time to call. It is empty exactly when all three details are set. |
| `Dialogue.Collect` | main.py:211-237 | The collection branch extracts from the message. The step becomes `HANDOFF` exactly when all details are set and `COLLECT_CONTACT` otherwise. The reply lists the missing labels while any are missing. Otherwise it is the captured-details reply, with the three details and the practice name. |
| `Dialogue.NextReply` | main.py:204-243 | A medical message gives the limited response and sets `LIMITED_RESPONSE` at any step, with no detail touched. A handed-off session is otherwise left exactly as it was. Any other session goes through collection. No set detail is overwritten. |
| `Dialogue.ConverseKeeps` | main.py:204-243 | Over a whole conversation, no detail set at the start changes. |
| `Dialogue.HandoffLeftOnlyByGate` | main.py:239-243 | A handed-off session stays exactly as it is through any run of non-medical messages. |
| `Store.GetState` | main.py:119-127 | The prior state is the one sent with the message, then the prior state sent with it, then the stored one, then the default. |
| `Store.CreateTicket` | main.py:80-96 | The counter goes up by one, and the id is built from the new value. Unset details become `""`. The status is `OPEN`. The ticket is put at the head of the list, and sessions are untouched. |
| `Store.WebchatMessage` | main.py:256-274 | The new state is saved. A ticket is issued exactly when the step before the turn was not `HANDOFF` and the step after it is. Otherwise the tickets and the counter are unchanged. The issued ticket carries the details as they stand after this turn, the practice name, the clock value, the status `OPEN` and the summary of the message. |
| `Store.IssuedInfo` | main.py:269-273 | The `ticket` entry of the response (`Tickets.Info` of the new ticket) holds the identifier made from the advanced counter, `OPEN` and the creation time. |
| `Store.DropSession` | main.py:294 | Every ticket of the session is removed and every other ticket is kept, in the original order. |
| `Store.DropSessionCounts` | main.py:294 | Counted with repetitions: each ticket of another session is kept as often as it occurred, and none of the session's tickets is left. |
| `Store.ResetSession` | main.py:289-296 | The session key is gone, other sessions are unchanged, and the counter is unchanged. |
| `Store.ResetIdempotent` | main.py:290-294 | Resetting twice is the same as resetting once. Resetting an unknown session that has no tickets changes nothing. |
| `Store.ResetThenDefault` | main.py:290 | After a reset, a message for that session with no state of its own starts from the default state. |
| `Store.ValidIdsDistinct` | main.py:80-96 | In a store whose tickets were issued from the counter, no two tickets share an id. |
| `Store.CreateKeepsValid` | main.py:80-96 | Issuing a ticket keeps every ticket numbered within the counter, and keeps the list newest first. |
| `Store.ResetKeepsValid` | main.py:294 | Removing a session's tickets keeps that store invariant. |
| `Store.WebchatKeepsValid` | main.py:256-274 | A message turn keeps that store invariant. |
| `Store.NoSecondTicket` | main.py:257-268 | After a turn that hands off, the next turn that reads the saved state issues no ticket. |
| `Store.TicketAgainAfterMedicalDetour` | main.py:206-208 | A handed-off session that gets a medical message and then a non-medical one is issued a second ticket. |

## Left out

- HTTP routing, request validation, the global exception handler and logging (main.py:103-109, 250-253). These are framework plumbing.
- The staff dashboard HTML and the chat page file read (main.py:299-378). These are UI and file I/O.
- The clock (main.py:86). `created_at` is a parameter of `Store.CreateTicket` and `Store.WebchatMessage`.
- The reply wording. Replies are a `Reply` datatype that holds the values the text mentions: the practice name, the missing labels and the captured details. The ticket line appended to the reply (main.py:274) appears only as the `ticket` field of `Outgoing`.
- The `channel` and `msg` request fields, and the echoed fields of `OutgoingMessage`. They pass through unread.
- Full Unicode `str.lower`, `str.isdigit` and `str.strip`. The model lower-cases ASCII letters only, treats only `0`-`9` as digits, and treats only ASCII whitespace as strippable. The name rule finds an index in the lower-cased text and slices the original with it. This is sound because ASCII lower-casing keeps the length; Unicode lower-casing can change it.
- The `collected is None` guard (main.py:165-166). The record always has a `Collected` value here.
- Concurrency and in-place mutation of the global stores. The store is a value passed in and returned.
