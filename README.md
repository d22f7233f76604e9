# Chat-with-a-PDF page: the `Home` session state machine

This project models the `Home` page component of a PDF tutoring web app, in Dafny. On that page a user uploads PDFs. Each upload becomes a *chat session* holding the file, its data URI and a history of `user`/`model` turns. The user asks questions about the active session's document, and answers come from a remote model. The component keeps five pieces of React state: `sessions`, `activeChatId`, `userInput`, `isLoading` and `sessionToDelete`. Five handlers change that state: upload, submit, delete request, delete confirmation and select.

The project is split into these modules:

- `Session` (session.dfy): messages and sessions, plus the pure list updates the handlers' state updaters apply, all keyed by session id:
  - `map` replacing the matching session (`UpdateHistory`);
  - `filter` (`RemoveSession`);
  - `find` (`FindSession`);
  - `slice(0, -1)` (`ApplyEdit`).
- `Transcript` (transcript.dfy): the `role: content` transcript sent with every question, with a reader for it. The reader gives back exactly the history the transcript was built from when no message content contains a newline. Without that condition two different histories can give the same transcript (`Transcript.TranscriptAmbiguous`).
- `Text` (text.dfy): JavaScript `String.prototype.trim`, used by the submit guard.
- `Page` (page.dfy): each handler as a pure function on a snapshot of the five state variables (`PageState`). It holds the lemmas stating what the handlers promise, and the invariants kept over any run of events.
- `Home` (home.dfy): the component as a class. The five state variables are its fields, and each handler is a method that makes the same `setX` updates. Each method is proved to end in the state the matching `Page` function gives.
- `Scenarios` (scenarios.dfy): whole interactions driven through the class from a freshly mounted page.

The asynchronous submit handler is split at its single `await`:
- `BeginSubmit` runs the guard and the optimistic update, and returns the request. The request holds what the remote call receives and what the continuation captured.
- `CompleteSubmit(req, result)` runs the continuation with the call's outcome.
- `HandleChatSubmit` runs the two back to back, for an exchange during which nothing else happens.

In the event-run model (`Page.Run`), other events may occur between the two halves.

## Model

| member | source | states |
|---|---|---|
| Session.ApplyEdit | src/app/page.tsx:104-130 | appending keeps every earlier turn and puts the new one last; `slice(0, -1)` leaves an empty history empty and otherwise drops exactly the last turn |
| Session.UpdateHistory | src/app/page.tsx:104-106 | the list keeps its length and order; a session whose id matches gets its history edited and keeps its id, file name and data URI; every other session is unchanged |
| Session.RemoveSession | src/app/page.tsx:152 | the filter never lengthens the list, no survivor carries the deleted id, and a list that keeps its length is unchanged |
| Session.RemoveMembers | src/app/page.tsx:152 | the filter keeps exactly the sessions whose id differs from the deleted one |
| Session.FindSession | src/app/page.tsx:52 | the lookup finds nothing exactly when no session carries the id; otherwise it returns a session of the list carrying that id |
| Session.FindFirst | src/app/page.tsx:52 | `find` returns the first session carrying the id |
| Session.UpdateAbsent | src/app/page.tsx:123-125 | an update keyed by an id that no session carries leaves the list exactly as it is, so a deleted session is never resurrected |
| Session.RollBackRestores | src/app/page.tsx:128-130 | dropping the last turn after appending one restores every session exactly |
| Session.UpdateKeepsIds | src/app/page.tsx:104-106 | an update changes neither which ids are present nor whether they are unique |
| Session.SameIds | src/app/page.tsx:104-106 | two lists with the same ids position by position agree on id presence and on uniqueness |
| Session.AppendFresh | src/app/page.tsx:77-83 | appending a session under a new id: the lookup finds it, every other id keeps its presence, and ids stay unique |
| Session.FindAfterUpdate | src/app/page.tsx:52 | after an update the lookup finds the same session as before, edited when the update was aimed at it |
| Session.FindUnique | src/app/page.tsx:52 | with unique ids the lookup returns the one session that carries the id |
| Session.RemoveAppend | src/app/page.tsx:152 | the filter distributes over concatenation, so the survivors keep their order |
| Session.RemoveAbsent | src/app/page.tsx:152 | filtering out an id that no session carries changes nothing |
| Session.RemoveExactlyOne | src/app/page.tsx:152 | with unique ids, deleting the id of the k-th session removes exactly that session and keeps the rest in order |
| Session.OthersLackId | src/app/page.tsx:152 | with unique ids, no session before or after position k carries the id at k |
| Session.RemoveKeepsUnique | src/app/page.tsx:152 | deletion never introduces a duplicate id |
| Transcript.Line | src/app/page.tsx:112 | a rendered turn is longer than its content and reads back as the same turn |
| Transcript.Join | src/app/page.tsx:113 | joining nothing gives the empty string, and a join starts with its first element |
| Transcript.TranscriptOf | src/app/page.tsx:111-113 | only the empty history gives the empty transcript, and a transcript starts with the rendering of the first turn |
| Transcript.Lines | src/app/page.tsx:111-112 | one line per turn, in order, each `role + ": " + content` |
| Transcript.SplitLines | src/app/page.tsx:113 | the reader's `split("\n")`, which inverts the join at this line, always yields at least one piece |
| Transcript.ParseLineOfLine | src/app/page.tsx:112 | each rendered turn reads back as itself and has no newline when its content has none |
| Transcript.JoinAppend | src/app/page.tsx:113 | joining one more line adds exactly one separator and that line |
| Transcript.TranscriptAppend | src/app/page.tsx:111-113 | the transcript grows by a newline and one rendered line per turn, with no separator before the first line |
| Transcript.TranscriptAfterExchange | src/app/page.tsx:111-113 | after a completed exchange, the next transcript is the earlier transcript followed by `user: question` and `model: answer` lines |
| Transcript.FirstExchange | src/app/page.tsx:111-113 | after a first exchange, the transcript is exactly its two lines |
| Transcript.SplitPrefix | src/app/page.tsx:113 | for the reader that inverts the join at this line: text without a newline sticks to the first piece of the split |
| Transcript.SplitJoin | src/app/page.tsx:113 | the reader's split on newlines undoes the join at this line when no line contains a newline |
| Transcript.ParseLinesOfLines | src/app/page.tsx:111-112 | reading the rendered lines back gives the history |
| Transcript.TranscriptRoundTrip | src/app/page.tsx:111-113 | when no content spans several lines, the transcript reads back to exactly the history it was built from |
| Transcript.TranscriptAmbiguous | src/app/page.tsx:111-113 | without that condition the encoding is not injective: a model turn `a` + newline + `user: ` + `b` gives the same transcript as the two turns `a` and `b` |
| Text.TrimStart | src/app/page.tsx:99 | the result is a suffix of the input, everything dropped is white space, and the result does not start with white space |
| Text.TrimEnd | src/app/page.tsx:99 | the result is a prefix of the input, everything dropped is white space, and the result does not end with white space |
| Text.Trim | src/app/page.tsx:99 | the trimmed input is no longer than the input and neither starts nor ends with white space |
| Text.TrimEmptyIffBlank | src/app/page.tsx:99 | the trimmed input is empty exactly when every character is white space |
| Page.Active | src/app/page.tsx:52 | the active session is null exactly when the pointer is unset or matches no session; otherwise it is a listed session carrying the active id |
| Page.Upload | src/app/page.tsx:61-95 | a session is added exactly for a picked file of type `application/pdf`; no file is reported as such; a refused pick changes nothing; an accepted one appends one empty session under the new id after the unchanged earlier sessions and makes it active |
| Page.UploadRejects | src/app/page.tsx:62-71 | no file, or a file whose type is not `application/pdf`, changes nothing |
| Page.UploadAppends | src/app/page.tsx:73-84 | a PDF under a new id adds one empty session at the end, keeps the earlier sessions in place, makes the new session the active one, and keeps ids unique |
| Page.UploadPreserves | src/app/page.tsx:73-84 | an upload keeps the active pointer valid, and keeps ids unique when the new id is fresh |
| Page.Begin | src/app/page.tsx:97-120 | a request is made exactly when the submit is not refused, and a refused submit changes nothing; a request carries the question and targets the active session, and afterwards the input is empty, loading is set, the session count and both pointers are unchanged |
| Page.BeginGuard | src/app/page.tsx:99 | submitting is refused exactly when the input is all white space, a call is in flight, or there is no active session; a refused submit changes nothing |
| Page.BeginAppends | src/app/page.tsx:101-118 | the optimistic step has these effects: <br>• the question is appended as a user turn at the end of the active session only; <br>• other sessions are unchanged; <br>• the input is cleared and loading is set; <br>• the request targets the active session and carries the question and the transcript of the history from BEFORE the append |
| Page.BeginPreserves | src/app/page.tsx:101-108 | the optimistic step keeps ids unique and the active pointer valid |
| Page.Complete | src/app/page.tsx:122-139 | loading ends, the session count and both pointers are unchanged, and the input is kept on success and restored to the question on failure |
| Page.CompleteEdits | src/app/page.tsx:122-139 | only the request's session changes: <br>• success appends a model turn; <br>• failure drops the last turn and restores the question to the input; <br>• loading ends either way; <br>• nothing else changes |
| Page.CompleteAfterDelete | src/app/page.tsx:123-130 | a response for a session deleted meanwhile leaves the session list exactly as it is |
| Page.CompletePreserves | src/app/page.tsx:122-139 | completion keeps ids unique and the active pointer valid |
| Page.Exchange | src/app/page.tsx:97-140 | the exchange makes the request `Begin` makes; without one nothing changes; with one loading has ended and the active pointer is unchanged, and on success the input is empty |
| Page.FailedExchangeRestores | src/app/page.tsx:97-140 | a failed exchange leaves the whole page state exactly as it was before the submit |
| Page.SuccessfulExchange | src/app/page.tsx:97-140 | a successful exchange appends the question and then the answer to the active session and to no other, clears the input and ends loading |
| Page.RequestDelete | src/app/page.tsx:142-145 | the delete request only records the pending id |
| Page.CancelDelete | src/app/page.tsx:318 | dismissing the dialog only clears the pending id |
| Page.ConfirmDelete | src/app/page.tsx:147-164 | with no pending id (null or empty) nothing changes; otherwise the pending id is cleared, no remaining session carries the deleted id, the active pointer no longer names it, the list does not grow, and the input and loading flag are unchanged |
| Page.DeleteRemoves | src/app/page.tsx:147-164 | request then confirm has these effects: <br>• exactly the sessions with other ids remain, and none carries the id; <br>• an active pointer on the id moves to the first remaining session, or to null when none remain; <br>• any other pointer stays; <br>• the pending id is cleared and nothing else changes |
| Page.ConfirmNothingPending | src/app/page.tsx:148 | confirming with no pending id (null or the empty string) is a no-op |
| Page.DeleteExactlyOne | src/app/page.tsx:152 | with unique ids, request then confirm removes exactly the chosen session and keeps the rest in order |
| Page.ConfirmPreserves | src/app/page.tsx:147-164 | confirmation keeps ids unique and the active pointer valid |
| Page.Select | src/app/page.tsx:166-168 | selecting sets the active pointer to the id and changes nothing else |
| Page.SelectShows | src/app/page.tsx:166-168 | after selecting, the page shows a session exactly when one carries the id, and that session is the selected one; the pointer is valid exactly then |
| Page.Step | src/app/page.tsx:61-168 | only an upload or a confirmed deletion changes the number of sessions; only those and a click move the active pointer; only the deletion dialog touches the pending id |
| Page.Run | src/app/page.tsx:61-168 | a run without uploads and confirmed deletions keeps the number of sessions; one without those and clicks keeps the active pointer |
| Page.StepPreserves | src/app/page.tsx:61-168 | every handler event allowed by the environment keeps both invariants |
| Page.RunPreserves | src/app/page.tsx:61-168 | any allowed run of events, including calls that settle after other events, keeps both invariants |
| Page.ReachableInvariant | src/app/page.tsx:42-46 | every state reachable from the mounted page by allowed events has unique ids and a valid active pointer |
| Home.Home.constructor | src/app/page.tsx:42-46 | the component mounts with no sessions, no active chat, empty input, not loading and nothing pending |
| Home.Home.HandleFileChange | src/app/page.tsx:61-95 | the outcome and the new fields are those of `Page.Upload`, and the invariants are kept |
| Home.Home.SetUserInput | src/app/page.tsx:241 | typing sets the input and nothing else |
| Home.Home.BeginSubmit | src/app/page.tsx:97-120 | the request and the new fields are those of `Page.Begin` |
| Home.Home.CompleteSubmit | src/app/page.tsx:122-139 | the new fields are those of `Page.Complete`, and the invariants are kept |
| Home.Home.HandleChatSubmit | src/app/page.tsx:97-140 | the request and the new fields are those of `Page.Exchange`, and the invariants are kept |
| Home.Home.HandleDeleteRequest | src/app/page.tsx:142-145 | the new fields are those of `Page.RequestDelete` |
| Home.Home.CancelDelete | src/app/page.tsx:328 | the new fields are those of `Page.CancelDelete` |
| Home.Home.ConfirmDeleteChat | src/app/page.tsx:147-164 | the new fields are those of `Page.ConfirmDelete`, and the invariants are kept |
| Home.Home.SelectChat | src/app/page.tsx:166-168 | the new fields are those of `Page.Select` |
| Scenarios.AnsweredQuestion | src/app/page.tsx:97-140 | upload, then one answered question: <br>• the first request has an empty transcript; <br>• the session holds the question and the answer; <br>• the input is empty and loading has ended |
| Scenarios.RefusedTextFile | src/app/page.tsx:64-71 | a `text/plain` upload is refused and no session or active chat appears |
| Scenarios.FollowUpTranscript | src/app/page.tsx:111-113 | the second question's transcript is `user: <first question>` and `model: <answer>` on two lines |
| Scenarios.FailedQuestion | src/app/page.tsx:126-139 | after a failed call, the session is empty again, the question is back in the input, and loading has ended |
| Scenarios.DeleteActive | src/app/page.tsx:147-164 | deleting the active one of two sessions leaves the other, makes it active and clears the pending id |

### Behaviour of the code worth knowing

- **Transcript.** The transcript sent to the remote call is built from the active session as captured at render time (`activeSession.chatHistory`). It therefore holds the history from before the optimistic append, and the question travels as a separate argument.
- **Select.** `selectChat` does not check that the id exists. Selecting an unknown id leaves the page with no active session (`Page.SelectShows`). The event-run invariant therefore assumes that the sidebar only offers existing sessions (`Page.Allowed`).
- **Reassignment after deleting the active session.** The new active session is the first remaining session, or none when no session remains.
- **Empty pending id.** `!sessionToDelete` is also true for the empty string, so confirming with a pending id of `""` does nothing.

## Left out

- Browser I/O is not modelled:
  - `FileReader.readAsDataURL` is treated as delivering at once. The data URI is a parameter of the upload, and no other event can come between the pick and the load.
  - Clearing the file input's value is not modelled.
- `Date.now().toString()` is not modelled; the new session id is a parameter. Two uploads within one millisecond would get equal ids, so keeping ids unique needs a fresh id (`Page.UploadPreserves`, `Page.Allowed`).
- The `File` object is kept only as its name.
- The remote tutoring call (the prompt flow and the language model) is an opaque result, either `Success(answer)` or `Failure`. The `isElifMode` flag is only passed through to that call, so it is not modelled.
- Toasts, `console.error`, the scroll effect, `preventDefault`/`stopPropagation`, and all rendering are not modelled. The deleted session's file name is only used by a toast, so that lookup is not modelled either.
- React batching is not modelled: each handler's `setX` calls are applied together. Real concurrency between overlapping requests is left out too. The loading flag serialises exchanges, and `Page.Run` allows a settle to arrive after any other events.
- Authentication, Firebase, the login and contact pages, layout and header components, and configuration carry no session logic and are not part of this model.
- Strings are Dafny strings, whose characters are Unicode scalar values, while JavaScript strings are sequences of UTF-16 code units. A lone surrogate cannot be represented, and lengths differ for characters outside the Basic Multilingual Plane (one character here, two code units in JavaScript). `Text.Trim` is unaffected, because every JavaScript white-space and line-terminator character lies in the Basic Multilingual Plane. Unicode normalisation is not modelled.
