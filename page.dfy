/**
 * The state transitions of the chat page as pure functions on a snapshot of
 * the `Home` component's five state variables. Each function is what one
 * event handler does to the state once all of its `setX` calls have been
 * applied; the `Home` class runs the same steps on its fields and is proved
 * to end in the state these functions give. The lemmas here state what the
 * handlers promise: the submit guard, the optimistic append, exact rollback,
 * id-keyed updates, two-phase deletion, and that session ids stay unique.
 */
module Page {
  import opened Session
  import opened Transcript
  import opened Text

  /** What the file picker hands over: the file's name and declared MIME type. */
  datatype FileInfo = FileInfo(name: string, mimeType: string)

  const PdfMimeType: string := "application/pdf"

  datatype UploadOutcome = NoFile | InvalidFileType | Uploaded(id: string)

  /** The arguments of the remote call together with the session id the
      continuation was created for. */
  datatype Request = Request(target: string, pdfDataUri: string, question: string, chatHistory: string)

  /** Outcome of the remote tutoring call: an answer, or a thrown error. */
  datatype RemoteResult = Success(answer: string) | Failure

  datatype PageState = PageState(
    sessions: seq<ChatSession>,
    activeChatId: Option<string>,
    userInput: string,
    isLoading: bool,
    sessionToDelete: Option<string>)

  /** The state the component mounts with. */
  const Initial: PageState := PageState([], None, "", false, None)

  /** Session ids are unique: every id comes from a fresh upload. */
  predicate Valid(p: PageState) {
    UniqueIds(p.sessions)
  }

  /** The active pointer, when set, names a session that exists. */
  predicate ActivePresent(p: PageState) {
    p.activeChatId.Some? ==> HasId(p.sessions, p.activeChatId.value)
  }

  /** `sessions.find(s => s.id === activeChatId) || null`: the session the
      page shows, none when the pointer is unset or dangling. */
  function Active(p: PageState): (r: Option<ChatSession>)
    ensures r.None? <==> p.activeChatId.None? || !HasId(p.sessions, p.activeChatId.value)
    ensures r.Some? ==> p.activeChatId == Some(r.value.id) && r.value in p.sessions
  {
    if p.activeChatId.None? then None else FindSession(p.sessions, p.activeChatId.value)
  }

  // ---------------------------------------------------------------- upload

  /** `handleFileChange` once the reader has delivered the data URI. */
  function Upload(p: PageState, file: Option<FileInfo>, newId: string, dataUri: string): (r: (UploadOutcome, PageState))
    ensures r.0.Uploaded? <==> file.Some? && file.value.mimeType == PdfMimeType
    ensures r.0 == NoFile <==> file.None?
    ensures !r.0.Uploaded? ==> r.1 == p
    ensures r.0.Uploaded? ==>
      && r.0.id == newId && r.1.activeChatId == Some(newId)
      && |r.1.sessions| == |p.sessions| + 1 && r.1.sessions[..|p.sessions|] == p.sessions
      && r.1.sessions[|p.sessions|].id == newId && r.1.sessions[|p.sessions|].chatHistory == []
  {
    if file.None? then (NoFile, p)
    else if file.value.mimeType != PdfMimeType then (InvalidFileType, p)
    else
      var s := ChatSession(newId, file.value.name, dataUri, []);
      (Uploaded(newId), p.(sessions := p.sessions + [s], activeChatId := Some(newId)))
  }

  /** No file, or a file that is not a PDF, changes nothing at all. */
  lemma UploadRejects(p: PageState, file: Option<FileInfo>, newId: string, dataUri: string)
    ensures file.None? ==> Upload(p, file, newId, dataUri) == (NoFile, p)
    ensures file.Some? && file.value.mimeType != "application/pdf" ==>
      Upload(p, file, newId, dataUri) == (InvalidFileType, p)
  {
  }

  /** A PDF under a fresh id becomes one new empty session at the end of the
      list, earlier sessions keep their place, the new one is active, and the
      invariants survive. */
  lemma UploadAppends(p: PageState, file: FileInfo, newId: string, dataUri: string)
    requires file.mimeType == "application/pdf"
    requires !HasId(p.sessions, newId)
    ensures var (outcome, next) := Upload(p, Some(file), newId, dataUri);
      && outcome == Uploaded(newId)
      && |next.sessions| == |p.sessions| + 1
      && next.sessions[..|p.sessions|] == p.sessions
      && next.sessions[|p.sessions|] == ChatSession(newId, file.name, dataUri, [])
      && Active(next) == Some(ChatSession(newId, file.name, dataUri, []))
      && next.userInput == p.userInput && next.isLoading == p.isLoading
      && next.sessionToDelete == p.sessionToDelete
      && (Valid(p) ==> Valid(next))
      && ActivePresent(next)
  {
    var s := ChatSession(newId, file.name, dataUri, []);
    AppendFresh(p.sessions, s, newId);
    assert (p.sessions + [s])[..|p.sessions|] == p.sessions;
  }

  /** Uploading keeps the active pointer valid, and keeps ids unique when
      the new id is fresh. */
  lemma UploadPreserves(p: PageState, file: Option<FileInfo>, newId: string, dataUri: string)
    ensures ActivePresent(p) ==> ActivePresent(Upload(p, file, newId, dataUri).1)
    ensures Valid(p) && !HasId(p.sessions, newId) ==> Valid(Upload(p, file, newId, dataUri).1)
  {
    if file.Some? && file.value.mimeType == PdfMimeType {
      var s := ChatSession(newId, file.value.name, dataUri, []);
      assert (p.sessions + [s])[|p.sessions|] == s;
      if !HasId(p.sessions, newId) {
        AppendFresh(p.sessions, s, newId);
      }
    }
  }

  // ---------------------------------------------------------------- submit

  /** `!userInput.trim() || isLoading || !activeSession`: when submitting does nothing. */
  predicate SubmitRefused(p: PageState) {
    Trim(p.userInput) == "" || p.isLoading || Active(p).None?
  }

  /** `handleChatSubmit` up to its `await`: the user turn is appended to the
      active session, the input is cleared, loading is set, and the request
      carries the transcript of the active session as captured before the
      append. */
  function Begin(p: PageState): (r: (Option<Request>, PageState))
    ensures r.0.None? <==> SubmitRefused(p)
    ensures r.0.None? ==> r.1 == p
    ensures r.0.Some? ==>
      && r.0.value.question == p.userInput && Some(r.0.value.target) == p.activeChatId
      && r.1.userInput == "" && r.1.isLoading && |r.1.sessions| == |p.sessions|
      && r.1.activeChatId == p.activeChatId && r.1.sessionToDelete == p.sessionToDelete
  {
    if SubmitRefused(p) then (None, p)
    else
      var s := Active(p).value;
      var turn := Message(User, p.userInput);
      (Some(Request(s.id, s.pdfDataUri, p.userInput, TranscriptOf(s.chatHistory))),
       p.(sessions := UpdateHistory(p.sessions, s.id, Append(turn)), userInput := "", isLoading := true))
  }

  /** The continuation after the call settles, applied by id to the session
      the request was made for. The `finally` clears loading either way. */
  function Complete(p: PageState, req: Request, result: RemoteResult): (r: PageState)
    ensures !r.isLoading && |r.sessions| == |p.sessions|
    ensures r.userInput == (if result.Success? then p.userInput else req.question)
    ensures r.activeChatId == p.activeChatId && r.sessionToDelete == p.sessionToDelete
  {
    match result
    case Success(answer) =>
      p.(sessions := UpdateHistory(p.sessions, req.target, Append(Message(Model, answer))), isLoading := false)
    case Failure =>
      p.(sessions := UpdateHistory(p.sessions, req.target, DropLast), userInput := req.question, isLoading := false)
  }

  /** One whole exchange with nothing else happening while the call is in flight. */
  function Exchange(p: PageState, result: RemoteResult): (r: (Option<Request>, PageState))
    ensures r.0 == Begin(p).0
    ensures r.0.None? ==> r.1 == p
    ensures r.0.Some? ==> !r.1.isLoading && r.1.activeChatId == p.activeChatId
    ensures result.Success? && r.0.Some? ==> r.1.userInput == ""
  {
    var (req, mid) := Begin(p);
    if req.None? then (req, mid) else (req, Complete(mid, req.value, result))
  }

  /** The guard: submitting is refused exactly for an input made only of
      white space, a request already in flight, or no active session, and
      a refused submit changes nothing. */
  lemma BeginGuard(p: PageState)
    ensures Begin(p).0.None? <==> Blank(p.userInput) || p.isLoading || Active(p).None?
    ensures Begin(p).0.None? ==> Begin(p).1 == p
  {
    TrimEmptyIffBlank(p.userInput);
  }

  /** The optimistic step: the question is appended as a user turn at the end
      of the active session and of no other, the input is cleared, loading is
      set, and the request is for the active session and carries the question
      and the history as it was before the append. */
  lemma BeginAppends(p: PageState)
    requires !SubmitRefused(p)
    ensures var s := Active(p).value;
      var (req, next) := Begin(p);
      && req.value == Request(s.id, s.pdfDataUri, p.userInput, TranscriptOf(s.chatHistory))
      && Active(next) == Some(s.(chatHistory := s.chatHistory + [Message(User, p.userInput)]))
      && |next.sessions| == |p.sessions|
      && (forall i :: 0 <= i < |p.sessions| && p.sessions[i].id != s.id ==> next.sessions[i] == p.sessions[i])
      && next.userInput == "" && next.isLoading
      && next.activeChatId == p.activeChatId && next.sessionToDelete == p.sessionToDelete
  {
    var s := Active(p).value;
    var turn := Message(User, p.userInput);
    assert !SubmitRefused(p);
    var next := Begin(p).1;
    assert next == p.(sessions := UpdateHistory(p.sessions, s.id, Append(turn)), userInput := "", isLoading := true);
    FindAfterUpdate(p.sessions, s.id, s.id, Append(turn));
  }

  /** The optimistic step keeps ids unique and the active pointer valid. */
  lemma BeginPreserves(p: PageState)
    ensures Valid(p) ==> Valid(Begin(p).1)
    ensures ActivePresent(p) ==> ActivePresent(Begin(p).1)
  {
    if !SubmitRefused(p) {
      var s := Active(p).value;
      UpdateKeepsIds(p.sessions, s.id, s.id, Append(Message(User, p.userInput)));
    }
  }

  /** Completion touches only the session the request was made for: its last
      turn is the answer on success and is dropped on failure, loading ends,
      and the input is restored to the question on failure only. */
  lemma CompleteEdits(p: PageState, req: Request, result: RemoteResult)
    ensures var next := Complete(p, req, result);
      && |next.sessions| == |p.sessions|
      && (forall i :: 0 <= i < |p.sessions| && p.sessions[i].id != req.target ==> next.sessions[i] == p.sessions[i])
      && (forall i :: 0 <= i < |p.sessions| && p.sessions[i].id == req.target ==>
            next.sessions[i] == p.sessions[i].(chatHistory := ApplyEdit(
              if result.Success? then Append(Message(Model, result.answer)) else DropLast,
              p.sessions[i].chatHistory)))
      && !next.isLoading
      && next.userInput == (if result.Success? then p.userInput else req.question)
      && next.activeChatId == p.activeChatId && next.sessionToDelete == p.sessionToDelete
  {
  }

  /** A response for a session deleted meanwhile leaves the session list
      exactly as it is: nothing is edited and nothing is resurrected. */
  lemma CompleteAfterDelete(p: PageState, req: Request, result: RemoteResult)
    requires !HasId(p.sessions, req.target)
    ensures Complete(p, req, result).sessions == p.sessions
  {
    UpdateAbsent(p.sessions, req.target, if result.Success? then Append(Message(Model, result.answer)) else DropLast);
  }

  lemma CompletePreserves(p: PageState, req: Request, result: RemoteResult)
    ensures Valid(p) ==> Valid(Complete(p, req, result))
    ensures ActivePresent(p) ==> ActivePresent(Complete(p, req, result))
  {
    var e := if result.Success? then Append(Message(Model, result.answer)) else DropLast;
    UpdateKeepsIds(p.sessions, req.target, req.target, e);
    if p.activeChatId.Some? {
      UpdateKeepsIds(p.sessions, req.target, p.activeChatId.value, e);
    }
  }

  /** A failed exchange is undone exactly: the page is left as it was before
      the submit, with the question back in the input box. */
  lemma FailedExchangeRestores(p: PageState)
    ensures Exchange(p, Failure).1 == p
  {
    var (req, mid) := Begin(p);
    if req.Some? {
      var s := Active(p).value;
      RollBackRestores(p.sessions, s.id, Message(User, p.userInput));
    }
  }

  /** A successful exchange adds the question and then the answer to the end
      of the active session and to no other session; the next request's
      transcript then ends with both turns (TranscriptAfterExchange). */
  lemma SuccessfulExchange(p: PageState, answer: string)
    requires !SubmitRefused(p)
    ensures var s := Active(p).value;
      var next := Exchange(p, Success(answer)).1;
      && Active(next) == Some(s.(chatHistory := s.chatHistory + [Message(User, p.userInput), Message(Model, answer)]))
      && |next.sessions| == |p.sessions|
      && (forall i :: 0 <= i < |p.sessions| && p.sessions[i].id != s.id ==> next.sessions[i] == p.sessions[i])
      && next.userInput == "" && !next.isLoading
  {
    SuccessReachesActive(p, answer);
    SuccessSparesOthers(p, answer);
  }

  /** The request a successful exchange completes is the one `Begin` made for
      the active session. */
  lemma SuccessCompletes(p: PageState, answer: string)
    requires !SubmitRefused(p)
    ensures var s := Active(p).value;
      && Begin(p).0 == Some(Request(s.id, s.pdfDataUri, p.userInput, TranscriptOf(s.chatHistory)))
      && Exchange(p, Success(answer)).1 == Complete(Begin(p).1, Begin(p).0.value, Success(answer))
  {
    BeginAppends(p);
  }

  lemma SuccessReachesActive(p: PageState, answer: string)
    requires !SubmitRefused(p)
    ensures var s := Active(p).value;
      Active(Exchange(p, Success(answer)).1) ==
        Some(s.(chatHistory := s.chatHistory + [Message(User, p.userInput), Message(Model, answer)]))
  {
    var s := Active(p).value;
    var q := Message(User, p.userInput);
    var a := Message(Model, answer);
    var mid := Begin(p).1;
    SuccessCompletes(p, answer);
    assert Active(mid) == Some(s.(chatHistory := s.chatHistory + [q])) by {
      BeginAppends(p);
    }
    FindAfterUpdate(mid.sessions, s.id, s.id, Append(a));
    AppendTwo(s.chatHistory, q, a);
  }

  lemma SuccessSparesOthers(p: PageState, answer: string)
    requires !SubmitRefused(p)
    ensures var s := Active(p).value;
      var next := Exchange(p, Success(answer)).1;
      && |next.sessions| == |p.sessions|
      && (forall i :: 0 <= i < |p.sessions| && p.sessions[i].id != s.id ==> next.sessions[i] == p.sessions[i])
  {
    var s := Active(p).value;
    var mid := Begin(p).1;
    var next := Exchange(p, Success(answer)).1;
    SuccessCompletes(p, answer);
    forall i | 0 <= i < |p.sessions| && p.sessions[i].id != s.id
      ensures next.sessions[i] == p.sessions[i]
    {
      assert mid.sessions[i] == p.sessions[i] by {
        BeginAppends(p);
      }
      assert next.sessions[i] == mid.sessions[i] by {
        CompleteEdits(mid, Begin(p).0.value, Success(answer));
      }
    }
  }

  lemma AppendTwo(h: seq<Message>, x: Message, y: Message)
    ensures h + [x] + [y] == h + [x, y]
  {
  }

  // ---------------------------------------------------------------- delete

  /** `handleDeleteRequest`: only remembers which session to delete. */
  function RequestDelete(p: PageState, id: string): (r: PageState)
    ensures r.sessionToDelete == Some(id)
    ensures r.(sessionToDelete := p.sessionToDelete) == p
  {
    p.(sessionToDelete := Some(id))
  }

  /** Dismissing the confirmation dialog forgets the pending deletion. */
  function CancelDelete(p: PageState): (r: PageState)
    ensures r.sessionToDelete == None
    ensures r.(sessionToDelete := p.sessionToDelete) == p
  {
    p.(sessionToDelete := None)
  }

  /** `confirmDeleteChat`. A pending id that is null or the empty string (both
      falsy) does nothing. Otherwise the sessions carrying it are filtered
      out, an active pointer on it moves to the first remaining session (or
      to none), and the pending id is cleared. */
  function ConfirmDelete(p: PageState): (r: PageState)
    ensures p.sessionToDelete.None? || p.sessionToDelete == Some("") ==> r == p
    ensures p.sessionToDelete.Some? && p.sessionToDelete != Some("") ==>
      && r.sessionToDelete.None? && !HasId(r.sessions, p.sessionToDelete.value)
      && r.activeChatId != p.sessionToDelete && |r.sessions| <= |p.sessions|
      && r.userInput == p.userInput && r.isLoading == p.isLoading
  {
    if p.sessionToDelete.None? || p.sessionToDelete == Some("") then p
    else
      var d := p.sessionToDelete.value;
      var remaining := RemoveSession(p.sessions, d);
      p.(sessions := remaining,
         activeChatId := if p.activeChatId == Some(d) then (if |remaining| > 0 then Some(remaining[0].id) else None)
                         else p.activeChatId,
         sessionToDelete := None)
  }

  /** The two-phase deletion: requesting and then confirming removes the
      sessions with that id and keeps every other session, the pointer
      leaves the deleted id, and nothing else changes. */
  lemma DeleteRemoves(p: PageState, id: string)
    requires id != ""
    ensures var next := ConfirmDelete(RequestDelete(p, id));
      && (forall s :: s in next.sessions <==> s in p.sessions && s.id != id)
      && !HasId(next.sessions, id)
      && (p.activeChatId != Some(id) ==> next.activeChatId == p.activeChatId)
      && (p.activeChatId == Some(id) ==>
            next.activeChatId == (if next.sessions == [] then None else Some(next.sessions[0].id)))
      && next.activeChatId != Some(id)
      && next.sessionToDelete == None
      && next.userInput == p.userInput && next.isLoading == p.isLoading
  {
    var remaining := RemoveSession(p.sessions, id);
    RemoveMembers(p.sessions, id);
    forall i | 0 <= i < |remaining| ensures remaining[i].id != id {
      assert remaining[i] in remaining;
    }
  }

  /** Confirming with nothing pending is a no-op. */
  lemma ConfirmNothingPending(p: PageState)
    requires p.sessionToDelete.None? || p.sessionToDelete == Some("")
    ensures ConfirmDelete(p) == p
  {
  }

  /** With unique ids exactly one session goes, the others keep their order. */
  lemma DeleteExactlyOne(p: PageState, k: nat)
    requires Valid(p) && k < |p.sessions| && p.sessions[k].id != ""
    ensures ConfirmDelete(RequestDelete(p, p.sessions[k].id)).sessions == p.sessions[..k] + p.sessions[k + 1..]
  {
    RemoveExactlyOne(p.sessions, k);
  }

  lemma ConfirmPreserves(p: PageState)
    ensures Valid(p) ==> Valid(ConfirmDelete(p))
    ensures ActivePresent(p) ==> ActivePresent(ConfirmDelete(p))
  {
    if p.sessionToDelete.Some? && p.sessionToDelete != Some("") {
      var d := p.sessionToDelete.value;
      var remaining := RemoveSession(p.sessions, d);
      RemoveMembers(p.sessions, d);
      if Valid(p) {
        RemoveKeepsUnique(p.sessions, d);
      }
      if p.activeChatId == Some(d) {
        if |remaining| > 0 { assert remaining[0] in remaining; }
      } else if p.activeChatId.Some? && HasId(p.sessions, p.activeChatId.value) {
        var i :| 0 <= i < |p.sessions| && p.sessions[i].id == p.activeChatId.value;
        assert p.sessions[i] in remaining;
      }
    }
  }

  // ---------------------------------------------------------------- select

  /** `selectChat` takes the id as given. */
  function Select(p: PageState, id: string): (r: PageState)
    ensures r.activeChatId == Some(id)
    ensures r.(activeChatId := p.activeChatId) == p
  {
    p.(activeChatId := Some(id))
  }

  /** After selecting, the page shows the session carrying the id, and shows
      nothing (the pointer dangles) when no session carries it. */
  lemma SelectShows(p: PageState, id: string)
    ensures Active(Select(p, id)).Some? <==> HasId(p.sessions, id)
    ensures Active(Select(p, id)).Some? ==> Active(Select(p, id)).value.id == id
    ensures Valid(p) ==> forall k :: 0 <= k < |p.sessions| && p.sessions[k].id == id ==>
      Active(Select(p, id)) == Some(p.sessions[k])
    ensures ActivePresent(Select(p, id)) <==> HasId(p.sessions, id)
  {
    if Valid(p) {
      forall k | 0 <= k < |p.sessions| && p.sessions[k].id == id
        ensures Active(Select(p, id)) == Some(p.sessions[k])
      {
        FindUnique(p.sessions, k);
      }
    }
  }

  // ---------------------------------------------------------------- runs

  /** Everything the user and the network can do to the page. A settled
      call may arrive after any number of other events. */
  datatype Event =
    | PickFile(file: Option<FileInfo>, newId: string, dataUri: string)
    | TypeInput(text: string)
    | StartSubmit
    | Settle(req: Request, result: RemoteResult)
    | AskDelete(id: string)
    | DismissDelete
    | ConfirmPending
    | ClickSession(id: string)

  /** One event. Only an upload or a confirmed deletion changes how many
      sessions there are, only those and a click move the active pointer,
      and only the deletion dialog touches the pending id. */
  function Step(p: PageState, e: Event): (r: PageState)
    ensures |r.sessions| != |p.sessions| ==> e.PickFile? || e.ConfirmPending?
    ensures r.activeChatId != p.activeChatId ==> e.PickFile? || e.ConfirmPending? || e.ClickSession?
    ensures r.sessionToDelete != p.sessionToDelete ==> e.AskDelete? || e.DismissDelete? || e.ConfirmPending?
  {
    match e
    case PickFile(file, newId, dataUri) => Upload(p, file, newId, dataUri).1
    case TypeInput(text) => p.(userInput := text)
    case StartSubmit => Begin(p).1
    case Settle(req, result) => Complete(p, req, result)
    case AskDelete(id) => RequestDelete(p, id)
    case DismissDelete => CancelDelete(p)
    case ConfirmPending => ConfirmDelete(p)
    case ClickSession(id) => Select(p, id)
  }

  /** What the page's environment guarantees: upload ids are new, and the
      sidebar only offers sessions that exist. */
  predicate Allowed(p: PageState, e: Event) {
    match e
    case PickFile(_, newId, _) => !HasId(p.sessions, newId)
    case ClickSession(id) => HasId(p.sessions, id)
    case _ => true
  }

  /** A run of events. Without uploads and confirmed deletions the number of
      sessions stays put; without those and clicks the pointer does too. */
  function Run(p: PageState, es: seq<Event>): (r: PageState)
    ensures (forall i :: 0 <= i < |es| ==> !es[i].PickFile? && !es[i].ConfirmPending?) ==>
      |r.sessions| == |p.sessions|
    ensures (forall i :: 0 <= i < |es| ==> !es[i].PickFile? && !es[i].ConfirmPending? && !es[i].ClickSession?) ==>
      r.activeChatId == p.activeChatId
    decreases |es|
  {
    if es == [] then p else Run(Step(p, es[0]), es[1..])
  }

  predicate AllowedRun(p: PageState, es: seq<Event>)
    decreases |es|
  {
    es == [] || (Allowed(p, es[0]) && AllowedRun(Step(p, es[0]), es[1..]))
  }

  /** Each allowed event keeps ids unique and the active pointer valid. */
  lemma StepPreserves(p: PageState, e: Event)
    requires Valid(p) && ActivePresent(p) && Allowed(p, e)
    ensures Valid(Step(p, e)) && ActivePresent(Step(p, e))
  {
    match e
    case PickFile(file, newId, dataUri) => UploadPreserves(p, file, newId, dataUri);
    case TypeInput(text) =>
    case StartSubmit => BeginPreserves(p);
    case Settle(req, result) => CompletePreserves(p, req, result);
    case AskDelete(id) =>
    case DismissDelete =>
    case ConfirmPending => ConfirmPreserves(p);
    case ClickSession(id) => SelectShows(p, id);
  }

  /** From the mounted page, every allowed run, with calls settling in any
      order relative to other events, ends with unique ids and an active
      pointer that names an existing session or nothing. */
  lemma {:induction false} RunPreserves(p: PageState, es: seq<Event>)
    requires Valid(p) && ActivePresent(p) && AllowedRun(p, es)
    ensures Valid(Run(p, es)) && ActivePresent(Run(p, es))
    decreases |es|
  {
    if es != [] {
      StepPreserves(p, es[0]);
      RunPreserves(Step(p, es[0]), es[1..]);
    }
  }

  lemma ReachableInvariant(es: seq<Event>)
    requires AllowedRun(Initial, es)
    ensures Valid(Run(Initial, es)) && ActivePresent(Run(Initial, es))
  {
    RunPreserves(Initial, es);
  }
}
