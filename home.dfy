/**
 * The `Home` page component. Its five pieces of React state are the fields
 * of a class, and each event handler is a method that makes the handler's
 * `setX` updates. Each method is proved to leave the
 * fields in the state the matching function of module Page gives, and to
 * keep the page's invariants; what those functions promise is proved there.
 * The asynchronous submit handler is split at its one `await`: `BeginSubmit`
 * runs up to the remote call and returns what the call is given (and what
 * the continuation captured), `CompleteSubmit` runs the continuation with
 * the call's outcome, and `HandleChatSubmit` runs the two back to back.
 */
module Home {
  import opened Session
  import opened Transcript
  import opened Text
  import opened Page

  class Home {
    var sessions: seq<ChatSession>
    var activeChatId: Option<string>
    var userInput: string
    var isLoading: bool
    var sessionToDelete: Option<string>

    /** The current values of the five state variables. */
    function State(): PageState
      reads this
    {
      PageState(sessions, activeChatId, userInput, isLoading, sessionToDelete)
    }

    constructor ()
      ensures State() == Initial
      ensures Valid(State()) && ActivePresent(State())
    {
      sessions := [];
      activeChatId := None;
      userInput := "";
      isLoading := false;
      sessionToDelete := None;
    }

    /** Picking a file. Nothing chosen, or a file that is not a PDF, changes
        nothing; a PDF becomes a new, empty session at the end of the list and
        is made active. The id is supplied by the caller, and ids stay unique
        when it is new. */
    method HandleFileChange(file: Option<FileInfo>, newId: string, dataUri: string) returns (outcome: UploadOutcome)
      modifies this
      ensures (outcome, State()) == Upload(old(State()), file, newId, dataUri)
      ensures old(Valid(State())) && !HasId(old(sessions), newId) ==> Valid(State())
      ensures old(ActivePresent(State())) ==> ActivePresent(State())
    {
      if file.None? {
        return NoFile;
      }
      if file.value.mimeType != PdfMimeType {
        return InvalidFileType;
      }
      UploadPreserves(State(), file, newId, dataUri);
      var newSession := ChatSession(newId, file.value.name, dataUri, []);
      sessions := sessions + [newSession];
      activeChatId := Some(newId);
      outcome := Uploaded(newId);
    }

    /** Typing into the question box. */
    method SetUserInput(text: string)
      modifies this`userInput
      ensures userInput == text
    {
      userInput := text;
    }

    /** The submit handler up to its `await`: the guard, then the optimistic
        append of the user turn to the active session, clearing the input and
        setting loading; the request carries the transcript of the active
        session as captured before the append. */
    method BeginSubmit() returns (req: Option<Request>)
      modifies this
      ensures (req, State()) == Begin(old(State()))
    {
      if SubmitRefused(State()) {
        return None;
      }
      var s := Active(State()).value;
      var newUserMessage := Message(User, userInput);
      var currentInput := userInput;
      sessions := UpdateHistory(sessions, s.id, Append(newUserMessage));
      userInput := "";
      isLoading := true;
      req := Some(Request(s.id, s.pdfDataUri, currentInput, TranscriptOf(s.chatHistory)));
    }

    /** The continuation after the remote call settles, applied by id to the
        session the request was made for, wherever the user has gone since. */
    method CompleteSubmit(req: Request, result: RemoteResult)
      modifies this
      ensures State() == Complete(old(State()), req, result)
      ensures old(Valid(State())) ==> Valid(State())
      ensures old(ActivePresent(State())) ==> ActivePresent(State())
    {
      CompletePreserves(State(), req, result);
      if result.Success? {
        var modelMessage := Message(Model, result.answer);
        sessions := UpdateHistory(sessions, req.target, Append(modelMessage));
      } else {
        sessions := UpdateHistory(sessions, req.target, DropLast);
        userInput := req.question;
      }
      isLoading := false;
    }

    /** One whole exchange with nothing happening while the call is in flight. */
    method HandleChatSubmit(result: RemoteResult) returns (req: Option<Request>)
      modifies this
      ensures (req, State()) == Exchange(old(State()), result)
      ensures old(Valid(State())) ==> Valid(State())
      ensures old(ActivePresent(State())) ==> ActivePresent(State())
    {
      BeginPreserves(State());
      req := BeginSubmit();
      if req.Some? {
        CompleteSubmit(req.value, result);
      }
    }

    /** First phase of deletion: only remembers which session to delete. */
    method HandleDeleteRequest(sessionId: string)
      modifies this`sessionToDelete
      ensures State() == RequestDelete(old(State()), sessionId)
    {
      sessionToDelete := Some(sessionId);
    }

    /** Dismissing the confirmation dialog forgets the pending deletion. */
    method CancelDelete()
      modifies this`sessionToDelete
      ensures State() == Page.CancelDelete(old(State()))
    {
      sessionToDelete := None;
    }

    /** Second phase of deletion: filters the pending id out, moves an active
        pointer on it to the first remaining session, clears the pending id. */
    method ConfirmDeleteChat()
      modifies this
      ensures State() == ConfirmDelete(old(State()))
      ensures old(Valid(State())) ==> Valid(State())
      ensures old(ActivePresent(State())) ==> ActivePresent(State())
    {
      ConfirmPreserves(State());
      if sessionToDelete.None? || sessionToDelete == Some("") {
        return;
      }
      var d := sessionToDelete.value;
      // The sessions updater computes the survivors and, when the active
      // session is deleted, moves the pointer before returning them.
      var remaining := RemoveSession(sessions, d);
      if activeChatId == Some(d) {
        activeChatId := if |remaining| > 0 then Some(remaining[0].id) else None;
      }
      sessions := remaining;
      sessionToDelete := None;
    }

    /** Clicking a session in the sidebar; the id is taken as given. */
    method SelectChat(sessionId: string)
      modifies this`activeChatId
      ensures State() == Select(old(State()), sessionId)
    {
      activeChatId := Some(sessionId);
    }
  }
}
