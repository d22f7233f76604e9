/**
 * Whole interactions with the page, driven through the `Home` class from a
 * freshly mounted component, each ending in a state stated outright.
 */
module Scenarios {
  import opened Session
  import opened Transcript
  import opened Page
  import opened Home

  const Pdf: FileInfo := FileInfo("biology.pdf", "application/pdf")
  const Uri: string := "data:application/pdf;base64,JVBERi0="
  const Question: string := "What is photosynthesis?"
  const Answer: string := "Plants turn light into sugar."

  /** A fresh page with one uploaded PDF, active, holding no turns yet. */
  method Mounted() returns (home: Home)
    ensures fresh(home)
    ensures home.State() == PageState([ChatSession("1", "biology.pdf", Uri, [])], Some("1"), "", false, None)
  {
    home := new Home();
    var outcome := home.HandleFileChange(Some(Pdf), "1", Uri);
  }

  lemma QuestionNotBlank()
    ensures !Text.Blank(Question) && !Text.Blank("Where does it happen?")
  {
    assert !Text.IsJsWhitespace(Question[0]);
    assert !Text.IsJsWhitespace("Where does it happen?"[0]);
  }

  /** Upload a PDF and ask one question that is answered: the session holds
      the question and the answer, the first request carried an empty
      transcript, and the page is ready for the next question. */
  method AnsweredQuestion() returns (req: Option<Request>, history: seq<Message>, input: string, loading: bool)
    ensures req == Some(Request("1", Uri, Question, ""))
    ensures history == [Message(User, Question), Message(Model, Answer)]
    ensures input == "" && !loading
  {
    var home := Mounted();
    home.SetUserInput(Question);
    ghost var p := home.State();
    QuestionNotBlank();
    BeginGuard(p);
    BeginAppends(p);
    SuccessfulExchange(p, Answer);
    req := home.HandleChatSubmit(Success(Answer));
    assert home.sessions[0] == Active(home.State()).value;
    history := home.sessions[0].chatHistory;
    input := home.userInput;
    loading := home.isLoading;
  }

  /** A text file is refused and no session appears. */
  method RefusedTextFile() returns (outcome: UploadOutcome, count: nat, active: Option<string>)
    ensures outcome == InvalidFileType && count == 0 && active == None
  {
    var home := new Home();
    outcome := home.HandleFileChange(Some(FileInfo("notes.txt", "text/plain")), "1", "data:text/plain;base64,aGk=");
    count := |home.sessions|;
    active := home.activeChatId;
  }

  /** The second question of a session carries the first exchange as its
      transcript, one line per turn. */
  method FollowUpTranscript() returns (transcript: string)
    ensures transcript == ("user: " + Question) + "\n" + ("model: " + Answer)
  {
    var home := Mounted();
    home.SetUserInput(Question);
    ghost var p := home.State();
    QuestionNotBlank();
    BeginGuard(p);
    SuccessfulExchange(p, Answer);
    var first := home.HandleChatSubmit(Success(Answer));
    ghost var h := [Message(User, Question), Message(Model, Answer)];
    assert [] + h == h;
    assert Active(home.State()).value.chatHistory == h;
    home.SetUserInput("Where does it happen?");
    ghost var p2 := home.State();
    assert Active(p2).value.chatHistory == h;
    BeginGuard(p2);
    BeginAppends(p2);
    var second := home.BeginSubmit();
    assert second.value.chatHistory == TranscriptOf(h);
    FirstExchange(Question, Answer);
    transcript := second.value.chatHistory;
  }

  /** A failed call leaves the session empty and puts the question back. */
  method FailedQuestion() returns (history: seq<Message>, input: string, loading: bool)
    ensures history == [] && input == Question && !loading
  {
    var home := Mounted();
    home.SetUserInput(Question);
    FailedExchangeRestores(home.State());
    var req := home.HandleChatSubmit(Failure);
    history := home.sessions[0].chatHistory;
    input := home.userInput;
    loading := home.isLoading;
  }

  /** Deleting the active one of two sessions activates the first that remains. */
  method DeleteActive() returns (ids: seq<string>, active: Option<string>, pending: Option<string>)
    ensures ids == ["1"] && active == Some("1") && pending == None
  {
    var home := Mounted();
    var b := home.HandleFileChange(Some(FileInfo("physics.pdf", "application/pdf")), "2", Uri);
    home.HandleDeleteRequest("2");
    ghost var p := home.State();
    DeleteExactlyOne(p.(sessionToDelete := None), 1);
    home.ConfirmDeleteChat();
    ids := if |home.sessions| == 1 then [home.sessions[0].id] else [];
    active := home.activeChatId;
    pending := home.sessionToDelete;
  }
}
