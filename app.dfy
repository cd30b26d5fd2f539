/**
  One run of the chat script: the knowledge base is loaded from the sheet, the session's
  log is created if the session has none, and the chat input (if any) is handled.
 */
module App {
  import opened Wrappers
  import opened PyStr
  import opened Sheet
  import opened Prompt
  import opened Errors
  import opened Chat

  /**
    The script from top to bottom for one rerun. `session` is the log kept by the session
    (null before the first run); `input` is what the chat box delivered, if anything.
    Besides the sheet-load banner in `load`, the run returns the generation-failure
    banner it shows, if any.
   */
  method ScriptRun(session: Conversation?, gsheetUrl: string, fetch: string -> Result<string, string>,
                   input: Option<string>, generate: string -> Outcome)
    returns (conversation: Conversation, load: SheetLoad, sent: Option<string>, banner: Option<string>)
    requires session != null ==> session.Valid()
    modifies session
    ensures load == LoadSheetData(gsheetUrl, fetch)
    ensures session != null ==> conversation == session
    ensures session == null ==> fresh(conversation)
    ensures conversation.Valid()
    ensures var before := if session == null then [] else old(session.messages);
            var question := if input.Some? then input.value else "";
            if question == "" then
              conversation.messages == before && sent.None?
            else
              sent == Some(QueryFor(load.text, question))
              && conversation.messages == AfterTurn(before, question, generate(sent.value))
    ensures banner.Some? <==> sent.Some? && generate(sent.value).Failed?
    ensures banner.Some? ==> banner.value == Banner(Classify(generate(sent.value).error))
  {
    load := LoadSheetData(gsheetUrl, fetch);
    if session == null {
      conversation := new Conversation();
    } else {
      conversation := session;
    }
    var question := if input.Some? then input.value else "";
    sent, banner := conversation.HandleTurn(question, load.text, generate);
  }

  const LeaveText: string := "Annual leave: 15 days."
  const LeaveQuestion: string := "How many annual leave days?"
  const LeaveAnswer: string := "15 days per year. 참고 문서: [file]"

  /**
    A sheet whose text is the leave rule, asked how many leave days there are: the query
    holds both the rule and the question, and the one answer becomes the log's only
    assistant message, right after the question.
   */
  lemma LeaveScenario(url: string)
    requires url != ""
    ensures var kb := LoadSheetData(url, u => Success(LeaveText)).text;
            kb == LeaveText
            && Contains(QueryFor(kb, LeaveQuestion), LeaveText)
            && Contains(QueryFor(kb, LeaveQuestion), LeaveQuestion)
            && AfterTurn([], LeaveQuestion, Generated(LeaveAnswer))
               == [Message(User, LeaveQuestion), Message(Assistant, LeaveAnswer)]
  {
    var kb := LoadSheetData(url, u => Success(LeaveText)).text;
    QueryHoldsContextThenQuestion(kb, LeaveQuestion);
  }

  /**
    The same scenario through the script itself: a first run with no session yet and the
    leave question in the chat box loads the rule, creates the log and leaves in it exactly
    the question and the answer, with no error banner.
   */
  method LeaveRun() returns (text: string, log: seq<Message>, banner: Option<string>)
    ensures text == LeaveText
    ensures log == [Message(User, LeaveQuestion), Message(Assistant, LeaveAnswer)]
    ensures banner.None?
  {
    var conversation, load, sent;
    conversation, load, sent, banner :=
      ScriptRun(null, "u", u => Success(LeaveText), Some(LeaveQuestion), q => Generated(LeaveAnswer));
    text, log := load.text, conversation.messages;
  }

  /** With no sheet configured the knowledge base is empty, and the query is still built
      around it: the template with an empty context block. */
  lemma EmptySheetScenario(fetch: string -> Result<string, string>, question: string)
    ensures LoadSheetData("", fetch).text == ""
    ensures QueryFor(LoadSheetData("", fetch).text, question) == Preamble + QuestionLabel + question
  {
    assert Preamble + "" + QuestionLabel + question == Preamble + QuestionLabel + question;
  }
}
