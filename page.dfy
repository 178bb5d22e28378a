/**
 * The chat side of the Home page: its state (the turns shown, the text box, the loading
 * flag and the HTML shown in the preview) and the submit handler.  The handler is split
 * at its one `await`: `Begin` runs up to the request, `Complete` runs once the request
 * has an outcome, which is given as a parameter.
 */
module Page {
  import opened Wrappers
  import opened Text
  import opened GenerateGame

  const Apology := "Üzgünüm, bir hata oluştu. Lütfen tekrar deneyin."

  /** The JSON body the handler posts: the raw input and the turns shown before it. */
  datatype ChatRequest = ChatRequest(message: string, conversationHistory: seq<Turn>)

  /** What the awaited request yields: an OK response's `message` and `gameCode`, or a
      failure (a non-OK status, a network error or a body that is not JSON). */
  datatype FetchOutcome = Answered(message: string, gameCode: string) | Failed

  /** The guard at the top of the handler: some non-blank input and no request in flight. */
  predicate Accepts(input: string, isLoading: bool) {
    Trim(input) != "" && !isLoading
  }

  /** The submit button's `disabled` attribute. */
  function SubmitDisabled(input: string, isLoading: bool): (d: bool)
    ensures d <==> !Accepts(input, isLoading)
  {
    isLoading || Trim(input) == ""
  }

  /** The content of the assistant turn the handler appends for an outcome. */
  function AssistantContent(outcome: FetchOutcome): string {
    match outcome
    case Answered(message, _) => message
    case Failed => Apology
  }

  /** The preview after an outcome: replaced only by a non-empty game code. */
  function NextPreview(gameHtml: string, outcome: FetchOutcome): string {
    if outcome.Answered? && outcome.gameCode != "" then outcome.gameCode else gameHtml
  }

  /** The turns alternate user, assistant, ..., every user turn is non-blank, and a request
      is in flight exactly when the last turn is a user turn still waiting for its answer. */
  ghost predicate WellFormed(messages: seq<Turn>, isLoading: bool) {
    && (|messages| % 2 == 1 <==> isLoading)
    && (forall i :: 0 <= i < |messages| ==> messages[i].role == if i % 2 == 0 then User else Assistant)
    && (forall i :: 0 <= i < |messages| && messages[i].role == User ==> Trim(messages[i].content) != "")
  }

  class Home {
    var messages: seq<Turn>
    var input: string
    var isLoading: bool
    var gameHtml: string

    ghost predicate Valid()
      reads this
    {
      WellFormed(messages, isLoading)
    }

    constructor ()
      ensures Valid()
      ensures messages == [] && input == "" && !isLoading && gameHtml == ""
    {
      messages, input, isLoading, gameHtml := [], "", false, "";
    }

    /** The text box's change handler; the box is disabled while a request is loading. */
    method SetInput(text: string)
      requires Valid()
      modifies this
      ensures Valid()
      ensures input == if old(isLoading) then old(input) else text
      ensures messages == old(messages) && isLoading == old(isLoading) && gameHtml == old(gameHtml)
    {
      if !isLoading {
        input := text;
      }
    }

    /** The handler up to the request: an accepted submit shows the raw input as a user
        turn, clears the box, sets the loading flag and posts the input with the turns
        shown before it; anything else changes nothing and posts nothing. */
    method Begin() returns (request: Option<ChatRequest>)
      requires Valid()
      modifies this
      ensures Valid()
      ensures request.Some? <==> Accepts(old(input), old(isLoading))
      ensures request.None? ==>
        messages == old(messages) && input == old(input) && isLoading == old(isLoading)
      ensures request.Some? ==>
        && request.value == ChatRequest(old(input), old(messages))
        && messages == old(messages) + [Turn(User, old(input))]
        && input == "" && isLoading
      ensures gameHtml == old(gameHtml)
    {
      if Trim(input) == "" || isLoading {
        return None;
      }
      request := Some(ChatRequest(input, messages));
      messages := messages + [Turn(User, input)];
      input := "";
      isLoading := true;
    }

    /** The handler after the request: exactly one assistant turn is appended (the
        server's message, or the apology on failure), the preview is replaced only by a
        non-empty game code, and loading ends whatever the outcome. */
    method Complete(outcome: FetchOutcome)
      requires Valid() && isLoading
      modifies this
      ensures Valid() && !isLoading
      ensures messages == old(messages) + [Turn(Assistant, AssistantContent(outcome))]
      ensures gameHtml == NextPreview(old(gameHtml), outcome)
      ensures input == old(input)
    {
      match outcome {
        case Answered(message, gameCode) =>
          messages := messages + [Turn(Assistant, message)];
          if gameCode != "" {
            gameHtml := gameCode;
          }
        case Failed =>
          messages := messages + [Turn(Assistant, Apology)];
      }
      isLoading := false;
    }

    /** The whole handler run to completion: an accepted submit adds exactly two turns and
        keeps every earlier one. */
    method HandleSubmit(outcome: FetchOutcome) returns (request: Option<ChatRequest>)
      requires Valid()
      modifies this
      ensures Valid() && isLoading == old(isLoading)
      ensures request.Some? <==> Accepts(old(input), old(isLoading))
      ensures request.None? ==>
        messages == old(messages) && input == old(input) && gameHtml == old(gameHtml)
      ensures request.Some? ==>
        && request.value == ChatRequest(old(input), old(messages))
        && messages == old(messages) + [Turn(User, old(input)), Turn(Assistant, AssistantContent(outcome))]
        && input == ""
        && gameHtml == NextPreview(old(gameHtml), outcome)
    {
      request := Begin();
      if request.Some? {
        Complete(outcome);
      }
    }
  }

  /** The JSON body as the route reads it. */
  function ToRouteRequest(request: ChatRequest): Request {
    Request(Str(request.message), Turns(request.conversationHistory))
  }

  /** What the page makes of the route's response: `!response.ok` throws for 400 and 500. */
  function OutcomeOf(response: Response): FetchOutcome {
    match response
    case Generated(message, gameCode) => Answered(message, gameCode)
    case _ => Failed
  }

  /** Every request the page posts passes the route's validation; the model sees the
      turns shown before it followed by the new user turn, which are the turns the page
      shows once the request is sent; and the assistant turn the page then appends is
      never empty. */
  lemma SubmittedRequestIsServed(request: ChatRequest, call: ModelCall)
    requires Trim(request.message) != ""
    ensures var x := Post(ToRouteRequest(request), call);
      && x.response != InvalidMessage
      && x.sent == Some(request.conversationHistory + [Turn(User, request.message)])
      && AssistantContent(OutcomeOf(x.response)) != ""
  {
    var x := Post(ToRouteRequest(request), call);
    var turns := x.sent.value;
    assert turns == turns[..|request.conversationHistory|] + [turns[|request.conversationHistory|]];
  }

  /** The preview only ever receives a non-empty game code extracted from a text reply of
      the model, so it holds no closing fence. */
  lemma PreviewComesFromCodeBlock(request: ChatRequest, call: ModelCall, gameHtml: string)
    requires Trim(request.message) != ""
    ensures var outcome := OutcomeOf(Post(ToRouteRequest(request), call).response);
      NextPreview(gameHtml, outcome) != gameHtml ==>
        && call.Returned? && call.content != []
        && var reply := ReplyText(call.content).value;
        && NextPreview(gameHtml, outcome) == Extract(reply).gameCode != ""
        && FindBlock(reply).Some?
        && Absent(NextPreview(gameHtml, outcome), CodeClose)
  {
    var x := Post(ToRouteRequest(request), call);
    if call.Returned? && call.content != [] {
      var reply := ReplyText(call.content).value;
      if FindBlock(reply).None? {
        assert Extract(reply).gameCode == "";
      }
    }
  }
}
