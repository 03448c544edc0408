/**
  The conversation history and `get_openrouter_answer`: the prompt is appended to the
  history as a "user" message, the whole history goes out as the request, and the
  first choice of a well-formed reply is appended after it. A failure at any point
  after the first push leaves that push in place.

  The HTTP exchange is a parameter `network`: the reply the remote side and the
  transport produce for a request, including the two failures that happen before
  any byte is sent or after the body arrives (an unusable Authorization header value,
  a body that is not a `ChatResponse`).
 */
module Conversation {

  datatype Message = Message(role: string, content: string)

  /** The request body: a copy of the history at the time of the call. */
  datatype ChatRequest = ChatRequest(messages: seq<Message>)

  datatype Choice = Choice(message: Message)

  /** How one round trip to the completion endpoint ends. */
  datatype Reply =
    | HeaderRejected            // the "Bearer <key>" value is not a valid header value
    | SendFailed                // the POST could not be completed
    | BodyUnreadable            // the body does not decode as a `ChatResponse`
    | Response(choices: seq<Choice>)

  datatype ApiError = InvalidHeader | Transport | Decode | NoContent

  datatype Answer = Ok(content: string) | Err(error: ApiError)

  /** The history after one call together with what the call returned. */
  datatype Turn = Turn(history: seq<Message>, answer: Answer)

  const USER_ROLE: string := "user"

  function UserMessage(prompt: string): Message {
    Message(USER_ROLE, prompt)
  }

  /** The request that `get_openrouter_answer(prompt, ..)` sends from `history`. */
  function RequestFor(history: seq<Message>, prompt: string): ChatRequest {
    ChatRequest(history + [UserMessage(prompt)])
  }

  /**
    What `get_openrouter_answer` does to the history and returns. The request is
    built from the history with the user message already in it; on a reply with at
    least one choice the history grows by two and the first choice's content is
    returned, otherwise it grows by the user message alone and an error is returned.
   */
  function AnswerTurn(history: seq<Message>, prompt: string, network: ChatRequest -> Reply): (t: Turn)
    ensures |t.history| == |history| + (if t.answer.Ok? then 2 else 1)
    ensures t.history[..|history|] == history
    ensures t.history[|history|] == UserMessage(prompt)
    ensures t.answer.Ok? <==>
              network(RequestFor(history, prompt)).Response? &&
              network(RequestFor(history, prompt)).choices != []
    ensures t.answer.Ok? ==>
              var first := network(RequestFor(history, prompt)).choices[0].message;
              t.history[|history| + 1] == first && t.answer.content == first.content
    ensures t.answer.Err? ==>
              t.answer.error == match network(RequestFor(history, prompt))
                                case HeaderRejected => InvalidHeader
                                case SendFailed => Transport
                                case BodyUnreadable => Decode
                                case Response(_) => NoContent
  {
    var pushed := history + [UserMessage(prompt)];
    match network(ChatRequest(pushed))
    case HeaderRejected => Turn(pushed, Err(InvalidHeader))
    case SendFailed => Turn(pushed, Err(Transport))
    case BodyUnreadable => Turn(pushed, Err(Decode))
    case Response(choices) =>
      if choices != [] then
        Turn(pushed + [choices[0].message], Ok(choices[0].message.content))
      else
        Turn(pushed, Err(NoContent))
  }

  /** The history vector: grows at the end, or is cleared. */
  class History {
    var messages: seq<Message>

    constructor ()
      ensures messages == []
    {
      messages := [];
    }

    /** `history.push(m)` */
    method Push(m: Message)
      modifies this
      ensures messages == old(messages) + [m]
    {
      messages := messages + [m];
    }

    /** `history.clear()` */
    method Clear()
      modifies this
      ensures messages == []
    {
      messages := [];
    }
  }

  /** `get_openrouter_answer(prompt, api_key, history)` with the exchange as `network`. */
  method GetOpenRouterAnswer(prompt: string, history: History, network: ChatRequest -> Reply)
    returns (answer: Answer)
    modifies history
    ensures Turn(history.messages, answer) == AnswerTurn(old(history.messages), prompt, network)
  {
    history.Push(UserMessage(prompt));
    var requestBody := ChatRequest(history.messages);
    var reply := network(requestBody);
    match reply
    case HeaderRejected =>
      answer := Err(InvalidHeader);
    case SendFailed =>
      answer := Err(Transport);
    case BodyUnreadable =>
      answer := Err(Decode);
    case Response(choices) =>
      if choices != [] {
        history.Push(choices[0].message);
        answer := Ok(choices[0].message.content);
      } else {
        answer := Err(NoContent);
      }
  }

  /**
    Every message of the history is a user prompt or comes right after one: the
    history is a run of turns, each a prompt with its reply, or a prompt alone
    when the call failed.
   */
  predicate PairedTurns(h: seq<Message>) {
    && (h != [] ==> h[0].role == USER_ROLE)
    && forall i :: 0 < i < |h| && h[i].role != USER_ROLE ==> h[i - 1].role == USER_ROLE
  }

  /** A call keeps the history a run of turns, whether it succeeds or fails. */
  lemma AnswerKeepsTurnsPaired(history: seq<Message>, prompt: string, network: ChatRequest -> Reply)
    requires PairedTurns(history)
    ensures PairedTurns(AnswerTurn(history, prompt, network).history)
  {
    var h := AnswerTurn(history, prompt, network).history;
    var n := |history|;
    forall i | 0 < i < |h| && h[i].role != USER_ROLE
      ensures h[i - 1].role == USER_ROLE
    {
      if i < n {
        assert h[i] == history[i] && h[i - 1] == history[i - 1];
      }
    }
    if n > 0 {
      assert h[0] == history[0];
    }
  }
}
