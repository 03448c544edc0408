/**
  The read-eval-print loop of `main`: each line read is either the command "exit",
  the command "clear context", blank (ignored), or a prompt for the model. A failed
  read ends the loop; so does the end of the input, which the line editor reports as
  a failed read.

  The lines typed are the sequence `inputs`; what the loop prints is recorded as a
  sequence of events (the banner and the "> " prompt are left out).
 */
module Repl {
  import opened RustStr
  import opened Render
  import opened Conversation

  /** The outcome of one `rl.readline("> ")`. */
  datatype Input = Line(text: string) | ReadFailed

  /** What the loop makes of one line it has read. */
  datatype Command = Exit | ClearContext | Ignore | Ask(prompt: string)

  /** What one pass of the loop prints. */
  datatype Event =
    | HistoryCleared            // "Chat history cleared."
    | Replied(rendered: string) // the assistant banner and `format_response` of the reply
    | Failed(error: ApiError)   // the error line

  /** The history and everything printed so far. */
  datatype Session = Session(history: seq<Message>, events: seq<Event>)

  const EXIT_COMMAND: string := "exit"
  const CLEAR_COMMAND: string := "clear context"

  /**
    The dispatch of lines 111-121: the two commands must match exactly, before any
    trimming, and only then is a line of whitespace alone skipped.
   */
  function Classify(line: string): (c: Command)
    ensures c == Exit <==> line == EXIT_COMMAND
    ensures c == ClearContext <==> line == CLEAR_COMMAND
    ensures c == Ignore <==> AllWhitespace(line)
    ensures c.Ask? ==> c.prompt == line
  {
    assert !IsWhitespace(EXIT_COMMAND[0]) && !IsWhitespace(CLEAR_COMMAND[0]);
    if line == EXIT_COMMAND then Exit
    else if line == CLEAR_COMMAND then ClearContext
    else if Trim(line) == [] then Ignore
    else Ask(line)
  }

  /** The session after `prompt` goes to the model. */
  function AskStep(s: Session, prompt: string, network: ChatRequest -> Reply): (r: Session)
    ensures |s.history| < |r.history| && r.history[..|s.history|] == s.history
    ensures r.history[|s.history|] == UserMessage(prompt)
    ensures |r.events| == |s.events| + 1 && r.events[..|s.events|] == s.events
    ensures r.events[|s.events|].Replied? <==> |r.history| == |s.history| + 2
    ensures r.events[|s.events|].Replied? ==>
              r.events[|s.events|].rendered == Render.Render(r.history[|s.history| + 1].content)
  {
    var t := AnswerTurn(s.history, prompt, network);
    var e := match t.answer
             case Ok(response) => Replied(Render.Render(response))
             case Err(error) => Failed(error);
    Session(t.history, s.events + [e])
  }

  /** The effect of one command other than "exit". */
  function Apply(s: Session, c: Command, network: ChatRequest -> Reply): (r: Session)
    requires c != Exit
    ensures |s.events| <= |r.events| <= |s.events| + 1 && r.events[..|s.events|] == s.events
    ensures c == Ignore ==> r == s
    ensures c == ClearContext ==> r.history == [] && r.events == s.events + [HistoryCleared]
    ensures c.Ask? ==> |s.history| < |r.history| <= |s.history| + 2 && r.history[..|s.history|] == s.history
  {
    match c
    case ClearContext => Session([], s.events + [HistoryCleared])
    case Ignore => s
    case Ask(prompt) => AskStep(s, prompt, network)
  }

  /** The session when the loop stops, having read `inputs` (or a prefix of them). */
  function Run(s: Session, inputs: seq<Input>, network: ChatRequest -> Reply): (r: Session)
    ensures |s.events| <= |r.events| <= |s.events| + |inputs|
    ensures r.events[..|s.events|] == s.events
    decreases |inputs|
  {
    if inputs == [] || inputs[0] == ReadFailed || Classify(inputs[0].text) == Exit then s
    else Run(Apply(s, Classify(inputs[0].text), network), inputs[1..], network)
  }

  /** One pass of the loop for a line that is not "exit" (lines 115-138). */
  method Dispatch(prompt: string, h: History, events: seq<Event>, network: ChatRequest -> Reply)
    returns (events': seq<Event>)
    requires prompt != EXIT_COMMAND
    modifies h
    ensures Session(h.messages, events') == Apply(Session(old(h.messages), events), Classify(prompt), network)
  {
    if prompt == CLEAR_COMMAND {
      h.Clear();
      events' := events + [HistoryCleared];
      return;
    }
    events' := events;
    if Trim(prompt) != [] {
      var answer := GetOpenRouterAnswer(prompt, h, network);
      match answer
      case Ok(response) =>
        var shown := FormatResponse(response);
        events' := events' + [Replied(shown)];
      case Err(error) =>
        events' := events' + [Failed(error)];
    }
  }

  /** Lines 104-139 of `main`: the loop over the lines read, from an empty history. */
  method ChatLoop(inputs: seq<Input>, network: ChatRequest -> Reply)
    returns (history: seq<Message>, events: seq<Event>)
    ensures Session(history, events) == Run(Session([], []), inputs, network)
  {
    var h := new History();
    events := [];
    var n := 0;
    while n < |inputs|
      invariant 0 <= n <= |inputs|
      invariant Run(Session(h.messages, events), inputs[n..], network)
                == Run(Session([], []), inputs, network)
      decreases |inputs| - n
    {
      assert inputs[n..][1..] == inputs[n + 1..];
      match inputs[n]
      case ReadFailed =>
        break;
      case Line(prompt) =>
        if prompt == EXIT_COMMAND {
          break;
        }
        events := Dispatch(prompt, h, events, network);
        n := n + 1;
    }
    history := h.messages;
  }

  // ---------------------------------------------------------------------------------
  // Properties of the loop

  /** "exit" ends the loop at once: nothing after it is read, nothing changes. */
  lemma ExitStops(s: Session, rest: seq<Input>, network: ChatRequest -> Reply)
    ensures Run(s, [Line(EXIT_COMMAND)] + rest, network) == s
  {
  }

  /** A failed read ends the loop at once. */
  lemma ReadFailureStops(s: Session, rest: seq<Input>, network: ChatRequest -> Reply)
    ensures Run(s, [ReadFailed] + rest, network) == s
  {
  }

  /** "clear context" empties the history whatever it held; later turns start from nothing. */
  lemma ClearEmptiesHistory(s: Session, rest: seq<Input>, network: ChatRequest -> Reply)
    ensures Run(s, [Line(CLEAR_COMMAND)] + rest, network)
            == Run(Session([], s.events + [HistoryCleared]), rest, network)
  {
    assert ([Line(CLEAR_COMMAND)] + rest)[1..] == rest;
  }

  /** A blank line neither calls the model nor touches the history nor prints anything. */
  lemma BlankLineIgnored(s: Session, text: string, rest: seq<Input>, network: ChatRequest -> Reply)
    requires AllWhitespace(text)
    ensures Run(s, [Line(text)] + rest, network) == Run(s, rest, network)
  {
    assert ([Line(text)] + rest)[1..] == rest;
  }

  /**
    Any other line is a prompt, even one that is a command with spaces around it: the
    history gains the prompt, and the first choice too when there is one.
   */
  lemma PromptRunsTurn(s: Session, text: string, rest: seq<Input>, network: ChatRequest -> Reply)
    requires text != EXIT_COMMAND && text != CLEAR_COMMAND && !AllWhitespace(text)
    ensures var t := AnswerTurn(s.history, text, network);
      Run(s, [Line(text)] + rest, network)
      == Run(Session(t.history, s.events + [if t.answer.Ok? then Replied(Render.Render(t.answer.content))
                                            else Failed(t.answer.error)]), rest, network)
  {
    assert ([Line(text)] + rest)[1..] == rest;
  }

  /** " exit" is not the exit command: it is sent to the model. */
  lemma PaddedExitIsPrompt()
    ensures Classify(" " + EXIT_COMMAND) == Ask(" " + EXIT_COMMAND)
  {
    assert !IsWhitespace((" " + EXIT_COMMAND)[1]);
  }

  /** Whatever is typed, the history stays a run of prompts each followed by at most its reply. */
  lemma {:induction false} RunKeepsTurnsPaired(s: Session, inputs: seq<Input>, network: ChatRequest -> Reply)
    requires PairedTurns(s.history)
    ensures PairedTurns(Run(s, inputs, network).history)
    decreases |inputs|
  {
    if inputs != [] && inputs[0].Line? {
      match Classify(inputs[0].text)
      case Exit =>
      case ClearContext =>
        RunKeepsTurnsPaired(Session([], s.events + [HistoryCleared]), inputs[1..], network);
      case Ignore =>
        RunKeepsTurnsPaired(s, inputs[1..], network);
      case Ask(prompt) =>
        AnswerKeepsTurnsPaired(s.history, prompt, network);
        RunKeepsTurnsPaired(AskStep(s, prompt, network), inputs[1..], network);
    }
  }

  /** Each line read adds at most two messages to the history. */
  lemma {:induction false} RunHistoryBound(s: Session, inputs: seq<Input>, network: ChatRequest -> Reply)
    ensures |Run(s, inputs, network).history| <= |s.history| + 2 * |inputs|
    decreases |inputs|
  {
    if inputs != [] && inputs[0].Line? {
      match Classify(inputs[0].text)
      case Exit =>
      case ClearContext =>
        RunHistoryBound(Session([], s.events + [HistoryCleared]), inputs[1..], network);
      case Ignore =>
        RunHistoryBound(s, inputs[1..], network);
      case Ask(prompt) =>
        RunHistoryBound(AskStep(s, prompt, network), inputs[1..], network);
    }
  }
}
