# tchat core in Dafny

tchat is a command-line chat client. It reads lines from the terminal and keeps the
conversation history. It sends each prompt, together with the whole history, to a
chat-completion endpoint and prints the first choice of the reply after rendering its
light Markdown as ANSI escapes. This project models the three pieces of logic in
`src/main.rs` and proves properties of them.

- **`format_response`** (`render.dfy`, module `Render`):
  - The reply is split with `str::lines()`.
  - A line starting with `"### "` is wrapped whole in bold green.
  - In any other line, each `"**"` found by `match_indices` becomes an ANSI escape. The escapes alternate between bold-on and reset, starting with bold-on.
  - The model is the same nested loop as in the source, written as the methods `FormatResponse` and `ReplaceBold`. They are proved against a reference definition:
    - `SplitMarkers` cuts a line at its leftmost, non-overlapping `"**"` matches;
    - `Interleave` joins the pieces with separators.

    So the line is its segments joined by `"**"`, and its rendering is the same segments joined by the alternating escapes.
- **`get_openrouter_answer`** (`conversation.dfy`, module `Conversation`):
  - The history is a class whose `seq<Message>` field is pushed and cleared in place.
  - The method pushes the user message and sends a copy of the history.
  - It pushes the first choice only when the reply has one. It never rolls back the first push.
  - `AnswerTurn` states the same behaviour as a function of the old history.
- **The read loop of `main`** (`repl.dfy`, module `Repl`):
  - The exact line `"exit"` stops the loop, and so does a failed read.
  - The exact line `"clear context"` empties the history.
  - A line that `trim()`s to nothing is skipped.
  - Anything else is a prompt.
  - `ChatLoop` is the loop over a sequence of inputs. `Run` is its reference definition.
- **`rust_str.dfy`** (module `RustStr`): the parts of Rust's `str` that these rely on.
  - `starts_with`;
  - `trim`, with `char::is_whitespace` as the Unicode White_Space set;
  - `lines`.

Two behaviours follow from the code as written:
- A line with an odd number of "**" leaves bold on up to its "\n" (`Render.LastEscape`).
- A heading keeps its "**" as literal text (`Render.HeadingWrapped`).

## Model

| member | source | states |
|---|---|---|
| RustStr.TrimStart | src/main.rs:121 | the result is a suffix of the input, what was dropped is all whitespace, and the result is empty or starts with a non-whitespace character |
| RustStr.TrimEnd | src/main.rs:121 | the result is a prefix of the input, what was dropped is all whitespace, and the result is empty or ends with a non-whitespace character |
| RustStr.Trim | src/main.rs:121 | the result is no longer than the input and neither starts nor ends with whitespace; `prompt.trim().is_empty()` holds exactly when every character is whitespace |
| RustStr.StartsWith | src/main.rs:65 | `line.starts_with(prefix)` holds exactly when the line is the prefix followed by the rest of the line |
| RustStr.FindNewline | src/main.rs:64 | the position found is the first '\n', or the length when there is none |
| RustStr.StripCr | src/main.rs:64 | one trailing '\r' is removed exactly when the line ends in '\r'; otherwise the line comes back unchanged |
| RustStr.Lines | src/main.rs:64 | no line contains '\n', and there are no lines exactly when the text is empty |
| RustStr.LinesStep | src/main.rs:64 | the first line is the text before the first '\n', with a '\r' just before that '\n' removed; the other lines come from the text after it |
| RustStr.LinesCrlf | src/main.rs:64 | a "\r\n" ending is removed whole: the line before it keeps no '\r', and the lines after it are those of the rest |
| RustStr.LinesCount | src/main.rs:64 | there is one line per '\n', plus one for a last line without a line ending |
| RustStr.LinesRoundTrip | src/main.rs:64 | without CRLF endings, putting "\n" after every line gives back the text, with a final "\n" added when it had none |
| Render.MatchIndicesFrom | src/main.rs:73 | every reported position holds "**", and the positions are increasing and never overlap |
| Render.MatchIndicesComplete | src/main.rs:73 | every "**" in the line is reported, or overlaps the end of one that is (leftmost-first scan) |
| Render.MatchIndices | src/main.rs:73 | every position reported for the line holds "**", in increasing order and never overlapping |
| Render.NoMatchInMarkerFree | src/main.rs:73 | a line with no "**" has no matches |
| Render.SplitMarkers | src/main.rs:73-84 | there is at least one segment, and the first segment is a prefix of the line |
| Render.SplitNoMatch | src/main.rs:84 | with no match left after `last_pos`, the rest of the line is one segment |
| Render.SplitFirstMatch | src/main.rs:73-82 | the first match after `last_pos` ends the next segment, and the later matches are those found after `i + 2` |
| Render.SplitCount | src/main.rs:73 | a line has exactly one more segment than `match_indices` reports matches |
| Render.InterleaveStep | src/main.rs:74-82 | one loop pass emits `line[last_pos..i]` and the escape for the current bold state, and leaves the rest of the rendering to the remaining matches with the state flipped |
| Render.Escape | src/main.rs:74-80 | the escape is bold-on outside bold text and reset inside it; each is a four-character ANSI sequence |
| Render.RenderLine | src/main.rs:65-87 | the output for one line is longer than the line and ends in "\n" |
| Render.RenderLines | src/main.rs:64-88 | the output is empty exactly when there are no lines, and otherwise ends in "\n" |
| Render.Render | src/main.rs:61-90 | the output of `format_response` is empty exactly when the reply is, and otherwise ends in "\n" |
| Render.ReplaceBold | src/main.rs:69-85 | the `is_bold`/`last_pos` loop returns the line's segments joined by the alternating escapes, bold-on first |
| Render.FormatResponse | src/main.rs:61-90 | the output is the rendering of every line that `lines()` yields, in order |
| Render.RenderLinesSnoc | src/main.rs:64-88 | rendering one more line appends that line's rendering |
| Render.SplitRoundTrip | src/main.rs:73-84 | joining the segments with "**" gives back the line |
| Render.SegmentsMarkerFree | src/main.rs:73 | no segment contains "**" |
| Render.FirstCutIsMarker | src/main.rs:73 | when there is a cut, the first segment is followed by "**" |
| Render.SegmentsBeforeCutsNoStar | src/main.rs:73 | no segment that ends at a cut ends in '*', so every cut is the leftmost match |
| Render.SplitLeftmost | src/main.rs:73 | the segments contain no "**", no segment before a cut ends in '*', and the first cut is a "**" right after the first segment |
| Render.SplitConcat | src/main.rs:75-84 | the segments joined with nothing between them are the line with every matched "**" deleted, in the original order |
| Render.EscapesAlternate | src/main.rs:74-81 | the j-th escape is bold-on when j is even and reset when j is odd, counting from the starting state |
| Render.EscapesPrefix | src/main.rs:74-81 | the escapes for the first m matches do not depend on how many follow |
| Render.KthEscape | src/main.rs:74-81 | the escape for match number k, counting from 1, is bold-on exactly when k is odd |
| Render.InterleaveSnoc | src/main.rs:84 | the last segment comes after the last separator |
| Render.MarkersBecomeEscapes | src/main.rs:69-86 | a non-heading line with k matches has k + 1 segments; it is those segments joined by "**", and it renders as the same segments joined by k escapes alternating bold-on, reset, ... ; the segments alone are the line with its matches deleted |
| Render.LastEscape | src/main.rs:74-86 | the last escape is bold-on when k is odd, so the trailing text stays bold up to the "\n" with no reset; it is reset when k is even |
| Render.InterleaveLength | src/main.rs:84 | a joined string's length is the segments' total length plus the separators' |
| Render.InterleaveNewlines | src/main.rs:84 | a joined string's '\n' count is that of its segments plus that of its separators |
| Render.MarkersShape | src/main.rs:73 | k markers take 2k characters and hold no '\n' |
| Render.EscapesShape | src/main.rs:76-79 | k escapes take 4k characters and hold no '\n' |
| Render.RenderedLength | src/main.rs:69-86 | a non-heading line's output is its length plus two per match plus one, for the "\n" |
| Render.VerbatimIffNoMarker | src/main.rs:73-86 | a non-heading line is output unchanged plus "\n" exactly when it contains no "**" |
| Render.HeadingWrapped | src/main.rs:65-66 | a "### " line becomes bold-green-on, the line, reset, "\n"; every "**" of it is kept where it was, shifted by the escape |
| Render.RenderLineNewline | src/main.rs:65-87 | every line that `lines()` yields gives exactly one '\n' of output |
| Render.RenderLinesNewlines | src/main.rs:64-88 | lines without '\n' give exactly one '\n' of output each |
| Render.RenderNewlines | src/main.rs:62-89 | the output holds one '\n' per line yielded, which is one per '\n' of the input plus one for an unterminated last line; the output is empty exactly when the input is |
| Render.RenderSingleLine | src/main.rs:64-88 | a reply of one line without '\n' renders as that line |
| Render.HeadingExample | src/main.rs:65-66 | "### Title" comes out as bold green "### Title", then reset and "\n" |
| Render.MatchExamples | src/main.rs:73 | "****" has matches at 0 and 2; "***" holds "**" at 1 after the match at 0, but only the match at 0 is reported, and it splits into "" and "*" |
| Render.BoldExampleSplit | src/main.rs:73 | "a **b** c" splits into "a ", "b" and " c" |
| Render.BoldExample | src/main.rs:69-86 | "a **b** c" renders as "a ", bold-on, "b", reset, " c", "\n" |
| Conversation.AnswerTurn | src/main.rs:29-59 | the history keeps its old messages and gains the user message; it gains the first choice too exactly when the reply parsed with a non-empty choice list, and then that choice's content is returned; otherwise it grows by one and the error reflects where the call failed (header, send, decode, no content) |
| Conversation.History.constructor | src/main.rs:104 | a new history is empty |
| Conversation.History.Push | src/main.rs:32-35 | `push` appends exactly the message and changes nothing else |
| Conversation.History.Clear | src/main.rs:116 | `clear` leaves the history empty |
| Conversation.GetOpenRouterAnswer | src/main.rs:29-59 | the in-place pushes leave the history, and produce the answer, that `AnswerTurn` gives for the old history; the request sent is the history with the user message already in it |
| Conversation.AnswerKeepsTurnsPaired | src/main.rs:32-58 | whether the call succeeds or fails, the history stays a run of user prompts, each followed by at most one reply |
| Repl.Classify | src/main.rs:111-121 | "exit" and "clear context" are recognised only as exact matches; a line is skipped exactly when it is all whitespace; every other line is sent unchanged as the prompt |
| Repl.AskStep | src/main.rs:122-130 | a prompt keeps the old history and adds the user message after it; it prints exactly one event, which is the rendered reply exactly when the history grew by two, and that reply is the one just appended |
| Repl.Apply | src/main.rs:115-131 | a command other than "exit" prints at most one event and keeps what was printed before; a blank line changes nothing; "clear context" empties the history and prints the confirmation; a prompt grows the history by one or two and keeps its old messages |
| Repl.Run | src/main.rs:107-139 | what the loop prints only grows, by at most one event per line read |
| Repl.Dispatch | src/main.rs:115-132 | one pass for a line that is not "exit" leaves the history and printed events that `Apply` gives for its command: "clear context" clears the history, a blank line changes nothing, and a prompt runs one turn |
| Repl.ChatLoop | src/main.rs:104-139 | the loop, starting from an empty history, ends with the history and printed events that `Run` gives for the lines read |
| Repl.ExitStops | src/main.rs:111-113 | "exit" ends the loop at once and changes nothing |
| Repl.ReadFailureStops | src/main.rs:134-137 | a failed read ends the loop at once and changes nothing |
| Repl.ClearEmptiesHistory | src/main.rs:115-119 | "clear context" empties the history whatever it held, and the loop carries on |
| Repl.BlankLineIgnored | src/main.rs:121 | a line of whitespace alone neither calls the model nor changes the history or the output |
| Repl.PromptRunsTurn | src/main.rs:121-131 | any other line runs one turn; the reply is printed rendered, or the error is printed |
| Repl.PaddedExitIsPrompt | src/main.rs:111-121 | " exit" is not the exit command: it is sent as a prompt |
| Repl.RunKeepsTurnsPaired | src/main.rs:107-139 | whatever is typed, the history stays a run of user prompts, each followed by at most one reply |
| Repl.RunHistoryBound | src/main.rs:107-139 | each line read adds at most two messages to the history |

## Left out

- The HTTP exchange is left out: `reqwest::Client`, the header map, `send().await` and the endpoint URL.
  - The reply is the value of a parameter `network: ChatRequest -> Reply`.
  - `Reply` has four cases: an Authorization value that is not a valid header value, a failed send, a body that does not decode as a `ChatResponse`, and a decoded choice list.
  - Because `network` is a function, identical requests get identical replies. The real endpoint answers as it likes; only the request sent at each turn matters to the model.
- serde serialization and deserialization are left out. A body that does not decode is one `Reply` case.
- The API key and `env::var("OPENROUTER_API_KEY")` are left out, along with the panic when the variable is missing.
  - The key only feeds the Authorization header.
  - Its one effect on the logic is the header-rejection reply.
- rustyline, tokio, the banner and the `println!`/`print!` calls are not modelled.
  - A read is `Line(text)` or `ReadFailed`.
  - The end of the input sequence stops the loop, as a failed read does.
  - Printing is recorded as events: "history cleared", the rendered reply, or the error.
  - The text of the error messages is not modelled.
  - The `"\n"` printed before the loop stops on a failed read is not recorded. `ReadFailed` ends the loop with no event.
  - The assistant banner and the blank lines around a reply are not recorded. They are folded into the one `Replied` event.
- UTF-8 byte offsets are not modelled.
  - Strings are sequences of characters.
  - `"**"`, `"### "` and the line endings are ASCII, so byte slices and character slices cut in the same places.
- RustStr.Lines: follows the current standard-library definition of `str::lines`.
  - A "\r" is removed only when it comes just before a "\n".
  - So a last line with no line ending keeps a trailing "\r".
  - Standard-library versions before that definition also removed a bare "\r" at the very end.
- The line editor's history list (`Editor::<()>`) is not modelled.
