# graphrag chat façade: answer formatting and request handling

This project models the two pieces of logic in graphrag's OpenAI-compatible
chat front end and proves properties of both.

- `format_response` (graphrag/app/utils.py) post-processes every answer the
  search engines produce:
  - it cuts the answer into paragraphs at runs of two or more newlines;
  - in a paragraph with a triple-backtick fence, every odd-numbered piece
    between fences is re-wrapped as a code block;
  - in every other paragraph, each `". "` becomes `".\n"`;
  - each paragraph is stripped, and the paragraphs are joined again with one
    blank line between them.
- `chat_completions` and `list_models` (graphrag/app/handlers.py), the two
  request handlers:
  - `chat_completions` checks that both engines exist and takes the last
    message as the prompt;
  - it routes the prompt to the global engine exactly when the model name is
    the global model's name, and to the local engine otherwise;
  - it formats the answer, then returns either one JSON completion with word
    counts as usage, or a Server-Sent Events stream: one chunk per line, a
    stop chunk, then `[DONE]`;
  - every failure becomes an HTTP 500 error;
  - `list_models` lists the two model names.

The modules:

- `Wrappers` holds `Option`, which stands for Python's `None`.
- `PyStr` holds the Python `str` built-ins the code uses, over `seq<char>`:
  - `in`;
  - `split(sep)`;
  - `sep.join`;
  - `replace`;
  - `strip()`;
  - `split()` with no argument.

  It also holds `Count`, the number of leftmost non-overlapping matches of a
  separator. The code never calls `str.count`; `Count` is the measure in which
  the fence and line counts are stated.

  Each comes with its own lemmas.
- `Settings` holds the two model-name constants (graphrag/app/settings.py:11-12).
- `Utils` holds `format_response`:
  - `re.split(r'\n{2,}', s)` is the function `SplitParagraphs`. It returns the
    pieces and the length of each newline run it removed. It is proved sound
    (putting the runs back gives `s`, and the cut has the shape the pattern
    guarantees) and unique (any cut of `s` with that shape is the one it
    finds).
  - The specification functions are `FormatParagraph`, `FormattedParagraphs`
    and `Format`.
  - The source's loops are methods proved equal to them:
    - `FormatResponse` is the loop that appends to `formatted_paragraphs`;
    - `ReformatParagraph` is the body of that loop;
    - `RewrapInPlace` is the inner loop, which overwrites `parts[i]` in an
      array.
- `Handlers` holds `chat_completions` as a function from the request, the two
  optional engines, the chunk id's hex string and a clock to an `Outcome`:
  - the `Outcome` is the reply plus the engine that was asked, if any;
  - a reply is a JSON body, an event stream or an HTTP error;
  - `generate_stream` is the method `GenerateStream`, a loop proved equal to
    the specification function `StreamEvents`;
  - the Server-Sent Events framing (section 9.2 of the WHATWG HTML Living
    Standard) is the function `Wire`.

These are parameters rather than modelled behaviour:

- Each search engine is a function from the prompt to a `SearchResult`: either
  `Found(response)` or `Raised(message)`, so an exception inside `asearch`
  reaches the catch-all.
- `uuid.uuid4().hex` is the parameter `uuidHex`.
- `int(time.time())` is `clock(i)`, the time read while chunk `i` is built.
  `list_models` takes it as `now`.
- `json.dumps` of a chunk is the parameter `encode`.

Formatting is meant to be idempotent on text with no fences and no `". "`.
The code keeps that promise only when, in addition, no whitespace-only
paragraph stands between two others:

- `"x\n\n \n\ny"` formats to `"x\n\n\n\ny"`, and that formats to `"x\n\ny"`.
- The model follows the code. `FormatIdempotent` carries the extra
  condition, and `BlankParagraphNotIdempotent` proves it cannot be dropped.

Formatting re-wraps code blocks, but it does not keep a block's content when
the block holds a blank line. The code cuts paragraphs before it looks for
fences:

- ``"```\nx\n\ny\n```"`` is cut into ``"```\nx"`` and ``"y\n```"``.
- The first gets a closing fence.
- In the second, the closing fence is taken for an opening one, and an empty
  block follows it.
- The answer is ``"```\nx\n```\n\ny\n\n```\n\n```"``, which no longer
  contains the code `"x\n\ny"`.
- The model follows the code. `BlankLineInFence` proves the example. Content
  preservation (`FencedParagraphPieces`) is stated per paragraph. What holds
  for the whole answer is that its fence count is even (`FormatFenceEven`).

## Model

| member | source | states |
|---|---|---|
| `Utils.SplitParagraphs` | graphrag/app/utils.py:8 | `re.split(r'\n{2,}', s)`. Its contract gives one more piece than removed runs; `Utils.SplitParagraphsSound` and `Utils.SplitParagraphsUnique` give what the pieces are. |
| `Utils.SplitParagraphsSound` | graphrag/app/utils.py:8 | The pieces cut by `re.split(r'\n{2,}')`, with the removed newline runs put back, give the input. Every run has at least two newlines. No piece holds `"\n\n"`. No run could be longer. No empty piece stands between two runs. |
| `Utils.SplitParagraphsUnique` | graphrag/app/utils.py:8 | Any cut with the shape the pattern guarantees is exactly what the split finds on the string it rejoins to, so the split is the leftmost-greedy one. |
| `Utils.SplitParagraphsNoBreak` | graphrag/app/utils.py:8 | A string with no `"\n\n"` is a single paragraph: itself. |
| `Utils.SplitParagraphsAfter` | graphrag/app/utils.py:8 | When the first break of a string is a maximal run of k ≥ 2 newlines, the split yields the text before it, then the run, then the split of the rest. |
| `Utils.RejoinContainsParagraph` | graphrag/app/utils.py:8 | Every paragraph is a substring of the text it was cut from. |
| `Utils.RejoinJoin` | graphrag/app/utils.py:22 | `"\n\n".join(qs)` is the text in which the pieces `qs` are separated by runs of exactly two newlines. |
| `Utils.RewrapInPlace` | graphrag/app/utils.py:13-15 | After the loop, the array holds `"\n```\n" + strip(part) + "\n```\n"` at every odd index and the original piece at every even index. |
| `Utils.ReformatParagraph` | graphrag/app/utils.py:10-20 | One pass of the paragraph loop. A paragraph holding a fence is split on it, re-wrapped in place, joined with `''` and stripped. Any other paragraph is reflowed and stripped. |
| `Utils.FormatResponse` | graphrag/app/utils.py:7-22 | The loop's output is the formatted paragraphs, one per piece of the split and in order, joined by `"\n\n"`. |
| `Utils.Format` | graphrag/app/utils.py:7-22 | What `format_response` returns. It has no contract of its own; `Utils.FormatFenceEven`, `Utils.PlainText`, `Utils.FormatIdempotent`, `Utils.FormatOfCut` and `Utils.BlankLineInFence` state its properties. |
| `Utils.FormattedParagraphs` | graphrag/app/utils.py:8-20 | There are exactly as many formatted paragraphs as the split yields, and each has no leading or trailing whitespace. |
| `Utils.FormatParagraph` | graphrag/app/utils.py:20 | A formatted paragraph has no leading or trailing whitespace. |
| `Utils.ReflowIsSentencesBroken` | graphrag/app/utils.py:18 | `p.replace(". ", ".\n")` turns a space into a newline exactly when a period stands right before it. It changes nothing else and keeps the length. |
| `Utils.NoSentenceEndAfterReflow` | graphrag/app/utils.py:18 | No `". "` is left after the reflow. |
| `Utils.UnfencedParagraph` | graphrag/app/utils.py:17-20 | A paragraph without a fence comes out as its stripped reflow and holds no `". "`. |
| `Utils.ReflowNoFence` | graphrag/app/utils.py:18 | The reflow only turns spaces into newlines, so it creates no fence. |
| `Utils.UnfencedNoFence` | graphrag/app/utils.py:17-20 | A paragraph without a fence comes out with no fence. |
| `Utils.PlainPiece` | graphrag/app/utils.py:17-20 | A one-character paragraph comes out unchanged, or empty when that character is whitespace. |
| `Utils.FencedBlockCount` | graphrag/app/utils.py:15 | A re-wrapped fence-free piece holds exactly two fences and starts and ends with a newline. |
| `Utils.RewrappedCount` | graphrag/app/utils.py:12-16 | Re-wrapping the n fence-free pieces of a split and running them together gives 2·⌊n/2⌋ fences. |
| `Utils.FencedParagraphCount` | graphrag/app/utils.py:12-16 | A fenced paragraph with k fences comes out with 2·⌈k/2⌉ fences, so an unmatched opening fence gets closed. |
| `Utils.FencedParagraphPieces` | graphrag/app/utils.py:11-16 | The output contains every even-numbered piece of a fenced paragraph (stripped, with no `". "` reflow), and every odd-numbered piece, stripped, between a fence line and a fence. |
| `Utils.ParagraphFenceEven` | graphrag/app/utils.py:10-20 | Every formatted paragraph, fenced or not, holds an even number of fences. |
| `Utils.BreakCount` | graphrag/app/utils.py:22 | The `"\n\n"` between two paragraphs adds no fence and no fence straddles it: the fence counts of the two sides add up. |
| `Utils.JoinFenceEven` | graphrag/app/utils.py:22 | Joining paragraphs with even fence counts by `"\n\n"` gives an even fence count. |
| `Utils.FormatFenceEven` | graphrag/app/utils.py:7-22 | The whole answer holds an even number of fences, whatever the input: every code block it opens, it closes. |
| `Utils.PlainText` | graphrag/app/utils.py:8-22 | Text with no `"\n\n"`, no fence and no `". "` comes out as `text.strip()`. |
| `Utils.ReparseFormatted` | graphrag/app/utils.py:8-22 | The conditions are: no fence, no `". "`, and no whitespace-only paragraph between two others. Under them, each formatted paragraph is the stripped input paragraph, and splitting the output recovers exactly those paragraphs, separated by runs of two newlines. |
| `Utils.FormatIdempotent` | graphrag/app/utils.py:8-22 | Under the same three conditions, formatting twice gives the same text as formatting once. |
| `Utils.FormatOfCut` | graphrag/app/utils.py:8-22 | Formatting the text of a well-formed cut gives the formatted pieces joined by `"\n\n"`. |
| `Utils.BlankMiddleFormat` | graphrag/app/utils.py:8-22 | `"x\n\n \n\ny"` (x and y not whitespace) comes out as `"x\n\n\n\ny"`: the whitespace-only middle paragraph is stripped to nothing. |
| `Utils.LongBreakFormat` | graphrag/app/utils.py:8-22 | `"x\n\n\n\ny"` comes out as `"x\n\ny"`: a run of four newlines is a single break. |
| `Utils.BlankParagraphNotIdempotent` | graphrag/app/utils.py:8-22 | Without the whitespace-only-paragraph condition, idempotence fails: on `"x\n\n \n\ny"`, formatting twice differs from formatting once. |
| `Utils.FenceBlankCut` | graphrag/app/utils.py:8 | ``"```\nx\n\ny\n```"`` (x and y not whitespace) is cut into ``"```\nx"`` and ``"y\n```"``. |
| `Utils.FenceBlankFirst` | graphrag/app/utils.py:11-20 | ``"```\nx"`` comes out as ``"```\nx\n```"``: the opening fence gets closed. |
| `Utils.FenceBlankSecond` | graphrag/app/utils.py:11-20 | ``"y\n```"`` comes out as ``"y\n\n```\n\n```"``: the closing fence is taken for an opening one and an empty block follows it. |
| `Utils.FenceBlankFormat` | graphrag/app/utils.py:7-22 | ``"```\nx\n\ny\n```"`` comes out as ``"```\nx\n```\n\ny\n\n```\n\n```"``. |
| `Utils.FenceBlankLost` | graphrag/app/utils.py:7-22 | The output of `Utils.FenceBlankFormat` does not contain `"x\n\ny"`, for x and y other than a backtick. |
| `Utils.BlankLineInFence` | graphrag/app/utils.py:7-22 | A code block with a blank line in it is not kept: the input contains the code `"x\n\ny"`, the answer does not. |
| `PyStr.SplitCount` | graphrag/app/utils.py:12 | `s.split(sep)` has one more piece than `s` has matches of `sep`. |
| `PyStr.SplitPiecesFree` | graphrag/app/utils.py:12 | No piece of `s.split(sep)` contains `sep`. |
| `PyStr.JoinSplit` | graphrag/app/utils.py:12 | `sep.join(s.split(sep)) == s`. |
| `PyStr.SplitJoin` | graphrag/app/utils.py:12 | Splitting `sep.join(parts)` gives back `parts`, provided no part contains `sep` and no part but the last ends with a character of `sep`. |
| `PyStr.SplitAbsent` | graphrag/app/utils.py:12 | A string without `sep` splits into itself alone. |
| `PyStr.Split` | graphrag/app/utils.py:12 | `s.split(sep)` has at least one piece. `PyStr.JoinSplit`, `PyStr.SplitJoin`, `PyStr.SplitCount` and `PyStr.SplitPiecesFree` give what the pieces are. |
| `PyStr.Count` | graphrag/app/utils.py:12-16 | The number of leftmost non-overlapping matches, in which the fence counts of `Utils.FencedParagraphCount` and `Utils.FormatFenceEven` are stated. It has no contract of its own; `PyStr.CountAbsent`, `PyStr.SplitCount`, `PyStr.CountChar` and `PyStr.CountConcat` state its properties. |
| `PyStr.CountAbsent` | graphrag/app/utils.py:11 | The count is zero if and only if `sep in s` is false. |
| `PyStr.CountConcat` | graphrag/app/utils.py:15 | Counts add up across a boundary that no match can straddle. |
| `PyStr.Join` | graphrag/app/utils.py:16 | `sep.join(parts)`. It has no contract of its own; `PyStr.JoinSplit` and `PyStr.SplitJoin` make it the inverse of `split`. |
| `PyStr.CountChar` | graphrag/app/handlers.py:31 | Counting a one-character separator counts the occurrences of that character. |
| `PyStr.ReplaceIsJoinSplit` | graphrag/app/utils.py:18 | `s.replace(t, u) == u.join(s.split(t))`. |
| `PyStr.ReplaceAbsent` | graphrag/app/utils.py:18 | Replacing a target that does not occur changes nothing. |
| `PyStr.Replace` | graphrag/app/utils.py:18 | `s.replace(t, u)`. It has no contract of its own; `PyStr.ReplaceIsJoinSplit` ties it to `split` and `join`, and `Utils.ReflowIsSentencesBroken` gives its effect on `". "`. |
| `PyStr.Strip` | graphrag/app/utils.py:20 | The result of `strip()` neither starts nor ends with whitespace. |
| `PyStr.StripParts` | graphrag/app/utils.py:20 | `s` is `s.strip()` with only whitespace before and after it. |
| `PyStr.StripSurrounded` | graphrag/app/utils.py:20 | Surrounding a stripped string with whitespace and stripping it gives it back. |
| `PyStr.StripIdempotent` | graphrag/app/utils.py:20 | Stripping twice is stripping once. |
| `PyStr.StripEmptyIffBlank` | graphrag/app/utils.py:20 | `s.strip()` is empty if and only if `s` is all whitespace. |
| `PyStr.StripKeeps` | graphrag/app/utils.py:20 | An occurrence of a non-empty string that begins and ends with non-whitespace survives the strip. |
| `PyStr.StripCount` | graphrag/app/utils.py:15 | Stripping removes no match of a separator that has no whitespace in it. |
| `PyStr.Words` | graphrag/app/handlers.py:58 | Every word of `s.split()` is non-empty and has no whitespace. |
| `PyStr.WordsSeparated` | graphrag/app/handlers.py:58 | Every string is its words interleaved with whitespace runs, and two words are always parted by at least one whitespace character: the words are the maximal non-whitespace runs. |
| `PyStr.WordsOfInterleave` | graphrag/app/handlers.py:58 | Conversely, any way of writing a string as non-empty whitespace-free words with whitespace around them and non-empty whitespace between them gives exactly `s.split()`. |
| `PyStr.WordsCoverNonSpace` | graphrag/app/handlers.py:58 | The words of `s.split()`, run together, are exactly the non-whitespace characters of `s`, in order. |
| `PyStr.WordsOfJoin` | graphrag/app/handlers.py:58 | Non-empty whitespace-free words joined by single spaces split back into exactly those words. |
| `Handlers.ChatCompletions` | graphrag/app/handlers.py:11-65 | No engine is asked exactly when an engine is missing or there is no message, and then the reply is a 500. When an engine is asked, it is the one the model name routes to. |
| `Handlers.EnginesMissing` | graphrag/app/handlers.py:12-14 | If either engine is missing, the reply is a 500 with "Search engines not initialized", and no engine is asked. |
| `Handlers.RoutingExactlyOne` | graphrag/app/handlers.py:20-23 | With both engines and a message, exactly one engine is asked: the global one if and only if the model equals the global model name, and the local one for every other name. |
| `Handlers.GlobalIgnoresLocal` | graphrag/app/handlers.py:20-21 | A request for the global model gets the same outcome whatever the local engine does. |
| `Handlers.LocalIgnoresGlobal` | graphrag/app/handlers.py:22-23 | Any other request gets the same outcome whatever the global engine does. |
| `Handlers.OnlyLastMessage` | graphrag/app/handlers.py:18 | Messages before the last one change nothing. |
| `Handlers.EmptyMessages` | graphrag/app/handlers.py:16-18 | An empty message list fails with 500 and the `IndexError` text "list index out of range", which the catch-all at lines 63-65 reports; no engine is asked. |
| `Handlers.EngineError` | graphrag/app/handlers.py:63-65 | An exception from the engine that was asked becomes a 500 carrying its message. |
| `Handlers.NonStreamingReply` | graphrag/app/handlers.py:55-58 | The JSON reply echoes the model and has one choice: index 0, role "assistant", the formatted answer, finish reason "stop". Usage is the word count of the prompt, the word count of the answer, and their sum. |
| `Handlers.StreamingReply` | graphrag/app/handlers.py:28-53 | A streaming request gets the event sequence of the formatted answer. |
| `Handlers.StreamEvents` | graphrag/app/handlers.py:29-51 | The stream has two events more than the answer has lines; the last is the sentinel, and every event before it is a chunk with the shared id `chatcmpl-<hex>` and the requested model. |
| `Handlers.GenerateStream` | graphrag/app/handlers.py:29-51 | The loop over lines yields the events of `StreamEvents`, in order. |
| `Handlers.StreamLength` | graphrag/app/handlers.py:31-32 | There is one line per newline plus one (at least one, even for an empty answer), so the stream has the newline count plus three events. |
| `Handlers.StreamShape` | graphrag/app/handlers.py:30-51 | The sentinel comes exactly once, last. Every chunk before it has a single choice with index 0, the shared id `chatcmpl-<hex>`, the object name, the requested model and its own timestamp. Exactly one chunk, the second to last, has finish reason "stop" and an empty delta. The content chunks have finish reason None and carry the lines, each followed by a newline. |
| `Handlers.StreamDeltas` | graphrag/app/handlers.py:31-38 | The content deltas of the stream, concatenated, are the formatted answer followed by one newline. |
| `Handlers.StreamMatchesJson` | graphrag/app/handlers.py:28-58 | Streamed or not, the same answer is delivered: the stream's deltas are the JSON reply's content plus one newline. |
| `Handlers.CountTokensOfJoin` | graphrag/app/handlers.py:58 | Non-empty whitespace-free words joined by spaces count as that many tokens. |
| `Handlers.CountTokensRuns` | graphrag/app/handlers.py:58 | The token count of a text is its number of maximal non-whitespace runs. |
| `Handlers.CountTokensCover` | graphrag/app/handlers.py:58 | The tokens are the non-whitespace characters of the text, in order, so there are no more tokens than such characters. |
| `Handlers.WireIsJoin` | graphrag/app/handlers.py:40-51 | The wire text is the `data:` lines, each followed by a blank line. |
| `Handlers.WireSplit` | graphrag/app/handlers.py:40-51 | If the encoder writes no raw newline, cutting the wire at blank lines gives back exactly one `data:` line per event, in order. |
| `Handlers.Wire` | graphrag/app/handlers.py:40-51 | The text the generator yields. It has no contract of its own; `Handlers.WireIsJoin` and `Handlers.WireSplit` state its properties. |
| `Handlers.ListModels` | graphrag/app/handlers.py:67-77 | `list_models()`. It has no contract of its own; `Handlers.ListModelsEntries` states its result. |
| `Handlers.ListModelsEntries` | graphrag/app/handlers.py:69-75 | The list has exactly two entries, global first and then local. Both have object "model", owner "ko" and the same timestamp, and each listed name routes to the engine it names. |

## Left out

- Engine setup, application start-up and the prompt template are not part of
  this model: graphrag/app/setup.py, main.py, run.py and prompt.py. They are
  foreign calls and framework wiring with no logic of their own.
- graphrag/app/settings.py: only the two model names are modelled. The paths,
  the API key and the port are environment lookups.
- The engines' `asearch` is opaque. It is a parameter, a function from the
  prompt to a result or an exception.
- `uuid.uuid4()`, `time.time()` and `json.dumps` are parameters (`uuidHex`,
  `clock`, `now`, `encode`). Chunks and bodies are datatypes, not JSON text.
- The pydantic classes of `app.models` are not part of this model. The reply
  carries only the fields the handler sets.
- `JSONResponse`, `StreamingResponse` and the media type are not modelled. The
  reply says which of the two it is.
- Logging is left out: it does not affect the result.
- `asyncio.sleep(0.05)` between chunks, concurrency between requests and
  cancellation are left out. They are timing, outside a sequential model.
- The generator is lazy, so an exception while the stream is consumed would
  not reach the `try` block. Chunks here are data, so no such exception is
  modelled.
- Python's truthiness test on the engines is modelled as `Option`: `None` is
  the only missing value.
- `strip()` and `split()` use an ASCII whitespace set: space, tab to carriage
  return, and 0x1C to 0x1F. Python also counts Unicode whitespace.
- `ReformatParagraph` is the body of the paragraph loop as its own method. The
  plain `para` rebinding is local variables in it.
- `Utils.FormatIdempotent`: it carries one more condition than the promise
  that formatting is idempotent on text with no fences and no `". "`: no
  whitespace-only paragraph between two others. The code does not keep that
  promise without the condition (see `Utils.BlankParagraphNotIdempotent`).
