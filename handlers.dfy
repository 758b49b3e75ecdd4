/** The request handlers of graphrag/app/handlers.py.  `chat_completions`
    takes the last message of an OpenAI-style chat request, asks one of the two
    search engines about it, formats the answer with `format_response` and
    returns it either as one JSON body or as a stream of Server-Sent Events;
    `list_models` lists the two model names the service answers to.

    The engines, the chunk id from `uuid.uuid4().hex` and the clock read by
    `int(time.time())` are parameters; JSON bodies and stream chunks are
    datatypes.  An outcome records the reply and which engine was asked. */
module Handlers {
  import opened Wrappers
  import opened PyStr
  import opened Utils
  import opened Settings

  // ---------------------------------------------------------------------------
  // Requests, engines and replies

  datatype Message = Message(role: string, content: string)

  datatype ChatCompletionRequest = ChatCompletionRequest(model: string, messages: seq<Message>, stream: bool)

  /** What awaiting `engine.asearch(prompt)` gives: a result whose `response`
      is the answer text, or an exception, given by its `str(e)`. */
  datatype SearchResult = Found(response: string) | Raised(error: string)

  /** A search engine as the handler sees it: a prompt goes in, a result comes out. */
  type SearchEngine = string -> SearchResult

  datatype Engine = LocalSearch | GlobalSearch

  datatype Usage = Usage(promptTokens: nat, completionTokens: nat, totalTokens: nat)

  datatype ResponseChoice = ResponseChoice(index: nat, message: Message, finishReason: string)

  datatype ChatCompletionResponse = ChatCompletionResponse(model: string, choices: seq<ResponseChoice>, usage: Usage)

  /** `{"content": ...}`, or `{}` when there is no content. */
  datatype Delta = Delta(content: Option<string>)

  datatype ChunkChoice = ChunkChoice(index: nat, delta: Delta, finishReason: Option<string>)

  /** One item of the stream: a `chat.completion.chunk` object or the
      `[DONE]` sentinel. */
  datatype StreamEvent =
    | Chunk(id: string, objectName: string, created: int, model: string, choices: seq<ChunkChoice>)
    | Done

  datatype Reply =
    | JsonReply(body: ChatCompletionResponse)
    | EventStream(events: seq<StreamEvent>)
    | HttpError(status: nat, detail: string)

  /** The reply, and the engine that was asked, if any. */
  datatype Outcome = Outcome(reply: Reply, queried: Option<Engine>)

  datatype ModelCard = ModelCard(id: string, objectName: string, created: int, ownedBy: string)

  datatype ModelList = ModelList(objectName: string, data: seq<ModelCard>)

  const InternalServerError: nat := 500
  const NotInitialized: string := "Search engines not initialized"
  /** `str(e)` for the `IndexError` that `messages[-1]` raises on an empty list. */
  const IndexOutOfRange: string := "list index out of range"
  const Assistant: string := "assistant"
  const Stop: string := "stop"
  const ChunkObject: string := "chat.completion.chunk"
  const ChunkIdPrefix: string := "chatcmpl-"
  const LineEnd: string := "\n"

  // ---------------------------------------------------------------------------
  // chat_completions

  function Route(model: string): Engine {
    if model == ModelNameGlobalSearch then GlobalSearch else LocalSearch
  }

  function Last(messages: seq<Message>): Message
    requires |messages| > 0
  {
    messages[|messages| - 1]
  }

  /** `len(s.split())` */
  function CountTokens(s: string): nat {
    |Words(s)|
  }

  /** The body of the non-streaming reply. */
  function CompletionResponse(model: string, prompt: string, formatted: string): ChatCompletionResponse {
    var p, c := CountTokens(prompt), CountTokens(formatted);
    ChatCompletionResponse(model, [ResponseChoice(0, Message(Assistant, formatted), Stop)], Usage(p, c, p + c))
  }

  function ContentChunk(id: string, model: string, created: int, line: string): StreamEvent {
    Chunk(id, ChunkObject, created, model, [ChunkChoice(0, Delta(Some(line + LineEnd)), None)])
  }

  function StopChunk(id: string, model: string, created: int): StreamEvent {
    Chunk(id, ChunkObject, created, model, [ChunkChoice(0, Delta(None), Some(Stop))])
  }

  /** What `generate_stream` yields, before framing: a content chunk per line
      of the formatted answer, the stop chunk, and the sentinel.  `clock(i)`
      is what `int(time.time())` reads while chunk `i` is built. */
  function StreamEvents(model: string, formatted: string, uuidHex: string, clock: nat -> int): (r: seq<StreamEvent>)
    ensures |r| == |Split(formatted, LineEnd)| + 2 && r[|r| - 1] == Done
    ensures forall i :: 0 <= i < |r| - 1 ==> r[i].Chunk? && r[i].id == ChunkIdPrefix + uuidHex && r[i].model == model
  {
    var id := ChunkIdPrefix + uuidHex;
    var lines := Split(formatted, LineEnd);
    var content := seq(|lines|, i requires 0 <= i < |lines| => ContentChunk(id, model, clock(i), lines[i]));
    var r := content + [StopChunk(id, model, clock(|lines|)), Done];
    assert forall i :: 0 <= i < |content| ==> r[i] == content[i] && content[i] == ContentChunk(id, model, clock(i), lines[i]);
    assert r[|content|] == StopChunk(id, model, clock(|lines|));
    r
  }

  /** `generate_stream` as the source runs it: a loop over the lines that
      emits one chunk each, then the stop chunk and the sentinel. */
  method GenerateStream(model: string, formatted: string, uuidHex: string, clock: nat -> int)
    returns (events: seq<StreamEvent>)
    ensures events == StreamEvents(model, formatted, uuidHex, clock)
  {
    var chunkId := ChunkIdPrefix + uuidHex;
    var lines := Split(formatted, LineEnd);
    events := [];
    for i := 0 to |lines|
      invariant events == StreamEvents(model, formatted, uuidHex, clock)[..i]
    {
      events := events + [ContentChunk(chunkId, model, clock(i), lines[i])];
    }
    events := events + [StopChunk(chunkId, model, clock(|lines|)), Done];
  }

  /** What the handler makes of the engine's result: the exception as a 500,
      or the formatted answer, streamed or whole. */
  function Answer(request: ChatCompletionRequest, prompt: string, result: SearchResult,
                  uuidHex: string, clock: nat -> int): Reply
  {
    match result
    case Raised(error) => HttpError(InternalServerError, error)
    case Found(response) =>
      var formatted := Format(response);
      if request.stream then EventStream(StreamEvents(request.model, formatted, uuidHex, clock))
      else JsonReply(CompletionResponse(request.model, prompt, formatted))
  }

  /** What the engine named by the model answers to the last message. */
  function Query(request: ChatCompletionRequest, local: SearchEngine, global: SearchEngine): SearchResult
    requires |request.messages| > 0
  {
    var prompt := Last(request.messages).content;
    if Route(request.model) == GlobalSearch then global(prompt) else local(prompt)
  }

  /** `chat_completions(request, local_search_engine, global_search_engine)`.
      A missing engine is `None`; every exception the source raises or
      catches becomes an HTTP 500 carrying its message. */
  function ChatCompletions(request: ChatCompletionRequest, local: Option<SearchEngine>,
                           global: Option<SearchEngine>, uuidHex: string, clock: nat -> int): (r: Outcome)
    ensures r.queried.None? <==> local.None? || global.None? || |request.messages| == 0
    ensures r.queried.None? ==> r.reply.HttpError? && r.reply.status == 500
    ensures r.queried.Some? ==> r.queried.value == Route(request.model)
  {
    if local.None? || global.None? then Outcome(HttpError(InternalServerError, NotInitialized), None)
    else if |request.messages| == 0 then Outcome(HttpError(InternalServerError, IndexOutOfRange), None)
    else
      var prompt := Last(request.messages).content;
      Outcome(Answer(request, prompt, Query(request, local.value, global.value), uuidHex, clock), Some(Route(request.model)))
  }

  /** Without both engines the handler fails before asking either. */
  lemma EnginesMissing(request: ChatCompletionRequest, local: Option<SearchEngine>,
                       global: Option<SearchEngine>, uuidHex: string, clock: nat -> int)
    requires local.None? || global.None?
    ensures ChatCompletions(request, local, global, uuidHex, clock) ==
            Outcome(HttpError(500, "Search engines not initialized"), None)
  {
  }

  /** With both engines and a message, exactly one engine is asked: the
      global one exactly when the model name is the global model's. */
  lemma RoutingExactlyOne(request: ChatCompletionRequest, local: SearchEngine,
                          global: SearchEngine, uuidHex: string, clock: nat -> int)
    requires |request.messages| > 0
    ensures var o := ChatCompletions(request, Some(local), Some(global), uuidHex, clock);
            && o.queried.Some?
            && (o.queried == Some(GlobalSearch) <==> request.model == ModelNameGlobalSearch)
            && (o.queried == Some(LocalSearch) <==> request.model != ModelNameGlobalSearch)
  {
  }

  /** A request for the global model does not depend on the local engine. */
  lemma GlobalIgnoresLocal(request: ChatCompletionRequest, local1: SearchEngine, local2: SearchEngine,
                           global: SearchEngine, uuidHex: string, clock: nat -> int)
    requires request.model == ModelNameGlobalSearch
    ensures ChatCompletions(request, Some(local1), Some(global), uuidHex, clock) ==
            ChatCompletions(request, Some(local2), Some(global), uuidHex, clock)
  {
  }

  /** Any other request does not depend on the global engine. */
  lemma LocalIgnoresGlobal(request: ChatCompletionRequest, local: SearchEngine,
                           global1: SearchEngine, global2: SearchEngine, uuidHex: string, clock: nat -> int)
    requires request.model != ModelNameGlobalSearch
    ensures ChatCompletions(request, Some(local), Some(global1), uuidHex, clock) ==
            ChatCompletions(request, Some(local), Some(global2), uuidHex, clock)
  {
  }

  /** Only the last message is read: the earlier ones change nothing. */
  lemma OnlyLastMessage(request: ChatCompletionRequest, earlier: seq<Message>, m: Message,
                        local: Option<SearchEngine>, global: Option<SearchEngine>, uuidHex: string, clock: nat -> int)
    ensures ChatCompletions(request.(messages := earlier + [m]), local, global, uuidHex, clock) ==
            ChatCompletions(request.(messages := [m]), local, global, uuidHex, clock)
  {
    assert Last(earlier + [m]) == m;
  }

  /** An empty conversation fails with the message of the `IndexError`, and
      no engine is asked. */
  lemma EmptyMessages(request: ChatCompletionRequest, local: SearchEngine,
                      global: SearchEngine, uuidHex: string, clock: nat -> int)
    requires request.messages == []
    ensures ChatCompletions(request, Some(local), Some(global), uuidHex, clock) ==
            Outcome(HttpError(500, "list index out of range"), None)
  {
  }

  /** With both engines and a message, the reply is the answer to the routed
      engine's result for the last message. */
  lemma Asked(request: ChatCompletionRequest, local: SearchEngine,
              global: SearchEngine, uuidHex: string, clock: nat -> int)
    requires |request.messages| > 0
    ensures var prompt := Last(request.messages).content;
            ChatCompletions(request, Some(local), Some(global), uuidHex, clock).reply ==
            Answer(request, prompt, Query(request, local, global), uuidHex, clock)
  {
  }

  /** An exception from the engine that was asked becomes a 500 carrying its message. */
  lemma EngineError(request: ChatCompletionRequest, local: SearchEngine,
                    global: SearchEngine, uuidHex: string, clock: nat -> int, error: string)
    requires |request.messages| > 0
    requires Query(request, local, global) == Raised(error)
    ensures ChatCompletions(request, Some(local), Some(global), uuidHex, clock).reply == HttpError(500, error)
  {
    Asked(request, local, global, uuidHex, clock);
  }

  /** The non-streaming reply: the model echoed, one assistant choice with
      the formatted answer and finish reason "stop", and the usage counted in
      whitespace-separated words. */
  lemma NonStreamingReply(request: ChatCompletionRequest, local: SearchEngine,
                          global: SearchEngine, uuidHex: string, clock: nat -> int, response: string)
    requires |request.messages| > 0 && !request.stream
    requires Query(request, local, global) == Found(response)
    ensures var o := ChatCompletions(request, Some(local), Some(global), uuidHex, clock);
            var prompt := Last(request.messages).content;
            && o.reply.JsonReply?
            && o.reply.body.model == request.model
            && |o.reply.body.choices| == 1
            && o.reply.body.choices[0] == ResponseChoice(0, Message("assistant", Format(response)), "stop")
            && o.reply.body.usage.promptTokens == |Words(prompt)|
            && o.reply.body.usage.completionTokens == |Words(Format(response))|
            && o.reply.body.usage.totalTokens == o.reply.body.usage.promptTokens + o.reply.body.usage.completionTokens
  {
    Asked(request, local, global, uuidHex, clock);
  }

  /** The streaming reply is the event sequence of the formatted answer. */
  lemma StreamingReply(request: ChatCompletionRequest, local: SearchEngine,
                       global: SearchEngine, uuidHex: string, clock: nat -> int, response: string)
    requires |request.messages| > 0 && request.stream
    requires Query(request, local, global) == Found(response)
    ensures ChatCompletions(request, Some(local), Some(global), uuidHex, clock).reply ==
            EventStream(StreamEvents(request.model, Format(response), uuidHex, clock))
  {
    Asked(request, local, global, uuidHex, clock);
  }

  // ---------------------------------------------------------------------------
  // Usage

  /** Words joined by single spaces count as that many tokens. */
  lemma CountTokensOfJoin(ws: seq<string>)
    requires forall i :: 0 <= i < |ws| ==> ws[i] != [] && NoSpace(ws[i])
    ensures CountTokens(Join(" ", ws)) == |ws|
  {
    WordsOfJoin(ws);
  }

  /** The token count is the number of maximal runs of non-whitespace: for
      any way of writing the text as such runs with whitespace between and
      around them, it is the number of runs. */
  lemma CountTokensRuns(s: string, gaps: seq<string>, ws: seq<string>)
    requires Separated(gaps, ws) && Interleave(gaps, ws) == s
    ensures CountTokens(s) == |ws|
  {
    WordsOfInterleave(gaps, ws);
  }

  /** The tokens, run together, are the non-whitespace characters of the text. */
  lemma CountTokensCover(s: string)
    ensures Join("", Words(s)) == NonSpace(s)
    ensures CountTokens(s) <= |NonSpace(s)|
  {
    WordsCoverNonSpace(s);
    JoinLength(Words(s));
  }

  /** The words are non-empty, so there are no more of them than letters in them. */
  lemma {:induction false} JoinLength(ws: seq<string>)
    requires forall i :: 0 <= i < |ws| ==> ws[i] != []
    ensures |ws| <= |Join("", ws)|
    decreases |ws|
  {
    if |ws| > 1 {
      JoinLength(ws[1..]);
    }
  }

  // ---------------------------------------------------------------------------
  // The stream

  /** The text of the content deltas of one event. */
  function EventText(e: StreamEvent): string {
    if e.Done? then "" else ChoicesText(e.choices)
  }

  function ChoicesText(cs: seq<ChunkChoice>): string
    decreases |cs|
  {
    if |cs| == 0 then ""
    else (if cs[0].delta.content.Some? then cs[0].delta.content.value else "") + ChoicesText(cs[1..])
  }

  /** All content deltas of a stream, concatenated in order. */
  function DeltaText(events: seq<StreamEvent>): string
    decreases |events|
  {
    if |events| == 0 then "" else EventText(events[0]) + DeltaText(events[1..])
  }

  lemma {:induction false} DeltaTextConcat(a: seq<StreamEvent>, b: seq<StreamEvent>)
    ensures DeltaText(a + b) == DeltaText(a) + DeltaText(b)
    decreases |a|
  {
    if |a| > 0 {
      assert (a + b)[1..] == a[1..] + b;
      DeltaTextConcat(a[1..], b);
    } else {
      assert a + b == b;
    }
  }

  /** Events whose texts are the lines, each with a newline, spell out the
      lines joined by newlines, plus a final newline. */
  lemma {:induction false} DeltaTextLines(events: seq<StreamEvent>, lines: seq<string>)
    requires |events| == |lines| > 0
    requires forall i :: 0 <= i < |events| ==> EventText(events[i]) == lines[i] + "\n"
    ensures DeltaText(events) == Join("\n", lines) + "\n"
    decreases |events|
  {
    assert EventText(events[0]) == lines[0] + "\n";
    if |events| > 1 {
      DeltaTextLines(events[1..], lines[1..]);
      assert forall i :: 0 <= i < |events| - 1 ==> events[1..][i] == events[i + 1];
    }
  }

  /** Event `i` of the stream: a content chunk for each line, then the stop
      chunk, then the sentinel. */
  lemma StreamEventAt(model: string, formatted: string, uuidHex: string, clock: nat -> int, i: int)
    requires 0 <= i < |Split(formatted, "\n")| + 2
    ensures var events := StreamEvents(model, formatted, uuidHex, clock);
            var lines := Split(formatted, "\n");
            var id := "chatcmpl-" + uuidHex;
            && |events| == |lines| + 2
            && events[i] == if i < |lines| then ContentChunk(id, model, clock(i), lines[i])
                            else if i == |lines| then StopChunk(id, model, clock(i))
                            else Done
  {
  }

  /** One content chunk per line of the formatted text, which is one more
      than it has newlines, plus the stop chunk and the sentinel. */
  lemma StreamLength(model: string, formatted: string, uuidHex: string, clock: nat -> int)
    ensures |Split(formatted, "\n")| == multiset(formatted)['\n'] + 1
    ensures |StreamEvents(model, formatted, uuidHex, clock)| == multiset(formatted)['\n'] + 3
  {
    SplitCount(formatted, "\n");
    CountChar(formatted, '\n');
    StreamEventAt(model, formatted, uuidHex, clock, 0);
  }

  /** The stream's shape: the content chunks carry the lines in order, then
      comes exactly one stop chunk and exactly one sentinel, last; every chunk
      carries the same id and the requested model. */
  lemma StreamShape(model: string, formatted: string, uuidHex: string, clock: nat -> int)
    ensures var events := StreamEvents(model, formatted, uuidHex, clock);
            forall i :: 0 <= i < |events| ==> (events[i] == Done <==> i == |events| - 1)
    ensures var events := StreamEvents(model, formatted, uuidHex, clock);
            forall i :: 0 <= i < |events| - 1 ==>
              && events[i].Chunk?
              && events[i].id == "chatcmpl-" + uuidHex
              && events[i].objectName == "chat.completion.chunk"
              && events[i].model == model
              && events[i].created == clock(i)
              && |events[i].choices| == 1
              && events[i].choices[0].index == 0
              && (events[i].choices[0].finishReason == Some("stop") <==> i == |events| - 2)
              && (events[i].choices[0].finishReason == None <==> i < |events| - 2)
    ensures var events := StreamEvents(model, formatted, uuidHex, clock);
            var lines := Split(formatted, "\n");
            forall i :: 0 <= i < |lines| ==> events[i].choices[0].delta == Delta(Some(lines[i] + "\n"))
    ensures var events := StreamEvents(model, formatted, uuidHex, clock);
            events[|events| - 2].choices[0].delta == Delta(None)
  {
    var events := StreamEvents(model, formatted, uuidHex, clock);
    var lines := Split(formatted, "\n");
    StreamEventAt(model, formatted, uuidHex, clock, |lines|);
    forall i | 0 <= i < |events| ensures (events[i] == Done <==> i == |events| - 1) {
      StreamEventAt(model, formatted, uuidHex, clock, i);
    }
    forall i | 0 <= i < |events| - 1
      ensures && events[i].Chunk?
              && events[i].id == "chatcmpl-" + uuidHex
              && events[i].objectName == "chat.completion.chunk"
              && events[i].model == model
              && events[i].created == clock(i)
              && |events[i].choices| == 1
              && events[i].choices[0].index == 0
              && (events[i].choices[0].finishReason == Some("stop") <==> i == |events| - 2)
              && (events[i].choices[0].finishReason == None <==> i < |events| - 2)
    {
      StreamEventAt(model, formatted, uuidHex, clock, i);
    }
    forall i | 0 <= i < |lines| ensures events[i].choices[0].delta == Delta(Some(lines[i] + "\n")) {
      StreamEventAt(model, formatted, uuidHex, clock, i);
    }
  }

  /** The content deltas of the stream spell out the formatted text followed
      by one newline. */
  lemma StreamDeltas(model: string, formatted: string, uuidHex: string, clock: nat -> int)
    ensures DeltaText(StreamEvents(model, formatted, uuidHex, clock)) == formatted + "\n"
  {
    var id := ChunkIdPrefix + uuidHex;
    var lines := Split(formatted, LineEnd);
    var events := StreamEvents(model, formatted, uuidHex, clock);
    var content := events[..|lines|];
    var tail := [StopChunk(id, model, clock(|lines|)), Done];
    assert events == content + tail;
    forall i | 0 <= i < |content| ensures EventText(content[i]) == lines[i] + "\n" {
      assert content[i] == ContentChunk(id, model, clock(i), lines[i]);
      assert ChoicesText(content[i].choices) == lines[i] + "\n" + ChoicesText([]);
    }
    DeltaTextLines(content, lines);
    JoinSplit(formatted, LineEnd);
    assert DeltaText(tail) == EventText(tail[0]) + DeltaText(tail[1..]);
    assert ChoicesText(tail[0].choices) == "" + ChoicesText([]);
    DeltaTextConcat(content, tail);
  }

  /** Streamed or not, the handler delivers the same answer: the stream's
      deltas are the JSON reply's content plus one newline. */
  lemma StreamMatchesJson(request: ChatCompletionRequest, local: SearchEngine,
                          global: SearchEngine, uuidHex: string, clock: nat -> int, response: string)
    requires |request.messages| > 0
    requires Query(request, local, global) == Found(response)
    ensures var streamed := ChatCompletions(request.(stream := true), Some(local), Some(global), uuidHex, clock);
            var json := ChatCompletions(request.(stream := false), Some(local), Some(global), uuidHex, clock);
            && streamed.reply.EventStream? && json.reply.JsonReply?
            && DeltaText(streamed.reply.events) == json.reply.body.choices[0].message.content + "\n"
  {
    Asked(request.(stream := true), local, global, uuidHex, clock);
    Asked(request.(stream := false), local, global, uuidHex, clock);
    StreamDeltas(request.model, Format(response), uuidHex, clock);
  }

  // ---------------------------------------------------------------------------
  // Server-Sent Events framing

  const DataField: string := "data: "
  const DoneSentinel: string := "[DONE]"
  const EventEnd: string := "\n\n"

  /** What follows `data: `: the JSON text of a chunk (`json.dumps`, given as
      `encode`), or the sentinel. */
  function Payload(e: StreamEvent, encode: StreamEvent -> string): string {
    if e.Done? then DoneSentinel else encode(e)
  }

  function DataLine(e: StreamEvent, encode: StreamEvent -> string): string {
    DataField + Payload(e, encode)
  }

  /** The bytes of a stream: each event as a `data:` field followed by the
      blank line that dispatches it (section 9.2 of the WHATWG HTML Living
      Standard). */
  function Wire(events: seq<StreamEvent>, encode: StreamEvent -> string): string
    decreases |events|
  {
    if |events| == 0 then "" else DataLine(events[0], encode) + EventEnd + Wire(events[1..], encode)
  }

  function DataLines(events: seq<StreamEvent>, encode: StreamEvent -> string): (r: seq<string>)
    ensures |r| == |events|
  {
    seq(|events|, i requires 0 <= i < |events| => DataLine(events[i], encode))
  }

  lemma {:induction false} WireIsJoin(events: seq<StreamEvent>, encode: StreamEvent -> string)
    ensures Wire(events, encode) == Join(EventEnd, DataLines(events, encode) + [""])
    decreases |events|
  {
    if |events| > 0 {
      WireIsJoin(events[1..], encode);
      var ls := DataLines(events, encode);
      assert (ls + [""])[1..] == DataLines(events[1..], encode) + [""];
    }
  }

  /** A data line of an encoder that writes no newline holds no newline. */
  lemma DataLineNoNewline(e: StreamEvent, encode: StreamEvent -> string)
    requires '\n' !in Payload(e, encode)
    ensures forall k :: 0 <= k < |DataLine(e, encode)| ==> DataLine(e, encode)[k] !in EventEnd
  {
    var d, p := DataLine(e, encode), Payload(e, encode);
    forall k | 0 <= k < |d| ensures d[k] !in EventEnd {
      if k >= |DataField| {
        assert d[k] == p[k - |DataField|];
      }
    }
  }

  /** A client that cuts the wire at blank lines gets back exactly one
      `data:` line per event, in order, as long as the JSON encoder writes no
      raw newline (`json.dumps` escapes them). */
  lemma WireSplit(events: seq<StreamEvent>, encode: StreamEvent -> string)
    requires forall e :: '\n' !in encode(e)
    ensures Split(Wire(events, encode), "\n\n") == DataLines(events, encode) + [""]
  {
    var parts := DataLines(events, encode) + [""];
    WireIsJoin(events, encode);
    forall i | 0 <= i < |parts|
      ensures !Contains(parts[i], EventEnd)
      ensures i < |parts| - 1 ==> parts[i] != [] && parts[i][|parts[i]| - 1] !in EventEnd
    {
      if i < |events| {
        assert '\n' !in Payload(events[i], encode);
        DataLineNoNewline(events[i], encode);
        assert parts[i] == DataLine(events[i], encode);
        DisjointNotContains(parts[i], EventEnd);
      } else {
        assert !OccursAt(parts[i], EventEnd, 0);
      }
    }
    SplitJoin(parts, EventEnd);
  }

  // ---------------------------------------------------------------------------
  // list_models

  /** `list_models()`, with `now` the value of `int(time.time())`. */
  function ListModels(now: int): ModelList {
    ModelList("list", [ModelCard(ModelNameGlobalSearch, "model", now, "ko"),
                       ModelCard(ModelNameLocalSearch, "model", now, "ko")])
  }

  /** Two entries, global first, sharing one timestamp; and each listed name
      routes a request to the engine it is named after. */
  lemma ListModelsEntries(now: int)
    ensures var l := ListModels(now);
            && l.objectName == "list"
            && |l.data| == 2
            && l.data[0].id == "GraphRAG_DSAJ_Global_Search:20240729"
            && l.data[1].id == "GraphRAG_DSAJ_Local_Search:20240729"
            && (forall i :: 0 <= i < 2 ==> l.data[i].objectName == "model" && l.data[i].ownedBy == "ko" && l.data[i].created == now)
            && Route(l.data[0].id) == GlobalSearch
            && Route(l.data[1].id) == LocalSearch
  {
  }
}
