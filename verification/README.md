# Chat stream protocol

A Dafny model of the streaming chat protocol between a Flask backend and a React frontend.

On the backend, `backend/app.py` does three things:
- Its `generate` generator turns the model's stream of deltas into server-sent-event frames: `data: {"content": …}` for each delta that has content, then `data: [DONE]`.
- Just before that last frame, `save_conversation` appends one record of the exchange to a JSON-lines log.
- `get_history` returns a client's records from that log.

On the frontend, `frontend/src/ChatComponent.tsx` does the following:
- Its `handleSubmit` appends the user's message to the transcript.
- It reads the response body chunk by chunk, splits each chunk into lines, and grows a reply accumulator from the `data:` lines.
- It replaces the transcript's last entry with the growing reply.
- On the sentinel, it appends the reply and reloads the history.
- `handleHistoryClick` shows a stored conversation.

The model has these modules:

- `Text`: JavaScript's `split` on one character and `"".join`.
- `JsonContent`: the one JSON shape on the wire, `{"content": <string>}`. It has an encoder that escapes the way Python's `json.dumps` does by default, with `ensure_ascii`. It also has a recogniser that reads the way `JSON.parse(…).content` does. The round trip between them is proved.
- `ChatTypes`: messages, conversations and the request body.
- `ChatClient`: the frontend as written.
  - Specification functions say what one line (`Step`), one chunk (`StepLines`) and a whole body (`ReadChunks`) do to the transcript, the accumulator and the count of history reloads.
  - The `ChatComponent` class holds the component's state. Its methods are proved to follow those functions.
- `ChatServer`: the backend.
  - `Generate` is proved to yield exactly the frames of `GenerateEffects`.
  - `GetHistory` is proved to compute the filter `HistoryFor`.
  - Lemmas describe what goes on the wire.
- `Wire`: both sides together, as written.
- `CorrectedClient`: the assembler the frontend evidently means to be (see Findings), with its end-to-end property proved.

Clocks, identifiers, the model's stream, the response body and the log file are inputs:
- timestamps and ids are opaque strings passed in;
- the model's stream is a sequence of optional deltas;
- the body is a sequence of decoded chunks;
- the log is a sequence of records.

Appending to the log and yielding a frame are recorded as effects, in order.

The two sides do not agree on the wire, and the model follows the code on each side:
- the backend writes its lines as `data: <payload>`, with a space (backend/app.py:32, 37), while the client strips only `data:` (frontend/src/ChatComponent.tsx:82). A server-sent-event client drops that one space (WHATWG HTML Living Standard, section 9.2, "Server-sent events");
- the backend saves exactly one reply per exchange, behind the user's message (backend/app.py:45-56), while the client drops the user's message and, once it sees the sentinel, shows the reply twice.

The differences are logged under Findings.

## Model

| member | source | states |
|---|---|---|
| Text.Split | frontend/src/ChatComponent.tsx:78 | `chunk.split('\n')` yields at least one piece and no piece contains a line feed |
| Text.JoinSplit | frontend/src/ChatComponent.tsx:78 | splitting loses nothing: joining the pieces with line feeds gives the chunk back |
| Text.SplitAfterPiece | frontend/src/ChatComponent.tsx:78 | a line-feed-free piece followed by a line feed splits off as exactly that piece, ahead of the split of the rest |
| Text.ConcatAppend | backend/app.py:31 | accumulating by `+=` over two runs of pieces is the accumulation of the first followed by that of the second |
| JsonContent.EscapeChar | backend/app.py:32 | what `json.dumps` writes for one character is printable ASCII and never starts with a quote. It is the character itself exactly when that character is printable ASCII other than `"` and `\` |
| JsonContent.EscapeString | backend/app.py:32 | the body of an encoded string literal is printable ASCII and no shorter than the text |
| JsonContent.EncodeContent | backend/app.py:32 | the JSON of `{'content': c}` starts with `{` and is printable ASCII, so it holds no line feed |
| JsonContent.Hex4RoundTrip | backend/app.py:32 | the four lower-case hex digits of a `\uXXXX` escape read back as the code unit they encode |
| JsonContent.ParseEscapedChar | frontend/src/ChatComponent.tsx:93 | the escape of any character (short, `\uXXXX`, or surrogate pair) reads back as that one character, and reading continues after it |
| JsonContent.ParsePairEscape | frontend/src/ChatComponent.tsx:93 | the surrogate-pair escape of a character beyond the Basic Multilingual Plane reads back as that character |
| JsonContent.ParseEscapedString | frontend/src/ChatComponent.tsx:93 | an escaped string body, its closing quote and any suffix read back as the original text and that suffix |
| JsonContent.SkipLeadingSpace | frontend/src/ChatComponent.tsx:93 | JSON whitespace in front of a text is skipped whatever it is |
| JsonContent.ParseEncodedContent | frontend/src/ChatComponent.tsx:93-94 | behind any JSON whitespace, `JSON.parse(…).content` of what `json.dumps({'content': c})` wrote is `c` |
| JsonContent.SpacedSentinelIsNotContent | frontend/src/ChatComponent.tsx:93 | the payload ` [DONE]` is not a `{"content": …}` object (and `JSON.parse` throws on it), so the fragment branch drops it |
| JsonContent.ParseContentSkipsSpace | frontend/src/ChatComponent.tsx:93 | as `JSON.parse` does, reading the payload ignores JSON white space in front of it |
| ChatClient.ChatComponent.constructor | frontend/src/ChatComponent.tsx:17-20 | the component starts with empty input, transcript and history, under the given client id |
| ChatClient.ChatComponent.ChangeInput | frontend/src/ChatComponent.tsx:138 | the input box holds the typed text and nothing else changes |
| ChatClient.ChatComponent.Submit | frontend/src/ChatComponent.tsx:45-56 | input that is blank once trimmed changes nothing and sends nothing. Otherwise exactly one user message with the raw input is appended, the input is cleared, and the request carries that single message and the client id |
| ChatClient.ChatComponent.HandleLine | frontend/src/ChatComponent.tsx:80-104 | the inner loop's body leaves the transcript, accumulator and reload count as `Step` says, and touches nothing else |
| ChatClient.ChatComponent.HandleChunk | frontend/src/ChatComponent.tsx:77-106 | a chunk's lines, handled in order, leave the state `StepLines` gives on the chunk's split |
| ChatClient.ChatComponent.ReadReply | frontend/src/ChatComponent.tsx:69-107 | the read loop starts the accumulator empty and leaves the state `ReadChunks` gives on the whole body |
| ChatClient.ChatComponent.HandleSubmit | frontend/src/ChatComponent.tsx:45-109 | a blank submit changes nothing. Otherwise the user message is appended and the body, if any, is read from there, and the request is the one sent |
| ChatClient.ChatComponent.ClickHistory | frontend/src/ChatComponent.tsx:111-113 | the transcript becomes exactly the chosen conversation's messages, whatever it was before |
| ChatClient.ChatComponent.ReceiveHistory | frontend/src/ChatComponent.tsx:39-43 | the history list becomes the fetched records |
| ChatClient.BlankIffTrimEmpty | frontend/src/ChatComponent.tsx:47 | `input.trim()` is empty exactly when every character of the input is JavaScript white space, so the guard refuses exactly the blank inputs |
| ChatClient.ClassifyCases | frontend/src/ChatComponent.tsx:81-103 | a line is skipped exactly when it lacks `data:`, is the sentinel exactly when it is `data:[DONE]`, and is a fragment exactly when the rest after `data:` is not `[DONE]` and parses, carrying the parsed content |
| ChatClient.DropLastIsSlice | frontend/src/ChatComponent.tsx:100 | dropping the last entry is `Array.prototype.slice(0, -1)` with its negative-index rule, and on a non-empty transcript removes exactly the last entry |
| ChatClient.NonDataLineIgnored | frontend/src/ChatComponent.tsx:80-81 | a line not starting with `data:` changes neither transcript, accumulator nor reload count |
| ChatClient.SentinelAppendsReply | frontend/src/ChatComponent.tsx:83-90 | the payload `[DONE]` lengthens the transcript by one, keeps every earlier entry, and adds a system message carrying the accumulator. The accumulator is unchanged and one history reload starts |
| ChatClient.FragmentReplacesLast | frontend/src/ChatComponent.tsx:92-100 | a parsed fragment grows the accumulator by its content and keeps the transcript's length (one entry if it was empty). It replaces only the last entry, with a system message carrying the new accumulator |
| ChatClient.MalformedPayloadDropped | frontend/src/ChatComponent.tsx:101-103 | a payload that is neither the sentinel nor parseable changes nothing |
| ChatClient.LineThenBlanks | frontend/src/ChatComponent.tsx:78-81 | a line followed by the two empty lines a frame splits into acts as the line alone |
| ChatClient.FragmentGrowsReply | frontend/src/ChatComponent.tsx:92-94 | a well-formed fragment line appends its content to the accumulator |
| ChatClient.FragmentLinesAccumulate | frontend/src/ChatComponent.tsx:74-100 | after any run of well-formed fragment lines the accumulator is the old one followed by their contents, in order |
| ChatClient.FragmentsOfFragmentLines | frontend/src/ChatComponent.tsx:92-94 | when every line is a well-formed fragment, the contents the lines contribute are exactly the given ones, in order |
| ChatClient.StepExtendsReply | frontend/src/ChatComponent.tsx:83-103 | any line adds to the accumulator exactly what it contributes: its content if it is a fragment, nothing otherwise |
| ChatClient.ReplyIsConcatOfFragments | frontend/src/ChatComponent.tsx:74-106 | whatever the lines, the accumulator ends as it began followed by the contents of the well-formed fragment lines, in order |
| ChatClient.StepKeepsEarlierMessages | frontend/src/ChatComponent.tsx:83-100 | no line disturbs the transcript entries before the last one |
| ChatClient.EarlierMessagesKept | frontend/src/ChatComponent.tsx:74-106 | whatever the lines, every entry before the last one stays in place |
| ChatClient.FirstFragmentDropsUserMessage | frontend/src/ChatComponent.tsx:100 | right after a submit, the first fragment's message takes the place of the user's message |
| ChatClient.SentinelDuplicatesReply | frontend/src/ChatComponent.tsx:89 | once recognised, the sentinel appends a second system message with the reply the fragment already put there |
| ChatServer.FrameLine | backend/app.py:32 | a fragment frame's line starts with the literal `data: ` and holds no line feed |
| ChatServer.FrameLineDecodes | backend/app.py:32 | the payload after `data: ` decodes back to the content the frame was written for |
| ChatServer.Frame | backend/app.py:32 | split on line feeds, as the client does, a fragment frame is exactly its line and two empty lines |
| ChatServer.Frames | backend/app.py:28-32 | one frame per emitted content, the i-th being that content's frame |
| ChatServer.SaveConversation | backend/app.py:41-57 | a record is built exactly when the request has a message. It holds the given id and client id and exactly two messages: the user's, with the last request message's content, then the system's, with the full reply |
| ChatServer.StreamDeltas | backend/app.py:28-32 | the loop accumulates the concatenation of the emitted contents and yields exactly their frames, in order |
| ChatServer.Generate | backend/app.py:21-37 | the full reply is the concatenation of the emitted contents and the effects are exactly `GenerateEffects`: the frames, then, if the record can be built, its append and the closing frame |
| ChatServer.EmittedAppend | backend/app.py:28-31 | the emitted contents of two runs of deltas are those of the first followed by those of the second |
| ChatServer.EmittedMembers | backend/app.py:29-30 | the `is not None` filter keeps exactly the contents present in the stream and yields at most one per delta |
| ChatServer.NoneDeltaSkipped | backend/app.py:29-31 | a delta without content adds no frame and nothing to the full reply |
| ChatServer.FrameIsNotDone | backend/app.py:32-37 | no fragment frame equals the closing frame |
| ChatServer.DoneFrameSplit | backend/app.py:37 | split on line feeds, the closing frame is `data: [DONE]` and two empty lines |
| ChatServer.DoneFrameLastAfterSave | backend/app.py:28-37 | every earlier effect is the next fragment frame. When a record can be built, the closing frame is sent exactly once, as the last effect, right after the append. When none can be, there is no closing frame |
| ChatServer.WireOfGenerate | backend/app.py:21-37 | the body on the wire is the fragment frames of the emitted contents, then the closing frame when the request has a message |
| ChatServer.GetHistory | backend/app.py:64-75 | the loop returns `HistoryFor` of the log: the records whose clientId equals the query, and only those |
| ChatServer.HistoryForMembers | backend/app.py:69-73 | a record is in the history exactly when it is in the log and its clientId equals the query |
| ChatServer.HistoryForAppend | backend/app.py:69-73 | the filter keeps log order: the history of a log in two parts is the history of the first followed by that of the second |
| Wire.FrameLineIsFragment | frontend/src/ChatComponent.tsx:80-100 | the client reads a fragment frame's line as exactly the fragment the backend framed |
| Wire.EndFrameDiscarded | frontend/src/ChatComponent.tsx:82-83 | the client takes the closing frame's line for a malformed payload, not for the sentinel |
| Wire.FrameChunkGrowsReply | frontend/src/ChatComponent.tsx:77-100 | a chunk holding one fragment frame grows the accumulator by its content and puts the grown reply in place of the last entry |
| Wire.DoneChunkInert | frontend/src/ChatComponent.tsx:77-103 | a chunk holding the closing frame changes nothing at all |
| Wire.FramesIntoClient | frontend/src/ChatComponent.tsx:74-106 | fragment frames, one chunk each, leave the accumulator grown by their concatenation and the last entry holding it, stamped with the last chunk's time |
| Wire.AsWrittenEndToEnd | frontend/src/ChatComponent.tsx:74-106 | the backend's body, one frame per chunk, ends with the full reply as the accumulator and no history reload. The transcript is the one before the user's message plus the reply, or, when nothing was emitted, the one with the user's message |
| Wire.SavedRecordEchoesSubmission | backend/app.py:41-57 | the record saved for the request the frontend sends holds the submitted text, then the full reply, under the sender's client id |
| Wire.SavedExchangeInHistory | backend/app.py:64-75 | after the record is appended to the log, its sender's history is the one before followed by that record |
| CorrectedClient.Payload | frontend/src/ChatComponent.tsx:82 | the field value is the remainder after `data:` less one leading space. When there is no such space it is the remainder itself |
| CorrectedClient.FrameLineRecognised | frontend/src/ChatComponent.tsx:81-94 | a fragment frame's line is read as the fragment it carries |
| CorrectedClient.DoneLineRecognised | frontend/src/ChatComponent.tsx:82-83 | the closing frame's line is read as the sentinel |
| CorrectedClient.StepKeepsSettled | frontend/src/ChatComponent.tsx:83-100 | no line removes or changes a settled entry (the user's messages and finished replies) |
| CorrectedClient.SettledKept | frontend/src/ChatComponent.tsx:74-106 | whatever the lines, the settled entries stay in place and are always a prefix of the transcript |
| CorrectedClient.FirstFragmentKeepsUserMessage | frontend/src/ChatComponent.tsx:100 | right after a submit, the first fragment is shown behind the user's message |
| CorrectedClient.DoneChunkSettles | frontend/src/ChatComponent.tsx:83-90 | the closing frame's chunk settles the reply behind the settled entries and starts one history reload |
| CorrectedClient.CorrectedEndToEnd | frontend/src/ChatComponent.tsx:74-106 | the backend's body, one frame per chunk, leaves the transcript followed by exactly one system message whose text is the concatenation of the emitted contents, the full reply `Generate` saves, with one history reload and nothing streaming |
| CorrectedClient.CorrectedExchangeSaved | backend/app.py:41-57 | after a submit, with the body read one frame per chunk, the corrected transcript ends in the record the backend saves for that request: the user's message then the full reply, once, alike in speaker and text |

## Left out

- Identity: `localStorage` and `uuidv4` (frontend/src/ChatComponent.tsx:23-33), the `uuid4` default for a missing clientId and the record's `_id` (backend/app.py:19, 43). Identifiers are opaque strings passed in.
- Null client ids: a clientId that is JSON `null` would be stored as null and matched by a history request without the parameter. Client ids are strings here, and a missing query matches nothing.
- Clocks: `new Date()` and `datetime.now` are opaque strings passed in.
- ChatClient.ChatComponent.ReadReply: takes one clock reading per chunk rather than one per line. Lines of one chunk share a timestamp.
- The `console.error` logging of an unparseable payload (frontend/src/ChatComponent.tsx:102): output only. The line is dropped, as in the model.
- Rendering, `scrollIntoView` and the history sidebar's text truncation: presentation only.
- Network and decoding: `fetch`, `reader.read()` and `TextDecoder` are abstracted. The body is given as the sequence of decoded chunks. A multi-byte character split across chunks is not modelled.
- Wire.AsWrittenEndToEnd: assumes one frame per chunk. A frame split across chunks is excluded because, like the source, the model does not reassemble a line split across chunks: its halves are read as two lines and its content is lost. Chunks that carry several whole frames, which networks often deliver, are also left out of the end-to-end statements. The line-level lemmas (ChatClient.ReplyIsConcatOfFragments, Wire.FrameLineIsFragment) still cover such chunks line by line.
- CorrectedClient.CorrectedEndToEnd: assumes one frame per chunk, for the same reasons.
- CorrectedClient.CorrectedExchangeSaved: assumes one frame per chunk, as CorrectedEndToEnd does.
- `fetchHistory`: the request is counted (`historyLoads`) rather than performed. Its completion is `ReceiveHistory`, and overlapping requests and double submits are concurrency, left out.
- JSON in general: `JsonContent` handles only the `{"content": <string>}` shape the backend sends. JSON of any other shape counts as a parse failure. For most other JSON values the source would instead append the text `undefined`, or the value's string form. For `null`, reading `.content` throws and the catch drops the line, as the model does.
- JSON lone surrogates: a `\uXXXX` naming a lone surrogate is refused, where `JSON.parse` would accept it. The model's strings are sequences of Unicode scalar values.
- JsonContent.EscapeChar: covers Python strings of Unicode scalar values only. A lone surrogate in a Python string cannot be represented.
- `JSON.stringify` of the request body, `request.json`, and `jsonify`/`response.json()` of the history are taken as exact transfers of the values.
- Errors other than the empty-request `IndexError`: a `KeyError` on a request without `messages`, a missing or corrupt `conversations.json`, and a failed `fetch`.
- The HTTP consequences of the generator raising are left out. The model records that no closing frame is sent.
- The OpenAI client, Flask routing and CORS are foreign calls. The model's stream is the input sequence of deltas.

## Findings

| source | as written | input that shows it | evidently intended | confidence | as-written member | corrected member |
|---|---|---|---|---|---|---|
| frontend/src/ChatComponent.tsx:82-83 | the payload is `line.slice(5)`, compared verbatim with `[DONE]`. The backend writes `data: [DONE]` with a space (backend/app.py:37) | the closing frame `data: [DONE]\n\n`: its payload ` [DONE]` is not the sentinel and fails `JSON.parse`, so no final message is appended and history is never reloaded | drop one optional space after `data:`, as section 9.2 of the WHATWG HTML Living Standard ("Server-sent events") does, so the sentinel is recognised | high (not executed) | Wire.EndFrameDiscarded | CorrectedClient.DoneLineRecognised |
| frontend/src/ChatComponent.tsx:100 | every fragment replaces the transcript's last entry, `prev.slice(0, -1)` | transcript `[user "Hi"]`, then a frame carrying `Hello`: the transcript becomes `[system "Hello"]`, and the user's message is gone | replace only the reply in progress and keep the user's message | high (not executed) | ChatClient.FirstFragmentDropsUserMessage | CorrectedClient.FirstFragmentKeepsUserMessage |
| frontend/src/ChatComponent.tsx:89 | the sentinel appends the reply as a new message | `data:{"content": "Hello"}` then `data:[DONE]`: two system messages with text `Hello` | settle the streamed reply in place, giving exactly one reply message, as the backend saves it | high (not executed) | ChatClient.SentinelDuplicatesReply | CorrectedClient.CorrectedEndToEnd |
