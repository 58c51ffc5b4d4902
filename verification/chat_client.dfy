/** The frontend's reply assembler (frontend/src/ChatComponent.tsx): the submit guard, the
    line-by-line reading of the streamed reply, and history selection. The specification
    functions (Step, StepLines, ReadChunks) describe what one line, a run of lines and a whole
    stream do to the transcript and the reply accumulator; the ChatComponent class holds the
    component's state and its methods are proved to follow those functions. */
module ChatClient {
  import opened Wrappers
  import opened Text
  import opened JsonContent
  import opened ChatTypes

  /** What JavaScript's `String.prototype.trim` removes: white space and line terminators. */
  predicate IsJsWhitespace(c: char)
  {
    c == '\t' || c == '\n' || c == '\U{000B}' || c == '\U{000C}' || c == '\r' || c == ' '
    || c == '\U{00A0}' || c == '\U{1680}' || ('\U{2000}' <= c <= '\U{200A}')
    || c == '\U{2028}' || c == '\U{2029}' || c == '\U{202F}' || c == '\U{205F}'
    || c == '\U{3000}' || c == '\U{FEFF}'
  }

  /** `!s.trim()`: the input is empty once trimmed. */
  predicate IsBlank(s: string)
  {
    forall i | 0 <= i < |s| :: IsJsWhitespace(s[i])
  }

  /** `s.trimStart()`: the text without its leading white space. */
  function TrimStart(s: string): (r: string)
    ensures |r| == 0 || !IsJsWhitespace(r[0])
    decreases |s|
  {
    if |s| > 0 && IsJsWhitespace(s[0]) then TrimStart(s[1..]) else s
  }

  /** `s.trimEnd()`: the text without its trailing white space. */
  function TrimEnd(s: string): string
    decreases |s|
  {
    if |s| > 0 && IsJsWhitespace(s[|s| - 1]) then TrimEnd(s[..|s| - 1]) else s
  }

  /** `s.trim()`. */
  function Trim(s: string): string
  {
    TrimEnd(TrimStart(s))
  }

  /** The submit guard `!input.trim()` holds exactly for the blank inputs. */
  lemma {:induction false} BlankIffTrimEmpty(s: string)
    ensures IsBlank(s) <==> Trim(s) == ""
  {
    var t := TrimStart(s);
    TrimStartEmpty(s);
    if |t| > 0 {
      TrimEndKeepsFirst(t);
    }
  }

  /** Trimming the front leaves nothing exactly when the whole text is white space. */
  lemma {:induction false} TrimStartEmpty(s: string)
    ensures TrimStart(s) == "" <==> IsBlank(s)
    decreases |s|
  {
    if |s| > 0 && IsJsWhitespace(s[0]) {
      TrimStartEmpty(s[1..]);
      assert forall i | 1 <= i < |s| :: s[i] == s[1..][i - 1];
    }
  }

  /** Trimming the end keeps a first character that is not white space. */
  lemma {:induction false} TrimEndKeepsFirst(s: string)
    requires |s| > 0 && !IsJsWhitespace(s[0])
    ensures |TrimEnd(s)| > 0
    decreases |s|
  {
    if IsJsWhitespace(s[|s| - 1]) {
      TrimEndKeepsFirst(s[..|s| - 1]);
    }
  }

  /** The prefix that marks a payload line, and the end-of-stream sentinel. */
  const DataPrefix: string := "data:"
  const DoneMarker: string := "[DONE]"

  /** What the client makes of one line of the stream. */
  datatype LineEvent = NotData | Done | Fragment(content: string) | Malformed

  /** The branches of the inner loop: lines without the prefix are skipped; the payload is
      the line less its first five characters; the sentinel is compared verbatim; anything
      else goes through JSON.parse, whose failure is caught and logged. */
  function Classify(line: string): LineEvent
  {
    if !(DataPrefix <= line) then NotData
    else
      var payload := line[|DataPrefix|..];
      if payload == DoneMarker then Done
      else match ParseContent(payload)
        case Some(c) => Fragment(c)
        case None => Malformed
  }

  /** How the branches of Classify are told apart: only `data:[DONE]` is the sentinel, and a
      fragment is a data line whose remainder after `data:` parses, carrying what it parses to. */
  lemma ClassifyCases(line: string)
    ensures Classify(line) == NotData <==> !(DataPrefix <= line)
    ensures Classify(line) == Done <==> line == DataPrefix + DoneMarker
    ensures Classify(line).Fragment? <==>
      DataPrefix <= line && line[5..] != DoneMarker && ParseContent(line[5..]).Some?
    ensures Classify(line).Fragment? ==> ParseContent(line[5..]) == Some(Classify(line).content)
  {
    if DataPrefix <= line {
      assert line == DataPrefix + line[5..];
    }
  }

  /** `s.slice(0, -1)`: everything but the last element; the empty sequence stays empty. */
  function DropLast<T>(s: seq<T>): seq<T>
  {
    if |s| == 0 then [] else s[..|s| - 1]
  }

  /** The index `Array.prototype.slice` resolves `i` to: counted from the end when negative,
      and clamped to the sequence. */
  function SliceIndex(i: int, len: nat): (k: nat)
    ensures k <= len
  {
    if i < 0 then (if len + i < 0 then 0 else len + i)
    else if i > len then len else i
  }

  /** `s.slice(start, end)` for any integer bounds. */
  function Slice<T>(s: seq<T>, start: int, end: int): seq<T>
  {
    var a := SliceIndex(start, |s|);
    var b := SliceIndex(end, |s|);
    if a < b then s[a..b] else []
  }

  /** DropLast is `slice(0, -1)`: on a non-empty sequence it removes exactly the last element. */
  lemma DropLastIsSlice<T>(s: seq<T>)
    ensures DropLast(s) == Slice(s, 0, -1)
    ensures |s| > 0 ==> DropLast(s) + [s[|s| - 1]] == s
  {
  }

  /** The state the stream loop works on: the transcript, the `systemResponse` accumulator,
      and how many history reloads the loop has started. */
  datatype Assembly = Assembly(transcript: seq<Message>, reply: string, historyLoads: nat)

  /** One line: the sentinel appends the accumulated reply and reloads history; a fragment
      extends the accumulator and puts the grown reply in place of the last transcript entry;
      everything else changes nothing. */
  function Step(a: Assembly, line: string, now: string): Assembly
  {
    match Classify(line)
    case NotData => a
    case Malformed => a
    case Done =>
      a.(transcript := a.transcript + [Message(System, a.reply, now)],
         historyLoads := a.historyLoads + 1)
    case Fragment(c) =>
      var reply := a.reply + c;
      a.(transcript := DropLast(a.transcript) + [Message(System, reply, now)], reply := reply)
  }

  /** The lines of one chunk, in order. */
  function StepLines(a: Assembly, lines: seq<string>, now: string): Assembly
  {
    if |lines| == 0 then a
    else Step(StepLines(a, lines[..|lines| - 1], now), lines[|lines| - 1], now)
  }

  /** A whole response body: every chunk is split on line feeds and its lines are handled in
      order; `times[i]` is the clock reading while chunk `i` is handled. */
  function ReadChunks(a: Assembly, chunks: seq<string>, times: seq<string>): Assembly
    requires |times| == |chunks|
  {
    if |chunks| == 0 then a
    else
      var n := |chunks| - 1;
      StepLines(ReadChunks(a, chunks[..n], times[..n]), Split(chunks[n], '\n'), times[n])
  }

  /** The contents of the well-formed fragment lines among `lines`, in order. */
  function Fragments(lines: seq<string>): seq<string>
  {
    if |lines| == 0 then []
    else
      var n := |lines| - 1;
      Fragments(lines[..n]) + FragmentOf(lines[n])
  }

  /** The content a line contributes: one piece for a well-formed fragment, none otherwise. */
  function FragmentOf(line: string): seq<string>
  {
    match Classify(line) case Fragment(c) => [c] case _ => []
  }

  /** A line that does not start with `data:` leaves transcript, accumulator and history
      reloads alone. */
  lemma NonDataLineIgnored(a: Assembly, line: string, now: string)
    requires !(DataPrefix <= line)
    ensures Step(a, line, now) == a
  {
  }

  /** A payload equal to the sentinel appends one system message carrying the accumulated
      reply behind the unchanged transcript, and starts one history reload. */
  lemma SentinelAppendsReply(a: Assembly, line: string, now: string)
    requires DataPrefix <= line && line[5..] == DoneMarker
    ensures var b := Step(a, line, now);
      && |b.transcript| == |a.transcript| + 1
      && b.transcript[..|a.transcript|] == a.transcript
      && b.transcript[|a.transcript|] == Message(System, a.reply, now)
      && b.reply == a.reply
      && b.historyLoads == a.historyLoads + 1
  {
  }

  /** A well-formed fragment grows the accumulator by its content and replaces the last
      transcript entry, whatever it was, by a system message carrying the grown reply; the
      earlier entries and the length stay (an empty transcript gets the one message). */
  lemma FragmentReplacesLast(a: Assembly, line: string, now: string, c: string)
    requires DataPrefix <= line && line[5..] != DoneMarker && ParseContent(line[5..]) == Some(c)
    ensures var b := Step(a, line, now);
      && b.reply == a.reply + c
      && |b.transcript| == (if |a.transcript| == 0 then 1 else |a.transcript|)
      && b.transcript[..|b.transcript| - 1] == DropLast(a.transcript)
      && b.transcript[|b.transcript| - 1] == Message(System, a.reply + c, now)
      && b.historyLoads == a.historyLoads
  {
  }

  /** A line followed by two empty lines, as a blank-line-terminated frame splits, acts as
      the line alone. */
  lemma LineThenBlanks(a: Assembly, line: string, now: string)
    ensures StepLines(a, [line, "", ""], now) == Step(a, line, now)
  {
    var lines := [line, "", ""];
    assert lines[..2] == [line, ""];
    assert [line, ""][..1] == [line];
    assert [line][..0] == [];
    var b := Step(a, line, now);
    assert StepLines(a, [line], now) == b;
    NonDataLineIgnored(b, "", now);
    assert StepLines(a, [line, ""], now) == b;
  }

  /** A payload that is neither the sentinel nor parseable changes nothing. */
  lemma MalformedPayloadDropped(a: Assembly, line: string, now: string)
    requires DataPrefix <= line && line[5..] != DoneMarker && ParseContent(line[5..]) == None
    ensures Step(a, line, now) == a
  {
  }

  /** Whatever the lines, the accumulator ends as it started followed by the contents of the
      well-formed fragment lines, in order: malformed lines, other lines and the sentinel add
      nothing to it. */
  lemma {:induction false} ReplyIsConcatOfFragments(a: Assembly, lines: seq<string>, now: string)
    ensures StepLines(a, lines, now).reply == a.reply + Concat(Fragments(lines))
    decreases |lines|
  {
    if |lines| > 0 {
      var n := |lines| - 1;
      ReplyIsConcatOfFragments(a, lines[..n], now);
      LastLineExtendsReply(a, lines, now);
      ConcatAppend(Fragments(lines[..n]), FragmentOf(lines[n]));
    }
  }

  /** The step of ReplyIsConcatOfFragments: the last line adds what it contributes. */
  lemma LastLineExtendsReply(a: Assembly, lines: seq<string>, now: string)
    requires |lines| > 0
    ensures var n := |lines| - 1;
      StepLines(a, lines, now).reply == StepLines(a, lines[..n], now).reply + Concat(FragmentOf(lines[n]))
  {
    var n := |lines| - 1;
    StepExtendsReply(StepLines(a, lines[..n], now), lines[n], now);
  }

  /** After any run of well-formed fragment lines the accumulator is the old one followed by
      their contents, in order. */
  lemma FragmentLinesAccumulate(a: Assembly, lines: seq<string>, contents: seq<string>, now: string)
    requires |lines| == |contents|
    requires forall i {:trigger Classify(lines[i])} | 0 <= i < |lines| :: Classify(lines[i]) == Fragment(contents[i])
    ensures StepLines(a, lines, now).reply == a.reply + Concat(contents)
  {
    forall i | 0 <= i < |lines| ensures IsFragmentLine(lines[i], contents[i]) {
      assert Classify(lines[i]) == Fragment(contents[i]);
    }
    FragmentsOfFragmentLines(lines, contents);
    ReplyIsConcatOfFragments(a, lines, now);
  }

  /** The line is a fragment carrying `c`. */
  predicate IsFragmentLine(line: string, c: string)
  {
    Classify(line) == Fragment(c)
  }

  /** Lines that are all fragments contribute exactly their contents, in order. */
  lemma {:induction false} FragmentsOfFragmentLines(lines: seq<string>, contents: seq<string>)
    requires |lines| == |contents|
    requires forall i {:trigger IsFragmentLine(lines[i], contents[i])} | 0 <= i < |lines| :: IsFragmentLine(lines[i], contents[i])
    ensures Fragments(lines) == contents
    decreases |lines|
  {
    if |lines| > 0 {
      var n := |lines| - 1;
      PrefixAllFragments(lines, contents, n);
      FragmentsOfFragmentLines(lines[..n], contents[..n]);
      assert FragmentOf(lines[n]) == [contents[n]] by {
        assert IsFragmentLine(lines[n], contents[n]);
      }
      assert contents == contents[..n] + [contents[n]];
    }
  }

  /** Every line of a prefix of all-fragment lines is a fragment. */
  lemma PrefixAllFragments(lines: seq<string>, contents: seq<string>, n: nat)
    requires |lines| == |contents| && n <= |lines|
    requires forall i {:trigger IsFragmentLine(lines[i], contents[i])} | 0 <= i < |lines| :: IsFragmentLine(lines[i], contents[i])
    ensures forall i {:trigger IsFragmentLine(lines[..n][i], contents[..n][i])} | 0 <= i < n :: IsFragmentLine(lines[..n][i], contents[..n][i])
  {
    forall i | 0 <= i < n ensures IsFragmentLine(lines[..n][i], contents[..n][i]) {
      assert lines[..n][i] == lines[i] && contents[..n][i] == contents[i];
      assert IsFragmentLine(lines[i], contents[i]);
    }
  }

  /** One well-formed fragment line appends its content to the accumulator. */
  lemma FragmentGrowsReply(a: Assembly, line: string, c: string, now: string)
    requires Classify(line) == Fragment(c)
    ensures Step(a, line, now).reply == a.reply + c
  {
  }

  /** One line adds to the accumulator exactly what it contributes. */
  lemma StepExtendsReply(a: Assembly, line: string, now: string)
    ensures Step(a, line, now).reply == a.reply + Concat(FragmentOf(line))
  {
    match Classify(line)
    case Fragment(c) =>
      assert Concat([c]) == Concat([]) + c;
    case _ =>
      assert a.reply + "" == a.reply;
  }

  /** One step never disturbs the entries before the last one. */
  lemma StepKeepsEarlierMessages(a: Assembly, line: string, now: string)
    ensures DropLast(a.transcript) <= DropLast(Step(a, line, now).transcript)
  {
    var t := a.transcript;
    match Classify(line)
    case Done =>
      assert DropLast(t + [Message(System, a.reply, now)]) == t;
    case Fragment(c) =>
      var m := Message(System, a.reply + c, now);
      assert DropLast(DropLast(t) + [m]) == DropLast(t);
    case _ =>
  }

  /** The transcript only ever changes at its end: whatever the lines, every entry before
      the last one is still in place, in the same position, afterwards. */
  lemma {:induction false} EarlierMessagesKept(a: Assembly, lines: seq<string>, now: string)
    ensures DropLast(a.transcript) <= DropLast(StepLines(a, lines, now).transcript)
    decreases |lines|
  {
    if |lines| > 0 {
      var n := |lines| - 1;
      EarlierMessagesKept(a, lines[..n], now);
      StepKeepsEarlierMessages(StepLines(a, lines[..n], now), lines[n], now);
    }
  }

  /** The first fragment of a reply takes the place of the user's own message: right after a
      submit the last entry is the user message, and `prev.slice(0, -1)` removes it. */
  lemma FirstFragmentDropsUserMessage(t: seq<Message>, u: Message, n: nat, c: string, now: string)
    ensures Step(Assembly(t + [u], "", n), "data: " + EncodeContent(c), now).transcript
         == t + [Message(System, c, now)]
  {
    var p := EncodeContent(c);
    var line := "data: " + p;
    assert DataPrefix <= line;
    assert line[5..] == " " + p;
    assert (" " + p)[0] != DoneMarker[0];
    ParseEncodedContent(" ", c);
    assert Classify(line) == Fragment(c);
    assert DropLast(t + [u]) == t;
    assert "" + c == c;
  }

  /** Once the sentinel is recognised it appends a second copy of the reply that the
      fragments already put in the transcript. */
  lemma SentinelDuplicatesReply(t: seq<Message>, u: Message, n: nat, c: string, now1: string, now2: string)
    ensures Step(Step(Assembly(t + [u], "", n), "data:" + EncodeContent(c), now1), "data:[DONE]", now2).transcript
         == t + [Message(System, c, now1), Message(System, c, now2)]
  {
    var p := EncodeContent(c);
    var line := "data:" + p;
    assert DataPrefix <= line;
    assert line[5..] == "" + p;
    assert p[0] != DoneMarker[0];
    ParseEncodedContent("", c);
    assert Classify(line) == Fragment(c);
    assert DropLast(t + [u]) == t;
    assert "" + c == c;
    var b := Step(Assembly(t + [u], "", n), line, now1);
    assert b == Assembly(t + [Message(System, c, now1)], c, n);
    var done := "data:[DONE]";
    assert DataPrefix <= done && done[5..] == DoneMarker;
    assert Classify(done) == Done;
    assert Step(b, done, now2).transcript == t + [Message(System, c, now1)] + [Message(System, c, now2)];
  }

  /** The component's state (frontend/src/ChatComponent.tsx:17-20); `historyLoads` counts
      the history reloads the stream loop has started, the request itself being I/O. */
  class ChatComponent {
    var input: string
    var messages: seq<Message>
    var clientId: string
    var history: seq<Conversation>
    var historyLoads: nat

    constructor (clientId: string)
      ensures this.clientId == clientId
      ensures input == "" && messages == [] && history == [] && historyLoads == 0
    {
      this.clientId := clientId;
      input := "";
      messages := [];
      history := [];
      historyLoads := 0;
    }

    /** The input box's change handler. */
    method ChangeInput(text: string)
      modifies this
      ensures input == text
      ensures messages == old(messages) && clientId == old(clientId)
      ensures history == old(history) && historyLoads == old(historyLoads)
    {
      input := text;
    }

    /** The first half of handleSubmit: blank input is refused and nothing changes;
        otherwise the raw input becomes one user message at the end of the transcript, the
        box is cleared, and the request carries that single message and the client id. */
    method Submit(now: string) returns (request: Option<ChatRequest>)
      modifies this
      ensures IsBlank(old(input)) ==>
        request == None && input == old(input) && messages == old(messages)
      ensures !IsBlank(old(input)) ==>
        && request == Some(ChatRequest([RequestMessage("user", old(input))], clientId))
        && input == ""
        && messages == old(messages) + [Message(User, old(input), now)]
      ensures clientId == old(clientId) && history == old(history)
      ensures historyLoads == old(historyLoads)
    {
      if IsBlank(input) {
        return None;
      }
      var text := input;
      messages := messages + [Message(User, text, now)];
      input := "";
      request := Some(ChatRequest([RequestMessage("user", text)], clientId));
    }

    /** The body of the inner `for (const line of lines)` loop. */
    method HandleLine(line: string, systemResponse: string, now: string) returns (reply: string)
      modifies this
      ensures Assembly(messages, reply, historyLoads)
           == Step(Assembly(old(messages), systemResponse, old(historyLoads)), line, now)
      ensures input == old(input) && clientId == old(clientId) && history == old(history)
    {
      reply := systemResponse;
      if DataPrefix <= line {
        var data := line[5..];
        if data == DoneMarker {
          messages := messages + [Message(System, reply, now)];
          historyLoads := historyLoads + 1;
        } else {
          var parsed := ParseContent(data);
          if parsed.Some? {
            reply := reply + parsed.value;
            messages := DropLast(messages) + [Message(System, reply, now)];
          }
        }
      }
    }

    /** One decoded chunk: split on line feeds, every line handled in order. */
    method HandleChunk(chunk: string, systemResponse: string, now: string) returns (reply: string)
      modifies this
      ensures Assembly(messages, reply, historyLoads)
           == StepLines(Assembly(old(messages), systemResponse, old(historyLoads)), Split(chunk, '\n'), now)
      ensures input == old(input) && clientId == old(clientId) && history == old(history)
    {
      var lines := Split(chunk, '\n');
      reply := systemResponse;
      for i := 0 to |lines|
        invariant Assembly(messages, reply, historyLoads)
               == StepLines(Assembly(old(messages), systemResponse, old(historyLoads)), lines[..i], now)
        invariant input == old(input) && clientId == old(clientId) && history == old(history)
      {
        assert lines[..i + 1][..i] == lines[..i];
        reply := HandleLine(lines[i], reply, now);
      }
      assert lines[..|lines|] == lines;
    }

    /** The `while (true)` read loop: the accumulator starts empty and every chunk of the
        body is handled in order until the stream is done. */
    method ReadReply(chunks: seq<string>, times: seq<string>) returns (reply: string)
      requires |times| == |chunks|
      modifies this
      ensures Assembly(messages, reply, historyLoads)
           == ReadChunks(Assembly(old(messages), "", old(historyLoads)), chunks, times)
      ensures input == old(input) && clientId == old(clientId) && history == old(history)
    {
      reply := "";
      var i := 0;
      while i < |chunks|
        invariant 0 <= i <= |chunks|
        invariant Assembly(messages, reply, historyLoads)
               == ReadChunks(Assembly(old(messages), "", old(historyLoads)), chunks[..i], times[..i])
        invariant input == old(input) && clientId == old(clientId) && history == old(history)
      {
        assert chunks[..i + 1][..i] == chunks[..i] && times[..i + 1][..i] == times[..i];
        reply := HandleChunk(chunks[i], reply, times[i]);
        i := i + 1;
      }
      assert chunks[..i] == chunks && times[..i] == times;
    }

    /** handleSubmit as a whole: the submit guard and user append, then, when the response
        has a body, the streamed reply read chunk by chunk. */
    method HandleSubmit(now: string, body: Option<seq<string>>, times: seq<string>)
      returns (request: Option<ChatRequest>)
      requires body.Some? ==> |times| == |body.value|
      modifies this
      ensures IsBlank(old(input)) ==>
        request == None && input == old(input) && messages == old(messages)
        && historyLoads == old(historyLoads)
      ensures !IsBlank(old(input)) ==>
        && request == Some(ChatRequest([RequestMessage("user", old(input))], clientId))
        && input == ""
        && var sent := Assembly(old(messages) + [Message(User, old(input), now)], "", old(historyLoads));
           var after := if body.Some? then ReadChunks(sent, body.value, times) else sent;
           messages == after.transcript && historyLoads == after.historyLoads
      ensures clientId == old(clientId) && history == old(history)
    {
      request := Submit(now);
      if request.Some? && body.Some? {
        var _ := ReadReply(body.value, times);
      }
    }

    /** handleHistoryClick: the transcript becomes the chosen conversation's messages. */
    method ClickHistory(conversation: Conversation)
      modifies this
      ensures messages == conversation.messages
      ensures input == old(input) && clientId == old(clientId)
      ensures history == old(history) && historyLoads == old(historyLoads)
    {
      messages := conversation.messages;
    }

    /** The completion of fetchHistory: the history list is replaced by the response. */
    method ReceiveHistory(data: seq<Conversation>)
      modifies this
      ensures history == data
      ensures input == old(input) && messages == old(messages) && clientId == old(clientId)
      ensures historyLoads == old(historyLoads)
    {
      history := data;
    }
  }
}
