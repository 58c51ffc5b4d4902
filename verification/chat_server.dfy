/** The backend (backend/app.py): the `generate` loop that turns the model's stream of deltas
    into event-stream frames, the record `save_conversation` appends to the conversation
    log, and the `get_history` filter over that log. The model's stream and the log file are
    given as sequences; appending to the log and yielding a frame are recorded as effects, in
    the order they happen. */
module ChatServer {
  import opened Wrappers
  import opened Text
  import opened JsonContent
  import opened ChatTypes

  /** The line of a fragment frame: the literal `data: ` and the JSON of
      `{'content': content}`; it holds no line feed. */
  function FrameLine(content: string): (line: string)
    ensures "data: " <= line && '\n' !in line
  {
    var p := EncodeContent(content);
    var line := "data: " + p;
    assert forall i | 0 <= i < |line| :: line[i] != '\n';
    line
  }

  /** A frame line's payload decodes back to the content it was written for. */
  lemma FrameLineDecodes(content: string)
    ensures ParseContent(FrameLine(content)[6..]) == Some(content)
  {
    var p := EncodeContent(content);
    ParseEncodedContent("", content);
    assert "" + p == p;
    assert FrameLine(content)[6..] == p;
  }

  /** One fragment frame: its line and a blank line, so that split on line feeds, as the
      client does, it is exactly its line and two empty lines. */
  function Frame(content: string): (f: string)
    ensures Split(f, '\n') == [FrameLine(content), "", ""]
  {
    var line := FrameLine(content);
    assert line + "\n\n" == line + ['\n'] + "\n";
    SplitAfterPiece(line, '\n', "\n");
    EmptyLinesSplit();
    line + "\n\n"
  }

  /** The closing frame, written after the conversation is saved. */
  const DoneFrame: string := "data: [DONE]\n\n"

  /** The fragment frame for each content, in order. */
  function Frames(contents: seq<string>): (fs: seq<string>)
    ensures |fs| == |contents|
    ensures forall i | 0 <= i < |fs| :: fs[i] == Frame(contents[i])
  {
    if |contents| == 0 then []
    else Frames(contents[..|contents| - 1]) + [Frame(contents[|contents| - 1])]
  }

  /** The deltas whose content is not None, in order: the ones that are emitted. */
  function Emitted(deltas: seq<Option<string>>): seq<string>
  {
    if |deltas| == 0 then []
    else
      var n := |deltas| - 1;
      Emitted(deltas[..n]) + if deltas[n].Some? then [deltas[n].value] else []
  }

  /** The filter keeps exactly the contents that are present, and never adds a frame. */
  lemma {:induction false} EmittedMembers(deltas: seq<Option<string>>)
    ensures |Emitted(deltas)| <= |deltas|
    ensures forall c :: c in Emitted(deltas) <==> Some(c) in deltas
  {
    if |deltas| > 0 {
      var n := |deltas| - 1;
      EmittedMembers(deltas[..n]);
      assert deltas == deltas[..n] + [deltas[n]];
    }
  }

  /** What the backend does, in order: yield a frame on the response, or append a record to
      the conversation log. */
  datatype Effect = Yield(frame: string) | Append(record: Conversation)

  /** One Yield effect per fragment frame. */
  function YieldAll(frames: seq<string>): (es: seq<Effect>)
    ensures |es| == |frames|
    ensures forall i | 0 <= i < |es| :: es[i] == Yield(frames[i])
  {
    if |frames| == 0 then []
    else YieldAll(frames[..|frames| - 1]) + [Yield(frames[|frames| - 1])]
  }

  /** The record save_conversation builds: the user message is the content of the last
      request message and the system message is the full reply; with no request message
      `messages[-1]` raises and nothing is built. The id and both timestamps are opaque
      inputs (uuid4 and two clock reads). */
  function SaveConversation(id: string, clientId: string, messages: seq<RequestMessage>,
                            response: string, userTime: string, replyTime: string)
    : (r: Option<Conversation>)
    ensures r.Some? <==> |messages| > 0
    ensures r.Some? ==>
      && r.value.id == id && r.value.clientId == clientId
      && |r.value.messages| == 2
      && r.value.messages[0].speaker == User
      && r.value.messages[0].text == messages[|messages| - 1].content
      && r.value.messages[1].speaker == System
      && r.value.messages[1].text == response
  {
    if |messages| == 0 then None
    else Some(Conversation(id, clientId, [
      Message(User, messages[|messages| - 1].content, userTime),
      Message(System, response, replyTime)]))
  }

  /** Everything `generate` does for a given model stream: one frame per emitted delta; then,
      if the record can be built, its append to the log followed by the closing frame. When
      building the record raises, the generator stops there and no closing frame is sent. */
  function GenerateEffects(deltas: seq<Option<string>>, id: string, clientId: string,
                           messages: seq<RequestMessage>, userTime: string, replyTime: string)
    : seq<Effect>
  {
    YieldAll(Frames(Emitted(deltas)))
    + match SaveConversation(id, clientId, messages, Concat(Emitted(deltas)), userTime, replyTime)
      case None => []
      case Some(record) => [Append(record), Yield(DoneFrame)]
  }

  /** The `generate` generator: `full_response` accumulates the emitted contents while each
      one is framed and yielded; the conversation is saved, then the closing frame yielded. */
  method Generate(deltas: seq<Option<string>>, id: string, clientId: string,
                  messages: seq<RequestMessage>, userTime: string, replyTime: string)
    returns (effects: seq<Effect>, fullResponse: string)
    ensures fullResponse == Concat(Emitted(deltas))
    ensures effects == GenerateEffects(deltas, id, clientId, messages, userTime, replyTime)
  {
    effects, fullResponse := StreamDeltas(deltas);
    var saved := SaveConversation(id, clientId, messages, fullResponse, userTime, replyTime);
    if saved.Some? {
      effects := effects + [Append(saved.value), Yield(DoneFrame)];
    } else {
      assert effects + [] == effects;
    }
  }

  /** The `for chunk in stream` loop of `generate`: each delta with content is added to the
      full reply and its frame yielded; deltas without content are passed over. */
  method StreamDeltas(deltas: seq<Option<string>>) returns (effects: seq<Effect>, fullResponse: string)
    ensures fullResponse == Concat(Emitted(deltas))
    ensures effects == YieldAll(Frames(Emitted(deltas)))
  {
    fullResponse := "";
    effects := [];
    for i := 0 to |deltas|
      invariant fullResponse == Concat(Emitted(deltas[..i]))
      invariant effects == YieldAll(Frames(Emitted(deltas[..i])))
    {
      ghost var before := Emitted(deltas[..i]);
      EmittedStep(deltas, i);
      if deltas[i].Some? {
        var content := deltas[i].value;
        fullResponse := fullResponse + content;
        effects := effects + [Yield(Frame(content))];
        YieldNextFrame(before, content);
        assert Concat(before + [content]) == Concat(before) + content by {
          assert (before + [content])[..|before|] == before;
        }
      } else {
        assert before + [] == before;
      }
    }
    assert deltas[..|deltas|] == deltas;
  }

  /** The emitted contents of one more delta: those before it, then its own if it has one. */
  lemma EmittedStep(deltas: seq<Option<string>>, i: nat)
    requires i < |deltas|
    ensures Emitted(deltas[..i + 1]) == Emitted(deltas[..i]) + if deltas[i].Some? then [deltas[i].value] else []
  {
    assert deltas[..i + 1][..i] == deltas[..i];
  }

  /** One more content yields its frame after the frames of the earlier ones. */
  lemma YieldNextFrame(contents: seq<string>, c: string)
    ensures YieldAll(Frames(contents + [c])) == YieldAll(Frames(contents)) + [Yield(Frame(c))]
  {
    var fs := Frames(contents + [c]);
    assert fs == Frames(contents) + [Frame(c)];
    assert fs[..|fs| - 1] == Frames(contents);
  }

  /** Emitting distributes over joining two runs of deltas. */
  lemma {:induction false} EmittedAppend(d1: seq<Option<string>>, d2: seq<Option<string>>)
    ensures Emitted(d1 + d2) == Emitted(d1) + Emitted(d2)
    decreases |d2|
  {
    if |d2| == 0 {
      assert d1 + d2 == d1;
    } else {
      var n := |d2| - 1;
      EmittedAppend(d1, d2[..n]);
      assert (d1 + d2)[..|d1 + d2| - 1] == d1 + d2[..n];
    }
  }

  /** A delta whose content is None produces no frame and adds nothing to the full reply:
      removing it changes neither. */
  lemma NoneDeltaSkipped(d1: seq<Option<string>>, d2: seq<Option<string>>)
    ensures Emitted(d1 + [None] + d2) == Emitted(d1 + d2)
    ensures Concat(Emitted(d1 + [None] + d2)) == Concat(Emitted(d1 + d2))
  {
    EmittedAppend(d1 + [None], d2);
    EmittedAppend(d1, [None]);
    EmittedAppend(d1, d2);
    assert Emitted([None]) == Emitted([]) + [];
  }

  /** No fragment frame can be mistaken for the closing frame. */
  lemma FrameIsNotDone(c: string)
    ensures Frame(c) != DoneFrame
  {
    assert Frame(c)[6] == FrameLine(c)[6] == EncodeContent(c)[0] == '{';
    assert DoneFrame[6] == '[';
  }

  /** Split on line feeds, the closing frame is its line and two empty lines. */
  lemma DoneFrameSplit()
    ensures Split(DoneFrame, '\n') == ["data: [DONE]", "", ""]
  {
    assert DoneFrame == "data: [DONE]" + ['\n'] + "\n";
    SplitAfterPiece("data: [DONE]", '\n', "\n");
    EmptyLinesSplit();
  }

  lemma EmptyLinesSplit()
    ensures Split("\n", '\n') == ["", ""]
  {
    assert "\n" == "" + ['\n'] + "";
    SplitAfterPiece("", '\n', "");
  }

  /** The closing frame is sent exactly once, as the very last effect, right after the
      conversation is appended to the log, and only when the record could be built; every
      earlier effect is the fragment frame of the next emitted content, whose payload decodes
      back to that content, so the concatenation of what the frames carry is the full reply. */
  lemma DoneFrameLastAfterSave(deltas: seq<Option<string>>, id: string, clientId: string,
                               messages: seq<RequestMessage>, userTime: string, replyTime: string)
    ensures var e := GenerateEffects(deltas, id, clientId, messages, userTime, replyTime);
      var cs := Emitted(deltas);
      && (forall i | 0 <= i < |cs| :: e[i] == Yield(Frame(cs[i])))
      && (|messages| == 0 ==> |e| == |cs| && forall i | 0 <= i < |e| :: e[i] != Yield(DoneFrame))
      && (|messages| > 0 ==>
           && |e| == |cs| + 2
           && e[|cs|] == Append(SaveConversation(id, clientId, messages, Concat(cs), userTime, replyTime).value)
           && e[|cs| + 1] == Yield(DoneFrame)
           && forall i | 0 <= i < |cs| + 1 :: e[i] != Yield(DoneFrame))
  {
    var cs := Emitted(deltas);
    forall i | 0 <= i < |cs| ensures Frame(cs[i]) != DoneFrame {
      FrameIsNotDone(cs[i]);
    }
  }

  /** The frames that go on the wire, in order: the Yield effects. */
  function WireFrames(effects: seq<Effect>): seq<string>
  {
    if |effects| == 0 then []
    else
      var n := |effects| - 1;
      WireFrames(effects[..n]) + if effects[n].Yield? then [effects[n].frame] else []
  }

  lemma {:induction false} WireFramesOfYields(frames: seq<string>)
    ensures WireFrames(YieldAll(frames)) == frames
    decreases |frames|
  {
    if |frames| > 0 {
      var n := |frames| - 1;
      WireFramesOfYields(frames[..n]);
      assert YieldAll(frames)[..n] == YieldAll(frames[..n]);
      assert frames[..n] + [frames[n]] == frames;
    }
  }

  /** The response body `generate` produces: the fragment frames of the emitted contents,
      then the closing frame when the conversation was saved. */
  lemma WireOfGenerate(deltas: seq<Option<string>>, id: string, clientId: string,
                       messages: seq<RequestMessage>, userTime: string, replyTime: string)
    ensures WireFrames(GenerateEffects(deltas, id, clientId, messages, userTime, replyTime))
         == Frames(Emitted(deltas)) + if |messages| > 0 then [DoneFrame] else []
  {
    var frames := Frames(Emitted(deltas));
    WireFramesOfYields(frames);
    var saved := SaveConversation(id, clientId, messages, Concat(Emitted(deltas)), userTime, replyTime);
    if saved.Some? {
      WireFramesOfSave(YieldAll(frames), saved.value);
    } else {
      assert YieldAll(frames) + [] == YieldAll(frames);
      assert frames + [] == frames;
    }
  }

  lemma WireFramesOfSave(es: seq<Effect>, record: Conversation)
    ensures WireFrames(es + [Append(record), Yield(DoneFrame)]) == WireFrames(es) + [DoneFrame]
  {
    var e1 := es + [Append(record)];
    var e := e1 + [Yield(DoneFrame)];
    assert es + [Append(record), Yield(DoneFrame)] == e;
    assert e[..|e| - 1] == e1;
    assert e1[..|es|] == es;
    assert WireFrames(e1) == WireFrames(es) + [];
  }

  /** The conversations of the log whose clientId equals the query, in log order; a request
      without the parameter (None) matches nothing. */
  function HistoryFor(store: seq<Conversation>, query: Option<string>): seq<Conversation>
  {
    if |store| == 0 then []
    else
      var n := |store| - 1;
      HistoryFor(store[..n], query) + if query == Some(store[n].clientId) then [store[n]] else []
  }

  /** The get_history loop: read the log line by line and keep the matching records. */
  method GetHistory(store: seq<Conversation>, query: Option<string>)
    returns (conversations: seq<Conversation>)
    ensures conversations == HistoryFor(store, query)
    ensures forall c :: c in conversations <==> c in store && query == Some(c.clientId)
  {
    conversations := [];
    for i := 0 to |store|
      invariant conversations == HistoryFor(store[..i], query)
    {
      assert store[..i + 1][..i] == store[..i];
      if query == Some(store[i].clientId) {
        conversations := conversations + [store[i]];
      } else {
        assert conversations + [] == conversations;
      }
    }
    assert store[..|store|] == store;
    HistoryForMembers(store, query);
  }

  /** History holds exactly the stored records of the queried client. */
  lemma {:induction false} HistoryForMembers(store: seq<Conversation>, query: Option<string>)
    ensures forall c :: c in HistoryFor(store, query) <==> c in store && query == Some(c.clientId)
    decreases |store|
  {
    if |store| > 0 {
      var n := |store| - 1;
      HistoryForMembers(store[..n], query);
      assert store == store[..n] + [store[n]];
    }
  }

  /** The filter keeps log order: the history of a log made of two parts is the history of
      the first part followed by that of the second. */
  lemma {:induction false} HistoryForAppend(a: seq<Conversation>, b: seq<Conversation>, query: Option<string>)
    ensures HistoryFor(a + b, query) == HistoryFor(a, query) + HistoryFor(b, query)
    decreases |b|
  {
    if |b| == 0 {
      assert a + b == a;
    } else {
      var n := |b| - 1;
      var last := if query == Some(b[n].clientId) then [b[n]] else [];
      assert HistoryFor(a + b, query) == HistoryFor(a + b[..n], query) + last by {
        assert (a + b)[..|a + b| - 1] == a + b[..n];
        assert (a + b)[|a + b| - 1] == b[n];
      }
      assert HistoryFor(b, query) == HistoryFor(b[..n], query) + last;
      HistoryForAppend(a, b[..n], query);
    }
  }
}
