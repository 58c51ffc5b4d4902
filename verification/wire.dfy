/** What the frontend's assembler, as written, makes of the backend's response body. The
    backend writes `data: ` with a space before every payload; the client strips only
    `data:`, so the payload it sees starts with that space. JSON tolerates the space, so the
    fragments arrive intact, but the closing frame's payload is ` [DONE]`, which is neither
    the sentinel nor JSON, and is dropped as malformed. */
module Wire {
  import opened Wrappers
  import opened Text
  import opened JsonContent
  import opened ChatTypes
  import opened ChatClient
  import opened ChatServer

  /** A fragment frame's line reaches the client as that fragment. */
  lemma FrameLineIsFragment(c: string)
    ensures Classify(FrameLine(c)) == Fragment(c)
  {
    var line := FrameLine(c);
    assert line[5..] == " " + line[6..];
    assert line[5..][0] == ' ' != DoneMarker[0];
    ParseEncodedContent(" ", c);
    assert line[6..] == EncodeContent(c);
    assert line[5..] == " " + EncodeContent(c);
  }

  /** The closing frame's line is taken for a malformed payload, not for the sentinel. */
  lemma EndFrameDiscarded()
    ensures Classify("data: [DONE]") == Malformed
  {
    var line := "data: [DONE]";
    assert DataPrefix <= line;
    assert line[5..] == " [DONE]";
    SpacedSentinelIsNotContent();
  }

  /** A chunk holding one fragment frame acts as the fragment's line alone. */
  lemma FrameChunk(a: Assembly, c: string, now: string)
    ensures StepLines(a, Split(Frame(c), '\n'), now) == Step(a, FrameLine(c), now)
  {
    LineThenBlanks(a, FrameLine(c), now);
  }

  /** A chunk holding one fragment frame grows the reply by its content and puts the grown
      reply in place of the last transcript entry. */
  lemma FrameChunkGrowsReply(a: Assembly, c: string, now: string)
    ensures StepLines(a, Split(Frame(c), '\n'), now)
         == Assembly(DropLast(a.transcript) + [Message(System, a.reply + c, now)], a.reply + c, a.historyLoads)
  {
    FrameChunk(a, c, now);
    FrameLineIsFragment(c);
  }

  /** A chunk holding the closing frame changes nothing at all. */
  lemma DoneChunkInert(a: Assembly, now: string)
    ensures StepLines(a, Split(DoneFrame, '\n'), now) == a
  {
    DoneFrameSplit();
    LineThenBlanks(a, "data: [DONE]", now);
    EndFrameDiscarded();
  }

  /** What a run of fragment lines with contents `cs` does, the i-th handled at `ts[i]`:
      the accumulator grows by their concatenation and the last transcript entry becomes the
      grown reply, stamped with the last line's time. */
  function AfterFragments(a: Assembly, cs: seq<string>, ts: seq<string>): Assembly
    requires |ts| == |cs|
  {
    if |cs| == 0 then a
    else Assembly(DropLast(a.transcript) + [Message(System, a.reply + Concat(cs), ts[|cs| - 1])],
                  a.reply + Concat(cs), a.historyLoads)
  }

  /** One more fragment extends AfterFragments by that fragment. */
  lemma AfterOneMoreFragment(a: Assembly, cs: seq<string>, ts: seq<string>)
    requires |ts| == |cs| > 0
    ensures var n := |cs| - 1;
      var b := AfterFragments(a, cs[..n], ts[..n]);
      AfterFragments(a, cs, ts)
        == Assembly(DropLast(b.transcript) + [Message(System, b.reply + cs[n], ts[n])],
                    b.reply + cs[n], b.historyLoads)
  {
    var n := |cs| - 1;
    assert Concat(cs) == Concat(cs[..n]) + cs[n];
    if n == 0 {
      assert Concat(cs[..n]) == "";
      assert "" + cs[n] == cs[n];
    } else {
      var m := Message(System, a.reply + Concat(cs[..n]), ts[..n][n - 1]);
      assert DropLast(DropLast(a.transcript) + [m]) == DropLast(a.transcript);
      assert (a.reply + Concat(cs[..n])) + cs[n] == a.reply + (Concat(cs[..n]) + cs[n]);
    }
  }

  /** Fragment frames, one chunk each, do what their lines do: AfterFragments. */
  lemma {:induction false} FramesIntoClient(a: Assembly, cs: seq<string>, ts: seq<string>)
    requires |ts| == |cs|
    ensures ReadChunks(a, Frames(cs), ts) == AfterFragments(a, cs, ts)
    decreases |cs|, 1
  {
    if |cs| > 0 {
      LastFrameIntoClient(a, cs, ts);
    }
  }

  /** The induction step of FramesIntoClient: the last frame's chunk. */
  lemma {:induction false} LastFrameIntoClient(a: Assembly, cs: seq<string>, ts: seq<string>)
    requires |ts| == |cs| > 0
    ensures ReadChunks(a, Frames(cs), ts) == AfterFragments(a, cs, ts)
    decreases |cs|, 0
  {
    var n := |cs| - 1;
    var b := ReadChunks(a, Frames(cs[..n]), ts[..n]);
    var r := Assembly(DropLast(b.transcript) + [Message(System, b.reply + cs[n], ts[n])],
                      b.reply + cs[n], b.historyLoads);
    assert ReadChunks(a, Frames(cs), ts) == r by {
      assert ReadChunks(a, Frames(cs), ts) == StepLines(b, Split(Frame(cs[n]), '\n'), ts[n]) by {
        assert Frames(cs)[..n] == Frames(cs[..n]);
      }
      FrameChunkGrowsReply(b, cs[n], ts[n]);
    }
    assert AfterFragments(a, cs, ts) == r by {
      FramesIntoClient(a, cs[..n], ts[..n]);
      AfterOneMoreFragment(a, cs, ts);
    }
  }

  /** End to end, as written: the body the backend sends once it has saved the exchange
      (see ChatServer.WireOfGenerate: the fragment frames, then the closing frame), one frame
      per chunk. The client's accumulator ends as the backend's full reply and the reply takes
      the place of the user's message, but the closing frame is never recognised: no final
      message is appended and history is never reloaded. With no fragment at all the
      transcript keeps the user's message and no reply. */
  lemma AsWrittenEndToEnd(deltas: seq<Option<string>>, t: seq<Message>, u: Message, loads: nat,
                          ts: seq<string>)
    requires |ts| == |Emitted(deltas)| + 1
    ensures var cs := Emitted(deltas);
      var r := ReadChunks(Assembly(t + [u], "", loads), Frames(cs) + [DoneFrame], ts);
      && r.reply == Concat(cs)
      && r.historyLoads == loads
      && r.transcript == if |cs| == 0 then t + [u] else t + [Message(System, Concat(cs), ts[|cs| - 1])]
  {
    var cs := Emitted(deltas);
    var k := |cs|;
    var a := Assembly(t + [u], "", loads);
    var chunks := Frames(cs) + [DoneFrame];
    var b := ReadChunks(a, Frames(cs), ts[..k]);
    assert ReadChunks(a, chunks, ts) == b by {
      assert ReadChunks(a, chunks, ts) == StepLines(b, Split(DoneFrame, '\n'), ts[k]) by {
        assert chunks[..k] == Frames(cs);
      }
      DoneChunkInert(b, ts[k]);
    }
    assert b == AfterFragments(a, cs, ts[..k]) by {
      FramesIntoClient(a, cs, ts[..k]);
    }
    assert DropLast(t + [u]) == t;
    if k > 0 {
      assert ts[..k][k - 1] == ts[k - 1];
      assert "" + Concat(cs) == Concat(cs);
    }
  }

  /** What the backend saves for a request the frontend sent: the submitted text as the user
      message and the full reply as the system message, under the sender's client id. */
  lemma SavedRecordEchoesSubmission(input: string, clientId: string, id: string, reply: string,
                                    userTime: string, replyTime: string)
    ensures var req := ChatRequest([RequestMessage("user", input)], clientId);
      SaveConversation(id, req.clientId, req.messages, reply, userTime, replyTime)
        == Some(Conversation(id, clientId, [Message(User, input, userTime), Message(System, reply, replyTime)]))
  {
  }

  /** Once the record of an exchange is appended to the log, the sender's next history is the
      one before followed by that record. */
  lemma SavedExchangeInHistory(store: seq<Conversation>, record: Conversation, clientId: string)
    requires record.clientId == clientId
    ensures HistoryFor(store + [record], Some(clientId)) == HistoryFor(store, Some(clientId)) + [record]
  {
    HistoryForAppend(store, [record], Some(clientId));
    assert [record][..0] == [];
  }
}
