/** A reply assembler that does what the frontend evidently means to do. It differs from
    ChatClient in three places:
    - after `data:` it drops one optional space, as a server-sent event field value does
      (WHATWG HTML Living Standard, section 9.2, "Server-sent events");
    - the first fragment of a reply is appended behind the user's message instead of
      replacing it;
    - the sentinel settles the streamed reply in place instead of appending a second copy.
    It is proved to turn the backend's response body into the exchange the backend saves:
    the user's message followed by the full reply, once. */
module CorrectedClient {
  import opened Wrappers
  import opened Text
  import opened JsonContent
  import opened ChatTypes
  import ChatClient
  import opened ChatServer

  /** The field value of a `data:` line: the rest of the line, less one leading space. */
  function Payload(line: string): (p: string)
    requires ChatClient.DataPrefix <= line
    ensures line[5..] == " " + p || (line[5..] == p && (|p| == 0 || p[0] != ' '))
  {
    var v := line[|ChatClient.DataPrefix|..];
    if |v| > 0 && v[0] == ' ' then v[1..] else v
  }

  /** The client's reading of one line, on the field value rather than the raw remainder. */
  function Classify(line: string): ChatClient.LineEvent
  {
    if !(ChatClient.DataPrefix <= line) then ChatClient.NotData
    else
      var payload := Payload(line);
      if payload == ChatClient.DoneMarker then ChatClient.Done
      else match ParseContent(payload)
        case Some(c) => ChatClient.Fragment(c)
        case None => ChatClient.Malformed
  }

  /** The assembler's state: the transcript, the accumulator, the history reloads started,
      and whether the transcript's last entry is the reply still being streamed. */
  datatype Reply = Reply(transcript: seq<Message>, reply: string, historyLoads: nat, streaming: bool)

  /** The transcript without the reply in progress: the entries no later line may touch. */
  function Settled(r: Reply): seq<Message>
  {
    if r.streaming then ChatClient.DropLast(r.transcript) else r.transcript
  }

  /** One line: a fragment shows the grown reply behind the settled entries; the sentinel
      settles the reply there and reloads history; everything else changes nothing. */
  function Step(r: Reply, line: string, now: string): Reply
  {
    match Classify(line)
    case NotData => r
    case Malformed => r
    case Done =>
      Reply(Settled(r) + [Message(System, r.reply, now)], r.reply, r.historyLoads + 1, false)
    case Fragment(c) =>
      Reply(Settled(r) + [Message(System, r.reply + c, now)], r.reply + c, r.historyLoads, true)
  }

  /** The lines of one chunk, in order. */
  function StepLines(r: Reply, lines: seq<string>, now: string): Reply
  {
    if |lines| == 0 then r
    else Step(StepLines(r, lines[..|lines| - 1], now), lines[|lines| - 1], now)
  }

  /** A whole response body, chunk by chunk, `times[i]` being the clock reading for chunk `i`. */
  function ReadChunks(r: Reply, chunks: seq<string>, times: seq<string>): Reply
    requires |times| == |chunks|
  {
    if |chunks| == 0 then r
    else
      var n := |chunks| - 1;
      StepLines(ReadChunks(r, chunks[..n], times[..n]), Split(chunks[n], '\n'), times[n])
  }

  /** A fragment frame's line is read as the content it carries. */
  lemma FrameLineRecognised(c: string)
    ensures Classify(FrameLine(c)) == ChatClient.Fragment(c)
  {
    var line := FrameLine(c);
    assert Payload(line) == EncodeContent(c) by {
      assert line[5..] == " " + EncodeContent(c);
    }
    assert EncodeContent(c)[0] != ChatClient.DoneMarker[0];
    ParseEncodedContent("", c);
    assert "" + EncodeContent(c) == EncodeContent(c);
  }

  /** The closing frame's line is read as the sentinel. */
  lemma DoneLineRecognised()
    ensures Classify("data: [DONE]") == ChatClient.Done
  {
    var done := "data: [DONE]";
    assert ChatClient.DataPrefix <= done;
    assert done[5..] == " " + ChatClient.DoneMarker;
  }

  /** Settled entries stay settled: no line removes or changes one. */
  lemma StepKeepsSettled(r: Reply, line: string, now: string)
    ensures Settled(r) <= Settled(Step(r, line, now))
  {
    match Classify(line)
    case Done =>
      assert Settled(r) <= Settled(r) + [Message(System, r.reply, now)];
    case Fragment(c) =>
      var t := Settled(r) + [Message(System, r.reply + c, now)];
      assert ChatClient.DropLast(t) == Settled(r);
    case _ =>
  }

  /** Whatever the lines, every settled entry, the user's own message included, is still in
      place afterwards, and the settled entries are always a prefix of the transcript. */
  lemma {:induction false} SettledKept(r: Reply, lines: seq<string>, now: string)
    ensures Settled(r) <= Settled(StepLines(r, lines, now))
    ensures Settled(StepLines(r, lines, now)) <= StepLines(r, lines, now).transcript
    decreases |lines|
  {
    var s := StepLines(r, lines, now);
    if |lines| > 0 {
      var n := |lines| - 1;
      var b := StepLines(r, lines[..n], now);
      SettledKept(r, lines[..n], now);
      StepKeepsSettled(b, lines[n], now);
    }
    if s.streaming && |s.transcript| > 0 {
      assert ChatClient.DropLast(s.transcript) == s.transcript[..|s.transcript| - 1];
    }
  }

  /** Right after a submit the transcript ends in the user's message and nothing is
      streaming; the first fragment is shown behind that message. */
  lemma FirstFragmentKeepsUserMessage(t: seq<Message>, u: Message, n: nat, c: string, now: string)
    ensures Step(Reply(t + [u], "", n, false), FrameLine(c), now)
         == Reply(t + [u, Message(System, c, now)], c, n, true)
  {
    FrameLineRecognised(c);
    assert "" + c == c;
    assert t + [u] + [Message(System, c, now)] == t + [u, Message(System, c, now)];
  }

  // LineThenBlanks through LastFrameRead state over Reply what ChatClient.LineThenBlanks and
  // Wire.FrameChunk through Wire.LastFrameIntoClient state over ChatClient.Assembly. The two
  // state types differ (Reply keeps the streaming flag and settles entries instead of dropping
  // the last one), so each statement is given once per assembler.

  /** A line followed by two empty lines, as a frame splits, acts as the line alone. */
  lemma LineThenBlanks(r: Reply, line: string, now: string)
    ensures StepLines(r, [line, "", ""], now) == Step(r, line, now)
  {
    var lines := [line, "", ""];
    assert lines[..2] == [line, ""];
    assert [line, ""][..1] == [line];
    assert [line][..0] == [];
    var b := Step(r, line, now);
    assert StepLines(r, [line], now) == b;
    assert !(ChatClient.DataPrefix <= "");
    assert StepLines(r, [line, ""], now) == b;
  }

  /** What a run of fragment frames with contents `cs`, the i-th read at `ts[i]`, leaves
      behind: the grown reply streaming behind the settled entries. */
  function AfterFragments(r: Reply, cs: seq<string>, ts: seq<string>): Reply
    requires |ts| == |cs|
  {
    if |cs| == 0 then r
    else Reply(Settled(r) + [Message(System, r.reply + Concat(cs), ts[|cs| - 1])],
               r.reply + Concat(cs), r.historyLoads, true)
  }

  /** One more fragment extends AfterFragments by that fragment. */
  lemma AfterOneMoreFragment(r: Reply, cs: seq<string>, ts: seq<string>)
    requires |ts| == |cs| > 0
    ensures var n := |cs| - 1;
      var b := AfterFragments(r, cs[..n], ts[..n]);
      AfterFragments(r, cs, ts)
        == Reply(Settled(b) + [Message(System, b.reply + cs[n], ts[n])], b.reply + cs[n], b.historyLoads, true)
  {
    var n := |cs| - 1;
    assert Concat(cs) == Concat(cs[..n]) + cs[n];
    if n == 0 {
      assert Concat(cs[..n]) == "";
      assert "" + cs[n] == cs[n];
    } else {
      var m := Message(System, r.reply + Concat(cs[..n]), ts[..n][n - 1]);
      assert ChatClient.DropLast(Settled(r) + [m]) == Settled(r);
      assert (r.reply + Concat(cs[..n])) + cs[n] == r.reply + (Concat(cs[..n]) + cs[n]);
    }
  }

  /** A chunk holding one fragment frame acts as that fragment's line. */
  lemma FrameChunk(r: Reply, c: string, now: string)
    ensures StepLines(r, Split(Frame(c), '\n'), now)
         == Reply(Settled(r) + [Message(System, r.reply + c, now)], r.reply + c, r.historyLoads, true)
  {
    LineThenBlanks(r, FrameLine(c), now);
    FrameLineRecognised(c);
  }

  /** A chunk holding the closing frame settles the reply behind the settled entries and
      starts one history reload. */
  lemma DoneChunkSettles(r: Reply, now: string)
    ensures StepLines(r, Split(DoneFrame, '\n'), now)
         == Reply(Settled(r) + [Message(System, r.reply, now)], r.reply, r.historyLoads + 1, false)
  {
    DoneFrameSplit();
    LineThenBlanks(r, "data: [DONE]", now);
    DoneLineRecognised();
  }

  /** Fragment frames, one chunk each, do what AfterFragments says. */
  lemma {:induction false} FramesRead(r: Reply, cs: seq<string>, ts: seq<string>)
    requires |ts| == |cs|
    ensures ReadChunks(r, Frames(cs), ts) == AfterFragments(r, cs, ts)
    decreases |cs|, 1
  {
    if |cs| > 0 {
      LastFrameRead(r, cs, ts);
    }
  }

  /** The induction step of FramesRead: the last frame's chunk. */
  lemma {:induction false} LastFrameRead(r: Reply, cs: seq<string>, ts: seq<string>)
    requires |ts| == |cs| > 0
    ensures ReadChunks(r, Frames(cs), ts) == AfterFragments(r, cs, ts)
    decreases |cs|, 0
  {
    var n := |cs| - 1;
    var b := ReadChunks(r, Frames(cs[..n]), ts[..n]);
    var e := Reply(Settled(b) + [Message(System, b.reply + cs[n], ts[n])], b.reply + cs[n], b.historyLoads, true);
    assert ReadChunks(r, Frames(cs), ts) == e by {
      assert ReadChunks(r, Frames(cs), ts) == StepLines(b, Split(Frame(cs[n]), '\n'), ts[n]) by {
        assert Frames(cs)[..n] == Frames(cs[..n]);
      }
      FrameChunk(b, cs[n], ts[n]);
    }
    assert AfterFragments(r, cs, ts) == e by {
      FramesRead(r, cs[..n], ts[..n]);
      AfterOneMoreFragment(r, cs, ts);
    }
  }

  /** End to end: the body the backend sends (ChatServer.WireOfGenerate: one fragment frame
      per emitted content, then the closing frame), one frame per chunk, leaves the transcript
      followed by exactly one system message carrying the backend's full reply, the text
      Generate saves, with one history reload started and nothing streaming. */
  lemma CorrectedEndToEnd(deltas: seq<Option<string>>, t: seq<Message>, loads: nat, ts: seq<string>)
    requires |ts| == |Emitted(deltas)| + 1
    ensures var cs := Emitted(deltas);
      ReadChunks(Reply(t, "", loads, false), Frames(cs) + [DoneFrame], ts)
        == Reply(t + [Message(System, Concat(cs), ts[|cs|])], Concat(cs), loads + 1, false)
  {
    var cs := Emitted(deltas);
    var k := |cs|;
    var a := Reply(t, "", loads, false);
    var chunks := Frames(cs) + [DoneFrame];
    var b := ReadChunks(a, Frames(cs), ts[..k]);
    assert ReadChunks(a, chunks, ts)
        == Reply(Settled(b) + [Message(System, b.reply, ts[k])], b.reply, b.historyLoads + 1, false) by {
      assert ReadChunks(a, chunks, ts) == StepLines(b, Split(DoneFrame, '\n'), ts[k]) by {
        assert chunks[..k] == Frames(cs);
      }
      DoneChunkSettles(b, ts[k]);
    }
    assert b == AfterFragments(a, cs, ts[..k]) by {
      FramesRead(a, cs, ts[..k]);
    }
    assert Settled(b) == t && b.reply == Concat(cs) && b.historyLoads == loads by {
      if k > 0 {
        assert "" + Concat(cs) == Concat(cs);
        assert ChatClient.DropLast(t + [Message(System, Concat(cs), ts[..k][k - 1])]) == t;
      }
    }
  }

  /** Two runs of messages agree in who said what, timestamps aside. */
  predicate SameExchange(shown: seq<Message>, saved: seq<Message>)
  {
    |shown| == |saved|
    && forall i | 0 <= i < |shown| :: shown[i].speaker == saved[i].speaker && shown[i].text == saved[i].text
  }

  /** After a submit of `input`, with the backend's body read one frame per chunk, the
      transcript ends in exactly the exchange the backend saves for that request: the user's
      message and the full reply, in that order, once. */
  lemma CorrectedExchangeSaved(deltas: seq<Option<string>>, t: seq<Message>, input: string,
                               sent: string, loads: nat, ts: seq<string>, id: string,
                               clientId: string, userTime: string, replyTime: string)
    requires |ts| == |Emitted(deltas)| + 1
    ensures var cs := Emitted(deltas);
      var shown := ReadChunks(Reply(t + [Message(User, input, sent)], "", loads, false),
                              Frames(cs) + [DoneFrame], ts).transcript;
      var saved := SaveConversation(id, clientId, [RequestMessage("user", input)], Concat(cs),
                                    userTime, replyTime);
      && saved.Some? && |shown| == |t| + 2 && shown[..|t|] == t
      && SameExchange(shown[|t|..], saved.value.messages)
  {
    var cs := Emitted(deltas);
    var u := Message(User, input, sent);
    var shown := ReadChunks(Reply(t + [u], "", loads, false), Frames(cs) + [DoneFrame], ts).transcript;
    CorrectedEndToEnd(deltas, t + [u], loads, ts);
    SavedPairShown(shown, t, u, Message(System, Concat(cs), ts[|cs|]), input, Concat(cs),
                   id, clientId, userTime, replyTime);
  }

  /** The saved record of a request with one user message is that message and the reply,
      alike in speaker and text to a transcript ending in the two. */
  lemma SavedPairShown(shown: seq<Message>, t: seq<Message>, u: Message, m: Message, input: string,
                       reply: string, id: string, clientId: string, userTime: string, replyTime: string)
    requires shown == t + [u] + [m]
    requires u.speaker == User && u.text == input && m.speaker == System && m.text == reply
    ensures var saved := SaveConversation(id, clientId, [RequestMessage("user", input)], reply, userTime, replyTime);
      && saved.Some? && |shown| == |t| + 2 && shown[..|t|] == t
      && SameExchange(shown[|t|..], saved.value.messages)
  {
    assert shown[..|t|] == t;
    assert shown[|t|..] == [u, m];
  }
}
