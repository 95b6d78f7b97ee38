/** engine/netconf_agent.py, serve_connection: what a client of the receive loop gets delivered. */
module SessionClients {
  import opened Text
  import opened Framing
  import opened Unframing
  import opened Session

  // ---------- what a well-behaved client gets delivered ----------

  /** The text contains no end-of-message marker and none arises where it meets its own. */
  predicate EomSafe(text: string) {
    !Contains(text, EOM) && !(|text| >= 3 && text[|text| - 3..] == "]]>")
  }

  /** A text followed by the marker is delimited correctly exactly when it is safe. */
  lemma EomDelimits(text: string, rest: string)
    ensures Find(text + EOM + rest, EOM) == Some(|text|) <==> EomSafe(text)
  {
    hide Text.FindFrom, At;
    var s := text + EOM + rest;
    var n := |text|;
    assert s == text + (EOM + rest);
    FindMeans(text, EOM, 0);
    FindMeans(s, EOM, 0);
    forall k: nat | k + 6 <= n ensures At(s, EOM, k) == At(text, EOM, k) {
      AtAppend(text, EOM + rest, EOM, k);
    }
    forall k: nat | k < n < k + 6 ensures At(s, EOM, k) <==> (k == n - 3 && text[n - 3..] == "]]>") {
      Overlap(text, rest, k);
    }
    assert At(s, EOM, n) by { MarkerStands(text, rest); }
    if EomSafe(text) {
      forall k: nat | k < n ensures !At(s, EOM, k) {
        assert k + 6 <= n ==> !At(text, EOM, k);
      }
      FindIs(s, EOM, 0, n);
    } else if Contains(text, EOM) {
      var k := Find(text, EOM).value;
      assert At(s, EOM, k);
    } else {
      assert At(s, EOM, n - 3);
    }
  }

  lemma MarkerStands(text: string, rest: string)
    ensures At(text + EOM + rest, EOM, |text|)
  {
    assert (text + EOM + rest)[|text|..|text| + 6] == EOM;
  }

  /** The marker overlaps itself only at distance 3. */
  lemma Overlap(text: string, rest: string, k: nat)
    requires k < |text| < k + 6
    ensures At(text + EOM + rest, EOM, k) <==> (k == |text| - 3 && text[|text| - 3..] == "]]>")
  {
    var s := text + EOM + rest;
    var n := |text|;
    assert s[n..n + 6] == EOM;
    assert s[n] == s[n..n + 6][0] && s[n + 1] == s[n..n + 6][1] && s[n + 2] == s[n..n + 6][2];
    assert n >= 3 ==> text[n - 3..] == [s[n - 3], s[n - 2], s[n - 1]];
    if k + 6 <= |s| {
      var w := s[k..k + 6];
      assert w[0] == s[k] && w[1] == s[k + 1] && w[2] == s[k + 2];
      assert w[3] == s[k + 3] && w[4] == s[k + 4] && w[5] == s[k + 5];
    }
  }

  function FrameAll(payloads: seq<string>): string {
    if payloads == [] then "" else FrameChunked(payloads[0]) + FrameAll(payloads[1..])
  }

  function EndAll(payloads: seq<string>): string {
    if payloads == [] then "" else payloads[0] + "]]>]]>" + EndAll(payloads[1..])
  }

  /** The payloads up to and including the first that asks to close the session. */
  function UpToClose(payloads: seq<string>): seq<string> {
    if payloads == [] then []
    else if Contains(payloads[0], "<close-session") then [payloads[0]]
    else [payloads[0]] + UpToClose(payloads[1..])
  }

  /** The session is closed if a payload asks for it, and reads on otherwise. */
  function EndsAs(payloads: seq<string>): End {
    if exists p :: p in payloads && Contains(p, "<close-session") then Closed else Open
  }

  lemma {:induction false} DrainFrames(c: Conversation, payloads: seq<string>)
    requires c.end.Open? && c.helloDone && c.chunked && c.buf == FrameAll(payloads)
    ensures var d := Drain(c, true);
      d.delivered == c.delivered + UpToClose(payloads) && d.end == EndsAs(payloads)
    decreases |payloads|
  {
    hide Unframed, Text.FindFrom, FrameChunked;
    if payloads == [] {
      EmptyWaits(c);
    } else {
      var p := payloads[0];
      var rest := FrameAll(payloads[1..]);
      FramedIsRead(p, rest, true);
      var c' := c.Deliver(p, rest);
      assert Drain(c, true) == Drain(c', true);
      if c'.end.Open? {
        DrainFrames(c', payloads[1..]);
        assert payloads == [p] + payloads[1..];
      }
    }
  }

  lemma EmptyIsIncomplete()
    ensures Unframed("", true) == Unframed("", false) == Incomplete && Find("", EOM) == None
  {}

  lemma EmptyWaits(c: Conversation)
    requires c.buf == ""
    ensures NextStep(c, true) == Wait
  {
    EmptyIsIncomplete();
  }

  lemma EndedStep(c: Conversation, p: string, rest: string)
    requires c.helloDone && !c.chunked && c.buf == p + EOM + rest && EomSafe(p)
    ensures NextStep(c, true) == Step.Deliver(p, rest)
  {
    hide Text.FindFrom, EomSafe;
    EomDelimits(p, rest);
    assert c.buf[..|p|] == p && c.buf[|p| + |EOM|..] == rest;
  }

  lemma {:induction false} DrainEnded(c: Conversation, payloads: seq<string>)
    requires c.end.Open? && c.helloDone && !c.chunked && c.buf == EndAll(payloads)
    requires forall p :: p in payloads ==> EomSafe(p)
    ensures var d := Drain(c, true);
      d.delivered == c.delivered + UpToClose(payloads) && d.end == EndsAs(payloads)
    decreases |payloads|
  {
    hide NextStep, Text.FindFrom, EomSafe;
    if payloads == [] {
      EmptyWaits(c);
    } else {
      var p := payloads[0];
      assert p in payloads;
      var rest := EndAll(payloads[1..]);
      EndedStep(c, p, rest);
      var c' := c.Deliver(p, rest);
      assert Drain(c, true) == Drain(c', true);
      if c'.end.Open? {
        DrainEnded(c', payloads[1..]);
        assert payloads == [p] + payloads[1..];
      }
    }
  }

  lemma HelloFirst(hello: string, rest: string, forward: bool)
    requires EomSafe(hello)
    ensures Drain(NEW.Append(hello + EOM + rest), forward) == Drain(NEW.TakeHello(hello, rest), forward)
  {
    hide Text.FindFrom, EomSafe;
    var c := NEW.Append(hello + EOM + rest);
    EomDelimits(hello, rest);
    assert c.buf == hello + EOM + rest;
    assert c.buf[..|hello|] == hello && c.buf[|hello| + |EOM|..] == rest;
    assert NextStep(c, forward) == Hello(hello, rest);
    assert c.TakeHello(hello, rest) == NEW.TakeHello(hello, rest);
  }

  /** A client that offers base:1.1 and frames its requests with frame_chunked gets exactly
      its requests delivered, up to its close-session, however the bytes are cut. */
  lemma ChunkedClientIsServed(hello: string, payloads: seq<string>, chunks: seq<string>)
    requires EomSafe(hello) && Contains(hello, "base:1.1")
    requires Concat(chunks) == hello + "]]>]]>" + FrameAll(payloads)
    ensures var c := Feed(NEW, chunks);
      c.delivered == UpToClose(payloads) && c.end == EndsAs(payloads)
  {
    hide Drain, EomSafe, FrameAll, UpToClose, Text.FindFrom;
    FeedIsDrain(chunks);
    HelloFirst(hello, FrameAll(payloads), true);
    DrainFrames(NEW.TakeHello(hello, FrameAll(payloads)), payloads);
  }

  /** The same for a client of base:1.0, whose requests end with the marker. */
  lemma PlainClientIsServed(hello: string, payloads: seq<string>, chunks: seq<string>)
    requires EomSafe(hello) && !Contains(hello, "base:1.1")
    requires forall p :: p in payloads ==> EomSafe(p)
    requires Concat(chunks) == hello + "]]>]]>" + EndAll(payloads)
    ensures var c := Feed(NEW, chunks);
      c.delivered == UpToClose(payloads) && c.end == EndsAs(payloads)
  {
    hide Drain, EomSafe, EndAll, UpToClose, Text.FindFrom;
    FeedIsDrain(chunks);
    HelloFirst(hello, EndAll(payloads), true);
    DrainEnded(NEW.TakeHello(hello, EndAll(payloads)), payloads);
  }

  // ---------- a client whose messages depend on the cuts ----------

  const GREETING := "base:1.1]]>]]>"

  lemma Greeted()
    ensures Drain(NEW.Append(GREETING), false) == NEW.TakeHello(BASE_1_1, "")
    ensures Contains(BASE_1_1, BASE_1_1)
  {
    hide Text.FindFrom, EomSafe, Unframed;
    assert At(BASE_1_1, BASE_1_1, 0);
    FindIs(BASE_1_1, BASE_1_1, 0, 0);
    NoBracketIsSafe(BASE_1_1);
    HelloFirst(BASE_1_1, "", false);
    assert GREETING == BASE_1_1 + EOM + "";
    EmptyIsIncomplete();
  }

  lemma NoBracketIsSafe(text: string)
    requires ']' !in text
    ensures EomSafe(text)
  {
    hide Text.FindFrom;
    FindMeans(text, EOM, 0);
    forall i: nat ensures !At(text, EOM, i) {
      assert i + |EOM| <= |text| ==> text[i..i + |EOM|][0] == text[i];
    }
    assert |text| >= 3 ==> text[|text| - 3..][0] == text[|text| - 3];
  }

  lemma NoTagNoClose(msg: string)
    requires '<' !in msg
    ensures !Contains(msg, CLOSE)
  {
    hide Text.FindFrom;
    FindMeans(msg, CLOSE, 0);
    forall i: nat ensures !At(msg, CLOSE, i) {
      assert i + |CLOSE| <= |msg| ==> msg[i..i + |CLOSE|][0] == msg[i];
    }
  }

  lemma OneMessage(c: Conversation, data: string, msg: string)
    requires c.end.Open? && c.helloDone && c.chunked && c.buf == ""
    requires Unframed(data, false) == Message(msg, "") && '<' !in msg
    ensures Drain(c.Append(data), false) == c.Deliver(msg, "") && c.Deliver(msg, "").end.Open?
  {
    hide Unframed, Text.FindFrom;
    NoTagNoClose(msg);
    EmptyIsIncomplete();
    assert c.Append(data).buf == data;
    assert c.Append(data).Deliver(msg, "") == c.Deliver(msg, "");
  }

  lemma SecondIsWorld()
    ensures Unframed(SECOND, false) == Message("WORLD", "")
  {
    hide Unframed;
    assert Dec(|"WORLD"|) == "5";
    assert SECOND == FrameChunked("WORLD") + "";
    FramedIsRead("WORLD", "", false);
  }

  const GREETED := NEW.TakeHello(BASE_1_1, "")

  lemma InTwo()
    ensures Feed(NEW, [GREETING, FIRST, SECOND]).delivered == ["HELLO", "WORLD"]
  {
    hide Unframed, Drain, Feed, FIRST, SECOND, GREETING, Contains;
    Greeted();
    LaterBytesChangeThis();
    SecondIsWorld();
    var c := GREETED.Deliver("HELLO", "");
    OneMessage(GREETED, FIRST, "HELLO");
    OneMessage(c, SECOND, "WORLD");
    FeedStep(NEW, GREETING, [FIRST, SECOND]);
    FeedStep(GREETED, FIRST, [SECOND]);
    FeedLast(c, SECOND);
    assert [GREETING] + [FIRST, SECOND] == [GREETING, FIRST, SECOND];
    assert [FIRST] + [SECOND] == [FIRST, SECOND];
  }

  lemma AtOnce()
    ensures Feed(NEW, [GREETING, FIRST + SECOND]).delivered == ["HELLO\n##\n\n#5\nWORLD"]
  {
    hide Unframed, Drain, Feed, FIRST, SECOND, GREETING, Contains;
    Greeted();
    LaterBytesChangeThis();
    OneMessage(GREETED, FIRST + SECOND, "HELLO\n##\n\n#5\nWORLD");
    FeedStep(NEW, GREETING, [FIRST + SECOND]);
    FeedLast(GREETED, FIRST + SECOND);
    assert [GREETING] + [FIRST + SECOND] == [GREETING, FIRST + SECOND];
  }

  /** Two messages, the first in a chunk of negative size: received one after the other they are
      delivered as such, received at once they are one message. */
  lemma CutsMatterHere()
    ensures Feed(NEW, [GREETING, FIRST, SECOND]).delivered == ["HELLO", "WORLD"]
    ensures Feed(NEW, [GREETING, FIRST + SECOND]).delivered == ["HELLO\n##\n\n#5\nWORLD"]
  {
    InTwo();
    AtOnce();
  }
}
