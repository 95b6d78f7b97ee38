/** engine/netconf_agent.py, serve_connection: the receive loop of one NETCONF session.
    What is modelled is which messages reach handle_rpc, in which order, and when the session ends. */
module Session {
  import opened Text
  import opened Framing
  import opened Unframing

  const EOM := "]]>]]>"
  const BASE_1_1 := "base:1.1"
  const CLOSE := "<close-session"

  /** How a session stands: it reads on, it was closed by its client, or unframe_chunked never
      returned. Backwards: only in a forward reading (see Unframing.Back). */
  datatype End = Open | Closed | Hung | Backwards

  /** The loop's local variables, the messages handed to handle_rpc so far, and how it stands. */
  datatype Conversation = Conversation(buf: string, helloDone: bool, chunked: bool, delivered: seq<string>, end: End)
  {
    function Append(data: string): Conversation { this.(buf := buf + data) }

    /** The client's hello: it decides the framing of everything after it. */
    function TakeHello(hello: string, rest: string): Conversation {
      this.(buf := rest, helloDone := true, chunked := Contains(hello, BASE_1_1))
    }

    function Deliver(msg: string, rest: string): Conversation {
      this.(buf := rest, delivered := delivered + [msg], end := if Contains(msg, CLOSE) then Closed else Open)
    }
  }

  const NEW := Conversation("", false, false, [], Open)

  /** The next thing the inner loop can take out of the buffer, if any. */
  datatype Step = Wait | Hello(hello: string, rest: string) | Deliver(msg: string, rest: string) | Stop(end: End)

  function NextStep(c: Conversation, forward: bool): (s: Step)
    ensures s.Hello? || s.Deliver? ==> |s.rest| < |c.buf|
    ensures s.Hello? ==> !c.helloDone
    ensures s.Stop? ==> s.end == Hung || (forward && s.end == Backwards)
  {
    if c.helloDone && c.chunked then ChunkedStep(c.buf, forward) else MarkedStep(c.buf, c.helloDone)
  }

  function ChunkedStep(buf: string, forward: bool): (s: Step)
    ensures s.Deliver? ==> |s.rest| < |buf|
    ensures s.Stop? ==> s.end == Hung || (forward && s.end == Backwards)
  {
    match Unframed(buf, forward)
    case Message(msg, rest) => Deliver(msg, rest)
    case Forever => Stop(Hung)
    case WentBack => Stop(Backwards)
    case _ => Wait
  }

  function MarkedStep(buf: string, helloDone: bool): (s: Step)
    ensures s.Hello? || s.Deliver? ==> |s.rest| < |buf|
  {
    match Find(buf, EOM)
    case None => Wait
    case Some(i) =>
      var text, rest := buf[..i], buf[i + |EOM|..];
      if helloDone then Deliver(text, rest) else Hello(text, rest)
  }

  /** Everything the inner loop takes out of the buffer before it waits for more bytes. */
  function Drain(c: Conversation, forward: bool): (c': Conversation)
    ensures |c'.buf| <= |c.buf|
    decreases |c.buf|
  {
    if !c.end.Open? then c
    else
      match NextStep(c, forward)
      case Wait => c
      case Stop(end) => c.(end := end)
      case Hello(hello, rest) => Drain(c.TakeHello(hello, rest), forward)
      case Deliver(msg, rest) => Drain(c.Deliver(msg, rest), forward)
  }

  lemma DrainStep(c: Conversation)
    ensures var s := NextStep(c, false);
      Drain(c, false) ==
        if !c.end.Open? || s.Wait? then c
        else if s.Stop? then c.(end := s.end)
        else Drain(if s.Hello? then c.TakeHello(s.hello, s.rest) else c.Deliver(s.msg, s.rest), false)
  {
    hide NextStep;
  }

  /** The session after each recv() result in turn; an ended session reads no more. */
  function Feed(c: Conversation, chunks: seq<string>): Conversation
    decreases |chunks|
  {
    if chunks == [] || !c.end.Open? then c
    else Feed(Drain(c.Append(chunks[0]), false), chunks[1..])
  }

  lemma FeedStep(c: Conversation, data: string, more: seq<string>)
    requires c.end.Open?
    ensures Feed(c, [data] + more) == Feed(Drain(c.Append(data), false), more)
  {
    hide Drain;
    assert ([data] + more)[1..] == more;
  }

  lemma FeedOver(c: Conversation, chunks: seq<string>)
    ensures chunks == [] || !c.end.Open? ==> Feed(c, chunks) == c
  {
    hide Drain;
  }

  class NetconfSession {
    var buf: string
    var helloDone: bool
    var chunked: bool
    var delivered: seq<string>
    var closed: bool

    ghost function State(): Conversation
      reads this
    {
      Conversation(buf, helloDone, chunked, delivered, if closed then Closed else Open)
    }

    constructor ()
      ensures State() == NEW
    {
      buf, helloDone, chunked, delivered, closed := "", false, false, [], false;
    }

    /** The body of the outer loop: one recv() result, then the inner loop, unless that never ends. */
    method Receive(data: string)
      requires State().end.Open? && Drain(State().Append(data), false).end != Hung
      modifies this
      ensures State() == Drain(old(State()).Append(data), false)
    {
      hide Unframed, Text.FindFrom, Contains, Drain;
      buf := buf + data;
      ghost var start := State();
      while !closed
        invariant Drain(State(), false) == Drain(start, false)
        decreases |buf|, !closed
      {
        DrainStep(State());
        if !helloDone || !chunked {
          var idx := Find(buf, EOM);
          if idx.None? { return; }
          var text := buf[..idx.value];
          buf := buf[idx.value + |EOM|..];
          if !helloDone {
            helloDone := true;
            chunked := Contains(text, BASE_1_1);
          } else {
            delivered := delivered + [text];
            closed := Contains(text, CLOSE);
          }
        } else {
          var r := Unframe(buf);
          if !r.Message? { return; }
          buf := r.rest;
          delivered := delivered + [r.text];
          closed := Contains(r.text, CLOSE);
        }
      }
      DrainStep(State());
    }

    /** The outer loop, given the successive non-empty results of recv(). */
    method Serve(chunks: seq<string>)
      requires State().end.Open? && Feed(State(), chunks).end != Hung
      modifies this
      ensures State() == Feed(old(State()), chunks)
    {
      hide Drain, Feed;
      var i := 0;
      assert chunks[0..] == chunks;
      while i < |chunks| && !closed
        invariant 0 <= i <= |chunks|
        invariant Feed(State(), chunks[i..]) == Feed(old(State()), chunks)
      {
        assert [chunks[i]] + chunks[i + 1..] == chunks[i..];
        FeedStep(State(), chunks[i], chunks[i + 1..]);
        FeedOver(Drain(State().Append(chunks[i]), false), chunks[i + 1..]);
        Receive(chunks[i]);
        i := i + 1;
      }
      FeedOver(State(), chunks[i..]);
    }
  }

  // ---------- one recv() more or less ----------

  lemma StepForward(c: Conversation)
    requires NextStep(c, true) != Stop(Backwards)
    ensures NextStep(c, false) == NextStep(c, true)
  {
    hide Text.FindFrom, Go;
    if c.helloDone && c.chunked { ForwardIsTheLoop(c.buf, 0, "", 2 * |c.buf| + 2); }
  }

  /** A forward reading goes back, where the loop does not just wait for more bytes. */
  predicate CutMatters(c: Conversation) {
    var d := Drain(c, true);
    d.end.Backwards? && !Unframed(d.buf, false).Incomplete?
  }

  lemma StepStableForward(c: Conversation, x: string)
    requires NextStep(c, true) != Wait
    ensures var s := NextStep(c, true);
      NextStep(c.Append(x), true) ==
        if s.Hello? then Hello(s.hello, s.rest + x)
        else if s.Deliver? then Deliver(s.msg, s.rest + x)
        else s
  {
    hide Unframed, Text.FindFrom;
    if c.helloDone && c.chunked {
      ForwardStable(c.buf, x);
    } else {
      FindStable(c.buf, x, EOM, 0);
      var i := Find(c.buf, EOM).value;
      assert (c.buf + x)[..i] == c.buf[..i];
      assert (c.buf + x)[i + |EOM|..] == c.buf[i + |EOM|..] + x;
    }
  }

  lemma StepStable(c: Conversation, x: string, forward: bool)
    requires c.end.Open? && NextStep(c, forward) != Wait && (forward || !CutMatters(c))
    ensures var s := NextStep(c, forward);
      NextStep(c.Append(x), forward) ==
        if s.Hello? then Hello(s.hello, s.rest + x)
        else if s.Deliver? then Deliver(s.msg, s.rest + x)
        else s
  {
    hide Unframed, Text.FindFrom;
    if !forward {
      StepForward(c);
      StepStableForward(c, x);
      StepForward(c.Append(x));
    } else {
      StepStableForward(c, x);
    }
  }

  /** The session as an observer sees it once it is over: unread bytes no longer matter. */
  predicate Same(a: Conversation, b: Conversation) {
    if a.end.Open? then a == b else a.(buf := "") == b.(buf := "")
  }

  /** Draining before more bytes arrive loses nothing. */
  lemma {:induction false} DrainAppend(c: Conversation, x: string, forward: bool)
    requires forward || !CutMatters(c)
    ensures var d := Drain(c, forward);
      if d.end.Open? then Drain(c.Append(x), forward) == Drain(d.Append(x), forward)
      else Same(d, Drain(c.Append(x), forward))
    decreases |c.buf|
  {
    hide NextStep;
    if c.end.Open? && NextStep(c, forward) != Wait {
      StepStable(c, x, forward);
      if !forward { SameNext(c); }
      match NextStep(c, forward)
      case Hello(h, rest) =>
        assert c.Append(x).TakeHello(h, rest + x) == c.TakeHello(h, rest).Append(x);
        DrainAppend(c.TakeHello(h, rest), x, forward);
      case Deliver(m, rest) =>
        assert c.Append(x).Deliver(m, rest + x) == c.Deliver(m, rest).Append(x);
        DrainAppend(c.Deliver(m, rest), x, forward);
      case Stop(_) =>
    }
  }

  lemma SameNext(c: Conversation)
    requires c.end.Open? && NextStep(c, false) != Wait && !CutMatters(c)
    ensures NextStep(c, true) == NextStep(c, false)
  {
    hide Unframed, Text.FindFrom;
    StepForward(c);
  }

  lemma {:induction false} DrainForward(c: Conversation)
    requires c.end.Open?
    ensures var f, d := Drain(c, true), Drain(c, false);
      (f.end.Backwards? || d == f) && f.delivered <= d.delivered
      && (CutMatters(c) ==> f.delivered < d.delivered || d.end.Hung?)
    decreases |c.buf|
  {
    hide Unframed, Text.FindFrom;
    if NextStep(c, true) == Stop(Backwards) {
      DrainGrows(c, false);
    } else {
      StepForward(c);
      match NextStep(c, true)
      case Hello(h, rest) => DrainForward(c.TakeHello(h, rest));
      case Deliver(m, rest) => if c.Deliver(m, rest).end.Open? { DrainForward(c.Deliver(m, rest)); }
      case _ =>
    }
  }

  lemma {:induction false} DrainGrows(c: Conversation, forward: bool)
    ensures c.delivered <= Drain(c, forward).delivered
    ensures c.end.Open? && NextStep(c, forward).Deliver? ==> c.delivered < Drain(c, forward).delivered
    decreases |c.buf|
  {
    hide NextStep;
    if c.end.Open? {
      match NextStep(c, forward)
      case Hello(h, rest) => DrainGrows(c.TakeHello(h, rest), forward);
      case Deliver(m, rest) => DrainGrows(c.Deliver(m, rest), forward);
      case _ =>
    }
  }

  // ---------- streaming equals batch ----------

  function Concat(chunks: seq<string>): string {
    if chunks == [] then "" else chunks[0] + Concat(chunks[1..])
  }

  lemma {:induction false} ConcatSnoc(chunks: seq<string>, x: string)
    ensures Concat(chunks + [x]) == Concat(chunks) + x
    decreases |chunks|
  {
    if chunks == [] {
      assert [x][1..] == [];
    } else {
      assert (chunks + [x])[1..] == chunks[1..] + [x];
      ConcatSnoc(chunks[1..], x);
    }
  }

  lemma {:induction false} FeedSnoc(c: Conversation, chunks: seq<string>, x: string)
    ensures var d := Feed(c, chunks);
      Feed(c, chunks + [x]) == if d.end.Open? then Drain(d.Append(x), false) else d
    decreases |chunks|
  {
    hide Drain;
    if chunks == [] {
      assert chunks + [x] == [x] && [x][1..] == [];
    } else {
      assert (chunks + [x])[1..] == chunks[1..] + [x];
      if c.end.Open? { FeedSnoc(Drain(c.Append(chunks[0]), false), chunks[1..], x); }
    }
  }

  /** Every cut delivers what a forward reading of the whole stream delivers; it delivers nothing
      else and ends like it, unless that reading goes back. */
  lemma {:induction false} FeedIsDrain(chunks: seq<string>)
    ensures var f, d := Feed(NEW, chunks), Drain(NEW.Append(Concat(chunks)), true);
      if d.end.Backwards? then d.delivered <= f.delivered else Same(f, d)
    decreases |chunks|
  {
    hide NextStep;
    if chunks == [] {
      NewWaits();
    } else {
      var init, x := chunks[..|chunks| - 1], chunks[|chunks| - 1];
      assert init + [x] == chunks;
      FeedIsDrain(init);
      FeedSnoc(NEW, init, x);
      ConcatSnoc(init, x);
      var c := NEW.Append(Concat(init));
      assert NEW.Append(Concat(chunks)) == c.Append(x);
      DrainAppend(c, x, true);
      var f := Feed(NEW, init);
      if f.end.Open? {
        DrainGrows(f.Append(x), false);
        DrainForward(f.Append(x));
      }
    }
  }

  lemma NewWaits()
    ensures NextStep(NEW, true) == NextStep(NEW, false) == Wait
  {}

  /** However TCP cuts a client's byte stream into recv() results, handle_rpc gets the same messages
      in the same order and the session ends in the same way, as long as no chunk size takes
      unframe_chunked to before the start of its buffer. The messages before that are the same for
      every cut in any case. */
  lemma StreamingEqualsBatch(chunks: seq<string>, chunks': seq<string>)
    requires Concat(chunks) == Concat(chunks')
    ensures var d := Drain(NEW.Append(Concat(chunks)), true);
      if d.end.Backwards? then d.delivered <= Feed(NEW, chunks).delivered && d.delivered <= Feed(NEW, chunks').delivered
      else Same(Feed(NEW, chunks), Feed(NEW, chunks'))
  {
    FeedIsDrain(chunks);
    FeedIsDrain(chunks');
  }

  // ---------- exactly when cuts never matter ----------

  /** These cuts of a stream, and whatever is sent after it, give what one recv() would give. */
  ghost predicate CutsAgree(chunks: seq<string>, x: string) {
    Same(Feed(NEW, chunks + [x]), Feed(NEW, [Concat(chunks) + x]))
  }

  lemma {:induction false} NoCutMatters(chunks: seq<string>)
    requires forall k :: 0 <= k <= |Concat(chunks)| ==> !CutMatters(NEW.Append(Concat(chunks)[..k]))
    ensures Same(Feed(NEW, chunks), Drain(NEW.Append(Concat(chunks)), false))
    decreases |chunks|
  {
    hide NextStep, CutMatters, Feed;
    if chunks == [] {
      NewWaits();
      FeedOver(NEW, chunks);
      assert NEW.Append("") == NEW;
    } else {
      var init, x := chunks[..|chunks| - 1], chunks[|chunks| - 1];
      assert init + [x] == chunks;
      ConcatSnoc(init, x);
      var a := Concat(init);
      assert forall k :: 0 <= k <= |a| ==> (a + x)[..k] == a[..k];
      NoCutMatters(init);
      FeedSnoc(NEW, init, x);
      assert a[..|a|] == a;
      DrainAppend(NEW.Append(a), x, false);
      assert NEW.Append(a + x) == NEW.Append(a).Append(x);
    }
  }

  /** Where a forward reading goes back, enough other bytes after any further ones leave the loop
      waiting with the messages of that reading. */
  lemma {:induction false} BackWaits(c: Conversation, y: string) returns (x: string)
    requires c.end.Open? && Drain(c, true).end.Backwards?
    ensures x != ""
    ensures var d := Drain(c.Append(y + x), false); d.end.Open? && d.delivered == Drain(c, true).delivered
    decreases |c.buf|
  {
    hide Unframed, Text.FindFrom;
    StepStableForward(c, y);
    match NextStep(c, true)
    case Stop(_) =>
      x := BackLeavesWaiting(c.buf + y);
      assert c.buf + (y + x) == (c.buf + y) + x;
    case Hello(h, rest) =>
      x := BackWaits(c.TakeHello(h, rest), y);
      StepStableForward(c, y + x);
      StepForward(c.Append(y + x));
      assert c.Append(y + x).TakeHello(h, rest + (y + x)) == c.TakeHello(h, rest).Append(y + x);
    case Deliver(m, rest) =>
      x := BackWaits(c.Deliver(m, rest), y);
      StepStableForward(c, y + x);
      StepForward(c.Append(y + x));
      assert c.Append(y + x).Deliver(m, rest + (y + x)) == c.Deliver(m, rest).Append(y + x);
  }

  lemma BackLeavesWaiting(buf: string) returns (x: string)
    requires Unframed(buf, true) == WentBack
    ensures x != "" && Unframed(buf + x, false) == Incomplete
  {
    hide Go;
    x := BackIsUnstable(buf, 0, "", 2 * |buf| + 2);
  }

  lemma {:induction false} FeedGrows(c: Conversation, chunks: seq<string>)
    ensures c.delivered <= Feed(c, chunks).delivered
    ensures !c.end.Open? ==> Feed(c, chunks) == c
    decreases |chunks|
  {
    hide Drain;
    if chunks != [] && c.end.Open? {
      DrainGrows(c.Append(chunks[0]), false);
      FeedGrows(Drain(c.Append(chunks[0]), false), chunks[1..]);
    }
  }

  lemma ConcatTwo(a: string, b: string)
    ensures Concat([a, b]) == a + b && Concat([a]) == a
  {
    assert [a, b][1..] == [b] && [b][1..] == [];
    assert Concat([b]) == b + "" == b;
    assert Concat([a]) == a + "" == a;
  }

  lemma FeedLast(c: Conversation, data: string)
    requires c.end.Open?
    ensures Feed(c, [data]) == Drain(c.Append(data), false)
  {
    hide Drain;
    assert [data][1..] == [];
  }

  /** A cut where the forward reading has just gone back is seen by the client. */
  lemma CutIsSeen(p: string, y: string) returns (chunks: seq<string>, x: string)
    requires CutMatters(NEW.Append(p))
    ensures Concat(chunks) == p + y && "" !in chunks + [x] && !CutsAgree(chunks, x)
  {
    hide Drain, Unframed, Feed, CutMatters, Concat;
    var c := NEW.Append(p);
    x := BackWaits(c, y) by { BackIfCutMatters(c); }
    NothingSent();
    assert p == "" ==> c == NEW;
    chunks := if y == "" then [p] else [p, y];
    ConcatTwo(p, y);
    ghost var more := if y == "" then [x] else [y, x];
    DrainForward(c);
    FeedGrows(Drain(c, false), more);
    FeedStep(NEW, p, more);
    assert [p] + more == chunks + [x];
    FeedLast(NEW, p + y + x);
    assert NEW.Append(p + y + x) == c.Append(y + x);
  }

  lemma NothingSent()
    ensures !CutMatters(NEW)
  {
    NewWaits();
  }

  lemma BackIfCutMatters(c: Conversation)
    requires CutMatters(c)
    ensures Drain(c, true).end.Backwards?
  {}

  /** However a stream is cut into non-empty recv() results and whatever follows it, the messages
      and the end are those of one recv(), if and only if no beginning of the stream takes
      unframe_chunked to before the start of its buffer and there to a message, or into a loop that
      never ends. */
  lemma CutsNeverMatterExactlyWhen(stream: string)
    ensures (forall chunks, x :: Concat(chunks) == stream && "" !in chunks + [x] ==> CutsAgree(chunks, x))
      <==> forall k :: 0 <= k <= |stream| ==> !CutMatters(NEW.Append(stream[..k]))
  {
    hide CutMatters, NextStep, Feed, Drain, Concat;
    if k :| 0 <= k <= |stream| && CutMatters(NEW.Append(stream[..k])) {
      var chunks, x := CutIsSeen(stream[..k], stream[k..]);
      assert stream[..k] + stream[k..] == stream;
    } else {
      forall chunks, x | Concat(chunks) == stream ensures CutsAgree(chunks, x) {
        NoCutMatters(chunks);
        FeedSnoc(NEW, chunks, x);
        assert stream[..|stream|] == stream;
        DrainAppend(NEW.Append(stream), x, false);
        assert NEW.Append(stream + x) == NEW.Append(stream).Append(x);
        FeedLast(NEW, stream + x);
      }
    }
  }
}
