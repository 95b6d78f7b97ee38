/** engine/netconf_agent.py, unframe_chunked: its loop on every buffer. int() also reads negative
    sizes, which take the position backwards, even to before the start of the buffer, where Python
    counts from the end. */
module Unframing {
  import opened Text
  import opened Framing

  /** Where buf[i:] starts. */
  function Idx(buf: string, i: int): (r: nat)
    ensures r <= |buf|
  {
    if i > |buf| then |buf| else if i >= 0 then i else if i + |buf| >= 0 then i + |buf| else 0
  }

  /** buf[i:j] */
  function Slice(buf: string, i: int, j: int): string {
    var from, to := Idx(buf, i), Idx(buf, j);
    if from < to then buf[from..to] else ""
  }

  /** What one turn of the loop does. Back: only in a forward reading, which stops rather than go to
      before the start of the buffer. */
  datatype Turn = Unfinished | Done(rest: string) | On(data: string, next: int) | Back

  function TurnAt(buf: string, pos: int, forward: bool): (t: Turn)
    ensures t.Done? ==> |t.rest| < |buf|
    ensures t.On? ==> t.next <= |buf| && (forward ==> t.next >= 0)
    ensures t.Back? ==> forward
  {
    if !At(buf, START, Idx(buf, pos)) then Unfinished
    else
      match FindFrom(buf, LF, Idx(buf, pos + 2))
      case None => Unfinished
      case Some(nl) =>
        var header := Slice(buf, pos + 2, nl);
        if header == "#" then Done(buf[nl + 1..])
        else
          match ByteInt(header)
          case None => Unfinished
          case Some(size) =>
            if |buf| < nl + 1 + size then Unfinished
            else if forward && nl + 1 + size < 0 then Back
            else On(Slice(buf, nl + 1, nl + 1 + size), nl + 1 + size)
  }

  /** The loop from one position on, with the chunk data gathered so far and this many more turns. */
  function Go(buf: string, pos: int, out: string, turns: nat, forward: bool): (r: Reading)
    ensures r.Message? ==> |r.rest| < |buf|
    ensures !r.NegativeSize? && (r.WentBack? ==> forward)
    decreases turns
  {
    match TurnAt(buf, pos, forward)
    case Unfinished => Incomplete
    case Back => WentBack
    case Done(rest) => Message(out, rest)
    case On(data, next) => if turns == 0 then Forever else Go(buf, next, out + data, turns - 1, forward)
  }

  lemma GoStep(buf: string, pos: int, out: string, turns: nat, forward: bool)
    ensures var t := TurnAt(buf, pos, forward);
      Go(buf, pos, out, turns, forward) ==
        if t.Unfinished? then Incomplete
        else if t.Back? then WentBack
        else if t.Done? then Message(out, t.rest)
        else if turns == 0 then Forever
        else Go(buf, t.next, out + t.data, turns - 1, forward)
  {
    hide TurnAt;
  }

  /** unframe_chunked. A loop that takes more turns never ends (see ReturnsExactlyWhenNoRepeat). */
  function Unframed(buf: string, forward: bool): (r: Reading)
    ensures r.Message? ==> |r.rest| < |buf|
    ensures !r.NegativeSize? && (r.WentBack? ==> forward)
  {
    Go(buf, 0, "", 2 * |buf| + 2, forward)
  }

  /** The loop itself, on the buffers for which it returns. */
  method Unframe(buf: string) returns (r: Reading)
    requires Unframed(buf, false) != Forever
    ensures r == Unframed(buf, false)
  {
    hide Text.ByteInt, Text.FindFrom, At, Go, Slice, Idx;
    var out, pos := "", 0;
    ghost var turns: nat := 2 * |buf| + 2;
    while true
      invariant Go(buf, pos, out, turns, false) == Unframed(buf, false)
      decreases turns
    {
      GoStep(buf, pos, out, turns, false);
      if !At(buf, START, Idx(buf, pos)) { return Incomplete; }
      var found := FindFrom(buf, LF, Idx(buf, pos + 2));
      if found.None? { return Incomplete; }
      var nl := found.value;
      var header := Slice(buf, pos + 2, nl);
      if header == "#" { return Message(out, buf[nl + 1..]); }
      var size := ByteInt(header);
      if size.None? { return Incomplete; }
      if |buf| < nl + 1 + size.value { return Incomplete; }
      assert turns > 0;
      out := out + Slice(buf, nl + 1, nl + 1 + size.value);
      pos := nl + 1 + size.value;
      turns := turns - 1;
    }
  }

  // ---------- when the loop ends ----------

  /** The position after k turns, if the loop makes that many. */
  function Walk(buf: string, pos: int, k: nat, forward: bool): Option<int>
    decreases k
  {
    if k == 0 then Some(pos)
    else
      match TurnAt(buf, pos, forward)
      case On(_, next) => Walk(buf, next, k - 1, forward)
      case _ => None
  }

  ghost predicate Returns(buf: string, forward: bool) {
    exists k: nat :: Walk(buf, 0, k, forward).None?
  }

  /** Two turns start at one position. */
  ghost predicate Repeats(buf: string, forward: bool) {
    exists i: nat, j: nat :: i < j && Walk(buf, 0, i, forward).Some? && Walk(buf, 0, i, forward) == Walk(buf, 0, j, forward)
  }

  lemma {:induction false} WalkSplit(buf: string, pos: int, i: nat, j: nat, forward: bool)
    ensures var mid := Walk(buf, pos, i, forward);
      Walk(buf, pos, i + j, forward) == if mid.None? then None else Walk(buf, mid.value, j, forward)
    decreases i
  {
    hide TurnAt;
    if i > 0 && TurnAt(buf, pos, forward).On? { WalkSplit(buf, TurnAt(buf, pos, forward).next, i - 1, j, forward); }
  }

  /** A loop that comes back to a position goes round for ever. */
  lemma {:induction false} RoundAndRound(buf: string, pos: int, d: nat, k: nat, forward: bool)
    requires d > 0 && Walk(buf, pos, d, forward) == Some(pos)
    ensures Walk(buf, pos, k, forward).Some?
    decreases k
  {
    hide Walk;
    if k < d {
      WalkSplit(buf, pos, k, d - k, forward);
    } else {
      RoundAndRound(buf, pos, d, k - d, forward);
      WalkSplit(buf, pos, d, k - d, forward);
    }
  }

  lemma {:induction false} GoForever(buf: string, pos: int, out: string, turns: nat, forward: bool)
    ensures Go(buf, pos, out, turns, forward) == Forever <==> Walk(buf, pos, turns + 1, forward).Some?
    decreases turns
  {
    hide TurnAt;
    match TurnAt(buf, pos, forward)
    case On(data, next) =>
      if turns > 0 { GoForever(buf, next, out + data, turns - 1, forward); }
      assert turns == 0 ==> Walk(buf, next, turns, forward) == Some(next);
    case _ =>
  }

  /** The loop stops at a position so far before the start: it looks for the size at the first byte,
      which is the line feed of the header. */
  lemma FarBackIsUnfinished(buf: string, pos: int, forward: bool)
    requires pos + 2 <= -|buf|
    ensures TurnAt(buf, pos, forward) == Unfinished
  {
    if At(buf, START, 0) {
      assert buf[0..2][0] == '\n';
      FindLf(buf, 0, 0);
    }
  }

  lemma PositionsInRange(buf: string, k: nat, forward: bool)
    requires Walk(buf, 0, k + 1, forward).Some?
    ensures Walk(buf, 0, k, forward).Some? && -|buf| - 1 <= Walk(buf, 0, k, forward).value <= |buf|
  {
    hide TurnAt;
    WalkSplit(buf, 0, k, 1, forward);
    var pos := Walk(buf, 0, k, forward).value;
    if pos + 2 <= -|buf| { FarBackIsUnfinished(buf, pos, forward); }
    if k > 0 {
      WalkSplit(buf, 0, k - 1, 1, forward);
    }
  }

  /** More numbers than a range has, all in the range: one of them comes twice. */
  lemma {:induction false} Pigeonhole(f: seq<int>, lo: int, n: nat)
    requires |f| > n && forall x :: x in f ==> lo <= x < lo + n
    ensures exists i, j :: 0 <= i < j < |f| && f[i] == f[j]
    decreases n
  {
    var last := |f| - 1;
    assert f[last] in f;
    if i :| 0 <= i < last && f[i] == f[last] {
    } else {
      // the greatest number of the range takes the place of the last one
      var g := seq(last, i requires 0 <= i < last => if f[i] == lo + n - 1 then f[last] else f[i]);
      forall x | x in g ensures lo <= x < lo + (n - 1) {
        var i :| 0 <= i < last && x == g[i];
        assert f[i] in f;
      }
      Pigeonhole(g, lo, n - 1);
      var i, j :| 0 <= i < j < |g| && g[i] == g[j];
      assert f[i] == f[j];
    }
  }

  lemma ManyTurnsRepeat(buf: string, forward: bool) returns (i: nat, j: nat)
    requires Walk(buf, 0, 2 * |buf| + 3, forward).Some?
    ensures i < j <= 2 * |buf| + 2 && Walk(buf, 0, i, forward).Some?
    ensures Walk(buf, 0, i, forward) == Walk(buf, 0, j, forward)
  {
    hide Walk;
    var m := 2 * |buf| + 3;
    forall k: nat | k < m
      ensures Walk(buf, 0, k, forward).Some? && -|buf| - 1 <= Walk(buf, 0, k, forward).value <= |buf|
    {
      WalkSplit(buf, 0, k + 1, m - k - 1, forward);
      PositionsInRange(buf, k, forward);
    }
    var f := seq(m, k requires 0 <= k < m => Walk(buf, 0, k, forward).value);
    Pigeonhole(f, -|buf| - 1, 2 * |buf| + 2);
    i, j :| 0 <= i < j < |f| && f[i] == f[j];
  }

  lemma RepeatIsForever(buf: string, i: nat, j: nat, k: nat, forward: bool)
    requires i < j && Walk(buf, 0, i, forward).Some? && Walk(buf, 0, i, forward) == Walk(buf, 0, j, forward)
    ensures Walk(buf, 0, k, forward).Some?
  {
    hide Walk;
    var p := Walk(buf, 0, i, forward).value;
    WalkSplit(buf, 0, i, j - i, forward);
    if k < i {
      WalkSplit(buf, 0, k, i - k, forward);
    } else {
      RoundAndRound(buf, p, j - i, k - i, forward);
      WalkSplit(buf, 0, i, k - i, forward);
    }
  }

  /** unframe_chunked returns if and only if no two turns of its loop start at one position; the
      definition above says Forever for exactly the other buffers. */
  lemma ReturnsExactlyWhenNoRepeat(buf: string, forward: bool)
    ensures Returns(buf, forward) <==> !Repeats(buf, forward)
    ensures Returns(buf, forward) <==> Unframed(buf, forward) != Forever
  {
    hide Walk, Go;
    var m := 2 * |buf| + 2;
    GoForever(buf, 0, "", m, forward);
    if Walk(buf, 0, m + 1, forward).Some? {
      var i, j := ManyTurnsRepeat(buf, forward);
    }
    if Repeats(buf, forward) {
      var i: nat, j: nat :| i < j && Walk(buf, 0, i, forward).Some? && Walk(buf, 0, i, forward) == Walk(buf, 0, j, forward);
      forall k: nat ensures Walk(buf, 0, k, forward).Some? { RepeatIsForever(buf, i, j, k, forward); }
    }
  }

  // ---------- when later bytes do not matter ----------

  lemma {:induction false} ForwardIsTheLoop(buf: string, pos: int, out: string, turns: nat)
    requires Go(buf, pos, out, turns, true) != WentBack
    ensures Go(buf, pos, out, turns, false) == Go(buf, pos, out, turns, true)
    decreases turns
  {
    hide Text.ByteInt, Text.FindFrom, At;
    match TurnAt(buf, pos, true)
    case On(data, next) => if turns > 0 { ForwardIsTheLoop(buf, next, out + data, turns - 1); }
    case _ =>
  }

  lemma TurnStable(buf: string, x: string, pos: nat)
    requires TurnAt(buf, pos, true) != Unfinished
    ensures var t := TurnAt(buf, pos, true);
      TurnAt(buf + x, pos, true) == if t.Done? then Done(t.rest + x) else t
  {
    hide Text.ByteInt, Text.FindFrom, Slice;
    AtAppend(buf, x, START, pos);
    FindStable(buf, x, LF, pos + 2);
    var nl := FindFrom(buf, LF, pos + 2).value;
    SliceStable(buf, x, pos + 2, nl);
    assert (buf + x)[nl + 1..] == buf[nl + 1..] + x;
    if TurnAt(buf, pos, true).On? { SliceStable(buf, x, nl + 1, TurnAt(buf, pos, true).next); }
  }

  lemma {:induction false} WalkStable(buf: string, x: string, pos: nat, k: nat)
    requires Walk(buf, pos, k, true).Some?
    ensures Walk(buf + x, pos, k, true) == Walk(buf, pos, k, true)
    decreases k
  {
    hide TurnAt;
    if k > 0 {
      TurnStable(buf, x, pos);
      WalkStable(buf, x, TurnAt(buf, pos, true).next, k - 1);
    }
  }

  lemma {:induction false} GoStable(buf: string, x: string, pos: nat, out: string, turns: nat, more: nat)
    requires var r := Go(buf, pos, out, turns, true); turns <= more && !r.Incomplete? && !r.Forever?
    ensures var r := Go(buf, pos, out, turns, true);
      Go(buf + x, pos, out, more, true) == if r.Message? then Message(r.text, r.rest + x) else r
    decreases turns
  {
    hide TurnAt;
    TurnStable(buf, x, pos);
    match TurnAt(buf, pos, true)
    case On(data, next) => GoStable(buf, x, next, out + data, turns - 1, more - 1);
    case _ =>
  }

  /** What a forward reading finds out is found out from every longer buffer, and only the rest of
      a message grows. */
  lemma ForwardStable(buf: string, x: string)
    requires Unframed(buf, true) != Incomplete
    ensures var r := Unframed(buf, true);
      Unframed(buf + x, true) == if r.Message? then Message(r.text, r.rest + x) else r
  {
    hide Walk, Go;
    if Unframed(buf, true) == Forever {
      GoForever(buf, 0, "", 2 * |buf| + 2, true);
      var i, j := ManyTurnsRepeat(buf, true);
      WalkSplit(buf, 0, j, 2 * |buf| + 3 - j, true);
      WalkStable(buf, x, 0, i);
      WalkStable(buf, x, 0, j);
      assert Repeats(buf + x, true);
      ReturnsExactlyWhenNoRepeat(buf + x, true);
    } else {
      GoStable(buf, x, 0, "", 2 * |buf| + 2, 2 * |buf + x| + 2);
    }
  }

  lemma BackTurn(buf: string, x: string, pos: nat)
    requires TurnAt(buf, pos, true) == Back
    ensures var t, t' := TurnAt(buf, pos, false), TurnAt(buf + x, pos, false);
      t.On? && t.next < 0 && t'.On? && t'.next == t.next
  {
    hide Text.ByteInt, Text.FindFrom, Slice;
    AtAppend(buf, x, START, pos);
    FindStable(buf, x, LF, pos + 2);
    var nl := FindFrom(buf, LF, pos + 2).value;
    SliceStable(buf, x, pos + 2, nl);
  }

  lemma SliceStable(buf: string, x: string, i: nat, j: nat)
    requires 0 <= i <= |buf| && 0 <= j <= |buf|
    ensures Slice(buf + x, i, j) == Slice(buf, i, j)
  {
    assert i < j ==> (buf + x)[i..j] == buf[i..j];
  }

  /** Bytes that put something other than a header where the loop goes to. */
  function Dots(next: int): (x: string)
    ensures next < 0 ==> |x| == -next && x[0] == '.'
  {
    if next >= 0 then "" else seq(-next, i => '.')
  }

  lemma DotsAreNoHeader(buf: string, next: int)
    requires next < 0
    ensures TurnAt(buf + Dots(next), next, false) == Unfinished
  {
    hide Text.ByteInt, Text.FindFrom;
    var all := buf + Dots(next);
    assert Idx(all, next) == |buf| && all[|buf|] == '.';
    assert |buf| + 2 <= |all| ==> all[|buf|..|buf| + 2][0] == '.';
  }

  /** Where the loop goes to before the start of the buffer, other bytes at the end make the message
      unfinished. */
  lemma {:induction false} BackIsUnstable(buf: string, pos: nat, out: string, turns: nat) returns (x: string)
    requires Go(buf, pos, out, turns, true) == WentBack
    ensures x != "" && forall more: nat :: more > turns ==> Go(buf + x, pos, out, more, false) == Incomplete
    decreases turns
  {
    hide TurnAt, Dots;
    match TurnAt(buf, pos, true)
    case Back =>
      BackTurn(buf, "", pos);
      var next := TurnAt(buf, pos, false).next;
      x := Dots(next);
      BackTurn(buf, x, pos);
      DotsAreNoHeader(buf, next);
    case On(data, next) =>
      x := BackIsUnstable(buf, next, out + data, turns - 1);
      TurnStable(buf, x, pos);
      TurnsAgree(buf, pos);
      TurnsAgree(buf + x, pos);
  }

  lemma TurnsAgree(buf: string, pos: int)
    requires TurnAt(buf, pos, true) != Back
    ensures TurnAt(buf, pos, false) == TurnAt(buf, pos, true)
  {
    hide Text.ByteInt, Text.FindFrom, At, Slice;
  }

  /** A message that unframe_chunked returns is returned from every longer buffer, with only the rest
      growing, if and only if the loop never goes to before the start of the buffer. */
  lemma MessageStaysExactlyWhenForward(buf: string)
    requires Unframed(buf, false).Message?
    ensures var r := Unframed(buf, false);
      (forall x :: Unframed(buf + x, false) == Message(r.text, r.rest + x)) <==> Unframed(buf, true) != WentBack
  {
    hide Go;
    var r := Unframed(buf, false);
    if Unframed(buf, true) == WentBack {
      var x := BackIsUnstable(buf, 0, "", 2 * |buf| + 2);
      assert Unframed(buf + x, false) != Message(r.text, r.rest + x);
    } else {
      ForwardIsTheLoop(buf, 0, "", 2 * |buf| + 2);
      forall x ensures Unframed(buf + x, false) == Message(r.text, r.rest + x) {
        ForwardStable(buf, x);
        ForwardIsTheLoop(buf + x, 0, "", 2 * |buf + x| + 2);
      }
    }
  }

  // ---------- the chunked grammar ----------

  lemma TurnOfHeader(buf: string, pos: nat, forward: bool)
    requires pos <= |buf|
    ensures var h, t := HeaderAt(buf, pos), TurnAt(buf, pos, forward);
      (h.Unreadable? ==> t == Unfinished) && (h.Last? ==> t == Done(buf[h.next..]))
      && (h.Chunk? ==> t == On(buf[h.start..h.stop], h.stop))
  {
    hide Text.ByteInt, Text.FindFrom, Slice, At;
    var found := FindFrom(buf, LF, pos + 2);
    if At(buf, START, pos) && found.Some? {
      SliceInside(buf, pos + 2, found.value);
      if HeaderAt(buf, pos).Chunk? { SliceInside(buf, found.value + 1, HeaderAt(buf, pos).stop); }
    } else {
      AtInside(buf, pos);
    }
  }

  lemma SliceInside(buf: string, i: nat, j: nat)
    requires i <= j <= |buf|
    ensures Slice(buf, i, j) == buf[i..j]
  {}

  lemma AtInside(buf: string, pos: nat)
    ensures At(buf, START, pos) ==> pos + 2 <= |buf|
  {}

  lemma {:induction false} GoFollowsGrammar(buf: string, pos: nat, out: string, turns: nat, forward: bool)
    requires pos <= |buf| <= pos + turns && UnframeFrom(buf, pos, out) != NegativeSize
    ensures Go(buf, pos, out, turns, forward) == UnframeFrom(buf, pos, out)
    decreases |buf| - pos
  {
    hide HeaderAt, TurnAt;
    UnframeStep(buf, pos, out);
    TurnOfHeader(buf, pos, forward);
    match HeaderAt(buf, pos)
    case Chunk(start, stop) => GoFollowsGrammar(buf, stop, out + buf[start..stop], turns - 1, forward);
    case _ =>
  }

  /** Up to the first negative size the loop reads what the grammar says. */
  lemma FollowsGrammar(buf: string, forward: bool)
    requires UnframeSpec(buf) != NegativeSize
    ensures Unframed(buf, forward) == UnframeSpec(buf)
  {
    GoFollowsGrammar(buf, 0, "", 2 * |buf| + 2, forward);
  }

  /** Whatever follows it, a framed payload is read back unchanged. */
  lemma FramedIsRead(payload: string, rest: string, forward: bool)
    ensures Unframed(FrameChunked(payload) + rest, forward) == Message(payload, rest)
  {
    FrameRoundTrip(payload, rest);
    FollowsGrammar(FrameChunked(payload) + rest, forward);
  }

  /** The buffer starts with well-formed chunks and then a chunk header of negative size. */
  ghost predicate StartsNegative(buf: string) {
    exists ps, header, after ::
      ValidPieces(ps) && NegativeHeader(header) && buf == Render(ps) + (START + header + LF + after)
  }

  predicate NegativeHeader(header: string) {
    '\n' !in header && ByteInt(header).Some? && ByteInt(header).value < 0
  }

  /** unframe_chunked returns a well-formed chunked message at the start of the buffer, its payload
      and everything after it; and it returns nothing else, unless there is a negative size. */
  lemma ReadsExactlyTheGrammar(buf: string, text: string, rest: string)
    ensures var wellFormed :=
        exists ps :: ValidPieces(ps) && buf == Render(ps) + (END_OF_CHUNKS + rest) && text == Payload(ps);
      (wellFormed ==> Unframed(buf, false) == Message(text, rest))
      && (Unframed(buf, false) == Message(text, rest) && !StartsNegative(buf) ==> wellFormed)
  {
    hide UnframeFrom, Go, Render, Payload;
    UnframeExactlyTheGrammar(buf, text, rest);
    if UnframeSpec(buf) == NegativeSize {
      assert buf[0..] == buf;
      var ps, header, after := NegativeReads(buf, 0, "");
    } else {
      FollowsGrammar(buf, false);
    }
  }

  lemma {:induction false} NegativeReads(buf: string, pos: nat, out: string)
      returns (ps: seq<Piece>, header: string, after: string)
    requires pos <= |buf| && UnframeFrom(buf, pos, out) == NegativeSize
    ensures ValidPieces(ps) && NegativeHeader(header) && buf[pos..] == Render(ps) + (START + header + LF + after)
    decreases |buf| - pos
  {
    hide Text.ByteInt, Text.FindFrom, HeaderAt, UnframeFrom, RenderPiece, Render, ValidPiece, At, NegativeHeader;
    UnframeStep(buf, pos, out);
    match HeaderAt(buf, pos)
    case Negative(_, _) =>
      header, after := NegativeAt(buf, pos);
      ps := [];
      NoPieces("", buf[pos..]);
    case Chunk(start, stop) =>
      PieceAt(buf, pos);
      var p := Piece(buf[pos + 2..start - 1], buf[start..stop]);
      ps, header, after := NegativeReads(buf, stop, out + p.data);
      RenderCons(p, ps, START + header + LF + after, "");
      ps := [p] + ps;
      assert buf[pos..] == buf[pos..stop] + buf[stop..];
  }

  lemma NegativeAt(buf: string, pos: nat) returns (header: string, after: string)
    requires pos <= |buf| && HeaderAt(buf, pos).Negative?
    ensures NegativeHeader(header) && buf[pos..] == START + header + LF + after
  {
    hide Text.ByteInt, Text.FindFrom;
    var nl := FindFrom(buf, LF, pos + 2).value;
    FindMeans(buf, LF, pos + 2);
    header, after := buf[pos + 2..nl], buf[nl + 1..];
    assert buf[nl..nl + 1] == LF;
    assert buf[pos..nl] == buf[pos..pos + 2] + header;
    assert buf[pos..] == buf[pos..nl] + buf[nl..nl + 1] + after;
    forall k | pos + 2 <= k < nl ensures buf[k] != '\n' {
      assert !At(buf, LF, k);
      assert buf[k..k + 1] == [buf[k]];
    }
  }

  // ---------- negative sizes ----------

  /** The header with its line feeds stands at this place. */
  predicate Stands(buf: string, at: nat, header: string) {
    var nl := at + 2 + |header|;
    nl < |buf| && At(buf, START, at) && buf[at + 2..nl] == header && buf[nl] == '\n'
  }

  lemma StandsParts(buf: string, at: nat, header: string)
    requires Stands(buf, at, header) && '\n' !in header
    ensures var nl := at + 2 + |header|;
      At(buf, START, at) && buf[at + 2..nl] == header && FindFrom(buf, LF, at + 2) == Some(nl)
  {
    hide Text.FindFrom;
    var nl := at + 2 + |header|;
    FindLf(buf, at + 2, nl);
  }

  /** A header of negative size takes the loop to that distance before the end of the header; this
      one turn repeats if and only if the header starts there. */
  lemma NegativeTurn(buf: string, pos: nat, header: string)
    requires Stands(buf, pos, header) && NegativeHeader(header)
    ensures var stop, size := pos + |header| + 3, ByteInt(header).value;
      TurnAt(buf, pos, false) == On(Slice(buf, stop, stop + size), stop + size)
      && (TurnAt(buf, pos, false) == On("", pos) <==> -size == |header| + 3)
  {
    hide Text.ByteInt, Text.FindFrom;
    StandsParts(buf, pos, header);
    HashIsNoNumber();
  }

  lemma ChunkTurn(buf: string, pos: nat, header: string)
    requires Stands(buf, pos, header) && '\n' !in header && ByteInt(header).Some? && ByteInt(header).value >= 0
    requires pos + |header| + 3 + ByteInt(header).value <= |buf|
    ensures var start := pos + |header| + 3; var stop := start + ByteInt(header).value;
      TurnAt(buf, pos, false) == On(buf[start..stop], stop)
  {
    hide Text.ByteInt, Text.FindFrom;
    StandsParts(buf, pos, header);
    HashIsNoNumber();
  }

  /** The end of chunks, seen from a position that may count from the end of the buffer. */
  lemma EndTurn(buf: string, pos: int)
    requires (pos >= 0 || -|buf| <= pos <= -4) && Stands(buf, Idx(buf, pos), "#")
    ensures TurnAt(buf, pos, false) == Done(buf[Idx(buf, pos) + 4..])
  {
    hide Text.ByteInt, Text.FindFrom;
    StandsParts(buf, Idx(buf, pos), "#");
  }

  lemma Numbers()
    ensures NegativeHeader("-5") && ByteInt("-5").value == -5
    ensures NegativeHeader("-9") && ByteInt("-9").value == -9
    ensures NegativeHeader("-11") && ByteInt("-11").value == -11
    ensures ByteInt("1") == Some(1)
  {
    ByteStripTrims("-5");
    ByteStripTrims("-9");
    ByteStripTrims("-11");
    ByteStripTrims("1");
    assert "-5"[1..] == "5" && "-9"[1..] == "9" && "-11"[1..] == "11" && "11"[..1] == "1";
    assert Digits("5") == Some(5) && Digits("9") == Some(9) && Digits("1") == Some(1) && Digits("11") == Some(11);
  }

  /** A header that takes the loop back to itself: it never returns, whatever follows. */
  lemma NegativeSizeMayNotAdvance(rest: string)
    ensures Unframed("\n#-5\n" + rest, false) == Forever
  {
    var buf := "\n#-5\n" + rest;
    Numbers();
    NegativeTurn(buf, 0, "-5");
    assert Walk(buf, 0, 1, false) == Some(0);
    ReturnsExactlyWhenNoRepeat(buf, false);
  }

  /** A chunk, and a header that takes the loop back to that chunk: positions 0, 5, 0, 5 and so on. */
  lemma TwoHeadersMayLoop()
    ensures Unframed("\n#1\nX\n#-11\n", false) == Forever
  {
    hide Text.ByteInt, Text.FindFrom, TurnAt;
    var buf := "\n#1\nX\n#-11\n";
    Numbers();
    assert Stands(buf, 0, "1") && Stands(buf, 5, "-11");
    ChunkTurn(buf, 0, "1");
    NegativeTurn(buf, 5, "-11");
    assert Walk(buf, 5, 1, false) == Some(0);
    assert Walk(buf, 0, 2, false) == Some(0);
    ReturnsExactlyWhenNoRepeat(buf, false);
  }

  const FIRST := "\n#-9\nHELLO\n##\n"
  const SECOND := "\n#5\nWORLD\n##\n"

  /** A message that is not well formed, read through a position before the start: it ends four
      bytes before the end of the buffer, wherever that is. */
  lemma LaterBytesChangeThis()
    ensures Unframed(FIRST, false) == Message("HELLO", "")
    ensures Unframed(FIRST + SECOND, false) == Message("HELLO\n##\n\n#5\nWORLD", "")
  {
    hide Unframed;
    var text := "HELLO\n##\n\n#5\nWORLD";
    assert FIRST == "\n#-9\n" + "HELLO" + END_OF_CHUNKS;
    assert FIRST + SECOND == "\n#-9\n" + text + END_OF_CHUNKS;
    ReadsToTheLastFour(FIRST, "HELLO");
    ReadsToTheLastFour(FIRST + SECOND, text);
  }

  lemma ReadsToTheLastFour(buf: string, text: string)
    requires buf == "\n#-9\n" + text + END_OF_CHUNKS
    ensures Unframed(buf, false) == Message(text, "")
  {
    hide Text.ByteInt, Text.FindFrom, TurnAt;
    Numbers();
    assert buf[0..2] == START && buf[2..4] == "-9" && buf[4] == '\n';
    NegativeTurn(buf, 0, "-9");
    assert Slice(buf, 5, -4) == text;
    var end := |buf| - 4;
    assert buf[end..end + 2] == START && buf[end + 2..end + 3] == "#" && buf[end + 3] == '\n';
    EndTurn(buf, -4);
    assert Go(buf, 0, "", 2 * |buf| + 2, false) == Go(buf, -4, text, 2 * |buf| + 1, false) by { assert "" + text == text; }
  }
}
