/** engine/netconf_agent.py, NETCONF framing: the chunked framing of section 4.2 of RFC 6242.
    A byte string is a string whose characters stand for bytes. */
module Framing {
  import opened Text

  const LF := "\n"
  const START := "\n#"
  const END_OF_CHUNKS := "\n##\n"

  /** Result of reading one message: it is incomplete, it is read and leaves a rest, it has a chunk
      size that int() reads as a negative number, the loop of unframe_chunked never ends on it, or
      that loop takes its position to before the start of the buffer. */
  datatype Reading = Incomplete | Message(text: string, rest: string) | NegativeSize | Forever | WentBack

  function FrameChunked(payload: string): string {
    START + Dec(|payload|) + LF + payload + END_OF_CHUNKS
  }

  /** What stands at one position of the buffer. */
  datatype Header = Unreadable | Last(next: nat) | Chunk(start: nat, stop: nat) | Negative(size: int, start: nat)

  function HeaderAt(buf: string, pos: nat): (h: Header)
    ensures h.Chunk? ==> pos + 2 < h.start <= h.stop <= |buf|
    ensures h.Last? ==> pos + 2 < h.next <= |buf|
  {
    if !At(buf, START, pos) then Unreadable
    else
      match FindFrom(buf, LF, pos + 2)
      case None => Unreadable
      case Some(nl) =>
        var header := buf[pos + 2..nl];
        if header == "#" then Last(nl + 1)
        else
          match ByteInt(header)
          case None => Unreadable
          case Some(size) =>
            if size < 0 then Negative(size, nl + 1)
            else if |buf| < nl + 1 + size then Unreadable
            else Chunk(nl + 1, nl + 1 + size)
  }

  /** The message from one position on, with the chunk data gathered so far. Nothing is read past a
      negative size: module Unframing follows the code there. */
  function UnframeFrom(buf: string, pos: nat, out: string): (r: Reading)
    requires pos <= |buf|
    ensures r.Message? ==> |r.rest| + pos + 2 < |buf|
    decreases |buf| - pos
  {
    match HeaderAt(buf, pos)
    case Unreadable => Incomplete
    case Negative(_, _) => NegativeSize
    case Last(next) => Message(out, buf[next..])
    case Chunk(start, stop) => UnframeFrom(buf, stop, out + buf[start..stop])
  }

  function UnframeSpec(buf: string): Reading { UnframeFrom(buf, 0, "") }

  lemma UnframeStep(buf: string, pos: nat, out: string)
    requires pos <= |buf|
    ensures var h := HeaderAt(buf, pos);
      UnframeFrom(buf, pos, out) ==
        if h.Unreadable? then Incomplete
        else if h.Negative? then NegativeSize
        else if h.Last? then Message(out, buf[h.next..])
        else UnframeFrom(buf, h.stop, out + buf[h.start..h.stop])
  {}

  // ---------- what is read is exactly the chunked grammar ----------

  /** One chunk as written: the size header between "\n#" and "\n", and the data. */
  datatype Piece = Piece(header: string, data: string)

  predicate ValidPiece(p: Piece) {
    '\n' !in p.header && ByteInt(p.header) == Some(|p.data|)
  }

  ghost predicate ValidPieces(ps: seq<Piece>) { forall p :: p in ps ==> ValidPiece(p) }

  function RenderPiece(p: Piece): string { START + p.header + LF + p.data }

  function Render(ps: seq<Piece>): string {
    if ps == [] then "" else RenderPiece(ps[0]) + Render(ps[1..])
  }

  function Payload(ps: seq<Piece>): string {
    if ps == [] then "" else ps[0].data + Payload(ps[1..])
  }

  lemma FindLf(buf: string, from: nat, nl: nat)
    requires from <= nl < |buf| && buf[nl] == '\n' && '\n' !in buf[from..nl]
    ensures FindFrom(buf, LF, from) == Some(nl)
  {
    assert buf[nl..nl + 1] == LF;
    forall k: nat | from <= k < nl ensures !At(buf, LF, k) {
      assert buf[from..nl][k - from] == buf[k];
      assert buf[k..k + 1][0] == buf[k];
    }
    FindIs(buf, LF, from, nl);
  }

  /** A size header followed by its data, wherever it stands, is seen as that chunk. */
  lemma HeaderOfPiece(buf: string, pos: nat, p: Piece, after: string)
    requires ValidPiece(p) && pos <= |buf| && buf[pos..] == RenderPiece(p) + after
    ensures var stop := pos + |RenderPiece(p)|;
      HeaderAt(buf, pos) == Chunk(stop - |p.data|, stop)
      && buf[stop - |p.data|..stop] == p.data && buf[stop..] == after
  {
    hide Text.ByteInt, Text.FindFrom, RenderPiece;
    var t := buf[pos..];
    var h := 2 + |p.header|;
    var nl, stop := pos + h, pos + h + 1 + |p.data|;
    PieceParts(p, after);
    assert buf[pos..pos + 2] == t[..2];
    assert buf[pos + 2..nl] == t[2..h];
    assert buf[nl] == t[h];
    FindLf(buf, pos + 2, nl);
    HashIsNoNumber();
    assert buf[nl + 1..stop] == t[h + 1..h + 1 + |p.data|];
    assert buf[stop..] == t[h + 1 + |p.data|..];
  }

  lemma PieceParts(p: Piece, after: string)
    ensures var t, h := RenderPiece(p) + after, 2 + |p.header|;
      |RenderPiece(p)| == h + 1 + |p.data| && t[..2] == START && t[2..h] == p.header && t[h] == '\n'
      && t[h + 1..h + 1 + |p.data|] == p.data && t[h + 1 + |p.data|..] == after
  {}

  lemma HashIsNoNumber()
    ensures ByteInt("#").None?
  {}

  lemma HeaderOfEnd(buf: string, pos: nat, after: string)
    requires pos <= |buf| && buf[pos..] == END_OF_CHUNKS + after
    ensures HeaderAt(buf, pos) == Last(pos + 4) && buf[pos + 4..] == after
  {
    var t := buf[pos..];
    assert buf[pos..pos + 2] == t[..2] == START;
    assert buf[pos + 2..pos + 3] == t[2..3] == "#";
    assert buf[pos + 3] == t[3];
    FindLf(buf, pos + 2, pos + 3);
    assert buf[pos + 4..] == t[4..];
  }

  lemma {:induction false} UnframeRendered(buf: string, pos: nat, ps: seq<Piece>, rest: string, out: string)
    requires ValidPieces(ps) && pos <= |buf| && buf[pos..] == Render(ps) + (END_OF_CHUNKS + rest)
    ensures UnframeFrom(buf, pos, out) == Message(out + Payload(ps), rest)
    decreases |ps|
  {
    hide Text.ByteInt, Text.FindFrom, HeaderAt, UnframeFrom;
    UnframeStep(buf, pos, out);
    if ps == [] {
      HeaderOfEnd(buf, pos, rest);
      assert out + Payload(ps) == out;
    } else {
      var p := ps[0];
      var after := Render(ps[1..]) + (END_OF_CHUNKS + rest);
      assert p in ps;
      assert Render(ps) + (END_OF_CHUNKS + rest) == RenderPiece(p) + after;
      HeaderOfPiece(buf, pos, p, after);
      var stop := pos + |RenderPiece(p)|;
      UnframeRendered(buf, stop, ps[1..], rest, out + p.data);
      assert out + p.data + Payload(ps[1..]) == out + Payload(ps);
    }
  }

  /** The chunks that UnframeFrom walks over. */
  function PiecesFrom(buf: string, pos: nat): seq<Piece>
    requires pos <= |buf|
    decreases |buf| - pos
  {
    match HeaderAt(buf, pos)
    case Chunk(start, stop) => [Piece(buf[pos + 2..start - 1], buf[start..stop])] + PiecesFrom(buf, stop)
    case _ => []
  }

  lemma PieceAt(buf: string, pos: nat)
    requires HeaderAt(buf, pos).Chunk?
    ensures var h := HeaderAt(buf, pos);
      var p := Piece(buf[pos + 2..h.start - 1], buf[h.start..h.stop]);
      ValidPiece(p) && RenderPiece(p) == buf[pos..h.stop]
  {
    hide Text.ByteInt, Text.FindFrom;
    var nl := FindFrom(buf, LF, pos + 2).value;
    FindMeans(buf, LF, pos + 2);
    assert buf[nl..nl + |LF|] == LF && buf[nl] == buf[nl..nl + 1][0];
    forall k | pos + 2 <= k < nl ensures buf[k] != '\n' {
      assert !At(buf, LF, k);
      assert buf[k..k + 1] == [buf[k]];
    }
  }

  lemma EndAt(buf: string, pos: nat)
    requires HeaderAt(buf, pos).Last?
    ensures pos + 4 <= |buf| && buf[pos..pos + 4] == END_OF_CHUNKS && HeaderAt(buf, pos).next == pos + 4
  {
    var nl := FindFrom(buf, LF, pos + 2).value;
    FindMeans(buf, LF, pos + 2);
    assert buf[nl..nl + 1] == LF;
    assert buf[pos..pos + 4] == buf[pos..pos + 2] + buf[pos + 2..nl] + buf[nl..nl + 1];
  }

  lemma {:induction false} UnframeReads(buf: string, pos: nat, out: string)
    requires pos <= |buf| && UnframeFrom(buf, pos, out).Message?
    ensures var ps, r := PiecesFrom(buf, pos), UnframeFrom(buf, pos, out);
      ValidPieces(ps) && buf[pos..] == Render(ps) + (END_OF_CHUNKS + r.rest) && r.text == out + Payload(ps)
    decreases |buf| - pos
  {
    hide Text.ByteInt, Text.FindFrom, HeaderAt, UnframeFrom, RenderPiece, Render, Payload, ValidPiece, At;
    UnframeStep(buf, pos, out);
    match HeaderAt(buf, pos)
    case Last(next) =>
      EndAt(buf, pos);
      NoPieces(out, END_OF_CHUNKS + buf[next..]);
      assert buf[pos..] == buf[pos..pos + 4] + buf[next..];
    case Chunk(start, stop) =>
      PieceAt(buf, pos);
      var p := Piece(buf[pos + 2..start - 1], buf[start..stop]);
      UnframeReads(buf, stop, out + p.data);
      var tail := PiecesFrom(buf, stop);
      RenderCons(p, tail, END_OF_CHUNKS + UnframeFrom(buf, pos, out).rest, out);
      assert buf[pos..] == buf[pos..stop] + buf[stop..];
  }

  lemma NoPieces(out: string, after: string)
    ensures Render([]) + after == after && out + Payload([]) == out
  {}

  lemma RenderCons(p: Piece, tail: seq<Piece>, after: string, out: string)
    ensures Render([p] + tail) + after == RenderPiece(p) + (Render(tail) + after)
    ensures out + Payload([p] + tail) == out + p.data + Payload(tail)
  {
    assert ([p] + tail)[1..] == tail;
  }

  /** Up to the first negative size: a message is read exactly when the buffer starts with a
      well-formed chunked message, with its payload and everything after it. */
  lemma UnframeExactlyTheGrammar(buf: string, text: string, rest: string)
    ensures UnframeSpec(buf) == Message(text, rest) <==>
      exists ps :: ValidPieces(ps) && buf == Render(ps) + (END_OF_CHUNKS + rest) && text == Payload(ps)
  {
    hide UnframeFrom, Render, Payload;
    assert buf[0..] == buf;
    if UnframeSpec(buf) == Message(text, rest) {
      UnframeReads(buf, 0, "");
      assert "" + Payload(PiecesFrom(buf, 0)) == Payload(PiecesFrom(buf, 0));
    }
    forall ps | ValidPieces(ps) && buf == Render(ps) + (END_OF_CHUNKS + rest) && text == Payload(ps)
      ensures UnframeSpec(buf) == Message(text, rest)
    {
      UnframeRendered(buf, 0, ps, rest, "");
      assert "" + Payload(ps) == text;
    }
  }

  /** Whatever follows it, a framed payload is read back unchanged. */
  lemma FrameRoundTrip(payload: string, rest: string)
    ensures UnframeSpec(FrameChunked(payload) + rest) == Message(payload, rest)
  {
    hide UnframeFrom;
    var p := Piece(Dec(|payload|), payload);
    ByteIntDec(|payload|);
    RenderCons(p, [], END_OF_CHUNKS + rest, "");
    assert [p] + [] == [p];
    var buf := FrameChunked(payload) + rest;
    assert buf[0..] == buf == Render([p]) + (END_OF_CHUNKS + rest);
    UnframeRendered(buf, 0, [p], rest, "");
  }
}
