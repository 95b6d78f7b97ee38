/** engine/alb_lb.py: the request parser, the member choice and the cookie injection of one
    listener. Bytes are characters. */
module Alb {
  import opened Text

  const CRLF := "\r\n"
  const BLANK := "\r\n\r\n"

  type Member = (string, int)

  datatype Request = Request(path: string, host: string, cookies: map<string, string>)

  // ---------- bytes ----------

  /** s.split(sep, 1)[0] */
  function Before(s: string, sep: string): string {
    match Find(s, sep)
    case None => s
    case Some(i) => s[..i]
  }

  /** s.split(sep, 1)[1], for s that contains sep. */
  function After(s: string, sep: string): string {
    match Find(s, sep)
    case None => ""
    case Some(i) => s[i + |sep|..]
  }

  // ---------- the request ----------

  predicate IsHost(line: string) { "host:" <= Lower(line) }

  predicate IsCookie(line: string) { "cookie:" <= Lower(line) }

  /** One part of a cookie header. */
  function AddCookie(cookies: map<string, string>, part: string): map<string, string> {
    if Find(part, "=").None? then cookies else cookies[Before(Strip(part), "=") := After(Strip(part), "=")]
  }

  function AddCookies(cookies: map<string, string>, parts: seq<string>): map<string, string>
    decreases |parts|
  {
    if parts == [] then cookies else AddCookies(AddCookie(cookies, parts[0]), parts[1..])
  }

  function ReadHeader(r: Request, line: string): Request {
    if IsHost(line) then r.(host := ByteStrip(After(line, ":")))
    else if IsCookie(line) then r.(cookies := AddCookies(r.cookies, Split(ByteStrip(After(line, ":")), ";")))
    else r
  }

  function ReadHeaders(r: Request, lines: seq<string>): Request
    decreases |lines|
  {
    if lines == [] then r else ReadHeaders(ReadHeader(r, lines[0]), lines[1..])
  }

  function PathOf(requestLine: string): string {
    var parts := Split(requestLine, " ");
    Before(if |parts| >= 2 then parts[1] else "/", "?")
  }

  /** _parse_request */
  function Parsed(buf: string): Request {
    var lines := Split(Before(buf, BLANK), CRLF);
    ReadHeaders(Request(PathOf(lines[0]), "", map[]), lines[1..])
  }

  method ParseRequest(buf: string) returns (r: Request)
    ensures r == Parsed(buf)
  {
    hide Before, Split, ByteStrip, After, PathOf, AddCookie, IsHost, IsCookie;
    var lines := Split(Before(buf, BLANK), CRLF);
    var path, host, cookies := PathOf(lines[0]), "", map[];
    ghost var all := ReadHeaders(Request(path, host, cookies), lines[1..]);
    for i := 1 to |lines|
      invariant ReadHeaders(Request(path, host, cookies), lines[i..]) == all
    {
      var line := lines[i];
      assert lines[i..][1..] == lines[i + 1..];
      if IsHost(line) {
        host := ByteStrip(After(line, ":"));
      } else if IsCookie(line) {
        var parts := Split(ByteStrip(After(line, ":")), ";");
        ghost var whole := AddCookies(cookies, parts);
        for k := 0 to |parts|
          invariant AddCookies(cookies, parts[k..]) == whole
        {
          assert parts[k..][1..] == parts[k + 1..];
          cookies := AddCookie(cookies, parts[k]);
        }
      }
    }
    return Request(path, host, cookies);
  }

  // ---------- receiving ----------

  const LIMIT: nat := 65536

  /** The buffer after the receive loop; no chunk left is the end of the stream. */
  function Received(buf: string, chunks: seq<string>): string
    decreases |chunks|
  {
    if Contains(buf, BLANK) || |buf| >= LIMIT || chunks == [] || chunks[0] == "" then buf
    else Received(buf + chunks[0], chunks[1..])
  }

  method ReceiveLoop(chunks: seq<string>) returns (buf: string)
    ensures buf == Received("", chunks)
  {
    hide Find;
    buf := "";
    var k := 0;
    assert chunks[0..] == chunks;
    while !Contains(buf, BLANK) && |buf| < LIMIT && k < |chunks| && chunks[k] != ""
      invariant k <= |chunks| && Received(buf, chunks[k..]) == Received("", chunks)
      decreases |chunks| - k
    {
      assert chunks[k..][0] == chunks[k] && chunks[k..][1..] == chunks[k + 1..];
      buf := buf + chunks[k];
      k := k + 1;
    }
    assert k < |chunks| ==> chunks[k..][0] == chunks[k];
  }

  function Concat(chunks: seq<string>): string {
    if chunks == [] then "" else chunks[0] + Concat(chunks[1..])
  }

  lemma BeforeStable(buf: string, x: string)
    requires Contains(buf, BLANK)
    ensures Before(buf + x, BLANK) == Before(buf, BLANK) && Parsed(buf + x) == Parsed(buf)
  {
    hide Split, PathOf, ReadHeaders;
    FindStable(buf, x, BLANK, 0);
    var i := Find(buf, BLANK).value;
    assert (buf + x)[..i] == buf[..i];
  }

  lemma {:induction false} ReceivedAll(buf: string, chunks: seq<string>, i: nat)
    requires "" !in chunks && Find(buf + Concat(chunks), BLANK) == Some(i) && i + |BLANK| <= LIMIT
    ensures Contains(Received(buf, chunks), BLANK) && Received(buf, chunks) <= buf + Concat(chunks)
    decreases |chunks|
  {
    var all := buf + Concat(chunks);
    if !Contains(buf, BLANK) {
      FindMeans(all, BLANK, 0);
      FindMeans(buf, BLANK, 0);
      if i + |BLANK| <= |buf| { AtAppend(buf, Concat(chunks), BLANK, i); }
      assert chunks == [] ==> all == buf;
      assert chunks[0] in chunks;
      assert buf + chunks[0] + Concat(chunks[1..]) == all;
      ReceivedAll(buf + chunks[0], chunks[1..], i);
    }
  }

  /** The parsed request does not depend on how the stream was cut into chunks, as long as the blank
      line is within the first 65536 bytes. */
  lemma CutsDoNotMatter(chunks: seq<string>)
    requires "" !in chunks && Find(Concat(chunks), BLANK).Some?
    requires Find(Concat(chunks), BLANK).value + 4 <= 65536
    ensures Parsed(Received("", chunks)) == Parsed(Concat(chunks))
  {
    hide Parsed, Received, Find;
    var all := Concat(chunks);
    assert "" + all == all;
    ReceivedAll("", chunks, Find(all, BLANK).value);
    var buf := Received("", chunks);
    assert all == buf + all[|buf|..];
    BeforeStable(buf, all[|buf|..]);
  }

  // ---------- the member token ----------

  /** str(n) */
  function Str(n: int): string { if n < 0 then "-" + Dec(-n) else Dec(n) }

  function EncodeMember(m: Member): string { m.0 + ":" + Str(m.1) }

  /** token.rfind(':') */
  function LastColon(token: string): (r: Option<nat>)
    ensures r.Some? ==> r.value < |token| && token[r.value] == ':'
  {
    if token == "" then None
    else if token[|token| - 1] == ':' then Some(|token| - 1)
    else LastColon(token[..|token| - 1])
  }

  /** _decode_member; None for a missing cookie, a missing colon or a bad port. */
  function DecodeMember(token: Option<string>): Option<Member> {
    if token.None? then None
    else
      match LastColon(token.value)
      case None => None
      case Some(i) =>
        match PyInt(token.value[i + 1..])
        case None => None
        case Some(port) => Some((token.value[..i], port))
  }

  lemma {:induction false} LastColonIs(a: string, b: string)
    requires ':' !in b
    ensures LastColon(a + ":" + b) == Some(|a|)
  {
    var s := a + ":" + b;
    if b != "" {
      assert b[|b| - 1] in b;
      assert s[..|s| - 1] == a + ":" + b[..|b| - 1];
      LastColonIs(a, b[..|b| - 1]);
    }
  }

  lemma StrReads(n: int)
    ensures PyInt(Str(n)) == Some(n) && ':' !in Str(n) && Str(n) != ""
    ensures forall c :: c in Str(n) ==> IsDigit(c) || c == '-'
  {
    hide Digits, Dec, Strip;
    if n >= 0 {
      PyIntDec(n);
    } else {
      var d := Dec(-n);
      assert d[|d| - 1] in d;
      StripTrims("-" + d);
      assert ("-" + d)[1..] == d;
      DigitsDec(-n);
    }
  }

  /** The cookie token of every member decodes to that member, whatever its address contains. */
  lemma MemberRoundTrip(m: Member)
    ensures DecodeMember(Some(EncodeMember(m))) == Some(m)
  {
    hide PyInt, Str, LastColon;
    StrReads(m.1);
    LastColonIs(m.0, Str(m.1));
    var token := EncodeMember(m);
    assert token[|m.0| + 1..] == Str(m.1) && token[..|m.0|] == m.0;
  }

  // ---------- the choice ----------

  type Indexes = map<string, int>

  /** _select_member */
  function NextMember(rr: Indexes, tg: string, members: seq<Member>): (Indexes, Option<Member>) {
    if members == [] then (rr, None)
    else
      var i := ((if tg in rr then rr[tg] else -1) + 1) % |members|;
      (rr[tg := i], Some(members[i]))
  }

  /** The choice in _handle: healthy is what the stickiness check sees, members what the round
      robin sees. */
  function Choose(rr: Indexes, tg: Option<string>, sticky: bool, healthy: seq<Member>, members: seq<Member>,
                  token: Option<string>): (Indexes, Option<Member>)
  {
    if tg.None? then (rr, None)
    else
      var candidate := DecodeMember(token);
      if sticky && candidate.Some? && candidate.value in healthy then (rr, candidate)
      else NextMember(rr, tg.value, members)
  }

  class AlbListenerProxy {
    var rrIndex: Indexes

    constructor ()
      ensures rrIndex == map[]
    {
      rrIndex := map[];
    }

    method SelectMember(tg: string, members: seq<Member>) returns (m: Option<Member>)
      modifies this
      ensures (rrIndex, m) == NextMember(old(rrIndex), tg, members)
    {
      if members == [] { return None; }
      var i := if tg in rrIndex then rrIndex[tg] else -1;
      i := (i + 1) % |members|;
      rrIndex := rrIndex[tg := i];
      return Some(members[i]);
    }

    method Handle(tg: Option<string>, sticky: bool, healthy: seq<Member>, members: seq<Member>, cookies: map<string, string>)
      returns (m: Option<Member>)
      modifies this
      ensures (rrIndex, m) == Choose(old(rrIndex), tg, sticky, healthy, members, Cookie(cookies))
    {
      m := None;
      if tg.None? { return; }
      if sticky {
        var candidate := DecodeMember(Cookie(cookies));
        if candidate.Some? && candidate.value in healthy { m := candidate; }
      }
      if m.None? { m := SelectMember(tg.value, members); }
    }
  }

  const NAME := "AWSALB"

  function Cookie(cookies: map<string, string>): Option<string> {
    if NAME in cookies then Some(cookies[NAME]) else None
  }

  // ---------- the injection ----------

  function CookieLine(m: Member, duration: int): string {
    "Set-Cookie: " + NAME + "=" + EncodeMember(m) + "; Max-Age=" + Str(duration) + "; Path=/"
  }

  /** What the client is sent for the buffered response. */
  function Injected(resp: string, m: Member, duration: int): string {
    match Find(resp, BLANK)
    case None => resp
    case Some(i) => resp[..i] + CRLF + CookieLine(m, duration) + BLANK + resp[i + |BLANK|..]
  }
}
