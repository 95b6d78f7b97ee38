/** engine/alb_lb.py: the stickiness loop closes: the injected cookie comes back as the member it
    names. */
module AlbSticky {
  import opened Text
  import opened Alb
  import BigIp

  // ---------- the injection ----------

  lemma CrlfBorderFree()
    ensures BorderFree(CRLF)
  {
    assert CRLF[..1][0] == '\r' && CRLF[2 - 1..][0] == '\n';
  }

  lemma CookieLineClean(m: Member, duration: int)
    requires '\r' !in m.0
    ensures '\r' !in CookieLine(m, duration) && CookieLine(m, duration) != ""
  {
    hide Str;
    StrReads(m.1);
    StrReads(duration);
  }

  /** The blank line of the injected response is the one that was written. */
  lemma BlankStays(head: string, line: string, rest: string)
    requires Find(head + BLANK, BLANK) == Some(|head|) && '\r' !in line && line != ""
    ensures Find(head + CRLF + line + BLANK + rest, BLANK) == Some(|head| + 2 + |line|)
  {
    var s, end := head + CRLF + line + BLANK + rest, |head| + 2 + |line|;
    FindMeans(head + BLANK, BLANK, 0);
    assert s[end..end + 4] == BLANK;
    forall k: nat | k < end ensures !At(s, BLANK, k) {
      assert BLANK[0] == '\r' && BLANK[1] == '\n' && BLANK[2] == '\r';
      if k + 4 <= |head| + 2 {
        assert s[k..k + 4] == (head + BLANK)[k..k + 4];
        assert !At(head + BLANK, BLANK, k);
      } else if k >= |head| + 2 {
        assert s[k] == line[k - (|head| + 2)];
        assert s[k..k + 4][0] == s[k];
      } else {
        assert s[|head|] == '\r' && s[|head| + 1] == '\n' && s[|head| + 2] == line[0];
        assert s[k..k + 4][0] == s[k] && s[k..k + 4][1] == s[k + 1] && s[k..k + 4][2] == s[k + 2];
      }
    }
    FindIs(s, BLANK, 0, end);
  }

  /** The header lines of a message and its body. */
  function Lines(message: string): seq<string> { Split(Before(message, BLANK), CRLF) }

  function Body(message: string): string { After(message, BLANK) }

  /** Cookie injection keeps the status line, every header line and every body byte, in order, and
      adds exactly one line, the cookie's, at the end of the header; a response without a blank
      line goes through unchanged. */
  lemma InjectionAddsOneLine(resp: string, m: Member, duration: int)
    requires '\r' !in m.0
    ensures var r := Injected(resp, m, duration);
      if Contains(resp, BLANK) then Lines(r) == Lines(resp) + [CookieLine(m, duration)] && Body(r) == Body(resp)
      else r == resp
  {
    hide CookieLine, Split, Find;
    if Contains(resp, BLANK) {
      var i, line := Find(resp, BLANK).value, CookieLine(m, duration);
      FirstBlank(resp, i);
      var head, rest := resp[..i], resp[i + |BLANK|..];
      var r := Injected(resp, m, duration);
      CookieLineClean(m, duration);
      BlankStays(head, line, rest);
      var newHead := head + CRLF + line;
      assert r == newHead + BLANK + rest;
      assert r[..|newHead|] == newHead && r[|newHead| + 4..] == rest;
      CrlfBorderFree();
      SplitAround(head, CRLF, line);
      OneLine(line);
    }
  }

  lemma FirstBlank(resp: string, i: nat)
    requires Find(resp, BLANK) == Some(i)
    ensures i + 4 <= |resp| && Find(resp[..i] + BLANK, BLANK) == Some(i)
  {
    FindMeans(resp, BLANK, 0);
    var s := resp[..i] + BLANK;
    assert resp == s + resp[i + 4..];
    forall k: nat | k < i ensures !At(s, BLANK, k) { AtAppend(s, resp[i + 4..], BLANK, k); }
    assert s[i..i + 4] == BLANK;
    FindIs(s, BLANK, 0, i);
  }

  /** A text without a carriage return is one line. */
  lemma OneLine(line: string)
    requires '\r' !in line
    ensures Split(line, CRLF) == [line] && Find(line, CRLF).None?
  {
    forall k: nat | k + 2 <= |line| ensures !At(line, CRLF, k) {
      assert line[k..k + 2][0] == line[k];
    }
    FindMeans(line, CRLF, 0);
  }

  // ---------- a request with cookies ----------

  /** A header line or request line: not empty, and without a carriage return. */
  predicate IsLine(line: string) { line != "" && '\r' !in line }

  lemma {:induction false} BlankAfterLines(lines: seq<string>, x: string)
    requires lines != [] && forall l :: l in lines ==> IsLine(l)
    ensures Find(Join(lines, CRLF) + BLANK + x, BLANK) == Some(|Join(lines, CRLF)|)
    decreases |lines|
  {
    var l := lines[0];
    assert l in lines;
    var s := Join(lines, CRLF) + BLANK + x;
    if |lines| == 1 {
      assert s[|l|..|l| + 4] == BLANK;
      forall k: nat | k < |l| ensures !At(s, BLANK, k) {
        assert s[k] == l[k];
        if k + 4 <= |s| { assert s[k..k + 4][0] == s[k]; }
      }
      FindIs(s, BLANK, 0, |l|);
    } else {
      BlankAfterLines(lines[1..], x);
      assert lines[1] in lines;
      LaterBlank(l, Join(lines[1..], CRLF) + BLANK + x, |Join(lines[1..], CRLF)|);
      assert s == l + CRLF + (Join(lines[1..], CRLF) + BLANK + x);
    }
  }

  lemma LaterBlank(l: string, s: string, i: nat)
    requires '\r' !in l && Find(s, BLANK) == Some(i) && s[0] != '\r'
    ensures Find(l + CRLF + s, BLANK) == Some(|l| + 2 + i)
  {
    var t := l + CRLF + s;
    FindMeans(s, BLANK, 0);
    assert t[|l| + 2 + i..|l| + 2 + i + 4] == s[i..i + 4];
    forall k: nat | k < |l| + 2 + i ensures !At(t, BLANK, k) {
      assert t[|l| + 1] == '\n' && t[|l| + 2] == s[0];
      assert BLANK[0] == '\r' && BLANK[2] == '\r';
      if k + 4 <= |t| {
        assert t[k..k + 4][0] == t[k] && t[k..k + 4][2] == t[k + 2];
        if k < |l| {
          assert t[k] == l[k];
        } else if k >= |l| + 2 {
          assert t[k..k + 4] == s[k - (|l| + 2)..k - (|l| + 2) + 4];
          assert !At(s, BLANK, k - (|l| + 2));
        }
      }
    }
    FindIs(t, BLANK, 0, |l| + 2 + i);
  }

  /** A request of these lines is parsed line by line, whatever follows the blank line. */
  lemma RequestReads(lines: seq<string>, x: string)
    requires lines != [] && forall l :: l in lines ==> IsLine(l)
    ensures Parsed(Join(lines, CRLF) + BLANK + x) == ReadHeaders(Request(PathOf(lines[0]), "", map[]), lines[1..])
  {
    hide ReadHeaders, PathOf, Join, Split;
    var buf := Join(lines, CRLF) + BLANK + x;
    BlankAfterLines(lines, x);
    assert buf[..|Join(lines, CRLF)|] == Join(lines, CRLF);
    forall l | l in lines ensures Find(l, CRLF).None? { OneLine(l); }
    CrlfBorderFree();
    SplitJoin(lines, CRLF);
  }

  // ---------- one cookie header ----------

  type Pair = (string, string)

  function PairText(p: Pair): string { p.0 + "=" + p.1 }

  /** A cookie that can be sent: its text is trimmed, and no separator is inside it. */
  predicate CleanPair(p: Pair) {
    '=' !in p.0 && ';' !in PairText(p) && '\r' !in PairText(p) && Trimmed(PairText(p))
  }

  function Texts(pairs: seq<Pair>): seq<string> {
    if pairs == [] then [] else [PairText(pairs[0])] + Texts(pairs[1..])
  }

  function CookieHeader(pairs: seq<Pair>): string { "Cookie: " + Join(Texts(pairs), "; ") }

  function PutAll(cookies: map<string, string>, pairs: seq<Pair>): map<string, string>
    decreases |pairs|
  {
    if pairs == [] then cookies else PutAll(cookies[pairs[0].0 := pairs[0].1], pairs[1..])
  }

  lemma OneCookieReads(cookies: map<string, string>, p: Pair)
    requires CleanPair(p)
    ensures AddCookie(cookies, PairText(p)) == cookies[p.0 := p.1]
    ensures AddCookie(cookies, " " + PairText(p)) == cookies[p.0 := p.1]
  {
    hide RStrip, FindFrom;
    var t := PairText(p);
    var spaced := " " + t;
    NoCharNoFind(p.0, '=');
    SingleBorderFree('=');
    FirstBeforeSeparator(p.0, "=", p.1);
    FirstBeforeSpaced(p, spaced);
    StripTrims(t);
    assert spaced[1..] == t && IsSpace(' ');
    assert LStrip(spaced) == LStrip(t);
    assert t[..|p.0|] == p.0 && t[|p.0| + 1..] == p.1;
  }

  lemma SingleBorderFree(c: char)
    ensures BorderFree([c])
  {}

  lemma FirstBeforeSpaced(p: Pair, spaced: string)
    requires spaced == " " + PairText(p)
    ensures Find(spaced, "=").Some?
  {
    assert spaced[1 + |p.0|..1 + |p.0| + 1] == "=";
    FindMeans(spaced, "=", 0);
    assert At(spaced, "=", 1 + |p.0|);
  }

  /** Every text after the first with a space before it. */
  function Spaced(texts: seq<string>): seq<string> { if texts == [] then [] else [" " + texts[0]] + Spaced(texts[1..]) }

  lemma {:induction false} JoinSpaced(texts: seq<string>)
    requires texts != []
    ensures Join(texts, "; ") == Join([texts[0]] + Spaced(texts[1..]), ";")
    ensures Join(Spaced(texts), ";") == " " + Join(texts, "; ")
  {
    if |texts| > 1 {
      JoinSpaced(texts[1..]);
      var rest := Spaced(texts[1..]);
      assert ([texts[0]] + rest)[1..] == rest && Spaced(texts)[1..] == rest;
      assert "; " == ";" + " ";
      assert texts[0] + ";" + (" " + Join(texts[1..], "; ")) == texts[0] + "; " + Join(texts[1..], "; ");
      assert " " + texts[0] + ";" + (" " + Join(texts[1..], "; ")) == " " + (texts[0] + "; " + Join(texts[1..], "; "));
    } else {
      assert texts[1..] == [] && [texts[0]] + [] == [texts[0]];
    }
  }

  lemma {:induction false} SpacedCookiesRead(cookies: map<string, string>, pairs: seq<Pair>)
    requires forall p :: p in pairs ==> CleanPair(p)
    ensures AddCookies(cookies, Spaced(Texts(pairs))) == PutAll(cookies, pairs)
    ensures forall t :: t in Spaced(Texts(pairs)) ==> Find(t, ";").None?
    decreases |pairs|
  {
    hide AddCookie, Find;
    if pairs != [] {
      var p := pairs[0];
      assert p in pairs;
      OneCookieReads(cookies, p);
      NoCharNoFind(" " + PairText(p), ';');
      SpacedCookiesRead(cookies[p.0 := p.1], pairs[1..]);
      assert Texts(pairs)[1..] == Texts(pairs[1..]);
      assert Spaced(Texts(pairs))[1..] == Spaced(Texts(pairs[1..]));
    }
  }

  lemma CookiesRead(cookies: map<string, string>, pairs: seq<Pair>)
    requires pairs != [] && forall p :: p in pairs ==> CleanPair(p)
    ensures AddCookies(cookies, Split(Join(Texts(pairs), "; "), ";")) == PutAll(cookies, pairs)
  {
    hide AddCookie, Find, Split, Join;
    var p, texts := pairs[0], Texts(pairs);
    assert p in pairs;
    assert texts[1..] == Texts(pairs[1..]);
    JoinSpaced(texts);
    var parts := [texts[0]] + Spaced(texts[1..]);
    OneCookieReads(cookies, p);
    NoCharNoFind(PairText(p), ';');
    SpacedCookiesRead(cookies[p.0 := p.1], pairs[1..]);
    assert parts[1..] == Spaced(texts[1..]);
    SingleBorderFree(';');
    SplitJoin(parts, ";");
  }

  lemma ByteStripKeeps(s: string)
    requires s != "" && Trimmed(s)
    ensures ByteStrip(" " + s) == s
  {
    assert forall c :: IsByteSpace(c) ==> IsSpace(c);
    var t := " " + s;
    assert t[0] == ' ' && t[1..] == s;
    assert ByteLStrip(s) == s && ByteLStrip(t) == ByteLStrip(s) && ByteRStrip(s) == s;
  }

  lemma {:induction false} JoinTrimmed(pairs: seq<Pair>)
    requires pairs != [] && forall p :: p in pairs ==> CleanPair(p)
    ensures Join(Texts(pairs), "; ") != "" && Trimmed(Join(Texts(pairs), "; ")) && '\r' !in Join(Texts(pairs), "; ")
  {
    hide IsSpace;
    assert pairs[0] in pairs;
    var t := PairText(pairs[0]);
    if |pairs| > 1 {
      JoinTrimmed(pairs[1..]);
      var rest := Join(Texts(pairs[1..]), "; ");
      assert Texts(pairs)[1..] == Texts(pairs[1..]);
      var all := t + "; " + rest;
      assert Join(Texts(pairs), "; ") == all;
      assert all[0] == t[0] && all[|all| - 1] == rest[|rest| - 1];
    }
  }

  lemma {:induction false} LowerIs(s: string)
    ensures |Lower(s)| == |s| && forall i :: 0 <= i < |s| ==> Lower(s)[i] == LowerChar(s[i])
  {
    if s != "" { LowerIs(s[1..]); }
  }

  lemma CookieHeaderKind(value: string)
    ensures !IsHost("Cookie: " + value) && IsCookie("Cookie: " + value)
    ensures After("Cookie: " + value, ":") == " " + value
  {
    hide FindFrom, Lower;
    var line := "Cookie: " + value;
    LowerIs(line);
    assert Lower(line)[0] == 'c' && "host:"[0] == 'h';
    assert Lower(line)[..7] == "cookie:";
    NoCharNoFind("Cookie", ':');
    SingleBorderFree(':');
    FirstBeforeSeparator("Cookie", ":", " " + value);
    assert line == "Cookie" + ":" + (" " + value);
  }

  lemma CookieHeaderReads(r: Request, pairs: seq<Pair>)
    requires pairs != [] && forall p :: p in pairs ==> CleanPair(p)
    ensures ReadHeader(r, CookieHeader(pairs)) == r.(cookies := PutAll(r.cookies, pairs))
    ensures IsLine(CookieHeader(pairs))
  {
    hide IsHost, IsCookie, After, ByteStrip, AddCookies, Split, Join, Texts, CleanPair;
    var value := Join(Texts(pairs), "; ");
    CookieHeaderKind(value);
    JoinTrimmed(pairs);
    ByteStripKeeps(value);
    CookiesRead(r.cookies, pairs);
  }

  // ---------- the loop closes ----------

  /** What a client keeps of a Set-Cookie line: the text up to the first semicolon (section 5.2 of
      RFC 6265). */
  function ClientPair(line: string): string { Before(ByteStrip(After(line, ":")), ";") }

  lemma {:induction false} PutAllLast(cookies: map<string, string>, a: seq<Pair>, p: Pair, b: seq<Pair>)
    requires forall q :: q in b ==> q.0 != p.0
    ensures p.0 in PutAll(cookies, a + [p] + b) && PutAll(cookies, a + [p] + b)[p.0] == p.1
    decreases |a| + |b|
  {
    var all := a + [p] + b;
    if a != [] {
      assert all[1..] == a[1..] + [p] + b;
      PutAllLast(cookies[a[0].0 := a[0].1], a[1..], p, b);
    } else {
      assert all[0] == p && all[1..] == b;
      PutAllKeeps(cookies[p.0 := p.1], b, p.0);
    }
  }

  lemma {:induction false} PutAllKeeps(cookies: map<string, string>, b: seq<Pair>, k: string)
    requires k in cookies && forall q :: q in b ==> q.0 != k
    ensures k in PutAll(cookies, b) && PutAll(cookies, b)[k] == cookies[k]
    decreases |b|
  {
    if b != [] {
      assert b[0] in b;
      PutAllKeeps(cookies[b[0].0 := b[0].1], b[1..], k);
    }
  }

  lemma {:induction false} ReadHeadersAppend(r: Request, a: seq<string>, b: seq<string>)
    ensures ReadHeaders(r, a + b) == ReadHeaders(ReadHeaders(r, a), b)
    decreases |a|
  {
    hide ReadHeader;
    if a == [] {
      assert a + b == b;
    } else {
      assert (a + b)[1..] == a[1..] + b;
      ReadHeadersAppend(ReadHeader(r, a[0]), a[1..], b);
    }
  }

  lemma {:induction false} OtherHeaders(r: Request, lines: seq<string>)
    requires forall l :: l in lines ==> !IsCookie(l)
    ensures ReadHeaders(r, lines).cookies == r.cookies
    decreases |lines|
  {
    hide IsCookie, IsHost, After, ByteStrip, AddCookies;
    if lines != [] {
      assert lines[0] in lines;
      OtherHeaders(ReadHeader(r, lines[0]), lines[1..]);
    }
  }

  lemma TokenHas(m: Member, c: char)
    requires c !in m.0 && c != ':' && c != '-' && !IsDigit(c)
    ensures c !in EncodeMember(m)
  {
    hide Str;
    StrReads(m.1);
  }

  /** The first pair of the injected line is the cookie with the member's token. */
  lemma ClientKeepsToken(m: Member, duration: int)
    requires ';' !in m.0
    ensures ClientPair(CookieLine(m, duration)) == PairText((NAME, EncodeMember(m)))
  {
    hide Str, FindFrom, ByteStrip, Lower, EncodeMember;
    var pair, rest := PairText((NAME, EncodeMember(m))), " Max-Age=" + Str(duration) + "; Path=/";
    assert ';' !in EncodeMember(m) by { TokenHas(m, ';'); }
    var value := pair + ";" + rest;
    var line := CookieLine(m, duration);
    assert line == "Set-Cookie" + ":" + (" " + value);
    NoCharNoFind("Set-Cookie", ':');
    SingleBorderFree(':');
    FirstBeforeSeparator("Set-Cookie", ":", " " + value);
    assert After(line, ":") == " " + value;
    assert value[0] == 'A' && value[|value| - 1] == '/';
    ByteStripKeeps(value);
    NoCharNoFind(pair, ';');
    SingleBorderFree(';');
    FirstBeforeSeparator(pair, ";", rest);
    assert value[..|pair|] == pair;
  }

  lemma TokenIsClean(m: Member)
    requires '\r' !in m.0 && ';' !in m.0
    ensures CleanPair((NAME, EncodeMember(m)))
  {
    hide Str;
    StrReads(m.1);
    var t := PairText((NAME, EncodeMember(m)));
    assert t[0] == 'A' && t[|t| - 1] == Str(m.1)[|Str(m.1)| - 1] && t[|t| - 1] in Str(m.1);
  }

  /** A request: its request line, any headers, one Cookie header, and no later Cookie header. */
  function RequestText(first: string, before: seq<string>, pairs: seq<Pair>, after: seq<string>, body: string): string {
    Join([first] + before + [CookieHeader(pairs)] + after, CRLF) + BLANK + body
  }

  predicate CleanLines(first: string, before: seq<string>, after: seq<string>) {
    IsLine(first) && (forall l :: l in before ==> IsLine(l)) && forall l :: l in after ==> IsLine(l) && !IsCookie(l)
  }

  predicate CleanRequest(first: string, before: seq<string>, pairs: seq<Pair>, after: seq<string>) {
    CleanLines(first, before, after) && pairs != [] && forall p :: p in pairs ==> CleanPair(p)
  }

  /** One Cookie header among others, with none after it. */
  lemma CookiesOfHeaders(r: Request, before: seq<string>, pairs: seq<Pair>, after: seq<string>)
    requires pairs != [] && (forall p :: p in pairs ==> CleanPair(p)) && forall l :: l in after ==> !IsCookie(l)
    ensures ReadHeaders(r, before + ([CookieHeader(pairs)] + after)).cookies == PutAll(ReadHeaders(r, before).cookies, pairs)
  {
    hide CookieHeader, IsCookie, CleanPair, ReadHeaders, ReadHeader, PutAll;
    var header := CookieHeader(pairs);
    var r1 := ReadHeaders(r, before);
    ReadHeadersAppend(r, before, [header] + after);
    ReadHeadersAppend(r1, [header], after);
    ReadOne(r1, header);
    CookieHeaderReads(r1, pairs);
    OtherHeaders(ReadHeader(r1, header), after);
  }

  lemma CookiesOfRequest(first: string, before: seq<string>, pairs: seq<Pair>, after: seq<string>, body: string)
    requires CleanRequest(first, before, pairs, after)
    ensures var r := ReadHeaders(Request(PathOf(first), "", map[]), before);
      Parsed(RequestText(first, before, pairs, after, body)).cookies == PutAll(r.cookies, pairs)
  {
    hide PathOf, CookieHeader, IsCookie, IsLine, CleanPair, ReadHeaders, ReadHeader, Parsed, PutAll, Join;
    var header, start := CookieHeader(pairs), Request(PathOf(first), "", map[]);
    var lines := [first] + before + [header] + after;
    CookieHeaderReads(start, pairs);
    assert forall l :: l in lines ==> IsLine(l);
    RequestReads(lines, body);
    assert lines[0] == first && lines[1..] == before + ([header] + after);
    CookiesOfHeaders(start, before, pairs, after);
  }

  lemma ReadOne(r: Request, line: string)
    ensures ReadHeaders(r, [line]) == ReadHeader(r, line)
  {
    hide ReadHeader;
    assert [line][1..] == [];
  }

  /** The client keeps from the injected line exactly the cookie it has to return; any request that
      returns it, among other cookies and headers, parses to that token; and the choice is then the
      same member, without moving the round robin, whenever it is still healthy, and the next member
      of the round robin otherwise. */
  lemma StickinessCloses(m: Member, duration: int, first: string, before: seq<string>, a: seq<Pair>, b: seq<Pair>,
                         after: seq<string>, body: string,
                         rr: Indexes, tg: string, healthy: seq<Member>, members: seq<Member>)
    requires '\r' !in m.0 && ';' !in m.0 && forall p :: p in b ==> p.0 != NAME
    requires CleanLines(first, before, after) && forall p :: p in a + b ==> CleanPair(p)
    ensures ClientPair(CookieLine(m, duration)) == PairText((NAME, EncodeMember(m)))
    ensures var request := Parsed(RequestText(first, before, a + [(NAME, EncodeMember(m))] + b, after, body));
      Choose(rr, Some(tg), true, healthy, members, Cookie(request.cookies))
      == if m in healthy then (rr, Some(m)) else NextMember(rr, tg, members)
  {
    hide CookieLine, ClientPair, CleanLines, CleanPair, EncodeMember, DecodeMember, ReadHeaders, PutAll, Parsed, RequestText;
    ClientKeepsToken(m, duration);
    var pair := (NAME, EncodeMember(m));
    TokenIsClean(m);
    forall p | p in a + [pair] + b ensures CleanPair(p) { assert p == pair || p in a + b; }
    CookiesOfRequest(first, before, a + [pair] + b, after, body);
    PutAllLast(ReadHeaders(Request(PathOf(first), "", map[]), before).cookies, a, pair, b);
    MemberRoundTrip(m);
  }

  // ---------- without a usable cookie ----------

  /** The healthy members of each target group. */
  type Pools = map<string, seq<Member>>

  function Place(rr: Indexes, tg: string): int { if tg in rr then rr[tg] else -1 }

  ghost predicate InPlace(rr: Indexes, pools: Pools) {
    forall tg :: tg in pools && pools[tg] != [] ==> -1 <= Place(rr, tg) < |pools[tg]|
  }

  /** The members that a sequence of round-robin choices, each for some group, gives one group. */
  function Given(rr: Indexes, pools: Pools, choices: seq<string>, tg: string): seq<Member>
    requires forall g :: g in choices ==> g in pools
    decreases |choices|
  {
    if choices == [] then []
    else
      assert choices[0] in choices;
      var (rr', m) := NextMember(rr, choices[0], pools[choices[0]]);
      (if choices[0] == tg && m.Some? then [m.value] else []) + Given(rr', pools, choices[1..], tg)
  }

  lemma NextPlace(rr: Indexes, pools: Pools, g: string)
    requires InPlace(rr, pools) && g in pools
    ensures var (rr', m) := NextMember(rr, g, pools[g]);
      InPlace(rr', pools) && (m.None? <==> pools[g] == [])
      && (forall tg :: tg != g ==> Place(rr', tg) == Place(rr, tg))
      && (m.Some? ==> Place(rr', g) == (Place(rr, g) + 1) % |pools[g]| && m.value == pools[g][(Place(rr, g) + 1) % |pools[g]|])
  {}

  lemma {:induction false} TurnsFrom(rr: Indexes, pools: Pools, choices: seq<string>, tg: string, j: nat)
    requires InPlace(rr, pools) && (forall g :: g in choices ==> g in pools) && j < |Given(rr, pools, choices, tg)|
    ensures tg in pools && pools[tg] != []
    ensures Given(rr, pools, choices, tg)[j] == pools[tg][(Place(rr, tg) + 1 + j) % |pools[tg]|]
    decreases |choices|
  {
    hide NextMember, InPlace, Place;
    var g := choices[0];
    assert g in choices;
    NextPlace(rr, pools, g);
    var (rr', m) := NextMember(rr, g, pools[g]);
    if g == tg && m.Some? {
      assert -1 <= Place(rr, tg) < |pools[tg]| by { PlaceFits(rr, pools, tg); }
      if j > 0 {
        TurnsFrom(rr', pools, choices[1..], tg, j - 1);
        BigIp.NextTurn(Place(rr, tg), |pools[tg]|, j);
      }
    } else {
      TurnsFrom(rr', pools, choices[1..], tg, j);
    }
  }

  lemma PlaceFits(rr: Indexes, pools: Pools, tg: string)
    requires InPlace(rr, pools) && tg in pools && pools[tg] != []
    ensures -1 <= Place(rr, tg) < |pools[tg]|
  {}

  /** Without a usable cookie: in any sequence of choices over all target groups, the j-th choice for
      a group takes member j modulo the size of the group's own healthy list. */
  lemma GroupsTakeTurns(pools: Pools, choices: seq<string>, tg: string, j: nat)
    requires (forall g :: g in choices ==> g in pools) && j < |Given(map[], pools, choices, tg)|
    ensures tg in pools && pools[tg] != [] && Given(map[], pools, choices, tg)[j] == pools[tg][j % |pools[tg]|]
  {
    TurnsFrom(map[], pools, choices, tg, j);
  }
}
