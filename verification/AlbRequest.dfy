/** engine/alb_lb.py, _parse_request: what a request says is what the listener reads. */
module AlbRequest {
  import opened Text
  import opened Alb
  import opened AlbSticky

  /** A header as a client writes it: the host, cookies, or anything else. */
  datatype Header = Host(name: string, value: string) | Cookies(pairs: seq<Pair>) | Other(name: string, value: string)

  predicate IsClean(h: Header) {
    match h
    case Host(name, value) => Lower(name) == "host" && IsName(name) && IsLine(name + ":" + value)
    case Cookies(pairs) => pairs != [] && forall p :: p in pairs ==> CleanPair(p)
    case Other(name, value) => Lower(name) != "host" && Lower(name) != "cookie" && IsName(name) && IsLine(name + ":" + value)
  }

  predicate IsName(name: string) { ':' !in name }

  function Line(h: Header): string {
    match h
    case Host(name, value) => name + ":" + value
    case Cookies(pairs) => CookieHeader(pairs)
    case Other(name, value) => name + ":" + value
  }

  function LinesOf(hs: seq<Header>): seq<string> { if hs == [] then [] else [Line(hs[0])] + LinesOf(hs[1..]) }

  /** A header is recognised by its name in any case. */
  lemma NameDecides(name: string, value: string)
    requires IsName(name)
    ensures IsHost(name + ":" + value) <==> Lower(name) == "host"
    ensures IsCookie(name + ":" + value) <==> Lower(name) == "cookie"
    ensures After(name + ":" + value, ":") == value
  {
    hide Lower, FindFrom;
    var line := name + ":" + value;
    LowerMeans(line);
    LowerMeans(name);
    StartsWithName(name, value, "host");
    StartsWithName(name, value, "cookie");
    NoCharNoFind(name, ':');
    SingleBorderFree(':');
    FirstBeforeSeparator(name, ":", value);
  }

  lemma StartsWithName(name: string, value: string, known: string)
    requires IsName(name) && IsName(known)
    ensures known + ":" <= Lower(name + ":" + value) <==> Lower(name) == known
  {
    hide Lower;
    var line := name + ":" + value;
    var low := Lower(line);
    LowerMeans(line);
    LowerMeans(name);
    assert forall i :: 0 <= i < |name| ==> line[i] == name[i] && name[i] in name;
    assert line[|name|] == ':' && low[|name|] == ':';
    assert forall i :: 0 <= i < |name| ==> low[i] == Lower(name)[i] && low[i] != ':';
    assert Lower(name) == low[..|name|];
    if known + ":" <= low {
      assert low[|known|] == (known + ":")[|known|] == ':';
      assert forall i :: 0 <= i < |known| ==> low[i] == (known + ":")[i] == known[i] && known[i] in known;
      assert |known| == |name|;
      assert low[..|name|] == (known + ":")[..|name|] == known;
    }
    if Lower(name) == known { assert low[..|name| + 1] == known + ":"; }
  }

  /** The value of the last host header, without spaces around it; what it was where there is none. */
  ghost predicate HostIs(hs: seq<Header>, before: string, host: string) {
    if exists k :: 0 <= k < |hs| && hs[k].Host?
    then exists k :: 0 <= k < |hs| && hs[k].Host? && host == ByteStrip(hs[k].value) && forall j :: k < j < |hs| ==> !hs[j].Host?
    else host == before
  }

  /** The pairs of all cookie headers, in order. */
  function AllPairs(hs: seq<Header>): seq<Pair> {
    if hs == [] then [] else (if hs[0].Cookies? then hs[0].pairs else []) + AllPairs(hs[1..])
  }

  /** The last pair of this name has this value. */
  ghost predicate IsLast(pairs: seq<Pair>, name: string, value: string) {
    exists k :: 0 <= k < |pairs| && pairs[k] == (name, value) && forall j :: k < j < |pairs| ==> pairs[j].0 != name
  }

  /** The last pair of a name decides its value, and only names that are sent are there. */
  ghost predicate CookiesAre(pairs: seq<Pair>, cookies: map<string, string>) {
    forall name, value :: (name in cookies && cookies[name] == value) <==> IsLast(pairs, name, value)
  }

  lemma PutAllMeans(pairs: seq<Pair>)
    ensures CookiesAre(pairs, PutAll(map[], pairs))
  {
    hide IsLast, PutAll;
    var all := PutAll(map[], pairs);
    forall name, value ensures (name in all && all[name] == value) <==> IsLast(pairs, name, value) {
      PutAllAt(pairs, name, value);
    }
  }

  lemma {:induction false} PutAllAt(pairs: seq<Pair>, name: string, value: string)
    ensures var all := PutAll(map[], pairs); (name in all && all[name] == value) <==> IsLast(pairs, name, value)
    decreases |pairs|
  {
    hide IsLast;
    NoneIsLast(name, value);
    if pairs != [] {
      hide PutAll;
      var init, last := pairs[..|pairs| - 1], pairs[|pairs| - 1];
      PutAllAt(init, name, value);
      assert init + [last] == pairs;
      PutAllSnoc(map[], init, last);
      LastPair(init, last, name, value);
    }
  }

  lemma NoneIsLast(name: string, value: string)
    ensures !IsLast([], name, value)
  {}

  lemma LastPair(init: seq<Pair>, last: Pair, name: string, value: string)
    ensures IsLast(init + [last], name, value) <==> if last.0 == name then last.1 == value else IsLast(init, name, value)
  {
    var pairs, n := init + [last], |init|;
    assert pairs[n] == last && forall j :: 0 <= j < n ==> pairs[j] == init[j];
    if last == (name, value) { assert pairs[n] == (name, value); }
    if k :| 0 <= k < n && init[k] == (name, value) && forall j :: k < j < n ==> init[j].0 != name {
      assert pairs[k] == (name, value);
    }
  }

  lemma {:induction false} PutAllSnoc(cookies: map<string, string>, pairs: seq<Pair>, p: Pair)
    ensures PutAll(cookies, pairs + [p]) == PutAll(cookies, pairs)[p.0 := p.1]
    decreases |pairs|
  {
    if pairs == [] {
      assert pairs + [p] == [p] && [p][1..] == [];
    } else {
      assert (pairs + [p])[1..] == pairs[1..] + [p];
      PutAllSnoc(cookies[pairs[0].0 := pairs[0].1], pairs[1..], p);
    }
  }

  lemma {:induction false} PutAllTwice(cookies: map<string, string>, a: seq<Pair>, b: seq<Pair>)
    ensures PutAll(cookies, a + b) == PutAll(PutAll(cookies, a), b)
    decreases |a|
  {
    if a == [] {
      assert a + b == b;
    } else {
      assert (a + b)[1..] == a[1..] + b;
      PutAllTwice(cookies[a[0].0 := a[0].1], a[1..], b);
    }
  }

  lemma OneHeaderReads(r: Request, h: Header)
    requires IsClean(h)
    ensures IsLine(Line(h))
    ensures ReadHeader(r, Line(h)) ==
      if h.Host? then r.(host := ByteStrip(h.value))
      else if h.Cookies? then r.(cookies := PutAll(r.cookies, h.pairs))
      else r
  {
    hide IsHost, IsCookie, After, ByteStrip, Lower, AddCookies, CleanPair;
    match h
    case Host(name, value) => NameDecides(name, value);
    case Cookies(pairs) => CookieHeaderReads(r, pairs);
    case Other(name, value) => NameDecides(name, value);
  }

  lemma {:induction false} HeadersRead(r: Request, hs: seq<Header>)
    requires forall h :: h in hs ==> IsClean(h)
    ensures var r' := ReadHeaders(r, LinesOf(hs));
      r'.path == r.path && HostIs(hs, r.host, r'.host) && r'.cookies == PutAll(r.cookies, AllPairs(hs))
    ensures forall l :: l in LinesOf(hs) ==> IsLine(l)
    decreases |hs|
  {
    hide ReadHeader, IsClean, Line, HostIs, ByteStrip;
    if hs == [] {
      assert HostIs(hs, r.host, r.host) by { NoHost(r.host); }
    } else {
      var h := hs[0];
      assert h in hs;
      var r1 := ReadHeader(r, Line(h));
      OneHeaderReads(r, h);
      HeadersRead(r1, hs[1..]);
      HostCons(hs, r.host, ReadHeaders(r1, LinesOf(hs[1..])).host);
      PutAllTwice(r.cookies, if h.Cookies? then h.pairs else [], AllPairs(hs[1..]));
    }
  }

  lemma NoHost(host: string)
    ensures HostIs([], host, host)
  {}

  lemma HostCons(hs: seq<Header>, before: string, host: string)
    requires hs != [] && HostIs(hs[1..], if hs[0].Host? then ByteStrip(hs[0].value) else before, host)
    ensures HostIs(hs, before, host)
  {
    hide ByteStrip;
    var rest := hs[1..];
    assert forall j :: 0 < j < |hs| ==> hs[j] == rest[j - 1];
    assert forall j :: 0 <= j < |rest| ==> rest[j] == hs[j + 1];
    if k :| 0 <= k < |rest| && rest[k].Host? && host == ByteStrip(rest[k].value) && forall j :: k < j < |rest| ==> !rest[j].Host? {
      assert hs[k + 1].Host? && host == ByteStrip(hs[k + 1].value) && forall j :: k + 1 < j < |hs| ==> !hs[j].Host?;
    }
  }

  lemma PathReads(verb: string, path: string, query: string, version: string)
    requires ' ' !in verb && ' ' !in path && ' ' !in query && '?' !in path && (query == "" || query[0] == '?')
    ensures PathOf(verb + " " + (path + query) + " " + version) == path
  {
    hide FindFrom, Split;
    var target := path + query;
    var line := verb + " " + target + " " + version;
    SingleBorderFree(' ');
    NoCharNoFind(verb, ' ');
    NoCharNoFind(target, ' ');
    assert line == verb + " " + (target + " " + version);
    SplitAround(verb, " ", target + " " + version);
    SplitAround(target, " ", version);
    SplitOnce(verb, " ");
    SplitOnce(target, " ");
    assert Split(line, " ")[1] == target;
    NoCharNoFind(path, '?');
    if query == "" {
      assert target == path;
    } else {
      SingleBorderFree('?');
      FirstBeforeSeparator(path, "?", query[1..]);
      assert target == path + "?" + query[1..];
      assert target[..|path|] == path;
    }
  }

  /** A request line of two words has its path too; one without a space has the path "/". */
  lemma ShortLinePath(verb: string, path: string)
    requires ' ' !in verb && ' ' !in path && '?' !in path
    ensures PathOf(verb + " " + path) == path && PathOf(verb) == "/"
  {
    hide FindFrom, Split;
    SingleBorderFree(' ');
    NoCharNoFind(verb, ' ');
    NoCharNoFind(path, ' ');
    SplitAround(verb, " ", path);
    SplitOnce(verb, " ");
    SplitOnce(path, " ");
    NoCharNoFind(path, '?');
    NoCharNoFind("/", '?');
  }

  /** The parsed request carries the path without its query, the value of the last host header and
      the last value of every cookie that is sent, whatever headers come in between. */
  lemma ReadsWhatIsSaid(verb: string, path: string, query: string, version: string, hs: seq<Header>, body: string)
    requires ' ' !in verb && ' ' !in path && ' ' !in query && '?' !in path && (query == "" || query[0] == '?')
    requires IsLine(verb + " " + (path + query) + " " + version) && forall h :: h in hs ==> IsClean(h)
    ensures var r := Parsed(Join([verb + " " + (path + query) + " " + version] + LinesOf(hs), "\r\n") + "\r\n\r\n" + body);
      r.path == path && HostIs(hs, "", r.host) && CookiesAre(AllPairs(hs), r.cookies)
  {
    hide Parsed, PathOf, ReadHeaders, HostIs, CookiesAre, IsClean, Join;
    var first := verb + " " + (path + query) + " " + version;
    var start := Request(PathOf(first), "", map[]);
    PathReads(verb, path, query, version);
    HeadersRead(start, hs);
    var lines := [first] + LinesOf(hs);
    assert lines[1..] == LinesOf(hs);
    RequestReads(lines, body);
    PutAllMeans(AllPairs(hs));
  }

  /** The receive loop takes chunks until the end of the stream, a blank line or 65536 bytes. */
  lemma {:induction false} ReceivesUntil(buf: string, chunks: seq<string>) returns (k: nat)
    ensures k <= |chunks| && Received(buf, chunks) == buf + Concat(chunks[..k])
    ensures forall j :: 0 <= j < k ==>
      var got := buf + Concat(chunks[..j]); !Contains(got, "\r\n\r\n") && |got| < 65536 && chunks[j] != ""
    ensures var got := buf + Concat(chunks[..k]);
      Contains(got, "\r\n\r\n") || |got| >= 65536 || k == |chunks| || chunks[k] == ""
    decreases |chunks|
  {
    hide Contains;
    k := 0;
    assert chunks[..0] == [] && buf + Concat([]) == buf;
    if !Contains(buf, BLANK) && |buf| < LIMIT && chunks != [] && chunks[0] != "" {
      var more := ReceivesUntil(buf + chunks[0], chunks[1..]);
      k := more + 1;
      forall j | 0 < j <= k ensures buf + Concat(chunks[..j]) == buf + chunks[0] + Concat(chunks[1..][..j - 1]) {
        assert chunks[..j][0] == chunks[0] && chunks[..j][1..] == chunks[1..][..j - 1];
        assert buf + (chunks[0] + Concat(chunks[1..][..j - 1])) == buf + chunks[0] + Concat(chunks[1..][..j - 1]);
      }
      assert forall j :: 0 < j < k ==> chunks[j] == chunks[1..][j - 1];
    }
  }

  /** A part of a cookie header without an equals sign says nothing. */
  lemma BareWordsIgnored(cookies: map<string, string>, part: string)
    requires '=' !in part
    ensures AddCookie(cookies, part) == cookies
  {
    hide FindFrom;
    NoCharNoFind(part, '=');
  }

  function Attributes(m: Member, duration: int): seq<string> {
    ["AWSALB=" + m.0 + ":" + Str(m.1), "Max-Age=" + Str(duration), "Path=/"]
  }

  /** The injected line is a Set-Cookie of three attributes: the member, the lifetime and the path. */
  lemma CookieLineSays(m: Member, duration: int)
    requires ';' !in m.0
    ensures |CookieLine(m, duration)| >= 12 && CookieLine(m, duration)[..12] == "Set-Cookie: "
    ensures Split(CookieLine(m, duration)[12..], "; ") == Attributes(m, duration) && PyInt(Str(duration)) == Some(duration)
  {
    hide FindFrom, Split, Str, PyInt, CookieLine, Join;
    StrReads(duration);
    LineIsJoin(m, duration);
    AttributesClean(m, duration);
    var sep := "; ";
    assert sep[..1][0] == ';' && sep[1..][0] == ' ';
    SplitJoin(Attributes(m, duration), sep);
  }

  lemma LineIsJoin(m: Member, duration: int)
    ensures CookieLine(m, duration) == "Set-Cookie: " + Join(Attributes(m, duration), "; ")
  {
    hide Str;
    var token, age := m.0 + ":" + Str(m.1), Str(duration);
    JoinThree("AWSALB=" + m.0 + ":" + Str(m.1), "Max-Age=" + age, "Path=/", "; ");
    assert "Set-Cookie: " + "AWSALB" + "=" + token + "; Max-Age=" + age + "; Path=/"
      == "Set-Cookie: " + (("AWSALB=" + m.0 + ":" + Str(m.1)) + "; " + (("Max-Age=" + age) + "; " + "Path=/"));
  }

  lemma JoinThree(a: string, b: string, c: string, sep: string)
    ensures Join([a, b, c], sep) == a + sep + (b + sep + c)
  {
    assert [a, b, c][1..] == [b, c] && [b, c][1..] == [c];
    assert Join([c], sep) == c && Join([b, c], sep) == b + sep + c;
  }

  lemma AttributesClean(m: Member, duration: int)
    requires ';' !in m.0
    ensures forall p :: p in Attributes(m, duration) ==> Find(p, "; ").None?
  {
    hide FindFrom, Str;
    StrClean(m.1);
    StrClean(duration);
    forall p | p in Attributes(m, duration) ensures Find(p, "; ").None? {
      assert ';' !in p;
      NoSeparator(p);
    }
  }

  lemma StrClean(n: int)
    ensures ';' !in Str(n)
  {
    if n < 0 { assert ';' !in Dec(-n); } else { assert ';' !in Dec(n); }
  }

  lemma NoSeparator(p: string)
    requires ';' !in p
    ensures Find(p, "; ").None?
  {
    forall k: nat ensures !At(p, "; ", k) { assert k + 2 <= |p| ==> p[k..k + 2][0] == p[k]; }
    FindMeans(p, "; ", 0);
  }

  // ---------- the choice ----------

  /** The cookie AWSALB names the member: its address, a colon and its port. */
  ghost predicate Names(cookies: map<string, string>, m: Member) {
    "AWSALB" in cookies
    && exists port :: ':' !in port && PyInt(port) == Some(m.1) && cookies["AWSALB"] == m.0 + ":" + port
  }

  lemma {:induction false} LastColonMeans(token: string)
    ensures var r := LastColon(token);
      if r.Some? then ':' !in token[r.value + 1..] else ':' !in token
  {
    if token != "" && token[|token| - 1] != ':' {
      var init := token[..|token| - 1];
      LastColonMeans(init);
      if LastColon(init).Some? {
        assert token[LastColon(init).value + 1..] == init[LastColon(init).value + 1..] + [token[|token| - 1]];
      } else {
        assert token == init + [token[|token| - 1]];
      }
    }
  }

  lemma NamesExactly(cookies: map<string, string>, m: Member)
    ensures DecodeMember(Cookie(cookies)) == Some(m) <==> Names(cookies, m)
  {
    hide PyInt, LastColon;
    if "AWSALB" in cookies {
      var token := cookies["AWSALB"];
      LastColonMeans(token);
      var i := LastColon(token);
      if i.Some? { assert token == token[..i.value] + ":" + token[i.value + 1..]; }
      forall port | ':' !in port && PyInt(port) == Some(m.1) && token == m.0 + ":" + port ensures DecodeMember(Some(token)) == Some(m) {
        LastColonIs(m.0, port);
        assert token[|m.0| + 1..] == port && token[..|m.0|] == m.0;
      }
    }
  }

  /** A request of a target group goes to the healthy member that its cookie names, where stickiness
      is on; otherwise to the group's next member, the first one at first; and nowhere without a
      group or a member. */
  lemma ChoiceExactly(rr: Indexes, tg: Option<string>, sticky: bool, healthy: seq<Member>, members: seq<Member>,
                      cookies: map<string, string>)
    ensures var (rr', m) := Choose(rr, tg, sticky, healthy, members, Cookie(cookies));
      if tg.None? then rr' == rr && m == None
      else if sticky && exists h :: h in healthy && Names(cookies, h) then rr' == rr && m.Some? && m.value in healthy && Names(cookies, m.value)
      else if members == [] then rr' == rr && m == None
      else
        var i := if tg.value in rr then (rr[tg.value] + 1) % |members| else 0;
        rr' == rr[tg.value := i] && m == Some(members[i])
  {
    hide DecodeMember, Names, Cookie;
    forall h ensures DecodeMember(Cookie(cookies)) == Some(h) <==> Names(cookies, h) { NamesExactly(cookies, h); }
  }
}
