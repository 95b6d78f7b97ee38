/** engine/real_bgp_agent.py: the UPDATE parser (section 4.3 of RFC 4271, with the four-octet AS
    numbers of RFC 6793) and the canonical encoding it inverts. */
module Bgp {
  import opened Text
  import opened Bits
  import opened Ipv4
  import opened Ber

  type Address = o: bytes | |o| == 4 witness [0, 0, 0, 0]

  /** IndexError, struct.error and the OSError of inet_ntoa all end the session. */
  datatype Result<+T> = Ok(value: T) | Crash

  datatype Attrs = Attrs(nextHop: Option<string>, asPath: seq<nat>, origin: char, med: nat, localPref: nat)

  const DEFAULTS := Attrs(None, [], 'i', 0, 100)

  /** None of the routes is looked at when a length does not fit. */
  datatype Parsed = Ignored | Crashed | Update(attrs: Attrs, prefixes: seq<(string, nat)>)

  // ---------- struct and inet_ntoa ----------

  /** struct.unpack_from for an unsigned integer of n octets. */
  function Unpack(b: bytes, pos: nat, n: nat): Result<nat> {
    if pos + n <= |b| then Ok(FromBytes(b[pos..pos + n])) else Crash
  }

  /** socket.inet_ntoa of four octets */
  function Dotted(o: Address): string { Join(DecAll(o), DOT) }

  lemma DottedDetermines(o: Address, p: Address)
    requires Dotted(o) == Dotted(p)
    ensures o == p
  {
    DottedReads(o);
    DottedReads(p);
  }

  // ---------- the parser ----------

  datatype Item = Item(typeCode: byte, value: bytes, next: nat)

  /** flags & 0x10 */
  predicate Extended(flags: byte) { (flags / 16) % 2 == 1 }

  /** The fourth most significant bit (section 4.3 of RFC 4271). */
  lemma ExtendedMeans(flags: byte)
    ensures Extended(flags) <==> BitAnd(flags, 0x10) == 0x10
    ensures !Extended(flags) <==> BitAnd(flags, 0x10) == 0
  {
    var n := flags / 16;
    assert BitAnd(n, 1) == n % 2;
    assert BitAnd(flags / 8, 2) == 2 * BitAnd(n, 1);
    assert BitAnd(flags / 4, 4) == 2 * BitAnd(flags / 8, 2);
    assert BitAnd(flags / 2, 8) == 2 * BitAnd(flags / 4, 4);
  }

  /** One path attribute; its value may reach past the end of the attributes. */
  function ReadItem(body: bytes, pos: nat): (r: Result<Item>)
    requires pos < |body|
    ensures r.Ok? ==> r.value.next > pos
  {
    if pos + 1 >= |body| then Crash
    else
      var size := if Extended(body[pos]) then 2 else 1;
      match Unpack(body, pos + 2, size)
      case Crash => Crash
      case Ok(n) => Ok(Item(body[pos + 1], Slice(body, pos + 2 + size, n), pos + 2 + size + n))
  }

  function ReadAsns(value: bytes, pos: nat, n: nat): Result<seq<nat>>
    decreases n
  {
    if n == 0 then Ok([])
    else
      match (Unpack(value, pos, 4), ReadAsns(value, pos + 4, n - 1))
      case (Ok(asn), Ok(rest)) => Ok([asn] + rest)
      case _ => Crash
  }

  function ReadAsPath(value: bytes, pos: nat): Result<seq<nat>>
    decreases |value| - pos
  {
    if pos >= |value| then Ok([])
    else if pos + 1 >= |value| then Crash
    else
      var n: nat := value[pos + 1];
      match (ReadAsns(value, pos + 2, n), ReadAsPath(value, pos + 2 + 4 * n))
      case (Ok(asns), Ok(rest)) => Ok(asns + rest)
      case _ => Crash
  }

  function OriginOf(code: byte): char { if code == 1 then 'e' else if code == 2 then '?' else 'i' }

  function Apply(a: Attrs, typeCode: byte, value: bytes): Result<Attrs> {
    if typeCode == 1 && value != [] then Ok(a.(origin := OriginOf(value[0])))
    else if typeCode == 2 then
      match ReadAsPath(value, 0)
      case Ok(asns) => Ok(a.(asPath := a.asPath + asns))
      case Crash => Crash
    else if typeCode == 3 && |value| == 4 then Ok(a.(nextHop := Some(Dotted(value))))
    else if typeCode == 4 && |value| == 4 then Ok(a.(med := FromBytes(value)))
    else if typeCode == 5 && |value| == 4 then Ok(a.(localPref := FromBytes(value)))
    else Ok(a)
  }

  function ReadAttrs(body: bytes, pos: nat, end: nat, a: Attrs): Result<Attrs>
    requires end <= |body|
    decreases end - pos
  {
    if pos >= end then Ok(a)
    else
      match ReadItem(body, pos)
      case Crash => Crash
      case Ok(item) =>
        match Apply(a, item.typeCode, item.value)
        case Crash => Crash
        case Ok(a') => ReadAttrs(body, item.next, end, a')
  }

  /** raw.ljust(4, b'\x00') */
  function Padded(raw: bytes): (r: bytes)
    ensures raw <= r && |r| == (if |raw| >= 4 then |raw| else 4) && forall k :: |raw| <= k < |r| ==> r[k] == 0
    decreases 4 - |raw|
  {
    if |raw| >= 4 then raw else Padded(raw + [0])
  }

  /** The octets a prefix of this length takes. */
  function Width(length: nat): (w: nat)
    ensures length <= 32 ==> w <= 4
  {
    (length + 7) / 8
  }

  /** As many whole octets as the length needs. */
  lemma WidthMeans(length: nat)
    ensures length <= 8 * Width(length) < length + 8
  {}

  function ReadPrefixes(nlri: bytes, pos: nat): Result<seq<(string, nat)>>
    decreases |nlri| - pos
  {
    if pos >= |nlri| then Ok([])
    else
      var length := nlri[pos];
      var raw := Padded(Slice(nlri, pos + 1, Width(length)));
      if |raw| != 4 then Crash
      else
        match ReadPrefixes(nlri, pos + 1 + Width(length))
        case Crash => Crash
        case Ok(rest) => Ok([(Dotted(raw), length)] + rest)
  }

  /** _parse_update */
  function ParseBody(body: bytes): Parsed {
    if |body| < 4 then Ignored
    else
      var offset := 2 + FromBytes(body[..2]);
      if offset + 2 > |body| then Ignored
      else
        var end := offset + 2 + FromBytes(body[offset..offset + 2]);
        if end > |body| then Ignored
        else
          match (ReadAttrs(body, offset + 2, end, DEFAULTS), ReadPrefixes(body[end..], 0))
          case (Ok(a), Ok(ps)) => Update(a, ps)
          case _ => Crashed
  }

  // ---------- the loops ----------

  function Then<T>(done: seq<T>, rest: Result<seq<T>>): Result<seq<T>> {
    if rest.Ok? then Ok(done + rest.value) else Crash
  }

  lemma ThenOne<T>(done: seq<T>, x: seq<T>, rest: Result<seq<T>>)
    ensures Then(done, Then(x, rest)) == Then(done + x, rest)
  {
    if rest.Ok? { assert done + (x + rest.value) == done + x + rest.value; }
  }

  lemma SegmentStep(value: bytes, pos: nat, n: nat)
    requires pos < |value| && (pos + 1 < |value| ==> n == value[pos + 1])
    ensures ReadAsPath(value, pos) ==
      if pos + 1 >= |value| || ReadAsns(value, pos + 2, n).Crash? then Crash
      else Then(ReadAsns(value, pos + 2, n).value, ReadAsPath(value, pos + 2 + 4 * n))
  {
    hide ReadAsns;
  }

  lemma AsnStep(value: bytes, pos: nat, n: nat)
    ensures ReadAsns(value, pos, n) ==
      if n == 0 then Ok([])
      else if Unpack(value, pos, 4).Crash? then Crash
      else Then([Unpack(value, pos, 4).value], ReadAsns(value, pos + 4, n - 1))
  {
    hide Unpack;
  }

  method AsPathLoop(value: bytes, before: seq<nat>) returns (r: Result<seq<nat>>)
    ensures r == Then(before, ReadAsPath(value, 0))
  {
    hide ReadAsPath, ReadAsns, Unpack;
    var path, vpos := before, 0;
    while vpos < |value|
      invariant Then(path, ReadAsPath(value, vpos)) == Then(before, ReadAsPath(value, 0))
      decreases |value| - vpos
    {
      SegmentStep(value, vpos, if vpos + 1 < |value| then value[vpos + 1] else 0);
      if vpos + 1 >= |value| { return Crash; }
      var n: nat := value[vpos + 1];
      ghost var rest := ReadAsPath(value, vpos + 2 + 4 * n);
      ghost var start, path0 := vpos + 2, path;
      assert ReadAsPath(value, vpos) == if ReadAsns(value, start, n).Ok? then Then(ReadAsns(value, start, n).value, rest) else Crash;
      vpos := vpos + 2;
      for k := 0 to n
        invariant vpos == start + 4 * k
        invariant Then(path, ReadAsns(value, vpos, n - k)) == Then(path0, ReadAsns(value, start, n))
      {
        AsnStep(value, vpos, n - k);
        var asn := Unpack(value, vpos, 4);
        if asn.Crash? { return Crash; }
        ThenOne(path, [asn.value], ReadAsns(value, vpos + 4, n - k - 1));
        path := path + [asn.value];
        vpos := vpos + 4;
      }
      AsnStep(value, vpos, 0);
      assert path + [] == path;
      ThenOne(path0, ReadAsns(value, start, n).value, rest);
    }
    NoSegments(value, vpos);
    assert path + [] == path;
    return Ok(path);
  }

  lemma NoSegments(value: bytes, pos: nat)
    requires pos >= |value|
    ensures ReadAsPath(value, pos) == Ok([])
  {}

  method AttrsLoop(body: bytes, offset: nat, end: nat) returns (r: Result<Attrs>)
    requires end <= |body|
    ensures r == ReadAttrs(body, offset, end, DEFAULTS)
  {
    var a, pos := DEFAULTS, offset;
    while pos < end
      invariant ReadAttrs(body, pos, end, a) == ReadAttrs(body, offset, end, DEFAULTS)
      decreases end - pos
    {
      hide ReadItem, ReadAsPath;
      var item := ReadItem(body, pos);
      if item.Crash? { return Crash; }
      var code, value := item.value.typeCode, item.value.value;
      pos := item.value.next;
      if code == 1 && value != [] {
        a := a.(origin := OriginOf(value[0]));
      } else if code == 2 {
        var path := AsPathLoop(value, a.asPath);
        if path.Crash? { return Crash; }
        a := a.(asPath := path.value);
      } else if code == 3 && |value| == 4 {
        a := a.(nextHop := Some(Dotted(value)));
      } else if code == 4 && |value| == 4 {
        a := a.(med := FromBytes(value));
      } else if code == 5 && |value| == 4 {
        a := a.(localPref := FromBytes(value));
      }
    }
    return Ok(a);
  }

  lemma PrefixStep(nlri: bytes, pos: nat, done: seq<(string, nat)>)
    requires pos < |nlri|
    ensures var raw, next := Padded(Slice(nlri, pos + 1, Width(nlri[pos]))), pos + 1 + Width(nlri[pos]);
      Then(done, ReadPrefixes(nlri, pos))
      == if |raw| != 4 then Crash else Then(done + [(Dotted(raw), nlri[pos])], ReadPrefixes(nlri, next))
  {
    hide Padded, Slice, Dotted, Width;
    var raw, next := Padded(Slice(nlri, pos + 1, Width(nlri[pos]))), pos + 1 + Width(nlri[pos]);
    if |raw| == 4 { ThenOne(done, [(Dotted(raw), nlri[pos] as nat)], ReadPrefixes(nlri, next)); }
  }

  method PrefixLoop(nlri: bytes) returns (r: Result<seq<(string, nat)>>)
    ensures r == ReadPrefixes(nlri, 0)
  {
    hide ReadPrefixes, Dotted, Slice, Padded, Width;
    var prefixes, pos := [], 0;
    assert ReadPrefixes(nlri, 0).Ok? ==> [] + ReadPrefixes(nlri, 0).value == ReadPrefixes(nlri, 0).value;
    while pos < |nlri|
      invariant Then(prefixes, ReadPrefixes(nlri, pos)) == ReadPrefixes(nlri, 0)
      decreases |nlri| - pos
    {
      var length: nat := nlri[pos];
      var raw := Padded(Slice(nlri, pos + 1, Width(length)));
      PrefixStep(nlri, pos, prefixes);
      if |raw| != 4 { return Crash; }
      prefixes := prefixes + [(Dotted(raw), length)];
      pos := pos + 1 + Width(length);
    }
    assert prefixes + [] == prefixes;
    NoPrefixes(nlri, pos);
    return Ok(prefixes);
  }

  lemma NoPrefixes(nlri: bytes, pos: nat)
    requires pos >= |nlri|
    ensures ReadPrefixes(nlri, pos) == Ok([])
  {}

  method ParseUpdate(body: bytes) returns (r: Parsed)
    ensures r == ParseBody(body)
  {
    hide ReadAttrs, ReadPrefixes;
    if |body| < 4 { return Ignored; }
    var offset := 2 + FromBytes(body[..2]);
    if offset + 2 > |body| { return Ignored; }
    var attrsLen := FromBytes(body[offset..offset + 2]);
    offset := offset + 2;
    var end := offset + attrsLen;
    if end > |body| { return Ignored; }
    var attrs := AttrsLoop(body, offset, end);
    if attrs.Crash? { return Crashed; }
    var prefixes := PrefixLoop(body[end..]);
    if prefixes.Crash? { return Crashed; }
    return Update(attrs.value, prefixes.value);
  }

  // ---------- the canonical encoding ----------

  datatype Segment = Segment(kind: byte, asns: seq<nat>)

  datatype Value =
    | Origin(code: byte)
    | AsPath(segments: seq<Segment>)
    | NextHop(address: Address)
    | Med(metric: nat)
    | LocalPref(preference: nat)
    | Other(typeCode: byte, content: bytes)

  /** A path attribute; the flags choose the one-octet or the two-octet length. */
  datatype Attr = Attr(flags: byte, value: Value)

  datatype Prefix = Prefix(octets: Address, length: nat)

  function TypeCode(v: Value): byte {
    match v
    case Origin(_) => 1
    case AsPath(_) => 2
    case NextHop(_) => 3
    case Med(_) => 4
    case LocalPref(_) => 5
    case Other(code, _) => code
  }

  function EncodeAsns(asns: seq<nat>): bytes {
    if asns == [] then [] else ToBytes(asns[0], 4) + EncodeAsns(asns[1..])
  }

  function EncodeSegments(segments: seq<Segment>): bytes
    requires forall s :: s in segments ==> SegmentFits(s)
  {
    if segments == [] then []
    else
      assert segments[0] in segments;
      assert SegmentFits(segments[0]);
      var count: byte := |segments[0].asns|;
      [segments[0].kind, count] + EncodeAsns(segments[0].asns) + EncodeSegments(segments[1..])
  }

  function Content(v: Value): bytes
    requires ValueFits(v)
  {
    match v
    case Origin(code) => [code]
    case AsPath(segments) => EncodeSegments(segments)
    case NextHop(address) => address
    case Med(metric) => ToBytes(metric, 4)
    case LocalPref(preference) => ToBytes(preference, 4)
    case Other(_, content) => content
  }

  predicate SegmentFits(s: Segment) { |s.asns| < 256 && forall a :: a in s.asns ==> a < 0x1_0000_0000 }

  /** What each field has room for; an Other attribute has none of the five known types. */
  predicate ValueFits(v: Value) {
    match v
    case AsPath(segments) => forall s :: s in segments ==> SegmentFits(s)
    case Med(metric) => metric < 0x1_0000_0000
    case LocalPref(preference) => preference < 0x1_0000_0000
    case Other(code, _) => !(1 <= code <= 5)
    case _ => true
  }

  predicate AttrFits(a: Attr) { ValueFits(a.value) && |Content(a.value)| < if Extended(a.flags) then 0x1_0000 else 0x100 }

  function EncodeAttr(a: Attr): bytes
    requires AttrFits(a)
  {
    var c := Content(a.value);
    [a.flags, TypeCode(a.value)] + ToBytes(|c|, if Extended(a.flags) then 2 else 1) + c
  }

  function EncodeAttrs(attrs: seq<Attr>): bytes
    requires forall a :: a in attrs ==> AttrFits(a)
  {
    if attrs == [] then [] else EncodeAttr(attrs[0]) + EncodeAttrs(attrs[1..])
  }

  function EncodePrefix(p: Prefix): bytes
    requires p.length <= 32
  {
    [p.length] + p.octets[..Width(p.length)]
  }

  function EncodePrefixes(ps: seq<Prefix>): bytes
    requires forall p :: p in ps ==> p.length <= 32
  {
    if ps == [] then [] else EncodePrefix(ps[0]) + EncodePrefixes(ps[1..])
  }

  predicate MessageFits(withdrawn: bytes, attrs: seq<Attr>, prefixes: seq<Prefix>) {
    |withdrawn| < 0x1_0000 && (forall a :: a in attrs ==> AttrFits(a)) && |EncodeAttrs(attrs)| < 0x1_0000
    && forall p :: p in prefixes ==> p.length <= 32
  }

  function Encode(withdrawn: bytes, attrs: seq<Attr>, prefixes: seq<Prefix>): bytes
    requires MessageFits(withdrawn, attrs, prefixes)
  {
    var encoded := EncodeAttrs(attrs);
    ToBytes(|withdrawn|, 2) + withdrawn + ToBytes(|encoded|, 2) + encoded + EncodePrefixes(prefixes)
  }

  // ---------- what the parser makes of it ----------

  function AllAsns(segments: seq<Segment>): seq<nat> {
    if segments == [] then [] else segments[0].asns + AllAsns(segments[1..])
  }

  /** The effect of one attribute: the last of a kind wins, AS paths are joined. */
  function Effect(a: Attrs, v: Value): Attrs {
    match v
    case Origin(code) => a.(origin := OriginOf(code))
    case AsPath(segments) => a.(asPath := a.asPath + AllAsns(segments))
    case NextHop(address) => a.(nextHop := Some(Dotted(address)))
    case Med(metric) => a.(med := metric)
    case LocalPref(preference) => a.(localPref := preference)
    case Other(_, _) => a
  }

  function Effects(a: Attrs, attrs: seq<Attr>): Attrs
    decreases |attrs|
  {
    if attrs == [] then a else Effects(Effect(a, attrs[0].value), attrs[1..])
  }

  /** The octets that an encoded prefix keeps; the others come back as zero. */
  function Kept(p: Prefix): Address
    requires p.length <= 32
  {
    Padded(p.octets[..Width(p.length)])
  }

  function Routes(ps: seq<Prefix>): seq<(string, nat)>
    requires forall p :: p in ps ==> p.length <= 32
  {
    if ps == [] then [] else [(Dotted(Kept(ps[0])), ps[0].length)] + Routes(ps[1..])
  }
}
