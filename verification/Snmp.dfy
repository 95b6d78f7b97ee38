/** engine/snmp_udp_agent.py: SNMPv2c messages, encode_response and decode_request. */
module Snmp {
  import opened Text
  import opened Ber
  import Ipv4

  const PDU_RESPONSE: byte := 0xA2
  const DOT := "."

  // ---------- object identifiers as dotted texts ----------

  /** oid.strip('.') */
  function StripDots(s: string): string {
    if s != "" && s[0] == '.' then StripDots(s[1..])
    else if s != "" && s[|s| - 1] == '.' then StripDots(s[..|s| - 1])
    else s
  }

  /** [int(p) for p in parts if p != '']; None for ValueError. */
  function ArcsOf(parts: seq<string>): Option<seq<int>> {
    if parts == [] then Some([])
    else if parts[0] == "" then ArcsOf(parts[1..])
    else
      match (PyInt(parts[0]), ArcsOf(parts[1..]))
      case (Some(v), Some(rest)) => Some([v] + rest)
      case _ => None
  }

  function ParseOid(oid: string): Option<seq<int>> { ArcsOf(Split(StripDots(oid), DOT)) }

  function PrintOid(arcs: seq<nat>): string { Join(Ipv4.DecAll(arcs), DOT) }

  /** The contents octets of _encode_oid; None where it fails or does not end. */
  function OidOctets(oid: string): Option<bytes> {
    match ParseOid(oid)
    case None => None
    case Some(arcs) => OidBody(arcs)
  }

  /** _decode_oid */
  function DecodeOid(b: bytes): string { PrintOid(DecodeOidArcs(b)) }

  // ---------- encoding ----------

  /** A varbind's value. A negative number or a text that is no address raises an error. */
  datatype Value =
    | NoSuchObject | EndOfMibView
    | Integer(n: int) | Counter32(n: int) | Gauge32(n: int) | Timeticks(n: int)
    | Octets(octets: bytes)
    | ObjectId(oid: string)
    | IpAddress(ip: string)

  datatype VarBind = VarBind(oid: string, value: Value)

  function OctetList(vs: seq<int>): Option<bytes> {
    if vs == [] then Some([])
    else
      match OctetList(vs[1..])
      case Some(rest) => if 0 <= vs[0] < 256 then Some([vs[0]] + rest) else None
      case None => None
  }

  function EncodeNumber(n: int, tag: byte): Option<bytes> { if n >= 0 then Some(EncodeInt(n, tag)) else None }

  function EncodeValue(v: Value): Option<bytes> {
    match v
    case NoSuchObject => Some(Tlv(0x80, []))
    case EndOfMibView => Some(Tlv(0x82, []))
    case Integer(n) => EncodeNumber(n, TAG_INTEGER)
    case Counter32(n) => EncodeNumber(n, 0x41)
    case Gauge32(n) => EncodeNumber(n, 0x42)
    case Timeticks(n) => EncodeNumber(n, 0x43)
    case Octets(octets) => Some(Tlv(TAG_OCTET_STRING, octets))
    case ObjectId(oid) => (match OidOctets(oid) case Some(b) => Some(Tlv(TAG_OID, b)) case None => None)
    case IpAddress(ip) =>
      match Ipv4.Parts(ip)
      case None => None
      case Some(vs) => (match OctetList(vs) case Some(b) => Some(Tlv(0x40, b)) case None => None)
  }

  /** The contents of one varbind: the identifier's element, then the value's. */
  function VarBindOctets(vb: VarBind): Option<bytes> {
    match (OidOctets(vb.oid), EncodeValue(vb.value))
    case (Some(oid), Some(value)) => Some(Tlv(TAG_OID, oid) + value)
    case _ => None
  }

  function VarBindList(vbs: seq<VarBind>): Option<bytes> {
    if vbs == [] then Some([])
    else
      match (VarBindOctets(vbs[0]), VarBindList(vbs[1..]))
      case (Some(first), Some(rest)) => Some(Tlv(TAG_SEQUENCE, first) + rest)
      case _ => None
  }

  function PduBody(requestId: nat, errorStatus: nat, errorIndex: nat, list: bytes): bytes {
    EncodeInt(requestId, TAG_INTEGER) + (EncodeInt(errorStatus, TAG_INTEGER)
    + (EncodeInt(errorIndex, TAG_INTEGER) + Tlv(TAG_SEQUENCE, list)))
  }

  function MessageBody(version: nat, community: bytes, pdu: bytes): bytes {
    EncodeInt(version, TAG_INTEGER) + (Tlv(TAG_OCTET_STRING, community) + Tlv(PDU_RESPONSE, pdu))
  }

  /** encode_response; None when some part raises an error. */
  function ResponseSpec(version: nat, community: bytes, requestId: nat, vbs: seq<VarBind>,
                        errorStatus: nat, errorIndex: nat): Option<bytes> {
    match VarBindList(vbs)
    case None => None
    case Some(list) => Some(Tlv(TAG_SEQUENCE, MessageBody(version, community, PduBody(requestId, errorStatus, errorIndex, list))))
  }

  method EncodeResponse(version: nat, community: bytes, requestId: nat, vbs: seq<VarBind>,
                        errorStatus: nat, errorIndex: nat) returns (r: Option<bytes>)
    ensures r == ResponseSpec(version, community, requestId, vbs, errorStatus, errorIndex)
  {
    hide VarBindOctets, Tlv, VarBindList, Joined, MessageBody, PduBody;
    var items: seq<bytes> := [];
    assert vbs[0..] == vbs;
    NothingJoined(VarBindList(vbs));
    for i := 0 to |vbs|
      invariant VarBindList(vbs) == After(Joined(items), VarBindList(vbs[i..]))
    {
      assert vbs[i..][1..] == vbs[i + 1..];
      var item := VarBindOctets(vbs[i]);
      VarBindListStep(vbs[i..]);
      if item.None? { return None; }
      JoinedAppend(items, Tlv(TAG_SEQUENCE, item.value));
      AfterTwice(Joined(items), Tlv(TAG_SEQUENCE, item.value), VarBindList(vbs[i + 1..]));
      items := items + [Tlv(TAG_SEQUENCE, item.value)];
    }
    var list := Joined(items);
    assert vbs[|vbs|..] == [] && list + [] == list;
    NothingJoined(None);
    return Some(Tlv(TAG_SEQUENCE, MessageBody(version, community, PduBody(requestId, errorStatus, errorIndex, list))));
  }

  function After(done: bytes, rest: Option<bytes>): Option<bytes> {
    if rest.Some? then Some(done + rest.value) else None
  }

  lemma AfterTwice(a: bytes, b: bytes, rest: Option<bytes>)
    ensures After(a, After(b, rest)) == After(a + b, rest)
  {
    if rest.Some? { assert a + (b + rest.value) == a + b + rest.value; }
  }

  lemma NothingJoined(rest: Option<bytes>)
    ensures After(Joined([]), rest) == rest && VarBindList([]) == Some([])
  {
    if rest.Some? { assert [] + rest.value == rest.value; }
  }

  lemma VarBindListStep(vbs: seq<VarBind>)
    requires vbs != []
    ensures VarBindList(vbs) ==
      if VarBindOctets(vbs[0]).None? then None
      else After(Tlv(TAG_SEQUENCE, VarBindOctets(vbs[0]).value), VarBindList(vbs[1..]))
  {
    hide VarBindOctets, Tlv;
  }

  /** b''.join(items) */
  function Joined(items: seq<bytes>): bytes {
    if items == [] then [] else items[0] + Joined(items[1..])
  }

  lemma {:induction false} JoinedAppend(items: seq<bytes>, b: bytes)
    ensures Joined(items + [b]) == Joined(items) + b
    decreases |items|
  {
    if items == [] {
      assert ([] + [b])[1..] == [] && Joined([]) == [];
    } else {
      assert (items + [b])[1..] == items[1..] + [b];
      JoinedAppend(items[1..], b);
    }
  }

  // ---------- decoding ----------

  datatype Request = Request(version: int, community: bytes, pdu: byte, requestId: int,
                             param2: int, param3: int, oids: seq<string>)

  /** n consecutive elements from a position on. */
  function ReadMany(data: bytes, pos: nat, n: nat): (r: Option<seq<Element>>)
    ensures r.Some? ==> |r.value| == n
    decreases n
  {
    if n == 0 then Some([])
    else
      match ReadAt(data, pos)
      case Truncated => None
      case Read(e, next) => (match ReadMany(data, next, n - 1) case Some(rest) => Some([e] + rest) case None => None)
  }

  /** The identifiers of the varbinds from a position to the end. */
  function ReadOids(data: bytes, pos: nat): Option<seq<string>>
    decreases |data| - pos
  {
    if pos >= |data| then Some([])
    else
      match ReadAt(data, pos)
      case Truncated => None
      case Read(vb, next) =>
        match ReadAt(vb.value, 0)
        case Truncated => None
        case Read(oid, _) =>
          match ReadOids(data, next)
          case None => None
          case Some(rest) => Some([DecodeOid(oid.value)] + rest)
  }

  /** decode_request; None when it raises an error, and the datagram is dropped. */
  function DecodeSpec(data: bytes): Option<Request> {
    match ReadAt(data, 0)
    case Truncated => None
    case Read(msg, _) =>
      if msg.tag != TAG_SEQUENCE then None
      else
        match ReadMany(msg.value, 0, 3)
        case None => None
        case Some(m) =>
          match ReadMany(m[2].value, 0, 4)
          case None => None
          case Some(p) =>
            match ReadOids(p[3].value, 0)
            case None => None
            case Some(oids) =>
              Some(Request(DecodeInt(m[0].value), m[1].value, m[2].tag,
                           DecodeInt(p[0].value), DecodeInt(p[1].value), DecodeInt(p[2].value), oids))
  }

  /** decode_request with its four cursors. */
  method DecodeRequest(data: bytes) returns (r: Option<Request>)
    ensures r == DecodeSpec(data)
  {
    hide ReadAt, DecodeInt;
    var outer := new BerReader(data);
    var msg := outer.ReadElement();
    if msg.None? || msg.value.tag != TAG_SEQUENCE { return None; }

    var rr := new BerReader(msg.value.value);
    var version, community, pdu := ReadThree(rr);
    if pdu.None? { return None; }

    var pr := new BerReader(pdu.value.value);
    var requestId, param2, param3 := ReadThree(pr);
    if param3.None? { return None; }
    var list := pr.ReadElement();
    if list.None? { return None; }

    var oids := ReadOidLoop(list.value.value);
    if oids.None? { return None; }
    return Some(Request(DecodeInt(version.value.value), community.value.value, pdu.value.tag,
                        DecodeInt(requestId.value.value), DecodeInt(param2.value.value),
                        DecodeInt(param3.value.value), oids.value));
  }

  /** Three read_tlv calls in a row; the last result tells whether all of them succeeded. */
  method ReadThree(r: BerReader) returns (a: Option<Element>, b: Option<Element>, c: Option<Element>)
    requires r.pos == 0
    modifies r
    ensures c.None? <==> ReadMany(r.data, 0, 3).None?
    ensures c.Some? ==> a.Some? && b.Some? && ReadMany(r.data, 0, 3) == Some([a.value, b.value, c.value])
    ensures c.Some? ==> (
      match ReadAt(r.data, r.pos)
      case Truncated => ReadMany(r.data, 0, 4).None?
      case Read(d, _) => ReadMany(r.data, 0, 4) == Some([a.value, b.value, c.value, d]))
  {
    hide ReadAt, ReadMany;
    a, b, c := None, None, None;
    ghost var data := r.data;
    ReadManyStep(data, 0, 3);
    a := r.ReadElement();
    if a.None? { return; }
    ghost var p1 := r.pos;
    ReadManyStep(data, p1, 2);
    b := r.ReadElement();
    if b.None? { return; }
    ghost var p2 := r.pos;
    ReadManyStep(data, p2, 1);
    c := r.ReadElement();
    if c.None? { return; }
    ghost var p3 := r.pos;
    ReadManyStep(data, 0, 4);
    ReadManyStep(data, p1, 3);
    ReadManyStep(data, p2, 2);
    ReadManyStep(data, p3, 1);
    assert ReadMany(data, p3, 0) == Some([]) by { ReadNone(data, p3); }
    assert [c.value] + [] == [c.value] && [b.value] + [c.value] == [b.value, c.value];
    assert [a.value] + [b.value, c.value] == [a.value, b.value, c.value];
    match ReadAt(data, p3) {
      case Truncated =>
      case Read(d, next) =>
        ReadNone(data, next);
        assert [d] + [] == [d] && [c.value] + [d] == [c.value, d] && [b.value] + [c.value, d] == [b.value, c.value, d];
        assert [a.value] + [b.value, c.value, d] == [a.value, b.value, c.value, d];
    }
  }

  lemma ReadNone(data: bytes, pos: nat)
    ensures ReadMany(data, pos, 0) == Some([])
  {}

  lemma ReadManyStep(data: bytes, pos: nat, n: nat)
    requires n > 0
    ensures ReadMany(data, pos, n) ==
      if ReadAt(data, pos).Truncated? then None
      else
        var rest := ReadMany(data, ReadAt(data, pos).next, n - 1);
        if rest.Some? then Some([ReadAt(data, pos).element] + rest.value) else None
  {
    hide ReadAt;
  }

  method ReadOidLoop(data: bytes) returns (r: Option<seq<string>>)
    ensures r == ReadOids(data, 0)
  {
    hide ReadAt, DecodeOid;
    var vr := new BerReader(data);
    var oids: seq<string> := [];
    PrependTwice([], "", ReadOids(data, 0));
    while !vr.Eof()
      invariant vr.data == data
      invariant ReadOids(data, 0) == Prepend(oids, ReadOids(data, vr.pos))
      decreases |data| - vr.pos
    {
      var vb := vr.ReadElement();
      if vb.None? { return None; }
      var vbr := new BerReader(vb.value.value);
      var oid := vbr.ReadElement();
      if oid.None? { return None; }
      var arcs := DecodeOidLoop(oid.value.value);
      PrependTwice(oids, DecodeOid(oid.value.value), ReadOids(data, vr.pos));
      oids := oids + [PrintOid(arcs)];
      assert PrintOid(arcs) == DecodeOid(oid.value.value) by { DecodeOidIs(oid.value.value); }
    }
    assert oids + [] == oids;
    return Some(oids);
  }

  lemma DecodeOidIs(b: bytes)
    ensures DecodeOid(b) == PrintOid(DecodeOidArcs(b))
  {}

  lemma PrependTwice(done: seq<string>, oid: string, rest: Option<seq<string>>)
    ensures Prepend(done, Prepend([oid], rest)) == Prepend(done + [oid], rest)
    ensures Prepend([], rest) == rest
  {
    if rest.Some? {
      assert done + ([oid] + rest.value) == done + [oid] + rest.value;
      assert [] + rest.value == rest.value;
    }
  }

  function Prepend(done: seq<string>, rest: Option<seq<string>>): Option<seq<string>> {
    if rest.Some? then Some(done + rest.value) else None
  }
}
