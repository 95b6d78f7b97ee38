/** engine/snmp_udp_agent.py: the values of an encoded response, as a manager reads them. */
module SnmpValues {
  import opened Text
  import opened Ber
  import opened Snmp
  import opened SnmpRoundTrip
  import Ipv4

  // ---------- reading a response ----------

  /** The second element of every varbind from a position to the end. */
  function ReadValues(data: bytes, pos: nat): Option<seq<Element>>
    decreases |data| - pos
  {
    if pos >= |data| then Some([])
    else
      match ReadAt(data, pos)
      case Truncated => None
      case Read(vb, next) =>
        match (ReadMany(vb.value, 0, 2), ReadValues(data, next))
        case (Some(es), Some(rest)) => Some([es[1]] + rest)
        case _ => None
  }

  /** The value elements of a message. */
  function ValuesOf(data: bytes): Option<seq<Element>> {
    var msg := ReadAt(data, 0);
    if msg.Truncated? then None
    else
      match ReadMany(msg.element.value, 0, 3)
      case None => None
      case Some(m) =>
        match ReadMany(m[2].value, 0, 4)
        case None => None
        case Some(p) => ReadValues(p[3].value, 0)
  }

  // ---------- what a value looks like on the wire ----------

  /** The element has the value's tag and contents (RFC 3416, section 3, and RFC 2578, section 7.1). */
  predicate Carries(e: Element, v: Value) {
    match v
    case NoSuchObject => e == Element(0x80, [])
    case EndOfMibView => e == Element(0x82, [])
    case Integer(n) => e.tag == 0x02 && DecodeInt(e.value) == n
    case Counter32(n) => e.tag == 0x41 && DecodeInt(e.value) == n
    case Gauge32(n) => e.tag == 0x42 && DecodeInt(e.value) == n
    case Timeticks(n) => e.tag == 0x43 && DecodeInt(e.value) == n
    case Octets(octets) => e == Element(0x04, octets)
    case ObjectId(oid) => e.tag == 0x06 && OidOctets(oid).Some? && DecodeOid(e.value) == Reread(oid)
    case IpAddress(ip) => e.tag == 0x40 && Ipv4.Parts(ip) == Some(e.value)
  }

  /** A value that can be sent: a number that is not negative, an identifier that can be encoded, an
      address whose parts are octets. */
  predicate CanBeSent(v: Value) {
    match v
    case Integer(n) => n >= 0
    case Counter32(n) => n >= 0
    case Gauge32(n) => n >= 0
    case Timeticks(n) => n >= 0
    case ObjectId(oid) => OidOctets(oid).Some?
    case IpAddress(ip) => Ipv4.Parts(ip).Some? && forall p :: p in Ipv4.Parts(ip).value ==> 0 <= p <= 255
    case _ => true
  }

  lemma {:induction false} OctetListIs(vs: seq<int>)
    ensures OctetList(vs).Some? <==> forall v :: v in vs ==> 0 <= v <= 255
    ensures OctetList(vs).Some? ==> OctetList(vs).value == vs
  {
    if vs != [] {
      OctetListIs(vs[1..]);
      assert vs == [vs[0]] + vs[1..] && vs[0] in vs;
      forall v ensures v in vs <==> v == vs[0] || v in vs[1..] { assert v in vs <==> v in [vs[0]] + vs[1..]; }
      if forall v :: v in vs ==> 0 <= v <= 255 {
        forall v | v in vs[1..] ensures 0 <= v <= 255 { assert v in vs; }
      }
    }
  }

  lemma ValueElement(v: Value) returns (e: Element)
    ensures EncodeValue(v).Some? <==> CanBeSent(v)
    ensures CanBeSent(v) ==> EncodeValue(v) == Some(Tlv(e.tag, e.value)) && Carries(e, v)
  {
    hide Tlv, DecodeInt, IntBody, OidOctets, DecodeOid, Ipv4.Parts;
    e := Element(0, []);
    match v
    case NoSuchObject => e := Element(0x80, []);
    case EndOfMibView => e := Element(0x82, []);
    case Integer(n) => if n >= 0 { e := Numbered(n, 0x02); }
    case Counter32(n) => if n >= 0 { e := Numbered(n, 0x41); }
    case Gauge32(n) => if n >= 0 { e := Numbered(n, 0x42); }
    case Timeticks(n) => if n >= 0 { e := Numbered(n, 0x43); }
    case Octets(octets) => e := Element(0x04, octets);
    case ObjectId(oid) => if OidOctets(oid).Some? { e := Element(0x06, OidOctets(oid).value); }
    case IpAddress(ip) =>
      if Ipv4.Parts(ip).Some? {
        OctetListIs(Ipv4.Parts(ip).value);
        if OctetList(Ipv4.Parts(ip).value).Some? { e := Element(0x40, OctetList(Ipv4.Parts(ip).value).value); }
      }
  }

  lemma Numbered(n: nat, tag: byte) returns (e: Element)
    ensures e.tag == tag && DecodeInt(e.value) == n && EncodeInt(n, tag) == Tlv(tag, e.value)
  {
    DecodeEncodedNumber(n, tag);
    return Element(tag, IntBody(n, tag));
  }

  // ---------- every value arrives ----------

  lemma VarBindElements(vb: VarBind) returns (e: Element)
    requires VarBindOctets(vb).Some? && LengthFits(|VarBindOctets(vb).value|)
    ensures ReadMany(VarBindOctets(vb).value, 0, 2) == Some([Element(TAG_OID, OidOctets(vb.oid).value), e]) && Carries(e, vb.value)
  {
    hide Tlv, LengthFits, ReadAt, OidOctets, EncodeValue, Carries, ReadMany;
    e := ValueElement(vb.value);
    var data, es := VarBindOctets(vb).value, [Element(TAG_OID, OidOctets(vb.oid).value), e];
    assert TlvAll([e]) == Tlv(e.tag, e.value) by { assert [e][1..] == [] && Tlv(e.tag, e.value) + [] == Tlv(e.tag, e.value); }
    assert es[1..] == [e] && data[0..] == data == TlvAll(es);
    ManyRead(data, 0, es);
  }

  lemma {:induction false} ListValues(data: bytes, pos: nat, vbs: seq<VarBind>) returns (es: seq<Element>)
    requires VarBindList(vbs).Some? && pos <= |data| && data[pos..] == VarBindList(vbs).value
    requires LengthFits(|data|)
    ensures ReadValues(data, pos) == Some(es) && |es| == |vbs| && forall i :: 0 <= i < |vbs| ==> Carries(es[i], vbs[i].value)
    decreases |vbs|
  {
    hide Tlv, LengthFits, ReadAt, VarBindOctets, Carries, ReadMany;
    es := [];
    if vbs == [] {
      assert pos == |data|;
    } else {
      var first, rest := VarBindOctets(vbs[0]).value, VarBindList(vbs[1..]).value;
      TlvIsLonger(TAG_SEQUENCE, first);
      LengthFitsBelow(|first|, |data|);
      ReadTlv(data, pos, TAG_SEQUENCE, first, rest);
      var e := VarBindElements(vbs[0]);
      var more := ListValues(data, pos + |Tlv(TAG_SEQUENCE, first)|, vbs[1..]);
      es := [e] + more;
    }
  }

  /** Every value of a response is read from it with its own tag and contents, in order. */
  lemma ValuesArrive(version: nat, community: bytes, requestId: nat, vbs: seq<VarBind>, errorStatus: nat, errorIndex: nat)
    requires var msg := ResponseSpec(version, community, requestId, vbs, errorStatus, errorIndex);
      msg.Some? && LengthFits(|msg.value|)
    ensures var es := ValuesOf(ResponseSpec(version, community, requestId, vbs, errorStatus, errorIndex).value);
      es.Some? && |es.value| == |vbs| && forall i :: 0 <= i < |vbs| ==> Carries(es.value[i], vbs[i].value)
  {
    hide Tlv, LengthFits, ReadAt, PduBody, MessageBody, ReadMany, ReadValues, VarBindList, Carries;
    var list := VarBindList(vbs).value;
    MessageElements(version, community, PduBody(requestId, errorStatus, errorIndex, list));
    PduElements(requestId, errorStatus, errorIndex, list);
    assert list[0..] == list;
    var es := ListValues(list, 0, vbs);
  }

  /** A response is encoded if and only if every identifier and every value of it can be. */
  lemma {:induction false} EncodedExactlyWhen(vbs: seq<VarBind>)
    ensures VarBindList(vbs).Some? <==> forall i :: 0 <= i < |vbs| ==> OidOctets(vbs[i].oid).Some? && CanBeSent(vbs[i].value)
  {
    hide OidOctets, EncodeValue, CanBeSent, Tlv;
    if vbs != [] {
      var vb := vbs[0];
      var e := ValueElement(vb.value);
      EncodedExactlyWhen(vbs[1..]);
      assert forall i :: 0 < i < |vbs| ==> vbs[i] == vbs[1..][i - 1];
      assert VarBindList(vbs).Some? <==> OidOctets(vb.oid).Some? && CanBeSent(vb.value) && VarBindList(vbs[1..]).Some?;
      if forall i :: 0 <= i < |vbs| ==> OidOctets(vbs[i].oid).Some? && CanBeSent(vbs[i].value) {
        forall i | 0 <= i < |vbs[1..]| ensures OidOctets(vbs[1..][i].oid).Some? && CanBeSent(vbs[1..][i].value) {
          assert vbs[1..][i] == vbs[i + 1];
        }
      }
    }
  }

  /** The parts of a response carry the tags of SNMPv2c (RFC 3416, section 3): a SEQUENCE of an
      INTEGER, an OCTET STRING and a Response-PDU, which is three INTEGERs and a SEQUENCE. A message
      that is no SEQUENCE is not read at all. */
  lemma TagsOfResponse(version: nat, community: bytes, requestId: nat, vbs: seq<VarBind>, errorStatus: nat, errorIndex: nat)
    requires var msg := ResponseSpec(version, community, requestId, vbs, errorStatus, errorIndex);
      msg.Some? && LengthFits(|msg.value|)
    ensures var msg := ReadAt(ResponseSpec(version, community, requestId, vbs, errorStatus, errorIndex).value, 0);
      msg.Read? && msg.element.tag == 0x30
      && var parts := ReadMany(msg.element.value, 0, 3);
         parts.Some? && parts.value[0].tag == 0x02 && parts.value[1] == Element(0x04, community) && parts.value[2].tag == 0xA2
         && var pdu := ReadMany(parts.value[2].value, 0, 4);
            pdu.Some? && pdu.value[0].tag == 0x02 && pdu.value[1].tag == 0x02 && pdu.value[2].tag == 0x02 && pdu.value[3].tag == 0x30
  {
    hide Tlv, LengthFits, ReadAt, PduBody, MessageBody, ReadMany, VarBindList;
    var list := VarBindList(vbs).value;
    MessageElements(version, community, PduBody(requestId, errorStatus, errorIndex, list));
    PduElements(requestId, errorStatus, errorIndex, list);
  }

  lemma OnlySequencesAreRead(data: bytes)
    ensures DecodeSpec(data).Some? ==> ReadAt(data, 0).Read? && data[0] == 0x30
  {
    hide ReadMany, ReadOids;
  }
}
