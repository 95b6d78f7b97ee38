/** engine/snmp_udp_agent.py: decode_request reads what encode_response writes. */
module SnmpRoundTrip {
  import opened Text
  import opened Bits
  import opened Ber
  import opened Snmp
  import Ipv4

  // ---------- identifiers as texts ----------

  lemma {:induction false} ArcsOfDecAll(arcs: seq<nat>)
    ensures ArcsOf(Ipv4.DecAll(arcs)) == Some(arcs)
  {
    hide Text.PyInt, Dec;
    if arcs != [] {
      PyIntDec(arcs[0]);
      ArcsOfDecAll(arcs[1..]);
      assert Ipv4.DecAll(arcs)[1..] == Ipv4.DecAll(arcs[1..]);
      assert arcs == [arcs[0]] + arcs[1..];
    }
  }

  predicate AllDigits(p: string) { p != "" && forall c :: c in p ==> IsDigit(c) }

  lemma {:induction false} JoinEnds(parts: seq<string>)
    requires parts != [] && forall p :: p in parts ==> AllDigits(p)
    ensures var s := Join(parts, DOT); s != "" && IsDigit(s[0]) && IsDigit(s[|s| - 1])
  {
    assert parts[0] in parts;
    var p := parts[0];
    assert p[0] in p && p[|p| - 1] in p;
    if |parts| > 1 { JoinEnds(parts[1..]); }
  }

  lemma {:induction false} DecAllParts(arcs: seq<nat>)
    ensures forall p :: p in Ipv4.DecAll(arcs) ==> AllDigits(p)
  {
    if arcs != [] { DecAllParts(arcs[1..]); }
  }

  /** A printed identifier parses to the arcs it was printed from. */
  lemma ParsePrinted(arcs: seq<nat>)
    requires arcs != []
    ensures ParseOid(PrintOid(arcs)) == Some(arcs)
  {
    hide Text.PyInt, Dec;
    var parts := Ipv4.DecAll(arcs);
    Ipv4.DecAllReads(arcs);
    DecAllParts(arcs);
    JoinEnds(parts);
    assert StripDots(PrintOid(arcs)) == PrintOid(arcs);
    SplitJoin(parts, DOT);
    ArcsOfDecAll(arcs);
  }

  lemma {:induction false} ArcsOfAppend(a: seq<string>, b: seq<string>)
    requires ArcsOf(a).Some? && ArcsOf(b).Some?
    ensures ArcsOf(a + b) == Some(ArcsOf(a).value + ArcsOf(b).value)
    decreases |a|
  {
    hide Text.PyInt;
    if a == [] {
      assert a + b == b && ArcsOf(a).value + ArcsOf(b).value == ArcsOf(b).value;
    } else {
      assert (a + b)[1..] == a[1..] + b;
      ArcsOfAppend(a[1..], b);
      if a[0] != "" {
        var v, rest := PyInt(a[0]).value, ArcsOf(a[1..]).value;
        assert [v] + (rest + ArcsOf(b).value) == [v] + rest + ArcsOf(b).value;
      }
    }
  }

  lemma PrintedParts(arcs: seq<nat>)
    requires arcs != []
    ensures var s := PrintOid(arcs);
      ArcsOf(Split(s, DOT)) == Some(arcs) && s != "" && s[0] != '.' && s[|s| - 1] != '.'
  {
    hide Text.PyInt, Dec;
    var parts := Ipv4.DecAll(arcs);
    Ipv4.DecAllReads(arcs);
    DecAllParts(arcs);
    JoinEnds(parts);
    SplitJoin(parts, DOT);
    ArcsOfDecAll(arcs);
  }

  /** Dots before, after and doubled inside an identifier add no arc. */
  lemma ExtraDots(a: seq<nat>, b: seq<nat>)
    requires a != [] && b != []
    ensures ParseOid("." + PrintOid(a) + ".") == Some(a)
    ensures ParseOid(PrintOid(a) + ".." + PrintOid(b)) == Some(a + b)
  {
    hide PrintOid, ArcsOf, FindFrom, Split;
    var s, t := PrintOid(a), PrintOid(b);
    PrintedParts(a);
    PrintedParts(b);
    Stripped(s);
    var both := s + ".." + t;
    assert both == s + "." + ("." + t) && "" + "." + t == "." + t;
    assert both[0] == s[0] && both[|both| - 1] == t[|t| - 1] && StripDots(both) == both;
    assert BorderFree(DOT);
    SplitAround(s, DOT, "." + t);
    SplitAround("", DOT, t);
    NoCharNoFind("", '.');
    SplitOnce("", DOT);
    NoText();
    ArcsOfAppend([""], Split(t, DOT));
    ArcsOfAppend(Split(s, DOT), [""] + Split(t, DOT));
    assert [] + b == b;
  }

  lemma NoText()
    ensures ArcsOf([""]) == Some([])
  {
    assert [""][1..] == [];
  }

  lemma Stripped(s: string)
    requires s != "" && s[0] != '.' && s[|s| - 1] != '.'
    ensures StripDots("." + s + ".") == s
  {
    var one := s + ".";
    assert ("." + s + ".")[1..] == one && ("." + s + ".")[0] == '.';
    assert one[0] == s[0] && one[|one| - 1] == '.' && one[..|one| - 1] == s;
    assert StripDots(one) == StripDots(s) == s;
  }

  /** The text is the printed form of at least two arcs, the second below 40. */
  ghost predicate Faithful(oid: string) {
    exists arcs :: FaithfulArcs(arcs) && oid == PrintOid(arcs)
  }

  predicate FaithfulArcs(arcs: seq<nat>) { |arcs| >= 2 && arcs[1] < 40 }

  /** What an identifier that can be encoded comes back as. */
  function Reread(oid: string): string
    requires OidOctets(oid).Some?
  {
    DecodeOid(OidOctets(oid).value)
  }

  /** An identifier that can be encoded is read back unchanged exactly when it is faithful. */
  lemma RereadSameExactlyWhenFaithful(oid: string)
    requires OidOctets(oid).Some?
    ensures Reread(oid) == oid <==> Faithful(oid)
  {
    hide PrintOid, DecodeOidArcs, OidBody, ParseOid;
    var arcs := ParseOid(oid).value;
    var back := DecodeOidArcs(OidOctets(oid).value);
    DecodedOid(arcs);
    assert FaithfulArcs(back);
    if Faithful(oid) {
      var a: seq<nat> :| FaithfulArcs(a) && oid == PrintOid(a);
      ParsePrinted(a);
      OidRoundTrip(a);
    }
  }

  /** The printed form of at least two arcs is encoded wherever its first octet fits, and comes back. */
  lemma PrintedIsEncoded(arcs: seq<nat>)
    requires |arcs| >= 2 && arcs[1] < 40 && 40 * arcs[0] + arcs[1] <= 255
    ensures OidOctets(PrintOid(arcs)).Some? && Reread(PrintOid(arcs)) == PrintOid(arcs)
  {
    hide PrintOid, OidBody, ParseOid, DecodeOidArcs;
    ParsePrinted(arcs);
    EncodedExactlyWhen(arcs);
    assert FaithfulArcs(arcs);
    RereadSameExactlyWhenFaithful(PrintOid(arcs));
  }

  // ---------- reading the parts back ----------

  function RereadAll(vbs: seq<VarBind>): seq<string>
    requires VarBindList(vbs).Some?
  {
    if vbs == [] then [] else [Reread(vbs[0].oid)] + RereadAll(vbs[1..])
  }

  lemma TlvIsLonger(tag: byte, value: bytes)
    ensures |Tlv(tag, value)| > |value|
  {
    hide EncodeLength;
  }

  lemma VarBindReads(vb: VarBind)
    requires VarBindOctets(vb).Some? && LengthFits(|VarBindOctets(vb).value|)
    ensures var r := ReadAt(VarBindOctets(vb).value, 0);
      r.Read? && DecodeOid(r.element.value) == Reread(vb.oid)
  {
    hide Tlv, LengthFits, ReadAt, DecodeOid, OidOctets, EncodeValue;
    var data := VarBindOctets(vb).value;
    var oid, value := OidOctets(vb.oid).value, EncodeValue(vb.value).value;
    assert data[0..] == Tlv(TAG_OID, oid) + value;
    TlvIsLonger(TAG_OID, oid);
    LengthFitsBelow(|oid|, |data|);
    ReadTlv(data, 0, TAG_OID, oid, value);
  }

  lemma {:induction false} ListReads(data: bytes, pos: nat, vbs: seq<VarBind>)
    requires VarBindList(vbs).Some? && pos <= |data| && data[pos..] == VarBindList(vbs).value
    requires LengthFits(|data|)
    ensures ReadOids(data, pos) == Some(RereadAll(vbs))
    decreases |vbs|
  {
    hide Tlv, LengthFits, ReadAt, DecodeOid, VarBindOctets;
    if vbs == [] {
      assert pos == |data|;
    } else {
      var first, rest := VarBindOctets(vbs[0]).value, VarBindList(vbs[1..]).value;
      TlvIsLonger(TAG_SEQUENCE, first);
      LengthFitsBelow(|first|, |data|);
      ReadTlv(data, pos, TAG_SEQUENCE, first, rest);
      VarBindReads(vbs[0]);
      ListReads(data, pos + |Tlv(TAG_SEQUENCE, first)|, vbs[1..]);
    }
  }

  /** Elements written one after another. */
  function TlvAll(es: seq<Element>): bytes {
    if es == [] then [] else Tlv(es[0].tag, es[0].value) + TlvAll(es[1..])
  }

  lemma {:induction false} ManyRead(data: bytes, pos: nat, es: seq<Element>)
    requires pos <= |data| && data[pos..] == TlvAll(es) && LengthFits(|data|)
    ensures ReadMany(data, pos, |es|) == Some(es)
    decreases |es|
  {
    hide Tlv, LengthFits, ReadAt;
    if es != [] {
      var e, rest := es[0], TlvAll(es[1..]);
      TlvIsLonger(e.tag, e.value);
      LengthFitsBelow(|e.value|, |data|);
      ReadTlv(data, pos, e.tag, e.value, rest);
      ManyRead(data, pos + |Tlv(e.tag, e.value)|, es[1..]);
      assert es == [e] + es[1..];
    }
  }

  function IntElement(n: nat): Element { Element(TAG_INTEGER, IntBody(n, TAG_INTEGER)) }

  lemma PduIs(requestId: nat, errorStatus: nat, errorIndex: nat, list: bytes)
    ensures PduBody(requestId, errorStatus, errorIndex, list)
      == TlvAll([IntElement(requestId), IntElement(errorStatus), IntElement(errorIndex), Element(TAG_SEQUENCE, list)])
  {
    hide Tlv, IntBody;
    TlvAllFour(IntElement(requestId), IntElement(errorStatus), IntElement(errorIndex), Element(TAG_SEQUENCE, list));
  }

  lemma TlvAllFour(a: Element, b: Element, c: Element, d: Element)
    ensures TlvAll([a, b, c, d]) == Tlv(a.tag, a.value) + (Tlv(b.tag, b.value) + (Tlv(c.tag, c.value) + Tlv(d.tag, d.value)))
    ensures TlvAll([b, c, d]) == Tlv(b.tag, b.value) + (Tlv(c.tag, c.value) + Tlv(d.tag, d.value))
  {
    hide Tlv;
    assert [a, b, c, d][1..] == [b, c, d] && [b, c, d][1..] == [c, d] && [c, d][1..] == [d] && [d][1..] == [];
    assert TlvAll([d]) == Tlv(d.tag, d.value) + [] == Tlv(d.tag, d.value);
    assert TlvAll([c, d]) == Tlv(c.tag, c.value) + TlvAll([d]);
    assert TlvAll([b, c, d]) == Tlv(b.tag, b.value) + TlvAll([c, d]);
  }

  lemma MessageIs(version: nat, community: bytes, pdu: bytes)
    ensures MessageBody(version, community, pdu)
      == TlvAll([IntElement(version), Element(TAG_OCTET_STRING, community), Element(PDU_RESPONSE, pdu)])
  {
    hide Tlv, IntBody;
    TlvAllFour(IntElement(0), IntElement(version), Element(TAG_OCTET_STRING, community), Element(PDU_RESPONSE, pdu));
  }

  lemma {:induction false} PartsAreShorter(es: seq<Element>, i: nat)
    requires i < |es|
    ensures |es[i].value| < |TlvAll(es)|
    decreases |es|
  {
    hide Tlv;
    TlvIsLonger(es[0].tag, es[0].value);
    if i > 0 { PartsAreShorter(es[1..], i - 1); }
  }

  // ---------- the whole message ----------

  lemma PduElements(requestId: nat, errorStatus: nat, errorIndex: nat, list: bytes)
    requires LengthFits(|PduBody(requestId, errorStatus, errorIndex, list)|)
    ensures LengthFits(|list|)
    ensures ReadMany(PduBody(requestId, errorStatus, errorIndex, list), 0, 4)
      == Some([IntElement(requestId), IntElement(errorStatus), IntElement(errorIndex), Element(TAG_SEQUENCE, list)])
  {
    hide Tlv, LengthFits, ReadAt, IntBody, PduBody, ReadMany, TlvAll;
    var data := PduBody(requestId, errorStatus, errorIndex, list);
    var es := [IntElement(requestId), IntElement(errorStatus), IntElement(errorIndex), Element(TAG_SEQUENCE, list)];
    PduIs(requestId, errorStatus, errorIndex, list);
    assert data[0..] == data;
    ManyRead(data, 0, es);
    PartsAreShorter(es, 3);
    assert es[3].value == list;
    LengthFitsBelow(|list|, |data|);
  }

  lemma MessageElements(version: nat, community: bytes, pdu: bytes)
    requires LengthFits(|Tlv(TAG_SEQUENCE, MessageBody(version, community, pdu))|)
    ensures LengthFits(|pdu|)
    ensures var r := ReadAt(Tlv(TAG_SEQUENCE, MessageBody(version, community, pdu)), 0);
      r.Read? && r.element.tag == TAG_SEQUENCE
      && ReadMany(r.element.value, 0, 3)
         == Some([IntElement(version), Element(TAG_OCTET_STRING, community), Element(PDU_RESPONSE, pdu)])
  {
    hide Tlv, LengthFits, ReadAt, IntBody, MessageBody, ReadMany, TlvAll;
    var body := MessageBody(version, community, pdu);
    var msg := Tlv(TAG_SEQUENCE, body);
    var es := [IntElement(version), Element(TAG_OCTET_STRING, community), Element(PDU_RESPONSE, pdu)];
    MessageIs(version, community, pdu);
    TlvIsLonger(TAG_SEQUENCE, body);
    LengthFitsBelow(|body|, |msg|);
    assert msg[0..] == msg + [] == msg;
    ReadTlv(msg, 0, TAG_SEQUENCE, body, []);
    assert body[0..] == body;
    ManyRead(body, 0, es);
    PartsAreShorter(es, 2);
    assert es[2].value == pdu;
    LengthFitsBelow(|pdu|, |body|);
  }

  lemma PduReads(requestId: nat, errorStatus: nat, errorIndex: nat, vbs: seq<VarBind>)
    requires VarBindList(vbs).Some?
    requires LengthFits(|PduBody(requestId, errorStatus, errorIndex, VarBindList(vbs).value)|)
    ensures var p := ReadMany(PduBody(requestId, errorStatus, errorIndex, VarBindList(vbs).value), 0, 4);
      p.Some? && DecodeInt(p.value[0].value) == requestId && DecodeInt(p.value[1].value) == errorStatus
      && DecodeInt(p.value[2].value) == errorIndex && ReadOids(p.value[3].value, 0) == Some(RereadAll(vbs))
  {
    hide Tlv, LengthFits, ReadAt, IntBody, DecodeInt, PduBody, ReadMany, ReadOids, RereadAll, VarBindList, TlvAll;
    var list := VarBindList(vbs).value;
    PduElements(requestId, errorStatus, errorIndex, list);
    DecodeEncodedInt(requestId);
    DecodeEncodedInt(errorStatus);
    DecodeEncodedInt(errorIndex);
    assert list[0..] == list;
    ListReads(list, 0, vbs);
  }

  /** The request decoded from a response carries the version, community, response tag, request
      id, status and index it was encoded with, and each identifier as it rereads. */
  lemma ResponseReads(version: nat, community: bytes, requestId: nat, vbs: seq<VarBind>, errorStatus: nat, errorIndex: nat)
    requires var msg := ResponseSpec(version, community, requestId, vbs, errorStatus, errorIndex);
      msg.Some? && LengthFits(|msg.value|)
    ensures DecodeSpec(ResponseSpec(version, community, requestId, vbs, errorStatus, errorIndex).value)
      == Some(Request(version, community, PDU_RESPONSE, requestId, errorStatus, errorIndex, RereadAll(vbs)))
  {
    hide Tlv, LengthFits, ReadAt, IntBody, DecodeInt, PduBody, MessageBody, ReadMany, ReadOids, RereadAll, VarBindList, TlvAll;
    MessageElements(version, community, PduBody(requestId, errorStatus, errorIndex, VarBindList(vbs).value));
    DecodeEncodedInt(version);
    PduReads(requestId, errorStatus, errorIndex, vbs);
  }

  function Oids(vbs: seq<VarBind>): seq<string> {
    if vbs == [] then [] else [vbs[0].oid] + Oids(vbs[1..])
  }

  lemma HeadAndTail(vbs: seq<VarBind>)
    requires vbs != [] && VarBindList(vbs).Some?
    ensures VarBindList(vbs[1..]).Some? && OidOctets(vbs[0].oid).Some?
    ensures RereadAll(vbs) == Oids(vbs) <==> Reread(vbs[0].oid) == vbs[0].oid && RereadAll(vbs[1..]) == Oids(vbs[1..])
  {
    hide Reread, Tlv, EncodeValue, OidOctets;
    assert RereadAll(vbs)[0] == Reread(vbs[0].oid) && RereadAll(vbs)[1..] == RereadAll(vbs[1..]);
    assert Oids(vbs)[0] == vbs[0].oid && Oids(vbs)[1..] == Oids(vbs[1..]);
  }

  ghost predicate AllFaithful(vbs: seq<VarBind>) { forall vb :: vb in vbs ==> Faithful(vb.oid) }

  lemma FaithfulCons(vbs: seq<VarBind>)
    ensures AllFaithful(vbs) <==> (vbs == [] || (Faithful(vbs[0].oid) && AllFaithful(vbs[1..])))
  {
    hide Faithful;
    if vbs != [] { assert vbs == [vbs[0]] + vbs[1..]; }
  }

  lemma {:induction false} RereadAllSame(vbs: seq<VarBind>)
    requires VarBindList(vbs).Some?
    ensures RereadAll(vbs) == Oids(vbs) <==> AllFaithful(vbs)
    decreases |vbs|
  {
    hide Reread, Faithful, AllFaithful, VarBindList, OidOctets;
    FaithfulCons(vbs);
    if vbs != [] {
      HeadAndTail(vbs);
      RereadSameExactlyWhenFaithful(vbs[0].oid);
      RereadAllSame(vbs[1..]);
    }
  }

  /** decode_request(encode_response(...)) returns everything that was encoded, including the
      list of identifiers, exactly when every identifier is the printed form of at least two
      arcs with the second below 40 (and, to be encodable, 40 * first + second at most 255). */
  lemma RoundTrip(version: nat, community: bytes, requestId: nat, vbs: seq<VarBind>, errorStatus: nat, errorIndex: nat)
    requires var msg := ResponseSpec(version, community, requestId, vbs, errorStatus, errorIndex);
      msg.Some? && LengthFits(|msg.value|)
    ensures DecodeSpec(ResponseSpec(version, community, requestId, vbs, errorStatus, errorIndex).value)
      == Some(Request(version, community, PDU_RESPONSE, requestId, errorStatus, errorIndex, Oids(vbs)))
      <==> forall vb :: vb in vbs ==> Faithful(vb.oid)
  {
    hide DecodeSpec, ResponseSpec, LengthFits, VarBindList, Faithful, RereadAll, Oids;
    ResponseReads(version, community, requestId, vbs, errorStatus, errorIndex);
    assert VarBindList(vbs).Some? by { ListEncoded(version, community, requestId, vbs, errorStatus, errorIndex); }
    RereadAllSame(vbs);
  }

  lemma ListEncoded(version: nat, community: bytes, requestId: nat, vbs: seq<VarBind>, errorStatus: nat, errorIndex: nat)
    requires ResponseSpec(version, community, requestId, vbs, errorStatus, errorIndex).Some?
    ensures VarBindList(vbs).Some?
  {}

  /** A negative second arc is encoded as well: 2.-1 comes back as 1.39. */
  lemma NegativeSecondArc()
    ensures OidBody([2, -1]).Some? && DecodeOidArcs(OidBody([2, -1]).value) == [1, 39]
  {
    DecodedOid([2, -1]);
    assert [1, 39] + LaterArcs([2, -1]) == [1, 39];
  }

  /** The standard "iso.joint" identifier 2.100 is encodable but comes back as 4.20. */
  lemma SecondArcTooLarge()
    ensures OidBody([2, 100]).Some? && DecodeOidArcs(OidBody([2, 100]).value) == [4, 20]
  {
    DecodedOid([2, 100]);
    assert [4, 20] + LaterArcs([2, 100]) == [4, 20];
  }
}
