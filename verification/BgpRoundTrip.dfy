/** engine/real_bgp_agent.py: the UPDATE parser inverts the canonical encoding. */
module BgpRoundTrip {
  import opened Text
  import opened Bits
  import opened Ipv4
  import opened Ber
  import opened Bgp

  lemma AtSplit(b: bytes, x: bytes, y: bytes, pos: nat)
    requires At(b, x + y, pos)
    ensures At(b, x, pos) && At(b, y, pos + |x|)
  {
    var z := x + y;
    assert b[pos..pos + |z|] == z;
    assert b[pos..pos + |x|] == z[..|x|] == x;
    assert b[pos + |x|..pos + |z|] == z[|x|..] == y;
  }

  lemma OctetAt(b: bytes, x: byte, y: bytes, pos: nat)
    requires At(b, [x] + y, pos)
    ensures pos < |b| && b[pos] == x && At(b, y, pos + 1)
  {
    AtSplit(b, [x], y, pos);
    assert b[pos..pos + 1][0] == x;
  }

  lemma SliceReads(b: bytes, x: bytes, pos: nat)
    requires At(b, x, pos)
    ensures Slice(b, pos, |x|) == x
  {}

  lemma UnpackReads(b: bytes, n: nat, size: nat, pos: nat)
    requires n < Pow2(8 * size) && At(b, ToBytes(n, size), pos)
    ensures Unpack(b, pos, size) == Ok(n)
  {
    FromToBytes(n, size);
  }

  lemma Sizes()
    ensures Pow2(8) == 0x100 && Pow2(16) == 0x1_0000 && Pow2(32) == 0x1_0000_0000
  {
    Pow2Of32();
  }

  // ---------- AS paths ----------

  lemma {:induction false} AsnsRead(value: bytes, asns: seq<nat>, pos: nat)
    requires (forall a :: a in asns ==> a < 0x1_0000_0000) && At(value, EncodeAsns(asns), pos)
    ensures ReadAsns(value, pos, |asns|) == Ok(asns) && |EncodeAsns(asns)| == 4 * |asns|
  {
    hide Unpack, ToBytes, At;
    if asns != [] {
      assert asns[0] in asns;
      assert forall a :: a in asns[1..] ==> a in asns;
      assert EncodeAsns(asns) == ToBytes(asns[0], 4) + EncodeAsns(asns[1..]);
      AtSplit(value, ToBytes(asns[0], 4), EncodeAsns(asns[1..]), pos);
      Sizes();
      UnpackReads(value, asns[0], 4, pos);
      AsnsRead(value, asns[1..], pos + 4);
      assert asns == [asns[0]] + asns[1..];
      assert ReadAsns(value, pos, |asns|) == Ok([asns[0]] + asns[1..]);
    }
  }

  lemma {:induction false} SegmentsRead(value: bytes, segments: seq<Segment>, pos: nat)
    requires (forall s :: s in segments ==> SegmentFits(s)) && At(value, EncodeSegments(segments), pos)
    requires pos + |EncodeSegments(segments)| == |value|
    ensures ReadAsPath(value, pos) == Ok(AllAsns(segments))
  {
    hide At, ReadAsns, EncodeAsns;
    if segments != [] {
      var s := segments[0];
      assert s in segments && SegmentFits(s);
      var count: byte := |s.asns|;
      var asns, rest := EncodeAsns(s.asns), EncodeSegments(segments[1..]);
      assert EncodeSegments(segments) == [s.kind] + ([count] + (asns + rest));
      OctetAt(value, s.kind, [count] + (asns + rest), pos);
      OctetAt(value, count, asns + rest, pos + 1);
      AtSplit(value, asns, rest, pos + 2);
      AsnsRead(value, s.asns, pos + 2);
      SegmentsRead(value, segments[1..], pos + 2 + |asns|);
    }
  }

  // ---------- attributes ----------

  lemma ApplyReads(a: Attrs, v: Value)
    requires ValueFits(v)
    ensures Apply(a, TypeCode(v), Content(v)) == Ok(Effect(a, v))
  {
    hide ReadAsPath, EncodeSegments, ToBytes, FromBytes, Dotted, AllAsns, Pow2;
    Sizes();
    match v
    case AsPath(segments) =>
      var c := Content(v);
      assert c[0..0 + |c|] == c;
      SegmentsRead(c, segments, 0);
    case Med(metric) => FromToBytes(metric, 4);
    case LocalPref(preference) => FromToBytes(preference, 4);
    case _ =>
  }

  lemma ItemReads(body: bytes, a: Attr, pos: nat)
    requires AttrFits(a) && At(body, EncodeAttr(a), pos)
    ensures ReadItem(body, pos) == Ok(Item(TypeCode(a.value), Content(a.value), pos + |EncodeAttr(a)|))
  {
    hide At, Slice, Unpack, ToBytes, Content, TypeCode, ValueFits, Extended;
    var c, size := Content(a.value), if Extended(a.flags) then 2 else 1;
    var tail := ToBytes(|c|, size) + c;
    assert EncodeAttr(a) == [a.flags] + ([TypeCode(a.value)] + tail);
    OctetAt(body, a.flags, [TypeCode(a.value)] + tail, pos);
    OctetAt(body, TypeCode(a.value), tail, pos + 1);
    AtSplit(body, ToBytes(|c|, size), c, pos + 2);
    Sizes();
    UnpackReads(body, |c|, size, pos + 2);
    SliceReads(body, c, pos + 2 + size);
  }

  lemma {:induction false} AttrsRead(body: bytes, attrs: seq<Attr>, pos: nat, end: nat, a: Attrs)
    requires (forall x :: x in attrs ==> AttrFits(x)) && At(body, EncodeAttrs(attrs), pos)
    requires end == pos + |EncodeAttrs(attrs)|
    ensures ReadAttrs(body, pos, end, a) == Ok(Effects(a, attrs))
    decreases |attrs|
  {
    hide ReadItem, EncodeAttr, Apply, Effect, AttrFits;
    if attrs != [] {
      var x := attrs[0];
      assert x in attrs;
      AtSplit(body, EncodeAttr(x), EncodeAttrs(attrs[1..]), pos);
      ItemReads(body, x, pos);
      FitsValue(x);
      ApplyReads(a, x.value);
      AttrsRead(body, attrs[1..], pos + |EncodeAttr(x)|, end, Effect(a, x.value));
    }
  }

  lemma FitsValue(a: Attr)
    requires AttrFits(a)
    ensures ValueFits(a.value) && |EncodeAttr(a)| > 0
  {}

  // ---------- prefixes ----------

  lemma {:induction false} PrefixesRead(nlri: bytes, ps: seq<Prefix>, pos: nat)
    requires (forall p :: p in ps ==> p.length <= 32) && At(nlri, EncodePrefixes(ps), pos)
    requires pos + |EncodePrefixes(ps)| == |nlri|
    ensures ReadPrefixes(nlri, pos) == Ok(Routes(ps))
  {
    hide At, Slice, Padded, Dotted, Width;
    if ps != [] {
      var p := ps[0];
      assert p in ps;
      var part, tail := p.octets[..Width(p.length)], EncodePrefixes(ps[1..]);
      assert EncodePrefixes(ps) == [p.length as byte] + (part + tail);
      OctetAt(nlri, p.length, part + tail, pos);
      AtSplit(nlri, part, tail, pos + 1);
      SliceReads(nlri, part, pos + 1);
      PrefixesRead(nlri, ps[1..], pos + 1 + |part|);
    }
  }

  // ---------- the whole message ----------

  /** Any withdrawn block, any attributes in any order with either length form, unknown types in
      between, and any prefixes of length 0 to 32 parse back: each attribute has its effect, and
      each prefix comes back with the octets its length covers. */
  lemma UpdateReads(withdrawn: bytes, attrs: seq<Attr>, prefixes: seq<Prefix>)
    requires MessageFits(withdrawn, attrs, prefixes)
    ensures ParseBody(Encode(withdrawn, attrs, prefixes)) == Update(Effects(DEFAULTS, attrs), Routes(prefixes))
  {
    hide ReadAttrs, ReadPrefixes, EncodeAttrs, EncodePrefixes, ToBytes, FromBytes, Effects, Routes, AttrFits;
    var body, encoded, nlri := Encode(withdrawn, attrs, prefixes), EncodeAttrs(attrs), EncodePrefixes(prefixes);
    var w2, a2 := ToBytes(|withdrawn|, 2), ToBytes(|encoded|, 2);
    assert body == w2 + (withdrawn + (a2 + (encoded + nlri)));
    assert body[0..0 + |body|] == body;
    AtSplit(body, w2, withdrawn + (a2 + (encoded + nlri)), 0);
    AtSplit(body, withdrawn, a2 + (encoded + nlri), 2);
    AtSplit(body, a2, encoded + nlri, 2 + |withdrawn|);
    AtSplit(body, encoded, nlri, 4 + |withdrawn|);
    Sizes();
    FromToBytes(|withdrawn|, 2);
    FromToBytes(|encoded|, 2);
    var end := 4 + |withdrawn| + |encoded|;
    assert body[end..] == nlri;
    AttrsRead(body, attrs, 4 + |withdrawn|, end, DEFAULTS);
    assert nlri[0..0 + |nlri|] == nlri;
    PrefixesRead(nlri, prefixes, 0);
  }

  // ---------- attributes with distinct types ----------

  predicate Distinct(attrs: seq<Attr>) {
    forall i, j :: 0 <= i < j < |attrs| ==> TypeCode(attrs[i].value) != TypeCode(attrs[j].value)
  }

  /** The result carries what the attribute says. */
  predicate Carries(a: Attrs, v: Value) {
    match v
    case Origin(code) => a.origin == if code == 1 then 'e' else if code == 2 then '?' else 'i'
    case AsPath(segments) => a.asPath == AllAsns(segments)
    case NextHop(address) => a.nextHop == Some(Dotted(address))
    case Med(metric) => a.med == metric
    case LocalPref(preference) => a.localPref == preference
    case Other(_, _) => true
  }

  /** The field of a type code is the same in both. */
  predicate SameField(a: Attrs, b: Attrs, code: byte) {
    (code == 1 ==> a.origin == b.origin) && (code == 2 ==> a.asPath == b.asPath) && (code == 3 ==> a.nextHop == b.nextHop)
    && (code == 4 ==> a.med == b.med) && (code == 5 ==> a.localPref == b.localPref)
  }

  predicate Lacks(attrs: seq<Attr>, code: byte) { forall i :: 0 <= i < |attrs| ==> TypeCode(attrs[i].value) != code }

  lemma {:induction false} FieldUntouched(a: Attrs, attrs: seq<Attr>, code: byte)
    requires Lacks(attrs, code) && forall x :: x in attrs ==> ValueFits(x.value)
    ensures SameField(Effects(a, attrs), a, code)
    decreases |attrs|
  {
    if attrs != [] {
      assert TypeCode(attrs[0].value) != code && attrs[0] in attrs;
      FieldUntouched(Effect(a, attrs[0].value), attrs[1..], code);
    }
  }

  lemma {:induction false} FieldSet(a: Attrs, attrs: seq<Attr>, k: nat)
    requires Distinct(attrs) && k < |attrs| && forall x :: x in attrs ==> ValueFits(x.value)
    requires a.asPath == [] || !attrs[k].value.AsPath?
    ensures Carries(Effects(a, attrs), attrs[k].value)
    decreases |attrs|
  {
    hide Dotted, AllAsns;
    assert attrs[0] in attrs && attrs[k] in attrs;
    if k == 0 {
      FieldUntouched(Effect(a, attrs[0].value), attrs[1..], TypeCode(attrs[0].value));
    } else {
      FieldSet(Effect(a, attrs[0].value), attrs[1..], k - 1);
    }
  }

  /** A prefix whose octets beyond its length are zero. */
  predicate Canonical(p: Prefix) {
    p.length <= 32 && forall k :: Width(p.length) <= k < 4 ==> p.octets[k] == 0
  }

  function Written(ps: seq<Prefix>): seq<(string, nat)> {
    if ps == [] then [] else [(Dotted(ps[0].octets), ps[0].length)] + Written(ps[1..])
  }

  lemma KeptExactlyWhenCanonical(p: Prefix)
    requires p.length <= 32
    ensures Kept(p) == p.octets <==> Canonical(p)
  {
    var w := Width(p.length);
    assert forall k :: 0 <= k < w ==> Kept(p)[k] == p.octets[..w][k];
  }

  lemma {:induction false} RoutesExactlyWhenCanonical(ps: seq<Prefix>)
    requires forall p :: p in ps ==> p.length <= 32
    ensures Routes(ps) == Written(ps) <==> forall p :: p in ps ==> Canonical(p)
  {
    hide Dotted, Canonical, Kept;
    if ps != [] {
      assert ps[0] in ps;
      RoutesExactlyWhenCanonical(ps[1..]);
      KeptExactlyWhenCanonical(ps[0]);
      assert Routes(ps)[0] == (Dotted(Kept(ps[0])), ps[0].length) && Routes(ps)[1..] == Routes(ps[1..]);
      assert Written(ps)[0] == (Dotted(ps[0].octets), ps[0].length) && Written(ps)[1..] == Written(ps[1..]);
      if Dotted(Kept(ps[0])) == Dotted(ps[0].octets) { DottedDetermines(Kept(ps[0]), ps[0].octets); }
      assert forall p :: p in ps <==> p == ps[0] || p in ps[1..];
    }
  }

  /** 10.1.2.3/8 is sent as one octet and comes back as 10.0.0.0/8. */
  lemma HostOctetsAreLost()
    ensures var p := Prefix([10, 1, 2, 3], 8);
      Kept(p) == [10, 0, 0, 0] && !Canonical(p) && Routes([p]) != Written([p])
  {
    hide Dotted;
    var p := Prefix([10, 1, 2, 3], 8);
    assert Width(8) == 1 && p.octets[..1] == [10];
    assert Kept(p)[0] == 10;
    assert p.octets[1] == 1;
    assert p in [p];
    RoutesExactlyWhenCanonical([p]);
  }

  /** With distinct types every attribute comes back, a type that is not sent keeps its default,
      and the prefixes come back as they were written exactly when all of them are canonical. */
  lemma UpdateRoundTrip(withdrawn: bytes, attrs: seq<Attr>, prefixes: seq<Prefix>)
    requires MessageFits(withdrawn, attrs, prefixes) && Distinct(attrs)
    ensures var r := ParseBody(Encode(withdrawn, attrs, prefixes));
      r.Update?
      && (forall k :: 0 <= k < |attrs| ==> Carries(r.attrs, attrs[k].value))
      && (forall code: byte :: Lacks(attrs, code) ==> SameField(r.attrs, Attrs(None, [], 'i', 0, 100), code))
      && (r.prefixes == Written(prefixes) <==> forall p :: p in prefixes ==> Canonical(p))
  {
    hide ParseBody, Encode, Effects, Carries, SameField, Routes, Written, Canonical, EncodeAttrs;
    UpdateReads(withdrawn, attrs, prefixes);
    forall x | x in attrs ensures ValueFits(x.value) { FitsValue(x); }
    forall k | 0 <= k < |attrs| ensures Carries(Effects(DEFAULTS, attrs), attrs[k].value) { FieldSet(DEFAULTS, attrs, k); }
    forall code: byte | Lacks(attrs, code) ensures SameField(Effects(DEFAULTS, attrs), DEFAULTS, code) {
      FieldUntouched(DEFAULTS, attrs, code);
    }
    RoutesExactlyWhenCanonical(prefixes);
  }

  // ---------- a length that does not fit ----------

  const ROUTES: bytes := [8, 10, 8, 11]
  const OVERRUN: bytes := [0, 0, 0, 3] + ([0, 3, 4] + ROUTES)

  /** Only the total length of the attributes is checked: a NEXT_HOP whose own length reaches past
      it is accepted, and its value is taken from the routes, which are then read again. Section
      6.3 of RFC 4271 asks for an error here. */
  lemma AttributeMayReadRoutes()
    ensures ParseBody(OVERRUN)
      == Update(DEFAULTS.(nextHop := Some(Dotted(ROUTES))), [(Dotted([10, 0, 0, 0]), 8), (Dotted([11, 0, 0, 0]), 8)])
  {
    hide Dotted, FromBytes, ReadPrefixes, ReadAttrs;
    Small(0, 0);
    Small(0, 3);
    assert OVERRUN[..2] == [0, 0] && OVERRUN[2..4] == [0, 3] && OVERRUN[7..] == ROUTES;
    OverrunningNextHop();
    TwoRoutes();
  }

  lemma OverrunningNextHop()
    ensures ReadAttrs(OVERRUN, 4, 7, DEFAULTS) == Ok(DEFAULTS.(nextHop := Some(Dotted(ROUTES))))
  {
    hide Dotted, FromBytes, ReadAsPath;
    FromBytesOne(4);
    assert OVERRUN[4] == 0 && OVERRUN[5] == 3 && OVERRUN[6..7] == [4];
    assert OVERRUN[7..11] == ROUTES && Slice(OVERRUN, 7, 4) == ROUTES;
    assert ReadItem(OVERRUN, 4) == Ok(Item(3, ROUTES, 11));
    assert Apply(DEFAULTS, 3, ROUTES) == Ok(DEFAULTS.(nextHop := Some(Dotted(ROUTES))));
  }

  lemma TwoRoutes()
    ensures ReadPrefixes(ROUTES, 0) == Ok([(Dotted([10, 0, 0, 0]), 8), (Dotted([11, 0, 0, 0]), 8)])
  {
    hide Dotted;
    var value := ROUTES;
    assert Slice(value, 1, 1) == [10] && Slice(value, 3, 1) == [11];
    assert Padded([10]) == [10, 0, 0, 0] && Padded([11]) == [11, 0, 0, 0];
    var none: seq<(string, nat)> := [];
    var first: (string, nat), second: (string, nat) := (Dotted([10, 0, 0, 0]), 8), (Dotted([11, 0, 0, 0]), 8);
    assert ReadPrefixes(value, 4) == Ok(none) && value[2] == 8 && value[0] == 8 && Width(8) == 1;
    assert [second] + none == [second] && [first] + [second] == [first, second];
    assert ReadPrefixes(value, 2) == Ok([second]);
    assert ReadPrefixes(value, 0) == Ok([first, second]);
  }

  lemma FromBytesOne(a: byte)
    ensures FromBytes([a]) == a
  {
    assert [a][..0] == [];
  }

  lemma Small(a: byte, b: byte)
    ensures FromBytes([a, b]) == 256 * a + b
  {
    FromBytesOne(a);
    assert [a, b][..1] == [a];
  }
}
