/** engine/real_bgp_agent.py: when the path attributes of an UPDATE stay inside their own block. */
module BgpBlock {
  import opened Text
  import opened Ber
  import opened Bgp
  import opened BgpRoundTrip

  // ---------- the grammar of a block ----------

  /** One path attribute as it stands in the message: flags, type, length octets and value. */
  datatype Raw = Raw(flags: byte, code: byte, size: bytes, value: bytes)

  predicate RawFits(r: Raw) {
    |r.size| == (if Extended(r.flags) then 2 else 1) && FromBytes(r.size) == |r.value|
  }

  predicate AllFit(rs: seq<Raw>) { forall r :: r in rs ==> RawFits(r) }

  function RenderRaw(r: Raw): bytes { [r.flags] + ([r.code] + (r.size + r.value)) }

  function Render(rs: seq<Raw>): bytes { if rs == [] then [] else RenderRaw(rs[0]) + Render(rs[1..]) }

  /** What the attributes of a block mean, one after the other. */
  function ApplyAll(a: Attrs, rs: seq<Raw>): Result<Attrs>
    decreases |rs|
  {
    if rs == [] then Ok(a)
    else
      match Apply(a, rs[0].code, rs[0].value)
      case Crash => Crash
      case Ok(a') => ApplyAll(a', rs[1..])
  }

  // ---------- the walk ----------

  /** The position after the attribute at a position, by its header alone. */
  function NextStart(body: bytes, pos: nat): (r: Result<nat>)
    ensures r.Ok? ==> r.value > pos
  {
    if pos + 1 >= |body| then Crash
    else
      var size := if Extended(body[pos]) then 2 else 1;
      match Unpack(body, pos + 2, size)
      case Crash => Crash
      case Ok(n) => Ok(pos + 2 + size + n)
  }

  /** Where the attribute loop stops, reading header sizes and lengths only. */
  function WalkEnd(body: bytes, pos: nat, end: nat): Result<nat>
    decreases end - pos
  {
    if pos >= end then Ok(pos)
    else
      match NextStart(body, pos)
      case Crash => Crash
      case Ok(next) => WalkEnd(body, next, end)
  }

  lemma ItemEnds(body: bytes, pos: nat)
    requires pos < |body|
    ensures ReadItem(body, pos).Ok? == NextStart(body, pos).Ok?
    ensures ReadItem(body, pos).Ok? ==> ReadItem(body, pos).value.next == NextStart(body, pos).value
  {
    hide Unpack, Slice;
  }

  /** Every attribute the loop reads ends within the block. */
  predicate AllInside(body: bytes, pos: nat, end: nat)
    requires end <= |body|
    decreases end - pos
  {
    pos < end ==>
      var item := ReadItem(body, pos);
      item.Ok? && item.value.next <= end && AllInside(body, item.value.next, end)
  }

  lemma {:induction false} InsideExactlyWhen(body: bytes, pos: nat, end: nat)
    requires pos <= end <= |body|
    ensures AllInside(body, pos, end) <==> WalkEnd(body, pos, end) == Ok(end)
    decreases end - pos
  {
    hide ReadItem, NextStart;
    if pos < end {
      ItemEnds(body, pos);
      var item := ReadItem(body, pos);
      if item.Ok? && item.value.next <= end { InsideExactlyWhen(body, item.value.next, end); }
    }
  }

  lemma RawReads(body: bytes, pos: nat, r: Raw)
    requires RawFits(r) && At(body, RenderRaw(r), pos)
    ensures pos < |body| && ReadItem(body, pos) == Ok(Item(r.code, r.value, pos + |RenderRaw(r)|))
  {
    hide At, Slice, FromBytes, Extended;
    OctetAt(body, r.flags, [r.code] + (r.size + r.value), pos);
    OctetAt(body, r.code, r.size + r.value, pos + 1);
    AtSplit(body, r.size, r.value, pos + 2);
    SliceReads(body, r.value, pos + 2 + |r.size|);
    UnpackAt(body, r.size, pos + 2);
  }

  lemma UnpackAt(b: bytes, size: bytes, pos: nat)
    requires At(b, size, pos)
    ensures Unpack(b, pos, |size|) == Ok(FromBytes(size))
  {
    hide FromBytes;
  }

  /** A rendered block is read attribute by attribute, and the loop stops at its end. */
  lemma {:induction false} BlockReads(body: bytes, pos: nat, end: nat, rs: seq<Raw>, a: Attrs)
    requires AllFit(rs) && end <= |body| && At(body, Render(rs), pos) && end == pos + |Render(rs)|
    ensures ReadAttrs(body, pos, end, a) == ApplyAll(a, rs) && AllInside(body, pos, end)
    decreases |rs|
  {
    hide At, RenderRaw, RawFits, ReadItem, Apply;
    if rs != [] {
      var r := rs[0];
      assert r in rs;
      AtSplit(body, RenderRaw(r), Render(rs[1..]), pos);
      RawReads(body, pos, r);
      RawIsLong(r);
      match Apply(a, r.code, r.value)
      case Ok(a') => BlockReads(body, pos + |RenderRaw(r)|, end, rs[1..], a');
      case Crash => BlockReads(body, pos + |RenderRaw(r)|, end, rs[1..], a);
    }
  }

  lemma RawIsLong(r: Raw)
    ensures |RenderRaw(r)| > 0
  {}

  /** The attribute that the loop reads at a position, when it ends within the block. */
  lemma RawAt(body: bytes, pos: nat, end: nat) returns (r: Raw)
    requires pos < end <= |body| && ReadItem(body, pos).Ok? && ReadItem(body, pos).value.next <= end
    ensures RawFits(r) && RenderRaw(r) == body[pos..ReadItem(body, pos).value.next]
  {
    hide FromBytes, Extended;
    var next := ReadItem(body, pos).value.next;
    var size := if Extended(body[pos]) then 2 else 1;
    r := Raw(body[pos], body[pos + 1], body[pos + 2..pos + 2 + size], body[pos + 2 + size..next]);
    assert body[pos..next] == [body[pos]] + ([body[pos + 1]] + (body[pos + 2..pos + 2 + size] + body[pos + 2 + size..next]));
  }

  lemma {:induction false} RawsOf(body: bytes, pos: nat, end: nat) returns (rs: seq<Raw>)
    requires pos <= end <= |body| && AllInside(body, pos, end)
    ensures AllFit(rs) && Render(rs) == body[pos..end]
    decreases end - pos
  {
    hide ReadItem, RenderRaw, RawFits;
    rs := [];
    if pos < end {
      var next := ReadItem(body, pos).value.next;
      var r := RawAt(body, pos, end);
      var rest := RawsOf(body, next, end);
      rs := [r] + rest;
      assert rs[1..] == rest && body[pos..next] + body[next..end] == body[pos..end];
    }
  }

  /** The walk lands exactly on the end of the block if and only if every attribute ends within the
      block, if and only if the block is a row of well-formed attributes. */
  lemma BlockExactlyTheGrammar(body: bytes, pos: nat, end: nat)
    requires pos <= end <= |body|
    ensures WalkEnd(body, pos, end) == Ok(end) <==> AllInside(body, pos, end)
    ensures WalkEnd(body, pos, end) == Ok(end) <==> exists rs :: AllFit(rs) && Render(rs) == body[pos..end]
  {
    hide WalkEnd, AllInside, Render, AllFit;
    InsideExactlyWhen(body, pos, end);
    if AllInside(body, pos, end) {
      var rs := RawsOf(body, pos, end);
    }
    if rs :| AllFit(rs) && Render(rs) == body[pos..end] {
      BlockReads(body, pos, end, rs, DEFAULTS);
    }
  }

  // ---------- a whole UPDATE ----------

  function BlockStart(body: bytes): nat
    requires |body| >= 2
  {
    4 + FromBytes(body[..2])
  }

  function BlockEnd(body: bytes): nat
    requires |body| >= 2 && BlockStart(body) <= |body|
  {
    BlockStart(body) + FromBytes(body[BlockStart(body) - 2..BlockStart(body)])
  }

  lemma AcceptedHasBlock(body: bytes)
    requires ParseBody(body).Update?
    ensures |body| >= 4 && BlockStart(body) <= |body| && BlockStart(body) <= BlockEnd(body) <= |body|
    ensures ReadAttrs(body, BlockStart(body), BlockEnd(body), DEFAULTS) == Ok(ParseBody(body).attrs)
  {
    hide FromBytes, ReadAttrs, ReadPrefixes;
  }

  lemma {:induction false} AcceptedWalks(body: bytes, pos: nat, end: nat, a: Attrs)
    requires pos <= end <= |body| && ReadAttrs(body, pos, end, a).Ok?
    ensures WalkEnd(body, pos, end).Ok? && WalkEnd(body, pos, end).value >= end
    decreases end - pos
  {
    hide ReadItem, NextStart, Apply;
    if pos < end {
      ItemEnds(body, pos);
      var item := ReadItem(body, pos).value;
      if item.next <= end { AcceptedWalks(body, item.next, end, Apply(a, item.typeCode, item.value).value); }
    }
  }

  /** An accepted UPDATE takes every attribute from its own block if and only if the walk lands
      exactly on the end of the block; otherwise it stops past the end. Then the block is a row of
      well-formed attributes, the result is what they mean one after the other, and no octet after
      the block can change it. */
  lemma AttributesStayExactlyWhen(body: bytes)
    requires ParseBody(body).Update?
    ensures |body| >= 4 && BlockStart(body) <= BlockEnd(body) <= |body|
    ensures var pos, end := BlockStart(body), BlockEnd(body);
      var w := WalkEnd(body, pos, end);
      w.Ok? && w.value >= end && (AllInside(body, pos, end) <==> w.value == end)
      && (w.value == end <==> exists rs :: AllFit(rs) && Render(rs) == body[pos..end])
      && (forall rs :: AllFit(rs) && Render(rs) == body[pos..end] ==> ApplyAll(DEFAULTS, rs) == Ok(ParseBody(body).attrs))
      && (w.value == end ==> forall tail: bytes {:trigger body[..end] + tail} ::
        ReadAttrs(body[..end] + tail, pos, end, DEFAULTS) == Ok(ParseBody(body).attrs))
  {
    hide ParseBody, FromBytes, ReadAttrs, WalkEnd, AllInside, Render, AllFit, ApplyAll, BlockStart, BlockEnd;
    AcceptedHasBlock(body);
    var pos, end := BlockStart(body), BlockEnd(body);
    AcceptedWalks(body, pos, end, DEFAULTS);
    BlockExactlyTheGrammar(body, pos, end);
    forall rs | AllFit(rs) && Render(rs) == body[pos..end] ensures ApplyAll(DEFAULTS, rs) == Ok(ParseBody(body).attrs) {
      BlockReads(body, pos, end, rs, DEFAULTS);
    }
    if WalkEnd(body, pos, end).value == end {
      var rs :| AllFit(rs) && Render(rs) == body[pos..end];
      forall tail: bytes ensures ReadAttrs(body[..end] + tail, pos, end, DEFAULTS) == Ok(ParseBody(body).attrs) {
        var other := body[..end] + tail;
        assert other[pos..end] == body[pos..end];
        BlockReads(other, pos, end, rs, DEFAULTS);
      }
    }
  }

  /** The overrunning NEXT_HOP is such a case: the walk stops four octets past the end. */
  lemma OverrunWalksPast()
    ensures WalkEnd(OVERRUN, 4, 7) == Ok(11)
  {
    hide FromBytes;
    FromBytesOne(4);
    assert OVERRUN[4] == 0 && OVERRUN[6..7] == [4];
    assert NextStart(OVERRUN, 4) == Ok(11);
  }
}
