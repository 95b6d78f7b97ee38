/** engine/snmp_udp_agent.py: BER elements (sections 8.1.3, 8.3 and 8.19 of X.690). */
module Ber {
  import opened Text
  import opened Bits

  type byte = x: int | 0 <= x < 256
  type bytes = seq<byte>

  const TAG_INTEGER: byte := 0x02
  const TAG_OCTET_STRING: byte := 0x04
  const TAG_OID: byte := 0x06
  const TAG_SEQUENCE: byte := 0x30

  // ---------- integers as octets ----------

  /** n.bit_length() */
  function BitLength(n: nat): nat { if n == 0 then 0 else 1 + BitLength(n / 2) }

  /** n.to_bytes(k, 'big'), for n that fits in k octets. */
  function ToBytes(n: nat, k: nat): (b: bytes)
    ensures |b| == k
  {
    if k == 0 then [] else ToBytes(n / 256, k - 1) + [n % 256]
  }

  /** int.from_bytes(b, 'big') */
  function FromBytes(b: bytes): nat {
    if b == [] then 0 else 256 * FromBytes(b[..|b| - 1]) + b[|b| - 1]
  }

  /** int.from_bytes(b, 'big', signed=True), 0 for no octets. */
  function DecodeInt(b: bytes): int {
    if b == [] then 0
    else if b[0] >= 128 then FromBytes(b) - Pow2(8 * |b|)
    else FromBytes(b)
  }

  lemma {:induction false} FromToBytes(n: nat, k: nat)
    requires n < Pow2(8 * k)
    ensures FromBytes(ToBytes(n, k)) == n
    decreases k
  {
    if k > 0 {
      Pow2Byte(8 * (k - 1));
      FromToBytes(n / 256, k - 1);
      var b := ToBytes(n, k);
      assert b[..|b| - 1] == ToBytes(n / 256, k - 1);
    }
  }

  lemma {:induction false} BitLengthMeans(n: nat)
    ensures n < Pow2(BitLength(n))
    ensures n > 0 ==> BitLength(n) > 0 && Pow2(BitLength(n) - 1) <= n
  {
    if n > 0 { BitLengthMeans(n / 2); }
  }

  lemma {:induction false} BitLengthMonotone(m: nat, n: nat)
    requires m <= n
    ensures BitLength(m) <= BitLength(n)
    decreases n
  {
    if m > 0 { BitLengthMonotone(m / 2, n / 2); }
  }

  lemma {:induction false} Pow2Monotone(a: nat, b: nat)
    requires a <= b
    ensures Pow2(a) <= Pow2(b)
    decreases b
  {
    if a < b { Pow2Monotone(a, b - 1); }
  }

  lemma Pow2Byte(m: nat)
    ensures Pow2(m + 8) == 256 * Pow2(m)
  {
    assert Pow2(m + 2) == 4 * Pow2(m) && Pow2(m + 4) == 4 * Pow2(m + 2);
    assert Pow2(m + 6) == 4 * Pow2(m + 4) && Pow2(m + 8) == 4 * Pow2(m + 6);
  }

  lemma {:induction false} FromBytesBound(b: bytes)
    ensures FromBytes(b) < Pow2(8 * |b|)
    ensures b != [] ==> (FromBytes(b) < Pow2(8 * |b| - 1) <==> b[0] < 128)
  {
    if b != [] {
      var k, init := |b|, b[..|b| - 1];
      FromBytesBound(init);
      Pow2Byte(8 * (k - 1));
      if k == 1 {
        Pow2Of32();
        assert Pow2(8) == 2 * Pow2(7) && FromBytes([]) == 0;
      } else {
        Pow2Byte(8 * (k - 1) - 1);
        assert init[0] == b[0];
      }
    }
  }

  /** Two's complement: the number has as many bits as the octets and agrees with them modulo that
      many. */
  lemma DecodeIntMeans(b: bytes)
    ensures if b == [] then DecodeInt(b) == 0 else 0 <= DecodeInt(b) + Pow2(8 * |b| - 1) < Pow2(8 * |b|)
    ensures DecodeInt(b) == FromBytes(b) || DecodeInt(b) == FromBytes(b) - Pow2(8 * |b|)
  {
    FromBytesBound(b);
    if b != [] { assert Pow2(8 * |b|) == 2 * Pow2(8 * |b| - 1); }
  }

  /** When the leading octet of n in k octets is zero, and when its top bit is clear. */
  lemma {:induction false} LeadingOctet(n: nat, k: nat)
    requires k > 0 && n < Pow2(8 * k)
    ensures ToBytes(n, k)[0] < 128 <==> n < Pow2(8 * k - 1)
    ensures ToBytes(n, k)[0] == 0 <==> n < Pow2(8 * k - 8)
    decreases k
  {
    if k == 1 {
      assert ToBytes(n, 1) == [] + [n % 256];
      Pow2Of32();
      assert Pow2(0) == 1 && Pow2(8) == 2 * Pow2(7);
    } else {
      Pow2Byte(8 * k - 8);
      Pow2Byte(8 * k - 9);
      Pow2Byte(8 * k - 16);
      LeadingOctet(n / 256, k - 1);
      assert ToBytes(n, k)[0] == ToBytes(n / 256, k - 1)[0];
    }
  }

  // ---------- elements ----------

  /** 0x80 | k, for k below 256; longer length fields than that do not exist. */
  function LongForm(k: nat): byte { if k < 128 then 128 + k else k % 256 }

  function LengthOctets(n: nat): nat { (BitLength(n) + 7) / 8 }

  function EncodeLength(n: nat): (b: bytes)
    ensures |b| > 0
  {
    if n < 128 then [n] else [LongForm(LengthOctets(n))] + ToBytes(n, LengthOctets(n))
  }

  function Tlv(tag: byte, value: bytes): bytes { [tag] + EncodeLength(|value|) + value }

  /** The long form can express the length: at most 127 length octets (section 8.1.3.5). */
  predicate LengthFits(n: nat) { LengthOctets(n) <= 127 }

  lemma LengthFitsBelow(m: nat, n: nat)
    requires m <= n && LengthFits(n)
    ensures LengthFits(m)
  {
    BitLengthMonotone(m, n);
  }

  /** Python's data[from:from + count]. */
  function Slice(data: bytes, from: nat, count: nat): bytes {
    if from >= |data| then [] else if from + count > |data| then data[from..] else data[from..from + count]
  }

  datatype Element = Element(tag: byte, value: bytes)

  datatype Read = Truncated | Read(element: Element, next: nat)

  /** The element at a position; Truncated stands for IndexError. A length that runs past the
      end gives a shortened value and a position past the end, as Python slices do. */
  function ReadAt(data: bytes, pos: nat): (r: Read)
    ensures r.Read? ==> r.next >= pos + 2
  {
    if pos + 1 >= |data| then Truncated
    else
      var ln := data[pos + 1];
      if ln < 128 then Read(Element(data[pos], Slice(data, pos + 2, ln)), pos + 2 + ln)
      else
        var size := FromBytes(Slice(data, pos + 2, ln - 128));
        Read(Element(data[pos], Slice(data, pos + 2 + (ln - 128), size)), pos + 2 + (ln - 128) + size)
  }

  lemma SliceAt(data: bytes, from: nat, part: bytes, rest: bytes)
    requires from <= |data| && data[from..] == part + rest
    ensures Slice(data, from, |part|) == part && data[from + |part|..] == rest
  {
    var t := data[from..];
    if from < |data| {
      assert data[from..from + |part|] == t[..|part|] == part;
    }
    assert data[from + |part|..] == t[|part|..];
  }

  lemma ReadShort(data: bytes, pos: nat, tag: byte, value: bytes, rest: bytes)
    requires pos <= |data| && |value| < 128 && data[pos..] == [tag, |value|] + (value + rest)
    ensures ReadAt(data, pos) == Read(Element(tag, value), pos + 2 + |value|)
    ensures data[pos + 2 + |value|..] == rest
  {
    hide FromBytes, Slice;
    var t := data[pos..];
    assert data[pos] == t[0] && data[pos + 1] == t[1];
    assert data[pos + 2..] == t[2..] == value + rest;
    SliceAt(data, pos + 2, value, rest);
  }

  lemma ReadLong(data: bytes, pos: nat, tag: byte, k: nat, size: bytes, value: bytes, rest: bytes)
    requires pos <= |data| && k <= 127 && |size| == k && FromBytes(size) == |value|
    requires data[pos..] == [tag, 128 + k] + (size + (value + rest))
    ensures ReadAt(data, pos) == Read(Element(tag, value), pos + 2 + k + |value|)
    ensures data[pos + 2 + k + |value|..] == rest
  {
    hide FromBytes, Slice;
    var t := data[pos..];
    assert data[pos] == t[0] && data[pos + 1] == t[1];
    assert data[pos + 2..] == t[2..] == size + (value + rest);
    SliceAt(data, pos + 2, size, value + rest);
    SliceAt(data, pos + 2 + k, value, rest);
  }

  /** Reading where an element was written gives that element and stops right after it. */
  lemma ReadTlv(data: bytes, pos: nat, tag: byte, value: bytes, rest: bytes)
    requires pos <= |data| && data[pos..] == Tlv(tag, value) + rest && LengthFits(|value|)
    ensures ReadAt(data, pos) == Read(Element(tag, value), pos + |Tlv(tag, value)|)
    ensures data[pos + |Tlv(tag, value)|..] == rest
  {
    hide BitLength, ToBytes, FromBytes, Slice, ReadAt;
    var n := |value|;
    if n < 128 {
      assert Tlv(tag, value) + rest == [tag, n] + (value + rest);
      ReadShort(data, pos, tag, value, rest);
    } else {
      var k := LengthOctets(n);
      var size := ToBytes(n, k);
      assert Tlv(tag, value) + rest == [tag, 128 + k] + (size + (value + rest));
      LengthReads(n);
      ReadLong(data, pos, tag, k, size, value, rest);
    }
  }

  lemma LengthReads(n: nat)
    ensures FromBytes(ToBytes(n, LengthOctets(n))) == n
  {
    var k := LengthOctets(n);
    BitLengthMeans(n);
    Pow2Monotone(BitLength(n), 8 * k);
    FromToBytes(n, k);
  }

  /** The long form has no leading zero octet. */
  lemma LengthIsMinimal(n: nat)
    requires n >= 128
    ensures LengthOctets(n) > 0 && ToBytes(n, LengthOctets(n))[0] != 0
  {
    hide ToBytes;
    var k := LengthOctets(n);
    BitLengthMeans(n);
    Pow2Monotone(BitLength(n), 8 * k);
    Pow2Monotone(8 * k - 8, BitLength(n) - 1);
    LeadingOctet(n, k);
  }

  /** A cursor over a byte string. */
  class BerReader {
    const data: bytes
    var pos: nat

    constructor (data: bytes)
      ensures this.data == data && pos == 0
    {
      this.data := data;
      pos := 0;
    }

    /** read_tlv; None stands for IndexError. */
    method ReadElement() returns (r: Option<Element>)
      modifies this
      ensures match ReadAt(data, old(pos))
              case Truncated => r.None?
              case Read(e, next) => r == Some(e) && pos == next
    {
      if pos >= |data| { return None; }
      var start := pos;
      var tag := data[pos];
      pos := pos + 1;
      if pos >= |data| { return None; }
      var ln: nat := data[pos];
      pos := pos + 1;
      if ln >= 128 {
        var nbytes := ln - 128;
        ln := FromBytes(Slice(data, pos, nbytes));
        pos := pos + nbytes;
      }
      var value := Slice(data, pos, ln);
      pos := pos + ln;
      return Some(Element(tag, value));
    }

    predicate Eof()
      reads this
    {
      pos >= |data|
    }
  }

  // ---------- INTEGER ----------

  function IntOctets(n: nat): nat {
    if (BitLength(n) + 8) / 8 >= 1 then (BitLength(n) + 8) / 8 else 1
  }

  /** The contents octets of _encode_int: a zero octet is put in front of an INTEGER whose
      leading bit would be set. */
  function IntBody(n: nat, tag: byte): bytes {
    if n == 0 then [0]
    else
      var body := ToBytes(n, IntOctets(n));
      if body[0] >= 128 && tag == TAG_INTEGER then [0] + body else body
  }

  function EncodeInt(n: nat, tag: byte): bytes { Tlv(tag, IntBody(n, tag)) }

  lemma IntFits(n: nat)
    requires n > 0
    ensures var k := IntOctets(n);
      k > 0 && n < Pow2(8 * k - 1) <= Pow2(8 * k) && (k > 1 ==> Pow2(8 * k - 9) <= n)
  {
    var k := IntOctets(n);
    BitLengthMeans(n);
    Pow2Monotone(BitLength(n), 8 * k - 1);
    Pow2Monotone(8 * k - 1, 8 * k);
    if k > 1 { Pow2Monotone(8 * k - 9, BitLength(n) - 1); }
  }

  /** The leading bit is never set, so the padding branch of _encode_int is never taken. */
  lemma PaddingNeverNeeded(n: nat)
    requires n > 0
    ensures ToBytes(n, IntOctets(n))[0] < 128
  {
    hide BitLength, ToBytes, IntOctets, Pow2;
    IntFits(n);
    LeadingOctet(n, IntOctets(n));
  }

  /** Decoding an encoded non-negative INTEGER gives it back. */
  lemma DecodeEncodedInt(n: nat)
    ensures DecodeInt(IntBody(n, TAG_INTEGER)) == n
  {
    hide BitLength, ToBytes, IntOctets;
    if n == 0 {
      assert FromBytes([0]) == 0 by { assert [0][..0] == []; }
    } else {
      PaddingNeverNeeded(n);
      IntFits(n);
      FromToBytes(n, IntOctets(n));
    }
  }

  /** The same for every tag that carries a number. */
  lemma DecodeEncodedNumber(n: nat, tag: byte)
    ensures DecodeInt(IntBody(n, tag)) == n
  {
    hide BitLength, ToBytes, IntOctets, DecodeInt;
    if n > 0 { PaddingNeverNeeded(n); }
    assert IntBody(n, tag) == IntBody(n, TAG_INTEGER);
    DecodeEncodedInt(n);
  }

  /** The encoding is minimal: its first nine bits are never all zero (section 8.3.2). */
  lemma IntegerIsMinimal(n: nat)
    ensures var b := IntBody(n, TAG_INTEGER); |b| > 1 && b[0] == 0 ==> b[1] >= 128
  {
    hide BitLength, IntOctets, ToBytes, Pow2;
    if n > 0 {
      var k := IntOctets(n);
      PaddingNeverNeeded(n);
      IntFits(n);
      LeadingOctet(n, k);
      if k > 1 && n < Pow2(8 * k - 8) {
        TailBytes(n, k);
        LeadingOctet(n, k - 1);
      }
    }
  }

  /** A number that fits in fewer octets is written with zeros in front. */
  lemma {:induction false} TailBytes(n: nat, k: nat)
    requires k > 0 && n < Pow2(8 * k - 8)
    ensures ToBytes(n, k) == [0] + ToBytes(n, k - 1)
    decreases k
  {
    if k == 1 {
      assert n == 0;
    } else {
      Pow2Byte(8 * (k - 2));
      TailBytes(n / 256, k - 1);
    }
  }

  // ---------- OBJECT IDENTIFIER ----------

  type digit = x: int | 0 <= x < 128

  /** The base-128 digits of v, most significant first; none for 0. */
  function Digits128(v: nat): (ds: seq<digit>)
    ensures v > 0 ==> ds != []
  {
    if v == 0 then [] else Digits128(v / 128) + [v % 128]
  }

  function WithBit(d: digit): byte { 128 + (d as int) }

  /** The continuation bit on every digit. */
  function Continued(ds: seq<digit>): bytes {
    if ds == [] then [] else [WithBit(ds[0])] + Continued(ds[1..])
  }

  function EncodeArc(p: nat): bytes {
    if p == 0 then [0]
    else
      var ds := Digits128(p);
      Continued(ds[..|ds| - 1]) + [ds[|ds| - 1]]
  }

  function EncodeArcs(ps: seq<nat>): bytes {
    if ps == [] then [] else EncodeArc(ps[0]) + EncodeArcs(ps[1..])
  }

  /** parts, padded to two arcs. */
  function TwoArcs(arcs: seq<int>): (r: seq<int>)
    ensures |r| >= 2
  {
    if |arcs| < 2 then (arcs + [0, 0])[..2] else arcs
  }

  predicate Naturals(arcs: seq<int>) { forall a :: a in arcs ==> a >= 0 }

  /** The arcs after the second, when the digit loop ends on all of them. */
  function LaterArcs(arcs: seq<int>): (r: seq<nat>)
    requires Naturals(TwoArcs(arcs)[2..])
    ensures r == TwoArcs(arcs)[2..]
  {
    var later := TwoArcs(arcs)[2..];
    assert forall k :: 0 <= k < |later| ==> later[k] in later;
    later
  }

  /** The contents octets. None for ValueError, when the first octet would not fit, and for a
      negative arc after the second, on which the digit loop would not end; a negative first or
      second arc is only part of the first octet. */
  function OidBody(arcs: seq<int>): Option<bytes> {
    var a := TwoArcs(arcs);
    var first := a[0] * 40 + a[1];
    if 0 <= first < 256 && Naturals(a[2..]) then Some([first] + EncodeArcs(LaterArcs(arcs))) else None
  }

  /** The loop of _decode_oid after the first octet: octets of an unfinished arc are dropped. */
  function DecodeArcs(b: bytes, cur: nat): seq<nat> {
    if b == [] then []
    else
      var v := cur * 128 + b[0] % 128;
      if b[0] < 128 then [v] + DecodeArcs(b[1..], 0) else DecodeArcs(b[1..], v)
  }

  function DecodeOidArcs(b: bytes): seq<nat> {
    if b == [] then [] else [b[0] / 40, b[0] % 40] + DecodeArcs(b[1..], 0)
  }

  lemma EncodeArcsAt(out: bytes, parts: seq<nat>, j: nat)
    requires j < |parts|
    ensures out + EncodeArcs(parts[j..]) == (out + EncodeArc(parts[j])) + EncodeArcs(parts[j + 1..])
  {
    hide EncodeArc;
    assert parts[j..][1..] == parts[j + 1..];
  }

  method EncodeOidArcs(arcs: seq<int>) returns (r: Option<bytes>)
    ensures r == OidBody(arcs)
  {
    hide EncodeArcs, EncodeArc, TwoArcs;
    var parts := TwoArcs(arcs);
    var first := parts[0] * 40 + parts[1];
    if !(0 <= first < 256) || !Naturals(parts[2..]) { return None; }
    ghost var later := LaterArcs(arcs);
    var out: bytes := [first];
    var j := 2;
    assert later[0..] == later;
    while j < |parts|
      invariant 2 <= j <= |parts|
      invariant out + EncodeArcs(later[j - 2..]) == [first] + EncodeArcs(later)
    {
      assert parts[j] == later[j - 2] && later[j - 2] in later;
      EncodeArcsAt(out, later, j - 2);
      if parts[j] == 0 {
        assert EncodeArc(0) == [0] by { ZeroArc(); }
        out := out + [0];
      } else {
        var arc := EncodeArcLoop(parts[j]);
        out := out + arc;
      }
      j := j + 1;
    }
    assert later[j - 2..] == [];
    NoArcs();
    assert out + [] == out;
    return Some(out);
  }

  lemma ZeroArc()
    ensures EncodeArc(0) == [0]
  {}

  lemma NoArcs()
    ensures EncodeArcs([]) == []
  {}

  /** The two inner loops for one non-zero arc: the digits, then the continuation bits. */
  method EncodeArcLoop(p: nat) returns (out: bytes)
    requires p > 0
    ensures out == EncodeArc(p)
  {
    var chunk := DigitLoop(p);
    hide Digits128, WithBit;
    out := [];
    var n := |chunk| - 1;
    ghost var head := chunk[..n];
    assert head[0..] == head;
    for i := 0 to n
      invariant out + Continued(head[i..]) == Continued(head)
    {
      assert head[i..][0] == chunk[i] && head[i..][1..] == head[i + 1..];
      out := out + [WithBit(chunk[i])];
    }
    assert out == Continued(head);
    out := out + [chunk[n]];
  }

  method DigitLoop(p: nat) returns (chunk: seq<digit>)
    requires p > 0
    ensures chunk == Digits128(p) && chunk != []
  {
    chunk := [];
    var v: nat := p;
    while v > 0
      invariant Digits128(v) + chunk == Digits128(p)
      invariant v < p ==> chunk != []
      invariant v <= p
    {
      assert Digits128(v / 128) + ([v % 128] + chunk) == Digits128(v) + chunk;
      chunk := [v % 128] + chunk;
      v := v / 128;
    }
    assert Digits128(0) + chunk == chunk;
  }

  method DecodeOidLoop(value: bytes) returns (arcs: seq<nat>)
    ensures arcs == DecodeOidArcs(value)
  {
    if value == [] { return []; }
    hide DecodeArcs;
    arcs := [value[0] / 40, value[0] % 40];
    var i: nat, cur: nat := 1, 0;
    while i < |value|
      invariant 1 <= i <= |value|
      invariant arcs + DecodeArcs(value[i..], cur) == DecodeOidArcs(value)
    {
      var b := value[i];
      DecodeStep(value, i, cur);
      cur := cur * 128 + b % 128;
      if b < 128 {
        arcs := arcs + [cur];
        cur := 0;
      }
      i := i + 1;
    }
    DecodeStep(value, i, cur);
    assert arcs + [] == arcs;
  }

  lemma DecodeStep(value: bytes, i: nat, cur: nat)
    requires i <= |value|
    ensures DecodeArcs(value[i..], cur) ==
      if i == |value| then []
      else
        var v := cur * 128 + value[i] % 128;
        if value[i] < 128 then [v] + DecodeArcs(value[i + 1..], 0) else DecodeArcs(value[i + 1..], v)
  {
    if i < |value| { assert value[i..][1..] == value[i + 1..]; }
  }

  /** The value of base-128 digits read after cur. */
  function Accumulate(cur: nat, ds: seq<digit>): nat
    decreases |ds|
  {
    if ds == [] then cur else Accumulate(cur * 128 + ds[0], ds[1..])
  }

  lemma {:induction false} AccumulateAppend(cur: nat, ds: seq<digit>, d: digit)
    ensures Accumulate(cur, ds + [d]) == Accumulate(cur, ds) * 128 + d
    decreases |ds|
  {
    if ds == [] {
      assert ([] + [d])[1..] == [];
      assert Accumulate(cur * 128 + d, []) == cur * 128 + d;
    } else {
      assert (ds + [d])[1..] == ds[1..] + [d];
      AccumulateAppend(cur * 128 + ds[0], ds[1..], d);
    }
  }

  lemma {:induction false} AccumulateDigits(v: nat)
    ensures Accumulate(0, Digits128(v)) == v
  {
    if v > 0 {
      AccumulateDigits(v / 128);
      AccumulateAppend(0, Digits128(v / 128), v % 128);
    }
  }

  lemma {:induction false} DecodeContinued(ds: seq<digit>, rest: bytes, cur: nat)
    ensures DecodeArcs(Continued(ds) + rest, cur) == DecodeArcs(rest, Accumulate(cur, ds))
    decreases |ds|
  {
    if ds == [] {
      assert Continued(ds) + rest == rest;
    } else {
      var b := Continued(ds) + rest;
      assert b[0] == WithBit(ds[0]) && b[1..] == Continued(ds[1..]) + rest;
      DecodeContinued(ds[1..], rest, cur * 128 + ds[0]);
    }
  }

  lemma DecodeArc(p: nat, rest: bytes)
    ensures DecodeArcs(EncodeArc(p) + rest, 0) == [p] + DecodeArcs(rest, 0)
  {
    if p == 0 {
      assert ([0] + rest)[1..] == rest;
    } else {
      hide Digits128, Continued, Accumulate;
      var ds := Digits128(p);
      var last := ds[|ds| - 1];
      var tail := [last] + rest;
      assert EncodeArc(p) + rest == Continued(ds[..|ds| - 1]) + tail;
      DecodeContinued(ds[..|ds| - 1], tail, 0);
      AccumulateAppend(0, ds[..|ds| - 1], last);
      assert ds[..|ds| - 1] + [last] == ds;
      AccumulateDigits(p);
      assert tail[1..] == rest;
    }
  }

  lemma {:induction false} DecodeEncodedArcs(ps: seq<nat>)
    ensures DecodeArcs(EncodeArcs(ps), 0) == ps
  {
    hide EncodeArc;
    if ps != [] {
      DecodeArc(ps[0], EncodeArcs(ps[1..]));
      DecodeEncodedArcs(ps[1..]);
      assert ps == [ps[0]] + ps[1..];
    }
  }

  /** What an encoded identifier decodes to: its first two arcs are packed as 40 * a + b, so
      they come back as quotient and remainder by 40. */
  lemma DecodedOid(arcs: seq<int>)
    requires OidBody(arcs).Some?
    ensures var a := TwoArcs(arcs);
      var first := a[0] * 40 + a[1];
      0 <= first < 256 && DecodeOidArcs(OidBody(arcs).value) == [first / 40, first % 40] + LaterArcs(arcs)
  {
    hide EncodeArcs, DecodeArcs;
    var b := OidBody(arcs).value;
    assert b[1..] == EncodeArcs(LaterArcs(arcs));
    DecodeEncodedArcs(LaterArcs(arcs));
  }

  /** An identifier can be encoded if and only if its first octet fits and no later arc is negative;
      missing first arcs count as zero. */
  lemma EncodedExactlyWhen(arcs: seq<int>)
    ensures OidBody(arcs).Some? <==>
      0 <= (if arcs == [] then 0 else 40 * arcs[0]) + (if |arcs| < 2 then 0 else arcs[1]) <= 255
      && forall i :: 2 <= i < |arcs| ==> arcs[i] >= 0
    ensures |arcs| < 2 && OidBody(arcs).Some? ==> OidBody(arcs).value == [if arcs == [] then 0 else 40 * arcs[0]]
  {
    hide EncodeArcs;
    var a := TwoArcs(arcs);
    NoArcs();
    assert forall i :: 2 <= i < |arcs| ==> a[2..][i - 2] == arcs[i];
    if |arcs| < 2 { assert LaterArcs(arcs) == []; }
  }

  /** An identifier that can be encoded comes back unchanged exactly when it has at least two
      arcs and its second arc lies between 0 and 39. */
  lemma OidRoundTrip(arcs: seq<int>)
    requires OidBody(arcs).Some?
    ensures DecodeOidArcs(OidBody(arcs).value) == arcs <==> |arcs| >= 2 && 0 <= arcs[1] < 40
  {
    hide EncodeArcs, DecodeOidArcs;
    DecodedOid(arcs);
    var a := TwoArcs(arcs);
    var first: nat := a[0] * 40 + a[1];
    var d: seq<int> := [first / 40, first % 40] + LaterArcs(arcs);
    assert d[0] == first / 40 && d[1] == first % 40 && d[2..] == a[2..];
    if |arcs| >= 2 {
      assert arcs == [arcs[0], arcs[1]] + arcs[2..];
    }
  }
}
