/** Dotted quads and mask arithmetic shared by engine/netconf_agent.py and app.py. */
module Ipv4 {
  import opened Text
  import opened Bits

  const ALL_ONES: nat := 0xffff_ffff
  const DOT := "."

  // ---------- masks ----------

  /** (0xffffffff << (32 - prefix)) & 0xffffffff: the mask of a prefix length. */
  function Mask(prefix: nat): nat
    requires prefix <= 32
  {
    (ALL_ONES * Pow2(32 - prefix)) % 0x1_0000_0000
  }

  /** A prefix's mask is that many one bits, then zero bits. */
  lemma MaskIsOnes(prefix: nat)
    requires prefix <= 32
    ensures Mask(prefix) == Ones(prefix, 32 - prefix) == 0x1_0000_0000 - Pow2(32 - prefix)
    ensures PopCount(Mask(prefix)) == prefix
  {
    var k := 32 - prefix;
    Pow2Of32();
    OnesIs(prefix, k);
    PopCountOnes(prefix, k);
    assert ALL_ONES * Pow2(k) == (Pow2(k) - 1) * 0x1_0000_0000 + Ones(prefix, k);
    ModIs(ALL_ONES * Pow2(k), 0x1_0000_0000, Pow2(k) - 1, Ones(prefix, k));
  }

  /** Masking an address with a prefix's mask clears exactly its host bits. */
  lemma MaskClearsHostBits(n: nat, prefix: nat)
    requires n <= ALL_ONES && prefix <= 32
    ensures BitAnd(n, Mask(prefix)) == n - n % Pow2(32 - prefix)
  {
    MaskIsOnes(prefix);
    Pow2Of32();
    BitAndOnes(n, prefix, 32 - prefix);
    ClearLowIs(n, 32 - prefix);
  }

  // ---------- dotted quads ----------

  /** The octets of the low 32 bits, most significant first: (n >> s) & 0xff. */
  function Octets(n: int): (o: seq<nat>)
    ensures |o| == 4 && forall i :: 0 <= i < 4 ==> o[i] < 256
  {
    [(n / 0x100_0000) % 256, (n / 0x1_0000) % 256, (n / 256) % 256, n % 256]
  }

  function DecAll(ns: seq<nat>): seq<string> {
    if ns == [] then [] else [Dec(ns[0])] + DecAll(ns[1..])
  }

  function IntAll(parts: seq<string>): Option<seq<int>> {
    if parts == [] then Some([])
    else
      match (PyInt(parts[0]), IntAll(parts[1..]))
      case (Some(v), Some(vs)) => Some([v] + vs)
      case _ => None
  }

  /** _int_to_ip_str */
  function Print(n: int): string { Join(DecAll(Octets(n)), DOT) }

  predicate NonNegative(vs: seq<int>) { forall v :: v in vs ==> v >= 0 }

  /** (o[0] << 24) | (o[1] << 16) | (o[2] << 8) | o[3] */
  function Combine(o: seq<int>): nat
    requires |o| >= 4 && NonNegative(o)
  {
    assert o[0] in o && o[1] in o && o[2] in o && o[3] in o;
    BitOr(BitOr(BitOr(o[0] * 0x100_0000, o[1] * 0x1_0000), o[2] * 256), o[3])
  }

  /** The numbers of a dotted text; None for ValueError. */
  function Parts(ip: string): Option<seq<int>> { IntAll(Split(ip, DOT)) }

  /** _ip_str_to_int: None for ValueError or IndexError; further parts are ignored. */
  function Parse(ip: string): Option<nat> {
    match Parts(ip)
    case Some(o) => if |o| >= 4 && NonNegative(o) then Some(Combine(o)) else None
    case None => None
  }

  /** For octets the shifted parts do not overlap, so they add up. */
  lemma CombineOctets(o: seq<nat>)
    requires |o| == 4 && forall i :: 0 <= i < 4 ==> o[i] < 256
    ensures Combine(o) == o[0] * 0x100_0000 + o[1] * 0x1_0000 + o[2] * 256 + o[3]
  {
    hide BitOr;
    assert Pow2(24) == 0x100_0000 && Pow2(16) == 0x1_0000 && Pow2(8) == 256 by { Pow2Of32(); }
    BitOrDisjoint(o[0], o[1] * 0x1_0000, 24);
    BitOrDisjoint(o[0] * 256 + o[1], o[2] * 256, 16);
    BitOrDisjoint((o[0] * 256 + o[1]) * 256 + o[2], o[3], 8);
  }

  lemma {:induction false} DecAllReads(ns: seq<nat>)
    ensures |DecAll(ns)| == |ns| && IntAll(DecAll(ns)) == Some(ns)
    ensures forall p :: p in DecAll(ns) ==> Find(p, DOT).None?
  {
    if ns != [] {
      DecAllReads(ns[1..]);
      PyIntDec(ns[0]);
      var s := Dec(ns[0]);
      assert '.' !in s;
      NoCharNoFind(s, '.');
      assert DecAll(ns)[1..] == DecAll(ns[1..]);
      assert ns == [ns[0]] + ns[1..];
    }
  }

  /** Printed numbers joined with dots split and read back to the same numbers. */
  lemma DottedReads(ns: seq<nat>)
    requires ns != []
    ensures IntAll(Split(Join(DecAll(ns), DOT), DOT)) == Some(ns)
  {
    DecAllReads(ns);
    SplitJoin(DecAll(ns), DOT);
  }

  lemma OctetsAddUp(n: nat)
    ensures var o := Octets(n);
      n % 0x1_0000_0000 == ((o[0] * 256 + o[1]) * 256 + o[2]) * 256 + o[3]
  {
    var a, b, c := n / 256, n / 0x1_0000, n / 0x100_0000;
    assert b == a / 256 && c == b / 256;
    var d := c / 256;
    ModIs(n, 0x1_0000_0000, d, (((c % 256) * 256 + b % 256) * 256 + a % 256) * 256 + n % 256);
  }

  lemma OctetsValue(n: nat)
    requires n <= ALL_ONES
    ensures Combine(Octets(n)) == n
  {
    hide BitOr, Octets;
    OctetsAddUp(n);
    CombineOctets(Octets(n));
  }

  /** Every 32-bit address prints as a dotted quad that parses back to it. */
  lemma ParsePrint(n: nat)
    requires n <= ALL_ONES
    ensures Parts(Print(n)) == Some(Octets(n)) && Parse(Print(n)) == Some(n)
  {
    DottedReads(Octets(n));
    OctetsValue(n);
  }

  /** Only the low 32 bits are printed, and all of them. */
  lemma PrintDetermines(m: nat, n: nat)
    requires Print(m) == Print(n)
    ensures m % 0x1_0000_0000 == n % 0x1_0000_0000
  {
    DottedReads(Octets(m));
    DottedReads(Octets(n));
    OctetsAddUp(m);
    OctetsAddUp(n);
  }

  function Abs(v: int): nat { if v < 0 then -v else v }

  function SumPopCounts(vs: seq<int>): nat {
    if vs == [] then 0 else PopCount(Abs(vs[0])) + SumPopCounts(vs[1..])
  }

  /** _mask_to_prefix: the one bits of all parts, 24 when some part is no number. */
  function MaskToPrefix(mask: string): nat {
    match Parts(mask)
    case Some(vs) => SumPopCounts(vs)
    case None => 24
  }

  lemma OctetsPopCount(n: nat)
    requires n <= ALL_ONES
    ensures SumPopCounts(Octets(n)) == PopCount(n)
  {
    hide PopCount, Octets, SumPopCounts, Pow2;
    var o := Octets(n);
    OctetsAddUp(n);
    var high := o[0] * 256 + o[1];
    var higher := high * 256 + o[2];
    OneOctet(o[0], o[1]);
    OneOctet(high, o[2]);
    OneOctet(higher, o[3]);
    SumOfFour(o);
  }

  lemma OneOctet(n: nat, low: nat)
    requires low < 256
    ensures PopCount(n * 256 + low) == PopCount(n) + PopCount(low)
  {
    hide PopCount;
    Pow2Of32();
    PopCountSplit(n, low, 8);
  }

  lemma SumOfFour(o: seq<nat>)
    requires |o| == 4
    ensures SumPopCounts(o) == PopCount(o[0]) + PopCount(o[1]) + PopCount(o[2]) + PopCount(o[3])
  {
    hide PopCount;
    assert o[1..][1..] == o[2..] && o[2..][1..] == o[3..] && o[3..][1..] == [];
    assert SumPopCounts(o[3..]) == PopCount(o[3]) + SumPopCounts([]);
    assert SumPopCounts(o[2..]) == PopCount(o[2]) + SumPopCounts(o[3..]);
    assert SumPopCounts(o[1..]) == PopCount(o[1]) + SumPopCounts(o[2..]);
  }

  /** The dotted mask of a prefix length reads back as that length. */
  lemma MaskReads(prefix: nat)
    requires prefix <= 32
    ensures MaskToPrefix(Print(Mask(prefix))) == prefix
  {
    hide PopCount, Octets, Print, Parts;
    MaskIsOnes(prefix);
    ParsePrint(Mask(prefix));
    OctetsPopCount(Mask(prefix));
  }
}
