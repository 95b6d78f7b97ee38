/** app.py: the OSPF "network A W area X" lines, entered on the CLI and printed by the
    running-config. The area is left aside. */
module Ospf {
  import opened Text
  import opened Bits
  import opened Ipv4

  const SLASH := "/"

  /** One "network" line: address and wildcard as typed or printed. */
  datatype Line = Line(address: string, wildcard: string)

  predicate AllOctets(vs: seq<int>) { |vs| == 4 && forall i :: 0 <= i < 4 ==> 0 <= vs[i] < 256 }

  /** struct.unpack('!I', bytes(...)): None when some part is no octet or there are not four. */
  function WildcardValue(wildcard: string): (w: Option<nat>)
    ensures w.Some? ==> w.value <= ALL_ONES
  {
    match Parts(wildcard)
    case Some(o) => if AllOctets(o) then Some(((o[0] * 256 + o[1]) * 256 + o[2]) * 256 + o[3]) else None
    case None => None
  }

  /** bin(~wc & 0xffffffff).count('1') */
  function WildcardPrefix(w: nat): nat
    requires w <= ALL_ONES
  {
    PopCount(ALL_ONES - w)
  }

  /** _network_address: "net/prefix", or "ip/prefix" when the address cannot be read. */
  function NetworkAddress(ip: string, prefix: nat): string
    requires prefix <= 32
  {
    match Parse(ip)
    case Some(n) => Print(BitAnd(n, Mask(prefix))) + SLASH + Dec(prefix)
    case None => ip + SLASH + Dec(prefix)
  }

  lemma {:induction false} PopCountAtMost(n: nat, k: nat)
    requires n < Pow2(k)
    ensures PopCount(n) <= k
    decreases k
  {
    if k > 0 {
      PopCountAtMost(n / 2, k - 1);
    }
  }

  lemma WildcardPrefixFits(w: nat)
    requires w <= ALL_ONES
    ensures WildcardPrefix(w) <= 32
  {
    Pow2Of32();
    PopCountAtMost(ALL_ONES - w, 32);
  }

  /** The networks after one line is entered; a wildcard that cannot be read raises an error
      and changes nothing. */
  function Entered(networks: seq<string>, line: Line): seq<string> {
    match WildcardValue(line.wildcard)
    case None => networks
    case Some(w) =>
      WildcardPrefixFits(w);
      var net := NetworkAddress(line.address, WildcardPrefix(w));
      if net in networks then networks else networks + [net]
  }

  function EnteredAll(networks: seq<string>, lines: seq<Line>): seq<string>
    decreases |lines|
  {
    if lines == [] then networks else EnteredAll(Entered(networks, lines[0]), lines[1..])
  }

  /** 0xffffffff >> prefix */
  function PrintedWildcard(prefix: nat): string { Print(ALL_ONES / Pow2(prefix)) }

  /** The running-config line of one stored network: the text before the first slash, and the
      wildcard of the prefix after it. */
  function Printed(net: string): Line {
    match Find(net, SLASH)
    case None => Line(net, PrintedWildcard(0))
    case Some(i) =>
      var p := net[i + 1..];
      if p == "" then Line(net[..i], PrintedWildcard(0))
      else
        match PyInt(p)
        case Some(prefix) => if prefix >= 0 then Line(net[..i], PrintedWildcard(prefix)) else Line(net[..i], Print(0xff))
        case None => Line(net[..i], Print(0xff))
  }

  function PrintedAll(networks: seq<string>): seq<Line> {
    if networks == [] then [] else [Printed(networks[0])] + PrintedAll(networks[1..])
  }

  class OspfConfig {
    var networks: seq<string>

    constructor ()
      ensures networks == []
    {
      networks := [];
    }

    method EnterNetwork(line: Line) returns (ok: bool)
      modifies this
      ensures ok == WildcardValue(line.wildcard).Some?
      ensures networks == Entered(old(networks), line)
    {
      var w := WildcardValue(line.wildcard);
      if w.None? { return false; }
      WildcardPrefixFits(w.value);
      var net := NetworkAddress(line.address, WildcardPrefix(w.value));
      if net !in networks { networks := networks + [net]; }
      return true;
    }

    method RunningConfig() returns (lines: seq<Line>)
      ensures lines == PrintedAll(networks)
    {
      lines := [];
      assert networks[0..] == networks;
      for i := 0 to |networks|
        invariant lines + PrintedAll(networks[i..]) == PrintedAll(networks)
      {
        assert networks[i..][1..] == networks[i + 1..];
        lines := lines + [Printed(networks[i])];
      }
    }
  }

  // ---------- wildcards ----------

  lemma DivideOnes(p: nat, h: nat)
    requires p > 0 && h > 0 && p * h == 0x1_0000_0000
    ensures ALL_ONES / p == h - 1 <= ALL_ONES
  {
    assert (h - 1) * p == p * h - p;
    ModIs(ALL_ONES, p, h - 1, p - 1);
  }

  /** 0xffffffff >> prefix is all host bits. */
  lemma HostOnes(prefix: nat)
    requires prefix <= 32
    ensures ALL_ONES / Pow2(prefix) == Pow2(32 - prefix) - 1 <= ALL_ONES
  {
    assert Pow2(prefix) * Pow2(32 - prefix) == 0x1_0000_0000 by {
      Pow2Of32();
      Pow2Add(prefix, 32 - prefix);
    }
    DivideOnes(Pow2(prefix), Pow2(32 - prefix));
  }

  /** The prefix read from an all-host-bits wildcard. */
  lemma HostOnesPrefix(prefix: nat)
    requires prefix <= 32 && Pow2(32 - prefix) - 1 <= ALL_ONES
    ensures WildcardPrefix(Pow2(32 - prefix) - 1) == prefix
  {
    hide Pow2, PopCount;
    MaskIsOnes(prefix);
    assert ALL_ONES - (Pow2(32 - prefix) - 1) == Mask(prefix);
  }

  lemma WildcardReads(w: nat)
    requires w <= ALL_ONES
    ensures WildcardValue(Print(w)) == Some(w)
  {
    hide Print, Parts, Octets, Parse;
    ParsePrint(w);
    OctetsAddUp(w);
    assert w % 0x1_0000_0000 == w;
  }

  /** Reading back a printed wildcard gives the prefix it was printed for. */
  lemma PrintedWildcardReads(prefix: nat)
    requires prefix <= 32
    ensures var w := WildcardValue(PrintedWildcard(prefix));
      w == Some(Pow2(32 - prefix) - 1) && WildcardPrefix(w.value) == prefix
  {
    hide Print, WildcardValue, WildcardPrefix, Pow2;
    HostOnes(prefix);
    HostOnesPrefix(prefix);
    WildcardReads(Pow2(32 - prefix) - 1);
  }

  predicate Contiguous(w: nat) { exists k: nat :: k <= 32 && w == Pow2(k) - 1 }

  /** The running-config shows the wildcard that was typed exactly when that wildcard is
      contiguous: for any other one it prints a different wildcard. */
  lemma TypedWildcardKept(w: nat)
    requires w <= ALL_ONES
    ensures WildcardPrefix(w) <= 32
    ensures PrintedWildcard(WildcardPrefix(w)) == Print(w) <==> Contiguous(w)
  {
    hide Print, WildcardPrefix, Pow2;
    WildcardPrefixFits(w);
    var prefix := WildcardPrefix(w);
    HostOnes(prefix);
    var shown := Pow2(32 - prefix) - 1;
    if Print(shown) == Print(w) {
      PrintDetermines(shown, w);
    }
    if Contiguous(w) {
      var k: nat :| k <= 32 && w == Pow2(k) - 1;
      HostOnesPrefix(32 - k);
    }
  }

  // ---------- the printed lines rebuild the list ----------

  /** 255.255.255.254 is such a wildcard: it is stored with prefix 1 and printed as
      127.255.255.255. */
  lemma EvenWildcardIsPrintedOdd()
    ensures WildcardPrefix(0xffff_fffe) == 1 && !Contiguous(0xffff_fffe)
    ensures PrintedWildcard(1) == Print(0x7fff_ffff) != Print(0xffff_fffe)
  {
    hide Print, Contiguous;
    assert PopCount(1) == 1;
    assert Pow2(1) == 2;
    hide PopCount, WildcardPrefix, Pow2;
    if Print(0x7fff_ffff) == Print(0xffff_fffe) { PrintDetermines(0x7fff_ffff, 0xffff_fffe); }
    TypedWildcardKept(0xffff_fffe);
  }

  /** A text the CLI can have stored: what NetworkAddress makes of a typed address, which
      consists of digits and dots. */
  ghost predicate Stored(net: string) {
    exists ip: string, prefix: nat :: StoredFrom(net, ip, prefix)
  }

  ghost predicate StoredFrom(net: string, ip: string, prefix: nat) {
    prefix <= 32 && '/' !in ip && net == NetworkAddress(ip, prefix)
  }

  lemma SlashSplits(before: string, prefix: nat)
    requires '/' !in before
    ensures Find(before + SLASH + Dec(prefix), SLASH) == Some(|before|)
    ensures (before + SLASH + Dec(prefix))[..|before|] == before
    ensures (before + SLASH + Dec(prefix))[|before| + 1..] == Dec(prefix)
  {
    NoCharNoFind(before, '/');
    FirstBeforeSeparator(before, SLASH, Dec(prefix));
  }

  lemma {:induction false} JoinHasNo(parts: seq<string>, sep: string, c: char)
    requires c !in sep && forall p :: p in parts ==> c !in p
    ensures c !in Join(parts, sep)
  {
    if |parts| > 1 {
      JoinHasNo(parts[1..], sep, c);
      assert parts[0] in parts;
    } else if |parts| == 1 {
      assert parts[0] in parts;
    }
  }

  lemma {:induction false} DecAllDigits(ns: seq<nat>)
    ensures forall p :: p in DecAll(ns) ==> '/' !in p
  {
    if ns != [] {
      DecAllDigits(ns[1..]);
      assert '/' !in Dec(ns[0]);
    }
  }

  lemma PrintHasNoSlash(n: nat)
    ensures '/' !in Print(n)
  {
    DecAllDigits(Octets(n));
    JoinHasNo(DecAll(Octets(n)), DOT, '/');
  }

  /** Masking an address again with its own prefix changes nothing. */
  lemma NetworkAddressAgain(ip: string, prefix: nat)
    requires prefix <= 32 && '/' !in ip
    ensures exists shown ::
      '/' !in shown && NetworkAddress(ip, prefix) == shown + SLASH + Dec(prefix)
      && NetworkAddress(shown, prefix) == NetworkAddress(ip, prefix)
  {
    hide Print, Text.PyInt, Dec;
    match Parse(ip)
    case None =>
    case Some(n) =>
      var net := BitAnd(n, Mask(prefix));
      BitAndTwice(n, Mask(prefix));
      ParsePrint(net);
      PrintHasNoSlash(net);
      assert NetworkAddress(ip, prefix) == Print(net) + SLASH + Dec(prefix);
  }

  lemma PrintedReenters(net: string)
    requires Stored(net)
    ensures forall networks :: Entered(networks, Printed(net)) == if net in networks then networks else networks + [net]
  {
    hide Print, Text.PyInt, Dec, NetworkAddress, PrintedWildcard, Parts, PopCount;
    var ip: string, prefix: nat :| StoredFrom(net, ip, prefix);
    NetworkAddressAgain(ip, prefix);
    var shown :| '/' !in shown && net == shown + SLASH + Dec(prefix) && NetworkAddress(shown, prefix) == net;
    SlashSplits(shown, prefix);
    PyIntDec(prefix);
    assert Dec(prefix) != "";
    assert Printed(net) == Line(shown, PrintedWildcard(prefix));
    PrintedWildcardReads(prefix);
  }

  /** The list the CLI keeps: storable texts, none twice. */
  ghost predicate Reachable(networks: seq<string>) {
    (forall n :: n in networks ==> Stored(n)) && forall i, j :: 0 <= i < j < |networks| ==> networks[i] != networks[j]
  }

  /** Every list reached by typing lines (addresses of digits and dots) is of that kind. */
  lemma {:induction false} TypedIsReachable(networks: seq<string>, lines: seq<Line>)
    requires Reachable(networks) && forall l :: l in lines ==> '/' !in l.address
    ensures Reachable(EnteredAll(networks, lines))
    decreases |lines|
  {
    hide NetworkAddress, WildcardValue, WildcardPrefix;
    if lines != [] {
      var l := lines[0];
      assert l in lines;
      if WildcardValue(l.wildcard).Some? {
        var w := WildcardValue(l.wildcard).value;
        WildcardPrefixFits(w);
        assert StoredFrom(NetworkAddress(l.address, WildcardPrefix(w)), l.address, WildcardPrefix(w));
      }
      TypedIsReachable(Entered(networks, l), lines[1..]);
    }
  }

  lemma {:induction false} ReentersRest(before: seq<string>, rest: seq<string>)
    requires Reachable(before + rest)
    ensures EnteredAll(before, PrintedAll(rest)) == before + rest
    decreases |rest|
  {
    hide Stored, Entered, Printed;
    if rest == [] {
      assert before + rest == before;
    } else {
      var net := rest[0];
      assert (before + rest)[|before|] == net;
      assert net !in before by {
        forall i | 0 <= i < |before| ensures before[i] != net { assert (before + rest)[i] == before[i]; }
      }
      PrintedReenters(net);
      assert before + [net] + rest[1..] == before + rest;
      ReentersRest(before + [net], rest[1..]);
    }
  }

  /** Whatever lines were typed, entering the printed running-config on a fresh device rebuilds
      the same network list in the same order, and entering it again on the device itself
      changes nothing. */
  lemma RunningConfigRebuilds(lines: seq<Line>)
    requires forall l :: l in lines ==> '/' !in l.address
    ensures var networks := EnteredAll([], lines);
      EnteredAll([], PrintedAll(networks)) == networks
      && EnteredAll(networks, PrintedAll(networks)) == networks
  {
    hide Reachable, EnteredAll, Entered, Printed;
    var networks := EnteredAll([], lines);
    assert Reachable([]) by { NothingReachable(); }
    TypedIsReachable([], lines);
    assert [] + networks == networks;
    ReentersRest([], networks);
    KnownChangesNothing(networks, networks);
  }

  lemma NothingReachable()
    ensures Reachable([])
  {}

  lemma {:induction false} KnownChangesNothing(networks: seq<string>, known: seq<string>)
    requires Reachable(networks) && forall n :: n in known ==> n in networks
    ensures EnteredAll(networks, PrintedAll(known)) == networks
    decreases |known|
  {
    hide Stored, Entered, Printed;
    if known != [] {
      assert known[0] in known;
      PrintedReenters(known[0]);
      KnownChangesNothing(networks, known[1..]);
    }
  }

  /** The address stored for a readable 32-bit address is that address without its host bits. */
  lemma StoredAddressIsTheNetwork(n: nat, prefix: nat)
    requires n <= ALL_ONES && prefix <= 32
    ensures NetworkAddress(Print(n), prefix) == Print(n - n % Pow2(32 - prefix)) + SLASH + Dec(prefix)
  {
    hide Print, Dec, Parse, Parts, BitAnd, Mask, Pow2, Octets;
    ParsePrint(n);
    MaskClearsHostBits(n, prefix);
  }
}
