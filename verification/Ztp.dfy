/** app.py, _ztp_allocate_ip: the DHCP pool allocator of the zero-touch provisioning flow. */
module Ztp {
  import opened Text
  import opened Bits
  import opened Ipv4

  /** A pool as configured (an unset network or mask is the empty text) and the device's
      excluded ranges, each given by its two ends. */
  datatype Pool = Pool(name: string, network: string, mask: string, router: Option<string>,
                       excluded: seq<(string, string)>)

  type Leases = map<string, set<string>>

  const FIRST_HOST: nat := 10

  /** The addresses that are never handed out, whatever is leased: both ends of every excluded
      range and the router. The inside of a range is not checked. */
  function Reserved(pool: Pool): set<string> {
    (set r | r in pool.excluded :: r.0) + (set r | r in pool.excluded :: r.1)
    + (if pool.router.Some? then {pool.router.value} else {})
  }

  /** Network address and first host number past the last usable one, when the pool is usable. */
  datatype Range = Unusable | Range(network: nat, stop: nat)

  function RangeOf(pool: Pool): (r: Range)
    ensures r.Range? ==> r.stop < 0x1_0000_0000
  {
    if pool.network == "" || pool.mask == "" then Unusable
    else
      match Parse(pool.network)
      case None => Unusable
      case Some(net) =>
        var prefix := MaskToPrefix(pool.mask);
        if prefix >= 32 then Unusable
        else
          Pow2Of32();
          Pow2Mono(32 - prefix, 32);
          Range(net, Pow2(32 - prefix) - 1)
  }

  lemma Pow2Mono(a: nat, b: nat)
    requires a <= b
    ensures Pow2(a) <= Pow2(b)
  {}

  function Address(net: nat, host: nat): string { Print(net + host) }

  /** The lowest host number from this one on whose address is not taken. */
  function NextFree(net: nat, host: nat, stop: nat, taken: set<string>): Option<nat>
    decreases stop - host
  {
    if host >= stop then None
    else if Address(net, host) in taken then NextFree(net, host + 1, stop, taken)
    else Some(host)
  }

  function Leased(leases: Leases, pool: Pool): set<string> {
    if pool.name in leases then leases[pool.name] else {}
  }

  function Taken(leases: Leases, pool: Pool): set<string> { Leased(leases, pool) + Reserved(pool) }

  datatype Allocation = Allocation(leases: Leases, answer: Option<string>)

  function AllocateSpec(leases: Leases, pool: Pool): Allocation {
    match RangeOf(pool)
    case Unusable => Allocation(leases, None)
    case Range(net, stop) =>
      match NextFree(net, FIRST_HOST, stop, Taken(leases, pool))
      case None => Allocation(leases[pool.name := Leased(leases, pool)], None)
      case Some(host) =>
        Allocation(leases[pool.name := Leased(leases, pool) + {Address(net, host)}], Some(Address(net, host)))
  }

  class DhcpServer {
    var leases: Leases

    constructor ()
      ensures leases == map[]
    {
      leases := map[];
    }

    method Allocate(pool: Pool) returns (answer: Option<string>)
      modifies this
      ensures Allocation(leases, answer) == AllocateSpec(old(leases), pool)
    {
      hide Address, Parse, MaskToPrefix, Reserved;
      var range := RangeOf(pool);
      if range.Unusable? { return None; }
      var net, stop := range.network, range.stop;
      var own := Leased(leases, pool);
      leases := leases[pool.name := own];
      var reserved := Reserved(pool);
      var host := FIRST_HOST;
      while host < stop
        invariant NextFree(net, FIRST_HOST, stop, own + reserved) == NextFree(net, host, stop, own + reserved)
        invariant leases == old(leases)[pool.name := own]
      {
        var candidate := Address(net, host);
        if candidate in reserved || candidate in own {
          host := host + 1;
          continue;
        }
        leases := leases[pool.name := own + {candidate}];
        assert leases == old(leases)[pool.name := own + {candidate}];
        return Some(candidate);
      }
      return None;
    }
  }

  // ---------- what one allocation promises ----------

  lemma {:induction false} NextFreeMeans(net: nat, host: nat, stop: nat, taken: set<string>)
    ensures var r := NextFree(net, host, stop, taken);
      (r.Some? ==> host <= r.value < stop && Address(net, r.value) !in taken)
      && forall h: nat :: host <= h < (if r.Some? then r.value else stop) ==> Address(net, h) in taken
    decreases stop - host
  {
    hide Address;
    if host < stop && Address(net, host) in taken {
      NextFreeMeans(net, host + 1, stop, taken);
    }
  }

  /** host is the lowest host number from 10 on that may be handed out. */
  ghost predicate LowestFree(leases: Leases, pool: Pool, host: nat)
    requires RangeOf(pool).Range?
  {
    var range := RangeOf(pool);
    FIRST_HOST <= host < range.stop && Address(range.network, host) !in Taken(leases, pool)
    && forall h: nat :: FIRST_HOST <= h < host ==> Address(range.network, h) in Taken(leases, pool)
  }

  /** The address handed out is the lowest host address, from host 10 up to the one before the
      broadcast address, that is neither leased nor reserved; None is the answer exactly when
      there is no such address or the pool is unusable. */
  lemma AllocatesLowestFree(leases: Leases, pool: Pool)
    ensures var r, range := AllocateSpec(leases, pool).answer, RangeOf(pool);
      if range.Unusable? then r.None?
      else if r.Some? then exists host: nat :: LowestFree(leases, pool, host) && r.value == Address(range.network, host)
      else forall h: nat :: FIRST_HOST <= h < range.stop ==> Address(range.network, h) in Taken(leases, pool)
  {
    hide Address, Parse, MaskToPrefix, Taken;
    match RangeOf(pool)
    case Unusable =>
    case Range(net, stop) =>
      NextFreeMeans(net, FIRST_HOST, stop, Taken(leases, pool));
      var r := NextFree(net, FIRST_HOST, stop, Taken(leases, pool));
      assert r.Some? ==> LowestFree(leases, pool, r.value);
  }

  /** No client of the pool has the address, it is no end of an excluded range and not the router's. */
  ghost predicate IsFree(leases: Leases, pool: Pool, address: string) {
    (pool.name in leases ==> address !in leases[pool.name])
    && (forall r :: r in pool.excluded ==> address != r.0 && address != r.1) && pool.router != Some(address)
  }

  ghost predicate FreeHost(leases: Leases, pool: Pool, net: nat, host: nat) { IsFree(leases, pool, Print(net + host)) }

  /** A pool of dotted network and mask gives out the lowest free address from host 10 up to the one
      before the broadcast address, and records it; it answers nothing where there is none. */
  lemma AllocatesFromNetwork(leases: Leases, pool: Pool, net: nat, prefix: nat)
    requires net <= ALL_ONES && prefix < 32 && pool.network == Print(net) && pool.mask == Print(Mask(prefix))
    ensures var r := AllocateSpec(leases, pool);
      match r.answer
      case Some(a) =>
        (exists h: nat :: 10 <= h < Pow2(32 - prefix) - 1 && a == Print(net + h) && FreeHost(leases, pool, net, h)
           && forall k :: 10 <= k < h ==> !FreeHost(leases, pool, net, k))
        && r.leases == leases[pool.name := (if pool.name in leases then leases[pool.name] else {}) + {a}]
      case None => forall k: nat :: 10 <= k < Pow2(32 - prefix) - 1 ==> !FreeHost(leases, pool, net, k)
  {
    hide Print, Parse, MaskToPrefix, Taken;
    ParsePrint(net);
    MaskReads(prefix);
    MaskIsOnes(prefix);
    assert Print(net) != "" && Print(Mask(prefix)) != "" by { Printed(net); Printed(Mask(prefix)); }
    assert RangeOf(pool) == Range(net, Pow2(32 - prefix) - 1);
    NextFreeMeans(net, 10, Pow2(32 - prefix) - 1, Taken(leases, pool));
    forall h: nat ensures Address(net, h) in Taken(leases, pool) <==> !FreeHost(leases, pool, net, h) {
      TakenMeans(leases, pool, Address(net, h));
    }
  }

  /** A pool without network or mask, with a network that is no address or a mask of no host bits gives
      nothing and records nothing; a mask with a part that is no number counts as 24 bits. */
  lemma NothingFromUnusable(leases: Leases, pool: Pool)
    ensures pool.network == "" || pool.mask == "" || Parse(pool.network) == None || MaskToPrefix(pool.mask) >= 32
      ==> AllocateSpec(leases, pool) == Allocation(leases, None)
    ensures Parts(pool.mask) == None ==> MaskToPrefix(pool.mask) == 24
  {
    hide Parse, Parts;
  }

  lemma Printed(n: nat)
    ensures Print(n) != ""
  {
    hide Octets;
    assert DecAll(Octets(n))[0] != "";
  }

  lemma TakenMeans(leases: Leases, pool: Pool, a: string)
    ensures a in Taken(leases, pool) <==> !IsFree(leases, pool, a)
  {}

  /** In a pool whose network address has no host bits, the address read as a number lies
      between host 10 and the address before broadcast. */
  lemma AllocatedInsidePool(leases: Leases, pool: Pool)
    requires RangeOf(pool).Range? && RangeOf(pool).network <= ALL_ONES
    requires RangeOf(pool).network % (RangeOf(pool).stop + 1) == 0
    requires AllocateSpec(leases, pool).answer.Some?
    ensures var range, v := RangeOf(pool), Parse(AllocateSpec(leases, pool).answer.value);
      v.Some? && range.network + FIRST_HOST <= v.value <= range.network + range.stop - 1 <= ALL_ONES - 1
  {
    hide Print, Parse, Taken, MaskToPrefix, AllocateSpec;
    var range := RangeOf(pool);
    AllocatesLowestFree(leases, pool);
    var host: nat :| LowestFree(leases, pool, host) && AllocateSpec(leases, pool).answer.value == Address(range.network, host);
    AlignedFits(range.network, 32 - MaskToPrefix(pool.mask));
    ParsePrint(range.network + host);
  }

  lemma AlignedFits(net: nat, bits: nat)
    requires bits <= 32 && net <= ALL_ONES && net % Pow2(bits) == 0
    ensures net + Pow2(bits) <= 0x1_0000_0000
  {
    var size, all := Pow2(bits), Pow2(32 - bits);
    assert all * size == 0x1_0000_0000 by {
      Pow2Of32();
      Pow2Add(32 - bits, bits);
    }
    RoundsUp(net, size, all);
  }

  lemma RoundsUp(net: nat, size: nat, all: nat)
    requires size > 0 && net % size == 0 && net < all * size
    ensures net + size <= all * size
  {
    var q := net / size;
    assert net == q * size;
    assert (all - q) * size == all * size - q * size;
    MultipleOutside(all - q, size);
  }

  // ---------- runs of allocations ----------

  /** The answers of n successive calls for one pool. */
  function Answers(leases: Leases, pool: Pool, n: nat): (r: seq<Option<string>>)
    ensures |r| == n
    decreases n
  {
    if n == 0 then []
    else
      var a := AllocateSpec(leases, pool);
      [a.answer] + Answers(a.leases, pool, n - 1)
  }

  /** Host numbers in [host, stop) whose address is not taken. */
  function CountFree(net: nat, host: nat, stop: nat, taken: set<string>): nat
    decreases stop - host
  {
    if host >= stop then 0
    else (if Address(net, host) in taken then 0 else 1) + CountFree(net, host + 1, stop, taken)
  }

  function FreeAddresses(leases: Leases, pool: Pool): nat {
    match RangeOf(pool)
    case Unusable => 0
    case Range(net, stop) => CountFree(net, FIRST_HOST, stop, Taken(leases, pool))
  }

  /** Addresses of different hosts of one pool differ, even in a pool that runs past 255.255.255.255. */
  lemma HostsDiffer(net: nat, a: nat, b: nat)
    requires a < b < 0x1_0000_0000
    ensures Address(net, a) != Address(net, b)
  {
    hide Print;
    if Print(net + a) == Print(net + b) {
      PrintDetermines(net + a, net + b);
      assert false;
    }
  }

  lemma {:induction false} CountAfterTaking(net: nat, host: nat, stop: nat, taken: set<string>, h: nat)
    requires stop < 0x1_0000_0000 && h < stop && Address(net, h) !in taken
    ensures CountFree(net, host, stop, taken + {Address(net, h)})
         == CountFree(net, host, stop, taken) - (if host <= h then 1 else 0)
    decreases stop - host
  {
    hide Address;
    if host < stop {
      CountAfterTaking(net, host + 1, stop, taken, h);
      if host < h { HostsDiffer(net, host, h); }
      if h < host { HostsDiffer(net, h, host); }
    }
  }

  lemma {:induction false} CountZero(net: nat, host: nat, stop: nat, taken: set<string>)
    ensures CountFree(net, host, stop, taken) == 0 <==> NextFree(net, host, stop, taken).None?
    decreases stop - host
  {
    hide Address;
    if host < stop {
      CountZero(net, host + 1, stop, taken);
    }
  }

  /** One call uses up exactly one free address, or none is left. */
  lemma AllocateUsesOne(leases: Leases, pool: Pool)
    ensures var a, before := AllocateSpec(leases, pool), FreeAddresses(leases, pool);
      (a.answer.Some? <==> before > 0)
      && FreeAddresses(a.leases, pool) == (if before > 0 then before - 1 else 0)
  {
    hide Address, Parse, MaskToPrefix, CountFree, NextFree, Reserved;
    match RangeOf(pool)
    case Unusable =>
    case Range(net, stop) =>
      var taken := Taken(leases, pool);
      CountZero(net, FIRST_HOST, stop, taken);
      NextFreeMeans(net, FIRST_HOST, stop, taken);
      var after := AllocateSpec(leases, pool).leases;
      match NextFree(net, FIRST_HOST, stop, taken)
      case None =>
        assert Taken(after, pool) == taken;
      case Some(host) =>
        CountAfterTaking(net, FIRST_HOST, stop, taken, host);
        assert Taken(after, pool) == taken + {Address(net, host)};
  }

  /** Over any run of calls: the first calls succeed, exactly as many as addresses were free,
      and every later call answers None. */
  lemma {:induction false} PoolIsUsedUp(leases: Leases, pool: Pool, n: nat)
    ensures forall i :: 0 <= i < n ==> (Answers(leases, pool, n)[i].Some? <==> i < FreeAddresses(leases, pool))
    decreases n
  {
    hide AllocateSpec, FreeAddresses;
    if n > 0 {
      var after := AllocateSpec(leases, pool).leases;
      AllocateUsesOne(leases, pool);
      PoolIsUsedUp(after, pool, n - 1);
    }
  }

  lemma AnswerIsFresh(leases: Leases, pool: Pool)
    ensures var a := AllocateSpec(leases, pool);
      (a.answer.Some? ==> a.answer.value !in Taken(leases, pool) && a.answer.value in Leased(a.leases, pool))
      && Leased(leases, pool) <= Leased(a.leases, pool)
  {
    hide Address, Parse, MaskToPrefix, Reserved;
    AllocatesLowestFree(leases, pool);
  }

  predicate Different(r: seq<Option<string>>) {
    forall i, j :: 0 <= i < j < |r| && r[i].Some? && r[j].Some? ==> r[i] != r[j]
  }

  /** Over any run of calls no address is handed out twice, none was leased before, and none is
      the router or an end of an excluded range. */
  lemma {:induction false} NeverLeasedTwice(leases: Leases, pool: Pool, n: nat)
    ensures var r := Answers(leases, pool, n);
      (forall a :: a in r && a.Some? ==> a.value !in Taken(leases, pool)) && Different(r)
    decreases n
  {
    hide AllocateSpec, Reserved, Leased;
    if n > 0 {
      var a := AllocateSpec(leases, pool);
      var rest := Answers(a.leases, pool, n - 1);
      AnswerIsFresh(leases, pool);
      NeverLeasedTwice(a.leases, pool, n - 1);
      assert Answers(leases, pool, n) == [a.answer] + rest;
      forall j | 0 <= j < n - 1 && rest[j].Some? ensures rest[j].value !in Leased(a.leases, pool) {
        assert rest[j] in rest;
        assert rest[j].value !in Taken(a.leases, pool);
      }
      assert Taken(leases, pool) <= Taken(a.leases, pool);
      var r := Answers(leases, pool, n);
      forall i, j | 0 <= i < j < n && r[i].Some? && r[j].Some? ensures r[i] != r[j] {
        assert r[j] == rest[j - 1];
        assert rest[j - 1].value !in Leased(a.leases, pool);
        if i > 0 {
          var h, k := i - 1, j - 1;
          assert Different(rest) && 0 <= h < k < |rest| && rest[h].Some? && rest[k].Some?;
          assert r[i] == rest[i - 1] && rest[i - 1] != rest[j - 1];
        } else {
          assert r[i] == a.answer && a.answer.value in Leased(a.leases, pool);
          assert r[i].value != r[j].value;
        }
      }
    }
  }
}
