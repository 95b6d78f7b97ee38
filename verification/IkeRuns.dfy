/** engine/ike_engine.py and the cascade of app.py: what holds over whole runs of negotiations,
    link changes and dead-peer polls. */
module IkeRuns {
  import opened Text
  import opened Ike
  import opened IkeTopology

  datatype Event = Ike(device: nat, now: real) | Keying(device: nat) | Sig(device: nat, signal: Signal)

  function Step(lab: Lab, e: Event, seed: Seed): Lab {
    match e
    case Ike(i, now) => Negotiate(lab, i, seed, now)
    case Keying(i) => Manual(lab, i)
    case Sig(i, s) => SignalDevice(lab, i, s)
  }

  function Run(lab: Lab, es: seq<Event>, seed: Seed): Lab
    decreases |es|
  {
    if es == [] then lab else Run(Step(lab, es[0], seed), es[1..], seed)
  }

  lemma SameToItself(cfg: Config)
    ensures SameUpToKeying(cfg, cfg)
  {}

  lemma StepKeeps(lab: Lab, e: Event, seed: Seed)
    ensures SameUpToKeying(lab.cfg, Step(lab, e, seed).cfg)
  {
    hide Negotiate, SameUpToKeying, SignalDevice, Manual;
    SameToItself(lab.cfg);
  }

  // ---------- the SPIs of the two ends ----------

  /** Each end of every pair receives what the other sends, and an established tunnel has SPIs. */
  ghost predicate Exchanged(lab: Lab) {
    (forall a, b :: Pair(lab.cfg, a, b) ==> Crossed(lab.At(a), lab.At(b)))
    && (forall key :: lab.At(key).status.Established? ==> HasSpis(lab.At(key)))
  }

  predicate Crossed(s: Tunnel, t: Tunnel) { s.spiIn == t.spiOut && s.spiOut == t.spiIn }

  predicate HasSpis(s: Tunnel) { s.spiIn.Some? && s.spiOut.Some? }

  /** A step that leaves SPIs alone and establishes nothing. */
  ghost predicate Quiet(lab: Lab, lab': Lab) {
    forall key :: lab'.At(key).spiIn == lab.At(key).spiIn && lab'.At(key).spiOut == lab.At(key).spiOut
      && (lab'.At(key).status.Established? ==> lab.At(key).status.Established?)
  }

  /** A step that gives crossed SPIs to a tunnel and, if it has one, its pair. */
  ghost predicate Connects(lab: Lab, lab': Lab, a: Key, b: Option<Key>) {
    HasSpis(lab'.At(a))
    && (b.Some? ==> HasSpis(lab'.At(b.value)) && Crossed(lab'.At(a), lab'.At(b.value)))
    && (forall key :: key != a && Some(key) != b ==> lab'.At(key) == lab.At(key))
  }

  lemma QuietKeepsExchanged(lab: Lab, lab': Lab)
    requires Exchanged(lab) && lab'.cfg == lab.cfg && Quiet(lab, lab')
    ensures Exchanged(lab')
  {
    hide Pair;
  }

  lemma ConnectsKeepsExchanged(lab: Lab, lab': Lab, a: Key, b: Option<Key>)
    requires Exchanged(lab) && Unique(lab.cfg) && SameUpToKeying(lab.cfg, lab'.cfg) && Connects(lab, lab', a, b)
    requires forall c :: Pair(lab.cfg, a, c) ==> b == Some(c)
    requires forall c :: b.Some? && Pair(lab.cfg, b.value, c) ==> c == a
    ensures Exchanged(lab')
  {
    hide Pair, Unique, SameUpToKeying, HasSpis;
    forall c, d | Pair(lab'.cfg, c, d) ensures Crossed(lab'.At(c), lab'.At(d)) {
      PairSame(lab.cfg, lab'.cfg, c, d);
      PairSymmetric(lab.cfg, c, d);
    }
    forall key | lab'.At(key).status.Established? ensures HasSpis(lab'.At(key)) {
      assert key != a && Some(key) != b ==> lab'.At(key) == lab.At(key);
    }
  }

  lemma FailureIsQuiet(lab: Lab, key: Key, seed: Seed, now: real)
    requires HasTunnel(lab.cfg, key) && VerdictOf(lab.cfg, key) != Up
    ensures Quiet(lab, NegotiateTunnel(lab, key, seed, now))
  {
    hide VerdictOf, PeerOf;
    PeerInRange(lab.cfg, key);
  }

  lemma SuccessConnects(lab: Lab, key: Key, seed: Seed, now: real)
    requires HasTunnel(lab.cfg, key) && VerdictOf(lab.cfg, key) == Up
    ensures var peer := PeerOf(lab.cfg, key);
      Connects(lab, NegotiateTunnel(lab, key, seed, now), key, if peer.SirPeer? then Some(peer.key) else None)
  {
    hide VerdictOf, PeerOf;
    PeerInRange(lab.cfg, key);
  }

  lemma NegotiateTunnelExchanges(lab: Lab, key: Key, seed: Seed, now: real)
    requires Exchanged(lab) && Unique(lab.cfg) && HasTunnel(lab.cfg, key) && SirFamily(lab.cfg[key.device].kind)
    ensures Exchanged(NegotiateTunnel(lab, key, seed, now))
  {
    hide Exchanged, Unique, VerdictOf, PeerOf, NegotiateTunnel, Quiet, Connects;
    var lab' := NegotiateTunnel(lab, key, seed, now);
    if VerdictOf(lab.cfg, key) != Up {
      FailureIsQuiet(lab, key, seed, now);
      QuietKeepsExchanged(lab, lab');
    } else {
      var peer := PeerOf(lab.cfg, key);
      var b := if peer.SirPeer? then Some(peer.key) else None;
      PeerInRange(lab.cfg, key);
      SuccessConnects(lab, key, seed, now);
      SameToItself(lab.cfg);
      forall c | b.Some? && Pair(lab.cfg, b.value, c) ensures c == key {
        UpHasAddresses(lab.cfg, key);
        assert Pair(lab.cfg, key, b.value);
        PairSymmetric(lab.cfg, key, b.value);
      }
      ConnectsKeepsExchanged(lab, lab', key, b);
    }
  }

  lemma UpHasAddresses(cfg: Config, key: Key)
    requires HasTunnel(cfg, key) && VerdictOf(cfg, key) == Up
    ensures TunnelOf(cfg, key).localIp != "" && TunnelOf(cfg, key).remoteIp != ""
    ensures PeerOf(cfg, key).SirPeer? ==> SirFamily(cfg[PeerOf(cfg, key).key.device].kind)
  {}

  lemma {:induction false} NegotiateFromExchanges(lab: Lab, i: nat, k: nat, seed: Seed, now: real)
    requires Exchanged(lab) && Unique(lab.cfg) && i < |lab.cfg| && SirFamily(lab.cfg[i].kind)
    ensures Exchanged(NegotiateFrom(lab, i, k, seed, now))
    decreases |lab.cfg[i].tunnels| - k
  {
    hide Exchanged, Unique, NegotiateTunnel;
    if k < |lab.cfg[i].tunnels| {
      NegotiateTunnelExchanges(lab, Key(i, k), seed, now);
      NegotiateFromExchanges(NegotiateTunnel(lab, Key(i, k), seed, now), i, k + 1, seed, now);
    }
  }

  /** The tunnel that manual keying connects is the pair, if the tunnel has one. */
  lemma ManualPeerIsPair(cfg: Config, key: Key, c: Key)
    requires HasTunnel(cfg, key) && Pair(cfg, key, c) && ManualPeer(cfg, key).Some?
    ensures ManualPeer(cfg, key) == Some(c)
  {
    hide FindPeer, TunnelIndex;
  }

  lemma ManualPeerBack(cfg: Config, key: Key, c: Key)
    requires Unique(cfg) && HasTunnel(cfg, key) && SirFamily(cfg[key.device].kind) && ManualPeer(cfg, key).Some?
    requires TunnelOf(cfg, key).localIp != "" && TunnelOf(cfg, key).remoteIp != ""
    requires Pair(cfg, ManualPeer(cfg, key).value, c)
    ensures c == key
  {
    hide FindPeer, TunnelIndex, Unique;
    var p := ManualPeer(cfg, key).value;
    assert SirFamily(cfg[p.device].kind);
    assert Pair(cfg, key, p);
    PairSymmetric(cfg, key, p);
  }

  lemma ManualTunnelExchanges(lab: Lab, key: Key)
    requires Exchanged(lab) && Unique(lab.cfg) && HasTunnel(lab.cfg, key) && SirFamily(lab.cfg[key.device].kind)
    ensures Exchanged(ManualTunnel(lab, key))
  {
    hide Exchanged, Unique, ManualPeer, SaCreatable, Pair, Keyed, SameUpToKeying;
    var lab' := ManualTunnel(lab, key);
    var t := TunnelOf(lab.cfg, key);
    ManualTunnelKeeps(lab, key);
    if IsManual(t) && ManualUp(lab.cfg, key) {
      ManualUpPeer(lab.cfg, key);
      var p := ManualPeer(lab.cfg, key).value;
      assert TunnelOf(WithTunnel(lab.cfg, key, Keyed(t)), p) == TunnelOf(lab.cfg, p);
      assert Connects(lab, lab', key, Some(p));
      forall c | Pair(lab.cfg, key, c) ensures Some(p) == Some(c) { ManualPeerIsPair(lab.cfg, key, c); }
      forall c | Pair(lab.cfg, p, c) ensures c == key { ManualPeerBack(lab.cfg, key, c); }
      ConnectsKeepsExchanged(lab, lab', key, Some(p));
    } else {
      assert lab'.cfg == lab.cfg && Quiet(lab, lab');
      QuietKeepsExchanged(lab, lab');
    }
  }

  lemma {:induction false} ManualFromExchanges(lab: Lab, i: nat, k: nat)
    requires Exchanged(lab) && Unique(lab.cfg) && i < |lab.cfg| && SirFamily(lab.cfg[i].kind)
    ensures Exchanged(ManualFrom(lab, i, k))
    decreases |lab.cfg[i].tunnels| - k
  {
    hide Exchanged, Unique, ManualTunnel;
    if k < |lab.cfg[i].tunnels| {
      ManualTunnelExchanges(lab, Key(i, k));
      ManualTunnelKeeps(lab, Key(i, k));
      var lab' := ManualTunnel(lab, Key(i, k));
      UniqueSame(lab.cfg, lab'.cfg);
      SwitchesSame(lab.cfg, lab'.cfg, i);
      ManualFromExchanges(lab', i, k + 1);
    }
  }

  /** Every tunnel of the device gets the signal once, and no other record changes. */
  lemma {:induction false} SignalEffect(lab: Lab, i: nat, k: nat, s: Signal, key: Key)
    requires i < |lab.cfg|
    ensures SignalFrom(lab, i, k, s).At(key) ==
      if key.device == i && k <= key.tunnel < |lab.cfg[i].tunnels| then Signalled(TunnelOf(lab.cfg, key), lab.At(key), s)
      else lab.At(key)
    decreases |lab.cfg[i].tunnels| - k
  {
    hide Signalled;
    if k < |lab.cfg[i].tunnels| {
      SignalEffect(lab.With(Key(i, k), Signalled(lab.cfg[i].tunnels[k], lab.At(Key(i, k)), s)), i, k + 1, s, key);
    }
  }

  lemma SignalIsQuiet(lab: Lab, i: nat, s: Signal)
    ensures Quiet(lab, SignalDevice(lab, i, s))
  {
    forall key ensures
      var t, t' := lab.At(key), SignalDevice(lab, i, s).At(key);
      t'.spiIn == t.spiIn && t'.spiOut == t.spiOut && (t'.status.Established? ==> t.status.Established?)
    {
      if i < |lab.cfg| { SignalEffect(lab, i, 0, s, key); }
    }
  }

  lemma StepExchanges(lab: Lab, e: Event, seed: Seed)
    requires Exchanged(lab) && Unique(lab.cfg)
    ensures Exchanged(Step(lab, e, seed)) && Unique(Step(lab, e, seed).cfg)
  {
    hide Exchanged, Unique, NegotiateFrom, ManualFrom, SignalDevice, SameUpToKeying;
    StepKeeps(lab, e, seed);
    UniqueSame(lab.cfg, Step(lab, e, seed).cfg);
    match e
    case Ike(i, now) =>
      if i < |lab.cfg| && SirFamily(lab.cfg[i].kind) { NegotiateFromExchanges(lab, i, 0, seed, now); }
    case Keying(i) =>
      if i < |lab.cfg| && ManualCapable(lab.cfg[i].kind) { ManualFromExchanges(lab, i, 0); }
    case Sig(i, s) =>
      SignalIsQuiet(lab, i, s);
      QuietKeepsExchanged(lab, SignalDevice(lab, i, s));
  }

  lemma {:induction false} RunExchanges(lab: Lab, es: seq<Event>, seed: Seed)
    requires Exchanged(lab) && Unique(lab.cfg)
    ensures Exchanged(Run(lab, es, seed))
    decreases |es|
  {
    hide Exchanged, Unique, Step;
    if es != [] {
      StepExchanges(lab, es[0], seed);
      RunExchanges(Step(lab, es[0], seed), es[1..], seed);
    }
  }

  /** Over any run of IKE and manual negotiations by any Si-R-family initiators, link changes and
      polls, from untouched tunnels: whenever both ends of a pair are established, each has SPIs
      and receives on the SPI the other sends with. */
  lemma EstablishedEndsAgree(cfg: Config, es: seq<Event>, seed: Seed, a: Key, b: Key)
    requires Unique(cfg)
    requires var lab := Run(Lab(cfg, map[], map[]), es, seed);
      Pair(lab.cfg, a, b) && lab.At(a).status.Established? && lab.At(b).status.Established?
    ensures var lab := Run(Lab(cfg, map[], map[]), es, seed);
      HasSpis(lab.At(a)) && HasSpis(lab.At(b)) && Crossed(lab.At(a), lab.At(b))
  {
    hide Run, Pair, Unique, HasSpis, Crossed;
    var lab := Lab(cfg, map[], map[]);
    assert Exchanged(lab) by { NothingExchanged(cfg); }
    RunExchanges(lab, es, seed);
  }

  lemma NothingExchanged(cfg: Config)
    ensures Exchanged(Lab(cfg, map[], map[]))
  {
    hide Pair;
  }
}
